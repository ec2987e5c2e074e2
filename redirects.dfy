/** redirects.ts: every admin route answers with a redirect to the dashboard carrying an
    optional message, error and share token. The routes also pass the current `path`, which
    redirectToDashboard does not read, so it is not part of the reply. */
module Redirects {
  import opened Wrappers

  datatype DashboardRedirect = DashboardRedirect(message: Option<string>, error: Option<string>, share: Option<string>)

  function Failure(error: string): DashboardRedirect
  {
    DashboardRedirect(None, Some(error), None)
  }

  function Success(message: string): DashboardRedirect
  {
    DashboardRedirect(Some(message), None, None)
  }

  function Created(message: string, token: string): DashboardRedirect
  {
    DashboardRedirect(Some(message), None, Some(token))
  }
}
