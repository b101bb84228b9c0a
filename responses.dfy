/**
 * What a handler hands back instead of calling `flash`, `redirect` and
 * `render_template`: the severity-tagged message queued for the next page and
 * where the browser is sent, or the page shown, or an HTTP error.
 */
module Responses {
  import opened Schema

  datatype Severity = Success | Danger | Info

  /** One flashed message. */
  datatype Flash = Flash(severity: Severity, message: string)

  /** The routes a handler can send the browser to or render. */
  datatype Endpoint =
    | HomePage
    | RegisterPage
    | LoginPage
    | PortfolioPage
    | ProjectPage(projectId: nat)

  datatype Response =
    | Redirect(to: Endpoint, flash: Flash)
    | ShowForm(form: Endpoint, flash: Flash)
    | ShowProject(project: Project, comments: seq<Comment>)
    | NotFound
    | Unauthorized
}
