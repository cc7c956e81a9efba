/** What a request brings in and what a view hands back, reduced to what the modelled routes decide. */
module Web {
  import opened Wrappers

  /** The views a redirect can name (`url_for(...)`). */
  datatype Endpoint = LoginView | OtpView | BiometricView | DashboardView | BackupPageView | StudentsListView

  /** The templates a view can render, with the data the routes compute for them. */
  datatype Page =
    | LoginPage
    | RegisterPage
    | OtpPage
    | BiometricPage
    | DashboardPage(labels: seq<string>, data: seq<nat>)
    | StudentFormPage(addressPrefill: Option<string>)
    | StudentsListPage

  /**
   * A view's answer: a redirect or a rendered page (each with the message it flashes), a file download,
   * a 404 from `get_or_404`, or an exception that escapes the view (a 500).
   */
  datatype Response =
    | Redirect(to: Endpoint, flash: Option<string>)
    | Render(page: Page, flash: Option<string>)
    | Attachment(filename: string, body: Bytes)
    | NotFound
    | ServerError(error: PyError)

  /** A request to a form view: a GET, or a POST carrying the form and whether its CSRF token checked. */
  datatype Request<F> = Get | Post(csrfOk: bool, form: F)

  /** The request part of `form.validate_on_submit()`; the caller adds the form's own validators. */
  predicate Submitted<F>(req: Request<F>) {
    req.Post? && req.csrfOk
  }

  /** The message flask_login flashes when `@login_required` turns a request away. */
  const LoginRequiredMessage := "Please log in to access this page."
}
