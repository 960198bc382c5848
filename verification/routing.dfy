/** What a Next.js middleware answers for a request: let it through, or redirect. */
module Routing {

  import opened Results

  datatype Decision = Next | Redirect(location: string)

  const LoginPage: string := "/login"
  const SignupPage: string := "/signup"
  const DashboardPage: string := "/dashboard"

  /** A `token` cookie value that JavaScript treats as true: present and non-empty. */
  predicate HasToken(token: Option<string>) {
    token.Some? && token.value != ""
  }
}
