/** What the two application shells share: the screens they choose between,
    the components the main screen can show, and the authentication views. */
module Screens {
  import opened Base
  import opened Accounts
  import opened Calendar

  /** The top-level screen a shell renders. The screens that act on the
      signed-in user carry it. */
  datatype Screen =
    | Loading
    | Welcome
    | Login
    | SignUp
    | LinkPartner(user: User)
    | SetAnniversary(user: User)
    | MainApp(user: User)

  /** Where the dashboard's anniversary comes from: the user's stored date
      string, the current time when there is none, or a date fixed in code. */
  datatype AnniversarySource = StoredDate(date: string) | CurrentTime | FixedDate(at: DateTime)

  /** The component the main screen shows for the selected view. */
  datatype Component =
    | Dashboard(anniversary: AnniversarySource)
    | LoveJar
    | CoupleQa
    | Memories
    | Chat
    | Location
    | Games
    | Pet
    | Shop

  /** The shell's state: still loading, the signed-in user if any, and the
      authentication view. The view is a string because the welcome screen
      passes whatever its caller gives it. */
  datatype Shell = Shell(isLoading: bool, user: Option<User>, authView: string)

  /** The `switch (authView)` both shells run with nobody signed in:
      unknown names fall back to the welcome screen. */
  function AuthScreen(authView: string): (r: Screen)
    ensures r == Login <==> authView == "login"
    ensures r == SignUp <==> authView == "signup"
    ensures r == Welcome <==> authView != "login" && authView != "signup"
  {
    match authView
    case "login" => Login
    case "signup" => SignUp
    case _ => Welcome
  }

  /** `handleLogin`: the signed-in user is replaced and nothing else
      changes. Both shells also use it after sign-up and after linking. */
  function HandleLogin(s: Shell, user: User): (r: Shell)
    ensures r.user == Some(user) && r.isLoading == s.isLoading && r.authView == s.authView
  {
    s.(user := Some(user))
  }
}
