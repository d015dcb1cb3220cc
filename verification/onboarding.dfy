/** The shell of the backend-connected client: screen selection with its
    three gates (sign in, link a partner, set the anniversary), the sign-in
    and sign-out transitions, and the main screen's view dispatch. The
    browser's saved session is an input. */
module Onboarding {
  import opened Base
  import opened Text
  import opened Accounts
  import opened Screens

  /** The state the shell starts in. */
  const Initial: Shell := Shell(true, None, "welcome")

  /** The start-up effect: a saved user, when there is one, is signed in, and
      loading ends either way. */
  function FinishLoading(s: Shell, saved: Option<User>): (r: Shell)
    ensures !r.isLoading && r.authView == s.authView
    ensures r.user == if saved.Some? then saved else s.user
  {
    Shell(false, if saved.Some? then saved else s.user, s.authView)
  }

  /** Start-up: the shell opens on the loading screen and leaves it once the
      saved session has been read. A saved user then sees exactly what a
      fresh sign-in would show; with nothing saved, the first start shows the
      welcome screen. */
  lemma StartUp(s: Shell, saved: Option<User>)
    ensures SelectScreen(Initial) == Loading
    ensures SelectScreen(FinishLoading(s, saved)) != Loading
    ensures saved.Some? ==>
      SelectScreen(FinishLoading(s, saved)) == SelectScreen(HandleLogin(s.(isLoading := false), saved.value))
    ensures SelectScreen(FinishLoading(Initial, None)) == Welcome
  {
  }

  /** `handleLogout`: nobody is signed in and the login view is selected. */
  function HandleLogout(s: Shell): (r: Shell)
    ensures r.user.None? && r.authView == "login" && r.isLoading == s.isLoading
    ensures !s.isLoading ==> SelectScreen(r) == Login
  {
    s.(user := None, authView := "login")
  }

  /** The screen `App` renders. */
  function SelectScreen(s: Shell): (r: Screen)
    ensures s.isLoading <==> r == Loading
    ensures !s.isLoading && s.user.None? ==> r == AuthScreen(s.authView)
    ensures r.LinkPartner? <==> !s.isLoading && s.user.Some? && !Truthy(s.user.value.linkedPartnerCode)
    ensures r.SetAnniversary? <==>
      !s.isLoading && s.user.Some? && Truthy(s.user.value.linkedPartnerCode)
      && !Truthy(s.user.value.anniversaryDate)
    ensures r.MainApp? <==>
      !s.isLoading && s.user.Some? && Truthy(s.user.value.linkedPartnerCode)
      && Truthy(s.user.value.anniversaryDate)
    ensures r.LinkPartner? || r.SetAnniversary? || r.MainApp? ==> r.user == s.user.value
  {
    if s.isLoading then Loading
    else if s.user.None? then AuthScreen(s.authView)
    else if !Truthy(s.user.value.linkedPartnerCode) then LinkPartner(s.user.value)
    else if !Truthy(s.user.value.anniversaryDate) then SetAnniversary(s.user.value)
    else MainApp(s.user.value)
  }

  /** After signing in, the screen depends only on the user: the shell's
      authentication view no longer matters. */
  lemma LoginScreenDependsOnUser(s1: Shell, s2: Shell, user: User)
    requires !s1.isLoading && !s2.isLoading
    ensures SelectScreen(HandleLogin(s1, user)) == SelectScreen(HandleLogin(s2, user))
    ensures SelectScreen(HandleLogin(s1, user)) != Loading
    ensures !SelectScreen(HandleLogin(s1, user)).Welcome?
  {
  }

  /** Where the dashboard's anniversary comes from: the stored date when it
      is truthy, otherwise the current time. */
  function AnniversaryOf(user: User): (r: AnniversarySource)
    ensures r.StoredDate? <==> Truthy(user.anniversaryDate)
    ensures r.StoredDate? ==> r.date == user.anniversaryDate.value
  {
    if Truthy(user.anniversaryDate) then StoredDate(user.anniversaryDate.value) else CurrentTime
  }

  /** `MainApp.renderView`: each view name selects its component, and every
      other name, `"dashboard"` included, selects the dashboard. */
  function RenderView(view: string, user: User): (r: Component)
    ensures r.Dashboard? <==>
      view !in ["lovejar", "qa", "memories", "chat", "location", "games", "pet", "shop"]
    ensures r.Dashboard? ==> r.anniversary == AnniversaryOf(user)
    ensures view == "lovejar" <==> r == LoveJar
    ensures view == "qa" <==> r == CoupleQa
    ensures view == "memories" <==> r == Memories
    ensures view == "chat" <==> r == Chat
    ensures view == "location" <==> r == Location
    ensures view == "games" <==> r == Games
    ensures view == "pet" <==> r == Pet
    ensures view == "shop" <==> r == Shop
  {
    match view
    case "lovejar" => LoveJar
    case "qa" => CoupleQa
    case "memories" => Memories
    case "chat" => Chat
    case "location" => Location
    case "games" => Games
    case "pet" => Pet
    case "shop" => Shop
    case _ => Dashboard(AnniversaryOf(user))
  }

  /** On the main screen the dashboard always has the user's own date. */
  lemma MainDashboardUsesStoredDate(s: Shell, view: string)
    requires SelectScreen(s).MainApp?
    ensures var c := RenderView(view, SelectScreen(s).user);
            c.Dashboard? ==> c.anniversary == StoredDate(s.user.value.anniversaryDate.value)
  {
  }
}
