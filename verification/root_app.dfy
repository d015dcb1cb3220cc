/** The shell of the in-browser client: screen selection with two gates
    (sign in, link a partner), the sign-in, link and sign-out transitions, and
    the main screen's view dispatch with its anniversary fixed in code. */
module RootApp {
  import opened Base
  import opened Text
  import opened Accounts
  import opened Calendar
  import opened Screens
  import Onboarding

  /** The anniversary the main screen passes to the dashboard:
      26 October 2022 at noon. */
  const FixedAnniversary: DateTime := DateTime(2022, 10, 26, 12 * 3_600_000)

  const Initial: Shell := Shell(true, None, "welcome")

  /** The start-up effect: the session store's current user replaces the
      state's, whether or not there is one, and loading ends. */
  function FinishLoading(s: Shell, current: Option<User>): (r: Shell)
    ensures !r.isLoading && r.user == current && r.authView == s.authView
  {
    Shell(false, current, s.authView)
  }

  /** Start-up: the shell opens on the loading screen and leaves it once the
      session store has been read. A current user then sees exactly what a
      fresh sign-in would show; with none, the authentication view decides,
      and on the first start that is the welcome screen. */
  lemma StartUp(s: Shell, current: Option<User>)
    ensures SelectScreen(Initial) == Loading
    ensures SelectScreen(FinishLoading(s, current)) != Loading
    ensures current.Some? ==>
      SelectScreen(FinishLoading(s, current)) == SelectScreen(HandleLogin(s.(isLoading := false), current.value))
    ensures current.None? ==> SelectScreen(FinishLoading(s, current)) == AuthScreen(s.authView)
    ensures SelectScreen(FinishLoading(Initial, None)) == Welcome
  {
  }

  /** `handleLink`: the linked user replaces the signed-in one, exactly as
      `handleLogin` does. */
  function HandleLink(s: Shell, user: User): (r: Shell)
    ensures r == HandleLogin(s, user)
  {
    s.(user := Some(user))
  }

  /** `handleLogout`: nobody is signed in and the welcome view is selected. */
  function HandleLogout(s: Shell): (r: Shell)
    ensures r.user.None? && r.authView == "welcome" && r.isLoading == s.isLoading
    ensures !s.isLoading ==> SelectScreen(r) == Welcome
  {
    s.(user := None, authView := "welcome")
  }

  /** The screen `App` renders: no anniversary gate. */
  function SelectScreen(s: Shell): (r: Screen)
    ensures s.isLoading <==> r == Loading
    ensures !s.isLoading && s.user.None? ==> r == AuthScreen(s.authView)
    ensures r.LinkPartner? <==> !s.isLoading && s.user.Some? && !Truthy(s.user.value.linkedPartnerCode)
    ensures !r.SetAnniversary?
    ensures r.MainApp? <==> !s.isLoading && s.user.Some? && Truthy(s.user.value.linkedPartnerCode)
    ensures r.LinkPartner? || r.MainApp? ==> r.user == s.user.value
  {
    if s.isLoading then Loading
    else if s.user.None? then AuthScreen(s.authView)
    else if !Truthy(s.user.value.linkedPartnerCode) then LinkPartner(s.user.value)
    else MainApp(s.user.value)
  }

  /** The two shells agree except for a linked user with no anniversary, whom
      this shell admits to the main screen and the other sends to the date
      screen. */
  lemma ShellsDifferOnlyOnAnniversary(s: Shell)
    ensures Onboarding.SelectScreen(s) != SelectScreen(s) <==>
      !s.isLoading && s.user.Some? && Truthy(s.user.value.linkedPartnerCode)
      && !Truthy(s.user.value.anniversaryDate)
  {
  }

  /** `MainApp.renderView`. There is no "games" case here, so that name, like
      every unknown one, selects the dashboard, which always gets the fixed
      anniversary. */
  function RenderView(view: string): (r: Component)
    ensures r.Dashboard? <==> view !in ["lovejar", "qa", "memories", "chat", "location", "shop", "pet"]
    ensures r.Dashboard? ==> r.anniversary == FixedDate(FixedAnniversary)
    ensures view == "lovejar" <==> r == LoveJar
    ensures view == "qa" <==> r == CoupleQa
    ensures view == "memories" <==> r == Memories
    ensures view == "chat" <==> r == Chat
    ensures view == "location" <==> r == Location
    ensures view == "shop" <==> r == Shop
    ensures view == "pet" <==> r == Pet
    ensures !r.Games?
  {
    match view
    case "lovejar" => LoveJar
    case "qa" => CoupleQa
    case "memories" => Memories
    case "chat" => Chat
    case "location" => Location
    case "shop" => Shop
    case "pet" => Pet
    case _ => Dashboard(FixedDate(FixedAnniversary))
  }

  /** The two shells' view dispatch agrees on every name except "games",
      which only the other shell knows, and the dashboard's anniversary. */
  lemma RenderViewsAgree(view: string, user: User)
    ensures view != "games" && !RenderView(view).Dashboard? ==>
      RenderView(view) == Onboarding.RenderView(view, user)
    ensures RenderView(view).Dashboard? <==>
      Onboarding.RenderView(view, user).Dashboard? || view == "games"
  {
  }

  /** The fixed anniversary is a real date, and the dashboards of every user
      count from the same instant. */
  lemma FixedAnniversaryIsValid()
    ensures Valid(FixedAnniversary)
    ensures RenderView("games") == RenderView("dashboard")
  {
  }
}
