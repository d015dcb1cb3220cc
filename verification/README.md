# applove in Dafny

A model of the logic at the heart of applove, a couples app ("Love Space"):

- **Account store and partner linking, two versions.**
  - The in-browser store (`LocalAuth`) keeps every user in one object, keyed by username, plus a current-user slot.
  - The HTTP backend (`Backend`) keeps a `users` table and adds two routes: anniversary synchronisation and partner lookup.
- **The dashboard clock** (`Calendar`, `Dashboard`):
  - time elapsed since the anniversary, in days, hours, minutes and seconds;
  - the next anniversary and the days until it.
- **The Love Jar** (`LoveJar`): add, remove and generate date ideas.
- **The question game** (`CoupleQa`): a question history capped at five.
- **The two application shells.** `Onboarding` is `frontend/src/App.tsx` and `RootApp` is `App.tsx`. Both cover screen selection, the sign-in and sign-out transitions, and the main screen's view dispatch. `Screens` holds the parts they share.

Every operation is a pure function:

- A writing operation returns the new state together with its result.
- An error the source throws or answers with an HTTP status becomes a variant of the result.

Shared modules:

- `Base` holds `Option`.
- `Text` holds the JavaScript string operations the app relies on: `toUpperCase`, `trim`, `includes`, and truthiness.
- `Generated` holds the filter the app applies to the text service's replies, and the fallback replies of the two service clients.
- `Accounts` holds the user and partner shapes.

Inputs of the model:

- Generated unique codes, the password hash and the password check are parameters.
- The current time is a parameter.
- The text service's reply is a parameter.
- The session saved in the browser is a parameter.

Behaviours of the code that a reader might not expect, all modelled as written:

- Linking has no "partner already linked elsewhere" refusal.
- Linking has no separate self-link error. A code whose first holder is the requester gives the same 404 as an unknown code. The backend decides this by username, not by code.
- The anniversary route writes to every row whose code, or whose link, is the caller's code. This is a reverse lookup: it does not follow the caller's own link.
- The anniversary route answers 404 only after writing.
- The two UPDATEs of linking run one after the other.

## Model

| member | source | states |
|---|---|---|
| `Text.Upper` | backend/src/index.ts:113 | same length; every ASCII lower-case letter becomes upper case, every other character is kept |
| `Text.UpperIdempotent` | services/authService.ts:118 | upper-casing a code twice equals upper-casing it once, so a stored upper-case code matches what the user typed in any case |
| `Text.Trim` | frontend/src/components/LoveJar.tsx:16-17 | the result is a slice of the input with only whitespace outside it; its ends are not whitespace; it is empty exactly when the input is all whitespace |
| `Text.Contains` | frontend/src/components/LoveJar.tsx:29 | true exactly when the pattern occurs at some index: a case-sensitive substring test |
| `Text.OrElse` | services/authService.ts:103-104 | JavaScript's logical or on an optional string: `a` when it is present and non-empty, `b` otherwise |
| `Generated.QuestionFallbackPassesFilter` | services/geminiService.ts:27 | the question fallback starts with a capital "N", so the case-sensitive filter lets it through |
| `Generated.ProxyFallbacksAreFiltered` | frontend/src/services/geminiService.ts:14 | the proxy-backed client's date-idea fallback embeds the lower-case phrase and is rejected |
| `LocalAuth.FakeHashInjective` | services/authService.ts:37 | two passwords with the same stand-in hash are equal |
| `LocalAuth.SignUp` | services/authService.ts:39-57 | a taken username throws and changes nothing; otherwise exactly one entry is added and no other entry changes. The new entry is a password account with hash `hashed_` + password, its display name is the username, and it has no link. The returned user becomes the current user |
| `LocalAuth.Login` | services/authService.ts:60-77 | succeeds iff the entry exists, is a password account and its hash is that of the password; the users record never changes; on success the stored data become the current user |
| `LocalAuth.LoginOrSignUpWithGoogle` | services/authService.ts:79-109 | an unknown e-mail gets a Google entry with no hash; a known Google entry is left as is and its code is returned; an e-mail of a password account throws and changes nothing; missing display data fall back to Google's; the returned user never carries an anniversary date |
| `LocalAuth.FirstWithCode` | services/authService.ts:117-122 | the position of the first key in enumeration order whose entry holds the code; none exactly when no key does |
| `LocalAuth.PartnerOf` | services/authService.ts:117-122 | the chosen partner holds the code and is the first such username in enumeration order; none is chosen only when nobody holds the code |
| `LocalAuth.LinkPartner` | services/authService.ts:112-136 | no holder of the upper-cased code, or the holder is the caller: throws and changes nothing. Success: the caller's entry links to the upper-cased code, the partner's entry links to the caller's client-side code, every other entry is unchanged, and the returned user is the input with the new link. Linking succeeds exactly when another, non-empty username holds the code and the caller has an entry; a caller with no entry throws the distinct not-stored error |
| `LocalAuth.Logout` | services/authService.ts:148-150 | clears the current-user slot and nothing else |
| `LocalAuth.SignUpThenLogin` | services/authService.ts:39-66 | after a sign-up, login with the same username succeeds exactly with the signed-up password |
| `LocalAuth.SignUpAllowsDuplicateCodes` | services/authService.ts:45-52 | sign-up can hand out a code another entry already holds, leaving two entries with one code |
| `LocalAuth.LinkIsMutual` | services/authService.ts:129-130 | when the caller's client-side code is its stored code, after a link each entry names the other's code |
| `LocalAuth.ThirdUserKeepsStaleLink` | services/authService.ts:124-131 | a third entry that pointed at the partner still does after the link, while the partner no longer points back |
| `LocalAuth.OperationsKeepAccounts` | services/authService.ts:39-150 | every operation keeps the enumeration order consistent with the record and never removes an entry or changes its code, sign-in method or hash |
| `Backend.FirstRow` | backend/src/index.ts:113-114 | `rows[0]` of a query: the first row in storage order that matches; none exactly when no row matches |
| `Backend.ViewIsPublicColumns` | backend/src/index.ts:29-36 | two rows have the same view exactly when their six selected columns agree: the hash and sign-in method never reach a client |
| `Backend.SetLink` | backend/src/index.ts:118-119 | `UPDATE … SET linked_partner_code`: every row the WHERE clause selects gets the link, every other row is unchanged, and no row is added or removed |
| `Backend.Signup` | backend/src/index.ts:42-54 | a taken username gives 409 and inserts nothing; otherwise exactly one row is appended: display name = username, password account, the given hash and code, no picture, link or date; answer 201 with its view |
| `Backend.Login` | backend/src/index.ts:65-76 | only the first password account with the username is consulted: 200 exactly when the password check accepts its hash, 500 exactly when its hash is NULL, 401 otherwise (no such account included); never writes; on success the answer is the view of the username's first row |
| `Backend.GoogleSignin` | backend/src/index.ts:87-101 | 409 exactly when the e-mail's first row is not a Google account, with no write; a row is inserted only when no row has the e-mail; otherwise the answer is the e-mail's first row |
| `Backend.LinkPartner` | backend/src/index.ts:113-122 | 404 with no write when no row has the upper-cased code or its first holder is the requester. Otherwise every holder of the code gets the requester's client-side code as its link, and every other row named like the requester gets the upper-cased code. All other rows are unchanged, and the answer is the requester's re-read view. The writes happen exactly when the code's first holder has another username |
| `Backend.SetAnniversary` | backend/src/index.ts:134-141 | writes the date to exactly the rows with the code or linked to it; 404 iff no row has the code, decided after the write; otherwise the answer is that row's view, carrying the date |
| `Backend.GetPartner` | backend/src/index.ts:154-168 | 404 when the caller is unknown or its link is empty or NULL; 404 with another reason when the link names no row; otherwise only username, display name and picture of the linked row |
| `Backend.HandlerStatuses` | backend/src/index.ts:42-168 | the status codes each route answers with: signup 201 or 409, login 200, 401 or 500, Google sign-in 200 or 409, linking 200 or 404, saving the date 200 or 404, fetching the partner 200 or 404 |
| `Backend.SignupThenLogin` | backend/src/index.ts:42-76 | after a sign-up, login succeeds exactly when the password check accepts the stored hash, and returns the new row's view |
| `Backend.LinkIsMutual` | backend/src/index.ts:118-119 | with distinct usernames and codes, after a link the requester's row names the partner's code and the partner's row names the requester's |
| `Backend.LinkIsIdempotent` | backend/src/index.ts:113-122 | repeating a successful link writes nothing new |
| `Backend.ThirdRowKeepsStaleLink` | backend/src/index.ts:118-119 | no already-linked check: a third row pointing at the partner keeps that link while the partner points elsewhere |
| `Backend.AnniversaryReaches` | backend/src/index.ts:134 | the anniversary WHERE clause: the row holding the code, or any row whose link is the code |
| `Backend.AnniversarySharedByPair` | backend/src/index.ts:134 | for a mutually linked pair, setting the date through either code writes it to both rows |
| `Backend.AnniversaryIsReverseLookup` | backend/src/index.ts:134 | a row the caller links to, which does not link back, keeps its date |
| `Backend.AnniversaryNotFoundAfterWrite` | backend/src/index.ts:134-139 | a 404 from the anniversary route can come with a changed table |
| `Backend.GetPartnerFollowsLink` | backend/src/index.ts:154-168 | with distinct codes, the lookup returns the public part of the row the caller's link names |
| `Backend.LinkThenGetPartner` | backend/src/index.ts:113-168 | after a successful link, the requester's partner lookup returns the partner row's public part |
| `Backend.HandlersKeepIdentities` | backend/src/index.ts:42-141 | writing handlers append at most one row, never delete one, never change a row's username, code, sign-in method or hash, keep usernames distinct, and keep codes distinct when the new code is fresh |
| `Calendar.SetFullYear` | frontend/src/components/Dashboard.tsx:43-45 | the year changes; month, day and time are kept, except that 29 February in a common year becomes the day after 28 February |
| `Calendar.EarlierYearEarlierInstant` | frontend/src/components/Dashboard.tsx:44 | a valid date in an earlier year is an earlier instant |
| `Calendar.SameYearOrder` | frontend/src/components/Dashboard.tsx:44 | within a year, instants compare by month, then day, then time |
| `Calendar.MillisInjective` | frontend/src/components/Dashboard.tsx:35 | two valid dates at the same instant are equal |
| `Dashboard.Trunc` | frontend/src/components/Dashboard.tsx:37-39 | `Math.trunc`, the rounding inside `%`: the integer no farther from zero than `x` and within one of it |
| `Dashboard.Ceil` | frontend/src/components/Dashboard.tsx:48 | `Math.ceil`: the least integer at or above `x` |
| `Dashboard.JsRem` | frontend/src/components/Dashboard.tsx:37-39 | `%` on numbers: the remainder has the dividend's sign, is smaller than the divisor in size, and differs from the dividend by a whole multiple of the divisor, which together fix its value |
| `Dashboard.TimeTogether` | frontend/src/components/Dashboard.tsx:35-39 | `days` is the whole number of days in `diff`: `days * 86400000 <= diff < (days + 1) * 86400000`, for either sign |
| `Dashboard.TimeTogetherInIntegers` | frontend/src/components/Dashboard.tsx:36-39 | each floating-point counter equals integer arithmetic on `diff`: floor division, minus `k` times the truncated quotient for the `%` counters |
| `Dashboard.TimeTogetherIsClock` | frontend/src/components/Dashboard.tsx:36-39 | for `diff >= 0`: hours in [0,24), minutes and seconds in [0,60), each the integer remainder, and `days*86400 + hours*3600 + minutes*60 + seconds == diff / 1000` |
| `Dashboard.TimeTogetherBeforeAnniversary` | frontend/src/components/Dashboard.tsx:36-39 | for `diff < 0` every counter is at most zero, hours down to -24 and minutes and seconds down to -60 |
| `Dashboard.HoursReachMinusTwentyFour` | frontend/src/components/Dashboard.tsx:36-39 | 23.5 hours before the anniversary the counters read -1 day, -24 hours, -30 minutes, 0 seconds, so the hours bound -24 is reached |
| `Dashboard.NextAnniversary` | frontend/src/components/Dashboard.tsx:42-46 | never before now; in now's year, or the next year exactly when now is strictly after this year's occurrence; time of day kept |
| `Dashboard.NextAnniversaryKeepsDate` | frontend/src/components/Dashboard.tsx:42-45 | except for 29 February, only the year changes |
| `Dashboard.NextAnniversaryIsEarliest` | frontend/src/components/Dashboard.tsx:42-46 | except for 29 February, no earlier year's occurrence is at or after now |
| `Dashboard.DaysUntil` | frontend/src/components/Dashboard.tsx:48 | for any two dates, the least whole number of days `k` with `k * 86400000 >= next - now` |
| `Dashboard.DaysUntilIsLeastCover` | frontend/src/components/Dashboard.tsx:47-48 | the countdown is non-negative and the least `k` with `k * 86400000 >= next - now` |
| `Dashboard.CalculateTime` | frontend/components/Dashboard.tsx:17-33 | both identical copies (also frontend/src/components/Dashboard.tsx:32-48): the next occurrence is valid, not before now, at the anniversary's time of day, in now's year or the next one, the next one exactly when this year's occurrence has passed, and on the anniversary's date unless that is 29 February; the countdown is the least whole number of days covering the gap; the days elapsed bracket the difference; from the anniversary on, hours, minutes and seconds are the clock fields adding up to the whole seconds elapsed, and before it they are non-positive |
| `Dashboard.DayBeforeAnniversary` | frontend/src/components/Dashboard.tsx:42-48 | anniversary 2022-10-26, now 2024-10-25: next 2024-10-26, one day to go, 730 days together |
| `Dashboard.DayAfterAnniversary` | frontend/src/components/Dashboard.tsx:42-48 | anniversary 2022-10-26, now 2024-10-27: next 2025-10-26, 364 days to go, 732 days together |
| `Dashboard.LeapDayAnniversaryDrifts` | frontend/src/components/Dashboard.tsx:42-46 | a 29 February anniversary, after this year's 1 March, aims at next year's 1 March and skips the leap day before it |
| `LoveJar.AddItem` | frontend/src/components/LoveJar.tsx:14-20 | an empty trimmed draft changes nothing; otherwise the list is the new item (id = now, text = trimmed draft) before the old list, one longer, and the draft is cleared |
| `LoveJar.BlankDraftAddsNothing` | frontend/src/components/LoveJar.tsx:16 | a draft of only whitespace adds nothing |
| `LoveJar.RemoveItem` | frontend/src/components/LoveJar.tsx:22-24 | an item survives iff it was there and its id differs; the list shrinks by the number of items with that id |
| `LoveJar.RemoveAppend` | frontend/src/components/LoveJar.tsx:23 | removal distributes over concatenation, so survivors keep their order |
| `LoveJar.RemoveAbsent` | frontend/src/components/LoveJar.tsx:23 | removing an id nobody has leaves the list unchanged |
| `LoveJar.RemoveIdempotent` | frontend/src/components/LoveJar.tsx:23 | removing twice is removing once |
| `LoveJar.RemoveUndoesAdd` | frontend/src/components/LoveJar.tsx:17-23 | removing a freshly added id undoes the addition, also taking any older item with the same id |
| `LoveJar.InitialIdsNeverClash` | frontend/src/components/LoveJar.tsx:7-23 | the jar starts with the two ideas numbered 1 and 2 and an empty draft; adding an idea at any later clock reading and removing it gives back exactly those two |
| `LoveJar.SameMillisecondRemovesBoth` | frontend/src/components/LoveJar.tsx:17-23 | two ideas added in the same millisecond share an id and are removed together |
| `LoveJar.GenerateIdea` | frontend/src/components/LoveJar.tsx:26-33 | a reply that passes the filter is prepended with id = now; any other reply leaves the list as it was |
| `LoveJar.GeneratedItemsAreUsable` | frontend/src/components/LoveJar.tsx:26-33 | after any run of replies, each applied to the list the previous one produced, the original list is still the tail, and every item in front of it is a reply that passed the filter, with the time it arrived as id |
| `LoveJar.StaleListUndoesEdits` | frontend/src/components/LoveJar.tsx:26-31 | the reply is prepended to the list captured when the request was sent, so an idea added while it is pending is lost and an item removed meanwhile comes back |
| `LoveJar.FailedIdeaIsDropped` | frontend/src/components/LoveJar.tsx:28-31 | the proxy client's failure reply never enters the jar |
| `CoupleQa.Take` | components/CoupleQA.tsx:15 | `slice(0, n)`: the first `min(n, length)` elements |
| `CoupleQa.NewQuestion` | components/CoupleQA.tsx:10-18 | a rejected reply changes nothing; an accepted one becomes the question and the history's head, the rest being the old history cut to four |
| `CoupleQa.NewQuestionKeepsInv` | components/CoupleQA.tsx:6-15 | the history holds 1 to 5 questions and starts with the one shown, initially and after every reply |
| `CoupleQa.RecentQuestions` | components/CoupleQA.tsx:45-49 | shown exactly when the history has more than one entry, and then it is the history without its head |
| `CoupleQa.RecentAfterAccept` | components/CoupleQA.tsx:15 | after an accepted reply, the recent list is the previous history cut to four entries |
| `CoupleQa.OnlyAcceptedReachable` | components/CoupleQA.tsx:8-15 | after any sequence of replies, every history entry is the opening question or passed the filter |
| `CoupleQa.FallbackBecomesQuestion` | components/CoupleQA.tsx:13-15 | the service's capitalised failure reply is accepted and shown as a question |
| `Screens.AuthScreen` | frontend/src/App.tsx:118-128 | with nobody signed in, "login" gives Login, "signup" gives SignUp, anything else gives Welcome |
| `Screens.HandleLogin` | frontend/src/App.tsx:103-106 | the signed-in user becomes the given one; loading and the authentication view are unchanged |
| `Onboarding.FinishLoading` | frontend/src/App.tsx:89-101 | loading ends; a saved user, if any, becomes the user |
| `Onboarding.StartUp` | frontend/src/App.tsx:85-101 | the shell starts (no user, welcome view) on the loading screen and leaves it once the saved session is read; a saved user sees what signing in shows, and a first start with nothing saved shows the welcome screen |
| `Onboarding.HandleLogout` | frontend/src/App.tsx:108-112 | nobody is signed in and the login view is selected, so a loaded shell then shows the login screen |
| `Onboarding.SelectScreen` | frontend/src/App.tsx:114-138 | loading iff still loading; unlinked (falsy link) users get LinkPartner whatever their date; linked users with no date get SetAnniversary; the main screen iff signed in, linked and dated |
| `Onboarding.LoginScreenDependsOnUser` | frontend/src/App.tsx:103-138 | after login the screen depends only on the user, and is never loading or welcome |
| `Onboarding.AnniversaryOf` | frontend/src/App.tsx:28 | the stored date when it is truthy, else the current time |
| `Onboarding.RenderView` | frontend/src/App.tsx:32-44 | each of the eight known view names gives its own component, and only that name does; every other name gives the dashboard with the user's anniversary |
| `Onboarding.MainDashboardUsesStoredDate` | frontend/src/App.tsx:28-43 | on the main screen the dashboard always gets the user's stored date |
| `RootApp.FinishLoading` | App.tsx:28-35 | loading ends and the session's current user, present or not, becomes the user |
| `RootApp.StartUp` | App.tsx:24-35 | the shell starts (no user, welcome view) on the loading screen and leaves it once the session store is read; a current user sees what signing in shows, no user gives the authentication view, which on a first start is the welcome screen |
| `RootApp.HandleLink` | App.tsx:37-43 | `handleLink` replaces the signed-in user exactly as `handleLogin` does |
| `RootApp.HandleLogout` | App.tsx:45-49 | nobody is signed in and the welcome view is selected, so a loaded shell then shows the welcome screen |
| `RootApp.SelectScreen` | App.tsx:51-75 | loading iff still loading; unlinked users get LinkPartner; linked users go straight to the main screen; there is no date screen |
| `RootApp.ShellsDifferOnlyOnAnniversary` | App.tsx:71-75 | the two shells choose different screens exactly for a signed-in, linked user with no date |
| `RootApp.RenderView` | App.tsx:87-107 | each of the seven known view names gives its own component, and only that name does; "games" and every unknown name give the dashboard with the fixed anniversary |
| `RootApp.RenderViewsAgree` | App.tsx:87-107 | the two shells dispatch every view name other than "games" to the same component, and their dashboards are the same names plus "games" |
| `RootApp.FixedAnniversaryIsValid` | App.tsx:85 | the fixed anniversary, 2022-10-26 at noon, is a valid date; "games" renders the dashboard |

## Left out

- Express and pg plumbing is not modelled: `db.ts`, middleware, `listen`, and the `500` catch paths for database failures. The one 500 kept is the password check on a NULL hash.
- bcrypt is a parameter: the stored hash is an input and the password check is a function parameter.
- Generated codes (`Math.random`) are parameters. Their uniqueness is a hypothesis of the lemmas that need it.
- The two linking UPDATEs run one after the other. Their non-atomicity and concurrent requests are not modelled.
- The in-browser client's date-idea generator (`services/geminiService.ts`) and its fallback reply are not modelled: the Love Jar that is modelled imports the proxy-backed client.
- The proxy-backed client's question generator (`frontend/src/services/geminiService.ts`) and its fallback reply are not modelled: the question game that is modelled imports the in-browser client.
- LoveJar.GenerateIdea: takes the list captured when the request was sent, as the source's closure does, and returns what replaces the current list. React's scheduling of the pending request against edits made meanwhile is not modelled; `LoveJar.StaleListUndoesEdits` states what such an edit comes to, and `LoveJar.GeneratedItemsAreUsable` holds only for replies applied one after another.
- The text-generation service and its backend proxy route are external. Their reply is a string parameter, and an `undefined` reply counts as the empty string.
- The fetch wrappers of the backend client carry no logic and are not modelled.
- Browser storage is out of scope: JSON parsing of saved state, its failure fallbacks, and persistence itself. The saved session is an input.
- Memories, Location, Shop, Pet, Chat, Games, the auth screens and the types files are presentational. They appear only as components or screens.
- `LocalAuth` enumeration order: `for … in` is taken as insertion order. JavaScript lists integer-like keys first, and that case is not modelled.
- `LocalAuth` objects: keys inherited from `Object.prototype` are not modelled.
- `Backend` row order: "the first row" of a query is the first in storage order. PostgreSQL promises no order without `ORDER BY`.
- Text.Upper: upper-cases ASCII letters only, the alphabet of generated codes. Other characters are kept as they are, whereas JavaScript's `toUpperCase` also maps non-ASCII letters.
- Dashboard.TimeTogether: treats JavaScript numbers as exact reals, not IEEE doubles. The difference is immaterial for millisecond counts below 2^53.
- `Calendar` has no time zones or daylight saving. Local time is taken to be the time line. The time-zone offset adjustment in `frontend/src/App.tsx` and the parsing of the stored date string are not modelled: the anniversary is an already-parsed date.
- `toLocaleDateString` formatting and the one-second `setInterval` refresh are not modelled.
- Backend.SetAnniversary: takes the date string as given. The source does not validate it, and PostgreSQL's own date parsing is not modelled.
