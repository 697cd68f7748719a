# Activity sign-up page: a Dafny model of its view logic

The browser script of a club-activity sign-up site (`src/static/app.js`) does two
things. On page load it fetches the activity catalog and renders it. Each activity
becomes a card with its name, description, schedule, a "spots left" figure and a
participant roster, and each activity adds one option to the signup dropdown. On form
submit it POSTs a signup for the selected activity and email. It then shows a success
or error message, resets the form on success, and schedules the message to hide after
five seconds.

This project models that script with the DOM and the network taken out:

- `Strings` (`strings.dfy`): `split(c)[0]` as `TakeUntil`, `slice(0, n)` as `Slice`,
  and `toUpperCase` as an ASCII map `ToUpper`.
- `Avatar` (`avatar.dfy`): the avatar initials of a participant.
- `Render` (`render.dfy`): the pure catalog-to-view projection. Cards, roster rows,
  the placeholder row and dropdown options are plain datatypes. `ListAfterLoad` and
  `ChoicesAfterLoad` give the list and the dropdown once the load settles.
- `Http` (`http.dfy`): the requests handed to `fetch` and the catalog URL, shared by the
  load and the signup.
- `Signup` (`signup.dfy`): the signup request URL with its parser, and `Classify`, which
  turns a signup reply into the message text, its class, the form reset and the
  auto-hide.
- `App` (`page.dfy`): the class `Page`. Its fields are the list container, the
  dropdown, the form values, the message `div`, the pending hides and the log of
  requests handed to `fetch`. `Load` is `fetchActivities` as a loop that appends to
  these fields. Each handler's `ensures` ties the new state to the functions above.
- `Wrappers` (`wrappers.dfy`): `Option`, for JSON fields that may be absent.

Network replies are inputs. `CatalogReply` is either the catalog's entries in `Object.entries` order, or
`Unreadable`, which covers a rejected `fetch` and a rejected `response.json()`.
`SignupReply` is either a parsed body with the `response.ok` flag, or `Threw`.
`encodeURIComponent` is the function parameter `enc`.

Behaviour of the script worth knowing, each stated by a member below:

- The script has no control to remove a participant, does not patch a roster in place
  after a signup, never decrements spots left, and has no 4-second hide. A signup,
  accepted or not, leaves the list and the dropdown untouched (`Page.Submit`).
- Spots left is never clamped at 0 (`SpotsLeftUnclamped`).
- An error reply whose body is not JSON is not read as an empty error object:
  `response.json()` throwing goes to the catch branch. That branch shows "Failed
  to sign up. Please try again." and schedules no hide.
- The avatar shows "U" when the text before the first '@' is empty. It also shows "U"
  when that text is a lone "u" or "U" (`InitialsAreUIff`).
- The load handler never checks `response.ok`. A catalog entry without a `participants`
  list makes line 34 throw part-way through the loop. The list then holds only the
  failure notice, but the dropdown keeps the options already appended for the earlier
  entries (`FailedLoadShowsNotice`). The dropdown is never cleared.

## Model

| member | source | states |
|---|---|---|
| Strings.TakeUntil | src/static/app.js:55 | `split("@")[0]` is a prefix of the email that holds no '@' and, when shorter than the email, stops right at an '@' |
| Strings.TakeUntilUnique | src/static/app.js:55 | those three properties determine the prefix: no other prefix has them |
| Strings.TakeUntilStopsAtSeparator | src/static/app.js:55 | splitting `x + [c] + y` at the first `c` gives back `x` whenever `x` holds no `c` |
| Strings.ToUpper | src/static/app.js:55 | upper-casing keeps the length, maps each character by the ASCII rule, and leaves no lower-case ASCII letter |
| Strings.Slice | src/static/app.js:55 | `slice(0, n)` is a prefix of length `min(n, len)` |
| Strings.UpperChar | src/static/app.js:55 | the upper-cased character is never a lower-case ASCII letter, and it is the character itself unless that is a lower-case ASCII letter, which moves 32 code points down |
| Avatar.LocalPart | src/static/app.js:55 | `split("@")[0]` is a prefix of the email with no '@', ending right at the first '@' when there is one |
| Avatar.Abbreviation | src/static/app.js:55 | `slice(0,2).toUpperCase()` of the local part is at most two characters, and empty exactly when the local part is |
| Avatar.Initials | src/static/app.js:55-56 | the avatar text is one or two characters long |
| Avatar.InitialsFromLocalPart | src/static/app.js:55-56 | with a non-empty local part, the initials are its first one or two characters, upper-cased, and all come from before the first '@' |
| Avatar.FallbackIffEmptyLocalPart | src/static/app.js:55-56 | the "U" fallback is taken exactly when nothing precedes the first '@' |
| Avatar.InitialsAreUIff | src/static/app.js:55-56 | the avatar reads "U" exactly when the local part is "", "u" or "U" |
| Avatar.InitialsExamples | src/static/app.js:55-56 | "a@x.com" gives "A" and "tester@example.com" gives "TE" |
| Avatar.FallbackExamples | src/static/app.js:55-56 | "@x.com" and "" both give the fallback "U" |
| Render.ParticipantRow | src/static/app.js:54-57 | a participant's row carries that email and an avatar of one or two characters |
| Render.ParticipantRows | src/static/app.js:53-58 | the forEach makes exactly one row per participant |
| Render.Roster | src/static/app.js:52-64 | a roster has at least one row: the placeholder alone for an empty list, otherwise one participant row per email and no placeholder |
| Render.CardOf | src/static/app.js:31-64 | a card carries the activity's name, spots left plus participant count equals capacity, and its roster is never empty |
| Render.ChoiceOf | src/static/app.js:67-70 | an option's value and text are both the activity name |
| Render.Cards | src/static/app.js:30-48 | the loop appends exactly one card item per entry and nothing else |
| Render.Choices | src/static/app.js:66-70 | the loop appends exactly one option per entry |
| Render.ListAfterLoad | src/static/app.js:27-75 | the failure notice shows exactly when the reply is unreadable or some entry lacks participants, and then it is the list's only item; otherwise there is one item per entry |
| Render.ChoicesAfterLoad | src/static/app.js:27-75 | the dropdown only grows: the old options stay first, an unreadable reply adds none, and a catalog adds one per entry before the first without participants |
| Render.FirstMissing | src/static/app.js:30-34 | the loop's stopping point: every earlier entry has a participant list, and the entry there, if any, has none |
| Render.FirstMissingAt | src/static/app.js:30-34 | an index whose earlier entries all have participant lists and whose own entry lacks one (or is the end) is that stopping point |
| Render.ProcessedOneMore | src/static/app.js:30-71 | processing one more entry appends exactly its card and its option |
| Render.ParticipantRowsAt | src/static/app.js:53-58 | one participant row per email, same count and same order |
| Render.RosterOfParticipants | src/static/app.js:52-58 | a non-empty list gives one participant row per email, in order, each with that email and its initials, and no placeholder |
| Render.RosterOfNobody | src/static/app.js:59-64 | an empty list gives exactly one row, the placeholder "No participants yet" |
| Render.PlaceholderIffEmpty | src/static/app.js:52-64 | a roster is never empty, and it shows the placeholder exactly when the participant list is empty |
| Render.ParticipantRowsEmails | src/static/app.js:53-58 | reading the emails back off the participant rows gives the participant list |
| Render.RosterEmails | src/static/app.js:52-64 | reading the emails back off any roster gives exactly the participant list |
| Render.CardsAt | src/static/app.js:30-48 | one card per catalog entry, in `Object.entries` order |
| Render.ChoicesAt | src/static/app.js:66-70 | one option per catalog entry, in `Object.entries` order, with value and text both the activity name |
| Render.SpotsLeftUnclamped | src/static/app.js:34-40 | spots left is capacity minus participant count, negative exactly when over capacity |
| Render.LoadedViewFollowsCatalog | src/static/app.js:27-71 | a well-formed catalog gives exactly its cards, in order, with name, spots left and roster, and the dropdown gains its options after the old ones |
| Render.FailedLoadShowsNotice | src/static/app.js:72-75 | an unreadable reply or an entry without participants leaves only the failure notice; the dropdown keeps its old options and then holds, in order, one option per entry before the throw |
| Render.ChessClubExample | src/static/app.js:30-64 | ten seats with one participant "a@x.com" renders 9 spots left and the one row ("A", "a@x.com") |
| Signup.SignupUrl | src/static/app.js:87 | the signup URL starts with "/activities/", ends with the encoded email, and has exactly the length of its four parts |
| Signup.ErrorText | src/static/app.js:100 | the error text is never empty, and it is the reply's `detail` whenever that is present and non-empty |
| Signup.Classify | src/static/app.js:95-113 | the class is "success" or "error"; a form reset happens only with "success" and a scheduled hide; an "error" text is never empty; no hide is scheduled exactly when the request threw |
| Signup.SignupUrlRoundTrip | src/static/app.js:86-90 | the signup URL parses back into the encoded activity and email, provided the encoded activity has no '/' |
| Signup.SegmentEndsAtQuery | src/static/app.js:87 | after the "/activities/" prefix, the activity segment ends exactly at the '/' that opens "/signup?email=" |
| Signup.AcceptedSignup | src/static/app.js:95-98 | an ok reply shows `result.message` (or "" when absent) with class "success", resets the form and schedules a hide |
| Signup.RefusedSignup | src/static/app.js:99-102 | a non-ok reply shows a non-empty `detail`, else "An error occurred", with class "error"; no reset; a hide is scheduled |
| Signup.FailedSignup | src/static/app.js:110-113 | a thrown fetch or parse shows "Failed to sign up. Please try again." with class "error"; no reset and no hide |
| Signup.ResetAndHideIff | src/static/app.js:95-109 | the form resets exactly on an ok reply, class "success" exactly then, and a hide is scheduled exactly when a reply was read |
| Signup.FailuresAreReported | src/static/app.js:99-113 | every outcome other than an ok reply shows a non-empty text with class "error" |
| Signup.GenericErrorIff | src/static/app.js:100 | the generic text shows exactly when the detail is absent, empty or that text itself |
| App.Page.constructor | src/static/app.js:2-5 | the page's elements as found at start-up, with no request made yet |
| App.Page.Load | src/static/app.js:21-76 | one GET of "/activities"; the list becomes `ListAfterLoad(reply)` whatever it held; the dropdown becomes `ChoicesAfterLoad(reply, old)`; nothing else changes |
| App.Page.RenderCatalog | src/static/app.js:27-73 | the clear-then-append loop yields `ListAfterLoad` and appends the options of the entries before the first throw |
| App.Page.AppendCard | src/static/app.js:31-64 | appending a card and filling its roster leaves exactly `CardOf(e)` at the end of the list |
| App.Page.AppendRows | src/static/app.js:53-58 | only card `at` changes, and its roster gains one row per participant in order |
| App.Page.Submit | src/static/app.js:79-116 | one POST to the signup URL from the form's values; message, class, form and pending hides as `Classify` says; message shown; list and dropdown unchanged |
| App.Page.HideTimerFires | src/static/app.js:107-109 | a pending hide adds "hidden" to whatever message is current, keeping its text; nothing else changes |
| App.Boot | src/static/app.js:118-119 | start-up makes one catalog request and leaves the loaded list and dropdown |

## Left out

- DOM mechanics: the injected stylesheet (lines 7-18), `innerHTML` templating, `querySelector` and listener wiring. The view is plain sequences of values, so element identity and aliasing are not modelled.
- HTML escaping. Names, descriptions and emails are interpolated into `innerHTML` unescaped. The model keeps them as text.
- Network I/O and `await`. Replies are parameters, and each handler runs to completion. A submit that interleaves with a pending catalog load is not modelled.
- `setTimeout` timing. The model only records that a hide is pending (`pendingHides`) and what firing it does. The 5000 ms delay is not modelled.
- `console.error` logging.
- Entry order: the model takes the entries in the order `Object.entries` yields them. That order puts keys that look like array indices (such as "2025") first, in ascending numeric order, ahead of the other keys in insertion order; how the JSON text maps to that order is not modelled.
- Number semantics: `max_participants` is a JavaScript number (a double), so it may be fractional or beyond 2^53, where arithmetic rounds. The model uses an unbounded integer, so `Render.SpotsLeftUnclamped` and `Render.CardOf` state exact integer subtraction.
- Strings.ToUpper: ASCII letters only. JavaScript's `toUpperCase` also maps non-ASCII letters, and it can change the length (e.g. "ß" becomes "SS"). The model leaves non-ASCII characters as they are.
- Strings.Slice: counts characters. JavaScript slices UTF-16 code units, so for a character outside the Basic Multilingual Plane, `slice(0, 2)` takes one character where the model takes two.
- Signup.SignupUrlRoundTrip: `encodeURIComponent` is an opaque parameter. The round trip assumes only what that function guarantees: '/' is escaped. A lone surrogate, which makes it throw, cannot be written as a Dafny `char`.
- JSON shapes the script does not expect: a non-numeric `max_participants`, a non-string `description`, `schedule`, `message` or `detail`, a non-array `participants`, and a catalog that is not an object. Only an absent `participants` list (the throw at line 34) and absent `message`/`detail` fields are modelled.
- `signupForm.reset()` restores a fixed `pristine` form. How the browser picks the select's default option is not modelled.
- tests/test_app.py exercises the server (`src.app`), which is not part of this model. Its duplicate-signup, unknown-activity and removal rules are not modelled.
