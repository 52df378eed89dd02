# Link registry of a client-side URL shortener, in Dafny

The shortener is a single React component. It keeps an in-memory list of links,
newest first. Each link is `{id, long, code, clicks, createdAt}`, and a link lives for 30
minutes. This project models that list and the handlers that change it:

- creating a link from the address and custom-name fields, with a custom or generated code;
- following a link by its code;
- deleting a link by id;
- the minute timer that prunes expired links, and the view of active links;
- the "minutes left" display and the "expiring soon" highlight;
- the cleaning of the custom-name field and the generation of `word + number` codes.

Times are integer milliseconds. The clock, the two random draws and the browser's URL
parser are parameters: `now`, `word`/`num`, and `parses: string -> bool`.

Modules:

- `Wrappers`: `Option` and `Result`.
- `Text`: `trim()`, the `startsWith('http')` test and the `https://` prefix.
- `Codes`: the word list, the decimal form of numbers, `generateCode` and its inverse
  `ParseGenerated`, and the custom-code cleaning.
- `Expiry`: `isExpired`, `getTimeLeft` and the 5-minute highlight.
- `Links`: the `Link` record and the handlers as functions from one list to the next.
  It also holds the list invariants the handlers keep: newest first, at most one active
  link per code, and no link from the future.
- `App`: class `Shortener`, the component's state (`urls`, `longUrl`, `customCode`).
  Its methods are the event handlers, step by step with early returns. Each method's
  postcondition ties the new state to the `Links` functions.
- `Scenarios`: end-to-end runs of the handlers, for any address of at least four characters
  whose first character is neither whitespace nor 'h' (so it is stored with `https://`).

The model follows the code, including these behaviours a reader might not expect:

- A link exactly 30 minutes old is still active and already shows 0 minutes left, because
  expiry is a strict `> 30` (`Expiry.ActiveWithNoTimeLeft`). So "0 minutes left" does not
  imply that the link has left the active view.
- A redirect follows the *first* link with the code. If that link has expired the result
  is NotFound, whatever follows it in the list. `Links.ResolveFindsLive` proves that, in a
  newest-first list, this is the same as "some active link has the code".
  `Links.ResolveIsTheLiveLink` proves that, with at most one active link per code, the
  link followed is that one.
- Ids come from the clock, so they need not be unique. A redirect adds a click to every
  link whose id equals the followed link's id. `Links.RedirectOneClick` states the effect
  when ids are unique.
- The scheme test is `startsWith('http')`, not a scheme parser. "httpbin.org" is stored
  as typed, and "HTTP://x" becomes "https://HTTP://x".
- A generated code that collides with an active link is refused with CodeTaken. No
  retry is made.
- The custom name is lower-cased with JavaScript's full case mapping before the filter.
  So KELVIN SIGN (U+212A) becomes `k` and U+0130 becomes `i` (`Codes.CleanChar`).

## Model

| member | source | states |
|---|---|---|
| `Text.Trim` | src/App.jsx:33 | the trimmed input is empty exactly when the input is all ECMAScript whitespace; otherwise it has no whitespace at either end |
| `Text.TrimRemovesOnlyWhitespace` | src/App.jsx:33 | the trimmed text is a slice of the input with only whitespace before and after it: only whitespace is removed, and only at the ends |
| `Text.StartsWithHttp` | src/App.jsx:43 | the case-sensitive test that the first four characters are "http" (no scheme parsing) |
| `Text.IsValidUrl` | src/App.jsx:16-23 | the URL parser, a parameter, accepts the address as `WithScheme` would store it |
| `Text.WithScheme` | src/App.jsx:43 | the stored address always starts with "http"; it is the input itself exactly when the input starts with "http", otherwise "https://" followed by the input |
| `Text.WithSchemeIdempotent` | src/App.jsx:18 | prefixing an already prefixed address changes nothing |
| `Codes.Decimal` | src/App.jsx:13 | the decimal form of a number is non-empty digits without a leading zero (except for 0), one digit below 10 and two below 100 |
| `Codes.DecimalRoundTrip` | src/App.jsx:13 | reading the decimal form back gives the number |
| `Codes.GenerateCode` | src/App.jsx:8-14 | a generated code is 4 to 6 characters of a-z0-9 |
| `Codes.GenerateParseRoundTrip` | src/App.jsx:8-14 | every generated code splits back into its word index and its number from 1 to 99 |
| `Codes.GenerateCodeInjective` | src/App.jsx:8-14 | different draws never give the same code |
| `Codes.CleanChar` | src/App.jsx:182 | one code point cleans to at most one a-z0-9 character: a-z0-9 is kept, A-Z becomes its lower-case letter, KELVIN SIGN becomes "k", U+0130 becomes "i", and exactly every other code point is dropped |
| `Codes.CleanCode` | src/App.jsx:182 | the cleaned custom name is made only of a-z0-9 and is no longer than the typed text |
| `Codes.CleanCodeLowerCases` | src/App.jsx:182 | typed ASCII letters and digits all survive, in place, lower-cased: "ABC" cleans to "abc" |
| `Codes.CleanCodeDropsAll` | src/App.jsx:182 | a text of code points that are all dropped cleans to the empty name |
| `Codes.CleanCodeFixesCodeText` | src/App.jsx:182 | cleaning a string of a-z0-9 leaves it unchanged |
| `Codes.CleanCodeIdempotent` | src/App.jsx:182 | cleaning twice equals cleaning once |
| `Codes.CleanCodeConcat` | src/App.jsx:182 | cleaning works character by character and keeps order |
| `Codes.TrimCodeText` | src/App.jsx:44 | trimming a cleaned custom name leaves it unchanged |
| `Codes.ChosenCode` | src/App.jsx:44 | the code checked for collisions is the clean custom name when there is one; for an empty field it is the generated code of the two draws; it is never empty |
| `Expiry.IsExpired` | src/App.jsx:25-30 | strictly more than 1,800,000 ms have passed since creation; `ExpiredInMinutes` ties it to the minute test |
| `Expiry.ExpiredInMinutes` | src/App.jsx:25-30 | the integer test "more than 1,800,000 ms elapsed" is the source's test "more than 30 fractional minutes" |
| `Expiry.ExpiredStaysExpired` | src/App.jsx:25-30 | a link expired at one time is expired at every later time |
| `Expiry.TimeLeft` | src/App.jsx:96-101 | minutes left is at least 0, at most 30 for non-negative elapsed time, 0 exactly from 30 minutes on, and m when elapsed time is in the (30 - m)-th minute |
| `Expiry.ElapsedMinutesIsFloor` | src/App.jsx:99 | the integer division used is Math.floor of the exact quotient, for any elapsed time |
| `Expiry.TimeLeftMonotone` | src/App.jsx:96-101 | minutes left never increases as the clock moves on |
| `Expiry.TimeLeftTicks` | src/App.jsx:96-101 | until it reaches 0, minutes left drops by exactly one per minute |
| `Expiry.ExpiringSoon` | src/App.jsx:240 | the highlight test `timeLeft <= 5` on the minutes-left value |
| `Expiry.ExpiringSoonFromMinute25` | src/App.jsx:239-240 | the highlight (5 minutes or fewer left) is on exactly from 25 minutes after creation |
| `Expiry.ActiveWithNoTimeLeft` | src/App.jsx:25-30 | a link is active yet shows 0 minutes left exactly at 30 minutes after creation |
| `Expiry.ExpiredShowsZero` | src/App.jsx:96-101 | an expired link shows 0 minutes left |
| `Links.Filter` | src/App.jsx:105 | filtering keeps exactly the accepted elements and never lengthens the list |
| `Links.FilterConcat` | src/App.jsx:105 | filtering distributes over concatenation, so it keeps the original order |
| `Links.FilterKeepsPairwise` | src/App.jsx:105 | any relation between earlier and later elements survives filtering |
| `Links.Any` | src/App.jsx:46 | `some` holds exactly when some element passes the test |
| `Links.Active` | src/App.jsx:123 | the active view holds exactly the links not expired at now |
| `Links.ActiveIdempotent` | src/App.jsx:105 | pruning twice at the same instant equals pruning once |
| `Links.ActiveLater` | src/App.jsx:103-108 | a prune at an earlier time does not change the view at a later time |
| `Links.ActiveConcat` | src/App.jsx:123 | the view keeps the original order, piece by piece |
| `Links.ActiveAllLive` | src/App.jsx:105 | when no link has expired the prune changes nothing |
| `Links.Without` | src/App.jsx:92 | after a delete exactly the links with another id remain |
| `Links.WithoutAbsent` | src/App.jsx:90-94 | deleting an id that no link has changes nothing |
| `Links.WithoutIdempotent` | src/App.jsx:90-94 | deleting twice equals deleting once |
| `Links.WithoutConcat` | src/App.jsx:92 | deleting keeps the original order, piece by piece |
| `Links.Taken` | src/App.jsx:46 | a code is taken exactly when some link holding it has not expired |
| `Links.Create` | src/App.jsx:32-62 | a successful create puts one new link in front of the old list, which is kept unchanged; a failure is never NotFound |
| `Links.CreateOutcome` | src/App.jsx:32-62 | EmptyInput exactly for all-whitespace input; InvalidUrl exactly when the parser rejects the prefixed address; CodeTaken exactly when an unexpired link holds the chosen code; a new link has 0 clicks, is created now (its id too), and has the chosen code and the prefixed address |
| `Links.CreatedCode` | src/App.jsx:44 | a created link's code is non-empty a-z0-9: the cleaned custom name held by the field, or, for an empty field, the generated code of the draws |
| `Links.ExpiredCodeReusable` | src/App.jsx:46-59 | for a non-blank address the parser accepts, links that hold the code but have expired do not block creation: the result is the new link in front of the old list |
| `Links.FirstWithCode` | src/App.jsx:65 | `find` gives no position exactly when no link has the code, else the first position holding it |
| `Links.Resolve` | src/App.jsx:65-70 | a redirect resolves to the first link with the code if that link is unexpired, and fails with NotFound exactly when the first such link is missing or expired |
| `Links.Clicked` | src/App.jsx:74 | the click count goes up by one; id, address, code and creation time stay |
| `Links.AddClick` | src/App.jsx:72-76 | same length; every link with the id gains exactly one click, every other link is unchanged |
| `Links.Redirect` | src/App.jsx:64-76 | NotFound exactly when resolving fails; otherwise same length and order, one more click on every link sharing the resolved link's id, all else equal |
| `Links.RedirectOneClick` | src/App.jsx:72-76 | with unique ids exactly the followed link gains a click and every other link is unchanged |
| `Links.ConsistentLater` | src/App.jsx:25-30 | the list invariants hold at every later time once they hold now |
| `Links.ResolveFindsLive` | src/App.jsx:64-70 | in a newest-first list a redirect succeeds exactly when some unexpired link has the code |
| `Links.ResolveIsTheLiveLink` | src/App.jsx:64-70 | with at most one active link per code, the link followed is that one |
| `Links.PrependKeepsConsistent` | src/App.jsx:59 | a link created now, whose code no active link holds, can go in front without breaking the invariants |
| `Links.CreateKeepsConsistent` | src/App.jsx:46-59 | creating keeps: newest first, at most one active link per code, no link from the future |
| `Links.RedirectKeepsConsistent` | src/App.jsx:72-76 | following keeps the invariants; click counts never fall and no other field changes |
| `Links.WithoutKeepsConsistent` | src/App.jsx:92 | deleting keeps the invariants |
| `Links.ActiveKeepsConsistent` | src/App.jsx:105 | pruning keeps the invariants, and afterwards no two links share a code |
| `App.Shortener.constructor` | src/App.jsx:4-6 | the component starts with no links and empty fields |
| `App.Shortener.SetLongUrl` | src/App.jsx:162 | the address field holds the text as typed; nothing else changes |
| `App.Shortener.SetCustomCode` | src/App.jsx:182 | the custom-name field holds the cleaned text, so it stays a-z0-9; nothing else changes |
| `App.Shortener.CreateShortUrl` | src/App.jsx:32-62 | on failure nothing changes and the error is the one `Create` gives; on success the new list is the one `Create` gives, with the returned link in front of the old list, and both fields are cleared; the custom-name field stays a-z0-9 |
| `App.Shortener.HandleRedirect` | src/App.jsx:64-81 | NotFound leaves the state unchanged; otherwise the list becomes `Redirect`'s, and the link returned is the unexpired link that was followed |
| `App.Shortener.DeleteUrl` | src/App.jsx:90-94 | the list becomes the old list without the id; the fields are untouched |
| `App.Shortener.PruneExpired` | src/App.jsx:103-108 | the list becomes its unexpired links in order; the fields are untouched |
| `App.Shortener.ActiveUrls` | src/App.jsx:123 | the listed links are exactly the stored ones not expired at now |
| `Scenarios.BareIsPrefixed` | src/App.jsx:43 | an address that is not blank and does not start with "h" is stored with "https://" in front |
| `Scenarios.CreateBare` | src/App.jsx:32-59 | such an address with an empty custom name and the draws (dog, 7) is stored with the prefix under "dog7", with 0 clicks and the creation time as id |
| `Scenarios.FollowThenExpire` | src/App.jsx:64-76 | following "dog7" a minute after creation gives it 1 click; 31 minutes after creation it has left the view and following it fails with NotFound |
| `Scenarios.SameNameTwice` | src/App.jsx:44-59 | a second request for a link's custom name is refused with CodeTaken up to and including 30 minutes after the link's creation, and granted 1 ms later with the new link in front |
| `Scenarios.RemoveExistingAndMissing` | src/App.jsx:92 | deleting the only link's id empties the list; deleting another id changes nothing |

## Left out

- Rendering, styling and the click total (src/App.jsx:125-376, 368): presentation only.
- `alert`, `confirm`, `window.open` and the clipboard (src/App.jsx:34-48, 68, 78-79, 83-88, 91).
  Errors are returned as values. `DeleteUrl` is the branch after the user confirms.
  `HandleRedirect` is the state change, and it returns the link whose address the browser
  would open. `copyLink` only builds a string for the clipboard.
- The `setInterval` timer and the `hashchange` listener (src/App.jsx:103-121). These are
  event plumbing. `PruneExpired` and `HandleRedirect` take the current time as a parameter.
- The browser's `new URL(...)` parser, which is browser library code. It is the parameter
  `parses`, applied to the address with the scheme prefix.
- `Math.random` and the clock. The word index, the number and `now` are parameters.
  Within one handler every clock reading is the same instant. So a new link's `id` and
  `createdAt` are equal, and the collision check uses that same `now`.
- Floating-point minutes. The model uses exact integer milliseconds. The lemmas
  `Expiry.ExpiredInMinutes` and `Expiry.ElapsedMinutesIsFloor` relate these to the exact
  real quotient. IEEE rounding is not modelled.
- `toLowerCase` beyond what survives the `[^a-z0-9]` filter. Only the code points whose
  lower case contains a-z or 0-9 are mapped. Every other code point is dropped, as the
  filter drops its lower case too.
- JavaScript number limits. Click counts and times are unbounded integers. Precision
  loss above 2^53 is not modelled.
- React's batching of state updates and the stale closures of `setUrls([...urls])`
  versus `setUrls(prev => ...)`. Each handler is one atomic step on the current state.
