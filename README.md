# Registration form controller (Click.jsx) in Dafny

This project models the `Click` component of a donation/registration web
form. The user picks an occupation tier, enters a name and a mobile number,
picks an image, and submits. The component also shows a running balance and
a history list fetched from a backend.

The model has four modules:

- `Wrappers` (wrappers.dfy): `Option`, which stands for JavaScript's
  `null`/`undefined`.
- `JsStrings` (js_strings.dfy): the JavaScript string built-ins the component
  uses. These are `trim()` with ECMAScript's white-space and line-terminator
  set, the anchored pattern `/^\d{10}$/`, and `split("/")` followed by
  `pop()`. It also proves facts about them: what `trim` removes, that the
  pattern means exactly 10 ASCII digits, that split and join are inverses,
  and that `pop()` returns the final path segment.
- `ClickRules` (click_rules.dfy): the pure rules. These are the
  `occupations` table and its amount lookup, history entries, the balance
  (`reduce`), the amounts recomputed for a fetched list (`map`), the ordered
  submit checks, and the stored image name.
- `ClickForm` (click_form.dfy): class `Click`. Its fields are the state hooks
  (`selected`, `name`, `mobile`, `file`, `history`, `showHistory`,
  `balance`). Its methods are the handlers: the input `onChange`s, an
  occupation button, `handleSubmit`, `fetchHistory` and the Show/Hide toggle.
  `Valid()` is the invariant every handler keeps:
  - `balance` equals the sum of the history;
  - every history amount is the one looked up from its occupation;
  - only a table key can be selected.

The backend calls are not made. The handler that awaits a reply takes that
reply as an argument: `SaveReply` for `POST /save` and `FetchReply` for
`GET /all`. `Submit` returns the request it sends (`None` when a check
stops it), so its contract can say that no request was sent. The timestamp
`new Date().toISOString()` is an opaque `now` argument. Each handler runs
atomically. Each state-changing method also runs the balance effect
(lines 29-32), as React does after every `history` change.

Behaviour of the code worth noting:

- Showing the panel always fetches again (line 187); nothing is cached.
  `ShowHideShow` proves that show, hide, show fetches twice.
- The panel becomes visible only when the fetch returns an array
  (line 107). A failed fetch leaves the panel hidden.
- A non-null `image` reference that is not a string makes `.split` throw.
  This happens after the "Saved" alert. The `catch` then treats the save as
  failed: nothing is appended and the form is kept (`ImageNotString`).

## Model

| member | source | states |
|---|---|---|
| `JsStrings.TrimStart` | src/Click.jsx:35-36 | the result is the suffix of the input left after a run of white space, and it does not start with white space |
| `JsStrings.TrimEnd` | src/Click.jsx:35-36 | the result is the prefix of the input left before a run of white space, and it does not end with white space |
| `JsStrings.Trim` | src/Click.jsx:35-36 | the trimmed string is no longer than the input and neither starts nor ends with white space; TrimStart, TrimEnd and TrimEmptyIff pin it down |
| `JsStrings.TrimEmptyIff` | src/Click.jsx:35 | `trim()` gives the empty (falsy) string exactly when every character is white space |
| `JsStrings.MatchesDigits` | src/Click.jsx:36 | the anchored pattern `^\d{n}$`, matched character by character; MatchesDigitsIff characterises it |
| `JsStrings.MatchesDigitsIff` | src/Click.jsx:36 | the anchored pattern `^\d{n}$` matches exactly the strings of length n made of ASCII digits |
| `JsStrings.Split` | src/Click.jsx:64 | `split` with a one-character separator always gives at least one piece; JoinSplit, SplitJoin and SplitPiecesFree pin it down |
| `JsStrings.JoinSplit` | src/Click.jsx:64 | joining the pieces of `split(sep)` with `sep` gives back the original string |
| `JsStrings.SplitJoin` | src/Click.jsx:64 | splitting a join of separator-free pieces gives back the pieces (the other direction of the round trip) |
| `JsStrings.SplitPiecesFree` | src/Click.jsx:64 | no piece of `split(sep)` contains the separator |
| `JsStrings.SplitNoSeparator` | src/Click.jsx:64 | a string without the separator splits into itself alone |
| `JsStrings.SplitAtSeparator` | src/Click.jsx:64 | splitting `x + sep + y` is the split of `x` followed by the split of `y` |
| `JsStrings.SegmentUnique` | src/Click.jsx:64 | a string has only one final segment (a separator-free suffix that is the whole string or follows a separator) |
| `JsStrings.Last` | src/Click.jsx:64 | `pop()` on the non-empty result of `split`; LastSegment says what it returns |
| `JsStrings.LastSegment` | src/Click.jsx:64 | `split(sep).pop()` is that final segment |
| `ClickRules.AmountFor` | src/Click.jsx:17-21 | "Student" gives 200, "Private job" 350, "Gorvament job" 1000; any other key gives 0; the amount is non-zero exactly for a table key |
| `ClickRules.Contribution` | src/Click.jsx:30 | one record's share of the sum: its amount, or 0 when it has none; used by BalanceAppend |
| `ClickRules.Balance` | src/Click.jsx:29-32 | the left fold of line 30, the balance itself; BalanceAppend, BalanceConcat and BalanceOfDerived pin it down |
| `ClickRules.BalanceAppend` | src/Click.jsx:29-32 | appending a record raises the summed balance by exactly that record's amount (a missing amount counts 0) |
| `ClickRules.BalanceConcat` | src/Click.jsx:30 | the balance of a concatenation is the sum of the balances of the two parts |
| `ClickRules.DerivedAppend` | src/Click.jsx:66-76 | appending a record whose amount comes from the table keeps every amount in the history derived |
| `ClickRules.WithDerivedAmount` | src/Click.jsx:101-104 | one recomputed record keeps its name, mobile, occupation, image and timestamp, and gets the table amount of its occupation |
| `ClickRules.WithDerivedAmounts` | src/Click.jsx:101-104 | the loaded list has the same length and order, each record is the recomputed version of the one at its position, and every amount in it is derived from its occupation |
| `ClickRules.DerivedFixpoint` | src/Click.jsx:101-104 | recomputing amounts that are already derived changes nothing |
| `ClickRules.DerivedIdempotent` | src/Click.jsx:101-104 | recomputing the amounts twice is the same as once |
| `ClickRules.WithDerivedPrefix` | src/Click.jsx:101-104 | recomputing a prefix gives the prefix of the recomputed list |
| `ClickRules.BalanceOfDerived` | src/Click.jsx:101-106 | the balance of a loaded list is the sum of the table amounts of its records' occupations |
| `ClickRules.TotalByOccupations` | src/Click.jsx:101-104 | lists that agree position by position on the occupations have the same occupation total |
| `ClickRules.BalanceIgnoresWireAmounts` | src/Click.jsx:101-106 | two backend lists that agree on the occupations give the same balance, whatever amounts they carry |
| `ClickRules.DerivedBalanceBounds` | src/Click.jsx:17-32 | when every amount is derived, the balance is between 0 and 1000 times the number of records |
| `ClickRules.SampleFetchedAmount` | src/Click.jsx:101-104 | a fetched "Private job" record gets amount 350 whether the wire amount is present, absent or different |
| `ClickRules.SavedImageName` | src/Click.jsx:64 | an absent reference gives the local file name; a non-string reference throws; for a string reference the result is its final `/` segment, or the local file name when that segment is empty |
| `ClickRules.SavedImageNameOfPath` | src/Click.jsx:64 | a reference `dir/base` with a non-empty, slash-free `base` is stored under `base` |
| `ClickRules.SampleImageName` | src/Click.jsx:64 | the reference "/uploads/img1.jpg" is stored as "img1.jpg" |
| `ClickRules.MobileAccepted` | src/Click.jsx:36 | the mobile guard: a non-blank value that the ten-digit pattern matches untrimmed; MobileAcceptedIff characterises it |
| `ClickRules.MobileAcceptedIff` | src/Click.jsx:36 | the trim guard plus pattern test on the untrimmed value accepts exactly the strings of 10 ASCII digits |
| `ClickRules.WrongLengthRejected` | src/Click.jsx:36 | a mobile whose length is not 10 is rejected |
| `ClickRules.NonDigitRejected` | src/Click.jsx:36 | a mobile with a non-digit character at any position is rejected, including white space at either end |
| `ClickRules.RejectedMobileLengths` | src/Click.jsx:36 | "12345" and "12345678901" are rejected |
| `ClickRules.RejectedMobileLetters` | src/Click.jsx:36 | "12345abcde" is rejected |
| `ClickRules.RejectedMobileSpace` | src/Click.jsx:36 | " 987654321" is rejected: the pattern sees the untrimmed value |
| `ClickRules.AcceptedMobile` | src/Click.jsx:36 | "9876543210" passes the mobile check |
| `ClickRules.IsTruthy` | src/Click.jsx:38 | a selected key passes `!selected` when it is present and non-empty; used in Validate's contract |
| `ClickRules.Validate` | src/Click.jsx:35-39 | the first failing check, in order: a blank name, then a mobile that is not 10 digits, then no occupation, then no file; no error exactly when all four pass |
| `ClickRules.SampleFormValid` | src/Click.jsx:35-39 | "Asha", "9876543210", "Student" and a picked file pass every check |
| `ClickForm.Click.Valid` | src/Click.jsx:29-32 | the invariant: the balance is the sum of the history, every amount is the table amount of its occupation, and only a table key is selected; every handler keeps it |
| `ClickForm.Click.constructor` | src/Click.jsx:9-15 | the initial hook values: nothing selected, empty name and mobile, no file, empty hidden history, balance 0 |
| `ClickForm.Click.Select` | src/Click.jsx:132 | an occupation button selects its key and changes nothing else |
| `ClickForm.Click.SetName` | src/Click.jsx:161 | the name input sets `name` only |
| `ClickForm.Click.SetMobile` | src/Click.jsx:168 | the mobile input sets `mobile` only |
| `ClickForm.Click.SetFile` | src/Click.jsx:174 | the file input sets `file` (none when the pick is cancelled) only |
| `ClickForm.Click.Submit` | src/Click.jsx:34-87 | a failed check returns that error, sends nothing and changes nothing; otherwise the request carries the form's name, mobile, occupation and file; only an ok reply with a usable image appends exactly one record (submitted fields, stored image name, `now`, table amount) after the unchanged old history, adds its amount to the balance and clears the form; any other reply changes nothing |
| `ClickForm.Click.Commit` | src/Click.jsx:66-82 | after a save the history is the old history plus the record, the balance grows by its amount, and name, mobile, file and occupation are cleared |
| `ClickForm.Click.FetchHistory` | src/Click.jsx:89-112 | an array reply replaces the history with the recomputed list and shows the panel; a failure or a non-array leaves history, panel and balance unchanged; the form fields never change |
| `ClickForm.Click.Toggle` | src/Click.jsx:186-189 | when hidden, it fetches, with the same outcome as `FetchHistory`; when shown, it hides the panel without a fetch and keeps the history |
| `ClickForm.SubmitOnce` | src/Click.jsx:34-87 | on a fresh form, a valid submission answered with `dir/base` yields exactly one record stored as `base`, with the tier's amount as the balance |
| `ClickForm.SampleSubmission` | src/Click.jsx:34-87 | the sample form "Asha", "9876543210", "Student" answered with "/uploads/img1.jpg" stores one record with image "img1.jpg" and amount 200, and the balance is 200 |
| `ClickForm.ShowHideShow` | src/Click.jsx:186-189 | show, hide, show makes two fetches, and the hide keeps the loaded history |

## Left out

- JSX rendering, CSS, the `images` map (lines 23-27) and the disabled state of the balance button: presentation only. The button caption (`label`) is kept in the table but nothing reads it.
- `alert` and `console.error` messages: user-visible I/O. `Submit` returns which failure occurred but not its text.
- `fetch`, `FormData`, `response.json()`, `BACKEND_URL` and the uploads link (line 223): I/O and deployment. Their outcomes are the `SaveReply`/`FetchReply` arguments. A body that is not JSON, or a `null` save body, is `SaveThrew`/`FetchThrew`. The `message` field of the save reply only feeds alerts.
- `new Date().toISOString()` and `toLocaleString()`: clock and locale. The timestamp is an opaque string argument.
- Concurrent submit and fetch, and the stale `history` closure at line 67: concurrency. Handlers are atomic and sequential.
- The contents of the picked file: only its name is read; the bytes go to the backend unread.
- FetchHistory: treats every element of a backend array as a record object. A `null` element would make `item.occupation` throw, and so the whole load fail. A primitive element would load without the record's fields (a string element spreads its characters as index keys).
- WithDerivedAmounts: keeps the five record fields the component reads. Any other keys that `...item` carries along are not modelled. The model takes every `occupation` to be a string. In the source a non-string one is converted to a property key, so `["Student"]` would look up 200; a missing one looks up nothing (amount 0).
- Balance, AmountFor and the record amounts: JavaScript numbers are float64, the model uses unbounded `int`. The sum is exact below 2^53, and with at most 1000 per record (DerivedBalanceBounds) a history would need about 9 * 10^12 records to reach that limit.
- src/App.js: route wiring only, no logic.
