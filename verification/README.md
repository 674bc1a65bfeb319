# Admin user list filter and login form, modelled in Dafny

This project models the two pieces of pure logic in the storefront's client views:

- the admin user list's **search and filter** (`handleSearchAndFilter`), which narrows the
  fetched user list by a name term, a role term and a creation-date term, and the integer
  tail of its **date formatter** (`formatDate`), which renders day, month and year as
  `DD-MM-YYYY`;
- the login form's **e-mail check** (`validateEmail`, a regular expression), its ordered
  **form check** (`validateForm`), the **login handler** (`handleLogin`) with its loading
  flag, error message, stored user and navigation, and the fields' **change handlers**.

Modules, one concept each:

| file | module | models |
|---|---|---|
| `wrappers.dfy` | `Wrappers` | `Option` |
| `sequences.dfy` | `Sequences` | order-preserving subsequence |
| `text.dfy` | `Text` | ASCII lower-casing, substring search (`includes`) |
| `user_filter.dfy` | `UserFilter` | `User`, the three criteria, `handleSearchAndFilter` |
| `date_format.dfy` | `DateFormat` | `String(n)`, `padStart(2, "0")`, the `DD-MM-YYYY` join, and a reader for it |
| `email.dfy` | `Email` | the e-mail expression's language and a recogniser for it |
| `login.dfy` | `Login` | `validateForm`, `handleLogin`, the change handlers, and event traces over them |

The regular expression `^[a-zA-Z0-9._%+-]+@[a-zA-Z0-9.-]+\.[a-zA-Z]{2,}$` is given its
meaning as `Email.MatchesPattern`: there are positions for the `@` and for the literal `.`
such that the pieces fall in the right character classes. The recogniser
`Email.ValidateEmail` splits at the first `@` and then at the last `.` after it; the two are
proved to agree on every string.

`handleLogin` is split at its `await`: `Login.HandleLogin` is the part before the request
(guard, validation, raising the loading flag) and returns the request it issues, if any;
`Login.FinishLogin` is the part after it, given the request's outcome as an input.
`Login.Session` pairs the form with the request in flight, and `Login.Step` / `Login.Run`
replay any sequence of typing, clicking and responses.

`formatDate` renders the year as `String` does, without padding, so a year before 1000
gives fewer than four digits; the model follows the code, which does not pad the year.

The source promises a case-insensitive search; `toLowerCase` is modelled as ASCII
lower-casing (`A`–`Z` only).

## Model

| member | source | states |
|---|---|---|
| `UserFilter.SearchAndFilter` | src/components/UserPage/AdminUserList.tsx:56-66 | the result is an order-preserving subsequence of the users; a user is in it iff name, role and creation-date conditions all hold; each user occurs as often as in the input when accepted and not at all otherwise |
| `UserFilter.NoCriteriaKeepsAll` | src/components/UserPage/AdminUserList.tsx:59-62 | with all three terms empty the result is the user list itself, same items, same order |
| `UserFilter.FilterTwice` | src/components/UserPage/AdminUserList.tsx:57-64 | when every user accepted by the second criteria is accepted by the first, filtering by the first and then by the second equals filtering by the second alone |
| `UserFilter.Idempotent` | src/components/UserPage/AdminUserList.tsx:57-64 | re-filtering the result with the same criteria returns the same list |
| `UserFilter.KeepNarrows` | src/components/UserPage/AdminUserList.tsx:59-62 | if each new term contains the old term, a user accepted by the new criteria is accepted by the old ones |
| `UserFilter.NarrowingShrinks` | src/components/UserPage/AdminUserList.tsx:59-62 | typing more into any term gives a subsequence of the previous result, namely the previous result filtered again |
| `UserFilter.NameSearchSpansSpace` | src/components/UserPage/AdminUserList.tsx:59-60 | the name is searched as first name, one space, last name, so a term crossing the space matches |
| `UserFilter.SearchIgnoresTermCase` | src/components/UserPage/AdminUserList.tsx:59-61 | lower-casing the name term or the role term does not change which users are kept |
| `UserFilter.SearchIgnoresDataCase` | src/components/UserPage/AdminUserList.tsx:59-61 | lower-casing a user's names or role does not change whether it is kept |
| `UserFilter.SampleNameMatch` | src/components/UserPage/AdminUserList.tsx:59-61 | "an" finds "An Nguyen"; "AN" with role "ADM" finds an admin |
| `UserFilter.SampleCreatedAtCase` | src/components/UserPage/AdminUserList.tsx:62 | the creation-date term is case-sensitive: "T" finds `2024-01-05T00:00:00Z`... |
| `UserFilter.SampleCreatedAtLowerCase` | src/components/UserPage/AdminUserList.tsx:62 | ...and "t" does not |
| `UserFilter.SampleDateTerms` | src/components/UserPage/AdminUserList.tsx:62 | the raw timestamp `2024-01-05T00:00:00Z` contains no ten-character term without a `T` other than its own date part |
| `UserFilter.SampleCreatedAtRaw` | src/components/UserPage/AdminUserList.tsx:62 | the creation-date term is matched against the raw timestamp, so the displayed form "05-01-2024" finds nothing; nor does "2024-01-06", a different day |
| `UserFilter.SampleDisplayedNameOrder` | src/components/UserPage/AdminUserList.tsx:59-60 | the name as displayed in the table (last name first) does not find the user |
| `Text.Lower` | src/components/UserPage/AdminUserList.tsx:60-61 | `toLowerCase` as ASCII lower-casing: same length, each character lower-cased; `LowerIdempotent` and `LowerKeepsContains` relate it to search |
| `Text.Contains` | src/components/UserPage/AdminUserList.tsx:60-62 | substring search: true iff the term occurs at some position of the string |
| `DateFormat.PadStart` | src/components/UserPage/AdminUserList.tsx:75-76 | the result has the requested width (or the original length if longer), ends with the original string and is filled on the left |
| `DateFormat.IntToString` | src/components/UserPage/AdminUserList.tsx:77-78 | the year's rendering starts with `-` exactly for negative years; the digits after it are non-empty and begin with `0` only when they are exactly `0`, so there is no padding with leading zeros for any year |
| `DateFormat.FormatDate` | src/components/UserPage/AdminUserList.tsx:73-79 | the rendering has at least seven characters; its full shape is `FormatDateShape` and its inverse is `FormatDateRoundTrip` |
| `DateFormat.FormatDateShape` | src/components/UserPage/AdminUserList.tsx:73-79 | for day 1..31 and month index 0..11 the result is two-digit day, `-`, two-digit month number, `-`, the unpadded year |
| `DateFormat.FormatDateRoundTrip` | src/components/UserPage/AdminUserList.tsx:73-79 | for day 1..31 and month index 0..11, reading the rendered string back gives the day, the month index and the year |
| `DateFormat.ParseIntToString` | src/components/UserPage/AdminUserList.tsx:77-78 | the year's decimal rendering, minus sign included, reads back as the year |
| `DateFormat.ShortYearNotPadded` | src/components/UserPage/AdminUserList.tsx:77-78 | 2 March of year 5 renders as `02-03-5`: the year is not padded |
| `DateFormat.SampleDate` | src/components/UserPage/AdminUserList.tsx:73-79 | 2 March 2024 renders as `02-03-2024` |
| `Email.ValidateEmail` | src/components/LoginSignupPassword/Login.tsx:16-19 | an accepted address has at least six characters and ends in two letters; `ValidateEmailIsPattern` proves it decides exactly the expression's language |
| `Email.ValidateEmailIsPattern` | src/components/LoginSignupPassword/Login.tsx:16-19 | the recogniser accepts a string iff it is in the language of the e-mail expression |
| `Email.ValidateEmailSound` | src/components/LoginSignupPassword/Login.tsx:17 | an accepted string has a matching placement of `@` and final `.` |
| `Email.ValidateEmailComplete` | src/components/LoginSignupPassword/Login.tsx:17 | any matching placement of `@` and final `.` makes the string accepted |
| `Email.AcceptedAtUnique` | src/components/LoginSignupPassword/Login.tsx:17 | in an accepted address any two `@` characters are at the same position |
| `Email.AcceptedHasOneAt` | src/components/LoginSignupPassword/Login.tsx:17 | an accepted address contains exactly one `@` |
| `Email.AcceptedParts` | src/components/LoginSignupPassword/Login.tsx:17 | in an accepted address the part before `@` is non-empty local characters, everything after it is domain characters, at least one comes before the last `.`, and after that `.` come two or more letters to the end |
| `Email.NoDomainBeforeDot` | src/components/LoginSignupPassword/Login.tsx:17 | `a@.com` is refused |
| `Email.DotBeforeDot` | src/components/LoginSignupPassword/Login.tsx:17 | `a@..com` is accepted |
| `Email.TopLevelDomain` | src/components/LoginSignupPassword/Login.tsx:17 | `a@b.co` is accepted; a one-letter top-level domain or one with a digit is refused |
| `Email.AtSignNeeded` | src/components/LoginSignupPassword/Login.tsx:17 | the empty string, a string without `@` and one with nothing before `@` are refused |
| `Email.SecondAtSign` | src/components/LoginSignupPassword/Login.tsx:17 | an address with a second `@` is refused |
| `Email.LocalSymbols` | src/components/LoginSignupPassword/Login.tsx:17 | local parts using `.`, `_`, `%`, `+` and `-` and domains using `-` and digits are accepted |
| `Login.ValidateForm` | src/components/LoginSignupPassword/Login.tsx:22-34 | an empty field gives "Please fill in all required fields." before the address is looked at; with both filled, "Invalid email address." iff the address is refused, and valid when it is accepted |
| `Login.ValidFormIff` | src/components/LoginSignupPassword/Login.tsx:22-34 | the form passes iff the password is non-empty and the address is in the language of the e-mail expression |
| `Login.HandleLogin` | src/components/LoginSignupPassword/Login.tsx:37-42 | while loading nothing changes and no request goes out; a refused form only sets the message; a request goes out iff not loading and the form passes, carrying the typed credentials and raising the loading flag |
| `Login.FinishLogin` | src/components/LoginSignupPassword/Login.tsx:43-65 | afterwards the loading flag is down; success stores the returned user and navigates to `/home`; a failed request sets "Invalid email or password. Please try again." and leaves the stored user and route alone; a successful request whose user cannot be written after the old entry was removed sets the same message, leaves no stored user and does not navigate |
| `Login.EditEmail` | src/components/LoginSignupPassword/Login.tsx:81-84 | typing in the e-mail field replaces it and clears the error; nothing else changes |
| `Login.EditPassword` | src/components/LoginSignupPassword/Login.tsx:94-97 | typing in the password field replaces it and clears the error; nothing else changes |
| `Login.InitialConsistent` | src/components/LoginSignupPassword/Login.tsx:7-11 | the freshly mounted form (empty fields and message, loading flag down, any user left in storage by an earlier visit) with nothing in flight satisfies the loading-flag invariant, so `RunConsistent` applies from it |
| `Login.RunConsistent` | src/components/LoginSignupPassword/Login.tsx:37-66 | over any sequence of events, the loading flag is up exactly while a request is in flight, and every request in flight carries credentials the form accepted |
| `Login.ClickWhileLoading` | src/components/LoginSignupPassword/Login.tsx:38 | a click while a request is in flight changes nothing |
| `Login.ClickWithInvalidForm` | src/components/LoginSignupPassword/Login.tsx:40 | a click with a refused form issues no request, keeps the loading flag down and shows the refusal's message |
| `Login.StoredUserFromSuccess` | src/components/LoginSignupPassword/Login.tsx:52-56 | after any sequence of events the stored user is the earlier one, the user of some successful response, or none after a response whose storage write failed |
| `Login.HomeOnlyAfterSuccess` | src/components/LoginSignupPassword/Login.tsx:58-59 | starting without a navigation, the form has navigated nowhere or to `/home`, and the latter only after a successful response |
| `Login.RetryAfterRefusal` | src/components/LoginSignupPassword/Login.tsx:37-42 | after a refused click, retyping the address clears the message, and when the new address passes, the next click sends it with the password already typed |

## Left out

- The user-list request (`fetchAllUsers`), the login request, the profile requests and all
  storage reads: network and browser storage. The login request's result is an input
  (`Login.Outcome`) and the stored user is a field of the form's state; a storage write that
  throws after the old entry was removed is the outcome `Login.StoreFailed`.
- `new Date(dateString)` and the local-time `getDate`, `getMonth` and `getFullYear` calls:
  timezone-dependent library behaviour. `DateFormat.FormatDate` takes the three integers
  they return; an unparseable date (which renders `NaN-NaN-NaN`) is not modelled.
- Unicode `toLowerCase`: modelled as ASCII lower-casing, so letters outside `A`–`Z` keep
  their case in the model.
- Overlapping requests: the `isLoading` guard reads the value of the render the click came
  from, so two clicks before a re-render could both send a request; the model treats each
  event as seeing the latest state, and a response for no request in flight is ignored.
- React rendering, hooks and the effect that re-runs the filter whenever a criterion or the
  user list changes: the model is the filter as a function of the list and the criteria.
- The `console.log` and `console.error` calls (`LoginSignupPassword/Login.tsx` lines 50 and 61,
  `UserPage/AdminUserList.tsx` line 44): logging has no effect on the state the model describes.
- The login form's `successMessage`, which is never set, and the sign-up and
  lost-password navigation links, which carry no logic.
- The admin user-detail view: a sequence of network requests and a timed message reset;
  its only pure step is a one-field record merge.
- The side navigation panel: a static list of links.
