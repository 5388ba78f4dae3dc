# Critical-error filter of the LabubuShop end-to-end suite

The LabubuShop end-to-end suite drives a browser against the storefront and
collects console and page errors while a scenario runs. Before asserting
that "no critical error occurred", it drops known-benign noise:
`TestHelpers.filterCriticalErrors` keeps, in their original order, only the
messages that contain none of five substrings (`favicon`, `404`,
`net::ERR_FAILED`, `Non-Error promise rejection`, `ChunkLoadError`). Two
scenarios inline the same filter with shorter denylists: the home-page
scenario uses the first three substrings, the user-experience scenario the
first four.

The model has three modules:

- `Substring` (`substring.dfy`): the string `includes` test as a recursive
  predicate `Contains`. It is proved equal to an independent
  definition: `sub` occurs at some position `i` of `s`.
- `Subsequence` (`subsequence.dfy`): "order-preserving selection". `r` is a
  subsequence of `s` when some strictly increasing list of positions of `s`
  spells out `r`.
- `ErrorFilter` (`error_filter.dfy`): `Filter(errors, denylist)` is the
  `errors.filter(...)` call for any denylist. `FilterCriticalErrors` applies
  it with the helper's five substrings. `HomeDenylist` and
  `ExperienceDenylist` are the two inline variants. The lemmas state what
  the filter promises: order, exclusion, exact retention, length, emptiness,
  idempotence, distribution over concatenation, and how the three
  denylists relate.

The filter is pure, so the model is made of functions and lemmas. A JavaScript
string is modelled as a Dafny `string` (`seq<char>`). Matching compares
characters exactly, with no case folding or normalisation, just as
`includes` does.

## Model

| member | source | states |
|---|---|---|
| `Substring.Contains` | e2e/helpers.ts:101-105 | models `String.prototype.includes`; carries no contract of its own and is pinned down by `ContainsIffOccurs`, `ContainedAnywhere`, `MissingCharNotContained` and `CaseSensitive` |
| `Substring.ContainsIffOccurs` | e2e/helpers.ts:101-105 | `includes` (modelled by `Contains`) holds exactly when the substring occurs at some position of the message, in both directions |
| `Substring.ContainedAnywhere` | e2e/helpers.ts:101-105 | a substring is found wherever it sits in the message, at the start, in the middle or at the end |
| `Substring.MissingCharNotContained` | e2e/helpers.ts:101-105 | a message lacking any one character of the substring does not contain it |
| `Substring.CaseSensitive` | e2e/helpers.ts:101 | matching is case-sensitive: `GET /favicon.ico` contains `favicon`, `GET /FAVICON.ICO` does not |
| `ErrorFilter.IsBenign` | e2e/helpers.ts:100-105 | models the arrow function passed to `filter`, negated: some denylisted substring occurs in the message; carries no contract of its own and is tied to the source's five negated `includes` tests by `CriticalIffNoneOfFive` and to joined denylists by `BenignConcat` |
| `ErrorFilter.FilterCriticalErrors` | e2e/helpers.ts:98-107 | `Filter` with the five-substring denylist: the result is no longer than the input, and a message is in it exactly when it is an input message that contains none of `favicon`, `404`, `net::ERR_FAILED`, `Non-Error promise rejection`, `ChunkLoadError`; order and multiplicities by `FilterIsSubsequence` and `FilterCount` |
| `ErrorFilter.Filter` | e2e/helpers.ts:99-106 | the result is no longer than the input, and every returned message is an input message that contains no denylisted substring |
| `ErrorFilter.CriticalIffNoneOfFive` | e2e/helpers.ts:100-105 | a message is critical under the helper's denylist exactly when all five negated `includes` tests of the source hold |
| `ErrorFilter.DeniedAnywhereIsDropped` | e2e/helpers.ts:100-105 | a message with one of the five substrings anywhere in it is never in the helper's result |
| `ErrorFilter.FilterIsSubsequence` | e2e/helpers.ts:99 | the result is a subsequence of the input: its messages sit at strictly increasing input positions, so relative order is kept |
| `ErrorFilter.FilterCount` | e2e/helpers.ts:99-106 | each benign message occurs 0 times in the result; each critical message occurs exactly as often as in the input, duplicates included |
| `ErrorFilter.FilterRetainsCritical` | e2e/helpers.ts:99-106 | for every input and denylist, every input message without a denylisted substring appears in the result |
| `ErrorFilter.FilterKeepsAllIff` | e2e/helpers.ts:99-106 | the result has the input's length, and equals the input, exactly when no input message is benign |
| `ErrorFilter.FilterEmptyIff` | e2e/integration.spec.ts:124-125 | the result is empty exactly when every input message is benign, so a scenario's "no critical errors" check is a claim about its collected errors |
| `ErrorFilter.FilterIdempotent` | e2e/helpers.ts:99-106 | filtering the filter's own output returns that output unchanged |
| `ErrorFilter.FilterAppend` | e2e/helpers.ts:99 | filtering the empty list gives the empty list, and filtering `a + b` gives the filtered `a` followed by the filtered `b` |
| `ErrorFilter.BenignConcat` | e2e/helpers.ts:100-105 | a message is benign under a joined denylist exactly when it is benign under one of the two parts |
| `ErrorFilter.FilterCompose` | e2e/helpers.ts:100-105 | filtering by the denylist `a + b` is the same as filtering by `a` and then by `b` |
| `ErrorFilter.HelperRefinesInlineFilters` | e2e/home.spec.ts:126-129 | the helper's result is what remains of the home-page (three substrings) and user-experience (four substrings, e2e/user-experience.spec.ts:208-214) results after the extra substrings are applied; it is a subsequence of each, and it is empty whenever either of them is |
| `ErrorFilter.OneCriticalAmongNoise` | e2e/helpers.ts:99-106 | for any denylist, a list of benign messages around one critical message filters down to exactly that message |
| `ErrorFilter.SampleNoiseIsBenign` | e2e/helpers.ts:100-105 | each sample noise message is benign, including `GET /api/products 404` whose `404` sits at the end, and a favicon URL with `favicon` in the middle |
| `ErrorFilter.SampleFaultIsCritical` | e2e/helpers.ts:100-105 | the unrelated message `TypeError: cart is undefined` contains none of the five substrings |
| `ErrorFilter.OnlyUnrelatedErrorSurvives` | e2e/helpers.ts:98-107 | a list of one message of each benign kind followed by an unrelated error filters down to exactly that error (an instance of `OneCriticalAmongNoise`) |

## Left out

- All Playwright wrappers in `e2e/helpers.ts`: navigation and load waits, locator getters, visibility-gated clicks and fills, and the `PageObjects` class. They are asynchronous calls into a browser-automation library that is not part of this model.
- `TestHelpers.checkForJavaScriptErrors` (e2e/helpers.ts:79-93): it gathers messages through browser event callbacks. The model takes the collected list as an input.
- The page-object classes under `e2e-oop/pages/` and all scenario bodies, including the product counts of the smoke test. They assert on the storefront application, which is not part of this model.
- Viewport loops, offline simulation and wall-clock thresholds: they only configure the browser or measure real time.
- "The input list is not modified": this holds by construction. A Dafny `seq` is an immutable value, just as `Array.prototype.filter` returns a new array, so there is no separate statement of it.
- JavaScript strings are sequences of UTF-16 code units. The model compares `char`s one to one and does not model surrogate pairs. None of the five substrings contains a non-ASCII character.
