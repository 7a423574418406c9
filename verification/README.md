# Candidate lookup API: a verified Dafny model

This project models `GET /api/candidates` (`app/api/candidates/route.ts`), the API route that
serves the election candidate list. On a request it does one of three things:

- Returns the list already in memory when that list is less than five minutes old (a cache hit).
- Otherwise reads the candidate CSV file, parses it, stores the result and its timestamp in
  module-level variables, and returns it (a cache miss).
- Answers with status 500 when the file cannot be read.

When the request has a `search` text, it is matched case-insensitively against the English
Assembly, candidate and district names, and verbatim against the three Hindi fields. Only the
matching rows are returned.

The model has four modules:

- `Wrappers` (`wrappers.dfy`): `Option`. It stands for JavaScript's `null` cache and for the
  NaN that `parseInt` returns.
- `JsStrings` (`js_strings.dfy`): the string built-ins the route calls, written out as
  ECMAScript defines them:
  - `trim`, with the full WhiteSpace and LineTerminator set.
  - `split` at one character.
  - `toLowerCase`.
  - `includes`.
  - `parseInt`: leading whitespace, sign, `0x` prefix, longest digit prefix, NaN.
- `JsArrays` (`js_arrays.dfy`): `Array.prototype.filter` over a callback.
- `CandidatesRoute` (`route.dfy`):
  - The `Candidate` record and the `Response` body.
  - `parseCSV` as an imperative loop (`ParseCSV`), proved equal to the specification
    function `ParsedCandidates`.
  - The search predicate `Matches` and the `Filter` applied to the list.
  - The module-level cache as the class `CandidateCache`. Its `Get` method is the route
    handler.

`Get` takes as parameters the three things the route gets from outside: the file text
together with whether reading it succeeded, the clock, and the `search` query value.

`parseCSV` neither deduplicates nor sorts; a row whose Assembly column has no `digits-` prefix
is kept with AC number 0; a row needs at least ten comma-separated columns.

## Model

| member | source | states |
|---|---|---|
| CandidatesRoute.ParseCSV | app/api/candidates/route.ts:23-55 | The loop (with the record built by `RowToCandidate`) over the lines after the header returns exactly `ParsedCandidates(content)`: for each line, in order, one record when the trimmed line is non-empty and splits into at least ten columns, and nothing otherwise |
| CandidatesRoute.Lines | app/api/candidates/route.ts:24 | Splitting the trimmed file text at line feeds always gives at least one line, so line 0 (the header) always exists |
| CandidatesRoute.RecordsSerials | app/api/candidates/route.ts:28-51 | The records from lines below `n` have serial numbers in 1 .. n-1 that strictly increase, so there are at most n-1 of them |
| CandidatesRoute.RecordsSound | app/api/candidates/route.ts:28-51 | Every record is the record built from the data row on line `sNo` |
| CandidatesRoute.RecordsComplete | app/api/candidates/route.ts:28-51 | Every data row below `n` other than the header has a record with its line index as `sNo` |
| CandidatesRoute.ParsedShape | app/api/candidates/route.ts:24-40 | Parse shape of `ParsedCandidates`, the list `parseCSV` returns: at most one record per line after the header, never one from the header, each `sNo` is the index of the data row it came from, records are in file order with strictly increasing `sNo`, and every qualifying line has a record |
| CandidatesRoute.ParsedFields | app/api/candidates/route.ts:39-50 | Field mapping of `RowToCandidate`, for every record of `ParsedCandidates`: district, acName, candidateName and electionPhase are columns 0-3; the Hindi fields are columns 6-8; acNumber comes from column 1 and ballotNumber from column 4 |
| CandidatesRoute.AcNumberSpec | app/api/candidates/route.ts:35-37 | `AcNumber`: the value of the leading digits when the Assembly column starts with digits and a dash (`^(\d+)-`); 0 when it does not |
| CandidatesRoute.AcNumberRoundTrip | app/api/candidates/route.ts:34-37 | An Assembly column written as number-dash-name, e.g. "29-Runnisaidpur", yields that number |
| CandidatesRoute.BallotNumberSpec | app/api/candidates/route.ts:46 | `BallotNumber`: a ballot column holding a printed integer (with leading whitespace and non-alphanumeric trailing text allowed) yields that integer |
| CandidatesRoute.BallotNumberNaN | app/api/candidates/route.ts:46 | A ballot column with no digit after whitespace and sign makes `parseInt` NaN, and `|| 0` gives 0 |
| CandidatesRoute.Filter | app/api/candidates/route.ts:97-107 | The list returned: the input unchanged when the search is empty; exactly the records of the input that match the search (all of them when the search is empty), no more often than in the input, and no longer than it |
| CandidatesRoute.MatchesIff | app/api/candidates/route.ts:66-74 | `Matches`: a record matches exactly when the lower-cased search occurs at some position of a lower-cased English field, or the search itself occurs in a Hindi field |
| CandidatesRoute.EmptySearchKeepsAll | app/api/candidates/route.ts:65-75 | Returning the list unfiltered for an empty search agrees with filtering it, since every record matches the empty text |
| CandidatesRoute.FilterAppend | app/api/candidates/route.ts:98-106 | The filter keeps order and decides each record on its own: filtering a concatenation concatenates the results, and a single record is kept exactly when it matches |
| CandidatesRoute.FilterIdempotent | app/api/candidates/route.ts:98-106 | Filtering the result again with the same search changes nothing |
| CandidatesRoute.CandidateCache.constructor | app/api/candidates/route.ts:6-7 | When the module loads there is no cache and the timestamp is 0 |
| CandidatesRoute.CandidateCache.Get | app/api/candidates/route.ts:57-128 | `total` is always the length of `data`. A cache hit happens exactly when there is a cache and `now - timestamp < 300000`; it leaves the state unchanged and returns the filtered cache with `cached: true`. A miss with a readable file stores the parse of the file and sets the timestamp to `now`, then returns the filtered parse with `cached: false`. A read failure returns `success: false`, the error text, empty data, total 0 and status 500, and leaves the state unchanged |
| JsArrays.Filter | app/api/candidates/route.ts:66 | `filter` never returns more elements than it was given |
| JsArrays.FilterMembers | app/api/candidates/route.ts:66-74 | The result holds exactly the input elements the callback accepts, each no more often than in the input |
| JsArrays.FilterAppend | app/api/candidates/route.ts:98 | `filter` over a concatenation is the concatenation of the filters |
| JsArrays.FilterAll | app/api/candidates/route.ts:65-75 | A list whose elements all pass comes back unchanged |
| JsArrays.FilterIdempotent | app/api/candidates/route.ts:98 | Filtering twice with the same callback is filtering once |
| JsStrings.TrimStartSpec | app/api/candidates/route.ts:29 | Trimming the front keeps a suffix, removes only whitespace, and leaves no whitespace at the front |
| JsStrings.TrimEndSpec | app/api/candidates/route.ts:29 | Trimming the end keeps a prefix, removes only whitespace, and leaves no whitespace at the end |
| JsStrings.TrimSpec | app/api/candidates/route.ts:29-30 | `Trim`, i.e. `trim`, leaves no whitespace at either end and is empty exactly when the line is all whitespace (the lines `parseCSV` skips) |
| JsStrings.TrimStartPadded | app/api/candidates/route.ts:24 | Trimming the front removes exactly a whitespace prefix placed before text that does not start with whitespace |
| JsStrings.TrimEndPadded | app/api/candidates/route.ts:24 | Trimming the end removes exactly a whitespace suffix placed after text that does not end with whitespace |
| JsStrings.TrimPadded | app/api/candidates/route.ts:24 | `trim` of a text padded with whitespace on both sides gives back the text |
| JsStrings.TrimIdempotent | app/api/candidates/route.ts:29 | Trimming twice is trimming once |
| JsStrings.Split | app/api/candidates/route.ts:32 | `split` gives one more piece than there are separators, and no piece contains the separator |
| JsStrings.JoinSplit | app/api/candidates/route.ts:32 | Joining the pieces of a split with the separator restores the text |
| JsStrings.SplitPrefix | app/api/candidates/route.ts:32 | Text without a separator in front of `t` is glued onto the first piece of `t` |
| JsStrings.SplitSeparator | app/api/candidates/route.ts:24 | A leading separator adds one empty piece |
| JsStrings.SplitJoin | app/api/candidates/route.ts:24 | Splitting a join of separator-free pieces gives back the pieces |
| JsStrings.LowerChar | app/api/candidates/route.ts:67 | A character becomes lower case: an ASCII capital moves to its small letter and every other character is unchanged |
| JsStrings.ToLower | app/api/candidates/route.ts:67-70 | `toLowerCase` keeps the length and lowers each character in place |
| JsStrings.ToLowerIdempotent | app/api/candidates/route.ts:67-70 | Lower-casing twice is lower-casing once |
| JsStrings.IncludesIff | app/api/candidates/route.ts:68-73 | `Includes`, i.e. `includes`, holds exactly when the needle occurs at some position |
| JsStrings.IncludesEmpty | app/api/candidates/route.ts:65-75 | Every string includes the empty string |
| JsStrings.LeadingDigits | app/api/candidates/route.ts:36 | The digit run read is the longest prefix made only of digits of the radix |
| JsStrings.NatToDecimal | app/api/candidates/route.ts:37 | A decimal numeral has at least one digit and no leading zero |
| JsStrings.DecimalRoundTrip | app/api/candidates/route.ts:37 | Reading the decimal numeral of `n` gives `n` |
| JsStrings.LeadingDigitsOfNumeral | app/api/candidates/route.ts:36 | Digits followed by a non-digit are read in full and no further |
| JsStrings.UnsignedOfPrinted | app/api/candidates/route.ts:46 | After leading whitespace, a printed integer has a `-` exactly when it is negative, and what follows the sign is its magnitude's numeral |
| JsStrings.MagnitudeOfNumeral | app/api/candidates/route.ts:46 | The magnitude read from a numeral followed by non-alphanumeric text is its value; it is never taken for a `0x` prefix |
| JsStrings.ParseIntRoundTrip | app/api/candidates/route.ts:46 | `ParseInt`, i.e. `parseInt`, reads back any printed integer, whatever whitespace precedes it and whatever non-alphanumeric text follows it |
| JsStrings.ParseIntNoDigits | app/api/candidates/route.ts:46 | `parseInt` gives NaN when no digit follows the whitespace and sign |

## Left out

- Reading `public/assets/CandidateNameData.csv` with `fs.readFileSync`. It is replaced by the `fileText` and `readOk` parameters of `Get`; any read error is one failure.
- `path.join` and `process.cwd()`, which only build the file path.
- `Date.now()`. It is the `now` parameter of `Get`.
- `new URL(request.url)`, `searchParams.get('search') || ''` and `NextResponse.json`. The search text is a plain string parameter (missing is the empty string), and the JSON body is the `Response` datatype with its status.
- `console.error` logging in the error branch.
- Concurrent requests racing on the module-level cache. Each `Get` call runs to completion on its own.
- That the hit branch returns the cached array itself (aliasing) rather than a copy. The model works on values.
- JsStrings.ToLower: only the ASCII letters A-Z are lowered. Full Unicode case mapping is not modelled; Devanagari has no case, and the route does not lower the Hindi fields.
- JsStrings.ParseInt: works on unbounded integers, and so does `CandidatesRoute.AcNumber`, which reads the `\d+` run of route.ts:36-37 with `Value`. JavaScript's double-precision rounding of very long digit runs and the result -0 for "-0" are not modelled; `|| 0` maps -0 to 0 in the route anyway.
- Strings are sequences of Unicode scalar values, not JavaScript's UTF-16 code units. Reading the file as UTF-8 with `readFileSync` and decoding the query with `URLSearchParams` never produce lone surrogates, and on such text `trim`, `split` at `,` or `\n`, `includes` and `parseInt` give the same result whether code units or scalar values are counted. The one difference, the case mapping of letters outside the Basic Multilingual Plane, is covered by the JsStrings.ToLower line.
- CSV quoting. Neither the route nor the model handles quoted fields that contain commas; a line is split at every comma.
- The user interface in `app/page.tsx` and its components. They only display what this route returns, so they are not part of this model.
