# MONAD balance checker, modelled in Dafny

A model of the balance checker of `monad-check`: the `checkBalances` click
handler of the `App` component (src/App.js, lines 13-43) and the state it
works on.

The user pastes addresses into a text box, one per line, and presses
"Check Balances". The handler then does the following:

- It sets the in-progress flag.
- It parses the text. The text is split on line feeds, each line is
  trimmed with JavaScript's `trim`, and empty lines are dropped.
- It empties the result list.
- It visits the addresses one at a time, in order. For each address it
  waits one second and requests the address's token portfolio from the
  BlockVision endpoint. It then appends exactly one record to the list:
  - the `balance` of the first token whose symbol is `MON`, or `'N/A'`
    when there is none, with status `success`;
  - or the text `Error fetching balance` with status `error`, when
    anything in that iteration throws.
- After the last address it clears the flag.

The project has four modules:

- `Addresses` (addresses.dfy) models the parser of line 15:
  - `SplitLines` is `split('\n')`, with `JoinLines` as its inverse;
  - `Trim` is `trim` over ECMAScript's exact white-space and
    line-terminator set;
  - `DropEmpty` is `filter(addr => addr)`;
  - `ParseAddresses` is the whole pipeline.
- `Tokens` (tokens.dfy) models the lookup of lines 33-34. `FindMon` is
  `Array.prototype.find` with the callback `token.symbol === 'MON'`,
  including the `TypeError` the callback throws on a `null` entry.
  `MonBalance` is the balance shown.
- `Run` (run.dfy) models one run as values:
  - `Settle` is the `try`/`catch` of one iteration once the reply is in;
  - `Expected` is the list of records a run ends with;
  - `RunEvents` is the events of a run, in order: set the flag, empty the
    list, then wait, request and append for each address, then clear the
    flag;
  - `Shown`, `Checking` and `Fetched` read off, from any sequence of
    events, the result list, the flag and the URLs requested.
  The lemmas about whole runs are stated over `RunOf(urls, records)`, so
  they hold for every run; `RunEvents` is one such run.
- `Checker` (checker.dfy) models the component's state as the class
  `BalanceChecker`. Its fields are `addresses`, `results` and
  `isChecking`, plus a ghost event `trace`. `CheckBalances` runs the loop
  in place. `Valid` states that `results` and `isChecking` are exactly
  what the trace has made of them.

The network is a parameter `net: Network`. It maps the position of a
request within its run and the request URL to a `Reply`: either `Failure`
(the request, the JSON decoding or the `result.data` access threw) or the
reply's token list.

The code makes a single request per address, with no retry or back-off,
and its error text is exactly `Error fetching balance` (line 39); the
model does the same.

## Model

| member | source | states |
|---|---|---|
| Addresses.IsSpace | src/App.js:15 | the characters `trim` removes: ECMAScript's WhiteSpace and LineTerminator code points; `TrimIsUnpadded`, `TrimSplits` and `TrimEmptyIffBlank` state what trim does with them |
| Addresses.TrimStart | src/App.js:15 | the leading half of `trim`: what is left is no longer than the line and does not start with white space |
| Addresses.TrimEnd | src/App.js:15 | the trailing half of `trim`: what is left is no longer than the line and does not end with white space |
| Addresses.Trim | src/App.js:15 | `trim`: never longer than the line; `TrimSplits` and `TrimUnique` fix it as the unpadded middle between white space at the two ends |
| Addresses.TrimStartDrops | src/App.js:15 | `trim` removes leading characters only while they are white space: what is left is a suffix of the line and everything before it is white space |
| Addresses.TrimEndDrops | src/App.js:15 | `trim` removes trailing characters only while they are white space: what is left is a prefix and everything after it is white space |
| Addresses.TrimIsUnpadded | src/App.js:15 | a trimmed line neither starts nor ends with white space |
| Addresses.TrimSplits | src/App.js:15 | every line is white space, then its trim, then white space, so trim removes characters from the two ends only |
| Addresses.TrimUnique | src/App.js:15 | any split of a line into white space, an unpadded middle and white space has the trim as its middle |
| Addresses.TrimUnpadded | src/App.js:15 | a line without white space at either end is its own trim |
| Addresses.TrimIdempotent | src/App.js:15 | trimming twice gives the same as trimming once |
| Addresses.TrimEmptyIffBlank | src/App.js:15 | a line trims to the empty string if and only if it is all white space, so those are exactly the lines the filter drops |
| Addresses.SplitLines | src/App.js:15 | `split('\n')` gives at least one piece, no piece holds a line feed, and joining the pieces with line feeds gives back the text |
| Addresses.SplitJoin | src/App.js:15 | splitting undoes joining, for one or more pieces without line feeds |
| Addresses.SplitNoNewline | src/App.js:15 | a text without line feeds splits into itself alone |
| Addresses.SplitConcat | src/App.js:15 | a line feed between two texts separates their pieces, and no piece is merged across it |
| Addresses.TrimAll | src/App.js:15 | `map(addr => addr.trim())`: one entry per line, the i-th the trim of the i-th line |
| Addresses.DropEmpty | src/App.js:15 | the filter keeps only non-empty strings, each taken from its input, keeps every non-empty string of its input, and never gives more than it was given |
| Addresses.DropEmptyConcat | src/App.js:15 | the filter works piece by piece, so concatenation commutes with it |
| Addresses.TrimAllConcat | src/App.js:15 | trimming every line commutes with concatenating lists of lines |
| Addresses.ParseAddresses | src/App.js:15 | the whole parser; `ParseIsReference`, `ParsedAreTrimmed`, `ParseConcat` and `ParseCount` state what it returns |
| Addresses.NonBlankTrims | src/App.js:15 | a reference parser, line by line: the trim of each line that is not all white space, in line order |
| Addresses.ParseIsReference | src/App.js:15 | the parser returns exactly the trims of the non-blank lines of the split, each once and in line order |
| Addresses.ParsedAreTrimmed | src/App.js:15 | every parsed address is non-empty, has no white space at either end (carriage returns included), and is its own trim |
| Addresses.ParseOneLine | src/App.js:15 | a single line parses to nothing when it is blank and to its trim otherwise |
| Addresses.ParseConcat | src/App.js:15 | the addresses of two texts joined by a line feed are those of the first followed by those of the second: order kept, duplicates kept, nothing merged |
| Addresses.DropEmptyTrimCount | src/App.js:15 | trimming and filtering a list of lines keeps one entry per line that is not all white space |
| Addresses.ParseCount | src/App.js:15 | the number of parsed addresses is the number of lines that are not all white space |
| Addresses.ParseLine | src/App.js:15 | a line that trims to a non-empty address parses to exactly that address |
| Addresses.ParseJoin | src/App.js:15 | lines that trim to given non-empty addresses parse back to exactly those addresses, one per line, in order |
| Addresses.CrlfJoin | src/App.js:15 | text with Windows line endings gives the same addresses as with line feeds alone |
| Tokens.FindMon | src/App.js:33 | `find` stops at the first MON entry, or throws at a null entry that comes before any MON entry, or finds nothing when every entry is a token of another symbol |
| Tokens.MonBalance | src/App.js:33-34 | the balance shown is that of the first MON token, `'N/A'` when there is none, and there is none exactly when the lookup throws on a null entry before any MON entry |
| Tokens.StopsOnce | src/App.js:33 | the lookup stops at one place at most: never at two MON entries, two holes, or both |
| Tokens.SkipOther | src/App.js:33 | a leading token of another symbol does not change the balance shown |
| Tokens.OtherTokensIgnored | src/App.js:33-34 | any run of tokens of other symbols in front of the list does not change the balance shown |
| Tokens.FirstMonWins | src/App.js:33-34 | the first MON token decides the balance, whatever follows it, null entries included |
| Run.RequestUrl | src/App.js:25 | the request URL is the endpoint with the address appended verbatim, so the address can be read back from it |
| Run.Urls | src/App.js:20-25 | each iteration's URL gives back its own address |
| Run.Settle | src/App.js:32-39 | each record carries the address it was made for |
| Run.SettleMeaning | src/App.js:32-39 | a failed request gives the error record; otherwise the record holds the first MON balance with success, `'N/A'` with success when there is no MON token, and is the error record exactly when the lookup throws |
| Run.Expected | src/App.js:20-41 | a run's list has exactly one record per parsed address, and the i-th record is for the i-th address |
| Run.Shown | src/App.js:18-39 | the result list after a sequence of events: `Reset` empties it (line 18), `Append` adds its record at the end (lines 37, 39), other events keep it; `ShownPush` states this event by event |
| Run.Checking | src/App.js:14-42 | the flag after a sequence of events: `Start` sets it (line 14), `Finish` clears it (line 42), other events keep it; `CheckingKept` and `RunKeepsChecking` state this |
| Run.RunOf | src/App.js:13-43 | the events of one run: `Start`, `Reset`, three events per address, `Finish`, so 3n + 3 events in all |
| Run.RunEvents | src/App.js:13-43 | the events of a run over the given addresses: 3 per address plus 3 |
| Run.Passes | src/App.js:20-41 | each iteration contributes three events (a wait, a request and an append) and none of them touches the flag or empties the list |
| Run.ShownDuringLoop | src/App.js:18-41 | after the first n iterations the list holds exactly their n records, whatever it held before the run |
| Run.FetchedDuringLoop | src/App.js:20-25 | after the first n iterations the requests made are exactly their n URLs, in order |
| Run.RunShows | src/App.js:13-43 | at the end of a run the list is exactly the run's records in order, and nothing from before the run survives |
| Run.RunFetches | src/App.js:20-25 | a run makes exactly its requests, once each and in order |
| Run.RunOverAddresses | src/App.js:15-41 | a run over the parsed addresses ends with the expected record of each address and requests each address's URL once, in order |
| Run.CheckingKept | src/App.js:14-42 | events other than setting and clearing the flag leave the flag as it was |
| Run.RunKeepsChecking | src/App.js:14-42 | the flag is set after the first event of a run and stays set until its last event, which clears it |
| Run.PacedConcat | src/App.js:20-25 | joining two paced event lists keeps them paced; a paced list neither starts with a request nor ends with a wait |
| Run.LoopIsPaced | src/App.js:20-25 | inside the loop each request comes right after a one-second wait, and each wait right before a request |
| Run.WaitBeforeEachFetch | src/App.js:11-25 | in a whole run each request is preceded immediately by a 1000 ms wait, and each wait is followed immediately by a request |
| Run.RunOnlyAppends | src/App.js:18-40 | the list is emptied before the first record of a run, and afterwards each event leaves it unchanged or appends its one record at the end |
| Run.FailureIsAbsorbed | src/App.js:38-40 | a failed request gives its own address the error record and changes nothing else: the other addresses get the records they would have got anyway |
| Run.ExampleAddress | src/App.js:15 | the two example addresses hold no line feed and are their own trim |
| Run.TwoAddressInput | src/App.js:15 | the text `0xAAA\n0xBBB\n` parses to the two addresses, and the trailing line feed adds nothing |
| Run.TwoAddressRecords | src/App.js:32-39 | a MON balance of 1.5 for the first address and a failure for the second give one success record and one error record |
| Run.TwoAddressExample | src/App.js:13-43 | the two-address example run ends with `[{0xAAA, 1.5, success}, {0xBBB, Error fetching balance, error}]` |
| Checker.BalanceChecker.Valid | src/App.js:8-9 | `results` and `isChecking` are exactly what the events so far have made of them (`Shown` and `Checking` of the trace); every method keeps this |
| Checker.BalanceChecker.constructor | src/App.js:7-9 | the component starts with empty text, an empty list and the flag cleared |
| Checker.BalanceChecker.Edit | src/App.js:52-54 | typing replaces the text, which is only possible between runs, and keeps the list and the flag |
| Checker.BalanceChecker.Visit | src/App.js:20-40 | one iteration appends exactly one record, the one its reply settles to, and records a wait, a request and an append |
| Checker.BalanceChecker.CheckBalances | src/App.js:13-43 | a click ends with the flag cleared and the list equal to one record per parsed address, in order, and its events are exactly one run's |

## Left out

- The HTTP request itself is left out: the `fetch`, its three headers, the response and its JSON decoding. A request is a call to the `net` parameter, and everything that can throw before the token lookup is the single reply `Failure`.
- The HTTP status is not modelled. The code never reads it: a non-2xx reply whose JSON body has a `result.data` list is treated like any other.
- A non-array `result.data` is left out. Calling `find` on a value that is not an array throws and gives an error record, so it counts as `Failure`. An array-like object with its own `find` is not modelled.
- Token entries are either a token with a string symbol and a string balance, or a `null`/`undefined` hole. An entry whose symbol is not a string compares unequal to `'MON'`, the same as a token of another symbol. A MON entry whose `balance` is missing or not a string is not modelled: the code would record it as `success` with that value.
- The one-second `setTimeout` is the event `Wait(1000)`. Time, and the asynchronous interleaving of `await`, are not modelled.
- React's state updates are modelled as assignments done in order. React batches and defers them; the functional `setResults(prev => …)` form used by the code makes the appends compose in that order anyway.
- A second click during a run is excluded by `requires !isChecking`: the button and the box are disabled while the flag is set (lines 54 and 59).
- The rendering (lines 45-78), src/components/ResultItem.js, src/index.js and webpack.config.js are presentation and build plumbing, and they are not part of this model.
- A request that never settles is not modelled: `net` always answers, so a run in the model always ends. The code sets no time-out and no abort on `fetch` (line 25) or `response.json()` (line 32), so such a request would leave the loop suspended, `isChecking` true and the list short.
