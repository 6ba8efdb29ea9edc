# repl-alliance command shell, modelled in Dafny

This project models the command-dispatch engine of `repl-alliance`, an
embeddable interactive shell for Ethereum projects, and proves properties
of that model. The engine is made of the following parts:

- **Tokenizer.** `split` (lib/repl-base/utils.js) cuts a line into tokens. It
  honours single and double quotes, keeps backslashes, and tolerates an
  unterminated quote.
- **Types.** A parameter type (lib/repl-base/type.js) parses a token into a
  value or an error, suggests completions, and renders values. The built-ins
  are `string`, `rest`, `boolean` and `file`, and the session adds `mode` and
  `command`. The domain adds `address`, `useraddress`, `contractaddress`,
  `uint256` and `contract` (lib/repl-alliance.js), which read two address
  books.
- **Commands.** A command (lib/repl-base/command.js) binds a line's tokens to
  its typed parameters. It collects every error, flags missing tokens, and
  requotes the tokens taken by a `rest` parameter.
- **Modes.** A mode (lib/repl-base/mode.js) keeps, for each name, a list of
  candidate commands, newest first. It looks names up through its chain of
  parent modes and provides:
  - overload resolution, with four outcomes: unknown, ambiguous, failed or
    resolved;
  - help;
  - dispatch;
  - the completion algorithm.
- **Session.** `ReplBase` (lib/repl-base/repl-base.js) holds the table of
  modes and the current mode, with its change notification. It dispatches
  lines, filters completions, and replays scripts.
  `ReplAlliance` (lib/repl-alliance.js) extends it with:
  - the user and contract address books;
  - the acting user;
  - the base actions;
  - the `become`, `addressBook` and `storeContract` commands;
  - the duplicate-name guard of `addContractByAddress`.

## How the model is organised

- **`Values`, `Dicts`.** A JavaScript plain object is an insertion-ordered
  association list (`Dict`). `||` on a missing or empty entry is modelled
  explicitly.
- **`Utils`.** `Tokens` defines the tokenizer recursively. `Split` is the
  left-to-right scanner and is proved equal to it. The lemmas characterise
  tokens by the shape of the input.
- **`Types`, `AllianceTypes`.** A type is one of a closed set of kinds. The
  state its closures read is passed explicitly in an `Env`: the mode names,
  the visible action names, the address books, the contract names, and the
  file lister.
- **`Commands`.** `Bind` is the binding loop. It is proved equal to the
  recursive `Bound`, and `Bound` is characterised in closed form.
- **`Modes`.**
  - `Mode` is a class whose candidate lists change in place (`Add`,
    `DefineAction`).
  - The parent is a constant, and a ghost depth keeps the chain finite.
  - Resolution, dispatch and completion are pure functions over the list of
    candidates.
  - `Mode.Suggest` is the source's step-by-step completion. It is proved
    equal to `CompletionOf`.
- **`Repl`.**
  - `ReplBase` is a class. Its methods change the mode table, the current
    mode and the event log.
  - The completion filter `Narrow` is a pure function.
  - The printing rule of script replay is the pure function `Replay`.
- **`Alliance`.**
  - `ReplAlliance` is a class holding the `ReplBase` it extends. The
    alliance's `RunScript` is proved against `Replay`.
  - A command handler is a tag (`Handler`), interpreted by
    `ReplAlliance.Apply`.
  - The predicate `Applied` states each handler's effect once, from a
    snapshot (`Session`) of the state before the call. `Apply` and `Exec`
    both promise it.
  - Running another script file and calling a contract function lie outside
    the shell. Their outcome is a parameter (`external`).

Two behaviours of the code are easy to miss, and the model states both:

- **A line that fails to resolve does not abort a script.** `Mode.exec`
  prints the errors and returns undefined (lib/repl-base/mode.js:46-55), and
  `runScript` (lib/repl-base/repl-base.js:98-116) moves on to the next line.
  `Alliance.ReplAlliance.Exec` states this: a `Report` step yields
  `Done(Undefined)`. Only a handler that throws, or `exit`, ends a script
  early.
- **An empty token has a second origin.** Besides `""` and `''`, a lone quote
  at the end of the input also produces one: the regular expression accepts
  an unterminated quote with an empty body. `Utils.EmptyTokenOrigin` states
  the exact condition.

## Model

| member | source | states |
|---|---|---|
| Dicts.Put | lib/repl-alliance.js:181 | assigning a key keeps the key list when the key is present and appends the key otherwise; every other entry stays |
| Dicts.GetPut | lib/repl-alliance.js:181 | after an assignment the key reads as the new value and every other key reads as before |
| Dicts.PutPut | lib/repl-alliance.js:177 | assigning the same key twice (as `become` does to `me`) leaves only the second value |
| Utils.Split | lib/repl-base/utils.js:5-12 | the left-to-right scanner returns exactly the token list `Tokens` defines for the line |
| Utils.ScanQuoted | lib/repl-base/utils.js:5 | a quoted span ends at the first unescaped matching quote, or at the end of the input |
| Utils.NoTokensIffBlank | lib/repl-base/utils.js:5-12 | a line has no tokens if and only if every character is white space |
| Utils.WordToken | lib/repl-base/utils.js:5 | an unquoted token is a maximal run of non-space characters, and a quote inside it opens nothing |
| Utils.SkipSpace | lib/repl-base/utils.js:5 | leading white space never changes the tokens |
| Utils.QuotedToken | lib/repl-base/utils.js:5-9 | a quoted span yields its body without the quotes; escaped quotes stay in the body, backslash included |
| Utils.UnterminatedQuote | lib/repl-base/utils.js:5 | an unterminated quote yields the rest of the input, spaces included, as one token |
| Utils.EmptyTokenOrigin | lib/repl-base/utils.js:5 | an empty token needs a quote followed by the same quote or by the end of the input |
| Utils.JoinSplitRoundTrip | lib/repl-base/utils.js:5-12 | splitting plain tokens joined by single spaces gives back the same tokens |
| Types.Parse | lib/repl-base/type.js:23-36 | `string`, `rest` and `file` return the token unchanged; `mode`, `command` and `contract` accept exactly the registered names; `address` accepts exactly when the address the books resolve the token to is 42 units long; `uint256` accepts exactly a hex literal or a decimal numeral |
| Types.BooleanParse | lib/repl-base/type.js:25-33 | `boolean` gives true exactly for true/on/1 and false exactly for false/off/0, in any case; anything else is an error naming the token |
| Types.BooleanExamples | lib/repl-base/type.js:25-33 | "On", "1" and "true" parse to true, and "yes" is rejected with "Value yes is not a boolean." |
| Types.SuggestionsParse | lib/repl-base/type.js:34 | every suggestion of `boolean`, `mode` and `command` is accepted by the same type |
| Types.RenderParsedName | lib/repl-alliance.js:125-135 | a name filed in the user book, and held by no other entry, parses to its address, and that address renders back as "name (address)" |
| Commands.Bind | lib/repl-base/command.js:18-43 | the binding loop returns the binding that `Bound` specifies |
| Commands.BoundArgs | lib/repl-base/command.js:23-38 | the arguments are the parsed values of the single parameters, then the requoted remainder for a `rest` parameter that got tokens |
| Commands.BoundErrors | lib/repl-base/command.js:31-41 | the errors are every single parameter's error in order, then one "Unused arguments" error when tokens are left over and there is no `rest` |
| Commands.BoundIncomplete | lib/repl-base/command.js:23-27 | the binding is incomplete exactly when the tokens run out before the parameters, `rest` included |
| Commands.BoundWithoutTokens | lib/repl-base/command.js:23-27 | with no tokens, nothing is bound, there is no error, and the binding is incomplete unless there are no parameters |
| Commands.WellTypedBinding | lib/repl-base/command.js:18-42 | n well-typed tokens for n single parameters give n values, no error and a complete binding |
| Commands.CleanIff | lib/repl-base/command.js:18-42 | a binding is clean exactly when every single parameter parses and the token count fits the parameters |
| Commands.RequoteRoundTrip | lib/repl-base/command.js:28-30 | the `rest` argument tokenizes back into the tokens it took |
| Commands.RequotedToken | lib/repl-base/command.js:3 | a token quoted because it holds a space tokenizes back to itself |
| Commands.UsageOfOne | lib/repl-base/command.js:45-47 | the usage is "Syntax: name <type>", then a newline, a tab and the help when there is help |
| Commands.ExitUsage | lib/repl-base/command.js:65 | the usage of `exit` is "Syntax: exit " followed by a newline, a tab and "Quits." |
| Modes.Mode.DefineAction | lib/repl-base/mode.js:119-124 | creates the name's list when it is missing and puts the command at its front; every other list is unchanged |
| Modes.Mode.Add | lib/repl-base/mode.js:7-14 | the command is at the front of the list of its name and of each alias, once per occurrence; other lists are unchanged; names not yet defined are appended to the key list in the order they first occur; the same mode is returned |
| Modes.Mode.NoCandidatesIff | lib/repl-base/mode.js:21-32 | the chain has a candidate for a name if and only if the name is among the visible action names |
| Modes.Mode.UnknownActionIff | lib/repl-base/mode.js:96-100 | a name not visible from the mode resolves to exactly one "Action n not known." error listing the visible names |
| Modes.Mode.AllActionsMembers | lib/repl-base/mode.js:16-19 | `allActions` holds exactly the commands of every list along the chain |
| Modes.Mode.HelpCommands | lib/repl-base/mode.js:39-44 | help lists each command of the chain named or aliased n, once each, in the order `allActions` lists them |
| Modes.Mode.Suggest | lib/repl-base/mode.js:57-94 | the step-by-step completion of the tokens equals the completion `CompletionOf` specifies |
| Modes.Mode.NameCompletion | lib/repl-base/mode.js:57-71 | with at most one token, a name that is not visible completes against all visible names, and a visible one completes its commands' first parameter |
| Modes.Mode.ArgumentCompletion | lib/repl-base/mode.js:57-94 | with two tokens or more, the completion is that of the named commands against the typed arguments and the last token |
| Modes.NothingToComplete | lib/repl-base/mode.js:71-93 | with no error-free candidate, or with the candidate's parameters all typed, nothing is offered and the partial token is kept |
| Modes.PartialCommitted | lib/repl-base/mode.js:82-93 | a partial token that is already a suggestion is committed: the next parameter's suggestions are offered with an empty partial token, or nothing after the last parameter |
| Modes.Dedup | lib/repl-base/mode.js:18 | the set keeps every element once, and nothing else, in the order of its first occurrence |
| Modes.Named | lib/repl-base/mode.js:41 | keeps exactly the commands named or aliased n |
| Modes.NamedOrder | lib/repl-base/mode.js:41 | from a list without repetitions, the kept commands stay in the order of that list |
| Modes.SuccessfulOne | lib/repl-base/mode.js:104-109 | exactly one successful parse exists if and only if exactly one candidate binds cleanly, and it is that candidate |
| Modes.ResolvedIff | lib/repl-base/mode.js:102-109 | parsing resolves if and only if exactly one candidate binds cleanly, and then yields that candidate and its arguments |
| Modes.FailureShape | lib/repl-base/mode.js:106-116 | a failed parse has errors, and with candidates its last error is their usages joined by newlines |
| Modes.AmbiguousCommand | lib/repl-base/mode.js:110-115 | two clean bindings give "Ambiguous command: n" followed by the usages |
| Modes.NoCleanBinding | lib/repl-base/mode.js:112-115 | with no clean binding, the errors are every candidate's errors in order, followed by the usages |
| Modes.DispatchResolution | lib/repl-base/mode.js:46-55 | a handler runs if and only if parsing resolved, and then on the bound arguments; otherwise every error is reported |
| Modes.FindCandidate | lib/repl-base/mode.js:71-75 | finds the first candidate whose binding has no error |
| Modes.CompletionSource | lib/repl-base/mode.js:71-93 | completions come from the first error-free candidate, either at the next parameter or one further when the partial token is already a suggestion |
| Repl.ReplBase.constructor | lib/repl-base/repl-base.js:11-16 | a new session has no modes, is in mode "default", echoes, and has emitted nothing |
| Repl.ReplBase.SetMode | lib/repl-base/repl-base.js:40-46 | always stores the name, and emits mode-changed(new, old) only on a real change |
| Repl.ReplBase.AddMode | lib/repl-base/repl-base.js:48-51 | registers the mode under the name, replacing any mode there, and returns it |
| Repl.ReplBase.ModeOf | lib/repl-base/repl-base.js:53-58 | returns the registered mode, first registering a fresh parentless empty mode when there is none |
| Repl.ReplBase.AddChild | lib/repl-alliance.js:75 | registers under the name a fresh mode without commands whose parent is the mode registered under the parent's name before the call (a fresh parentless mode registered first when there is none); the table is otherwise unchanged; current mode, echo and events are untouched |
| Repl.ReplBase.Exec | lib/repl-base/repl-base.js:71-79 | a line without tokens changes nothing; otherwise its first token is resolved in the current mode against the rest, and the mode table is unchanged except that a missing current mode is registered |
| Repl.ReplBase.Suggest | lib/repl-base/repl-base.js:81-96 | the completion is the current mode's completion of the typed tokens, narrowed by the partial token; the mode table is unchanged except that a missing current mode is registered |
| Repl.Hits | lib/repl-base/repl-base.js:85-86 | keeps exactly the terms that start with the partial token, ignoring case |
| Repl.HitsPositions | lib/repl-base/repl-base.js:85-86 | the kept terms are the matching terms at increasing positions, in their original order, a term that occurs twice kept twice, and every matching position is kept |
| Repl.NarrowOutcomes | lib/repl-base/repl-base.js:85-95 | no match keeps all terms; a single match holding a space is offered quoted, with an empty partial token; otherwise exactly the matches are offered, and two different matches keep the partial token |
| Repl.ReplayEchoes | lib/repl-base/repl-base.js:109-112 | replay echoes exactly the lines run, in order, when echo is on, and none otherwise |
| Repl.ReplayShows | lib/repl-base/repl-base.js:103-108 | replay prints the results of all lines but the last, in order, without the undefined ones when those are ignored; nothing precedes the first line |
| Repl.ReplayPrefix | lib/repl-base/repl-base.js:103-114 | what replay prints for the first n lines depends only on those lines' results and output |
| AllianceTypes.Lookup | lib/repl-alliance.js:126 | a book entry is taken only when present and non-empty, since an empty string is falsy |
| AllianceTypes.ResolveFirstBook | lib/repl-alliance.js:126 | the first book with a non-empty entry decides, and the raw token is the fallback |
| AllianceTypes.ParseAddressIn | lib/repl-alliance.js:125-149 | an address is accepted exactly when the resolved string is 42 UTF-16 units long; otherwise the error names the token |
| AllianceTypes.AddressResolution | lib/repl-alliance.js:125-149 | `address` consults the user book, then the contract book, then the token; `useraddress` and `contractaddress` consult only their own book |
| AllianceTypes.AliasOf | lib/repl-alliance.js:9-16 | the first key, in key order, whose value equals the input ignoring case; none when no value does |
| AllianceTypes.ReverseLookup | lib/repl-alliance.js:9-16 | the loop with early return yields `AliasOf` |
| AllianceTypes.RenderAddress | lib/repl-alliance.js:131-135 | "alias (raw)" with the alias from the user book first, then the contract book, else the raw value |
| AllianceTypes.Uint256RegexAcceptsAnyDigit | lib/repl-alliance.js:7 | the test as written succeeds exactly on tokens holding a decimal digit |
| AllianceTypes.Uint256AsWrittenAcceptance | lib/repl-alliance.js:150-162 | as written, `uint256` rejects exactly the tokens without a digit, naming them, and otherwise hands on the token with its suffix expanded |
| AllianceTypes.Uint256AsWrittenAcceptsNonNumber | lib/repl-alliance.js:150-161 | "x9k" is accepted as written and becomes "x9000"; the anchored parser rejects it |
| AllianceTypes.Uint256YieldsNumeral | lib/repl-alliance.js:150-162 | the anchored parser hands on a hex literal unchanged or a non-empty string of digits |
| AllianceTypes.Uint256Narrows | lib/repl-alliance.js:150-162 | the anchored parser accepts only tokens the as-written one accepts, with the same value |
| AllianceTypes.SuffixScales | lib/repl-alliance.js:152-158 | a suffix at index i of "kMGTPEZY" multiplies the number by 1000^(i+1) |
| Alliance.AddAll | lib/repl-alliance.js:166-186 | adding commands in order to the fresh mode leaves under each name exactly the commands named or aliased so, the last added first, no empty list, and the names in the order they are first added |
| Alliance.BaseActionNames | lib/repl-alliance.js:166-186 | the `none` mode lists its names as exit, run, #, print, help, use, become, addressBook, storeContract |
| Alliance.BaseSession | lib/repl-alliance.js:20-33 | the inherited session is without echo and in mode `none`, the only mode registered, which has no parent and holds exactly the base actions under their names and aliases |
| Alliance.AddressBookCandidates | lib/repl-alliance.js:181-182 | `addressBook` has two candidates in the `none` mode, the listing form first |
| Alliance.ActingName | lib/repl-alliance.js:175 | the acting name is the first key of the user book, in key order, whose address equals the user's ignoring case, unless that key is empty; otherwise the address itself |
| Alliance.BecomeTwiceIsMe | lib/repl-alliance.js:174-179 | an address no one holds is acted under its own name, and becoming it again names the user "me" |
| Alliance.BookListing | lib/repl-alliance.js:182 | an empty book lists as a single tab, and a one-entry book as a tab, the name, a tab and the address |
| Alliance.Lines | lib/repl-base/repl-base.js:99 | splitting a file's text on newlines always yields at least one line |
| Alliance.LinesRoundTrip | lib/repl-base/repl-base.js:99 | the lines hold no newline, and joined by newlines give back the text |
| Alliance.ReplayStep | lib/repl-base/repl-base.js:103-114 | one more line adds the previous result (unless skipped), the echo and the line's own output to the replay |
| Alliance.LinesRanSnoc | lib/repl-base/repl-base.js:100-113 | one more line run keeps what is stated of the lines before it |
| Alliance.ReplAlliance.constructor | lib/repl-alliance.js:19-33 | acts as alice with `me` filed under her address, without echo, in mode `none`, whose candidates are the base actions |
| Alliance.ReplAlliance.BecomeUser | lib/repl-alliance.js:174-180 | sets the acting name from the old book, the address and `me`, emits user-changed, and says "Now acting as name." |
| Alliance.ReplAlliance.AddContractByAddress | lib/repl-alliance.js:59-76 | a name already filed throws before changing anything; otherwise the address is filed and a fresh mode under `none` is registered, the rest of the mode table unchanged |
| Alliance.ReplAlliance.Apply | lib/repl-alliance.js:166-186 | each handler has the effect `Applied` states from the session before the call: exit, print, help, use, become, both forms of addressBook, and storeContract; only storeContract changes the mode table |
| Alliance.ReplAlliance.Exec | lib/repl-base/mode.js:46-55 | a line without tokens does nothing; otherwise the line is resolved in the current mode against the session's books, its visible action names and the mode table's names in key order, errors are written and yield undefined with the session kept, and a resolved handler has its stated effect |
| Alliance.ReplAlliance.ScriptLine | lib/repl-base/repl-base.js:103-113 | one iteration runs the line as `Exec` does, with the same exact type environment, and gives what the line yields and writes for its step; the block written is the previous result unless it is the first line or a skipped undefined, then the echo when echo is on, then what the line wrote |
| Alliance.ReplAlliance.RunScript | lib/repl-base/repl-base.js:98-116 | runs the lines in order, each yielding and writing what its step prescribes (errors, nothing, or the handler's effect), stops at the first that throws or exits, yields the last result, and writes exactly what `Replay` prescribes |

## Left out

- Node REPL plumbing is not modelled: `start` (lib/repl-base/repl-base.js:60-69), `repl.writer` and the prompt printed before an echoed line (`Echo` stands for both), and the edit of the readline buffer in `suggest` (lib/repl-base/repl-base.js:89-92). `Repl.ReplBase.Suggest` returns only the completion pair.
- Prompts are not modelled. The listeners that reset the prompt on user-changed and mode-changed (lib/repl-alliance.js:35-40) and the `prompt` command (lib/repl-base/command.js:50-55) are left out. Notifications are kept as an event log, and the `SetPrompt` handler yields undefined.
- Filesystem access is a parameter. `RunScript` takes the file's text. The `file` suggester is a function parameter of `Env`, and `isFile`/`isDirectory` (lib/repl-base/utils.js:14-28) are not part of this model.
- Nested scripts are not run by the model. The outcome of `run` (a nested `runScript`) comes from the `external` parameter, so the state changes of a nested script are not captured.
- The Ethereum side is not modelled: the network client, `start` with `addContracts` (lib/repl-alliance.js:43-57, 103-115), the ABI walk and the contract-function commands with their rendering (lib/repl-alliance.js:63-100). A contract function's handler is an opaque `Foreign` tag whose outcome comes from `external`. The `contract` type yields the contract's name instead of the contract object. No modelled operation fills the project's contract names, because only `addContracts` does.
- Alliance.ReplAlliance.AddContractByAddress: does not add the contract's function commands to the new mode, because they come from the ABI over the network.
- Console and process effects are modelled as data. Console output is a list of `Output` lines, with no difference between standard output and standard error. `process.exit` is the outcome `Exited`.
- Asynchrony is not modelled. Handlers run to completion, and a rejected promise is the outcome `Thrown`.
- Constructor argument checks are not modelled: the throwing checks of `Command` and `Type` (lib/repl-base/command.js:7-9, lib/repl-base/type.js:7-10). Dafny's types rule out a non-string name, a non-type parameter and a missing handler.
- `parse` copying its argument array is not modelled, because sequences are values. For the same reason, `Modes.Mode.Suggest` does not model the popping, shifting and pushing of the caller's token array, which its caller discards.
- The address book file `addressBook.json` is a constructor parameter. The constructor requires it to hold `alice`. Without that entry, the source would file `undefined` under `me`.
- Types.Parse: the `uint256` kind uses the anchored parser `ParseUint256`, the corrected half of the finding below, not the parser as written. `ParseUint256AsWritten` models the code, and `Uint256Narrows` shows the two agree on every token the anchored one accepts.
- Names inherited from `Object.prototype` are not modelled. A `Dict` lookup of `toString` or `constructor` finds nothing, where the code finds a function: `use toString` is accepted (lib/repl-base/repl-base.js:19-25), adding a command named `constructor` throws, since the inherited function has no `unshift` (lib/repl-base/mode.js:119-124), and `storeContract constructor …` reports a duplicate (lib/repl-alliance.js:59-62).
- Object key order is simplified. JavaScript lists integer-like keys first, in numeric order. `Dict` keeps every key in insertion order.
- `toLowerCase` folds ASCII letters only. Other case mappings are not modelled.
- RunScript: states what each line yields and writes for the step it resolved to, and that a blank line resolves to nothing, but not which step each other line resolves to: that depends on the session the earlier lines left, which the contract does not name. `ScriptLine` states it for one line.
- Alliance.ReplAlliance.Apply: a mode `storeContract` registers is stated to be outside the session's modes before the call (`Session.known`), which is how a snapshot of the state expresses that the mode is new.
- Both regular expressions are characterised by the strings they match (`Tokens`, `Uint256RegexAsWritten`), not by a regex interpreter.
- Handler arguments are read by position. They always come from a clean binding of the command's own parameters, and any other shape reads as the empty string.
- `lib/repl-base/example.js` and `bin/run-repl.js` are a demo and a command-line wrapper. They are not part of this model.

## Findings

| source | as written | input that shows it | evidently intended | confidence | as-written member | corrected member |
|---|---|---|---|---|---|---|
| lib/repl-alliance.js:7 | `^(?:0x[0-9a-fA-F]{1,64})\|(?:1?[0-9]{1,77}[kMGTPEZY]?)`: the anchor applies to the first alternative only, and there is no end anchor, so `test` succeeds on any token holding a digit | `uint256` accepts `x9k` and hands on `x9000` | a whole token of `0x` and 1 to 64 hex digits, or at most 78 decimal digits with an optional suffix | not executed | AllianceTypes.Uint256AsWrittenAcceptsNonNumber | AllianceTypes.Uint256YieldsNumeral |
