# A verified model of the ESPressio command framework

This project models the stateful and arithmetic parts of the ESPressio command framework in Dafny and
proves what its documentation, tests and comments promise of them. `dafny verify dfyconfig.toml` checks
all of it.

| file | what it models |
|---|---|
| `Tokenizer.dfy` | the shell-like tokeniser of command text |
| `Invocation.dfy` | the text and structured front ends, down to a node with its arguments, and their agreement |
| `NamedValues.dfy`, `ParameterBinding.dfy`, `BindingProperties.dfy`, `PositionalArguments.dfy`, `MovedArguments.dfy`, `CallbackContext.dfy` | binding arguments to parameters and fetching them in a callback |
| `Execution.dfy` | hooks, callback and the recursive middleware chain |
| `TypoEngine.dfy` | edit distance and suggestions |
| `CommandTree.dfy`, `CommandRegistry.dfy`, `RegistryRuns.dfy`, `HandleRuns.dfy`, `HandleDropping.dfy` | the mutable command tree, its registry and the registration handles |
| `LongDouble.dfy`, `IntegerText.dfy`, `CommandValues.dfy`, `CommandParameters.dfy` | scalar values, their conversions and validation |
| `PendingRequests.dfy`, `PendingMap.dfy`, `PendingRuns.dfy` | the pool of pending requests |
| `ResponseRoutes.dfy` | the registry of weakly owned response routes |
| `EventExecutor.dfy` | reference accounting of the event executor |
| `LineEditing.dfy` | the incremental command line |

Code that works step by step is a method with loops, over classes and arrays where the original keeps
objects and buffers. Each such method is proved equal to a function on values, and the properties are
proved about those functions. Concurrency is modelled by state machines whose steps are the sections the
original runs under a lock, or single atomic actions, in any order; the pool's steps are the very
functions its methods are proved to compute. Callbacks, validators, middlewares, clocks and the
floating-point library are parameters. `long double` has `p` significand bits and rounds to nearest, ties
to even; the theorems say for which `p` they hold.

Results that differ from what a reader might expect of the code, each with its exact condition:

- Of what text can express, two things are answered differently as text and as structure, and nothing else
  (`FrontEndsAgreeIff`). An argument-less invocation of a group without a callback is "incomplete" as text but
  is bound (and may fail differently) as structure. A path that leads to a command only with its beginning is
  unknown as structure; as text it invokes that command, with the rest of the path as positionals
  (`PathRestBecomesPositional`).
- A 64-bit integer conversion is right on all values if and only if `long double` has 63 (signed) or 64
  (unsigned) significand bits. With fewer, the largest value of the type is undefined behaviour
  (`WideConversionExactIff`), and numbers above the signed range convert differently from text and from
  native form (`TextAgreesWithNative`).
- The empty text converts to the integer zero (`DigitlessText`). The guard against negative text for
  unsigned targets sees the first character only, so a blank before the minus sign makes the number wrap
  around (`NegativeTextGuard`).
- Validation checks an integer at 64 bits, whatever type the callback then asks for. Everything validation
  passes can be fetched as a narrower type exactly when the numbers in the range that a `long double` can
  hold are values of that type (`FetchSucceedsIff`); for a range that reaches the type at all, exactly when
  its limits stop short of the type's outer neighbours (`RangeWithinIff`).
- A registration handle remembers a name, not a command. Handles and the commands registered through them
  correspond exactly as long as no such command is unregistered directly and no handle is reset whose name
  leads to another command (`StepGoodIff`). Every name leads home exactly as long as, besides, no command in
  front of a handle's is given that one's name as an alias (`StepInChargeIff`). Without these provisos a handle
  takes away a command it was not made for (`HandleMayTakeAnothersCommand`, `AliasMisleadsHandle`).
- Route ids are non-zero and distinct exactly as long as fewer than 2^32 have been handed out. Registration
  number 2^32 gets the reserved id zero, under which its route can be neither resolved nor unregistered
  (`IdsRunOutIff`, `ZeroIdIsStuck`).
- Naming arguments instead of giving them by position leaves a valid invocation as it is exactly when every
  parameter still finds under its names what it is meant to (`MoveHarmlessIff`): always if no other parameter
  answers to a moved one's name (`PositionalOrNamed`), and never if an unmoved one does that has no value by
  name (`NameClashBreaksTheMove`).
- `wiki/Pending-Request-Management.md` calls the pool an array; the code allocates a vector of `Capacity`
  entries on first use. The model follows the code.
- The comment on `After` promises a call after a successful or failed callback; when the callback throws,
  the code returns without calling the after-hooks. The model follows the code (`RunShape`).

## Model

| member | source | states |
|---|---|---|
| TypoEngine.Distance | src/ESPressio_Command.hpp:942-959 | the single overwritten row with its `diagonal` computes the edit distance, for all texts |
| TypoEngine.DistanceIsOptimal | src/ESPressio_Command.hpp:942-959 | some left-to-right edit script turns one text into the other at that cost, and no script is cheaper |
| TypoEngine.DistanceIsMetric | src/ESPressio_Command.hpp:942-959 | zero exactly on equal texts, symmetric, triangle inequality, between the length difference and the longer length |
| TypoEngine.Suggest | src/ESPressio_Command.hpp:961-973 | the suggestion is the first of the nearest names and within the budget; without one, every name is outside the budget |
| TypoEngine.NearMissIsSuggested | src/ESPressio_Command.hpp:961-973 | a name that some script within the budget turns into the token always leads to a suggestion |
| TypoEngine.SuggestedIff | src/ESPressio_Command.hpp:961-973 | there is a suggestion exactly when some name is at most two edits away, or at most half as many as the token has characters |
| TypoEngine.SuggestionUnique | src/ESPressio_Command.hpp:961-973 | there is at most one suggestion, and an exact name suggests itself |
| Tokenizer.Tokenize | src/ESPressio_Command.hpp:454-480 | the character loop computes the tokens, or the unterminated-quote error, of the state machine |
| Tokenizer.TokenizeComposes | src/ESPressio_Command.hpp:454-480 | cut at an unquoted, unescaped blank, a text tokenises piece by piece, errors included |
| Tokenizer.FailsIffInsideQuote | src/ESPressio_Command.hpp:473-477 | tokenising fails exactly when the text ends inside a quote |
| Tokenizer.TokensNonEmpty | src/ESPressio_Command.hpp:464-478 | no token is empty |
| Tokenizer.RenderRoundTrip | src/ESPressio_Command.hpp:454-480 | any non-empty tokens, written with backslash escapes and blanks between, are read back unchanged |
| Tokenizer.QuotedRoundTrip | src/ESPressio_Command.hpp:454-480 | any non-empty tokens, each written between quotes of either kind, are read back unchanged |
| Tokenizer.QuotedMeansEscaped | src/ESPressio_Command.hpp:460-463 | anywhere outside quotes, a quoted stretch means its text with every special character behind a backslash |
| Tokenizer.QuotedStretchExtendsWord | src/ESPressio_Command.hpp:460-463 | a quoted stretch inside a word extends that word, blanks and the other kind of quote included |
| Tokenizer.OnlyBlanksSeparate | src/ESPressio_Command.hpp:464-470 | the six blanks of the C locale, and nothing else, separate two plain words |
| Tokenizer.Join | src/ESPressio_Command.hpp:774-781 | the loop joins the tokens with single blanks |
| Tokenizer.JoinUndoneIff | src/ESPressio_Command.hpp:454-480 | tokenising undoes joining exactly when all tokens are non-empty and plain, but for one backslash at the very end |
| Invocation.InvokeTokens | src/ESPressio_Command.hpp:783-833 | greedy walk, unknown and incomplete commands, options and positionals, as the functions on the tree snapshot say |
| Invocation.ReadArguments | src/ESPressio_Command.hpp:808-831 | the index loop reads `--key value`, `--key=value` and positionals in order, first value of a key wins |
| Invocation.InvokeText | src/ESPressio_Command.hpp:614-624 | parse error, no command, help and token invocation are told apart as in the code |
| Invocation.InvokeStructured | src/ESPressio_Command.hpp:627-636 | empty and unknown paths are refused, any other path leads to the node it resolves to |
| FrontEnds.TextMeansStructure | src/ESPressio_Command.hpp:614-636 | escaped text `path --k=v ... positionals` is read back as the same node, path, named values and positionals |
| FrontEnds.FrontEndsAgreeIff | src/ESPressio_Command.hpp:614-636 | text and structured invocation give the same bindings or error exactly when the path resolves and this is not an argument-less invocation of a bare group |
| FrontEnds.PathRestBecomesPositional | src/ESPressio_Command.hpp:783-833 | where only a beginning of the path leads to a command, structure answers unknown path, and text invokes that command with the rest of the path as positionals |
| FrontEnds.UnreadableText | src/ESPressio_Command.hpp:614-619 | text is a parse error exactly when it ends inside a quote; blank text is no command |
| FrontEnds.HelpText | src/ESPressio_Command.hpp:620-623 | `help` or `?` as first token, and no other, asks for help on the rest |
| FrontEnds.StructureIsPassedOn | src/ESPressio_Command.hpp:627-636 | a structured invocation is refused exactly for an empty or unknown path and otherwise passed on unchanged |
| FrontEnds.DashesMakeOptions | src/ESPressio_Command.hpp:810 | two leading dashes make an option, one makes a positional |
| FrontEnds.OptionTakesNext | src/ESPressio_Command.hpp:817-826 | an option without equals sign takes the next token, whatever it looks like, and lacks a value at the end |
| FrontEnds.OptionFormsEqual | src/ESPressio_Command.hpp:810-827 | between complete arguments `--k v` and `--k=v` parse alike |
| FrontEnds.OptionFormsInterchangeable | src/ESPressio_Command.hpp:783-833 | the same for whole commands when neither form names a child |
| NamedValues.EmplaceIsInsertion | src/ESPressio_Command.hpp:827 | inserting keeps the keys in order and an existing key keeps its value |
| NamedValues.LessIff | src/ESPressio_Command.hpp:845-850 | keys are ordered lexicographically, a prefix first |
| NamedValues.LookupIff | src/ESPressio_Command.hpp:845-850 | a parameter gets the value of the first key that is its name or one of its aliases |
| ParameterBinding.Bind | src/ESPressio_Command.hpp:835-906 | the binding loop, leftover check, unknown-key check and executability check, with at most the reserved number of bindings |
| ParameterBinding.FindNamed | src/ESPressio_Command.hpp:845-850 | the first key, in key order, that the parameter answers to |
| ParameterBinding.FindUnknown | src/ESPressio_Command.hpp:889-900 | the first key, in key order, that no parameter answers to |
| BindingProperties.CallbackReachedIff | src/ESPressio_Command.hpp:841-906 | the callback is reached exactly when every parameter is supplied or optional, all supplied values are valid, no positional is left, every key is known and there is a callback; its bindings are the supplied values |
| BindingProperties.BindingsAreSound | src/ESPressio_Command.hpp:841-884 | then every required parameter is bound, every binding is a validated value of a parameter, and there are at most as many as parameters |
| BindingProperties.BoundValuesAreAllowed | src/ESPressio_Command.hpp:867-883 | when the callback runs, a binding of a parameter with choices holds one of them, and its validator has accepted it |
| BindingProperties.ParameterErrorFirst | src/ESPressio_Command.hpp:859-869 | the first parameter that is missing or invalid decides the error |
| BindingProperties.OtherErrorsNext | src/ESPressio_Command.hpp:886-906 | then a positional too many, then the first key no parameter has as name or alias, then a missing callback |
| PositionalArguments.PositionalTakenOnce | src/ESPressio_Command.hpp:841-888 | when the callback runs, the positionals are the values of bindings of the first parameters that are not named-only and lack a named value, once each and in order; every other binding holds a default or a named value |
| MovedArguments.PositionalOrNamed | src/ESPressio_Command.hpp:841-900 | passing any subset of the positionals under their canonical names leaves bindings, errors and the reached stage unchanged, if no other parameter answers to the name of a moved one |
| MovedArguments.MoveHarmlessIff | src/ESPressio_Command.hpp:841-888 | a valid invocation binds the same after the move exactly when every parameter finds among the named values the moved one, if one was moved from it, and else what it found before |
| MovedArguments.NameClashBreaksTheMove | src/ESPressio_Command.hpp:841-888 | when an unmoved parameter without a named value answers to a moved one's name, the move always changes the result |
| CallbackContext.FetchSucceeds | src/ESPressio_Command.hpp:128-167 | in the callback a required integer whose range admits only values of the fetched type is found and converts, inside the range |
| CallbackContext.FindIsFirst | src/ESPressio_Command.hpp:128-133 | of several bindings under one name the first is found |
| Execution.Execute | src/ESPressio_Command.hpp:908-933 | the hook loops produce the result and the trace the run functions describe |
| Execution.RunShape | src/ESPressio_Command.hpp:908-919 | the callback runs iff all before-hooks succeed; all after-hooks run iff it then returns without throwing |
| Execution.BeforesShape | src/ESPressio_Command.hpp:909-912 | a before-hook runs iff all earlier ones succeeded |
| Execution.HooksInOrder | src/ESPressio_Command.hpp:908-919 | hooks run once each and in order, before-hooks up to the first failure, after-hooks all or none |
| Execution.RunSucceedsIff | src/ESPressio_Command.hpp:908-933 | success iff before-hooks, callback and after-hooks all succeed; else a failing before-hook's result, code 1 with the text of an exception, or the code of the callback or first failing after-hook is reported |
| Execution.RunAnswers | src/ESPressio_Command.hpp:913-919 | without deprecation the callback's result, or that of the first failing after-hook of a success, is the answer |
| Execution.DeprecationWarns | src/ESPressio_Command.hpp:920-931 | deprecation changes the message only, and only once the callback has returned: the warning, its text and the plain message |
| Execution.ChainRunsProduct | src/ESPressio_Command.hpp:935-939 | `execute` runs exactly as often as the product of the call counts, each run once, in order |
| Execution.ResultsInOrder | src/ESPressio_Command.hpp:935-939 | a middleware gets one result per call of `next`, in order, each of the chain behind it at its own run |
| Execution.ChainAnswers | src/ESPressio_Command.hpp:935-939 | the chain answers what the middleware makes of these, of none if it never calls `next`, and at its end the result of the run |
| Execution.ChainNests | src/ESPressio_Command.hpp:935-939 | middlewares nest in registration order and the command runs only inside all of them |
| Execution.TransparentChain | src/ESPressio_Command.hpp:935-939 | middlewares that call once and pass the result on do not change it |
| CommandRegistry.CommandNode.Command | src/ESPressio_Command.hpp:372-378 | the first child that answers, unchanged, or a new last child |
| CommandRegistry.CommandNode.RemoveCommand | src/ESPressio_Command.hpp:397-403 | removes exactly the first child that answers |
| CommandRegistry.CommandRegistry.Resolve | src/ESPressio_Command.hpp:671-696 | the walk over the objects finds what the snapshot lookup finds |
| CommandRegistry.CommandRegistry.Command | src/ESPressio_Command.hpp:566-576 | finds, or creates and notifies; the tree invariant is kept |
| CommandRegistry.CommandRegistry.RegisterCommand | src/ESPressio_Command.hpp:580-588 | an active handle exactly when the name is non-empty and unanswered; otherwise nothing changes |
| CommandRegistry.CommandRegistry.UnregisterCommand | src/ESPressio_Command.hpp:591-605 | true iff the path is non-empty and resolves; exactly that node is taken out, and observers hear of it |
| CommandTree.UnregisterRemovesResolved | src/ESPressio_Command.hpp:591-605 | what is removed is the node the path resolved to; nothing at or below it is reachable any more; every path not stepping onto it resolves as before, aliases overlapping or not |
| CommandTree.RegisterThenUnregister | src/ESPressio_Command.hpp:580-605 | registering a command and unregistering it leaves every path as it was |
| CommandTree.AddChildKeepsPaths | src/ESPressio_Command.hpp:372-378 | adding a node anywhere never changes a path that resolved |
| CommandTree.NewCommandIsBare | src/ESPressio_Command.hpp:372-378 | a new command answers to its name and to nothing else, has nothing below it and cannot be executed yet |
| CommandTree.FindChildIff | src/ESPressio_Command.hpp:406-411 | a token leads to the first child that has it as name or alias |
| TreeRuns.EveryReachableTreeIsSound | src/ESPressio_Command.hpp:372-605 | over every run sibling names are pairwise distinct at every level and top-level notifications balance with the root's child count |
| CommandRegistry.CommandRegistrationHandle.Reset | src/ESPressio_Command.hpp:976-982 | an active handle unregisters its path, observers hear of it if there was a command, and the handle becomes inactive |
| CommandRegistry.CommandRegistrationHandle.MoveAssign | src/ESPressio_Command.hpp:495-500 | drops the own command, observers included, takes over the other's and leaves the other inactive; self-assignment does nothing |
| CommandRegistry.CommandRegistrationHandle.Moved | src/ESPressio_Command.hpp:493-494 | moving leaves the source inactive |
| HandleRuns.StepGoodIff | src/ESPressio_Command.hpp:485-605 | a step on the tree or the handles keeps handles and their commands in correspondence exactly when it does not unregister such a command directly and resets no handle whose name leads elsewhere |
| HandleRuns.HandlesOwnTheirCommands | src/ESPressio_Command.hpp:485-511 | throughout a run active handles and handle-registered commands of the tree correspond one to one, and each is unregistered at most once, by its own handle, exactly when all steps are of that kind |
| HandleRuns.InChargeIff | src/ESPressio_Command.hpp:976-982 | no command in front of a handle's answers to its name exactly when every handle's name leads to its own command |
| HandleRuns.StepInChargeIff | src/ESPressio_Command.hpp:485-605 | a step keeps every handle's name leading to its own command exactly when it neither unregisters such a command directly nor gives one in front of it its name as an alias |
| HandleRuns.HandlesStayInCharge | src/ESPressio_Command.hpp:485-511 | so over every run; then handles take their own commands |
| HandleRuns.ResetTakesOwn | src/ESPressio_Command.hpp:976-982 | resetting a handle whose name leads to its own command takes away that command and no other |
| HandleRuns.ResetTakesAnother | src/ESPressio_Command.hpp:976-982 | resetting any other active handle takes away another command and leaves its own behind without a handle |
| HandleRuns.AliasMisleadsHandle | src/ESPressio_Command.hpp:976-982 | every alias that hides a handle's command makes some handle take away a command it was not made for |
| HandleRuns.HandleMayTakeAnothersCommand | src/ESPressio_Command.hpp:976-982 | from any state with handles in charge, unregistering a handle's command directly and reusing its name makes the handle take away a command it was not made for |
| HandleDropping.DroppingAllHandlesRestores | src/ESPressio_Command.hpp:485-511 | dropping all handles leaves exactly the commands made without one, in order; every handle-registered command has been taken away once; paths that do not start at a handle's command lead where they led |
| HandleDropping.DroppingUndoesTheRun | src/ESPressio_Command.hpp:485-511 | whatever was registered through handles since, and done to or below it, is undone by dropping them: the original tree is back, node for node and path for path |
| LongDouble.RoundIsNearest | src/ESPressio_CommandValue.hpp:254-290 | the modelled cast to long double yields the nearest representable number |
| LongDouble.RoundMonotone | src/ESPressio_CommandValue.hpp:289-293 | the cast preserves order |
| LongDouble.RoundFixesRepresentable | src/ESPressio_CommandValue.hpp:254-290 | it fixes exactly the representable numbers, and casting twice is casting once |
| LongDouble.RoundTiesToEven | src/ESPressio_CommandValue.hpp:254-290 | halfway between two neighbours the cast goes to the one with the even significand |
| IntegerText.PrintParse | src/ESPressio_CommandValue.hpp:194-199 | printing a 64-bit integer and parsing it with base 0 gives it back, read to the last character |
| IntegerText.ScanWritten | src/ESPressio_CommandValue.hpp:267-284 | blanks, a sign or none and a number in base ten, eight or sixteen are read whole, up to what is no digit of it |
| IntegerText.FormatFitsBuffer | src/ESPressio_CommandValue.hpp:327-349 | a printed 64-bit integer has at most 20 characters, so the 32-byte buffer suffices |
| IntegerText.FormatReachesTwenty | src/ESPressio_CommandValue.hpp:327-349 | both types reach 20 |
| CommandValues.EqualsIgnoreCase | src/ESPressio_CommandValue.hpp:351-360 | the loop compares the lower-case forms |
| CommandValues.BooleanTextAgrees | src/ESPressio_CommandValue.hpp:230-252 | booleans and integers convert to booleans alike from native form and from text in any case |
| CommandValues.BooleanMeaning | src/ESPressio_CommandValue.hpp:230-252 | what counts as a boolean: booleans, one and zero, their digits, and four words for either in any case |
| CommandValues.IntegerMeaning | src/ESPressio_CommandValue.hpp:253-287 | what counts as an integer besides text: booleans as one and zero, integers and whole doubles as themselves |
| CommandValues.WrittenForSigned | src/ESPressio_CommandValue.hpp:267-275 | a written number converts for a signed target exactly when it is the whole text and lies within 64 bits |
| CommandValues.WrittenForUnsigned | src/ESPressio_CommandValue.hpp:276-284 | likewise for an unsigned target, where a minus sign is turned away at the start and wraps around behind blanks |
| CommandValues.LimitsArePowers | src/ESPressio_CommandValue.hpp:287-290 | the limits of a type are those of the bits it has |
| CommandValues.NarrowConversionExact | src/ESPressio_CommandValue.hpp:253-294 | for targets of at most 32 bits the long double detour changes nothing: a value is returned unchanged iff it fits |
| CommandValues.WideConversion | src/ESPressio_CommandValue.hpp:253-294 | a fitting value comes back unchanged from a 64-bit conversion iff it is representable, in particular up to 2^p |
| CommandValues.WideConversionExactIff | src/ESPressio_CommandValue.hpp:253-294 | a 64-bit conversion is right on every value iff the significand is at least as wide as the type |
| CommandValues.TextAgreesWithNative | src/ESPressio_CommandValue.hpp:267-293 | a number converts alike from text and from native form, but for one exact exception above the signed range |
| CommandValues.DigitlessText | src/ESPressio_CommandValue.hpp:267-284 | a text without digits is accepted iff it is empty, and then means zero |
| CommandValues.NegativeTextGuard | src/ESPressio_CommandValue.hpp:276-284 | negative text is refused for unsigned targets iff nothing precedes the sign |
| CommandValues.BlankThenMinusWraps | src/ESPressio_CommandValue.hpp:276-284 | every number from -1 down to 1 - 2^64, printed behind blanks, converts, wrapped around, and without them is refused |
| CommandParameters.ValidTextIff | src/ESPressio_Command.hpp:295-317 | a value for a string or an enumeration is valid exactly when it is not null, its text is one of the choices, if any, and the validator does not turn it away |
| CommandParameters.ValidBooleanIff | src/ESPressio_Command.hpp:261-317 | a value for a boolean is valid exactly when it converts and its text is allowed in that sense |
| CommandParameters.ValidIntegerIff | src/ESPressio_Command.hpp:262-317 | a value for an integer is valid exactly when it converts to 64 bits, inside the range, limits included, and its text is allowed |
| CommandParameters.IntegerRefusals | src/ESPressio_Command.hpp:262-303 | an integer is malformed when it does not convert and outside the range when it is beyond the limits |
| CommandParameters.RefusalOrder | src/ESPressio_Command.hpp:259-317 | the kind refuses first, then the choices, then the validator |
| CommandParameters.ValidatedIntegerConverts | src/ESPressio_Command.hpp:259-293 | a validated integer whose range admits only values of a type of at most 32 bits converts to that type, inside the range, from any source |
| CommandParameters.FetchSucceedsIff | src/ESPressio_Command.hpp:259-293 | every validated value converts exactly when the representable 64-bit numbers in the range are values of the type |
| CommandParameters.RangeWithinIff | src/ESPressio_Command.hpp:259-293 | that condition read off the limits of the range; an unsigned type needs no lower limit |
| PendingRequests.PendingRequestPool.Add | src/ESPressio_CommandPendingRequests.hpp:67-97 | status and slots after the scan for a duplicate and a free slot |
| PendingRequests.PendingRequestPool.Complete | src/ESPressio_CommandPendingRequests.hpp:100-120 | status and slots after counting and, for a last response, release |
| PendingRequests.PendingRequestPool.Expire | src/ESPressio_CommandPendingRequests.hpp:130-164 | the due entries are moved out in table order, all others stay in place, and the counting pass equals the collecting pass |
| PendingRequests.PendingRequestPool.ActiveCount | src/ESPressio_CommandPendingRequests.hpp:173-182 | the number of slots in use |
| PendingRequests.PendingRequestPool.EnsureEntries | src/ESPressio_CommandPendingRequests.hpp:59-63 | allocating the table lazily is unobservable |
| PendingMap.AddRefines | src/ESPressio_CommandPendingRequests.hpp:67-97 | adding acts on a map from id to request: duplicate before exhaustion, ids stay unique |
| PendingMap.CompleteRefines | src/ESPressio_CommandPendingRequests.hpp:100-120 | completing acts on the map: not found, counted, or removed |
| PendingMap.AddedAsGiven | src/ESPressio_CommandPendingRequests.hpp:86-96 | an accepted request is pending with the id, destination, deadline and mode given, without responses |
| PendingMap.CompletedByMode | src/ESPressio_CommandPendingRequests.hpp:100-120 | a first response settles a single-response request; a multiple-response one is settled by the final response and otherwise counts it in 16 bits |
| PendingMap.ExpireRefines | src/ESPressio_CommandPendingRequests.hpp:130-164 | expiry removes exactly the requests with deadline up to now, each handed out once |
| PendingMap.ExpiryIsPrompt | src/ESPressio_CommandPendingRequests.hpp:130-164 | what stays pending is what has its deadline still ahead; a deadline equal to now is due |
| PendingMap.CountIsSize | src/ESPressio_CommandPendingRequests.hpp:173-182 | the active count is the size of the map and never exceeds the capacity |
| PendingMap.ExpireTwice | src/ESPressio_CommandPendingRequests.hpp:130-164 | expiring at t1 and then t2 >= t1 removes what expiring at t2 removes |
| PendingMap.LayoutIrrelevant | src/ESPressio_CommandPendingRequests.hpp:67-182 | tables for the same map answer alike, hand out the same requests on expiry and stay equal as maps |
| PendingRuns.EveryRequestSettledOnce | src/ESPressio_CommandPendingRequests.hpp:67-170 | over every interleaving accepted = active + completed + removed and undelivered + delivered, each request in one place once |
| PendingRuns.CountersAreResponses | src/ESPressio_CommandPendingRequests.hpp:106-117 | a slot keeps the accepted request, and its counter is the number of non-final responses modulo 2^16 |
| PendingRuns.SingleIsSettledByFirst | src/ESPressio_CommandPendingRequests.hpp:111-116 | over every interleaving a request that expects a single response never lives through one |
| PendingRuns.BatchIsDue | src/ESPressio_CommandPendingRequests.hpp:152-169 | what is delivered to the callback are the due requests as accepted, in table order |
| PendingRuns.DeliveredInOrder | src/ESPressio_CommandPendingRequests.hpp:165-169 | a batch reaches the callback in that order, each request once |
| ResponseRoutes.ResponseRouteRegistry.Register | src/ESPressio_CommandResponseRoute.hpp:56-69 | zero for no route, else the next id and a new entry |
| ResponseRoutes.ResponseRouteRegistry.Unregister | src/ESPressio_CommandResponseRoute.hpp:72-84 | erases the first entry with the id |
| ResponseRoutes.ResponseRouteRegistry.Resolve | src/ESPressio_CommandResponseRoute.hpp:87-107 | the erase-while-iterating loop computes the scan, observation by observation |
| ResponseRoutes.ResolveIsRight | src/ESPressio_CommandResponseRoute.hpp:87-107 | only dead entries are pruned, the result was registered under the id and alive when locked, and a route alive throughout is found |
| ResponseRoutes.IdsStaySound | src/ESPressio_CommandResponseRoute.hpp:56-107 | over every interleaving of fewer than 2^32 registrations ids are non-zero, distinct and belong to their routes |
| ResponseRoutes.ResolveInAnyRun | src/ESPressio_CommandResponseRoute.hpp:87-107 | resolving never returns a route registered under another id |
| ResponseRoutes.UnregisterTakesOne | src/ESPressio_CommandResponseRoute.hpp:72-84 | unregistering takes exactly one entry with the id, if there is one, and leaves all others in order |
| ResponseRoutes.UnregisteredIsGone | src/ESPressio_CommandResponseRoute.hpp:72-84 | where ids are distinct, what remains is what was there under other ids |
| ResponseRoutes.UnregisteredStaysGone | src/ESPressio_CommandResponseRoute.hpp:72-107 | once an inserted id is unregistered, no later resolution of it finds anything, over every interleaving of fewer than 2^32 registrations |
| ResponseRoutes.IdsCountUp | src/ESPressio_CommandResponseRoute.hpp:63-64 | over every run, however long, the ids handed out count up from one modulo 2^32 |
| ResponseRoutes.IdsRunOutIff | src/ESPressio_CommandResponseRoute.hpp:63-64 | over every run the ids handed out are non-zero and distinct exactly while fewer than 2^32 have been; then come zero and the first id again |
| ResponseRoutes.ZeroIdIsStuck | src/ESPressio_CommandResponseRoute.hpp:72-107 | an entry under the id zero is removed by no step of any run while its route lives |
| EventExecutor.ReferencesConserved | src/ESPressio_CommandEventExecutor.hpp:75-158 | over every interleaving the references held equal in-flight plus queued plus processing items, and none is given back that is not held |
| EventExecutor.NothingHeldAfterDrain | src/ESPressio_CommandEventExecutor.hpp:211-224 | once drained, no reference is held |
| EventExecutor.AdmittedIff | src/ESPressio_CommandEventExecutor.hpp:139-146 | a submission brings an event in exactly when the executor is prepared and the event is an inbound command event |
| EventExecutor.OnlySubmitAdmits | src/ESPressio_CommandEventExecutor.hpp:75-158 | no other step brings an event in |
| EventExecutor.ShutdownAdmitsNothing | src/ESPressio_CommandEventExecutor.hpp:211-224 | once shutdown has begun, and until it is prepared again, of every event there is only ever less |
| LineEditing.CommandLine.FeedChar | src/ESPressio_CommandLine.hpp:37-47 | one character edits the buffer or completes a line |
| LineEditing.CommandLine.Feed | src/ESPressio_CommandLine.hpp:50-52 | a range is fed character by character |
| LineEditing.FoldIsSplitThenEdit | src/ESPressio_CommandLine.hpp:37-47 | feeding equals splitting at newlines, dropping carriage returns, applying rubouts and dropping empty lines |
| LineEditing.ChunkingIrrelevant | src/ESPressio_CommandLine.hpp:50-52 | for every way of cutting the stream into chunks |
| LineEditing.SplitShape | src/ESPressio_CommandLine.hpp:37-47 | the splitting used there loses nothing |
| LineEditing.LineTyped | src/ESPressio_CommandLine.hpp:37-47 | a line typed and ended goes to the history as typed, an empty one nowhere |
| LineEditing.RuboutUndoesTyping | src/ESPressio_CommandLine.hpp:37-47 | backspace and delete take back the last character and do nothing on an empty buffer; a carriage return does nothing |

## Left out

- `JsonCommandInterpreter`, `CommandFactory`, `TextCommandInterpreter`, the event bridge, event classes and
  the umbrella header: nearly all their behaviour belongs to libraries that are not part of this model, or
  they only forward.
- Help and completion texts, descriptions, prompts and error wording: errors are tags.
- Floating-point printing and parsing and the `FloatingPoint` parameter kind: parameters of the platform;
  doubles take part as integers or as something no integer conversion accepts.
- Range limits that are infinite or NaN, and `CommandValue` assignment operators.
- `CommandResponseTimeoutRegistry`: a last-write lookup.
- Exceptions from hooks, middlewares, expiry callbacks and result handlers; of the callback only what the
  code catches is modelled.
- Execution.Execute: what the handlers compute from the context is arbitrary but fixed per run; that two
  invocations with equal bindings run alike is not restated.
- CommandTree.UnregisterRemovesResolved: the destroyed nodes stay in the snapshot as unreachable entries;
  their deallocation is not modelled.
- HandleRuns.HandlesOwnTheirCommands: over runs of the tree functions that the methods of the registry and
  handle objects are proved to compute; runs of the objects themselves are not restated.
- CommandParameters.FetchSucceedsIff: for parameters without choices or validator; with them fewer values
  pass, and the condition is sufficient (`ValidatedIntegerConverts`).
- PendingRequests.PendingRequestPool.Expire: covers the locked section; the calls of the callback are the
  delivery steps of `PendingRuns`.
- ResponseRoutes.ResponseRouteRegistry.Register: states one registration that nothing comes between; the
  increment outside the lock and the insertion under it are separate steps in the runs.
- EventExecutor.ReferencesConserved: the executor is a state machine over its atomic actions rather than
  an object, because every property of it is about interleavings.
- Allocation failure, memory placement and singleton initialisation.
