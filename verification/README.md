# Chatter: a verified model

Chatter is a routing daemon for OSPF with a command line client. This project models its
algorithmic cores in Dafny and proves what they are for:

* **The command language of the client** (`chatterc/commands/commands.go`, `chatterc/cli.go`).
  A declaration such as `show bgp neighbors <A.B.C.D|all>` is parsed to a chain of nodes;
  registering a command merges its chain into the tree of all commands; a line is matched
  against the tree token by token, disambiguated, and turned into a call of a handler; TAB and
  `?` complete it. Two views of a tree carry the theorems: `AtPath`, the attributes at the end
  of a path of ids, and `HeadAt`, how a path may go on (one explicit choice, or openly).
  Merging is the union of the first view and fails exactly when the second views disagree.
* **Notifications** (`sync/`). Each object keeps its state in a one-slot channel. The objects are
  state machines with one step per channel operation, and the theorems are about every
  interleaving of every number of goroutines.
* **Link state advertisements** (`ospf/lsdb.go`): the Fletcher checksum, the age inside the
  encoded bytes, and the order of instances (sections 12.1.7 and 13.1 of RFC 2328).
* **Starting services** (`config/`, `chatterd/services/service_manager.go`): the depth-first
  order of dependencies, and the protocol that stops one configuration and starts the next.
* **OSPF interfaces** (`ospf/ospf.go`, `ospf/interface.go`): keeping a set of interfaces, each
  with a goroutine of its own, in step with the machine.
* **Column layout** (`wrap` in `chatterc/cli.go`).

Code that loops and assigns is a method, proved equal to a specification function (`MergeNodes`,
`MatchNodes`, `OptionsOf`, ...) or against a property; the theorems are about those functions.
What these functions compute is in turn described without them: calls token by token
(`CommandArguments`), the declaration language as a grammar over characters (`CommandLanguage`),
disambiguation as an order on matches (`CommandExactness`), help as the first nodes of paths
(`CommandHelpOrder`), and what callers of the notifiers see as histories read off the steps of a
run (`SyncQueuedHistory`, `SyncNotifierHistory`).
Objects that the original updates in place (parser, CLI, graph, traversal, LSA, interface,
instance, configuration) are classes.

## Findings

In these places the code does less than its comments or its caller expect. Each is kept as it is
in the model, with an input that shows it and the exact condition under which all is well.

* `Match` can run the wrong command. After one round of disambiguation the surviving chains are
  narrowed, but roots are still taken from the full list by position
  (`chatterc/commands/commands.go:699-706`). Declared as `<ipv6|ip> <route|routes>`, the line
  `ip route` runs `ipv6 route` (`CommandDisambiguationExample.WrongCommand`). `DisambiguationIff`
  says exactly when the result is the intended one, which `GreedyIsBest` describes,
  `DisambiguatedIs` what the result is in any case, and `LastTokenDecides` gives a condition that
  can be read off the matches.
* A choice that repeats the type of an earlier parameter, as in `A.B.C.D <A.B.C.D|all>`, is
  accepted with a handler that is then called with too many arguments
  (`CommandRegistry.RepeatedTypeIsMistyped`). `CallsWellTypedIff` says exactly which calls are
  well typed.
* `topologicalSort` does not detect cycles. Its list puts every dependency first exactly when there
  are none (`ConfigGraph.DependenciesFirst`); two services that depend on each other are listed all
  the same, one of them too early (`ConfigGraph.CycleIsSorted`).
* Interfaces are told what changed while their last event may still be unhandled
  (`ospf/ospf.go:170-181`). An interface that goes down and up again can end Down
  (`OspfInterfaces.UpEndsDown`); one that is down can end in Loopback or Point-to-point, in which it
  counts as up (`OspfInterfaces.DownLoopback`, `OspfInterfaces.DownEndsUp`). `SettlesIff` says exactly
  when every interleaving ends in the right state.
* The service manager can wait for ever. It holds its state while it waits for the services of the old
  configuration to end (`chatterd/services/service_manager.go:99-110`), and OSPF, which asks for the
  interface monitor as soon as it runs (`ospf/ospf.go:69`), then waits for that state in `Get`.
  `ServiceManagerProgress.DeadlockHappens` is such a run, `StuckForever` says that it never ends, and
  `GoesOnIff` exactly when the manager can go on.
* `wrap` panics on some terminals narrower than the indentation: `CliWrap.Wrap` says on which.

## Model

| member | source | states |
|---|---|---|
| CommandTree.SameId | chatterc/commands/commands.go:97-112 | ids identify atoms: two nodes have one id exactly when they have one type and, for literals, one word |
| CommandTree.FindIndex | chatterc/commands/commands.go:214-221 | the first node with the id, or -1 when there is none |
| CommandTree.LookupWellFormed | chatterc/commands/commands.go:83-95 | below a well-formed node every lookup leads to a well-formed atom and continuation |
| CommandTree.AtPathIs | chatterc/commands/commands.go:83-95 | the attributes at a path are the description, handler and autocomplete function of the node there |
| CommandMerge.MergeAltsLookup | chatterc/commands/commands.go:276-288 | merging alternatives keeps ids distinct, and the alternative under an id is the one that either side had, or the merge of both |
| CommandMerge.MergeAtomsNext | chatterc/commands/commands.go:334-351 | what follows a merged atom is what followed either, or the merge of both continuations |
| CommandMerge.MergeIsUnion | chatterc/commands/commands.go:223-359 | a merged tree has exactly the paths of both trees, with the attributes of either, or of both overridden; MergedNode says field by field which |
| CommandMerge.MergedNode | chatterc/commands/commands.go:223-244 | at a path that both trees have, description, handler and autocomplete function are each the second tree's if it sets it and the first's if not, and nothing else changes; at a path of one tree the node is that tree's |
| CommandMerge.MergedOrder | chatterc/commands/commands.go:276-288 | everywhere in a merged tree the alternatives of the first tree come first, in their order, then the new ones of the second in theirs |
| CommandMerge.MergeKeepsHeads | chatterc/commands/commands.go:246-359 | every position of the merged tree continues as it did in whichever tree had it |
| CommandMerge.MergeSucceedsIff | chatterc/commands/commands.go:255-274 | merging succeeds exactly when no position continues with an explicit choice in one tree and with anything else in the other |
| CommandMerge.MergeFailsIff | chatterc/commands/commands.go:255-332 | merging fails exactly when after some beginning of a command one tree continues with an explicit choice and the other not with a choice of the same atoms in the same order |
| CommandMerge.MergeKeepsWellFormed | chatterc/commands/commands.go:246-359 | merging keeps trees well formed: one child per atom, distinct ids, no nested choice; so neither panic is reachable |
| CommandMerge.MergeWithItself | chatterc/commands/commands.go:334-351 | merging a tree with itself gives the tree |
| CommandMerge.MergeIsIdempotent | chatterc/commands/commands.go:361-371 | merging the same tree a second time changes nothing |
| CommandMerge.CompatibleWithMerge | chatterc/commands/commands.go:361-371 | a tree can be merged into a merge exactly when it can be merged with both parts |
| CommandMerge.MergeAllSucceedsIff | chatterc/commands/commands.go:361-371 | a list of trees can be merged exactly when every two of them can |
| CommandMerge.MergeAllIsUnion | chatterc/commands/commands.go:361-371 | after any number of merges the tree holds exactly the union of the commands; RegisteredAt says which description and handler remain |
| CommandMerge.OrderIrrelevant | chatterc/commands/commands.go:361-371 | whether merging succeeds, and which commands exist then, depends neither on the order of the trees nor on repetitions |
| CommandMerger.MergeWithPath | chatterc/commands/commands.go:246-359 | the recursive merge, with its implicit choices and its error cases, computes MergeNodes |
| CommandMerger.MergeChoices | chatterc/commands/commands.go:255-318 | merging two choices, of the four kinds, computes MergeNodes, and fails on the same inputs |
| CommandMerger.MergeImplicit | chatterc/commands/commands.go:276-288 | the loop over the second tree's alternatives computes MergeAlts |
| CommandMerger.MergeExplicit | chatterc/commands/commands.go:276-316 | merging explicit choices option by option, re-linking the shared continuation after each, gives what merging the options independently gives |
| CommandMerger.MergeOption | chatterc/commands/commands.go:276-315 | one option is merged, or fails as it would alone; the options after it are as they were or re-linked |
| CommandMerger.Relink | chatterc/commands/commands.go:308-314 | every node whose child has the grandchild's id, and no other, is given that child |
| CommandMerger.RelinkedMerge | chatterc/commands/commands.go:290-315 | an option re-linked early merges to the same result later |
| CommandTypes.UpdateParamTypesWithTypes | chatterc/commands/commands.go:169-208 | the loops compute WithTypes |
| CommandTypes.ChoiceTypesFresh | chatterc/commands/commands.go:173-187 | a choice adds all its own types after the earlier ones exactly when it repeats none of them; otherwise it adds fewer |
| CommandTypes.MergeKeepsTyped | chatterc/commands/commands.go:246-359 | a merged tree has the right parameter types everywhere, so a handler fits wherever it ends up |
| CommandTypes.MergeFreshAlong | chatterc/commands/commands.go:246-359 | a path without repeated types keeps that property in the merged tree |
| CommandTypes.MergeKeepsFresh | chatterc/commands/commands.go:246-359 | merging trees in which no choice repeats an earlier type gives such a tree |
| Addresses.OneText | chatterc/commands/commands.go:594-602 | an IPv4 address is parsed from one text only |
| Addresses.DottedIff | chatterc/commands/commands.go:594-602 | a text is read as the address of four octets exactly when the octets are at most 255 and it is their decimal notations, without leading zeros, joined by dots in this order |
| Addresses.IsPrefixOfIPv4Address | chatterc/commands/commands.go:870-914 | true exactly when some extension of the text is an IPv4 address |
| Addresses.QuadSoFarIff | chatterc/commands/commands.go:870-914 | the octet-by-octet conditions hold exactly when the text can be completed |
| CommandMatch.AtomAccepts | chatterc/commands/commands.go:579-618 | whether an atom accepts a token depends on its id alone |
| CommandMatch.MatchComplete | chatterc/commands/commands.go:525-649 | every path of the tree that accepts the tokens one by one has a match |
| CommandMatch.MatchAltsGood | chatterc/commands/commands.go:525-649 | every match is a path of the tree that accepts the tokens, and is complete exactly when its last node has a handler |
| CommandMatch.MatchExact | chatterc/commands/commands.go:525-649 | the matches are exactly the accepting paths, complete exactly where a handler is registered |
| CommandMatch.MatchOrder | chatterc/commands/commands.go:525-649 | matches come in the order of the tree, and no path twice |
| CommandMatcher.MatchTokens | chatterc/commands/commands.go:525-649 | the recursive loops compute MatchNodes, which CallIff describes apart from the functions it is made of |
| CommandMatcher.FixMatches | chatterc/commands/commands.go:528-576 | the loop that rewrites the arguments of an option's matches computes FixArgs on each |
| CommandMatcher.ChoiceArgs | chatterc/commands/commands.go:533-569 | the inner loop over the options computes ArgsUpTo |
| CommandMatcher.OptionArg | chatterc/commands/commands.go:551-568 | its body adds, or puts in place, what one option contributes |
| CommandMatcher.MakeInvoker | chatterc/commands/commands.go:470-496 | a complete match gives its handler and all arguments along its chain; the invariant violation is never reported |
| CommandArguments.AtomTakes | chatterc/commands/commands.go:579-618 | what an atom passes for a token: nothing for a literal that the token abbreviates, the token itself for a string, the address whose dotted text it is, or the IPv6 address it is parsed to; and it accepts no other token |
| CommandArguments.ChoiceTypesAre | chatterc/commands/commands.go:173-187 | an explicit choice has one type for each literal and for the first parameter of each sort, in the order of the options |
| CommandArguments.ChoicePassesIff | chatterc/commands/commands.go:528-570 | the arguments of an explicit choice are exactly: for each literal whether it matched, and for each sort of parameter the value of the one that matched, or else the empty string or no address |
| CommandArguments.CallIff | chatterc/commands/commands.go:470-649 | the matcher finds exactly the matches, and they pass exactly the arguments, that are described token by token along the tree: node, input, completeness, own value or the choice's values, one after the other |
| CommandCalls.ArgsTypes | chatterc/commands/commands.go:533-569 | the arguments of a choice have the choice's own types, whichever option matched |
| CommandCalls.ChoiceArgsExact | chatterc/commands/commands.go:533-569 | exactly the matched literal's flag is true; a matched parameter's value is in its type's slot; every other slot holds the zero value; nothing else is passed |
| CommandCalls.CallsFit | chatterc/commands/commands.go:418-434 | a call has the types recorded at its last node if its choices are fresh, and too many arguments if not |
| CommandCalls.CallsWellTypedIff | chatterc/commands/commands.go:418-434 | a complete match calls its handler with the handler's types exactly when no explicit choice on its path repeats the type of an earlier parameter |
| CommandCalls.FreshCallsWellTyped | chatterc/commands/commands.go:470-515 | in a tree without repeated types every complete match is a well-typed call |
| CommandDisambiguation.MatchFields | chatterc/commands/commands.go:651-723 | the loops compute Disambiguated when there are several matches, and never go past a chain's end |
| CommandDisambiguation.Disambiguate | chatterc/commands/commands.go:690-722 | the rounds, with their parallel lists and early exit, compute Disambiguated, which DisambiguatedIs describes |
| CommandDisambiguation.OneRound | chatterc/commands/commands.go:693-715 | one round keeps the positions Kept, which KeptAreBest describes, with their roots and what is left of their chains |
| CommandDisambiguation.DisambiguatedIsSublist | chatterc/commands/commands.go:688-722 | the result is a non-empty part of the matches, in their order |
| CommandDisambiguation.DisambiguationIff | chatterc/commands/commands.go:664-722 | the result is the greedy exact-match filter exactly when the matches up to the last one it selects all survived the rounds before the last |
| CommandDisambiguation.LastTokenDecides | chatterc/commands/commands.go:664-722 | it is, if no token but the last is spelled out exactly by some matches and not by others |
| CommandDisambiguation.GreedyFindsLiterals | chatterc/commands/commands.go:664-686 | for a line that spells out literals the greedy filter leaves exactly the match of these literals |
| CommandDisambiguation.GreedyIsLastRound | chatterc/commands/commands.go:717-719 | stopping as soon as one match is left changes nothing for the greedy filter |
| CommandExactness.KeptAreBest | chatterc/commands/commands.go:693-715 | of the matches that are best by the tokens before, a token keeps exactly those that are best with it |
| CommandExactness.GreedyIsBest | chatterc/commands/commands.go:664-686 | the greedy filter keeps, in order, exactly the matches than which none is better, where a match is better if at the first token at which they differ its literal is spelled out and the other's is not |
| CommandExactness.AlikeAreKeptAlike | chatterc/commands/commands.go:664-686 | two matches of which the tokens spell out the same literals are both kept or both dropped |
| CommandExactness.DisambiguatedIs | chatterc/commands/commands.go:688-722 | what Match returns for several matches: the last token looked at is the first that leaves one best match, or the last of the line, and the result is read at the positions that the best matches after it have among the best before it |
| CommandDisambiguationExample.WrongCommand | chatterc/commands/commands.go:699-706 | a declared command and a line that spells out one of its paths, for which another path is chosen |
| CommandDisambiguationExample.TreeIsDeclared | chatterc/commands/commands.go:1082-1092 | the tree of that example is what registering its declaration gives |
| CommandHelp.GetAutocompleteNodesFromTokens | chatterc/commands/commands.go:984-1069 | the recursive loops compute HelpNodes |
| CommandHelp.AppendNew | chatterc/commands/commands.go:994-998 | the loop computes AddNew, of which HelpIsFirst says what it amounts to |
| CommandHelp.SoFarIff | chatterc/commands/commands.go:1004-1022 | a node is listed for the last field exactly when it accepts some extension of it |
| CommandHelp.HelpIsMatching | chatterc/commands/commands.go:984-1075 | help lists, each once, exactly the ids that end a match of the line with its last field suitably extended (ids other than that of IPv6 parameters) |
| CommandHelpOrder.HelpIsFirst | chatterc/commands/commands.go:984-1075 | help lists, in the order of the tree, for every path that accepts the fields so far the first node with the id that the path leads to |
| CommandCompletion.OptionsFromAutocompleteFunc | chatterc/commands/commands.go:751-769 | the function's options that start with the prefix, in order; none without a function; an error if it fails |
| CommandCompletion.WithPrefixParts | chatterc/commands/commands.go:761-766 | selecting by prefix looks at each option by itself and keeps their order |
| CommandCompletion.GetAutocompleteOptionsFromTokens | chatterc/commands/commands.go:771-853 | the recursive loops compute OptionsOf, errors included |
| CommandCompletion.OptionsHavePrefix | chatterc/commands/commands.go:771-868 | every option starts with the last field, so slicing it off is in range |
| CommandCompletion.GrowingNarrows | chatterc/commands/commands.go:771-853 | typing more of the last field leaves exactly those options that start with it, in the same order |
| CommandCompletion.OptionsExact | chatterc/commands/commands.go:771-853 | the options, each once, are exactly what the ends of the paths offer that accept all fields but the last |
| CommandCompletion.CompletionFailsIff | chatterc/commands/commands.go:771-853 | completion fails exactly when an autocomplete function at the end of such a path fails |
| Lines.AutocompleteFields | chatterc/commands/commands.go:735-749 | there is always a last field |
| Lines.WordIsField | chatterc/commands/commands.go:651-652 | a word without spaces is one field |
| Lines.SpaceSeparates | chatterc/commands/commands.go:651-652 | a space separates the fields before it from those after it; with WordIsField this fixes the fields of every line |
| Lines.UnfinishedFields | chatterc/commands/commands.go:735-749 | for completion, the last field is what follows the last space, also when it is empty |
| Lines.TypingGrowsLast | chatterc/commands/commands.go:735-749 | typing without spaces extends the last field and nothing else |
| Lines.LastFieldIsSuffix | chatterc/commands/commands.go:735-749 | the last field is a suffix of the line, without spaces |
| CommandGrammar.ParseElement | chatterc/commands/commands.go:1130-1161 | parsing an element stays in the text and, when it succeeds, moves strictly forward |
| CommandGrammar.ReadAtom | chatterc/commands/commands.go:1212-1280 | a literal or parameter, printed, is read back |
| CommandGrammar.ReadChoice | chatterc/commands/commands.go:1163-1210 | a choice of literals and parameters, printed, is read back |
| CommandLanguage.WordIsParsed | chatterc/commands/commands.go:1212-1288 | every word of [A-Z]+, and every other word of [a-zA-Z][a-zA-Z0-9_-]*, followed by a blank, a bar, a closing bracket, a line end or nothing is read as the parameter or literal that it spells; likewise the two address parameters |
| CommandLanguage.ParsedIsWord | chatterc/commands/commands.go:1130-1288 | and nothing else is read as a literal or parameter |
| CommandLanguage.ElementIff | chatterc/commands/commands.go:1130-1292 | an element is read at a position exactly when the text there is that element by the grammar, choices with blanks and choices within choices included |
| CommandLanguage.DeclarationIff | chatterc/commands/commands.go:1094-1128 | a declaration has these elements exactly when its first line spells them out by the grammar |
| CommandGrammar.RoundTrip | chatterc/commands/commands.go:114-136 | elements printed with any gaps between them are read back from the line as they were; DeclarationIff says what can be declared at all |
| CommandParser.Parser.SkipWhitespace | chatterc/commands/commands.go:1294-1298 | stops after the last blank of the run |
| CommandParser.Parser.Consume | chatterc/commands/commands.go:1300-1308 | moves past the text exactly when it comes next |
| CommandParser.Parser.ParseElement | chatterc/commands/commands.go:1130-1161 | result and position are those of the grammar, on all inputs |
| CommandParser.Parser.ParseChoice | chatterc/commands/commands.go:1163-1210 | result and position are those of the grammar, on all inputs |
| CommandParser.Parser.ParseFixedParam | chatterc/commands/commands.go:1212-1240 | an address parameter is read exactly when it ends an element; otherwise the position is restored |
| CommandParser.Parser.ParseStringParam | chatterc/commands/commands.go:1242-1260 | the whole run of capitals is read if it ends an element; otherwise the position is restored |
| CommandParser.Parser.ParseLiteral | chatterc/commands/commands.go:1262-1280 | the whole run of literal characters is read if it ends an element; otherwise the position is restored |
| CommandParser.ParseCommand | chatterc/commands/commands.go:1094-1128 | the loop links the elements of the line to a chain; it fails exactly when an element cannot be read |
| CommandParser.ParseDeclaration | chatterc/commands/commands.go:1082-1092 | a declaration gives the typed chain of its elements |
| CommandParser.PrintedChainIsDeclared | chatterc/commands/commands.go:114-136 | a printed chain, however spaced, declares that chain |
| CommandDeclaration.Leaves | chatterc/commands/commands.go:395-416 | the loops compute LeavesOf |
| CommandDeclaration.LeafTypes | chatterc/commands/commands.go:395-434 | every leaf of a declaration takes the same parameter types, so one handler fits all of them or none |
| CommandDeclaration.LeavesAre | chatterc/commands/commands.go:395-416 | the leaves of a declaration are the alternatives of its last element, each once |
| CommandDeclaration.CommandPaths | chatterc/cli.go:423-439 | a declared command has exactly the paths through its elements, with handler and description at the end of the full ones and nowhere else |
| CommandDeclaration.CommandWellFormed | chatterc/commands/commands.go:1094-1128 | declarations are well-formed trees |
| CommandDeclaration.CommandTyped | chatterc/commands/commands.go:169-212 | declarations have the right parameter types everywhere |
| CommandDeclaration.CommandFresh | chatterc/commands/commands.go:184-186 | a declaration whose elements repeat no earlier type has fresh choices on every path |
| Cli.CLI.Register | chatterc/cli.go:423-449 | succeeds exactly when the declaration parses, the handler has its type and its choices agree with those there; then the new command has been merged in, the tree is the union with the new command on top, and keeps its invariant |
| Cli.CLI.RunLine | chatterc/cli.go:345-382 | which of the outcomes a line has, and that a handler runs exactly for a single, complete match, with that match's arguments |
| Cli.CLI.AutocompleteWithTab | chatterc/cli.go:208-246 | a TAB that edits only inserts at the cursor: the rest of the single option, or the rest of the longest common prefix, after which the options are unchanged |
| Cli.CommonPrefixLen | chatterc/cli.go:15-32 | the length of the longest common prefix |
| Cli.LongestIs | chatterc/cli.go:15-32 | the prefixes that all words have in common are exactly those of up to that length |
| Cli.TypingCommonPrefix | chatterc/cli.go:230-236 | typing what all options share leaves the options as they are |
| Cli.ChosenAreMatches | chatterc/commands/commands.go:651-723 | what Match returns are matches of the line, and the complete ones have handlers |
| Cli.ChosenIs | chatterc/commands/commands.go:651-723 | Match returns a single match as it is, and several as DisambiguatedIs says |
| CommandRegistry.EntryOfText | chatterc/cli.go:423-439 | what registering a declaration adds is the tree of its elements, and nothing if the handler does not fit |
| CommandRegistry.OneMoreRegistered | chatterc/cli.go:441-446 | each further call of Register leads from the tree of the commands registered before to that of all |
| CommandRegistry.HandlerAt | chatterc/cli.go:441-446 | the handler at a path is that of the last registered command with that path |
| CommandRegistry.DescriptionAt | chatterc/cli.go:432-446 | the description at a path is that of the last registered command with that path that has one |
| CommandRegistry.RegisteredAt | chatterc/cli.go:423-449 | after any successful registrations every node of the tree has the handler and the description registered last for its path, and no registered command is missing |
| CommandRegistry.RegisteredCommandsRun | chatterc/cli.go:423-449 | after any successful registrations, in any order, a line that spells out a command has a complete match, before disambiguation, with the handler registered last for it |
| CommandRegistry.TypedInFullRuns | chatterc/cli.go:345-382 | a registered command of literals, typed in full, is what the greedy filter chooses; Match returns just it, so that its handler runs, exactly when it is the only match or the matches are aligned |
| CommandRegistry.RegisteredCallsWellTyped | chatterc/commands/commands.go:418-434 | if no declaration repeats a type, every complete match of every line is a well-typed call |
| CommandRegistry.RepeatedTypeIsMistyped | chatterc/commands/commands.go:184-186 | a declaration that repeats a type is accepted, and its handler called with the wrong arguments |
| CommandSignature.OptionTypesAre | chatterc/commands/commands.go:173-187 | after other parameters a choice adds a type for each literal, and for the first parameter of each sort whose type none of them has |
| CommandSignature.SignatureIs | chatterc/commands/commands.go:169-212 | the types that a handler must take are, element by element, those of the parameters that the text spells out |
| CommandSignature.AcceptedIff | chatterc/cli.go:423-439 | a declaration is accepted for exactly the handlers that take a writer and these types and return an error, and adds exactly the paths through its elements, with handler and description at their ends |
| CommandSignature.NoSentence | chatterc/cli.go:423-427 | a text that the grammar does not describe is not accepted |
| CommandSignature.LineCalls | chatterc/cli.go:345-382 | a line for which one complete match is chosen calls the handler registered last for its path, with the values that CallIff describes |
| SyncQueue.StepRefines | sync/queue.go:14-49 | every step of the two channels is no step, one Put, or one Get of an atomic queue |
| SyncQueue.HolderNeverBlocks | sync/queue.go:21-49 | whoever owns the contents can always send them back, and Get never indexes an empty slice |
| SyncQueue.QueueIsFifo | sync/queue.go:9-49 | in every run gets return the items put, in order, none lost or repeated; a cancelled Get takes nothing |
| SyncQueue.GotInOrder | sync/queue.go:21-49 | read off the steps of any run, the items returned are the first of those put, and while no call owns the contents a waiting Get can go on exactly when some have not been returned |
| SyncQueue.PutsItsItem | sync/queue.go:21-30 | a call of Put puts the item it was made with |
| SyncQueue.NeverStuck | sync/queue.go:21-49 | no deadlock: while a call is about to put an item or owns the contents, some call can go on |
| SyncQueuedNotifier.StepInv | sync/queued_notifier.go:37-73 | every step of every caller keeps the invariant |
| SyncQueuedNotifier.QueuedDelivery | sync/queued_notifier.go:37-73 | in every run the history of a listener, followed by its queue, is every notification since its registration, once, in one order common to all; GetReturnsNext ties this to what the calls return |
| SyncQueuedNotifier.AfterUnregister | sync/queued_notifier.go:48-60 | an unregistered listener gets at most what was sent before |
| SyncQueuedNotifier.Independence | sync/queued_notifier.go:62-73 | one listener's get changes nothing for another, and a cancelled wait consumes nothing |
| SyncQueuedNotifier.NotifyNeverBlocks | sync/queued_notifier.go:54-60 | the notifier is never stopped between taking the map and returning it: every queue it has still to put on is there, and then the map can be returned (Put itself is one atomic step here; HolderNeverBlocks is about its inside) |
| SyncQueuedHistory.RegisteredIff | sync/queued_notifier.go:37-52 | in every run a token is registered exactly when some call registered it and none unregistered it since |
| SyncQueuedHistory.AwaitStarts | sync/queued_notifier.go:62-70 | AwaitChange waits for a value if its token is registered when it returns the map, and otherwise returns at once |
| SyncQueuedHistory.GetReturnsNext | sync/queued_notifier.go:62-73 | in every run AwaitChange returns the first value published since the registration of its token that no call for the token has returned before |
| SyncQueuedHistory.ReceivedInOrder | sync/queued_notifier.go:54-73 | what the calls for a token have returned is always the beginning of what was published since its registration, and for an unregistered one, of what was published between |
| SyncQueuedHistory.NothingIsLost | sync/queued_notifier.go:54-73 | while a token is registered and no call has the map, a value can be received exactly when not all that was published since have been |
| SyncQueuedHistory.NeverStuck | sync/queued_notifier.go:37-73 | no deadlock: while a call waits for the map or holds it, some call can take it, put a value on a queue, or return it |
| SyncQueuedHistory.CallsKept | sync/queued_notifier.go:37-73 | every call works with the token or the value it was made with |
| SyncNotifier.StepInv | sync/notifier.go:35-68 | every step of every caller keeps the invariant |
| SyncNotifier.NoLostWakeup | sync/notifier.go:35-62 | in every run a blocked listener has one newer signal buffered, or is registered under the current number and still to be signalled |
| SyncNotifier.SendsNeverBlock | sync/notifier.go:35-54 | every waiter's channel is sent to at most once, so no send blocks while the state is held |
| SyncNotifier.ReturnedPairsArePublished | sync/notifier.go:45-68 | every returned pair, also on cancellation, is a value with the number it was published under |
| SyncNotifier.ListenerSeesIncreasing | sync/notifier.go:43-62 | a listener that feeds its numbers back gets ever larger ones |
| SyncNotifier.PublishedForever | sync/notifier.go:35-41 | numbers are given once and never change their value |
| SyncNotifierHistory.AwaitReturns | sync/notifier.go:43-62 | with the number n current when AwaitChange takes the state: asked for another number it returns n and its value, asked for n it returns n + 1 and its value, and cancelled it returns n and its value |
| SyncNotifierHistory.LastReturns | sync/notifier.go:64-68 | LastChange returns the number current when it takes the state, and its value |
| SyncNotifierHistory.WakesIff | sync/notifier.go:35-62 | while no call has the state, a waiting AwaitChange can return exactly if it asked for a number that was not current or something has been published since it took the state |
| SyncNotifierHistory.NeverStuck | sync/notifier.go:35-68 | no deadlock: while a call waits for the state or holds it, some call can take it, signal a waiter, or return it |
| SyncNotifierHistory.AwaitTook | sync/notifier.go:43-62 | every call of AwaitChange that waits or has returned took the state before, with the number it asked for |
| SyncNotifierHistory.CallsKept | sync/notifier.go:35-62 | NotifyChange publishes the value it was called with, and AwaitChange asks for the number it was called with |
| Lsdb.Fletcher16 | ospf/lsdb.go:184-195 | over several slices, the sums of their concatenation |
| Lsdb.SumsArePlain | ospf/lsdb.go:184-195 | the running sums are the plain weighted sums modulo 255 |
| Lsdb.ZeroSumsIff | ospf/lsdb.go:197-217 | two bytes at an offset make the checksum zero exactly when they solve two congruences |
| Lsdb.GenerateChecksum | ospf/lsdb.go:202-217 | stored at the offset, the two bytes make the checksum zero; both are in 1..255; modulo 255 no others do |
| Lsdb.OneByteChange | ospf/lsdb.go:180-200 | a change of one byte goes unnoticed exactly when the new byte equals the old modulo 255 |
| Lsdb.LSA.SetAge | ospf/lsdb.go:171-174 | the age changes in the field and in the two bytes, the high one first, and the checksummed bytes do not |
| Lsdb.LSA.IsChecksumValid | ospf/lsdb.go:180-182 | true exactly when the checksum after the age is zero |
| Lsdb.CompareIsNewer | ospf/lsdb.go:128-161 | antisymmetric, and the lexicographic order by sequence number, checksum and sufficiently different age, MaxAge newest |
| Lsdb.AgeRule | ospf/lsdb.go:146-160 | of instances that differ in age only, one is more recent if only it has reached 3600 seconds, or if neither has and it is younger by more than 900 |
| Lsdb.NewerIsIntervalOrder | ospf/lsdb.go:128-161 | of two comparable pairs, one's newer is newer than the other's older |
| Lsdb.NoRecencyCycle | ospf/lsdb.go:128-161 | a chain of ever newer instances, however long, never returns |
| Lsdb.TiesIff | ospf/lsdb.go:146-160 | instances that tie with a third tie exactly when their ages, MaxAge counted youngest, differ by at most 900 |
| Lsdb.TiesAreNotTransitive | ospf/lsdb.go:153-160 | ages 0, 900 and 1800 tie in turn, but the first and the last do not |
| ConfigGraph.Graph.AddNode | config/graph.go:11-13 | the node has these dependencies, in place of any it had |
| ConfigGraph.Graph.TopologicalSort | config/graph.go:15-38 | for every order of the keys: exactly the services reachable from the keys, each once, every dependency first unless it depends on its dependent in turn |
| ConfigGraph.Traversal.Visit | config/graph.go:21-31 | visits everything below a service, keeps the order, and terminates on cycles |
| ConfigGraph.Traversal.VisitAll | config/graph.go:25-27 | all dependencies are visited, and only what the service reaches is added |
| ConfigGraph.PushGood | config/graph.go:29 | a service may be put on the stack when its dependencies have been visited |
| ConfigGraph.DependenciesFirst | config/graph.go:15-38 | the list has every dependency before what needs it exactly when the graph has no cycle |
| ConfigGraph.CycleIsSorted | config/graph.go:15-38 | two services that depend on each other are listed, one before its dependency |
| ServiceConfig.Config.Copy | config/config.go:136-146 | a new configuration with the same protocols |
| ServiceConfig.Config.BuildGraph | config/config.go:109-118 | the API server and every protocol that should run, with their dependencies, for every order of the map |
| ServiceConfig.RunNow | config/ospf.go:36-44 | a protocol should run exactly when some area has an interface |
| ServiceConfig.GraphIs | config/config.go:109-118 | the graph has the API server, which needs nothing, and every protocol with an interface in some area, which needs the interface monitor |
| ServiceConfig.Config.Bootstraps | config/config.go:109-134 | a sorted list of that graph's services, each with its configuration if it has one |
| ServiceConfig.BootstrapsAreStartable | config/config.go:71-134 | a parsed configuration starts distinct services, the API server always, OSPF exactly when an area has interfaces, and then the interface monitor before it |
| ServiceManager.StepInv | chatterd/services/service_manager.go:94-178 | every step of the manager, of services and of callers keeps the invariant |
| ServiceManager.GenerationsNeverOverlap | chatterd/services/service_manager.go:99-122 | in every run, no service of a configuration starts before all services of the one before have ended |
| ServiceManager.OldServicesEnded | chatterd/services/service_manager.go:99-122 | read off the steps of any run: before the services of a configuration are started, each service started before has been told to stop and has ended |
| ServiceManager.StartsAfterGone | chatterd/services/service_manager.go:99-122 | services are started only after a step at which all earlier ones were gone, with no configuration taken up in between |
| ServiceManager.AvailableStateIsApplied | chatterd/services/service_manager.go:99-122 | whenever the state can be taken, the controllers are exactly those of the configuration applied last |
| ServiceManager.AppliedIs | chatterd/services/service_manager.go:94-122 | the configuration applied last is the one received last when all services of the one before were gone |
| ServiceManager.ListReturnsApplied | chatterd/services/service_manager.go:184-197 | RunningServices returns exactly the services of the configuration applied last |
| ServiceManager.GetReturnsApplied | chatterd/services/service_manager.go:166-178 | Get returns the service with the name asked for that was started for the configuration applied last, if that has one, and otherwise none |
| ServiceManager.NeverAlreadyRunning | chatterd/services/service_manager.go:127-131 | the error about a service already running never occurs |
| ServiceManager.DependencyStartsFirst | chatterd/services/service_manager.go:112-117 | when OSPF starts, the monitor of the same configuration has been started |
| ServiceManager.OspfFindsMonitor | ospf/ospf.go:66-72 | a Get of the monitor from a running OSPF service that returns gives the monitor of the same configuration |
| ServiceManagerProgress.StuckForever | chatterd/services/service_manager.go:99-110 | once the manager, with the token, has to wait for a service that waits for the token in Get, this stays so in every run |
| ServiceManagerProgress.GoesOnIff | chatterd/services/service_manager.go:99-122 | while it stops the old services, the manager can still get to starting the new ones exactly if none of those it waits for waits for the token in Get |
| ServiceManagerProgress.DeadlockHappens | ospf/ospf.go:66-72 | a run that ends so: a second configuration is taken up before OSPF, just started, has got the token for its Get of the interface monitor |
| OspfInterfaces.Interface.HandleEvent | ospf/interface.go:253-294 | InterfaceUp and UnloopInd lead to Point-to-point, LoopInd to Loopback, InterfaceDown to Down, and other events nowhere; type and priority, whose branches are overwritten, do not matter |
| OspfInterfaces.Interface.SendEvent | ospf/interface.go:296-298 | the event before has been handled, this one is pending |
| OspfInterfaces.Interface.SendEventWait | ospf/interface.go:300-304 | all events have been handled |
| OspfInterfaces.DetectChanges | ospf/ospf.go:170-181 | from any state, with or without an event pending, where some interleaving of the two reads leads |
| OspfInterfaces.SettlesIff | ospf/ospf.go:170-181 | the interface is sure to end in the state of its flags exactly when its state and pending event meet a condition that can be checked before |
| OspfInterfaces.QuietSettlesIff | ospf/ospf.go:170-181 | with no event pending, exactly if it is up, or neither flagged as a loopback nor in Loopback |
| OspfInterfaces.PrefixesV4Are | ospf/ospf.go:222-237 | exactly the IPv4 prefixes of a network interface |
| OspfInterfaces.DownLoopback | ospf/ospf.go:171-181 | a loopback that is down ends in Loopback, except that from Loopback a stale read ends in Down |
| OspfInterfaces.DownEndsUp | ospf/ospf.go:173-181 | after a stale read an interface that is down ends in Point-to-point |
| OspfInterfaces.UpEndsDown | ospf/ospf.go:171-175 | an interface that went down and came up again ends Down if its last event was unhandled |
| OspfInterfaces.ReconcileOne | ospf/ospf.go:134-182 | an interface is kept exactly when its address is still there; one that is not goes down |
| OspfInterfaces.Instance.UpdateExisting | ospf/ospf.go:133-182 | exactly the interfaces whose address is gone are removed, the others told their state, and the missing cancel function is never met |
| OspfInterfaces.Instance.AddMissing | ospf/ospf.go:184-217 | afterwards there is an interface for exactly every IPv4 prefix of every configured network interface |
| OspfInterfaces.Instance.UpdateInterfaces | ospf/ospf.go:116-220 | for every snapshot, from any valid state, there is no error and there are exactly the wanted interfaces, each told its state from the condition it was in, new ones from Down |
| CliWrap.Wrap | chatterc/cli.go:162-206 | every line is the indentation and its words, each padded to its column except in the last, with nothing after the last word, and no line is longer than the terminal is wide; without a column the words as they are; with a negative number of columns a panic on exactly these numbers of words |
| CliWrap.ReadBack | chatterc/cli.go:183-203 | reading the lines down their columns gives the words back, in order and each once, exactly when none of them ends in a blank (for words that are not empty) |
| CliWrap.RowLength | chatterc/cli.go:188-203 | a line is no longer than its columns |
| CliWrap.LeastRows | chatterc/cli.go:177-180 | with room for a column, the number of lines is the least that is enough for all words |
| CliWrap.NegativeRows | chatterc/cli.go:177-188 | how many lines are asked for when there is room for less than no column |

## Left out

* The command tree is modelled by values. Merging and typing update nodes in place in the
  original, and the options of an explicit choice share one continuation; that sharing, updates
  seen through another reference, and what a failed merge leaves behind are not captured.
* `MergeWithoutExplicitChoiceRestrictions`, and with it the calls that documenting commands and
  registering autocomplete functions make of it: merging is modelled with explicit choices kept
  apart.
* Choices within choices and choices with two options of one id are parsed, but excluded from
  what follows (`Supported`, `WellFormed`).
- SyncQueuedNotifier.NotifyNeverBlocks: takes Put as one atomic step, so waiting inside Put is not part of it.
* Characters are ASCII: decoding of UTF-8 is not modelled.
* The sorting of options and of help before they are shown; no theorem depends on their order.
- Cli.CLI.Register: is stated for declarations whose choices are flat and free of repeated options; the original accepts others and merges trees that matching does not support.
- CommandHelp.HelpIsMatching: says nothing of IPv6 parameters, whose prefix test is a heuristic that is neither sound nor complete; parsing an IPv6 address is a parameter of the model.
* Calling a handler: handlers are values with a signature, and autocomplete functions are the
  outcome of calling them.
* Texts of errors and warnings, the prompt, the terminal, the pager and `tabulate`.
* A queue inside `QueuedNotifier` is atomic, which `SyncQueue` justifies. Sequence numbers do not
  overflow. A listener of `Notifier` whose call was cancelled makes no further call in the model.
* The cancellation of the service manager's group of goroutines, which does not interrupt `Get`
  either, and services other than the API server, the interface monitor and OSPF.
* Timers, neighbors, areas, packets and the events that `handleEvent` ignores.
* Reading YAML, defaults and range checks of the configuration, gRPC, and the network monitors.
