# SimpleCommands, modelled in Dafny

SimpleCommands is a small library for building trees of in-game commands for Bukkit servers.

- A `SimpleCommand` is one node. It has a name, an optional description and permission, a player-only flag, aliases, a hidden flag and a parent link.
- A `RootCommand` routes the first argument token to one of its registered children, through a map from names and aliases, and recurses with the remaining tokens.
- A `SimpleParsedCommand` is a leaf that parses its tokens with a list of typed arguments. The prefab argument types include booleans and strings.
- `BaseCommand` is an older revision of the node class. Its `checkPermission` (src/main/java/nl/martenm/simplecommands/BaseCommand.java:53-56), `isAllowedSender` (64-67), `getFullPermission` (88-111) and `getHelpFormatter` (162-168) do the same as those of `SimpleCommand`, so they are modelled by the same members. Only its `getFullName` differs and has a member of its own.

This project models that core and proves what it promises:
- permission resolution with `+` inheritance and its cache;
- the permission and player-only checks;
- the reachability filter behind help listings;
- dispatch and tab completion;
- the argument pipeline, including the error-message template;
- the two prefab parsers;
- building the tree.

**Representation.**
- All commands of a program live in one arena, a `seq<Node>`, and a reference to a command is its index.
- `CommandTree.Tree` holds the arena as a mutable field. Its methods are the calls that change commands:
  - the constructors, `addAlias`, `setHidden`, `setHelpFormatter`, `addCommand` and `addArgument`;
  - the two getters that write a field as they go: `getFullPermission` (its cache) and `getHelpFormatter` (a formatter created lazily at the root).
- Each of these methods is proved against a function of the arena before the call.
- Loops of the source are methods with loop invariants, each proved equal to a specification function: `getTabCompletions`, `getFullName`, `getSubCommands` and the parse loop of `SimpleParsedCommand.onCommand`. `BaseCommand.GetFullName` answers a command without a parent itself and otherwise delegates to the loop of `SimpleCommand.GetFullName`.
- Dispatch (`onCommand`) and tab completion (`onTabComplete`) recurse like expressions. They are functions of the arena, the sender and the tokens, and they return the one effect of a call:
  - a message sent;
  - help sent with a list of children;
  - a command's own code run with its tokens;
  - an exception (`Fault`).

**Cycles.** `setParent` does not prevent cycles, so every walk along parents or children is bounded by the arena size.
- Running out of that bound is the JVM's `StackOverflowError` for the recursive walks.
- For `getFullName`'s while loop it is a call that never returns normally: the builder grows until the JVM runs out of memory.
- A parent chain that does not revisit a command always fits the bound: getFullPermission does not overflow, getFullName does not loop and getHelpFormatter does not overflow (`SimpleCommand.CycleFreeResolves`, `SimpleCommand.CycleFreeFormatter`).

**Where the code and the surrounding documentation differ, the model follows the code,** except in one place: dispatch sends an argument error through the corrected `sendError` (see "## Findings" and the `SimpleParsedCommand.OnCommand` line under "## Left out").
- Children are looked up by an exact, case-sensitive map lookup. `testNameMatch`, which ignores case, is never used by dispatch.
- An alias added after `addCommand` is never put in the parent's map (`CommandTree.LateAliasNotRouted`).
- A later name or alias silently overwrites an earlier map entry (`CommandTree.AttachSpec`).
- Hidden children are left out of tab completion and of help. They still count when deciding whether any child is reachable.
- `isAllowed` does not look at player-only flags.
- Tab completion checks neither flags nor permissions below the first level (`RootCommand.TabWalk`).
- The tests call `addCommand` on a `SimpleCommand`; only `RootCommand` has it, so the model builds those trees with `RootCommand`.
- The test of attached permissions expects `NO_PERMISSION` when dispatching the token `attached`. The child is named `attachedPermission`, so the code answers with an unknown-argument message (`Scenarios.AttachedPermission`).

## Model


| member | source | states |
|---|---|---|
| SimpleCommand.ResolveFuel | src/main/java/nl/martenm/simplecommands/SimpleCommand.java:140-163 | resolution is deterministic: any deeper stack gives the same result as one that did not overflow |
| SimpleCommand.Resolve | src/main/java/nl/martenm/simplecommands/SimpleCommand.java:140-163 | getFullPermission with at most `fuel` nested calls: the cache; inheritance when unset; an absolute permission verbatim; a '+' permission appended to the parent's, with its two errors; the stack overflow past the bound |
| SimpleCommand.FullPermission | src/main/java/nl/martenm/simplecommands/SimpleCommand.java:140-163 | getFullPermission with one nested call per command, which every chain without a repeated command fits (`SimpleCommand.CycleFreeResolves`) |
| SimpleCommand.InheritsWhenUnset | src/main/java/nl/martenm/simplecommands/SimpleCommand.java:145-148 | no raw permission: none at a root, otherwise exactly the parent's resolution |
| SimpleCommand.AbsoluteVerbatim | src/main/java/nl/martenm/simplecommands/SimpleCommand.java:149 | a raw permission not starting with '+' is returned verbatim, whatever the parent resolves to |
| SimpleCommand.WildcardConcat | src/main/java/nl/martenm/simplecommands/SimpleCommand.java:155-161 | '+s' under a parent resolving to P resolves to P + "." + s |
| SimpleCommand.WildcardErrors | src/main/java/nl/martenm/simplecommands/SimpleCommand.java:152-159 | '+s' without a parent, or under a parent resolving to none, is an exception, never a null permission |
| SimpleCommand.CachedReturned | src/main/java/nl/martenm/simplecommands/SimpleCommand.java:141 | a cached value is returned unchanged at every depth |
| SimpleCommand.CacheWritesInvisible | src/main/java/nl/martenm/simplecommands/SimpleCommand.java:141-162 | filling caches with their own resolution changes no later resolution |
| SimpleCommand.ChainEndsNoOverflow | src/main/java/nl/martenm/simplecommands/SimpleCommand.java:140-163 | a parent chain that ends within the bound never overflows resolution |
| SimpleCommand.Walk | src/main/java/nl/martenm/simplecommands/SimpleCommand.java:230-246 | the first k commands of the parent chain, nearest first; never longer than k and always inside the arena |
| SimpleCommand.WalkEnds | src/main/java/nl/martenm/simplecommands/SimpleCommand.java:230-246 | a walk shorter than its bound has reached the root, so the chain ends within that bound |
| SimpleCommand.CycleFreeChainEnds | src/main/java/nl/martenm/simplecommands/SimpleCommand.java:230-246 | a parent chain visiting no command twice ends within as many steps as there are commands |
| SimpleCommand.CycleFreeResolves | src/main/java/nl/martenm/simplecommands/SimpleCommand.java:140-253 | without a repeated command above it, getFullPermission never overflows and getFullName never loops |
| SimpleCommand.CheckPermission | src/main/java/nl/martenm/simplecommands/SimpleCommand.java:99-102 | fails iff resolution fails; allows iff the resolution is none or the sender holds it |
| SimpleCommand.IsAllowedSender | src/main/java/nl/martenm/simplecommands/SimpleCommand.java:110-113 | false exactly for a player-only command and a sender that is not a player |
| SimpleCommand.NameMatchIgnoresCase | src/main/java/nl/martenm/simplecommands/SimpleCommand.java:74-77 | testNameMatch gives the same answer for an input and its lower-case form |
| SimpleCommand.TestNameMatch | src/main/java/nl/martenm/simplecommands/SimpleCommand.java:74-77 | the name or some alias equals the input up to letter case |
| SimpleCommand.Alias | src/main/java/nl/martenm/simplecommands/SimpleCommand.java:308-311 | getAlias is the first alias, or the name when there is none |
| SimpleCommand.WithAlias | src/main/java/nl/martenm/simplecommands/SimpleCommand.java:325-328 | addAlias keeps the old aliases, adds the new one, and keeps the list duplicate-free |
| SimpleCommand.WithAliasIdempotent | src/main/java/nl/martenm/simplecommands/SimpleCommand.java:325-328 | adding the same alias twice equals adding it once |
| SimpleCommand.AliasHitsSpec | src/main/java/nl/martenm/simplecommands/SimpleCommand.java:88-90 | the alias loop adds the name once per alias starting with the prefix, and nothing else |
| SimpleCommand.TabCompletions | src/main/java/nl/martenm/simplecommands/SimpleCommand.java:85-92 | the name if it starts with the prefix, then the name once more per alias that does (properties in `SimpleCommand.TabCompletionsSpec`) |
| SimpleCommand.TabCompletionsSpec | src/main/java/nl/martenm/simplecommands/SimpleCommand.java:85-92 | getTabCompletions has the name once for a matching name plus once per matching alias; every element is the name; it holds the name iff the name or an alias matches |
| SimpleCommand.GetTabCompletions | src/main/java/nl/martenm/simplecommands/SimpleCommand.java:85-92 | the loop computes exactly TabCompletions |
| SimpleCommand.Up | src/main/java/nl/martenm/simplecommands/SimpleCommand.java:230-246 | the ancestor chain getFullName walks stays inside the arena |
| SimpleCommand.UpFuel | src/main/java/nl/martenm/simplecommands/SimpleCommand.java:231-246 | a chain that ends within a bound is the same under any larger bound |
| SimpleCommand.PathCons | src/main/java/nl/martenm/simplecommands/SimpleCommand.java:231-246 | inserting a farther ancestor puts its label and a space in front of the nearer ones |
| SimpleCommand.GetFullName | src/main/java/nl/martenm/simplecommands/SimpleCommand.java:228-253 | the insert-at-front loop computes FullName in all three formats, and reports the endless loop on a cycle |
| SimpleCommand.FullNameStep | src/main/java/nl/martenm/simplecommands/SimpleCommand.java:220-253 | NO_ALIAS full name: a root's is its name; a child's is the parent's full name, a space, and its name |
| SimpleCommand.FullName | src/main/java/nl/martenm/simplecommands/SimpleCommand.java:228-253 | getFullName(format): the labels of the ancestors root first, each with a space, then the own label; the endless loop when the chain does not end within the bound |
| SimpleCommand.FormatterLookup | src/main/java/nl/martenm/simplecommands/SimpleCommand.java:260-266 | when no formatter is found, the node that creates one is a root without a formatter |
| SimpleCommand.FormatterChainEnds | src/main/java/nl/martenm/simplecommands/SimpleCommand.java:260-266 | a parent chain that ends within the bound never overflows the formatter search |
| SimpleCommand.WithFormatter | src/main/java/nl/martenm/simplecommands/SimpleCommand.java:264-265 | storing the created formatter changes no parent link and no list or map |
| SimpleCommand.FormatterStored | src/main/java/nl/martenm/simplecommands/SimpleCommand.java:260-266 | after the root keeps its formatter, exactly the searches that would have created it find it instead |
| SimpleCommand.CreatedOnce | src/main/java/nl/martenm/simplecommands/SimpleCommand.java:260-266 | the lazily created formatter is the one every later call, from any command under that root, returns |
| SimpleCommand.HelpFormatter | src/main/java/nl/martenm/simplecommands/SimpleCommand.java:260-266 | getHelpFormatter: the formatter on the command or its nearest ancestor that has one, else the one created at the root |
| SimpleCommand.CycleFreeFormatter | src/main/java/nl/martenm/simplecommands/SimpleCommand.java:260-266 | without a repeated command above it, getHelpFormatter never overflows |
| BaseCommand.GetFullName | src/main/java/nl/martenm/simplecommands/BaseCommand.java:147-160 | the own name without a parent; otherwise the ancestors' names root first, each with a space, then the own name |
| RootCommand.CheckPermission | src/main/java/nl/martenm/simplecommands/RootCommand.java:101-104 | a root with registered children always passes; any other command uses its resolved permission |
| RootCommand.IsAllowed | src/main/java/nl/martenm/simplecommands/RootCommand.java:176-184 | isAllowed: a command without children checks its permission; a root with children is allowed iff some child is (`RootCommand.RootAllowedIffSomeChild`) |
| RootCommand.AnyAllowed | src/main/java/nl/martenm/simplecommands/RootCommand.java:183 | anyMatch over the children, stopping at the first allowed child or the first exception |
| RootCommand.AnyAllowedTrueIff | src/main/java/nl/martenm/simplecommands/RootCommand.java:183 | anyMatch holds iff some child is allowed and every child before it answered false without failing |
| RootCommand.AnyAllowedFalseIff | src/main/java/nl/martenm/simplecommands/RootCommand.java:183 | anyMatch is false iff every child answered false |
| RootCommand.RootAllowedIffSomeChild | src/main/java/nl/martenm/simplecommands/RootCommand.java:176-184 | isAllowed of a root with children is exactly "some child is allowed" |
| RootCommand.FirstWitness | src/main/java/nl/martenm/simplecommands/RootCommand.java:183 | an allowed child implies a first allowed child, at which anyMatch stops |
| RootCommand.Filter | src/main/java/nl/martenm/simplecommands/RootCommand.java:157-164 | the loop body over a list of children: skip a player-only child for a non-player, skip a child that is not allowed, keep the rest in order (properties in `RootCommand.FilterSpec`) |
| RootCommand.SubCommands | src/main/java/nl/martenm/simplecommands/RootCommand.java:155-166 | getSubCommands: Filter over the root's registered children |
| RootCommand.FilterSpec | src/main/java/nl/martenm/simplecommands/RootCommand.java:155-166 | getSubCommands is the order-preserving subsequence of exactly the children usable by the sender and allowed; it fails iff checking such a child fails |
| RootCommand.FilterErrPersists | src/main/java/nl/martenm/simplecommands/RootCommand.java:157-161 | an exception while checking one child ends getSubCommands with that exception |
| RootCommand.GetSubCommands | src/main/java/nl/martenm/simplecommands/RootCommand.java:155-166 | the loop computes exactly SubCommands |
| RootCommand.Visible | src/main/java/nl/martenm/simplecommands/RootCommand.java:62 | removeIf(isHidden) on the help list (properties in `RootCommand.VisibleSpec`) |
| RootCommand.VisibleSpec | src/main/java/nl/martenm/simplecommands/RootCommand.java:62 | removeIf keeps the order and exactly the children not hidden |
| RootCommand.OnCommand | src/main/java/nl/martenm/simplecommands/RootCommand.java:36-93 | onCommand of any command: a parsed command parses, a root dispatches, any other command runs its own code with its tokens |
| RootCommand.RootOnCommand | src/main/java/nl/martenm/simplecommands/RootCommand.java:36-93 | RootCommand.onCommand: the empty-map exception, the player-only check, help for no tokens, the unknown token, the child's player and permission checks, then the child with the rest of the tokens (properties in the lemmas below) |
| RootCommand.CheckOrder | src/main/java/nl/martenm/simplecommands/RootCommand.java:36-93 | the checks in order: an empty map is an exception; then the root's player-only check, the unknown token, the child's player-only check before its permission; each ends dispatch with one message |
| RootCommand.HelpListing | src/main/java/nl/martenm/simplecommands/RootCommand.java:52-65 | with no tokens: NO_PERMISSION iff no child is reachable; otherwise help is sent with the formatter getHelpFormatter returns, and lists, in registration order, exactly the reachable children that are not hidden |
| RootCommand.RunsOnlyAlongRoute | src/main/java/nl/martenm/simplecommands/RootCommand.java:67-92 | a command's own code runs only at the end of a route on which every check passed, and it receives exactly the tokens after the route |
| RootCommand.ParsedRunsHere | src/main/java/nl/martenm/simplecommands/arguments/SimpleParsedCommand.java:36-64 | a parsed command that runs is itself, with all its tokens |
| RootCommand.RouteRuns | src/main/java/nl/martenm/simplecommands/RootCommand.java:67-92 | conversely, dispatch along any route equals dispatch at the route's end with the remaining tokens; a command with its own code runs there |
| RootCommand.Hints | src/main/java/nl/martenm/simplecommands/RootCommand.java:114-117 | the tab hints of each child that is not hidden, in order, concatenated (properties in `RootCommand.HintsSpec`) |
| RootCommand.OnTabComplete | src/main/java/nl/martenm/simplecommands/RootCommand.java:107-126 | onTabComplete: null for no tokens, the hints of the reachable children for one token, otherwise the mapped child with the rest or null |
| RootCommand.HintsSpec | src/main/java/nl/martenm/simplecommands/RootCommand.java:113-117 | a hint is the name of a child that is not hidden and whose name or an alias starts with the token |
| RootCommand.RootHints | src/main/java/nl/martenm/simplecommands/RootCommand.java:112-120 | with one token, the hints are the names of reachable, visible children matching the token |
| RootCommand.TabWalk | src/main/java/nl/martenm/simplecommands/RootCommand.java:122-125 | with more tokens, tab completion follows the map keys without any check and ends where the keys lead |
| RootCommand.RouteIsKeyPath | src/main/java/nl/martenm/simplecommands/RootCommand.java:67-125 | every dispatch route is a path of map keys, so tab completion reaches every command dispatch reaches |
| RootCommand.TabUnmatched | src/main/java/nl/martenm/simplecommands/RootCommand.java:109-123 | no tokens, or an unmatched first token before more tokens, gives null |
| SimpleParsedCommand.ParseAll | src/main/java/nl/martenm/simplecommands/arguments/SimpleParsedCommand.java:47-60 | a full success has one value per argument; a rejection or a null is at an argument position |
| SimpleParsedCommand.AllParsedIff | src/main/java/nl/martenm/simplecommands/arguments/SimpleParsedCommand.java:47-60 | parsing succeeds with vs iff each argument j parses tokens[j] to vs[j] |
| SimpleParsedCommand.RejectedAtIff | src/main/java/nl/martenm/simplecommands/arguments/SimpleParsedCommand.java:47-55 | parsing stops at k with a rejection iff the arguments before k parse and argument k rejects; later parsers are never asked |
| SimpleParsedCommand.NullAtIff | src/main/java/nl/martenm/simplecommands/arguments/SimpleParsedCommand.java:57 | parsing stops at k with the null error iff the arguments before k parse and argument k yields null |
| SimpleParsedCommand.SurplusTokensIgnored | src/main/java/nl/martenm/simplecommands/arguments/SimpleParsedCommand.java:47-51 | tokens beyond the arguments are never parsed |
| SimpleParsedCommand.RunOnCommand | src/main/java/nl/martenm/simplecommands/arguments/SimpleParsedCommand.java:36-64 | the loop with its early returns computes exactly OnCommand |
| SimpleParsedCommand.OnCommand | src/main/java/nl/martenm/simplecommands/arguments/SimpleParsedCommand.java:36-64 | onCommand: missing arguments, the first argument error, the null-value exception, or onArgumentCommand with the parsed values; the error is sent by the corrected sendError |
| SimpleParsedCommand.Parse | src/main/java/nl/martenm/simplecommands/arguments/SimpleParsedCommand.java:51 | parseArgument on the argument's parser: boolean, string, or a host parser |
| SimpleParsedCommand.Complete | src/main/java/nl/martenm/simplecommands/arguments/SimpleParsedCommand.java:83 | onTabCompletion on the argument's parser: the boolean words, the default hint, or a host completer |
| SimpleParsedCommand.OnCommandOutcomes | src/main/java/nl/martenm/simplecommands/arguments/SimpleParsedCommand.java:36-64 | MISSING_ARGUMENTS iff fewer tokens than arguments; onArgumentCommand gets all tokens and one parsed value per argument; an argument error means an earlier prefix parsed and some argument rejected |
| SimpleParsedCommand.OnCommandRuns | src/main/java/nl/martenm/simplecommands/arguments/SimpleParsedCommand.java:47-63 | when every argument yields a value from its token, onArgumentCommand runs with exactly those values and all the tokens |
| SimpleParsedCommand.OnCommandRejects | src/main/java/nl/martenm/simplecommands/arguments/SimpleParsedCommand.java:47-55 | when argument k is the first to reject, its error is sent for tokens[k] and that reason, through the corrected sendError |
| SimpleParsedCommand.OnCommandNull | src/main/java/nl/martenm/simplecommands/arguments/SimpleParsedCommand.java:47-57 | when argument k is the first to return null, dispatch is the null-value exception |
| SimpleParsedCommand.MissingArgumentsExample | src/main/java/nl/martenm/simplecommands/arguments/SimpleParsedCommand.java:38-42 | four arguments and two tokens report "someFloat, someString" |
| SimpleParsedCommand.StringArgumentsNeverFail | src/main/java/nl/martenm/simplecommands/arguments/prefab/SimpleArgumentString.java:17-19 | with string arguments only and enough tokens, the command always runs, with each token as its value |
| SimpleParsedCommand.OnTabComplete | src/main/java/nl/martenm/simplecommands/arguments/SimpleParsedCommand.java:78-84 | defined iff 1 <= tokens <= arguments, and then the completion of the last token by the argument at its position; out of range it is the index exception |
| SimpleParsedCommand.BooleanRejectionMessage | src/main/java/nl/martenm/simplecommands/arguments/SimpleCommandArgument.java:73-78 | for "maybe", the source's error path throws, while the corrected path sends the substituted default template |
| SimpleCommandArgument.NewArgument | src/main/java/nl/martenm/simplecommands/arguments/SimpleCommandArgument.java:24-27 | the one-argument constructor uses the default template |
| SimpleCommandArgument.NewArgumentWithError | src/main/java/nl/martenm/simplecommands/arguments/SimpleCommandArgument.java:35-38 | the two-argument constructor stores its template unchanged |
| SimpleCommandArgument.DefaultCompletion | src/main/java/nl/martenm/simplecommands/arguments/SimpleCommandArgument.java:53-55 | exactly one hint, the colour-wrapped name, whatever the input |
| SimpleCommandArgument.ErrorMessage | src/main/java/nl/martenm/simplecommands/arguments/SimpleCommandArgument.java:73-78 | a null reason throws; otherwise the three sequential substitutions |
| SimpleCommandArgument.Substitute | src/main/java/nl/martenm/simplecommands/arguments/SimpleCommandArgument.java:74-77 | the three replace calls in source order: %name%, then %input%, then %reason% (properties in the lemmas below) |
| SimpleCommandArgument.SubstituteWithoutPlaceholders | src/main/java/nl/martenm/simplecommands/arguments/SimpleCommandArgument.java:73-78 | a template with none of the placeholders comes out unchanged |
| SimpleCommandArgument.SubstitutionRewritesEarlierText | src/main/java/nl/martenm/simplecommands/arguments/SimpleCommandArgument.java:74-77 | a name containing "%input%" is rewritten by the later substitution |
| SimpleCommandArgument.TemplateMessage | src/main/java/nl/martenm/simplecommands/arguments/SimpleCommandArgument.java:73-78 | a template shaped like the default, with placeholder-free values, gets each value in its place |
| SimpleCommandArgument.DefaultTemplateMessage | src/main/java/nl/martenm/simplecommands/SimpleCommandMessages.java:10 | the default template yields the fixed text with the name, reason and input in place |
| SimpleCommandArgument.SendErrorAsWritten | src/main/java/nl/martenm/simplecommands/arguments/SimpleCommandArgument.java:63-78 | as written, every rejection ends in a NullPointerException |
| SimpleCommandArgument.SendError | src/main/java/nl/martenm/simplecommands/arguments/SimpleCommandArgument.java:63-65 | one message, the substituted template, for a rejection with a reason |
| SimpleBooleanArgument.Parse | src/main/java/nl/martenm/simplecommands/arguments/prefab/SimpleBooleanArgument.java:21-27 | "true" in any letter case gives true, "false" gives false, and anything else is rejected with the fixed reason; success is never null |
| SimpleBooleanArgument.CaseVariantIff | src/main/java/nl/martenm/simplecommands/arguments/prefab/SimpleBooleanArgument.java:24-25 | equalsIgnoreCase with a lower-case word means the same letters up to case |
| SimpleBooleanArgument.FilterPrefixedSpec | src/main/java/nl/martenm/simplecommands/arguments/prefab/SimpleBooleanArgument.java:32 | the stream filter is the order-preserving subsequence of the candidates starting with the input |
| SimpleBooleanArgument.CompleteSpec | src/main/java/nl/martenm/simplecommands/arguments/prefab/SimpleBooleanArgument.java:30-33 | completion is the subsequence of ["true", "false"] starting with the input |
| SimpleBooleanArgument.CompleteEmptyAndUpper | src/main/java/nl/martenm/simplecommands/arguments/prefab/SimpleBooleanArgument.java:30-33 | the empty input gives both words; "T" gives none, since startsWith is case-sensitive |
| SimpleArgumentString.Parse | src/main/java/nl/martenm/simplecommands/arguments/prefab/SimpleArgumentString.java:17-19 | parsing never fails, never yields null, and returns the token |
| CommandTree.Fresh | src/main/java/nl/martenm/simplecommands/SimpleCommand.java:41-60 | a constructed command has its given fields, no aliases, no parent, no cache, no formatter, and empty lists |
| CommandTree.FreshPermission | src/main/java/nl/martenm/simplecommands/SimpleCommand.java:140-152 | a new command resolves alone: none, its absolute permission, or the no-parent error for '+' |
| CommandTree.PutAll | src/main/java/nl/martenm/simplecommands/RootCommand.java:142 | every key put maps to the child; other keys keep their entries |
| CommandTree.Attach | src/main/java/nl/martenm/simplecommands/RootCommand.java:132-145 | addCommand of a new child: appended to the list, its name and current aliases mapped to it, its parent set (properties in `CommandTree.AttachSpec`) |
| CommandTree.AttachSpec | src/main/java/nl/martenm/simplecommands/RootCommand.java:132-145 | addCommand appends the child, maps its name and current aliases to it (overwriting), sets its parent, and touches nothing else: every other command, and the root's own fields other than its list and map, stay as they were |
| CommandTree.AttachWellFormed | src/main/java/nl/martenm/simplecommands/RootCommand.java:132-145 | addCommand of a child not yet added keeps the list free of repeats, the map pointing into the list, and the map empty exactly when the list is |
| CommandTree.LateAliasNotRouted | src/main/java/nl/martenm/simplecommands/RootCommand.java:142 | an alias added after addCommand is an unknown argument, although getTabCompletions offers it |
| CommandTree.CacheWritesWellFormed | src/main/java/nl/martenm/simplecommands/SimpleCommand.java:161 | writing the cache keeps the tree well formed |
| CommandTree.Tree.NewCommand | src/main/java/nl/martenm/simplecommands/SimpleCommand.java:41-60 | a constructor adds one fresh command and changes no other |
| CommandTree.Tree.AddAlias | src/main/java/nl/martenm/simplecommands/SimpleCommand.java:325-328 | the alias list becomes WithAlias of the old one; nothing else changes |
| CommandTree.Tree.SetHidden | src/main/java/nl/martenm/simplecommands/SimpleCommand.java:334-336 | only the hidden flag changes |
| CommandTree.Tree.SetHelpFormatter | src/main/java/nl/martenm/simplecommands/SimpleCommand.java:273-275 | only the formatter of the command changes, to the given one or to null |
| CommandTree.Tree.AddArgument | src/main/java/nl/martenm/simplecommands/arguments/SimpleParsedCommand.java:31-33 | the argument is appended, so arguments are in declaration order |
| CommandTree.Tree.AddCommand | src/main/java/nl/martenm/simplecommands/RootCommand.java:132-145 | adding a child twice is the exception and changes nothing; otherwise the result is Attach, built with the alias loop |
| CommandTree.Tree.Resolving | src/main/java/nl/martenm/simplecommands/SimpleCommand.java:140-163 | the recursive getter returns the resolution of the tree before the call, only fills caches of '+' commands with their resolution, and does fill the cache of an uncached '+' command it resolves |
| CommandTree.Tree.GetFullPermission | src/main/java/nl/martenm/simplecommands/SimpleCommand.java:140-163 | getFullPermission is FullPermission of the tree before the call; it only writes caches, and an uncached '+' command it resolves keeps the result in its cache |
| CommandTree.Tree.Locating | src/main/java/nl/martenm/simplecommands/SimpleCommand.java:260-266 | the recursive getter returns the found formatter or creates and keeps one at the root |
| CommandTree.Tree.GetHelpFormatter | src/main/java/nl/martenm/simplecommands/SimpleCommand.java:260-266 | getHelpFormatter is HelpFormatter of the tree before the call, and afterwards every command gets the same formatter as before |
| Scenarios.AttachedPermission | src/test/java/nl/martenm/simplecommands/SimpleCommandTest.java:71-84 | "+attached" under "permission" resolves to "permission.attached"; a player without it is refused by name; the token "attached" is unknown |
| Scenarios.AttachedWithoutBase | src/test/java/nl/martenm/simplecommands/SimpleCommandTest.java:86-99 | "+attached" without a parent, and under a parent without a permission, are the two exceptions |

## Left out

- Messages are kinds carrying the substituted values. The catalogue's template text, ChatColor translation and the help formatter's rendering are not modelled because they are presentation. Only the default argument-error template is modelled as text, because its substitution is specified.
- `registerCommand` is not modelled: registering with the Bukkit plugin and reading plugin.yml is host I/O.
- The Integer, Double, Float and Player parsers are `CustomParser`s. Their parse and completion results come from a host function passed in, because they wrap JDK parsing, floating point or a live server lookup.
- Outputs the source sends step by step are modelled as one effect per call: the sender's message list and the `onArgumentCommand` side effects.
- RootCommand.OnCommand: it does not write the permission or formatter fields the getters fill during dispatch. Their results are the same (`SimpleCommand.CacheWritesInvisible`, `SimpleCommand.CreatedOnce`), so the answer of every dispatch is unchanged.
- SimpleParsedCommand.OnCommand: a rejected argument sends its error through the corrected `SendError`. As written, `sendError` throws a NullPointerException for every rejection (`SimpleCommandArgument.SendErrorAsWritten`, "## Findings"), so the model's argument-error answers, in `SimpleParsedCommand.RunOnCommand` and `RootCommand.OnCommand` too, are what the code evidently intends, not what it does.
- RootCommand.IsAllowed: it stops after at most as many nested levels as there are commands and reports a stack overflow beyond that. That a tree whose downward paths repeat no command never reaches the bound is not proved; the same goes for `RootCommand.AnyAllowed`, `RootCommand.SubCommands` and the dispatch and tab completion that use them. It is proved only for parent chains (`SimpleCommand.CycleFreeResolves`).
- SimpleCommand.GetFullName: on a cyclic chain the Java call never returns normally (the StringBuilder grows until an OutOfMemoryError), while the model stops after as many steps as there are commands and reports the endless loop. A chain that repeats no command always ends before that (`SimpleCommand.CycleFreeResolves`).
- SimpleCommand.NameMatchIgnoresCase: case folding is ASCII only. Java's `equalsIgnoreCase` also folds other Unicode letters.
- SimpleCommand.TestNameMatch: the same ASCII-only folding; a name and an input that differ only in a non-ASCII letter match in Java but not in the model.
- SimpleBooleanArgument.Parse: the same ASCII-only folding, so an input such as "falſe" (with U+017F), which Java accepts, is rejected by the model; this holds for `SimpleBooleanArgument.CaseVariantIff` too.
- A subclass that overrides `onCommand` is a node that runs its own code. What that code does is not modelled.
- Object identity is the arena index. Exceptions are results, and no partial state is left behind by an exception in the middle of a call.

## Findings

| source | as written | input that shows it | evidently intended | confidence | as-written member | corrected member |
|---|---|---|---|---|---|---|
| src/main/java/nl/martenm/simplecommands/arguments/SimpleCommandArgument.java:73-78 | `ParseFailedException` never passes its message to `super`, so `getMessage()` is null. `String.replace("%reason%", null)` then throws a NullPointerException, so every rejected argument crashes instead of sending its error. | the boolean argument given "maybe" | the reason is the message of the wrapped exception ("Could not parse the boolean."), substituted into the template | high (not executed) | SimpleCommandArgument.SendErrorAsWritten | SimpleCommandArgument.SendError |
