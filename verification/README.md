# How flowatlas reads addresses, channels and guards: a verified model

flowatlas reads source and deployment files and turns them into ways in (routes,
procedures, events), channels and the ordered guards in front of each. Inside the
plumbing sit a dozen small algorithms over graphs, tries, chains and tables. This
project states each of them in Dafny, with the branches, limits and orders the
code has, and proves what the algorithm is for.

Expressions and declarations of the compiler are ids and small datatypes; what the
type checker says about them (what a name was declared by, whether a value is an
application) is data carried by the model. Code that updates objects in place is
classes and loops proved against functions on values; the properties are lemmas
about those functions.

What each group of modules covers:

- `Mounts`, `MountWays`, `MountReading`, `HelperSearch`, `Collecting`,
  `Applications`, `Paths`, `Placing`, `PlacingLaws`: the graph of mounts, installs
  and prefixes, the backtracking walk up it, and the routes placed at every
  address it gives.
- `Forest`, `ProcedureWalk`, `ProcedurePaths`, `ContextMemo`, `ProcedureChains`:
  which calls assemble trees of procedures, the walk that names each procedure,
  the memo of a chain's context, and the guards in front of a chain.
- `MiddlewareOrder`, `MiddlewareOrderLaws`, `MiddlewareTotalOrder`, `FiledTries`,
  `MiddlewareTrie`: the bucketed trie middleware is filed into, and the order it is walked out in.
- `WrapperChain`, `RouteKeys`, `RouteKeyLaws`: a handler's wrappers in the order
  they run, and routes keyed apart.
- `EnvironmentRead`, `EnvironmentMeaning`, `EnvironmentLaws`, `EnvironmentReach`,
  `Wildcards`, `ChannelName`, `ChannelNameLaws`, `Addresses`, `AddressLaws`: what the reader
  says of an expression against what the expression evaluates to in a run.
- `FlatNames`, `PathPatterns`, `FsSegments`, `FsRoutes`, `FsRouteLaws`,
  `RouteConfig`, `Claims`, `ClaimLaws`, `ClaimIds`, `ClaimOwners`: addresses spelled by files,
  patterns and nested configs, and competing claims settled.
- `Deliveries`, `DeliveryLaws`, `EventPatterns`, `SqlScan`: deliveries into a
  shared node, the events a pattern names, and the scanner of a statement.
- `Seqs`, `Text`, `Wrappers`: shared vocabulary.

Where the code does less than its own documentation says, the model follows the
code; a lemma gives an input where it shows, and another says exactly when the
documented property holds:

- A mount at an unread path is swallowed when the next mount is written on the
  chained call (`MountReading.UnreadMountSwallowed`, `NoAnswerIffWalkStops`).
- Two starting points spelled alike in two files are taken for one when guards
  are gathered (`ProcedureChains.SameSpellingCutsTrail`, `WholeTrailExactly`).
- An empty first key loses the separator after it
  (`ProcedurePaths.AddressIsJoinedKeys`, `EmptyKeyLosesSeparator`).
- Where a chain wraps a function, a function of the repository handed to one of
  its methods is named in the wrapped one's place and not listed
  (`WrapperChain.MiddlewareTakenForHandler`, `ReadAsItRuns`).
- The pair of a plain key and an API is joined with a blank, so two pairs can be
  spelled alike (`RouteKeyLaws.BlankTellsListenersApart`, `KeysAsMeant`).
- A rest element, a quoted name or a computed one in a destructuring names a
  variable that is not the one taken, and a property or a destructured name is
  followed even where it can be assigned to (`EnvironmentLaws.AssignedSince`,
  `NamedVariableDecides`).
- An id that holds `#` can be spelled like a page's or a layout's (`ClaimIds.MarkedIdsCollide`,
  `IdsDistinctExactly`).
- A consumer's plain reference forgets that it is plain when the consumer's run
  hands on to the same name (`DeliveryLaws.ConsumerForgetsPlain`,
  `OtherNodesKeepPlainExactly`).

## Model

| member | source | states |
|---|---|---|
| MountWays.OneContextPerWay | packages/adapters-entry/src/call-routes.ts:966-1092 | the walk answers nothing exactly when something is to blame (a node that names nothing, an unread path or prefix, a cycle), and otherwise with one context for each way up, in order, every way and each once: two mounts on one parent are two ways |
| MountWays.OneContextPerDeclWay | packages/adapters-entry/src/call-routes.ts:1040-1092 | the same of a declaration, whose ways are its own bases crossed with every way above each mount |
| Mounts.Graph.EnteringShrinks | packages/adapters-entry/src/call-routes.ts:1040-1050 | each declaration entered leaves fewer to enter, which is what ends the recursion |
| MountReading.ContextReads | packages/adapters-entry/src/call-routes.ts:1071-1092 | a context's prefix reads as the paths of its way, outermost first, and its guards are, level by level from outside, what each application passed had installed before it was left |
| MountReading.PositionsExactly | packages/adapters-entry/src/call-routes.ts:926-933 | the installs in front of a site are exactly those written in its own file before it |
| MountReading.BeforeInOrder | packages/adapters-entry/src/call-routes.ts:926-933 | they stand in the order written, each rebased under the prefix |
| MountReading.WalkTakesAnswer | packages/adapters-entry/src/call-routes.ts:1040-1092 | one mount above at an unread path, or a cycle of mounts between named declarations, takes the whole answer away, however far up |
| MountReading.NoAnswerIffWalkStops | packages/adapters-entry/src/call-routes.ts:966-1092 | where every mount is written on a name, on an application made in place (given to a name or not, calls and all) or on any call of a name that answers with an application, short of a prefix whose path is not read, an address cannot be told exactly when some walk up by names comes to an unread path, a cycle, or something that names nothing; a call of a name swallows what lies above it |
| MountReading.UnreadMountSwallowed | packages/adapters-entry/src/call-routes.ts:966-1030 | a graph so written where an application hangs at an unread path and what is mounted on a chained call of it is placed all the same |
| Paths.ScopeOf | packages/adapters-entry/src/call-routes.ts:651-672 | an install is global exactly when it covers every path |
| Paths.CoversBySegments | packages/adapters-entry/src/call-routes.ts:651-663 | a scope written as segments covers exactly the addresses that begin with all of them, the stars at its end cut: `/admin*` does not cover `/administrator` |
| Paths.JoinPathIsRooted | packages/adapters-entry/src/shared.ts:503-509 | a joined path is a slash and the segments of its pieces in the order given, and reads back as them |
| Paths.JoinPathNests | packages/adapters-entry/src/shared.ts:503-509 | joining is associative: a part joined beforehand reads as its pieces in its place |
| HelperSearch.NamesHelperIfAny | packages/adapters-entry/src/call-routes.ts:946-957 | searching each application once names a helper exactly when some application above is hung by one, and names one of those |
| Collecting.MountsRecordedInOrder | packages/adapters-entry/src/call-routes.ts:756-846 | after any calls a declaration's mounts are those written for it in the order met, listed exactly when some call hangs it; and while nothing is known to move an application no mount or prefix is recorded |
| ApplicationState.Applications.Collect | packages/adapters-entry/src/call-routes.ts:756-772 | the maps change by exactly what the call records |
| ApplicationState.Applications.CollectMount | packages/adapters-entry/src/call-routes.ts:775-846 | what is hung, on what, and whether the call was a mount at all, for each way a mount is written |
| Collecting.InstallsRecordedInOrder | packages/adapters-entry/src/call-routes.ts:895-920 | after any calls a declaration's installs are those its install calls write, in the order met; none comes of a call taken as a mount or of a prefix |
| Collecting.InstallsWrittenExactly | packages/adapters-entry/src/call-routes.ts:895-920 | an install is listed exactly when some call writes it |
| Collecting.LastPrefixWins | packages/adapters-entry/src/call-routes.ts:756-769 | a declaration is moved exactly when a prefix call on it says so, and the last such call wins |
| ApplicationState.Applications.ContextsOf | packages/adapters-entry/src/call-routes.ts:966-1030 | the walk over one shared set gives the answer of the value-level walk and leaves the set as it was on entry |
| ApplicationState.Applications.OfDeclaration | packages/adapters-entry/src/call-routes.ts:1040-1050 | the same of a declaration, whichever way it returns |
| ApplicationState.Applications.BasesOf | packages/adapters-entry/src/call-routes.ts:1052-1092 | a declaration's bases crossed with the contexts above each of its mounts, the set restored |
| ApplicationState.Applications.HelperAbove | packages/adapters-entry/src/call-routes.ts:946-957 | the helper found and the applications visited to find it, the set kept |
| ApplicationState.Applications.AppOwner | packages/adapters-entry/src/call-routes.ts:610-630 | the declaration a chain of calls belongs to, as far back as it is followed |
| PlacingLaws.PlacedAlongEveryWay | packages/adapters-entry/src/call-routes.ts:1478-1560 | a route call is a way in exactly along every way its application is reached, at each path, for each verb: at the mounts' paths joined outermost first and behind every install above and before it that covers the address, outermost first |
| PlacingLaws.UnreachedIsAtTheRoot | packages/adapters-entry/src/call-routes.ts:1476-1500 | an application nothing reaches is placed at the root where no call moves one, and nowhere otherwise |
| PlacingLaws.FirstOfEachId | packages/adapters-entry/src/call-routes.ts:1556-1562 | what is drawn is the first way in of every id there is, each id once |
| PlacingLaws.CoveringExactly | packages/adapters-entry/src/call-routes.ts:1523-1527 | of what stands in front exactly what covers the address is named, and installs on the whole application always are |
| Placing.PlaceRoutes | packages/adapters-entry/src/call-routes.ts:1466-1562 | the loop draws the first of each id over all calls in order, and says every call whose application is reached nowhere |
| Forests.TreesAreLeast | packages/adapters-entry/src/procedure-routers.ts:471-510 | the candidates an ending can be reached from through members are the least set closed under: holds an ending, holds a tree |
| Forests.Forest.Settle | packages/adapters-entry/src/procedure-routers.ts:471-510 | settling confirms exactly those candidates, each once, and marks exactly the trees another tree holds, whatever order candidates were added in |
| Forests.Forest.Roots | packages/adapters-entry/src/procedure-routers.ts:513-516 | the roots are the trees no tree holds |
| ProcedurePaths.EmitsEveryKeyPath | packages/adapters-entry/src/procedure-routers.ts:814-914 | the procedures emitted are exactly those some path of keys names, from a root through trees none of which comes twice to an ending, each once |
| ProcedurePaths.AddressIsJoinedKeys | packages/adapters-entry/src/procedure-routers.ts:871-900 | an address is its keys joined by the separator, unless there are several keys, the first is empty and the separator is not |
| ProcedurePaths.EmptyKeyLosesSeparator | packages/adapters-entry/src/procedure-routers.ts:871-900 | a way in under an empty key, whose address lacks the separator its keys are joined with |
| ProcedureWalk.EmittedOnce | packages/adapters-entry/src/procedure-routers.ts:814-822 | each kind and address visited as an ending is emitted once |
| ProcedureWalk.EveryVisitAccounted | packages/adapters-entry/src/procedure-routers.ts:871-914 | every member visited is emitted, emitted already, under a key not read, a nested tree, a cycle cut, or an unread row: one of them, once |
| ProcedureWalk.Reader.WalkRoots | packages/adapters-entry/src/procedure-routers.ts:871-914 | the walk's list, set and counters are those of the visits from every root in turn; it ends on cyclic forests |
| ContextMemo.Contexts.ContextWrittenFor | packages/adapters-entry/src/procedure-routers.ts:591-629 | over any queries sharing the memo an answer is the one and only the unbounded walk finds; where every walk ends within the bound, so is no answer |
| ContextMemo.EndedStays | packages/adapters-entry/src/procedure-routers.ts:574-629 | a walk that has ended within some steps ends the same within more |
| ProcedureChains.ChainRebuilds | packages/adapters-entry/src/procedure-routers.ts:124-143 | a chain is its base with its links called on it in order |
| ProcedureChains.ChainComesApartOneWay | packages/adapters-entry/src/procedure-routers.ts:124-143 | calling links on a base and taking the chain apart gives them back |
| ProcedureChains.ChainOf | packages/adapters-entry/src/procedure-routers.ts:124-143 | the loop finds those links, in source order, and that base |
| ProcedureChains.GuardsFollowTrail | packages/adapters-entry/src/procedure-routers.ts:150-166 | the guards in front of a chain are those of its trail of starting points, the far ones first, as far as no spelling comes twice |
| ProcedureChains.WholeTrailExactly | packages/adapters-entry/src/procedure-routers.ts:150-166 | of a trail to its end, nothing is missed exactly when nothing is installed from the first spelling on that it comes to twice |
| ProcedureChains.DistinctSpellingsSuffice | packages/adapters-entry/src/procedure-routers.ts:150-166 | in particular when no two starting points are spelled alike |
| ProcedureChains.SameSpellingCutsTrail | packages/adapters-entry/src/procedure-routers.ts:150-166 | a trail of distinct starting points, two spelled alike, whose last guards are not found |
| MiddlewareOrderLaws.OrderRearranges | packages/adapters-entry/src/medusa-routes.ts:240-270 | the order is a rearrangement of the list |
| MiddlewareOrderLaws.AheadRunsBefore | packages/adapters-entry/src/medusa-routes.ts:240-270 | the order is lexicographic: whatever has the earlier bucket at the first place two patterns part runs before, wherever it is written |
| MiddlewareTotalOrder.RunsBeforeExactly | packages/adapters-entry/src/medusa-routes.ts:240-270 | of any two entries one runs before the other exactly when it leads: by bucket, filed before below, by the next bucket, and between sibling branches and within one by what was written first |
| MiddlewareTotalOrder.OneLeads | packages/adapters-entry/src/medusa-routes.ts:240-270 | of any two entries one leads, so the order is settled whole |
| MiddlewareOrderLaws.FirstBucketNeverGoesBack | packages/adapters-entry/src/medusa-routes.ts:205-270 | along the order the bucket of the first segment never goes back |
| MiddlewareOrderLaws.PatternBeforeItsExtensions | packages/adapters-entry/src/medusa-routes.ts:220-270 | a pattern runs before every longer one extending it, if both name verbs or neither does |
| MiddlewareOrderLaws.SamePatternKeepsOrder | packages/adapters-entry/src/medusa-routes.ts:240-270 | entries of one pattern, all naming verbs or none, keep the order written |
| FiledTries.FiledHolds | packages/adapters-entry/src/medusa-routes.ts:243-258 | filing an entry makes a branch that holds a list hold the list with the entry at its end |
| MiddlewareTrie.Branch.File | packages/adapters-entry/src/medusa-routes.ts:243-258 | a mutable tree that shows a value shows, once an entry is filed, the value with the entry filed, and nothing outside it is touched |
| MiddlewareTrie.InFrameworkOrder | packages/adapters-entry/src/medusa-routes.ts:240-270 | the tree built and walked gives the order stated on lists |
| WrapperChain.UnwrapChain | packages/adapters-entry/src/deployed-functions.ts:193-260 | the loop gives the function and the wrapping of the recursive reading |
| WrapperChain.ReadAsItRuns | packages/adapters-entry/src/deployed-functions.ts:193-260 | a chain of at most sixteen calls is read as an interpreter runs it, the function it wraps behind everything in run order, exactly when no method is handed a function |
| WrapperChain.EngineWrapsNone | packages/adapters-entry/src/deployed-functions.ts:189-252 | a chain around no function: the one function its methods are handed is named, behind everything else in run order; handed none, it names none and lists the whole run |
| WrapperChain.HandedIsNamed | packages/adapters-entry/src/deployed-functions.ts:212-240 | any chain that hands functions to methods is read as one of those, behind everything else that runs, in order |
| WrapperChain.LastCallNames | packages/adapters-entry/src/deployed-functions.ts:189-231 | a last call handed just the function names it, and adds nothing in front of it |
| WrapperChain.MiddlewareTakenForHandler | packages/adapters-entry/src/deployed-functions.ts:212-231 | an engine around a function, and middleware that is a function too: the middleware is named, and nothing is listed |
| WrapperChain.ReadsTheRun | packages/adapters-entry/src/deployed-functions.ts:221-252 | the same from any call on, whatever is already gathered of its chain |
| RouteKeys.GroupBy | packages/adapters-entry/src/deployed-functions.ts:509-516 | the groups are the items of each key in the order they came, each key once |
| RouteKeys.SharedOf | packages/adapters-entry/src/deployed-functions.ts:532-546 | the two sets filled hold exactly the plain keys several APIs serve, and the pairs spelled like one with listeners to keep apart |
| RouteKeys.RouteKeysOf | packages/adapters-entry/src/deployed-functions.ts:532-561 | each route's key follows from what is shared among all routes |
| RouteKeys.DrawRoutes | packages/adapters-entry/src/deployed-functions.ts:600-643 | the counter over nested loops hands each route its own key |
| RouteKeyLaws.SharedKeys | packages/adapters-entry/src/deployed-functions.ts:532-561 | two routes kept apart at one method and path share a key exactly when one API serves both and, where its listeners are kept apart, one listener does |
| RouteKeyLaws.DifferentApisNeverShare | packages/adapters-entry/src/deployed-functions.ts:521-531 | two APIs at one method and path never share a key |
| RouteKeyLaws.DifferentListenersNeverShare | packages/adapters-entry/src/deployed-functions.ts:521-531 | two listeners of one API never share one where it sends the method and path to several targets |
| RouteKeyLaws.PlainKept | packages/adapters-entry/src/deployed-functions.ts:547-561 | a route keeps the plain key exactly when one API serves it and no listener tells it apart |
| RouteKeyLaws.OneApiOneListenerKeepsPlain | packages/adapters-entry/src/deployed-functions.ts:521-531 | with no blank in any plain key, one API through one listener or to one target keeps the key it always had |
| RouteKeyLaws.KeysAsMeant | packages/adapters-entry/src/deployed-functions.ts:519-561 | a route gets the key its own pair calls for unless it names a listener and its pair, not to be kept apart, is spelled like one that is |
| RouteKeyLaws.BlankTellsListenersApart | packages/adapters-entry/src/deployed-functions.ts:519-561 | four routes where two listeners sending a path to one target are told apart for another API's sake |
| RouteKeyLaws.SpellingTellsApart | packages/core/src/ids.ts:279-294 | the way keys are spelled tells apart any APIs whose names hold no `@` |
| RouteKeyLaws.KeysIgnoreOrder | packages/adapters-entry/src/deployed-functions.ts:532-561 | a key depends on which routes there are, not on their order or number |
| RouteKeyLaws.PermutingRoutesPermutesKeys | packages/adapters-entry/src/deployed-functions.ts:532-561 | permuting the routes permutes the keys |
| EnvironmentRead.EnvironmentReadOf | packages/adapters-broker/src/environment.ts:111-134 | the loops, sharing one list of fallbacks, give the recursive reading |
| EnvironmentRead.Unwrapped | packages/adapters-broker/src/environment.ts:15-41 | an expression without its wrappers, and the fallbacks met added to those before |
| EnvironmentRead.DestructuredVariable | packages/adapters-broker/src/environment.ts:47-58 | the variable a binding element is spelled as taking, its default added only then |
| EnvironmentLaws.RightExactlyWhenReliable | packages/adapters-broker/src/environment.ts:15-134 | an expression a variable was found behind is the variable's value after every fallback found, in every run the language allows, exactly when nothing read through can be assigned to and a destructuring at the end names the property it takes |
| EnvironmentLaws.NamedVariableDecides | packages/adapters-broker/src/environment.ts:47-134 | and exactly then the named variable decides in every such run where it is set to some text |
| EnvironmentLaws.SetVariableDecides | packages/adapters-broker/src/environment.ts:89-110 | of such a read: where the variable is set, not to the empty string behind an or, the expression is its value |
| EnvironmentLaws.OtherwiseStandsIn | packages/adapters-broker/src/environment.ts:76-88 | of such a read: where it is unset the expression is the value of what the reading says is used otherwise |
| EnvironmentLaws.EmptyVariable | packages/adapters-broker/src/environment.ts:29-38 | of such a read: set to the empty string, the one fallback stands in exactly when an or put it there |
| EnvironmentLaws.AssignedSince | packages/adapters-broker/src/environment.ts:66-73 | of a record that can be assigned to, a run whose value is not the variable named; of one that cannot, there is none |
| EnvironmentReach.FoundExactly | packages/adapters-broker/src/environment.ts:111-134 | the reader answers exactly the reads of a variable, however written, within its limits on wrappers and bindings |
| ChannelNames.ResolveTemplate | packages/adapters-broker/src/channel-name.ts:215-247 | the loop that multiplies names or gives them up resolves the template as stated on values |
| ChannelNames.NamesWithinCap | packages/adapters-broker/src/channel-name.ts:224-238 | names are listed exactly while no product of counts along the template passes the cap, and then there are that many |
| ChannelNames.CountableByProduct | packages/adapters-broker/src/channel-name.ts:224-238 | where every hole can hold something the product of all the counts decides alone |
| ChannelNameLaws.EveryStringIsNamed | packages/adapters-broker/src/channel-name.ts:122-247 | every string the template can be, unread holes holding anything, matches one of the names read with stars |
| ChannelNameLaws.NameCoversNames | packages/adapters-broker/src/channel-name.ts:239-247 | what a template is called, read with stars, covers each of its names |
| ChannelNameLaws.NamesAreFew | packages/adapters-broker/src/channel-name.ts:239-247 | the names are distinct and never more than the cap |
| ChannelNameLaws.StarlessNameIsTaken | packages/adapters-broker/src/channel-name.ts:215-247 | a name with no star is what the template is in some run |
| ChannelNameLaws.LiteralNamesAreAll | packages/adapters-broker/src/channel-name.ts:239-247 | a template read as a literal can be exactly its names |
| Wildcards.MatchesTogether | packages/adapters-broker/src/channel-name.ts:133-147 | texts matching two patterns match the patterns put together |
| Addresses.JoinParts | packages/adapters-broker/src/address.ts:173-193 | the loop joins the parts, refuses past the cap, or hands on the first refusal |
| Addresses.AwaitingOf | packages/adapters-broker/src/address.ts:203-228 | what is awaited is listed exactly when only variables are missing and every other part is one name |
| AddressLaws.FirstReadableWins | packages/adapters-broker/src/address.ts:134-162 | the first place that reads as a name answers, and where none does the first place's refusal |
| AddressLaws.WrittenExactly | packages/adapters-broker/src/address.ts:129-158 | what is written at an element, a single place standing for every one |
| AddressLaws.JoinedIsEveryCombination | packages/adapters-broker/src/address.ts:164-193 | two or more parts join into every combination of their names, each once, or are refused, and are refused exactly when the product of counts passes the cap |
| AddressLaws.JoinedCovers | packages/adapters-broker/src/address.ts:173-193 | where each part's name covers its names, the joined name covers the joined names |
| AddressLaws.CompletedIsWhatWouldBeRead | packages/linker/src/environment-link.ts:110-143 | an awaited address, of one part or several, completed with a function's settings is the name the address would have read as with them in the code, and completes exactly when that reads |
| AddressLaws.CollapsedReachesEveryElement | packages/adapters-broker/src/address.ts:315-388 | folded into one answer an address reaches exactly the names of its elements, and is refused exactly when none reaches any |
| FlatNames.WrittenReadsBack | packages/adapters-entry/src/fs-routes.ts:266-272 | any segments written with dots between, parts of them in brackets, read back as what they mean |
| FlatNames.BracketedReadsBack | packages/adapters-entry/src/fs-routes.ts:266-272 | any segments free of a closing bracket, each in brackets, read back as themselves |
| PathPatterns.CoversWhatItSays | packages/adapters-entry/src/fs-routes.ts:582-600 | a compiled pattern accepts a path exactly when the path is made, slash by slash, of texts its segments stand for |
| PathPatterns.StarlessCovers | packages/adapters-entry/src/fs-routes.ts:582-600 | without a star both have equally many segments, each literal equal and each parameter non-empty: a parameter never crosses a slash |
| FsSegments.GroupOrSlotAddsNothing | packages/adapters-entry/src/fs-routes.ts:189-196 | a group or slot a router honours adds nothing to the address and opts nothing out |
| FsSegments.UnclaimedIsItself | packages/adapters-entry/src/fs-routes.ts:255-264 | a segment none of the router's conventions claims is itself |
| FsSegments.ReadingIsWhole | packages/adapters-entry/src/fs-routes.ts:110-264 | however a segment is read, escapes and names included, it stays one segment |
| FsSegments.BracketIsParam | packages/adapters-entry/src/fs-routes.ts:201-205 | `[id]` is a parameter and `[[id]]` one that may be absent, named up to a matcher, whatever else the router honours |
| FsSegments.DotsAreRest | packages/adapters-entry/src/fs-routes.ts:196-200 | `[...rest]` is the rest of the path, named up to a matcher |
| FsSegments.BracketAfterLiteral | packages/adapters-entry/src/fs-routes.ts:222-238 | `foo-[id]` keeps the literal around the parameter |
| FsSegments.DollarIsParam | packages/adapters-entry/src/fs-routes.ts:214-221 | `$id` is a parameter and `$` the rest of the path |
| FsSegments.TrailingUnderscore | packages/adapters-entry/src/fs-routes.ts:206-213 | of any segment a trailing underscore leaves the rest to the conventions after that one |
| FsRoutes.ReadFsFile | packages/adapters-entry/src/fs-routes.ts:392-428 | the loops read a file as stated on its parts |
| FsRoutes.FsApplicationMap | packages/adapters-entry/src/fs-routes.ts:491-502 | the map holds exactly the applications some router serves some file in |
| FsRouteLaws.PrivateIsNotServed | packages/adapters-entry/src/fs-routes.ts:372-390 | a file a directory router would serve is out of service exactly when something below the root starts with an underscore the router honours |
| FsRouteLaws.GroupAfterRootAddsNothing | packages/adapters-entry/src/fs-routes.ts:372-428 | an honoured group or slot put anywhere between the root and the file leaves the whole reading as it was |
| FsRouteLaws.DirectoriesBeforeRootKeepAddress | packages/adapters-entry/src/fs-routes.ts:392-428 | directories in front of the root's first match leave the address as it was, where they make no earlier match |
| FsRouteLaws.ForeignDirectoriesKeepAddress | packages/adapters-entry/src/fs-routes.ts:392-428 | and they make none when none of them is a part of the root |
| FsRouteLaws.SourceIsNoApplication | packages/adapters-entry/src/fs-routes.ts:325-335 | a file under `src` is of the application beside it exactly when that is not called `src` itself |
| FsRouteLaws.RawPathReadsBack | packages/adapters-entry/src/fs-routes.ts:411-426 | the path as written reads back as the prefix and what each segment contributes |
| RouteConfig.FlatteningKeepsMeaning | packages/adapters-entry/src/route-config.ts:107-178 | the flat table holds a module at an address exactly when the nested config says so, as far down as it is followed: layouts and indexes add no segment, prefixes stand in front of all they hold |
| RouteConfig.OnlyRootedAddresses | packages/adapters-entry/src/route-config.ts:143-178 | and no address but rooted ones |
| RouteConfig.WithinDepthNothingIsLost | packages/adapters-entry/src/route-config.ts:136-178 | a config nested within the depth followed is flattened whole |
| RouteConfig.UnderAssociates | packages/adapters-entry/src/route-config.ts:73-76 | joining under a parent is associative |
| Claims.FsEntries.Add | packages/adapters-entry/src/described-fs-routes.ts:177-218 | one more claim is kept unless its file claims the address already |
| Claims.FsEntries.Entries | packages/adapters-entry/src/described-fs-routes.ts:219-220 | every address claimed is settled, in the order first claimed |
| Claims.Settle | packages/adapters-entry/src/described-fs-routes.ts:122-147 | what is drawn and what is said of the claims at one address |
| ClaimLaws.AllAccounted | packages/adapters-entry/src/described-fs-routes.ts:115-147 | after any claims each one kept is drawn or said, once, and nothing else is |
| ClaimLaws.KeptExactly | packages/adapters-entry/src/described-fs-routes.ts:187-190 | a claim is kept exactly when its file claimed the address by none before it |
| ClaimIds.IdsDistinctExactly | packages/adapters-entry/src/described-fs-routes.ts:108-147 | no two entries have the same id exactly when no address claimed is another's followed by `#page`, or by `#layout:` and the start of a file's name, with claims on both that draw the one id |
| ClaimIds.SettledIdsDistinct | packages/adapters-entry/src/described-fs-routes.ts:108-147 | so where no id claimed holds `#` |
| ClaimIds.MarkedIdsCollide | packages/adapters-entry/src/described-fs-routes.ts:108-147 | three claims, a page beside a verb and a verb of an address spelled like the page's, that share an id |
| ClaimOwners.BareIdIsTheOwners | packages/adapters-entry/src/described-fs-routes.ts:129-146 | a claim is drawn at its bare id exactly when it is the first verb kept there, else the first page; never a layout |
| ClaimOwners.BareIdIsTheFirstClaims | packages/adapters-entry/src/described-fs-routes.ts:129-190 | of all the claims added, each file's of one kind as its name decides, the bare id is the first verb's, whatever came before it, else the first page's |
| ClaimOwners.AnyVerbOwns | packages/adapters-entry/src/described-fs-routes.ts:129-190 | a verb owns the bare id exactly when any verb claimed the address |
| ClaimOwners.KindsInAnyOrder | packages/adapters-entry/src/described-fs-routes.ts:122-190 | two runs of claims with the same verbs, pages and layouts, each kind in its own order, settle the same entries and say the same duplicates |
| Deliveries.Node.Draw | packages/adapters-entry/src/deployed-channels.ts:534-548 | one delivery changes its node by exactly the step stated on values |
| Deliveries.Node.RunAsEntry | packages/adapters-entry/src/deployed-channels.ts:508-522 | an entry runs a function only when it runs none and the function can be run |
| Deliveries.Node.ReachByName | packages/adapters-entry/src/deployed-channels.ts:399-412 | what a reference adds to the shared list and to what is recorded |
| DeliveryLaws.RunsTheFirst | packages/adapters-entry/src/deployed-channels.ts:508-548 | an entry runs a function exactly when some delivery may be run, and then the first such delivery's |
| DeliveryLaws.RunsAtMostOne | packages/adapters-entry/src/deployed-channels.ts:508-548 | over any run of deliveries what a node runs changes at most once, and then at an entry, by a delivery of its own on every message |
| DeliveryLaws.OutcomeRecordedExactly | packages/adapters-entry/src/deployed-channels.ts:391-412 | over any run of deliveries into an entry an outcome is recorded for a name exactly when it was reached and never plainly so far, and it is the last one's |
| DeliveryLaws.OtherNodesKeepTheLast | packages/adapters-entry/src/deployed-channels.ts:372-412 | of any other node it is recorded exactly when the last delivery to reach the name carries one |
| DeliveryLaws.OtherNodesKeepPlainExactly | packages/adapters-entry/src/deployed-channels.ts:391-412 | so what holds of an entry holds of another node exactly when it is not so that some delivery reached the name plainly and the last one did not |
| DeliveryLaws.ConsumerForgetsPlain | packages/adapters-entry/src/deployed-channels.ts:391-412 | a consumer that reached a name plainly and claims an outcome for it |
| DeliveryLaws.DrawnInOrder | packages/adapters-entry/src/deployed-channels.ts:534-562 | a node's references and edges are those its deliveries are drawn as, in order |
| DeliveryLaws.EveryFunctionDrawnOnce | packages/adapters-entry/src/deployed-channels.ts:534-548 | every function delivery is run, a reference or an edge, once, but for a function the deployment does not create |
| EventPatterns.NamedAreTaken | packages/adapters-entry/src/deployed-channels.ts:141-150 | a pattern that names its events takes those and no other |
| EventPatterns.NamedOnceWithinCap | packages/adapters-entry/src/deployed-channels.ts:141-150 | it names each once, and never more than the cap |
| SqlScan.BeforeOpenParenthesis | packages/adapters-db/src/sql.ts:81-98 | the scanner returns a text exactly when the statement is that text outside quotes, an open parenthesis, and text balanced outside quotes; and its quoted flag is the parity of quotes |
| SqlScan.OpenStands | packages/adapters-db/src/sql.ts:85-98 | each parenthesis on the stack stands outside quotes with as many open after it as stand above it |
| SqlScan.OpenUnder | packages/adapters-db/src/sql.ts:85-98 | a parenthesis opened outside quotes stays open under whatever is open in what follows |
| SqlScan.IsValuePosition | packages/adapters-db/src/sql.ts:112-118 | a hole is a value's exactly inside quotes, after such words, or as an item of a list they open |

## Left out

- The type checker: what a name or property was declared by, what type a value has and whether it is an application are data of the model.
- Graph-builder writes, labels, hints, line numbers and the words of every row; rows are counted where conservation needs them.
- The description tables of frameworks, taken as parameters, and the regular expressions of the SQL reader and of value positions, taken as predicates.
- File-system access, the reading of Terraform and of package manifests, and the order `sort` gives application names.
- A local variable called `process` is not told from the global one; the environment is any expression spelled `process.env`.
- How a normalised path is spelled, which `fs-routes.ts` hands its address to, is a parameter.
- An escape in a segment that names half of a surrogate pair, and file names that hold a line break.
- Which spelling of an entry key `makeEntryId` and `makeHttpEntryKey` give is a parameter; the refusal of an empty API or listener name is not modelled.
- FiledTries.FiledHolds: children of a branch are kept in one map by bucket and segment rather than in one map a bucket, which holds the same branches.
- MiddlewareTrie.Branch.File: filing recurses along the segments where the code loops over them.
- FsRouteLaws.DirectoriesBeforeRootKeepAddress: requires that no earlier match of the root comes of the directories, which `ForeignDirectoriesKeepAddress` gives a check for.
- MountReading.NoAnswerIffWalkStops: leaves out graphs with a mount written on an unread prefix, on a call that answers with no application, or on a call of one name that is given to another; `MountWays.OneContextPerWay` says of every graph when there is no answer.
- ClaimOwners.BareIdIsTheFirstClaims: takes every file's claims to be of one kind, as both callers of the collector make them.
- Deliveries.Node.ReachByName: of a node that is no entry the final removal of repeated references is not modelled.
- WrapperChain.ReadAsItRuns: the call the reading stopped at, and the list of wrappers passed through, are reported and not modelled.
- Deliveries to channels, queues, topics and buses draw nothing on the node itself and are steps that change nothing here.
- Shaping of channel names by a transport, and every other branch of `resolveChannelName` than the template's.
