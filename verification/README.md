# Verified model of xgo

xgo is a collection of Go packages for network services.  This project models the packages whose
logic is worth proving, and proves what their callers rely on:

- **Routing** (`go-xrouter/tree.go`): a compressed tree of URL patterns with `:name` and `*name`
  wildcards that is changed while it serves.  `RoutePatterns` says what a pattern is, when two
  conflict and what one matches, without any tree; `RouteSegments` restates that segment by segment.
  `RouteTree` is the tree's algorithm on values and `RouteNodes` the same on nodes that are
  overwritten in place.  `RouteShape` is the invariant of the canonical tree; `RouteAdd`,
  `RouteConflicts`, `RouteRemove`, `RouteGet`, `RouteAdvice` and `RouteStray` prove the operations,
  `RouteHistory` that a tree is determined by what is registered, and `RouteRuns` puts them together
  over whole runs.  `RouteAccepts` says which strings are accepted that are no patterns, and
  `RouteLoose` what holds of every tree, whatever it was made of.  `RouteCounts` and `RouteSyntax` are
  about the bookkeeping fields and the syntax checks,
  `RouteExamples` shows inputs on which the code does less than it promises, and `Router` is the
  object that callers use.
- **Keyword filter** (`go-xkwfilter`): the automaton of the keywords and the streaming rewrite.
  `Keywords` says which positions of a text are covered, and which keyword sets are served exactly;
  `KeywordTrie` and `KeywordLinks` are about the tables, `KeywordStream` about one step of the loop,
  `KeywordOutcome` about whole runs, and `KeywordFilter` is the object.
- **Scheduler** (`go-xsched`): weighted round robin.  `RoundRobin` is the walk on values, `Weights`
  and `AddressTable` are the arithmetic and the table behind it, `SchedulerUnits` and `Scheduler` the
  objects.
- **Path cleaning** (`go-xrouter/path.go`): `CleanPath`, with the resolution of elements it equals in
  `PathElements`; `PathRules` are the documented rules, which leave no choice.
- **Connection pool** (`go-xconnpool`): `PoolProtocol` interleaves single steps of all operations;
  `ConnPool` has the objects, whose operations are runs of those steps.
- **Log rotation** (`go-xlog`): `LogRetention` and `Logger`; `ReadableConfig` is the readable form of
  sizes and ages.
- **Cache** (`go-xcache`): `ExpiringCache` on values, `ShardedCache` as objects.

`dafny verify dfyconfig.toml` checks everything.

## What the code does not do

These are the places where the code falls short of its documentation, each with a concrete input and
with the exact condition under which it does not:

- `add` overlooks a conflict when the parameter name in the tree is a proper prefix of the new one
  (`RouteExamples.LongerNameAccepted`; exactly then: `RouteRuns.AddAgreesIff`).
- `add` accepts strings that are no patterns (`RouteExamples.WildcardInSegment`,
  `RouteExamples.WildcardBehindName`), and can drop what they go on with behind a name
  (`RouteExamples.RestDropped`).  For every string on any canonical tree, which are accepted and what is
  registered for them: `RouteRuns.AddRefinesTable`, and at every node `RouteAccepts.AddAnswers`.  It is
  accepted exactly if it is not registered, clashes with no registered pattern, and what goes on behind
  its longest agreement with them is well named or drops out behind a name.
- `addSlash` can be advised although the request with a slash is not matched
  (`RouteExamples.AddSlashAdviceUnsound`; exactly when: `RouteRuns.AddSlashIff`).
- `get` can answer a request with an empty segment that no pattern matches; for every such request
  there is a pattern that shows it (`RouteCounts.CleanIsNecessary`), and for all others none
  (`RouteRuns.GetRefinesTable`).
- `Handle` is documented to match "/files/" with `/files/*filepath`, to give the value a '/' in front, and
  to redirect "/files" (lines 263 to 269 of `go-xrouter/xrouter.go`).  None of the three holds
  (`RouteExamples.CatchAllAlone`, `RouteExamples.CatchAllServes`): a '*name' needs something behind the
  slash, the value is what stands there, and nothing is advised.
- The filter misses a keyword that ends inside the beginning of another one
  (`KeywordExamples.InnerKeywordHidden`; exactly: `KeywordOutcome.ExactIffClosed`), and one that its
  failure links skip, because the search for the link of a sibling goes on from where that of the
  previous one ended (`KeywordExamples.ForkDropsKeyword`; exactly: `KeywordOutcome.ExactIff`).
- `New` of the scheduler keeps the maximum of an entry that a later one of the same address has
  overwritten, and then its first call passes all units over (`Scheduler.OverwrittenHeaviest`;
  exactly: `Scheduler.NewEndsIff`).
- Printing a size, parsing it and printing it again can lose more than one percent
  (`ReadableConfig.SecondPrintLoses`; exactly: `ReadableConfig.SecondPrintIff`).
- The cache takes an expiration at the instant zero for none (`ExpiringCache.NeverExpires`; otherwise
  elements expire as they should: `ExpiringCache.GetAnswers`).
- `CleanPath` is not section 5.2.4 of RFC 3986: it drops empty elements, keeps a last slash only of
  paths longer than two bytes, and `/abc/def/..` gives `/abc`.

## Model

| member | source | states |
|---|---|---|
| `RouteRuns.AddRefinesTable` | go-xrouter/tree.go:101-166 | For every string that starts with '/', pattern or not, on a canonical tree that holds a table: `add` succeeds exactly if the string is not registered, clashes with no registered pattern at the end of their agreement, and is well named behind its longest agreement or cut off behind a name; it then registers exactly that literal, which is new and with which the string begins, and the tree stays canonical exactly as the table says. A refused `add` returns the very tree it was given. |
| `RouteRuns.AddAgreesIff` | go-xrouter/tree.go:139-158 | `add` agrees with the table exactly when no registered pattern has, at the first differing segment, a parameter name that is a proper prefix of the new one. |
| `RouteRuns.PatternAcceptedIff` | go-xrouter/tree.go:139-158 | For a pattern, that acceptance means: it is unregistered and without conflict, or has an overlooked conflict. |
| `RouteRuns.PatternIsLiteral` | go-xrouter/tree.go:101-166 | An accepted pattern without an overlooked conflict is registered as it is. |
| `RouteRuns.RefusalRollsBack` | go-xrouter/tree.go:114-165 | A refused `add` of any string that starts with '/', well-formed or not, leaves the tree unchanged through nested splits, descents and combines. |
| `RouteRuns.RemoveRefinesTable` | go-xrouter/tree.go:172-211 | `remove` succeeds exactly if that literal is registered, and then the tree holds the table without it, still in canonical form; otherwise nothing changes. |
| `RouteRuns.GetRefinesTable` | go-xrouter/tree.go:377-436 | On a clean request, `get` answers with the handle and the bindings, in order, of the registered pattern that matches, and has no handle if none matches. |
| `RouteRuns.RunRefinesTable` | go-xrouter/tree.go:101-227 | Any run of adds and removes during which the tree stays canonical, as the table says, is a run of a finite map from patterns to handles, and ends in a canonical tree that holds exactly the map; attempts of every kind that are refused may be among them. |
| `RouteRuns.AnyRunHolds` | go-xrouter/tree.go:101-227 | Every run whatsoever, on any tree: what the tree holds changes as a map does, an accepted string adding the literal that is registered for it. |
| `RouteRuns.StepHolds` | go-xrouter/tree.go:101-227 | In such a run an accepted string adds a literal that is new and with which it begins, a refused one changes nothing, and `remove` succeeds exactly for what is registered. |
| `RouteRuns.HistoryIndependence` | go-xrouter/tree.go:172-227 | Two runs that leave the same patterns registered end in the same tree, field for field: paths, kinds, indices, priorities, `maxParams`, handles and the order of children. |
| `RouteRuns.ConflictSymmetric` | go-xrouter/tree.go:230-241 | Conflict does not depend on which of two patterns was registered first. |
| `RouteRuns.CanonicalIsConflictFree` | go-xrouter/tree.go:101-166 | What a canonical tree holds, as after every run that keeps it canonical, are well-formed patterns that are pairwise free of conflicts. |
| `RouteRuns.MatchIsUnique` | go-xrouter/tree.go:230-241 | Two patterns without a conflict that match the same request are equal. |
| `RouteRuns.AtMostOneMatch` | go-xrouter/tree.go:377-436 | After any run, at most one registered pattern matches a request. |
| `RouteRuns.AdviceRefinesTable` | go-xrouter/tree.go:431-480 | On a clean request that nothing matches, `removeSlash` is returned exactly if the request without its last slash is matched, and `addSlash` together with a walk that has used up the request exactly if the request with a slash is matched. |
| `RouteRuns.AddSlashIff` | go-xrouter/tree.go:438-451 | `addSlash` read off the registered patterns: it is returned exactly if the request with a slash is matched, or if the request strays: a pattern ending in '/' is met by a proper beginning of the request, at a literal that branches or behind a ':name/' not registered without its slash, and no pattern goes on there as the request does. |
| `RouteStray.AddStray` | go-xrouter/tree.go:438-451 | For every subtree and rest of a request: advice to add a slash before the request is used up is given exactly where the rest strays from the patterns of the subtree. |
| `RouteSegments.MatchIsSegmentwise` | go-xrouter/tree.go:385-415 | The character-level match is the segment-by-segment one: literal segments are equal, ':name' takes one non-empty segment, '*name' the non-empty rest, with the same bindings. |
| `RouteSegments.ConflictIsSegmentwise` | go-xrouter/tree.go:230-241 | Two patterns conflict exactly if their first differing segments do: neither has ended there, and one of the two is a wildcard. |
| `RouteSyntax.ConstructIff` | go-xrouter/tree.go:272-327 | Nodes can be made for a string exactly if every wildcard in it has a name up to the next slash, non-empty and without wildcards, and a '*name' ends the string. |
| `RouteSyntax.FirstAddIff` | go-xrouter/tree.go:106-112 | An empty tree accepts exactly the non-empty strings whose wildcards are named, patterns or not. |
| `RouteAccepts.AddAnswers` | go-xrouter/tree.go:101-166 | At every node of a canonical tree and for every string that gets there: acceptance and the literal registered, read off what is registered below the node. |
| `RouteAccepts.CutAdds` | go-xrouter/tree.go:149-156 | A string that goes on behind a name registered only with a '/' registers the bare name, and the node stays canonical. |
| `RouteAccepts.HeldIsFree` | go-xrouter/tree.go:101-166 | Two literals held below a canonical node do not conflict. |
| `RouteLoose.AddLoose` | go-xrouter/tree.go:101-166 | On any tree that `add` and `remove` can make of any strings, an accepted `add` registers one literal that was not there, and changes no other; a refused one changes nothing. |
| `RouteLoose.RemoveLoose` | go-xrouter/tree.go:172-211 | On any such tree, `remove` succeeds exactly if that literal is registered, and then removes it and no other. |
| `RouteLoose.RegisteredBegins` | go-xrouter/tree.go:101-166 | What is registered is the string itself or a beginning of it. |
| `RouteRuns.AnswersHeld` | go-xrouter/tree.go:377-436 | Whatever the tree is made of, and whatever the request: a handle that is answered is that of a registered literal. |
| `RouteSyntax.PatternIsWellNamed` | go-xrouter/tree.go:272-327 | Every pattern of the model passes the syntax checks of `construct`. |
| `RouteCounts.PriorityCounts` | go-xrouter/tree.go:592-617 | The priority of the root is the number of registered patterns. |
| `RouteCounts.MaxParamsCounts` | go-xrouter/tree.go:620-641 | `maxParams` of the root is the largest number of wildcards of a registered pattern, and some pattern reaches it. |
| `RouteCounts.FitsIffModest` | go-xrouter/tree.go:259-266 | All counts of all nodes fit 8 and 32 bits exactly if every pattern has fewer than 256 wildcards and there are fewer than 2^32 patterns. |
| `RouteCounts.CleanIsNecessary` | go-xrouter/tree.go:390-413 | For every request that starts with '/' and is not clean there is a single pattern that does not match it and whose handle `get` nevertheless returns. |
| `RouteExamples.LongerNameAccepted` | go-xrouter/tree.go:139-142 | With "/:id" registered, "/:idx" is accepted although it conflicts. |
| `RouteExamples.AddSlashAdviceUnsound` | go-xrouter/tree.go:441-445 | With "/a/" and "/ab" registered, "/ac" is answered with `addSlash`, and "/ac/" is not matched. |
| `RouteExamples.WildcardInSegment` | go-xrouter/tree.go:312-320 | "/a:b" is accepted on an empty tree, although a wildcard there fills no segment. |
| `RouteExamples.WildcardBehindName` | go-xrouter/tree.go:139-142 | "/:a:b" is refused on an empty tree and accepted once "/:a" is registered. |
| `RouteExamples.RestDropped` | go-xrouter/tree.go:149-156 | With "/:id/x" registered, "/:id" followed by anything that does not begin with '/', such as "/:idx" or "/:id::", is accepted and registers "/:id". |
| `RouteExamples.OneTableTwoTrees` | go-xrouter/tree.go:139-166 | On trees that are not canonical, no condition on the table says what is accepted: two runs leave only "/:idx" registered, and of the two trees one refuses "/:idy" and the other accepts it. |
| `RouteExamples.CatchAllServes` | go-xrouter/xrouter.go:260-269 | A request that goes on behind the slash of a registered '*name' gets its handle, with what it goes on with as the value: no '/' in front. |
| `RouteExamples.CatchAllAlone` | go-xrouter/xrouter.go:260-269 | With a '*name' alone registered, neither the request that ends at its slash nor the one without that slash is answered, and no slash is advised. |
| `RouteAdd.ConstructCorrect` | go-xrouter/tree.go:272-327 | For a pattern, `construct` makes a canonical chain that holds exactly that pattern. |
| `RouteAdd.AddCorrect` | go-xrouter/tree.go:101-166 | At every node, a successful `add` keeps the invariant (labels, compression, distinct sorted children, both counts) and registers exactly the new literal. |
| `RouteAdd.SplitSlashAdds` | go-xrouter/tree.go:149-156 | Splitting the slash off ':name/' and joining it with its only child registers ':name' and keeps the canonical form. |
| `RouteConflicts.AcceptedIsNew` | go-xrouter/tree.go:114-165 | What is accepted was not registered and conflicts with nothing registered. |
| `RouteConflicts.RefusedConflicts` | go-xrouter/tree.go:114-165 | What is refused was registered or conflicts with something registered, which is named. |
| `RouteConflicts.OverlookedIsAccepted` | go-xrouter/tree.go:139-142 | Every overlooked conflict is accepted. |
| `RouteConflicts.RefusedUnchanged` | go-xrouter/tree.go:329-372 | At every node, a refused `add` restores the node: `combine` undoes `split`. |
| `RouteRemove.RemoveCorrect` | go-xrouter/tree.go:172-211 | At every node, `remove` removes exactly the literal, lowers the priority by one, and joins or drops nodes so that the form stays canonical. |
| `RouteRemove.ConcatName` | go-xrouter/tree.go:215-227 | A ':name' without handle takes over the leading slash of its only child without changing what is registered. |
| `RouteHistory.Unique` | go-xrouter/tree.go:215-227 | Two canonical subtrees that hold the same literals are equal. |
| `RouteGet.WalkFinds` | go-xrouter/tree.go:377-436 | A handle found by the walk is that of a registered pattern that matches, with its bindings. |
| `RouteGet.WalkMeetsMatch` | go-xrouter/tree.go:377-436 | A registered pattern that matches is found by the walk, with exactly its bindings. |
| `RouteAdvice.RemoveAdvice` | go-xrouter/tree.go:452-467 | Below any node, `removeSlash` is advised exactly if the rest without its slash is found. |
| `RouteAdvice.AddAdvice` | go-xrouter/tree.go:438-451 | Below any node, `addSlash` with the rest used up is advised exactly if the rest with a slash is found. |
| `RouteShape.ResortSorts` | go-xrouter/tree.go:495-511 | Sorting the children puts them in order of priority, then index. |
| `RouteShape.SortedUnique` | go-xrouter/tree.go:508-511 | Children with distinct indices have one sorted order only. |
| `RouteNodes.TreeNode.Add` | go-xrouter/tree.go:101-166 | In place, `add` turns the tree under the node into the functional `Add` of it, with the same result, and owns only old and fresh nodes. |
| `RouteNodes.TreeNode.Next` | go-xrouter/tree.go:230-269 | In place, `next` descends into the child or appends a new one as the functional `Next`. |
| `RouteNodes.TreeNode.Construct` | go-xrouter/tree.go:272-327 | In place, fills an empty node and the chain below it as the functional `Construct`. |
| `RouteNodes.TreeNode.Split` | go-xrouter/tree.go:329-346 | In place, cuts the node at an index as the functional `Split`. |
| `RouteNodes.TreeNode.Combine` | go-xrouter/tree.go:362-372 | In place, joins the node with its first child as the functional `Combine`. |
| `RouteNodes.TreeNode.Concat` | go-xrouter/tree.go:215-227 | In place, joins the node with its only child, or takes over its slash, as the functional `Concat`. |
| `RouteNodes.TreeNode.Remove` | go-xrouter/tree.go:172-211 | In place, `remove` turns the tree under the node into the functional `Remove` of it, with the same result and the same nodes. |
| `RouteNodes.TreeNode.LargestMaxParams` | go-xrouter/tree.go:348-359 | The loop finds the largest `maxParams` of the children. |
| `RouteNodes.TreeNode.Resort` | go-xrouter/tree.go:495-515 | In place, an insertion sort of the children objects equal to the functional one. |
| `RouteNodes.TreeNode.Get` | go-xrouter/tree.go:377-436 | The loop over nodes answers as the recursive walk, advice included; no redirect is advised when advice is off or a handle is found. |
| `RouteNodes.TreeNode.CanRedirect` | go-xrouter/tree.go:438-480 | The advice for a stop of the loop is that of the functional `Advice`. |
| `RouteNodes.CommonPrefix` | go-xrouter/tree.go:532-538 | The loop finds the length of the longest common prefix. |
| `Router.Router.Register` | go-xrouter/xrouter.go:281-292 | On the router object, for every path: on a canonical tree the table says whether it is accepted, as which literal, and whether the tree stays canonical; on any tree an accepted path starts with '/' and adds one new literal with which it begins, and a refused one changes nothing. |
| `Router.Router.Unregister` | go-xrouter/xrouter.go:299-306 | On the router object: succeeds exactly if the literal is registered, and removes exactly it. |
| `Router.Router.Find` | go-xrouter/tree.go:377-480 | On the router object, on any tree and for any request: the handle is that of a registered literal, and no redirect is advised when advice is off or a handle is found. For clean requests on a canonical tree: handle, bindings and uniqueness of the match, and both kinds of trailing-slash advice as equivalences, all in terms of the table. |
| `PathElements.CleanedOnce` | go-xrouter/path.go:22-111 | Cleaning a cleaned path changes nothing. |
| `PathElements.CleanIffCanonical` | go-xrouter/path.go:22-111 | Exactly the canonical paths (rooted, no empty, "." or ".." element inside, at most one empty one at the end) stay as they are. |
| `PathElements.CleanedIsCleanRequest` | go-xrouter/path.go:22-111 | Every cleaned path is a clean request for the router. |
| `PathRules.CleanedObeys` | go-xrouter/path.go:10-22 | Cleaning obeys the documented rules, taken one element at a time: canonical paths stay; an empty element, ".", a name with the ".." behind it, and ".." at the beginning are eliminated; "." at the end leaves its slash, ".." takes it; a path is rooted, without its slash if that is all that follows one byte. |
| `PathRules.RulesDetermine` | go-xrouter/path.go:10-22 | No other function obeys these rules: on every path it gives what cleaning gives. |
| `PathRules.CleanedRooted` | go-xrouter/path.go:22-111 | A rooted path is cleaned to the path of its resolved elements, with a slash if something is left and the last element is empty or ".". |
| `CleanPath.CleanPath` | go-xrouter/path.go:22-111 | The one-pass rewriting equals the element-stack specification, which `PathRules.RulesDetermine` pins; without a buffer the result is a prefix of the path or "/", and a buffer means that the path was not clean. |
| `CleanPath.BufApp` | go-xrouter/path.go:114-124 | A byte is appended to the text so far, and a buffer is made exactly when it differs from the path there. |
| `CleanPath.Back` | go-xrouter/path.go:65-82 | Going back ends at the slash before the last element on the stack. |
| `CleanPath.Copy` | go-xrouter/path.go:84-98 | An element is copied, behind a slash unless it is the first one. |
| `CleanPath.Dots` | go-xrouter/path.go:57-82 | "." and ".." have the effect on the text that they have on the stack. |
| `CleanPath.Finish` | go-xrouter/path.go:101-110 | A last slash is written exactly if one is due. |
| `Keywords.NoInnerIsSuffixClosed` | go-xkwfilter/xkwfilter.go:94-98 | Where no keyword occurs inside another, no beginning of a keyword hides one. |
| `Keywords.DropsIff` | go-xkwfilter/xkwfilter.go:258-274 | An input that drops a keyword exists exactly if, at some fork of the keywords, the landings do not get shorter in the order in which bytes are numbered. |
| `KeywordLinks.LongestDeclines` | go-xkwfilter/xkwfilter.go:258-274 | Links of siblings fall as the search goes on from where the last sibling's ended; so they can all be longest only where the landings decline. |
| `KeywordLinks.LinkLongest` | go-xkwfilter/xkwfilter.go:263-270 | The landing that no longer suffix of the state precedes gives the longest link. |
| `KeywordLinks.BreadthStep` | go-xkwfilter/xkwfilter.go:255-261 | Taking a state off the queue and appending its children keeps the breadth-first order and visits every state. |
| `KeywordFilter.KeywordFilter.Number` | go-xkwfilter/xkwfilter.go:60-69 | Bytes are numbered in the order of their first occurrence. |
| `KeywordFilter.KeywordFilter.Enter` | go-xkwfilter/xkwfilter.go:185-206 | Entering a keyword succeeds exactly if it is empty or not a prefix of an earlier one; the states are then exactly the prefixes of the keywords, and the keywords are the accepting states. |
| `KeywordFilter.KeywordFilter.FindEnd` | go-xkwfilter/xkwfilter.go:195-197 | The search follows the longest prefix of the keyword that is a state. |
| `KeywordFilter.KeywordFilter.CloseRoot` | go-xkwfilter/xkwfilter.go:76-80 | Missing transitions of the root lead back to the root. |
| `KeywordFilter.KeywordFilter.ConstructFm` | go-xkwfilter/xkwfilter.go:243-277 | The traversal terminates; depths are the lengths of the paths, links are proper suffixes, and all of them are longest if and only if the landings decline at every fork. |
| `KeywordFilter.KeywordFilter.New` | go-xkwfilter/xkwfilter.go:51-86 | A filter is made exactly if some keyword is non-empty and none is a prefix of an earlier one; its links are longest exactly if the landings decline in the order of first occurrence of the bytes. |
| `KeywordFilter.NoLateForkKeywords` | go-xkwfilter/xkwfilter.go:258-274 | Keywords that fork behind a single byte only have longest links. |
| `KeywordFilter.KeywordFilter.Filter` | go-xkwfilter/xkwfilter.go:99-171 | Written output is the consumed input with one mask for every maximal marked stretch, marks lie in keywords, `n` is the number of bytes written; held back are only a stretch due to be masked and a beginning of a keyword that starts inside it, or else that beginning alone, which is the input itself where that begins a keyword, and the end is due to be masked exactly if it is a keyword; if no beginning of a keyword hides one and the landings decline, exactly the covered positions are marked or due to be; a hidden keyword is missed, and so is a dropped one where no keyword is inside another. |
| `KeywordFilter.KeywordFilter.Switch` | go-xkwfilter/xkwfilter.go:119-157 | One case of the loop keeps the invariant of the loop: consumed text is what was written and what is held back, and the state is a suffix of what is held back. |
| `KeywordFilter.KeywordFilter.LetGo` | go-xkwfilter/xkwfilter.go:134-155 | Held-back bytes in front of the state are written, the masked ones as at most one mask, unless a masked stretch reaches into the state. |
| `KeywordOutcome.ExactIff` | go-xkwfilter/xkwfilter.go:94-171 | Where no keyword occurs inside another: every run on every input marks exactly the covered positions if and only if the landings decline at every fork. |
| `KeywordOutcome.ExactIffClosed` | go-xkwfilter/xkwfilter.go:127-131 | Where all links are longest: the same holds if and only if no beginning of a keyword hides another keyword. |
| `KeywordOutcome.MissesDropped` | go-xkwfilter/xkwfilter.go:263-270 | A keyword that begins inside another at such a fork is written unmasked. |
| `KeywordOutcome.MissesHidden` | go-xkwfilter/xkwfilter.go:127-131 | A keyword at the end of the beginning of another is not masked there. |
| `KeywordStream.FlushCorrect` | go-xkwfilter/xkwfilter.go:133-155 | Writing the held-back bytes keeps the relation between text, output and held-back bytes. |
| `Keywords.RenderRaw` | go-xkwfilter/xkwfilter.go:133-155 | Unmarked bytes at the end of a text are written as they are. |
| `Keywords.RenderMasked` | go-xkwfilter/xkwfilter.go:133-155 | A stretch of marked bytes at the end is written as one mask, or as nothing if it goes on with a marked stretch. |
| `KeywordStream.FallsBack` | go-xkwfilter/xkwfilter.go:119-123 | Falling back along a link keeps it, and shortens the state. |
| `KeywordStream.LinksTrail` | go-xkwfilter/xkwfilter.go:263-273 | Along a path of the trie, the beginnings of links only move on. |
| `KeywordExamples.ForkDropsKeyword` | go-xkwfilter/xkwfilter.go:263-270 | For "abc", "abde" and "bdf", none inside another, every run of the filter leaves the end of the input "abdf" unmasked, which ends with "bdf". |
| `KeywordExamples.InnerKeywordHidden` | go-xkwfilter/xkwfilter.go:127-131 | For "abcd" and "bc", every run of the filter leaves the end of the input "abc" unmasked, which ends with "bc". |
| `KeywordExamples.DocumentedDeclines` | go-xkwfilter/README.md:27-34 | With the documented keywords, every run of the filter masks its input exactly where keywords cover it. |
| `KeywordExamples.DocumentedForks` | go-xkwfilter/README.md:27-34 | Although the documented keywords fork. |
| `Weights.Gcd` | go-xsched/xsched.go:422-427 | The loop computes the recursive Euclidean function. |
| `Weights.EuclidIsGcd` | go-xsched/xsched.go:422-427 | Its divisors are exactly the common divisors. |
| `RoundRobin.EveryWindowIsFair` | go-xsched/xsched.go:105-139 | Wherever a run of calls starts, any as many consecutive calls as the weights add up to return every unit exactly as often as its weight says. |
| `RoundRobin.RoundPosition` | go-xsched/xsched.go:118-126 | A round visits the indices from 1 on and last 0, at a needed weight that is one lower than in the round before, or the largest after the lowest. |
| `RoundRobin.Periodic` | go-xsched/xsched.go:118-126 | After as many rounds as the largest weight the cursor is where it was. |
| `RoundRobin.PicksWithinARound` | go-xsched/xsched.go:116-139 | Where some unit is as heavy as a round can ask for, a call ends within one round. |
| `RoundRobin.WithinARoundIffBalanced` | go-xsched/xsched.go:116-139 | Every call ends within a round if and only if some unit is as heavy as the maximum; otherwise the very first call does not. |
| `RoundRobin.SteadyCall` | go-xsched/xsched.go:116-139 | While the same units stay available, one as heavy as a round can ask for among them, a call ends within a round at the unit that the walk over the available weights picks next. |
| `RoundRobin.LastUpMeans` | go-xsched/xsched.go:135-148 | The fallback: there is none exactly if no probe has found an available unit; else it is the one whose probe no other successful one follows. |
| `RoundRobin.EventuallyReady` | go-xsched/xsched.go:118-126 | Whatever the cursor was before an edit, after enough steps it is one that the new weights reach. |
| `AddressTable.DivisorIsGcd` | go-xsched/xsched.go:83-88 | The divisor folded over a list is the greatest common divisor of its non-zero weights. |
| `AddressTable.LoadThenEdit` | go-xsched/xsched.go:54-102 | Loading distinct addresses with positive weights and editing the result equals loading the edited list. |
| `AddressTable.LoadedHeavy` | go-xsched/xsched.go:60-77 | A list of distinct addresses is loaded as it is, without zero weights. |
| `AddressTable.LoadedMeans` | go-xsched/xsched.go:60-77 | Of any list, exactly the entries with a weight that no later weighted entry of their address follows are loaded, in their order. |
| `AddressTable.EditedInside` | go-xsched/xsched.go:195-210 | An entry whose address is in the table is taken out, or replaced where it stands. |
| `AddressTable.EditedOutside` | go-xsched/xsched.go:195-210 | One whose address is not in the table is appended, or changes nothing if its weight is zero. |
| `AddressTable.Quotients` | go-xsched/xsched.go:96-100 | Dividing by the greatest common divisor loses nothing: weight times divisor is the raw weight, and the maximum is divided with them. |
| `SchedulerUnits.Scale` | go-xsched/xsched.go:220-242 | In place, the first loop of `adjust` restores all raw weights but the new one, and folds divisor and maximum. |
| `SchedulerUnits.DivideAll` | go-xsched/xsched.go:256-258 | In place, all weights are divided. |
| `SchedulerUnits.RemoveUnit` | go-xsched/xsched.go:406-419 | The first unit of an address is cut out, and the order of the others stays. |
| `Scheduler.Scheduler.New` | go-xsched/xsched.go:54-102 | The table holds the last non-zero entries of all addresses, in their order; the weights are normalised if the addresses are distinct; every call ends within a round if and only if the heaviest entry was not overwritten. |
| `Scheduler.NewEndsIff` | go-xsched/xsched.go:71-81 | The same on values, with the first call as witness. |
| `Scheduler.OverwrittenHeaviest` | go-xsched/xsched.go:71-81 | With the weight of "a:1" first 10 and then 1, the first call passes all units over. |
| `Scheduler.Scheduler.Get` | go-xsched/xsched.go:105-148 | The address of the first unit within two rounds that is available and heavy enough; if there is none, that of the unit whose successful probe no other one follows; none exactly if every probe of the call has failed. The cursor moves as the walk. |
| `Scheduler.Scheduler.GetUp` | go-xsched/xsched.go:105-148 | With all units available, a call ends within one round at the walk's next pick; the fallback is not used. |
| `Scheduler.Scheduler.GetRound` | go-xsched/xsched.go:105-148 | As many calls as the weights add up to return every address exactly as often as its normalised weight says, wherever the cursor is. |
| `Scheduler.TableIsFair` | go-xsched/xsched.go:105-139 | The same for the table of raw weights: weight times divisor is the raw weight, and every window from the first call on is fair. |
| `Scheduler.Scheduler.Edit` | go-xsched/xsched.go:195-210 | List, map and table are edited alike: a zero weight removes, another one replaces or appends; the weights are again normalised, and the index of the address is returned. |
| `Scheduler.Scheduler.Update` | go-xsched/xsched.go:162-167 | The table is edited, and stays normalised. |
| `Scheduler.Scheduler.Remove` | go-xsched/xsched.go:171-193 | The table loses the address, and the cursor is shifted if it was behind it. |
| `Scheduler.ShiftedStays` | go-xsched/xsched.go:185-190 | Unless the removed unit is the one at the cursor, the cursor stays at its unit; else it is at the next one. |
| `Scheduler.NormalisedMeans` | go-xsched/xsched.go:215-262 | Normalised weights have greatest common divisor 1, and their maximum is the weight that a round can ask for. |
| `Scheduler.SameTableSameState` | go-xsched/xsched.go:54-102 | Two normalised schedulers of the same table have equal weights, maximum and divisor, whatever edits made them. |
| `PoolProtocol.StepKeeps` | go-xconnpool/xconnpool.go:39-207 | Every single step of any operation keeps every connection with exactly one owner, or closed. |
| `PoolProtocol.OnePlace` | go-xconnpool/xconnpool.go:39-207 | After any interleaving, a connection is in exactly one of the channel, a getter about to wrap it, the closing pool, and the wrappers that have not given it up, and not closed but for being turned away; or it is in none of them and closed once more. |
| `PoolProtocol.ChannelIsSound` | go-xconnpool/xconnpool.go:184-189 | The channel never exceeds its capacity and never holds a closed connection or one twice. |
| `PoolProtocol.GetterIsAlone` | go-xconnpool/xconnpool.go:131-151 | A connection about to be handed out is open and owned by nobody else. |
| `PoolProtocol.WrappersAreAlone` | go-xconnpool/xconnpool.go:39-72 | No two wrappers own the same connection, and none owns one in the channel. |
| `PoolProtocol.ClosedOnce` | go-xconnpool/xconnpool.go:39-72 | A connection is closed at most once, apart from the times the closed pool turned it away. |
| `PoolProtocol.NothingLeaks` | go-xconnpool/xconnpool.go:193-207 | Once the pool is closed and drained and every wrapper has been closed or released, every connection has been closed. |
| `ConnPool.XConn.Close` | go-xconnpool/xconnpool.go:39-56 | Field by field: a used wrapper changes nothing; otherwise the connection goes to the end of the channel, closed by nobody, if it is not marked, the pool is open and the channel not full, and else it and no other is closed once more; the wrapper stays open only if the closed pool turned the connection away. This is the effect of its steps taken without interruption. |
| `ConnPool.XConn.Release` | go-xconnpool/xconnpool.go:60-72 | The connection, and no other, is closed once, the channel stays as it is, and the wrapper is closed. |
| `ConnPool.XConnPool.Put` | go-xconnpool/xconnpool.go:168-190 | The connection goes to the channel if that is open and not full, and is closed otherwise; a closed pool is an error. |
| `ConnPool.XConnPool.Get` | go-xconnpool/xconnpool.go:131-151 | The first connection of the channel if there is one, without making another; else the connection that the factory makes next; none exactly if there is none and the pool is closed or the factory fails. Nothing is closed, and the wrapper is a new open one. |
| `ConnPool.XConnPool.Close` | go-xconnpool/xconnpool.go:193-207 | The channel is closed and emptied, and every connection is closed as often as it was in it; a second call fails and changes nothing. |
| `ConnPool.CloseRunEnds` | go-xconnpool/xconnpool.go:39-56 | The effect of a wrapper's `Close` is that of a run of the protocol. |
| `ConnPool.ReleaseRunEnds` | go-xconnpool/xconnpool.go:60-72 | The effect of `Release` is that of a run of the protocol. |
| `ConnPool.GetRunEnds` | go-xconnpool/xconnpool.go:131-151 | The effect of the pool's `Get` is that of a run of the protocol: it receives if there is something to receive, makes a connection if not, and wraps it. |
| `ConnPool.ShutRunEnds` | go-xconnpool/xconnpool.go:193-207 | The effect of the pool's `Close` is that of a run of the protocol. |
| `LogRetention.OutdatedIff` | go-xlog/xlog.go:504-525 | Cleaning up removes exactly the files beyond the number and those that are too old. |
| `LogRetention.CleanedUpIsLeft` | go-xlog/xlog.go:504-525 | What is left is the end of the directory; a file goes exactly if it is one of the oldest beyond the number, or there is an age limit and it was created no later than that long ago. |
| `LogRetention.WriteKeeps` | go-xlog/xlog.go:302-338 | A write keeps order and number of files, puts the record at the end of a suffix of what there was, and never starts in a file that has reached its size. |
| `LogRetention.RunKeeps` | go-xlog/xlog.go:302-338 | Over any run with increasing creation times: the files in order are a suffix of the initial contents and all that was written, and after the first record never more than allowed. |
| `LogRetention.RunRetains` | go-xlog/xlog.go:302-338 | From an empty directory without an age limit, everything written is still there, or at least as much as all files but one can hold. |
| `LogRetention.WriteGoesOn` | go-xlog/xlog.go:302-338 | With an open file that has no size limit or has not reached it, a write appends the record to that file and changes nothing else. |
| `LogRetention.WriteIs` | go-xlog/xlog.go:302-338 | Every write, in terms of files, times and sizes: which files it removes at each of its cleanups, when it goes on with the youngest file, and when it makes a new one. |
| `LogRetention.OldAreGone` | go-xlog/xlog.go:302-338 | After any run: a write that opens the directory, or makes a new file, leaves no file but the last one that had reached the age limit then. |
| `LogRetention.RunLosesNothing` | go-xlog/xlog.go:302-338 | From an empty directory without an age limit, everything written is still there if files have no size limit or no limit of their number; without a size limit it is in one file. |
| `Logger.XLogger.Write` | go-xlog/xlog.go:302-338 | The object's `write` changes the directory and the open file as the functional write, and as `LogRetention.WriteIs` says without it: the open file goes on with the record unless there is a size limit that it has reached, and else a new file holds it, after a cleanup. |
| `Logger.XLogger.CleanUp` | go-xlog/xlog.go:413-427 | In place, removes exactly the outdated files of the directory. |
| `Logger.XLogger.CountOutdated` | go-xlog/xlog.go:504-525 | The loop counts the outdated files. |
| `ReadableConfig.SizeThereAndBack` | go-xlog/xconfig.go:103-132 | For every positive machine integer, printing a size and parsing it, through digits and unit text, gives y <= x with 100(x - y) < x. |
| `ReadableConfig.AgeThereAndBack` | go-xlog/xconfig.go:146-178 | The same for ages in minutes. |
| `ReadableConfig.SecondPrintIff` | go-xlog/xconfig.go:241-255 | A second round trip loses less than one percent of the original size exactly if it loses nothing more, and that is exactly if every larger unit that would be good enough measures the size without rest. |
| `ReadableConfig.SecondPrintLoses` | go-xlog/xconfig.go:241-255 | 1 GB and 10.5 MB is printed as 1034 MB, which is printed as 1 GB: more than one percent is gone. |
| `ReadableConfig.ScanPrinted` | go-xlog/xconfig.go:103-118 | The pattern of the parser splits what was printed into the same number and unit. |
| `ReadableConfig.DecimalValue` | go-xlog/xconfig.go:241-255 | Decimal digits of a number have its value. |
| `ReadableConfig.SizeSpelled` | go-xlog/xconfig.go:95-132 | Any spaces, digits, any spaces and one of the eight units are parsed as that many bytes, as a 64-bit number; an error exactly if the digits are none. |
| `ReadableConfig.SizeIsSpelled` | go-xlog/xconfig.go:95-118 | Nothing else is parsed as a size. |
| `ReadableConfig.AgeSpelled` | go-xlog/xconfig.go:136-178 | The same for ages, in minutes. |
| `ReadableConfig.AgeIsSpelled` | go-xlog/xconfig.go:136-160 | Nothing else is parsed as an age. |
| `ReadableConfig.TwoSpellings` | go-xlog/xconfig_test.go:22-24 | "10 kb" is 10240, and " 210 mb" is 220200960. |
| `ReadableConfig.SizeInBestUnit` | go-xlog/xconfig.go:239-255 | A size is printed in the largest unit that loses less than one percent of it, or in bytes if none does. |
| `ReadableConfig.AgeInBestUnit` | go-xlog/xconfig.go:257-276 | An age is printed in the largest unit that loses less than one percent of it, or in minutes if none does. |
| `ExpiringCache.BucketsAnswerAsOne` | go-xcache/xcache.go:92-113 | Under a clock that does not go back, the buckets answer every `Get` of any run as one map would, whichever buckets are cleaned in between; `GetAnswers` says what that is. |
| `ExpiringCache.CleaningIsUnobservable` | go-xcache/xcache.go:193-218 | Two runs that differ only in cleaning, and in the number of buckets and the hash, answer alike. |
| `ExpiringCache.GetAnswers` | go-xcache/xcache.go:148-171 | In every run from an empty cache, each `Get` answers with the data of the last `Set` of its key, if no `Del` came after it and the duration is not positive or has not gone by, and else with nothing; an end at the instant zero counts as no end. |
| `ExpiringCache.CleaningRemoves` | go-xcache/xcache.go:193-218 | A bucket that has just been cleaned has no element of which the duration has gone by. |
| `ExpiringCache.NeverExpires` | go-xcache/xcache.go:225-229 | An element that should expire at the instant zero never does. |
| `ExpiringCache.FinalizedOnce` | go-xcache/xcache.go:175-218 | After any run, every element ever set is stored, or was overwritten and never finalized, or was removed and finalized exactly once. |
| `ShardedCache.Fnv32a` | go-xcache/xcache.go:237-244 | The loop computes the 32-bit FNV-1a hash as a fold with wrap-around. |
| `ShardedCache.FnvVectors` | go-xcache/xcache.go:231-244 | The hash has the published values for "", "a" and "foobar". |
| `ShardedCache.Bucket.Set` | go-xcache/xcache.go:150-158 | The element replaces any earlier one of its key; it expires at the current time plus a positive duration, and never otherwise. |
| `ShardedCache.Bucket.Get` | go-xcache/xcache.go:162-171 | The element's data, unless it is absent or its expiration is not zero and has gone by. |
| `ShardedCache.Bucket.Clean` | go-xcache/xcache.go:193-218 | Exactly the elements whose expiration is not zero and has gone by are removed and returned, each once. |
| `ShardedCache.XCache.ESet` | go-xcache/xcache.go:99-101 | In place, the step of the functional cache in the bucket that the hash chooses, added to the history. |
| `ShardedCache.XCache.Get` | go-xcache/xcache.go:105-107 | On the cache object, by the history of its calls: what the last `Set` of the key before has set, if no `Del` followed and it has not expired, and else nothing. |
| `ShardedCache.XCache.Del` | go-xcache/xcache.go:111-113 | In place, the step of the functional cache, with the finalizer called. |
| `ShardedCache.XCache.CleanAll` | go-xcache/xcache.go:122-140 | Cleaning all buckets, each at its own time, is a run of clean events. |

## Left out

- RouteRuns.RunRefinesTable: for runs that keep the tree canonical; once a string has been accepted that a canonical tree cannot hold, the table does not determine what is accepted next (RouteExamples.OneTableTwoTrees), and RouteRuns.AnyRunHolds says what the tree holds.
- Router.Router.Find: on a tree that is not canonical, or for a request with an empty segment, only that a handle is one of a registered literal and when no redirect is advised.
- Widths of `maxParams` (8 bits) and `priority` (32 bits): modelled as unbounded; RouteCounts.FitsIffModest says exactly when they fit.
- Characters of routes are compared one by one; strings are sequences of characters, not of UTF-8 bytes.
- `combine` on a node without children would panic; it is only called after `split` has made one.
- Locks, error texts, printing and `Equal` of the tree; `ServeHTTP`, redirects and the answers to unsupported methods.
- The insertion sort stands for the library's sort, which gives the same order because indices are distinct.
- KeywordFilter.KeywordFilter.Filter: the reader is a byte sequence and the writer an output sequence, without I/O errors; held-back bytes are not written at the end of the input, as in the code, so all statements are about the consumed input without them.
- KeywordOutcome.ExactIff: asks that no keyword occurs inside another; without that, a keyword that a link skips may still be covered by other ones.
- Scheduler.Scheduler.Get: whether a unit is available comes in as a sequence of probes; the back-off of `Feedback` with its clock and its sampling periods is not modelled.
- Parsing of addresses with `net` and `strconv`, and the errors it gives; positive and zero weights only, as the parser lets no others through.
- Concurrent calls of the scheduler: calls are taken one after the other.
- Scheduler.Scheduler.Update: does not move the cursor when a zero weight removes a unit, as in the code.
- Underlying `Close` calls of connections are assumed to succeed, and the factory is a new connection or a failure; nil connections are not modelled.
- A wrapper whose connection the closed pool has turned away is not marked as closed, as in the code, and can close the connection again; PoolProtocol.ClosedOnce counts these times.
- `go-xconnpool/xconnpools.go`: the choice of a pool by address happens in separate critical sections, and the rest is a timer loop.
- Logger.XLogger.Write: no I/O errors; the creation times of new files increase, and files are told apart by them.  File names, channels, formatting, caller tags and the map of directories in use are left out.
- `Import`, `Export` and levels of the log configuration, and the parsing of durations by the library.
- ShardedCache.XCache.Get: its meaning by the history holds as long as the clock has not gone back.  The clock is read once per operation, and operations are taken one after the other; the code reads it after giving up the lock.  The stamps of elements and the history are additions of the model; a finalizer is taken to be set.
- Validation of the cache configuration and the goroutine of its ticker.
- go-xvalid (reflection and regular expressions), go-xbufferpool (the design of the connection pool again), go-xpacket, go-xecb, go-xretry, go-xlimit and go-xrandstring (only easy members), and the networking, process and test helper packages.
