# rammewerk/router in Dafny

This project models the path-routing engine of the PHP library rammewerk/router and
proves properties of it. The parts modelled are:

- the segment helpers of `RouteUtility`;
- the two segment tries: the plain `PreviousNodeHandler` and the path-compressed `Node`, each with `insert` and `match`;
- the route records: `RouteDefinition`, `RouteHandler`, `ClassRoute`, `ClosureRoute` and `GroupDefinition`;
- the orchestration in `Router.php`:
  - registration into the static table and the trie;
  - group scoping;
  - dispatch;
  - class-route expansion, by naming convention and by `#[Route]` attributes;
  - the request-handler factory;
  - argument binding;
  - the middleware pipeline;
- `MethodAwareRouter`: the request-method decision with its POST override, the shortcuts, and the method check that answers 405;
- the legacy `RoutePath` record.

Layout:

- Each PHP class whose methods update fields is a Dafny `class` with those fields and methods.
- The pure parts are functions over datatypes: the segment helpers, the request-method decision, the pipeline composition, the binding algorithm and the path arithmetic of expansion.

The tries:

- A trie's nodes live in one table (a `seq`) owned by the trie. A node's identity is its index, and node 0 is the root.
- `insert` and `match` are `while` loops, proved against the specification functions `InsertFrom` and `MatchFrom`.
- The matched route's `nodeContext` is a field of the route objects the nodes refer to. The match methods update only that field, and only on the route they return.
- The wildcard attempt of `Node::match` recurses. It is the method `Node.Node.TryWildcard`, which calls `MatchAt`.

What PHP reflection reports, the dependency handler, handler bodies, middleware `handle()` bodies and the request's `getArguments()` are inputs. They are bundled in `Router.Env`.

Modules, one per source file: `RouteUtility`, `PreviousNodeHandler`, `Node`, `TrieMatch`, `RouteDefinition`, `RouteHandler`, `GroupDefinition`, `ClassRoute`, `ClosureRoute`, `Router`, `MethodAwareRouter` and `RoutePath`. Four more modules factor out parts of `Router.php`:

- `Expansion`: the path synthesis of class expansion and `matchAttributeRoute`;
- `Binding`: the closure `getParameterClosure` returns;
- `Pipeline`: `createMiddlewareFactories` and `runPipeline`;
- `PhpString`: the PHP string builtins the code relies on (`trim`, `explode`, `implode`, `str_replace`, `strtoupper`).

## Model

| member | source | states |
|---|---|---|
| RouteUtility.ExtractFirstSegment | src/Foundation/RouteUtility.php:11-20 | with a '/' in the path, the segment has no '/' and segment + "/" + rest is the path; without one, the segment is the whole path and the rest is empty; the rest of a non-empty path is shorter |
| RouteUtility.ExtractLastSegment | src/Foundation/RouteUtility.php:23-32 | the mirror at the last '/': rest + "/" + segment is the path and the segment has no '/'; without '/', the whole path and an empty rest |
| RouteUtility.PrependSegment | src/Foundation/RouteUtility.php:37-40 | a falsy segment ("" or "0") leaves the path alone; an empty path becomes the segment; otherwise the segment, one '/', and the path with its leading '/' removed |
| RouteUtility.AppendSegment | src/Foundation/RouteUtility.php:44-47 | a falsy segment leaves the path alone; an empty path becomes the segment; otherwise the path, exactly one '/', and the segment |
| RouteUtility.RemoveLastSegmentFromMethodName | src/Foundation/RouteUtility.php:51-60 | splits at the first '_': the part after it is returned and the part before it (free of '_') is left; without '_', the whole name and an empty rest |
| RouteUtility.ExtractThenPrepend | src/Foundation/RouteUtility.php:11-40 | prepending the segment extractFirstSegment split off restores the path, when the segment is not falsy and no lone or doubled '/' follows it (the restore step of both tries) |
| RouteUtility.PrependDropsZero | src/Foundation/RouteUtility.php:38 | prepending the segment "0" changes nothing, so the restore step loses a "0" |
| RouteUtility.SegmentsOfClean | src/Foundation/RouteUtility.php:11-20 | on a path without leading, trailing or doubled '/', repeated extractFirstSegment yields exactly explode('/', path) |
| RouteUtility.CleanSplit | src/Foundation/RouteUtility.php:11-20 | on a non-empty path without leading, trailing or doubled '/', extractFirstSegment splits off a non-empty first segment, the rest is again such a path and is empty exactly when the path has no '/', and the segments are the first one followed by those of the rest |
| RouteUtility.SegmentsInjective | src/Foundation/RouteUtility.php:11-20 | two such paths with the same segments are the same path |
| PreviousNodeHandler.Descend | src/Foundation/PreviousNodeHandler.php:32-39 | one insert step keeps the table well formed and adds at most one node (the `??=` creates a child only when missing) |
| PreviousNodeHandler.PreviousNodeHandler.constructor | src/Foundation/PreviousNodeHandler.php:25-27 | the trie starts as a lone root with no route |
| PreviousNodeHandler.InsertFrom | src/Foundation/PreviousNodeHandler.php:29-42 | the insert walk from a node: the `??=` descent into the literal or wildcard child and the route set at the end; the table stays well formed and only grows (its meaning is stated by InsertFromFacts and InsertStores) |
| PreviousNodeHandler.MatchFrom | src/Foundation/PreviousNodeHandler.php:53-85 | the match walk from a node: literal child first, then the wildcard child with the segment captured, then the route of the node reached; a hit names an existing node that holds a route (its meaning is stated by LiteralWalkMatches, LiteralBeforeWildcard, WildcardStep and MatchReturnsLastInserted) |
| PreviousNodeHandler.PreviousNodeHandler.Insert | src/Foundation/PreviousNodeHandler.php:25-44 | the loop leaves the table InsertNodes(old table, path, route) and keeps every node reachable from the root by its segment path |
| PreviousNodeHandler.PreviousNodeHandler.Match | src/Foundation/PreviousNodeHandler.php:53-85 | returns null exactly when MatchFrom finds nothing; otherwise the route of the node found, whose nodeContext gets the leftover appended and the captures prepended; no other route's nodeContext changes, so a failed match writes nothing |
| PreviousNodeHandler.PreviousNodeHandler.MatchAt | src/Foundation/PreviousNodeHandler.php:53-85 | the same, from any node: the loop and the recursive wildcard attempt agree with MatchFrom |
| PreviousNodeHandler.InsertStores | src/Foundation/PreviousNodeHandler.php:25-44 | insert(p, r) stores r under p's segment path and changes the route stored under no other segment path; re-inserting a pattern replaces only its terminal route |
| PreviousNodeHandler.InsertFromFacts | src/Foundation/PreviousNodeHandler.php:29-42 | the walk keeps every child and wildcard reference, its target is reached by the pattern's segments and holds the route, and no other node's route changes |
| PreviousNodeHandler.InsertKeepsLabeled | src/Foundation/PreviousNodeHandler.php:29-42 | after insert every node is still reached from the root by the segment path it hangs under |
| PreviousNodeHandler.BuildStores | src/Foundation/PreviousNodeHandler.php:25-44 | after any history of inserts into an empty trie, the route stored under a segment path is that of the latest insert with those segments |
| PreviousNodeHandler.LiteralWalkMatches | src/Foundation/PreviousNodeHandler.php:57-65 | a literal-only path that walks to a node with a route is matched there with no captures and no leftover |
| PreviousNodeHandler.InsertThenMatch | src/Foundation/PreviousNodeHandler.php:25-85 | for a literal-only pattern, match after insert returns the inserted route with nothing captured or left over, so nodeContext is untouched |
| PreviousNodeHandler.MatchReturnsLastInserted | src/Foundation/PreviousNodeHandler.php:25-85 | after any history of inserts, matching a literal-only path returns the route most recently inserted under its segments |
| PreviousNodeHandler.LiteralBeforeWildcard | src/Foundation/PreviousNodeHandler.php:62-65 | an existing literal child decides the match alone: the wildcard child is never tried and there is no backtracking |
| PreviousNodeHandler.WildcardStep | src/Foundation/PreviousNodeHandler.php:68-71 | with no literal child and a wildcard child that matches the rest, the segment becomes the first capture |
| PreviousNodeHandler.MatchEmptyIsRoot | src/Foundation/PreviousNodeHandler.php:78-82 | match("") returns the root's route with nothing captured or left over |
| PreviousNodeHandler.CapturesInPathOrder | src/Foundation/PreviousNodeHandler.php:68-80 | with "*/*" inserted, "a/b/c" is matched with captures a, b in path order and leftover c |
| PreviousNodeHandler.WildcardDeadEnd | src/Foundation/PreviousNodeHandler.php:68-74 | with only "w/*/w" inserted, "w/s" finds nothing: the dead-end wildcard branch is abandoned and the node reached has no route |
| TrieMatch.ContextAfterCons | src/Foundation/PreviousNodeHandler.php:69 | a capture taken by an outer wildcard is prepended after the inner match has written its context |
| TrieMatch.ContextAfterJoins | src/Foundation/PreviousNodeHandler.php:69-79 | with captures that are not falsy and hold no '/', a match leaves an empty nodeContext as the '/'-join of the captures in path order followed by the leftover |
| Node.Unpack | src/Foundation/Node.php:34-48 | the split leaves the table well formed, only the split node changes, the node has no tail afterwards, and one node is added exactly when there was a tail |
| Node.SplitShape | src/Foundation/Node.php:34-48 | the split node has no route, no wildcard, no tail and one child under the tail's first segment; the child takes the route, the children, the wildcard and the rest of the tail |
| Node.SplitKeepsTailMatch | src/Foundation/Node.php:34-48 | the route held at a compact tail is still found under the tail after the split, one node further down |
| Node.InsertFrom | src/Foundation/Node.php:28-76 | the insert walk as written, from a node: split the tail, then descend into the wildcard or literal child, or create a new literal child that takes the whole rest as its tail and the route; the table stays well formed and only grows (its meaning is stated by NewChildTakesRest, InsertThenMatch and MatchReturnsLastInserted) |
| Node.MatchFrom | src/Foundation/Node.php:90-137 | the match walk from a node: the raw-prefix tail test, the literal child first, then the wildcard attempt with the segment captured; a hit names an existing node that holds a route (its meaning is stated by CompactPrefixMatch, CompactMismatchFails, LiteralBeforeWildcard and MatchKey) |
| Node.Node.constructor | src/Foundation/Node.php:20 | the trie starts as a lone root with no route and no tail |
| Node.Node.SplitCompact | src/Foundation/Node.php:34-48 | the node update of the split, equal to Unpack |
| Node.Node.Step | src/Foundation/Node.php:50-70 | one step of the insert loop, from a node without a tail, as written: into the wildcard child, an existing literal child, or a new literal child that gets the whole rest of the pattern as its tail, '*' included, which ends the walk; the walk from the node reached on the new table equals the walk from the old node over the old table |
| Node.Node.Insert | src/Foundation/Node.php:28-76 | the loop leaves the table InsertNodes(old table, path, route), under the walk Node.InsertFrom as Node.php writes it |
| Node.InsertKeepsRoutesIn | src/Foundation/Node.php:28-76 | insert refers to no route besides those referred to before and the inserted one |
| Node.InsertFromExtends | src/Foundation/Node.php:28-76 | insert splits only nodes that have a tail and otherwise only adds references |
| Node.FreshInsertCompacts | src/Foundation/Node.php:67-70 | on an empty trie, a pattern with a literal first segment becomes one root child holding the route, with the whole rest of the pattern as its compact tail |
| Node.NewChildTakesRest | src/Foundation/Node.php:62-70 | on any table, a missing literal child is created holding the route with the whole rest of the pattern, '*' segments included, as its tail; the parent gains that child and no other node changes |
| Node.InsertThenMatch | src/Foundation/Node.php:28-137 | for a literal-only pattern on any table, match after insert returns the inserted route with nothing captured or left over |
| Node.InsertShaped | src/Foundation/Node.php:28-76 | insert of a clean literal pattern keeps every node reached from the root by its label, with its tail holding the rest of its key; the key label + segments of the pattern then holds the route, and every other key keeps its route |
| Node.UnpackShaped | src/Foundation/Node.php:34-48 | the split of a compact tail keeps that shape and every key with its route |
| Node.MatchKey | src/Foundation/Node.php:90-137 | on a shaped table, a clean path equal to a node's key minus the label of the start node is matched at that node with nothing captured and nothing left over |
| Node.BuildShaped | src/Foundation/Node.php:28-76 | after any history of clean literal inserts into an empty trie the table is shaped, and the key of a segment path holds the route most recently inserted under it |
| Node.MatchReturnsLastInserted | src/Foundation/Node.php:28-137 | after any history of clean literal inserts, match() of a clean path finds the route most recently inserted under its segments, with nothing captured and nothing left over |
| Node.Node.Match | src/Foundation/Node.php:90-137 | returns null exactly when MatchFrom finds nothing; otherwise the route of the node found, with its leftover appended and its captures prepended to nodeContext; no other route's nodeContext changes |
| Node.Node.MatchAt | src/Foundation/Node.php:90-137 | the same, from any node: the loop, the compact-tail test and the wildcard attempt agree with MatchFrom |
| Node.Node.TryWildcard | src/Foundation/Node.php:120-123 | the recursive wildcard attempt: null when the wildcard child matches nothing; otherwise its route, with the consumed segment prepended to nodeContext after the inner match |
| Node.LiteralBeforeWildcard | src/Foundation/Node.php:114-117 | from a node without a tail, an existing literal child decides the match alone: no wildcard attempt and no backtracking |
| Node.CompactMismatchFails | src/Foundation/Node.php:96-102 | a compact tail that is not a raw prefix of the rest ends the match with no route |
| Node.CompactPrefixMatch | src/Foundation/Node.php:96-99 | on any table, a node whose tail is a prefix of the rest is where the match ends, with what follows the tail, trimmed of '/', as leftover |
| Node.RawPrefixMatch | src/Foundation/Node.php:96-99 | the tail test is on raw characters: with only "u/p" inserted, "u/ps" is matched with leftover "s" |
| Node.WildcardAtEndMatches | src/Foundation/Node.php:56-60 | under the corrected walk Node.InsertFromCorrected, with only "w/*" inserted, "w/t" is matched through the wildcard with nodeContext "t" |
| Node.InsertFromCorrected | src/Foundation/Node.php:62-70 | the walk as evidently intended: a new literal child takes the rest as its tail only when the rest has no '*' segment, and otherwise the walk goes on through a new empty child; the table stays well formed |
| Node.CorrectedAgreesOnLiteral | src/Foundation/Node.php:62-70 | the corrected walk and the walk as written build the same table for every pattern without a '*' segment |
| Node.CorrectedKeepsTailsLiteral | src/Foundation/Node.php:62-70 | under the corrected walk no compact tail ever holds a '*' segment |
| Node.WildcardInTailLost | src/Foundation/Node.php:67-70 | as written, with only "w/*" inserted, "w/t" finds no route: the '*' stays in the tail |
| RouteDefinition.RouteDefinition.constructor | src/Router.php:87 | a new route record holds the pattern and the handler, no middleware, no class method, empty contexts, no factory, no reflection and no cached regex |
| RouteDefinition.RouteDefinition.Middleware | src/Definition/RouteDefinition.php:70-73 | the list is appended after the existing middleware in order, and the same object is returned |
| RouteDefinition.RouteDefinition.ClassMethod | src/Definition/RouteDefinition.php:78-84 | on a closure route, a LogicException and classMethod unchanged; otherwise classMethod is set and the same object returned |
| RouteDefinition.RouteDefinition.DefaultMethod | src/Definition/RouteDefinition.php:89-92 | sets the default method and returns the same object |
| RouteDefinition.RouteDefinition.SetMatchesFromPath | src/Definition/RouteDefinition.php:51-65 | the context array is ContextFromMatches of the groups |
| RouteDefinition.ContextFromMatches | src/Definition/RouteDefinition.php:51-65 | the full match and the last group are dropped, and the groups between are kept in order; a non-empty last group adds its '/'-pieces; a lone full match gives [] |
| RouteDefinition.ContextLeftoverRoundTrip | src/Definition/RouteDefinition.php:57-63 | the pieces appended for the leftover group join back to the leftover |
| RouteDefinition.RouteDefinition.Regex | src/Definition/RouteDefinition.php:96-101 | the result is PatternRegex(pattern); the first call fills the cache and later calls return the cached string unchanged |
| RouteDefinition.PatternRegex | src/Definition/RouteDefinition.php:97-100 | the regex of a pattern: the anchor, the segment pieces joined by '/', then the optional leftover group (stated by SegmentRegexes, PatternRegexShape and PatternRegexLiteral) |
| RouteDefinition.SegmentRegexes | src/Definition/RouteDefinition.php:97-99 | one regex piece per pattern segment: `([^/]+)` for '*', preg_quote for a literal |
| RouteDefinition.PatternRegexShape | src/Definition/RouteDefinition.php:97-100 | every regex starts with `#^` and ends with the optional leftover group `(?:/(.*))?$#` |
| RouteDefinition.PatternRegexLiteral | src/Definition/RouteDefinition.php:97-100 | for a pattern with no '*' and no character preg_quote escapes, the regex is the pattern between the anchor and the leftover group |
| RouteDefinition.UnquotePregQuote | src/Definition/RouteDefinition.php:98 | preg_quote loses nothing: unquoting its output gives the segment back |
| RouteDefinition.PregQuotePlain | src/Definition/RouteDefinition.php:98 | a segment with no special character is quoted as itself |
| RouteHandler.UpperAll | src/Definition/RouteHandler.php:32 | the methods uppercased one by one, same length and order |
| RouteHandler.NewRouteHandler | src/Definition/RouteHandler.php:26-33 | methods stored uppercased in the given order; middleware, class method and reflection stored as given; no factory |
| RouteHandler.SupportsMethod | src/Definition/RouteHandler.php:40-42 | supportsMethod(): an empty method list supports every method, otherwise exact membership (stated by SupportsIff and LowerCaseRefused) |
| RouteHandler.SupportsIff | src/Definition/RouteHandler.php:40-42 | supportsMethod(x) holds exactly when the method list is empty or one given method uppercases to x |
| RouteHandler.LowerCaseRefused | src/Definition/RouteHandler.php:40-42 | the comparison is exact: with a non-empty list, a method name with a lower-case letter is refused |
| GroupDefinition.GroupDefinition.constructor | src/Definition/GroupDefinition.php:9 | a group starts with no routes |
| GroupDefinition.GroupDefinition.RegisterRoute | src/Definition/GroupDefinition.php:15-17 | the route is appended after those registered before |
| GroupDefinition.GroupDefinition.Middleware | src/Definition/GroupDefinition.php:22-27 | every route registered so far gets the list appended once per registration and the group is returned with its route list unchanged |
| GroupDefinition.OccursOnce | src/Definition/GroupDefinition.php:22-27 | a route registered exactly once gets the group's list exactly once per middleware() call |
| ClassRoute.ClassRoute.constructor | src/Definition/ClassRoute.php:17-20 | pattern and class-string as given, no class method |
| ClassRoute.ClassRoute.ClassMethod | src/Definition/ClassRoute.php:30-33 | sets the class method and returns the same object |
| ClassRoute.ClassRoute.DisableReflection | src/Definition/ClassRoute.php:37-39 | always a RouterConfigurationException |
| ClassRoute.ClassRoute.GetHandler | src/Definition/ClassRoute.php:46-48 | the class-string given to the constructor |
| ClosureRoute.ClosureRoute.constructor | src/Definition/ClosureRoute.php:17-20 | pattern and closure as given, reflection not disabled |
| ClosureRoute.ClosureRoute.ClassMethod | src/Definition/ClosureRoute.php:24-26 | always a RouterConfigurationException, whatever the method |
| ClosureRoute.ClosureRoute.DisableReflection | src/Definition/ClosureRoute.php:30-33 | sets skipReflection and returns the same object |
| ClosureRoute.ClosureRoute.GetHandler | src/Definition/ClosureRoute.php:37-39 | the closure given to the constructor |
| Router.Router.constructor | src/Router.php:68-73 | an empty trie, an empty static table, no active group, and the given default method |
| Router.Router.Add | src/Router.php:85-94 | the pattern trimmed of '/' and ' '; the new route goes into the static table only without '*', always into the trie, and into the active group when there is one; re-adding a pattern replaces its static entry |
| Router.Router.Enter | src/Router.php:88-91 | the table half of add(): static table when the pattern has no '*', trie always |
| Router.Router.Group | src/Router.php:105-111 | every add() of the callback, nested groups included, makes one fresh route in order, and the static table and the trie are add()'s effect folded over those routes; the group holds exactly the first of those route objects, the ones added before the first nested group (so their patterns are the collected ones), and afterwards no group is active |
| Router.Router.RunCallback | src/Router.php:108 | the callback's calls in order: while the group is active it appends the route objects of the leading add() calls, up to the first nested group, and after a nested group it collects nothing; the routes made, the objects, the static table and the trie are those of the flattened add() calls |
| Router.Router.Call | src/Router.php:108 | one call of a group callback: while the group stays active the call was an add() and the group gets its route object; a nested group() leaves no group active and the group unchanged; the static table and the trie are add()'s effect folded over the routes the call makes |
| Router.Router.AddWithin | src/Router.php:92 | an add() inside a callback: when the group is still active it gets the new route object itself, and otherwise it is unchanged; one fresh route is made, and the static table and the trie are add()'s effect for it |
| Router.MadeAppend | src/Router.php:105-111 | the routes made by two runs of add() calls, joined, are the routes made by the joined calls |
| Router.LeadingAdds | src/Router.php:105-111 | the patterns a group collects are the trimmed patterns of the callback's leading add() calls, and there are no more of them than add() calls in all |
| Router.CollectJoin | src/Router.php:105-111 | the routes collected over a callback are those of its first call followed by those of the rest while the group stays active, and none after it ends |
| Router.PatternsOfCollected | src/Router.php:105-111 | the patterns of the collected route objects are the collected patterns |
| Router.AfterOne | src/Router.php:88-91 | folding add() over one route is add()'s own effect on the static table and the trie |
| Router.StaticAfterAppend | src/Router.php:88-90 | folding add() over two runs of routes is folding over the first and then over the second, for the static table |
| Router.TrieAfterAppend | src/Router.php:91 | the same for the trie |
| Router.StaticAfterKeys | src/Router.php:88-90 | after add() over a run of routes, every pattern new to the static table holds one of those routes with that pattern, and every route whose pattern has no '*' has its pattern in the table |
| Router.JoinRuns | src/Router.php:105-111 | the routes made by a callback's first call and by the rest, joined, are made by the whole callback, and their objects, static table and trie compose in order |
| Router.CollectOne | src/Router.php:92 | one add() inside an active group makes one route with the trimmed pattern and the handler, and the group's patterns grow by that pattern |
| Router.Router.Lookup | src/Router.php:128-141 | the path is trimmed; the static table is consulted before the trie; "No route found for path" when both miss; the route found gets its nodeContext as context and nodeContext is cleared; no other route changes |
| Router.Router.CreateNewSpecificRoute | src/Router.php:549-554 | an existing static route under the trimmed path is reused unchanged; otherwise the path is added with the class method set, which a closure handler refuses |
| Router.Router.AddWithMethod | src/Router.php:553 | add() followed by classMethod(): a class handler gets a fresh route with the method; a closure handler gets the LogicException |
| Router.Equip | src/Router.php:285-289 | the method's name becomes the class method unless the route already has a truthy one (a closure route refuses), the reflection is the method's, and the context is empty |
| Router.Router.RegisterMethodRoute | src/Router.php:284-289 | the method route is created or reused, then equipped; its pattern lands in the static table when it has no '*' |
| Router.Router.RegisterClassMethod | src/Router.php:279-289 | one loop step: the method is registered under MethodPattern, the convention as written, when that registers it |
| Router.Router.RegisterClassMethods | src/Router.php:278-290 | every public method (by convention, as written: __invoke() under the entry with "//invoke" appended) or every public method with a #[Route] (by attributes) has its pattern in the static table, unless a refusal stopped the loop |
| Router.MethodPattern | src/Router.php:279-283 | the pattern a method is registered under, with the convention as written: by convention exactly the public methods, index() under the entry itself and __invoke() under the entry with "//invoke" appended; by attributes exactly the public methods with a #[Route] |
| Router.Router.Rematch | src/Router.php:294-303 | the current path is matched again: on a hit the route found takes over the entry route's middleware, gets its context and a cleared nodeContext, and the entry route's context is emptied; on a miss nothing changes and the given error is returned |
| Router.Router.Expand | src/Router.php:278-303 | registration under the convention as written, followed by the rematch: error exactly when the path matches nothing, and otherwise the route the trie finds, with the entry route's middleware appended |
| Router.FindMethod | src/Router.php:265 | getMethod(): a method of that name from the list, or none when no method has the name |
| Router.Router.ResolveClassRoute | src/Router.php:261-304 | a truthy class method is looked up (missing: a wrapped ReflectionException; not public: RouterConfigurationException; public: the route itself, with the method's reflection and its class method unchanged); otherwise a class with a route attribute is expanded by attributes after its class path is checked, and any other class by convention, with the error each branch throws |
| Router.Router.ReflectHandler | src/Router.php:220-244 | a closure route keeps its reflection or gets the closure's; a class route whose class does not exist fails with the wrapped ReflectionException; a class route whose class exists gets exactly what ResolveClassRoute promises |
| Router.Router.RequestHandlerFactory | src/Router.php:177-208 | on success the route has the factory FactoryFor builds from its handler, its class method and the reflection used (kept when the route had one), and no reflection; a missing class is the wrapped ReflectionException; a truthy public class method m gives the same route with the class factory for m and the method's parameters, and a non-public one the RouterConfigurationException |
| Router.FactoryFor | src/Router.php:192-205 | the factory for a handler: a class factory for a class-string handler, with its class and class method, or a closure factory for a closure; either way the argument plan and the handler name come from the reflection |
| Router.Invoke | src/Router.php:193-205 | calling a factory: the handler runs, and answers, exactly when binding the arguments succeeds; a binding failure is passed on unchanged |
| Router.Router.Dispatch | src/Router.php:126-166 | a path missing from both the static table and the trie is "No route found"; a route that already has a factory is served as found, with its context taken from nodeContext (and the trie's captures); the result is that route's factory served with its middleware on the arguments of its context |
| Router.Serve | src/Router.php:151-164 | with no middleware the factory is called directly on the request; otherwise through the pipeline (stated by ServeWithChecks and Pipeline.RunInOrder) |
| Router.ServeWithChecks | src/Router.php:154-164 | a middleware list of method checks only answers 405 when one check refuses, and otherwise calls the handler on the request unchanged |
| Binding.BindParameter | src/Router.php:384-423 | one parameter never takes more segments than are left |
| Binding.Bind | src/Router.php:382-431 | a successful binding gives exactly one argument per parameter |
| Binding.BindArguments | src/Router.php:382-431 | the loop with array_shift on the remaining segments returns exactly Bind: its parameter rules, "No arguments left" and "Too many arguments" |
| Binding.BindUsesEverySegment | src/Router.php:384-426 | a successful binding uses every segment exactly once and in order |
| Binding.RequiredTakeOneEach | src/Router.php:411-421 | with only required built-in parameters, binding succeeds exactly when there is one segment per parameter, and each parameter gets its segment |
| Binding.MissingRequired | src/Router.php:417-421 | a required built-in parameter with no segment left is the InvalidRoute naming its type and the handler |
| Binding.NonBuiltInConsumesNothing | src/Router.php:392-408 | a parameter the request object satisfies, and one built by the dependency handler, consume no segment |
| Binding.VariadicTakesAll | src/Router.php:386-390 | a lone variadic parameter takes every remaining segment and leaves none over |
| Pipeline.MiddlewareFactories | src/Router.php:315-326 | one factory per middleware, in reverse order |
| Pipeline.RunPipeline | src/Router.php:337-355 | runPipeline(): the factories reduced around the handler and run on the request (stated by RunInOrder and MissingHandleFails) |
| Pipeline.PipelineNests | src/Router.php:337-351 | folding the reversed list around the handler puts the first-registered middleware outermost |
| Pipeline.RunInOrder | src/Router.php:337-355 | runPipeline over createMiddlewareFactories runs the middleware in registration order and the handler last |
| Pipeline.MissingHandleFails | src/Router.php:343-347 | a first middleware without handle() makes the whole pipeline fail with RouterConfigurationException, so neither later middleware nor the handler runs |
| Pipeline.ChecksDecide | src/Adapters/MethodAwareRouter.php:137-143 | a chain of method checks ends in 405 when any of them refuses, and otherwise calls the handler with the request unchanged |
| Expansion.ConvertClassMethodNameToPath | src/Router.php:558-560 | every '_' becomes '/' and nothing else changes; the result has the same length and no '_' |
| Expansion.ConvertWithoutUnderscore | src/Router.php:558-560 | a name without '_' converts to itself |
| Expansion.ConvertJoinsPieces | src/Router.php:558-560 | the converted name is the '_'-pieces of the name joined by '/' |
| Expansion.ConvertSegments | src/Router.php:558-560 | for a name without '/', each '_'-piece becomes one path segment |
| Expansion.ConvertedIndex | src/Router.php:279-281 | only "index" converts to "index" |
| Expansion.ConvertedNeverInvoke | src/Router.php:281 | no name converts to "__invoke" |
| Expansion.ConventionPattern | src/Router.php:279-283 | as written: index() is registered under the entry pattern itself |
| Expansion.ConventionSegments | src/Router.php:279-283 | any other method lands below the entry: the segments are the entry's followed by the method name's '_'-pieces |
| Expansion.InvokeAppended | src/Router.php:279-283 | as written, __invoke() is registered under the entry with "//invoke" appended, never under the entry itself |
| Expansion.ConventionPatternCorrected | src/Router.php:279-283 | the intended convention: index() and __invoke() serve the entry pattern, and every other method has its converted path appended |
| Expansion.CorrectedAgrees | src/Router.php:279-283 | the corrected convention agrees with the written one on every method name except __invoke |
| Expansion.CheckClassRoute | src/Router.php:462-470 | the class path passes exactly when, trimmed, it is the entry pattern's first segment, and is returned; otherwise the "Route mismatch" RouterConfigurationException |
| Expansion.AttributePattern | src/Router.php:474-479 | a method's attribute path is placed below the class path: the result is the class path itself or starts with it and a '/' |
| Expansion.AttributeRootIsClassPath | src/Router.php:474-479 | a #[Route('/')] method is registered under the class path itself |
| Expansion.AttributePrefixOptional | src/Router.php:475-477 | writing the class path in the method's attribute is optional: `c/m` and `m` give the same route |
| Expansion.AttributeRawPrefix | src/Router.php:475-477 | the prefix test is on raw characters: under "user", the attribute path "users" becomes "user/s" |
| Expansion.MatchAttributeRoute | src/Router.php:510-536 | true exactly when AttributeMatch finds a match, and then the context becomes the captured arguments followed by the leftover; otherwise the context is left alone |
| Expansion.AttributeMatch | src/Router.php:510-536 | the quick '/'-count test, then the segment loop (stated by QuickCheckRefuses, PlainRouteMatchesPrefix, WildcardCaptures and LiteralMismatch) |
| Expansion.MatchSegments | src/Router.php:521-533 | the segment loop: literal segments must agree, a '*' collects the context segment, and the rest of the context is appended at the end |
| Expansion.QuickCheckRefuses | src/Router.php:514-516 | an attribute route with more '/' than the context is refused without running the loop |
| Expansion.PlainRouteMatchesPrefix | src/Router.php:522-535 | a route of literal segments matches any context that continues it, and the new context is what follows |
| Expansion.WildcardCaptures | src/Router.php:526-527 | a '*' segment collects the context segment in its place |
| Expansion.LiteralMismatch | src/Router.php:528-529 | a literal segment that differs from the context's rejects the match |
| MethodAwareRouter.GetRequestMethod | src/Adapters/MethodAwareRouter.php:112-126 | a POST whose override field is a non-falsy string naming PUT, PATCH or DELETE in any case gives that method uppercased; every other request keeps its method exactly as sent |
| MethodAwareRouter.NoMethodIsGet | src/Adapters/MethodAwareRouter.php:117 | without a request method the decision is GET, whatever was posted |
| MethodAwareRouter.OverrideOnlyFromPost | src/Adapters/MethodAwareRouter.php:118-125 | a result other than the method sent means a POST overridden by the posted field, to one of PUT, PATCH, DELETE |
| MethodAwareRouter.OnlyOverrideKeyRead | src/Adapters/MethodAwareRouter.php:118 | only the posted field under the override key affects the decision |
| MethodAwareRouter.GuardedServe | src/Adapters/MethodAwareRouter.php:137-143 | a shortcut's method check calls the handler on the request exactly when the method captured at registration equals the shortcut's, and otherwise answers 405 |
| MethodAwareRouter.MethodAwareRouter.constructor | src/Adapters/MethodAwareRouter.php:13 | a fresh router, with "_METHOD" as the override key |
| MethodAwareRouter.MethodAwareRouter.Any | src/Adapters/MethodAwareRouter.php:24-26 | add() with no middleware |
| MethodAwareRouter.MethodAwareRouter.Shortcut | src/Adapters/MethodAwareRouter.php:37-91 | add() followed by exactly one method check, which holds the shortcut's method and the method read at registration |
| MethodAwareRouter.MethodAwareRouter.SetMethodOverrideKey | src/Adapters/MethodAwareRouter.php:102-104 | the key getRequestMethod consults becomes the given one |
| RoutePath.NormalizePath | src/RoutePath.php:36 | the path starts with '/', has no trailing '/' unless it is "/", and never starts with "//" |
| RoutePath.NormalizeIdempotent | src/RoutePath.php:36 | normalising a normalised path changes nothing, so a RoutePath built from getPath() has the same path |
| RoutePath.NewRoutePath | src/RoutePath.php:29-41 | the path is normalised; exactly the class or the closure is set, as given; method and authorize are stored as given |
| RoutePath.ClassOrClosure | src/RoutePath.php:37-38 | exactly one of getClass() and getClosure() is set |
| RoutePath.Defaults | src/RoutePath.php:32-33 | without the optional arguments there is no method and authorisation is required |

## Left out

- PHP reflection (src/Router.php:220-244, 365-380, 473) is an input. The model takes `ClassInfo` and `MethodInfo` from `Env.classes`, and a closure handler carries its parameter descriptors. `getMethod` is modelled as an exact name lookup: PHP's case-insensitive method names are not modelled.
- The `classReflections` cache (src/Router.php:230-233) is omitted. It stores reflection objects and changes no result.
- Router.Router.ReflectHandler: of the ReflectionExceptions it wraps, only a missing class and a missing method are modelled. Exception codes and chained exceptions are not.
- `getArguments()` (src/Router.php:151) is not defined in the route record. It is `Env.getArguments`, a function of the route's context.
- `getUriPath()` (src/Router.php:443-447) reads `$_SERVER`. The request path is a parameter of dispatch.
- The dependency handler, `call_user_func_array`, handler bodies and middleware `handle()` bodies are inputs: `Env.resolve`, `Env.call` and `Env.decide`.
- A middleware's `handle()` either calls the next layer with a request or answers by itself. What it does with the next layer's result is not modelled: that result is returned as it is.
- `BackedEnum::from` and PHP's type juggling under `strict_types=0` are runtime behaviour. A built-in argument is passed as the raw segment, and an enum argument as `EnumCase(type, segment)`.
- The `$_SERVER` and `$_POST` reads of MethodAwareRouter are the `Superglobals` parameter. `http_response_code(405)` followed by `exit` is the `MethodNotAllowed` outcome, which ends the pipeline there.
- src/PsrRouter.php and src/Extension/PsrRouter.php are not part of this model. They adapt the pipeline to PSR-7/PSR-15 objects from libraries that are not part of the repository.
- Router.Router.RequestHandlerFactory: a class factory records the route's class method when it is built. The PHP closure reads `$route->classMethod` each time it is called. The two differ only if the method changes after the factory exists.
- Router.Router.Group: a group callback is a sequence of `Registration` values: add() calls and nested group() calls. Other statements a callback may run are not modelled.
- RouteDefinition.RouteDefinition.constructor: the record follows src/Router.php.
  - src/Definition/RouteDefinition.php belongs to another revision. Its constructor takes a leading `segment`, and its `context` is an array.
  - Router.php constructs the record from a pattern and a handler, and uses `context`, `nodeContext`, `factory` and `reflection` as string and object fields.
  - The array form is kept as `contextSegments`.
- ClassRoute.ClassRoute.constructor and ClosureRoute.ClosureRoute.constructor: each class holds only its own fields, plus `skipReflection` for closure routes. The fields they inherit from the route record are not modelled.
- Router.Router.Dispatch: when the route found has no factory yet, the contract says only that the answering route is one the router holds, with a factory. Which route class expansion picks is stated by Router.Router.Expand and Router.Router.ResolveClassRoute.
- Router.Router.ResolveClassRoute: for an expansion, it states the possible errors and that every registered method pattern is in the static table. The route returned is stated by Router.Router.Expand.
- Node.MatchReturnsLastInserted: it covers histories of clean patterns (no leading, trailing or doubled '/') without '*' segments, matched by clean paths. For patterns with '*', tails may hold '*' literally (see Findings), and what match() finds is stated only for single tables.
- MethodAwareRouter.MethodAwareRouter.Shortcut: get(), post(), put(), patch() and delete() are one method, parameterised by the `Verb` they check.
- `matchAttributeRoute` (src/Router.php:510-536) is private and has no caller in src/Router.php. It is modelled on its own.
- PHP strings are byte strings. Here they are `seq<char>`, and `strtoupper` and `strtolower` change only ASCII letters.
- Exceptions are `Err` values that carry the exception class and message. `Error` has three kinds: InvalidRoute, RouterConfiguration and Logic.

## Findings

| source | as written | input that shows it | evidently intended | confidence | as-written member | corrected member |
|---|---|---|---|---|---|---|
| src/Foundation/Node.php:67-70 | a new literal child stores the whole rest of the pattern as its compact tail, '*' segments included, and match() only compares tails as raw strings | insert "w/*" into an empty trie, then match "w/t": no route, while tests/WildcardTest.php:21-25 expects the capture "test" for "/wild/*" and "/wild/test" | a '*' in the rest stays a wildcard: the rest becomes a tail only when it has no '*' segment, otherwise the walk goes on through a new empty child | not executed | Node.WildcardInTailLost | Node.WildcardAtEndMatches |
| src/Router.php:279-281 | the converted method path, with '_' already turned into '/', is compared with "__invoke" | a class with a public __invoke() added under "p": its path "//invoke" is appended, and "p" itself gets no __invoke route | compare the method name, so __invoke() serves the entry pattern like index() | not executed | Expansion.InvokeAppended | Expansion.ConventionPatternCorrected |

The router's methods follow the code as written. Node.Node.Insert builds its tables with Node.InsertFrom, the walk as written. Node.NewChildTakesRest states, on every table, that a new literal child takes the whole rest of the pattern as its tail. Node.InsertFromCorrected is the corrected walk:

- Node.CorrectedKeepsTailsLiteral proves that under it no compact tail holds a '*'.
- Node.WildcardAtEndMatches proves that under it "w/t" is matched through the wildcard.
- Node.CorrectedAgreesOnLiteral proves that the two walks build the same table for every pattern without a '*'.

Class expansion registers with Router.MethodPattern, which uses Expansion.ConventionPattern, the convention as written. Expansion.ConventionPatternCorrected is the corrected convention, and Expansion.CorrectedAgrees proves that the two differ only on __invoke.
