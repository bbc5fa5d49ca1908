# Build and release tooling: a verified model

This project models the algorithmic cores of the repository's build and release scripts in Dafny and proves what
those scripts are for. Objects with mutable state are classes, loops are loops with invariants, and each such method
is tied to a specification function or relation; the main results are lemmas about those specifications, over all
inputs, all interleavings or all runs.

`dafny verify dfyconfig.toml` verifies the whole project.

## What is modelled

**Dependency ordering** (`scripts/package-graph.ts`). `Digraphs` defines reachability, strongly connected components
and sinks with no reference to any algorithm. `ComponentSearch.Search` is Tarjan's search with its index, low-link,
stack and component fields; `ComponentInvariants` holds the invariant and one lemma for each thing a visit does.
`Layering` defines the rounds of the ordering declaratively: every ready package, by the place of its group in the
given order and then by name, or, when none is ready, the sink cycle whose first member comes first. `PackageGraph.TopoSort` is proved to emit exactly such rounds, and
the promises and the confluence are proved of all round sequences. The throws "lost its active component", "lost an
indexed node" and "could not order" are the `assert false` branches and the preconditions of `RequiredValue`: no run
reaches them.

**Coverage scheduling** (`scripts/coverage-partitions.ts`). `BucketHeaps.SiftDown` works in place on an array of
bucket indices; `CoveragePartitions.AssignWeightedPartitions` is the placement loop over it. It is proved to make
greedy choices, and `Loads` proves Graham's bounds for every sequence of greedy choices, by a slot-counting argument
instead of a minimal counterexample. The doc comment at `scripts/coverage-partitions.ts:295` says that every returned
partition is non-empty. It is not, with fewer files than partitions or with negative durations;
`CoveragePartitions.RefusedIff` gives the exact condition.

**Three-valued lookup** (`scripts/gen-config-catalog.ts`). `TypePaths.Lookup` walks a possibly cyclic graph of
declarations with the shared `seen` set. "Present" is defined apart from the walk: a valuation assigns a truth value
to every question and respects the declarations where each type follows from its parts. Left free are type parameters,
names bound to something out of reach, `keyof`, qualified names, and what an index signature grants. An interface
declares what all its declarations in the file declare together, a method or an accessor declares a member as a
property does, and a name that the file binds means what it is bound to, even if it is spelled `Required` or `Array`.

The code looks at less, so the doc comment's promise "never 'missing'" fails in these ways: the loop at lines 337-341
skips everything but property signatures (methods, accessors, index signatures); line 338 compares with the source
text of a name (quoted and computed names); `findTypeDecl` takes the first declaration (merged interfaces); lines
390-397 take a utility or array name for the built-in one without asking what the file binds it to, also at the head
of a qualified name; line 399 does not know type parameters, which may be named like a declaration; line 380 takes
`keyof T` for `T`; and a name may be found to stand for another declaration than it does (see below).
`TypePathSoundness.ReadsAt` collects what has to hold at a node, and `LookIsSound` carries it along the walk: where
the nodes on the way are read right, every answer is right under every valuation. For the members of a single type
`OneMemberIff` and `VisibleIff` show that the condition is also necessary. `TypePathExactness` is the other
half: where nodes are read right and names are found if they can be, "found" is said of all that every valuation makes
present and "missing" of all that none does, so that "unknown" is said only where valuations differ. The recursion
guard and termination have their own theorems (`TypePathWalk`); the walk does not end on a cycle of aliases such as
`type A = A['x']`.

`ExportedDeclarations` is the search for a name through imports and chains of re-exports. Its `seen` set is shared by
all branches; the search is proved to find the same end as following every chain by itself in the order of the
re-exports, which determines its result. The doc comment says EXPORTED. `ModuleExports` defines what a module exports
under a name, by the ResolveExport operation of section 16.2.1.6.3 of ECMA-262, and proves that the operation binds
a name exactly when all chains of exports not hidden by others lead to one thing. The search takes re-exports in the
order written, so it finds a declaration behind `export *` that an explicit export hides, one of two that make the
name ambiguous, a local one that is exported under another name, and one that is not exported at all;
`FindsExportIff` and `TidyFindsIff` say when it finds the module's export.

`SchemaPaths` is the grammar of the paths and the schema walker that prints them. `SchemaCompleteness` defines what a
schema declares, as the walker's doc comment has it: top-level keys and nested paths through object and array
compositions, a value of any other kind contributing none; whether a value that is not written out as a composition may
stand for one is a parameter. Keys that are not named are left open: a computed key, a spread, the entries of an
object given by a name, and whatever a chained call other than a refinement makes of a schema, such as `set`, which
adds or replaces a property (vendor/schemastery/src/index.ts:309-312). The comment also says that the walk reports
everything it cannot see. It does not report a computed key, such a chained call, a union variant that is no call, or,
in a nested object, a shorthand key, a spread or entries given by a name; `CompleteIff` proves that in the model these
are all the ways to lose a key.

**Resumable publication** (`scripts/publish-npm-baseline.ts`). One registry command is one step, and a history is any
number of publications of one bundle that take turns in any order, each stopped after any command and started again.
`latest` must not reach the bundle before everything is in place. It does when the run gets as far as the entry
package, other packages are still to come, and publishing the entry package moves its `latest`: because the bundle's
own dist-tag is `latest`, or because the registry points `latest` of a package without that tag at its first version.
`Publication.GuardedIff` proves that there is no other way, for every bundle and every registry.

**Calendar arithmetic** (`scripts/archived-agent-notes.ts`). `Date.UTC` and the field getters are written out from
section 21.4.1 of ECMA-262, and `CalendarDates.ValidDateIff` compares `validDate` with the days of the months.

**Source rewriting** (`scripts/markdown.ts`, `scripts/project-doc-site.ts`). The scanners are loops proved equal to
functions of the position; `MarkdownDestinations.RelocatesIff` says for which URLs a splice is found again, and
`Splicing.RewriteSubstitutes` that the descending splices are one simultaneous substitution.

**Worker pools and worklists** (`scripts/benchmark-next-package-dependency.ts`, `scripts/publint-all.ts`). A pool is a
shared cursor and a list of workers interrupted only where they await; the theorems hold on every interleaving.

**Framing, pairing and quoting** (`scripts/client-build-environment.ts`, `scripts/paired-markdown-derivatives.ts`,
`scripts/publish-npm-baseline.ts`). A decoder for the hashed byte stream, the chains of `.zh.md` names, and a reader
for the quoting rules of section 2.2 of the POSIX Shell Command Language.

## Model

| member | source | states |
|---|---|---|
| `ComponentSearch.SinkCycles` | scripts/package-graph.ts:94-144 | the result is exactly the cyclic strongly connected components with no edge to a remaining package outside, each once; it is non-empty when every remaining package depends on a remaining one |
| `ComponentSearch.Search.Visit` | scripts/package-graph.ts:102-133 | a visit keeps the search invariant, returns a low-link that is attained by a stacked package and bounds every edge below, and never reaches a throw |
| `ComponentSearch.Search.PopComponent` | scripts/package-graph.ts:120-132 | popping stops exactly at the visited package, with the caller's stack as it was and the popped names no longer stacked |
| `ComponentInvariants.SegmentIsComponent` | scripts/package-graph.ts:119-132 | when link and index agree, the stack segment above the entry stack is a whole strongly connected component |
| `ComponentInvariants.ReturnFromVisit` | scripts/package-graph.ts:112-114 | the caller's scan invariant survives a recursive visit and the minimum of the links |
| `ComponentInvariants.SeeStacked` | scripts/package-graph.ts:115-117 | the caller's scan invariant survives lowering the link to a stacked dependency's index |
| `ComponentSearch.FilterIsExact` | scripts/package-graph.ts:138-143 | filtering a list of all components leaves exactly the sink cycles, up to the order of members |
| `ComponentSearch.SomeSinkCycle` | scripts/package-graph.ts:77-80 | if every remaining package has a remaining dependency, a sink cycle exists: the "could not order" throw is unreachable |
| `Layering.ComparePackagesOrders` | scripts/package-graph.ts:152-158 | the comparator is total and transitive, and ties only packages of equal name and group |
| `Layering.CompareIs` | scripts/package-graph.ts:146-158 | the sign of the comparator: the group listed earlier, or the listed one of two, or else the group earlier in the locale order comes first, and inside a group the locale order of short names decides |
| `PackageGraph.OrderAll` | scripts/package-graph.ts:69-89 | the loop ends and emits a sequence of rounds that places every package; in a round of ready packages each comes after those whose group or, inside the group, whose name comes first, and a cycle round is the cycle whose first member in that order comes first |
| `PackageGraph.TopoSort` | scripts/package-graph.ts:60-90 | it fails exactly when some peer names no package, on the first such pair in input order; otherwise the output is such a sequence of rounds, placing every package |
| `PackageGraph.TopoSortPromises` | scripts/package-graph.ts:60-90 | for unique names the output is a permutation of the input, each dependency precedes its dependent or lies in the same cycle, and cycles are contiguous |
| `PackageGraph.TopoSortConfluent` | scripts/package-graph.ts:69-90 | the output depends only on the set of packages and the ranking, not on input order or on the order in which components are found |
| `Layering.LayeredUnique` | scripts/package-graph.ts:72-88 | the rounds determine the output uniquely |
| `BucketHeaps.SiftDown` | scripts/coverage-partitions.ts:323-351 | in place, from a heap whose root grew: the result is a heap again, and a permutation of the same indices |
| `BucketHeaps.RootIsLeast` | scripts/coverage-partitions.ts:311-317 | the root of the heap is at most every bucket by weight, then by count |
| `BucketHeaps.PermutationFacts` | scripts/coverage-partitions.ts:309 | a permutation of the indices holds every bucket at exactly one place |
| `CoveragePartitions.PlaceNext` | scripts/coverage-partitions.ts:310-318 | one turn of the loop is a greedy choice, lands the file in that bucket only, and keeps heap and permutation |
| `CoveragePartitions.AssignWeightedPartitions` | scripts/coverage-partitions.ts:297-320 | the result is the outcome of a greedy run over the files, heaviest first; the heap throw happens exactly with files and no partitions |
| `CoveragePartitions.QueuedWeight` | scripts/coverage-partitions.ts:303-304 | a file counts with its recorded duration, or with 1 where none is recorded |
| `CoveragePartitions.QueueOrder` | scripts/coverage-partitions.ts:303-305 | the heavier of two files is placed first, and of two with one weight the one first in the locale order |
| `CoveragePartitions.AssignmentConserves` | scripts/coverage-partitions.ts:297-320 | every file lands in exactly one partition, as often as it was listed |
| `CoveragePartitions.HeaviestBounded` | scripts/coverage-partitions.ts:297-376 | m times the heaviest partition is at most the total weight plus m - 1 times the heaviest file |
| `CoveragePartitions.NearOptimal` | scripts/coverage-partitions.ts:289-376 | 3m times any partition is at most 4m - 1 times the heaviest list of any other distribution of the files over m lists |
| `Loads.LptBound` | scripts/coverage-partitions.ts:289-320 | the same bound for every descending weight list, every greedy run and every rival assignment |
| `Loads.HeavyItemFits` | scripts/coverage-partitions.ts:289-320 | an item heavier than a third of a rival's roof still fits under that roof when the greedy rule places it |
| `CoveragePartitions.RefusedIff` | scripts/coverage-partitions.ts:486-494 | for all weights: some partition is empty exactly with fewer files than partitions, or a negative weight among the m - 1 heaviest files |
| `CoveragePartitions.RefusedIffScarce` | scripts/coverage-partitions.ts:481-494 | with non-negative weights the run is refused exactly when there are fewer files than partitions |
| `Loads.NegativeLeavesEmpty` | scripts/coverage-partitions.ts:295-320 | two negative weights over two partitions: one partition is always empty, despite enough files |
| `CoveragePartitions.ProjectsSplit` | scripts/coverage-partitions.ts:388-393 | the two project lists of a partition hold each of its files once |
| `CoveragePartitions.IncludeIs` | scripts/coverage-partitions.ts:388-393 | one list is, in order and with slashes for backslashes, exactly the files whose project is "process-bound", the other exactly all other files, those without a project included |
| `CoveragePartitions.EveryFileRunsOnce` | scripts/coverage-partitions.ts:388-411 | across all partitions and both projects every inventory file is included exactly once |
| `CoveragePartitions.HeaviestFirstPermutes` | scripts/coverage-partitions.ts:529-531 | the final sort keeps every file and puts heavier partitions first |
| `CoveragePartitions.HeaviestFirstStable` | scripts/coverage-partitions.ts:529-531 | partitions of one weight keep their order |
| `TypePaths.Lookup.LookupPath` | scripts/gen-config-catalog.ts:317-403 | the walk with the shared mutable set gives the answer and the final set of the specification walk |
| `TypePathSoundness.LookIsSound` | scripts/gen-config-catalog.ts:309-403 | where the names and member lists the walk comes to are read right, "found" is present and "missing" is absent in every valuation that respects the declarations, whatever was seen before |
| `TypePathSoundness.PlainIsLegible` | scripts/gen-config-catalog.ts:335-400 | on declarations with bare properties only, no interface in two pieces, no built-in name bound in its file and no name found to stand for what it does not, everything is read right |
| `TypePathSoundness.ShadowedUtilityIsMissed` | scripts/gen-config-catalog.ts:390-394 | with `type Required<T> = T & { required: true }` in the file, `required` of `Required<{}>` is answered "missing" and is present in every valuation |
| `TypePathSoundness.ShadowedParameterIsMissed` | scripts/gen-config-catalog.ts:399-400 | a member of a type parameter named like a declared interface is answered "missing" and is present in some valuation |
| `TypePathSoundness.OneMemberIff` | scripts/gen-config-catalog.ts:335-343 | the answer for one member of a literal or an interface without bases is right exactly when some property has the name as its text just when some element declares the name, and otherwise no index signature is there |
| `TypePathSoundness.VisibleIff` | scripts/gen-config-catalog.ts:335-364 | all members are answered right exactly when every element is a bare property of the first declaration or declares no member: no quoted or computed name, method, accessor, index signature or later declaration |
| `TypePathSoundness.MethodIsMissed` | scripts/gen-config-catalog.ts:338 | a declared method is answered "missing" and is present in every valuation |
| `TypePathSoundness.IndexIsMissed` | scripts/gen-config-catalog.ts:338-342 | any key of a type with an index signature is answered "missing" and is present in some valuation |
| `TypePathSoundness.MergedIsMissed` | scripts/gen-config-catalog.ts:137-143 | a member of an interface's second declaration is answered "missing" and is present in every valuation |
| `TypePathSoundness.QualifiedHead` | scripts/gen-config-catalog.ts:386-400 | `Array.Name<T>` and the like are answered as `Array<T>`; every other qualified name is unknown |
| `TypePathSoundness.PresentRespects` | scripts/gen-config-catalog.ts:309-316 | presence that grants everything the types leave open, and presence that grants nothing of it, both respect the declarations: the valuations are not an empty class |
| `TypePathExactness.ClearIsExact` | scripts/gen-config-catalog.ts:309-403 | on plain declarations that resolve throughout, without unions, arrays and untyped properties, the walk without the guard answers, where it ends, "found" for what is present and "missing" for what is not, in every valuation |
| `TypePathExactness.LookIsComplete` | scripts/gen-config-catalog.ts:309-403 | where moreover names are found if they can be, the walk without the guard, where it ends, says "found" exactly of what is present in every valuation and "missing" exactly of what is present in none, through arrays, unions and all other nodes |
| `TypePathExactness.LookupIsComplete` | scripts/gen-config-catalog.ts:309-403 | the same for the walk with the guard, if it comes to no declaration again with as many steps left |
| `TypePathExactness.PlainIsExposed` | scripts/gen-config-catalog.ts:335-400 | on plain declarations whose names are found to stand for what they mean, both conditions on names and member lists hold everywhere |
| `TypePathWalk.GuardOnlyWeakens` | scripts/gen-config-catalog.ts:322-326 | a hit on the recursion guard turns an answer into "unknown" or leaves it: whatever was seen, no other answer changes |
| `TypePathWalk.LookupEnds` | scripts/gen-config-catalog.ts:317-403 | on declarations with a budget for each, so that indexed access cannot lengthen the path for ever, the walk ends |
| `TypePathWalk.CycleEndsIff` | scripts/gen-config-catalog.ts:361-399 | on a cycle of aliases that pass paths on, every walk ends exactly when no alias of the cycle makes the path longer |
| `TypePathWalk.GrowingCycleNeverEnds` | scripts/gen-config-catalog.ts:381-385 | on a cycle with growth no stack is deep enough, at any path and whatever shorter paths were seen |
| `TypePathWalk.SelfIndexedNeverEnds` | scripts/gen-config-catalog.ts:381-385 | on `type A = A['x']` no stack is deep enough, at any path |
| `TypePathWalk.BudgetsNotNeeded` | scripts/gen-config-catalog.ts:335-385 | on two declarations that admit no budgets every walk ends all the same, because a member to go round by is missing |
| `ExportedDeclarations.ExportSearch.Find` | scripts/gen-config-catalog.ts:255-277 | with the set shared by all branches the search finds the end that following each chain by itself finds first; giving up leaves the names seen off the chain leading only back to it |
| `ExportedDeclarations.FindExportedTypeDecl` | scripts/gen-config-catalog.ts:253-277 | the result is the end that comes first in the order of the re-exports; the search gives up exactly when no chain has an end, which is a declaration or an unreadable file |
| `ExportedDeclarations.FirstEndReaches` | scripts/gen-config-catalog.ts:253-277 | the end that comes first is an end, and a chain of re-exports leads to it |
| `ExportedDeclarations.HitsExportedIff` | scripts/gen-config-catalog.ts:253-259 | all searches from a node and the nodes it passes to find declarations that their own files export exactly when every file that declares a name at the end of a chain exports it |
| `ExportedDeclarations.UnexportedIsFound` | scripts/gen-config-catalog.ts:253-259 | a declaration that its file does not export is found through `export *` |
| `ExportedDeclarations.DeclForTypeName` | scripts/gen-config-catalog.ts:282-304 | a name is found to stand exactly for the file's own declaration or else the first end of a chain from its import; it is "unknown" exactly when there is neither |
| `ExportedDeclarations.TargetIs` | scripts/gen-config-catalog.ts:260-274 | re-exports are followed out of relative `.ts` specifiers only: a star with the same name, a list with what its first element of that name is called inside |
| `ExportedDeclarations.ImportTargetIs` | scripts/gen-config-catalog.ts:285-303 | a relative import is followed only to a `.ts` path, any other only to the readable entry of a workspace package, under the name it imports |
| `ModuleExports.ExportedIs` | scripts/gen-config-catalog.ts:253-254 | what a module exports under a name is bound exactly to the one thing that chains of exports not hidden by others lead to, and ambiguous exactly if there are several |
| `ModuleExports.FindsExportIff` | scripts/gen-config-catalog.ts:253-277 | a declaration the search finds is the module's export exactly when such chains lead to it and nowhere else |
| `ModuleExports.TidyFindsIff` | scripts/gen-config-catalog.ts:253-277 | where files export what they declare, and explicit re-exports stand alone and can be followed, the search finds the module's export exactly when all chains that end at a declaration end at the same |
| `ModuleExports.HiddenStarIsFound` | scripts/gen-config-catalog.ts:262-274 | `export *` before an explicit export of the name: the search finds the declaration that the explicit export hides |
| `ModuleExports.AmbiguousIsFound` | scripts/gen-config-catalog.ts:262-274 | of two conflicting `export *` the search finds the first, where the module exports neither |
| `ModuleExports.RenamedIsFound` | scripts/gen-config-catalog.ts:259-260 | with `export { Y as X }` beside a local `X` the search finds the local `X`, where the module exports `Y` |
| `SchemaPaths.ParsePath` | scripts/gen-config-catalog.ts:232-245 | the loops compute the member and array steps of the path |
| `SchemaPaths.RoundTripIff` | scripts/gen-config-catalog.ts:228-245 | parsing undoes printing exactly when no member name contains a dot or ends in `[]` |
| `SchemaPaths.PrintedParsed` | scripts/gen-config-catalog.ts:232-245 | printing undoes parsing for every text, so distinct texts parse to distinct steps |
| `SchemaPaths.SchemaWalk.Visit` | scripts/gen-config-catalog.ts:422-500 | the walk appends to keys, composed packages and reports what the specification finds, in order |
| `SchemaPaths.SchemaWalk.CollectValuePaths` | scripts/gen-config-catalog.ts:432-451 | the walk below a value appends the paths of its nested members, in order |
| `SchemaPaths.WalkPrintsDescents` | scripts/gen-config-catalog.ts:412-500 | the printed keys are exactly the texts of the member and array steps the walk descends by, defined without strings |
| `SchemaCompleteness.CompleteIff` | scripts/gen-config-catalog.ts:412-500 | the keys are the texts of all declared paths, in order and as often, whatever unseen pieces declare, or something is reported: exactly when something is reported or the walk meets no union variant that is no call, nested entry that is no assignment, nested object given by name, computed key, chained call that does more than refine, composition by something else than schemastery and, if values not written out may stand for compositions, no such value |
| `SchemaCompleteness.NamedValueDropped` | scripts/gen-config-catalog.ts:432-451 | a key whose value is a name, or the call of a helper, prints alone, which is all exactly if such values stand for no compositions |
| `SchemaCompleteness.ComputedKeyMisread` | scripts/gen-config-catalog.ts:461-464 | a computed key `[K]` prints its own text without a report, whatever it declares |
| `SchemaCompleteness.ChainedCallIgnored` | scripts/gen-config-catalog.ts:492-495 | a chained call that does more than refine changes nothing for the walk, so that what it adds or takes away is lost without a report |
| `SchemaCompleteness.NestedKeysDropped` | scripts/gen-config-catalog.ts:438-446 | a nested shorthand key, a nested spread and a nested object given by name are dropped without a report |
| `SchemaCompleteness.DeclaredParseIff` | scripts/gen-config-catalog.ts:228-500 | where everything is printed, the keys parse to the declared paths, one by one, exactly when all their names are clean |
| `SchemaPaths.WalkFindsGiven` | scripts/gen-config-catalog.ts:453-500 | the composed packages and the reports are exactly those given by the base expressions the walk comes to, defined as a relation on expressions |
| `SchemaPaths.DescentRoundTripIff` | scripts/gen-config-catalog.ts:412-500 | all paths the walk descends by parse back to themselves exactly when all member names on them are clean |
| `SchemaPaths.PrintedPathsParse` | scripts/gen-config-catalog.ts:228-500 | for clean names, the parsed keys are exactly the steps descended by |
| `SchemaPaths.DottedKeysCollide` | scripts/gen-config-catalog.ts:442-443 | a dotted key prints the path of a nested key and parses as the nested one |
| `SchemaPaths.UnionDropsVariant` | scripts/gen-config-catalog.ts:469-490 | an element that is no call adds one composed package or one report to an intersect, and nothing to a union, wherever it stands |
| `Publication.LatestIsSafe` | scripts/publish-npm-baseline.ts:625-654 | in any history of runs from a guarded registry, stopped and restarted anywhere: `latest` is on the bundle only while every manifest package is in place, and no stored integrity changes |
| `Publication.GuardedIff` | scripts/publish-npm-baseline.ts:630-651 | a run keeps `latest` safe throughout exactly when it is safe at the start and the run does not reach an entry package that moves `latest` before a later package is in place |
| `Publication.RerunVerifiesIff` | scripts/publish-npm-baseline.ts:625-684 | after any history, the next run let finish verifies exactly when the registry at the very beginning had no conflicting integrity and the entry package is listed or stored; then all is in place |
| `Publication.RunVerifiesIff` | scripts/publish-npm-baseline.ts:625-698 | one undisturbed run ends, and verifies exactly when the registry is compatible with the bundle |
| `Publication.GuardsIff` | scripts/publish-npm-baseline.ts:630-651 | the bundle is guarded on every established registry exactly when its dist-tag is another tag, or the entry package is last or absent |
| `Publication.FirstPublicationIff` | scripts/publish-npm-baseline.ts:630-651 | a first publication to an empty registry that adopts tags is guarded exactly when no package follows the entry package |
| `Publication.RegistryPublication.Publish` | scripts/publish-npm-baseline.ts:625-654 | the method verifies exactly from a compatible registry, and leaves everything in place and `latest` moved |
| `Publication.RunLeavesAlone` | scripts/publish-npm-baseline.ts:625-654 | a run, stopped anywhere, stores nothing under any other name or version than those of the bundle, and moves no tag but the bundle's own on its packages and `latest` |
| `Publication.RegistryPublication.PublishSteps` | scripts/publish-npm-baseline.ts:630-653 | the loops are an undisturbed run of single registry commands |
| `Publication.RegistryPublication.EnsureDistTag` | scripts/publish-npm-baseline.ts:755-764 | on success the tag is on the bundle's version; at most that tag changes, and on failure nothing |
| `Publication.RegistryPublication.VerifyRemote` | scripts/publish-npm-baseline.ts:662-698 | verified exactly when every package is in place with its tag and the entry's `latest` is on the bundle; nothing changes |
| `CalendarDates.ValidDateIff` | scripts/archived-agent-notes.ts:70-78 | accepted are exactly the dates of the proleptic Gregorian calendar from the year 100 to 9999, printed with four, two and two digits and dashes between |
| `CalendarDates.SurviveIff` | scripts/archived-agent-notes.ts:76-77 | the three fields come back from the day number unchanged exactly for real dates from the year 100 on |
| `CalendarDates.MakeDayFinds` | scripts/archived-agent-notes.ts:76 | the day number of a month's first day, carried months included, reads back as that year, month and day 1 |
| `CalendarDates.EarlyYearRefused` | scripts/archived-agent-notes.ts:70-78 | 1 January of the year 50 is a real date and is refused |
| `MarkdownDestinations.FindDestinationRange` | scripts/markdown.ts:106-140 | the loops compute the range of the specification, or fail where the source throws |
| `MarkdownDestinations.FindLabelEnd` | scripts/markdown.ts:90-104 | the loop computes the end of the label |
| `MarkdownDestinations.LabelEndIs` | scripts/markdown.ts:90-104 | that end is the first unescaped closing bracket at which as many brackets are closed as were opened since the first; there is none exactly when the scan fails |
| `MarkdownDestinations.RelocatesIff` | scripts/markdown.ts:106-140 | replacing the range with a non-empty URL and scanning again gives exactly the URL's range, for exactly the URLs the form reads as themselves |
| `MarkdownDestinations.PlainUrlRelocates` | scripts/markdown.ts:127-139 | a URL without white space or backslash, not starting with `<`, is read whole in the bare form exactly if its parentheses are balanced, unless it comes last; there balance is enough |
| `MarkdownDestinations.PlainAngleUrlRelocates` | scripts/markdown.ts:120-124 | a URL without backslash is read whole in the angle form exactly if it has no `>` |
| `MarkdownDestinations.TrailingBackslashIsLost` | scripts/markdown.ts:130 | a balanced URL that ends in a backslash is not found again: it escapes the character after it |
| `Splicing.ApplyReplacements` | scripts/project-doc-site.ts:197-201 | the loop applies the replacements in descending order of start |
| `Splicing.RewriteSubstitutes` | scripts/project-doc-site.ts:156-202 | for disjoint ranges collected in any order the result is their simultaneous substitution: each range holds its value, values at one place last listed first, and every other character is kept, in order |
| `Splicing.LastFirstIff` | scripts/project-doc-site.ts:198 | sorting by descending start puts ranges last first exactly when they do not overlap and no empty range is listed before one that begins at its place |
| `Splicing.SameStartIff` | scripts/project-doc-site.ts:198-200 | for an empty range where another begins, both orders of listing agree exactly when the cut text happens to: listed first, the inserted text is cut into |
| `ShellQuoting.CopyableCommandReads` | scripts/publish-npm-baseline.ts:994-1003 | splitting the printed text by the shell's quoting rules gives back exactly the command and arguments |
| `ShellQuoting.ArgumentReads` | scripts/publish-npm-baseline.ts:998-1003 | one quoted argument, empty or with single quotes, reads as one word equal to the argument |
| `ShellQuoting.QuotesIff` | scripts/publish-npm-baseline.ts:998-1003 | a word is printed as it is exactly when it is not empty and has only letters, digits and the eight other listed characters; otherwise it is put in single quotes |
| `ShellQuoting.EscapeReplaces` | scripts/publish-npm-baseline.ts:1000-1002 | inside, each single quote becomes a quote in double quotes between two stretches, and all other text stays |
| `ShellQuoting.JoinIs` | scripts/publish-npm-baseline.ts:994-996 | one blank stands between the printed words, wherever the list is cut |
| `ArtifactFraming.FeedDigest` | scripts/client-build-environment.ts:329-345 | the four updates for each artifact feed the framed stream; a build without artifacts is an error |
| `ArtifactFraming.DecimalIs` | scripts/client-build-environment.ts:336-343 | a length is spelled in ASCII digits without a leading zero, and reads as the length |
| `ArtifactFraming.OneArtifact` | scripts/client-build-environment.ts:336-343 | one artifact is its path and its content, each behind its length and a colon |
| `ArtifactFraming.StreamDecodes` | scripts/client-build-environment.ts:336-343 | a decoder of the length-prefixed stream recovers the exact list of paths and contents |
| `ArtifactFraming.StreamInjective` | scripts/client-build-environment.ts:336-343 | different artifact lists never feed the same bytes to the hash |
| `PairedDerivatives.Partition` | scripts/paired-markdown-derivatives.ts:30-63 | the three loops split the blocks by whether their document repeats its sibling |
| `PairedDerivatives.SiblingOf` | scripts/paired-markdown-derivatives.ts:16-18 | the sibling of `stem.zh.md` is `stem.md`, for every stem (and `OnlySuffixed`: no other name has a sibling) |
| `PairedDerivatives.RepeatedIffDerivative` | scripts/paired-markdown-derivatives.ts:20-63 | the blocks of `stem.zh.md` are all derivatives if the fingerprints of `stem.md` are the same in the same order, and all primary otherwise |
| `PairedDerivatives.OthersArePrimary` | scripts/paired-markdown-derivatives.ts:20-63 | a block of a document with any other name is primary |
| `PairedDerivatives.PartitionIsCovered` | scripts/paired-markdown-derivatives.ts:20-63 | two order-preserving lists, all or nothing for each document; each derivative has a primary block at its index, with its fingerprint, down the chain of siblings |
| `PairedDerivatives.KeptWoven` | scripts/paired-markdown-derivatives.ts:57-61 | the blocks are woven from the two lists, each of which keeps their order |
| `PairedDerivatives.KeptMembers` | scripts/paired-markdown-derivatives.ts:43-61 | a block is among the derivatives exactly when its document repeats its sibling, so documents go to one list whole |
| `PairedDerivatives.ChainEnds` | scripts/paired-markdown-derivatives.ts:16-18 | down the chain of `.zh.md` names there is a document that is not a derivative and has the same fingerprints |
| `BenchmarkCandidates.ReachAll` | scripts/benchmark-next-package-dependency.ts:140-158 | the worklist ends although its queue holds duplicates, and reaches exactly the resolvable packages reachable from the target |
| `BenchmarkCandidates.NeededIff` | scripts/benchmark-next-package-dependency.ts:140-158 | a package is reachable over the edges followed exactly when a chain leads to it from the target, on which each package lists the next in its manifest as a dependency, an optional dependency or a peer that is not optional |
| `BenchmarkCandidates.Discover` | scripts/benchmark-next-package-dependency.ts:134-165 | the candidates are exactly the reachable packages that qualify, each once, in order |
| `WorkerPools.PoolRefinesMap` | scripts/benchmark-next-package-dependency.ts:182-199 | on every interleaving, in both styles of loop, each index is claimed once, in order, with at most the smaller of workers and values under way; when all workers have ended, the results are the sequential map |
| `WorkerPools.PoolProgresses` | scripts/benchmark-next-package-dependency.ts:189-197 | every step leaves less to do, and until all workers have ended one can step |
| `WorkerPools.WorkerPool.Resume` | scripts/benchmark-next-package-dependency.ts:190-196 | one resumption of a worker on the shared variables is a step of the pool and keeps its invariant |
| `WorkerPools.WorkerPool.AwaitAll` | scripts/benchmark-next-package-dependency.ts:189-198 | resumed in any order, all workers end, and the results are those of the sequential map |
| `WorkerPools.MapConcurrentMaps` | scripts/benchmark-next-package-dependency.ts:182-199 | with a positive number of jobs there are as many workers as jobs, or values if these are fewer, and the same holds for them |
| `WorkerPools.RunAllComplete` | scripts/publint-all.ts:221-239 | every target has its result: the "missing result" throw is unreachable |

## Left out

- TypePathWalk.LookupEnds: one direction only. Budgets suffice for every walk from every declaration to end, and are not necessary (`TypePathWalk.BudgetsNotNeeded`); for cycles of aliases the condition is exact (`TypePathWalk.CycleEndsIff`). In general ending depends on which members the growing path meets, as in a pushdown automaton.
- TypePathExactness.LookIsComplete: without the recursion guard only. The guard is keyed by declaration and number of steps, so it also answers "unknown" where two branches come to one declaration; `LookupIsComplete` covers the walks where that does not happen, and how far it can change an answer otherwise is `TypePathWalk.GuardOnlyWeakens`.
- SchemaCompleteness.CompleteIff: what an unseen piece declares starts with a member, so an array given by a name is not modelled. An object literal is taken to name each key once, as TypeScript requires, and the factories and refinements of schemastery are those of vendor/schemastery/src/index.ts:42-99 and 333-467.
- CoveragePartitions.NearOptimal: weights are real numbers; the rounding of floating-point sums is not modelled.
- Splicing.RewriteSubstitutes: an empty range listed before one that begins at its place is excluded, and `SameStartIff` says what happens then; the source never collects an empty range, since it skips empty paths.
- PackageGraph.TopoSortPromises: assumes unique short names, as the workspace has them; for repeated names `TopoSort` follows the `Map` of the source, in which the last package of a name wins.
- TypePaths.Lookup.LookupPath: member names written as numbers in another notation than their key are not modelled. What the walk does not enter, such as conditional and mapped types, is one kind of opaque node. Both tables of names, what they are found to stand for and what they are bound to, are given; `ExportedDeclarations` and `ModuleExports` are about them.
- Publication.RegistryPublication.Publish: `npm ping`, `npm whoami` and the confirmation are left out; a failing or interrupted command is a stop.
- WorkerPools.PoolRefinesMap: operations that reject, and `undefined` among the values of `mapConcurrent`, are not modelled. Storing a result and the next turn of a worker's loop are two steps, which only adds interleavings.
- ArtifactFraming.StreamInjective: paths are byte strings; that different path strings with lone surrogates have equal UTF-8 forms, and the strength of SHA-256, are not modelled.
- ShellQuoting.CopyableCommandReads: words are split by the quoting rules only; that a first word could be an assignment, a reserved word or start with a tilde is not modelled.
- `localeCompare` is a parameter: a total order on strings that ties only equal ones, such as `Sorting.Lexicographic`. `Array.prototype.sort` is a stable insertion sort.
- Buckets are values in an array that the placement loop replaces; the source changes the fields of shared objects.
- `extendArchiveManifest` and `validateArchiveManifestExtension`: two loops over one map, with no claim beyond each body.
- Rewriting decisions of `rewriteMarkdown` (routes, locales, image placement) and `splitMarkdownUrlTarget`: single expressions; only the ranges and the splices are modelled.
- File system, git, npm, child processes, environment variables and command-line parsing.
- The TypeScript, Markdown, YAML and TOML parsers: their trees and offsets are given.
- Catalogue and documentation rendering, templates and messages.
