# Unity dependency analyzer — a verified model

`analyze_dependencies.py` scans the C# scripts of a Unity project and draws a
dependency graph at one of three levels:
- namespaces, from `using` lines;
- classes, from usages found inside each class body;
- ECS systems, from usages found anywhere in the file that declares the system.

It marks the edges that lie on circular dependencies and writes the graph in
the Graphviz DOT language. This project models the pure core of that script
in Dafny and proves properties of the model:

- **Cycle detector** (`Cycles`, `cycles.dfy`): `find_circular_dependencies`,
  with its two phases.
  - Phase 1 is a depth-first search that collects candidate edges. It keeps
    the Python code's early return: the first hit on the recursion stack
    aborts every enclosing neighbour loop and leaves the aborted branch on the
    stack. Later roots that run into such a stale entry record only the
    direct edge into it.
  - Phase 2 keeps a candidate `(a, b)` exactly when `a` is reachable from
    `b`.
  - The result is sound: every reported edge lies on a directed cycle. It is
    not complete. `CycleExamples` (`cycles_examples.dfy`) works two graphs
    through the search step by step. One shows a stale-stack candidate being
    rejected. The other shows a cycle edge the search never proposes.
- **Scope isolation** (`Scope`, `scope.dfy`): `extract_class_scope`, with the
  brace counter written out exactly.
- **Nesting heuristic** (`Nesting`, `nesting.dfy`): the backward scan of the
  first class-mode pass. It keeps the scan window `range(i - 1, max(0, i - 50), -1)`,
  which never looks at line 0 and never more than 49 lines back.
- **Symbol tables** (`Symbols`, `symbols.dfy`): the first passes of the class
  and systems modes, which build `all_classes`, `system_classes` and
  `all_systems`.
- **Reference scanning** (`Scanner`, `References`; `scanner.dfy`, `refs.dfy`):
  - usage catalogs tried in order, with the first pattern found on a line
    deciding that line's reason;
  - the namespace-visibility filter;
  - the co-location guard `has_legitimate_class_usage`;
  - the per-symbol loop over the table.
- **Graph builders** (`NamespaceMode`, `ClassMode`, `SystemsMode`): the three
  `analyze_*` functions. Each is a fold over a sequence of units, with
  `(path, content)` given for each `.cs` file. Each returns the graph
  (`dependencies`) and the evidence (`dependency_details`).
  `SecondPass` (`second_pass.dfy`) holds what the class and systems passes
  share: the outcome of one scan, and which scan of a symbol decides its
  final entries. The second pass overwrites, so the last scan of a symbol
  wins; in class mode only scans that find something write, in systems mode
  every scan writes its targets, possibly none.
- **DOT renderer** (`Dot`, `Quoting`; `dot.dfy`, `quoting.dfy`):
  `generate_dot_content`. The renderer is given a partner, a DOT reader for
  quoted names. The lemmas show that each rendered node and edge line reads
  back as the node, or as the edge and its attributes, and that every such
  line occurs in the rendered text. They also show that an edge is red
  exactly when it is reported, that labels appear only on reported edges,
  and that a long label reads back as its first reason and the number of the
  others.

Supporting modules:
- `Dict` is Python's insertion-ordered `dict`: a key sequence plus a map.
- `Graph` provides successors, walks, reachability and cycle edges.
- `Text` provides `strip`, `count`, `split`, `replace` and `str(n)`.
- `Report` holds the detail entries and the invariants shared by the modes.
- `Wrappers` holds `Option`.

Regular expressions are not modelled. `Patterns.Lexer` bundles one function
per regex the script applies: the namespace search, the two forms of `using`
search, the declaration searches and the usage searches. Each usage search is
keyed by a constructor of the closed `Usage` enumeration, and the catalogs list
those constructors in the order the script tries them. Every result holds for
every `Lexer`. Brace counting, stripping, splitting, the framework-prefix test,
the name filter of the systems pass and all string building are concrete.

Python `set` results are modelled as follows:
- `list(set(xs))` is `Dict.Dedup`, which keeps first occurrences. Properties
  about it are stated up to membership.
- The order in which the renderer walks its node set is a parameter of
  `Dot.Render`. The parameter must list every node exactly once.

## Model

| member | source | states |
|---|---|---|
| Cycles.StackHitEdgesAreEdges | analyze_dependencies.py:33-48 | whether the hit node is on the path or is a stale entry, every recorded edge is an edge of the graph as long as the followed path is a walk |
| Cycles.Dfs | analyze_dependencies.py:32-61 | one call of `dfs` only adds to `visited` and to the candidates, and every candidate it records is an edge of the graph |
| Cycles.DfsEach | analyze_dependencies.py:56-58 | the neighbour loop, which stops at the first neighbour that reports a hit, keeps the same growth and edge facts |
| Cycles.DfsRoots | analyze_dependencies.py:63-65 | the loop over the roots in key order keeps every candidate an edge of the graph |
| Cycles.Candidates | analyze_dependencies.py:25-65 | phase 1: every candidate pair `(u, v)` satisfies `v in dependencies[u]` |
| Cycles.Reach | analyze_dependencies.py:73-85 | `can_reach_back` with its shared visited set: a positive answer means the target is reachable; a negative answer leaves a visited set that holds the start, excludes the target and is closed under the edges of the symbols this call explored |
| Cycles.ReachEach | analyze_dependencies.py:81-84 | the neighbour loop of `can_reach_back`: a hit means some neighbour reaches the target; a miss leaves every neighbour visited and the visited set closed beyond the symbols seen before |
| Cycles.CanReachBack | analyze_dependencies.py:68-87 | `is_edge_truly_circular(a, b)` is true iff `a` is reachable from `b` by zero or more edges |
| Cycles.FindCircularDependencies | analyze_dependencies.py:25-95 | every reported edge is an edge of the graph that lies on a directed cycle (soundness) |
| Cycles.ValidationKeepsExactlyReachBack | analyze_dependencies.py:87-93 | an edge is reported iff it is a phase-1 candidate whose tail is reachable from its head |
| Cycles.ValidationResult | analyze_dependencies.py:87-95 | a subset of the candidates that contains exactly those candidates whose tails reach back to their heads is the result |
| Cycles.AllCycleEdges | analyze_dependencies.py:68-93 | independent reference set: the pairs it holds are exactly the edges lying on a directed cycle |
| Cycles.ReportedAreCycleEdges | analyze_dependencies.py:25-95 | the reported edges are a subset of all cycle edges |
| CycleExamples.TriangleCandidates | analyze_dependencies.py:32-65 | on `A->B, B->C, C->A, D->A` (keys in that order) phase 1 proposes the triangle and also the direct edge `(D, A)` recorded for the stale stack entry `A` |
| CycleExamples.TriangleResult | analyze_dependencies.py:25-95 | on that graph the detector reports exactly `{(A,B), (B,C), (C,A)}`: the stale candidate `(D, A)` is rejected by phase 2 |
| CycleExamples.BowtieCandidates | analyze_dependencies.py:56-58 | on `A->B, A->C, B->A, C->A` phase 1 proposes `(A,B)`, `(B,A)` and the stale-entry edge `(C,A)`, never `(A,C)` |
| CycleExamples.MissedCycleEdge | analyze_dependencies.py:56-58 | on that graph `A->C` lies on a cycle and is among all cycle edges, yet it is not reported: the detector is not complete |
| Scope.FindDecl | analyze_dependencies.py:480-485 | the first line at or after the start on which the declaration is found, with none earlier; none when no line has it |
| Scope.FindOpen | analyze_dependencies.py:494-500 | the first line at or after the declaration that contains `{`, with none earlier; none when no such line exists |
| Scope.ExtractClassScope | analyze_dependencies.py:475-512 | empty when the declaration is missing or no `{` follows it; otherwise a contiguous run of `(1-based number, line)` pairs from the first line holding `{` on, where the brace balance counted from the declaration line stays positive after every emitted line but the last, and drops to zero or below after the last unless the unit ends first |
| Scope.ScopeBeforeOpen | analyze_dependencies.py:494-503 | before the first opening brace nothing is emitted and the counter equals the brace balance from the declaration line |
| Scope.ScopeFromLines | analyze_dependencies.py:494-510 | the loop emits a run of consecutive lines after its start index, each paired with its 1-based number, and once inside the class the run starts at the current line |
| Scope.ScopeInClass | analyze_dependencies.py:494-510 | from the first opening brace on, the emitted lines satisfy the contiguity and balance description above |
| Scope.ScopeStep | analyze_dependencies.py:495-510 | one iteration inside the class emits the current line and stops exactly when the balance through it is zero or below |
| Nesting.ScanBack | analyze_dependencies.py:184-191 | the backward scan returns the highest marked index strictly inside the window, or none when no index there is marked |
| Nesting.Enclosing | analyze_dependencies.py:183-191 | the candidate enclosing line lies strictly between `max(0, i-50)` and `i`, opens a type, and no line between it and `i` does; with no candidate no line of the window opens a type |
| Nesting.NestedIff | analyze_dependencies.py:183-204 | a declaration is nested iff the nearest type-opening line of the window exists and the brace balance of the lines from it up to the declaration is positive; a closed nearest candidate decides "not nested" |
| Nesting.IsNested | analyze_dependencies.py:180-204 | a declaration counted as nested lies at index 2 or later and has a type-opening line strictly inside the scan window whose braces, counted up to the declaration, are still open |
| Nesting.FirstLineNeverEncloses | analyze_dependencies.py:184 | line 0, and the line exactly 50 back, are never candidates |
| Nesting.OpenOnFirstLineMissed | analyze_dependencies.py:184-204 | a type opened and left open on line 0 does not make the declaration on line 1 nested |
| Nesting.FirstLineTopLevel | analyze_dependencies.py:184 | a declaration on line 0 is never nested |
| Symbols.FirstDecl | analyze_dependencies.py:175-178 | the name captured by the first declaration regex, in catalog order, that is found on the line; none iff no regex is found |
| Symbols.Recorded | analyze_dependencies.py:169-210 | a line yields a class iff it is not blank or a comment, a declaration regex is found on it, and it is not nested; the name is the first regex's capture |
| Symbols.ClassTableOf | analyze_dependencies.py:147-210 | `all_classes` maps every short name to a well-formed entry whose qualified name is formed from its namespace and that short name |
| Symbols.AddClasses | analyze_dependencies.py:206-209 | each recorded class is entered under the unit's namespace with its qualified name, replacing an earlier entry of that name; other entries and the key order are kept |
| Symbols.ClassTableMembers | analyze_dependencies.py:147-210 | a short name is in `all_classes` iff some unit declares it at top level |
| Symbols.ClassTableLastWins | analyze_dependencies.py:147-210 | a class's entry is the namespace and qualified name from the last unit that declares it at top level |
| Symbols.FoundSystems | analyze_dependencies.py:389-391 | the names found are exactly those found by some system-declaration regex |
| Symbols.AddNew | analyze_dependencies.py:395 | adding to `all_systems` adds exactly the name and keeps the names distinct |
| Symbols.AddSystem | analyze_dependencies.py:391-395 | a found name that passes the `Authoring`/`Baker`/`Data` filter is entered with its qualified name and joins `all_systems`; a filtered name changes nothing |
| Symbols.SystemNameFilter | analyze_dependencies.py:392 | the helper-type filter rejects every name ending in `Authoring`, `Baker` or `Data` and the empty name, by suffix alone, and keeps a system name that merely contains `Data` elsewhere |
| Symbols.AddSystems | analyze_dependencies.py:389-395 | over the names of one unit: the table gains exactly the filtered names, each with this unit's entry, other entries are untouched, and `all_systems` gains exactly their qualified names |
| Symbols.SystemTableOf | analyze_dependencies.py:374-395 | `all_systems` holds no name twice and contains the qualified name of every `system_classes` entry |
| Symbols.SystemTableMembers | analyze_dependencies.py:374-395 | a short name is in `system_classes` iff some unit's regexes find it and it passes the filter |
| Symbols.SystemTableLastWins | analyze_dependencies.py:374-395 | a system's entry comes from the last unit whose regexes find it |
| Symbols.AllSystemsMembers | analyze_dependencies.py:367-395 | `all_systems` holds exactly the qualified names ever formed, including those whose short name a later unit took over |
| Scanner.FirstUsage | analyze_dependencies.py:289-295 | the first pattern of the catalog, in order, found on the line; none iff no pattern is found |
| Scanner.ScanLines | analyze_dependencies.py:286-295 | one reason per line on which some catalog pattern is found, and no reason otherwise; each reason is the first pattern's description with `path:line` |
| Scanner.Reason | analyze_dependencies.py:291-292 | a reason `description (path:line)` reads back as its description with the path and as the line number |
| Scanner.ReadReasonExact | analyze_dependencies.py:291-292 | a reason reads back only from the exact text `description (path:` + `str(line)` + `)`, so the line number has one spelling |
| Scanner.PaddedReasonRefused | analyze_dependencies.py:291-292 | a line number written with a leading zero does not read back |
| Scanner.HasLegitimateUsage | analyze_dependencies.py:514-531 | true iff some stripped scope line shows one of the legitimate-usage patterns |
| Scanner.CustomUsings | analyze_dependencies.py:222-224 | exactly the `using` targets of the unit that do not start with `System`, `Unity` or `UnityEngine` |
| Scanner.EnclosingNamespaceHidden | analyze_dependencies.py:257-260 | the namespace test has no notion of nesting: the enclosing namespace of `ns` is not visible from `ns` unless imported, while `Global` is visible from every namespace |
| Patterns.FrameworkByPrefix | analyze_dependencies.py:223-224 | the framework test is a character prefix test: `UnityEngine` adds nothing to `Unity`, and any namespace spelled with a `System` or `Unity` prefix counts as framework |
| References.ShortName | analyze_dependencies.py:250 | the text after the last dot of the name: it contains no dot, ends the name, and is preceded by a dot whenever the name has one; a name without a dot is its own short name |
| References.Gather | analyze_dependencies.py:293-298 | the collected targets are exactly the contributing names; the reason dictionary has exactly those names, each with a non-empty reason list |
| References.GatherReasons | analyze_dependencies.py:288-298 | the reasons gathered for a target are exactly the reasons of the contributions that name it |
| References.ScanOthers | analyze_dependencies.py:245-298 | the targets and the reason dictionary have the same names, the scanned symbol is never a target, and the reasons of a target are exactly the evidence lines found for the admitted entries whose qualified name it is |
| References.ScanOthersTargets | analyze_dependencies.py:245-298 | a name is a target iff it is the qualified name of an entry that the symbol refers to |
| References.TargetsSpec | analyze_dependencies.py:245-298 | over the whole table: a name is a target iff the symbol refers to the entry it qualifies |
| References.DetailsOf | analyze_dependencies.py:302-303 | one detail per target in dictionary order, no target named twice, whose reasons are the target's reasons deduplicated and non-empty |
| References.ScanDetails | analyze_dependencies.py:245-303 | every detail names a target and every target has exactly one detail; the reasons of a detail are exactly the evidence lines, one per line showing the first matching pattern, of the entries the symbol refers to under that qualified name |
| References.DetailsCover | analyze_dependencies.py:302-303 | the details of a dictionary keyed by the targets name every target, and no two name the same one |
| References.DeclaredHere | analyze_dependencies.py:227-232 | a pair `(name, full)` is listed iff the table entry of `name` is in the unit's namespace, the unit declares `name`, and `full` is its qualified name |
| ClassMode.PutKeepsInv | analyze_dependencies.py:300-303 | storing targets and details that explain each other, one detail per target, keeps the class-mode invariant |
| SecondPass.OutcomeOf | analyze_dependencies.py:297-303 | the deduplicated targets of a scan that finds something are non-empty and exclude the symbol itself, and its details explain exactly those targets, one detail per target |
| SecondPass.LastFind | analyze_dependencies.py:300-303 | the index of the last outcome of a symbol that has targets, with every later outcome of that symbol targetless; none iff no outcome of it has targets |
| SecondPass.LastFindIsLast | analyze_dependencies.py:300-303 | the last outcome with targets is that of the last scan of the symbol that finds something |
| SecondPass.LastOf | analyze_dependencies.py:460-461 | the index of the last outcome of a symbol, with no later outcome of it; none iff the symbol is never scanned |
| SecondPass.LastOfIsLast | analyze_dependencies.py:460-461 | the last outcome of a symbol is that of its last scan |
| ClassMode.ClassStepInv | analyze_dependencies.py:300-303 | one class of the second pass keeps the class-mode invariant |
| ClassMode.ClassStepsInv | analyze_dependencies.py:213-303 | the whole second pass keeps the invariant, from empty dictionaries on |
| ClassMode.ClassStepsLast | analyze_dependencies.py:300-303 | after the second pass a class has entries iff one of its outcomes has targets, and then they are the deduplicated targets and the details of the last such outcome, whatever earlier outcomes stored |
| ClassMode.ClassesKnown | analyze_dependencies.py:227-303 | every source and every target of the class graph is the qualified name of a table entry |
| ClassMode.ClassEdges | analyze_dependencies.py:213-303 | a class is a source iff one of its scans finds something; its targets are then exactly the qualified names of the entries its last such scan refers to, and its details are that scan's, whose reasons are that scan's evidence lines |
| ClassMode.ClassStep | analyze_dependencies.py:300-303 | one class keeps the invariant; a class that finds nothing leaves both dictionaries alone |
| ClassMode.AnalyzeClasses | analyze_dependencies.py:138-305 | no class depends on itself; every source and target is the qualified name of a table entry; each edge has a detail with reasons and each detail belongs to an edge; no detail list names a target twice; every class present has a target; the returned table is that of the first pass |
| SystemsMode.AdmittedWithoutGuard | analyze_dependencies.py:424-432 | a system is admitted iff it is another system whose namespace is visible from the unit |
| SystemsMode.PutKeepsInv | analyze_dependencies.py:460-464 | storing distinct targets without the system itself, with details for each, keeps the systems-mode invariant |
| SystemsMode.PutEmptyKeepsInv | analyze_dependencies.py:461 | emptying a system's targets keeps the invariant, whatever details it had |
| SystemsMode.SystemStepInv | analyze_dependencies.py:460-464 | one system of the second pass keeps the systems-mode invariant, whether or not it found targets |
| SystemsMode.SystemStepsInv | analyze_dependencies.py:398-464 | the whole second pass keeps the invariant, from empty dictionaries on |
| SystemsMode.DetailStepsUnrepeated | analyze_dependencies.py:462-464 | however often a system's details are replaced, each stored list names every target at most once |
| SystemsMode.TargetsMapLast | analyze_dependencies.py:460-461 | a system has a graph entry iff it was scanned, and the entry is the stored targets of its last scan, possibly empty |
| SystemsMode.DetailsMapLast | analyze_dependencies.py:462-464 | a system has details iff one of its scans found something, and they are those of the last such scan |
| SystemsMode.SystemStepsLast | analyze_dependencies.py:460-464 | the graph and details of the second pass agree with the last scan, and with the last scan that found something, of each system |
| SystemsMode.SystemsAmong | analyze_dependencies.py:412-461 | every node and target of the second-pass graph is a system found by the first pass |
| SystemsMode.LastOfTargets | analyze_dependencies.py:424-461 | the last outcome of a system is that of its last scan, and names a system iff that scan refers to an entry with that qualified name |
| SystemsMode.EdgesOfScans | analyze_dependencies.py:418-461 | after the second pass a system never scanned is no node, and a scanned one depends on exactly the systems its last scan refers to |
| SystemsMode.DetailsOfScans | analyze_dependencies.py:418-464 | after the second pass a system has details iff one of its scans finds something, and they are those of the last scan that does |
| SystemsMode.AddStandalone | analyze_dependencies.py:466-469 | the nodes become the old nodes plus every system found; old nodes keep their targets and new ones have none |
| SystemsMode.AnalyzeSystems | analyze_dependencies.py:362-471 | the nodes are exactly the systems found; every target is one of them; no system depends on itself; each target occurs once and has a detail with reasons; no detail list names a target twice; the list of systems is that of the first pass |
| SystemsMode.SystemEdges | analyze_dependencies.py:398-471 | a scanned system depends on exactly the qualified names of the systems its last scan refers to, which may be none; a system found but never scanned has no targets |
| SystemsMode.SystemDetails | analyze_dependencies.py:398-471 | a system has details iff one of its scans finds something, and they are those of the last scan that does, even when a later scan of it finds nothing |
| NamespaceMode.UsesOf | analyze_dependencies.py:121-128 | the uses of a unit are exactly what its counted lines record |
| NamespaceMode.UsesIn | analyze_dependencies.py:112-128 | a unit without a namespace contributes nothing; no use is a self-import or a framework import |
| NamespaceMode.UsesInSpec | analyze_dependencies.py:112-128 | a use belongs to a unit iff the unit declares a namespace and the use comes from one of its lines, numbered from 1 |
| NamespaceMode.AllUses | analyze_dependencies.py:108-128 | the uses of all units are exactly the uses of some unit |
| NamespaceMode.Add | analyze_dependencies.py:128 | appending one location adds exactly that pair and extends exactly its location list |
| NamespaceMode.Locs | analyze_dependencies.py:128 | reference definition: the locations of a pair are exactly those of its uses, empty iff it has none |
| NamespaceMode.CollectFiles | analyze_dependencies.py:108-128 | the first pass records for each pair exactly its uses' locations in order, and has an entry iff there is a use |
| NamespaceMode.CollectKeys | analyze_dependencies.py:108-128 | a namespace has an entry iff one of its units imports something |
| NamespaceMode.BuildShape | analyze_dependencies.py:130-134 | a namespace's targets are its imports, each once and at least one; its details pair each target, in order, with its locations |
| NamespaceMode.NamespaceEdge | analyze_dependencies.py:97-136 | `ns -> t` is an edge iff some unit of `ns` has a counted `using t` line |
| NamespaceMode.AllUsesClean | analyze_dependencies.py:125-126 | no counted use imports its own namespace or a framework namespace |
| NamespaceMode.BuiltEntry | analyze_dependencies.py:130-134 | each namespace present has distinct non-framework targets other than itself; each target has a detail with locations, and each detail is a target |
| NamespaceMode.NamespaceReport | analyze_dependencies.py:97-136 | the namespace graph has no self-edge or framework target; each node imports something; targets are distinct; details and edges explain each other |
| NamespaceMode.NamespaceFiles | analyze_dependencies.py:127-134 | the locations against an edge are exactly the `path:line` of its uses in unit and line order |
| NamespaceMode.AnalyzeNamespaces | analyze_dependencies.py:97-136 | the graph and the details are well formed and have the same nodes in the same order |
| Dot.CircularNodes | analyze_dependencies.py:315-318 | exactly the endpoints of the reported edges |
| Dot.FirstLabel | analyze_dependencies.py:343-352 | the label of the first detail for the target; empty when no detail names it |
| Dot.LabelOf | analyze_dependencies.py:341-342 | no label unless the edge is reported and its source has details |
| Dot.RawLabel | analyze_dependencies.py:346-349 | up to two reasons are shown in full, joined by a line-break escape; with more, a reader recovers the first reason and the number of the others from the label |
| Dot.ReadMoreOf | analyze_dependencies.py:349 | the long form `first\n...and n more` reads back as `first` and `n` |
| Dot.LongLabel | analyze_dependencies.py:349-351 | breaking the lines of a long label touches only its first reason, and the result still reads back as that reason and the count |
| Dot.EdgeLabel | analyze_dependencies.py:346-351 | the label holds no raw newline, is empty iff the evidence is, and, quoted, reads back as the evidence with its line breaks |
| Dot.Attributes | analyze_dependencies.py:337-357 | the attribute list starts with `color=red` iff the edge is reported, and reads back as red or dark green and the label when there is one |
| Dot.EdgesOf | analyze_dependencies.py:334-335 | the edges visited are exactly the pairs of a listed source and one of its targets |
| Dot.Edges | analyze_dependencies.py:334-335 | the renderer visits exactly the edges of the graph |
| Dot.Render | analyze_dependencies.py:307-360 | the text starts with the fixed header, ends with the closing brace, and contains the line of every node and of every edge of the graph |
| Dot.RenderShowsNode | analyze_dependencies.py:320-329 | every node can be read out of the rendered text with its colour |
| Dot.RenderShowsEdge | analyze_dependencies.py:333-357 | every edge can be read out of the rendered text with its attribute list |
| Dot.ReadNodeOf | analyze_dependencies.py:328-329 | a node line with any colour reads back as its node and that colour, for a name not ending in a backslash |
| Dot.ReadNodeLine | analyze_dependencies.py:325-329 | a node line reads back as the node and its colour, and the colour is light coral iff the node is an endpoint of a reported edge |
| Dot.ReadEdgeOf | analyze_dependencies.py:337-357 | an edge line with any attributes reads back as its two ends and those attributes, for names not ending in a backslash |
| Dot.ReadEdgeLine | analyze_dependencies.py:334-357 | an edge line reads back as its ends and attributes, and it carries a label only if the edge is reported |
| Dot.ReportedEdgeLabel | analyze_dependencies.py:337-357 | a reported edge with more than two reasons renders as a red edge whose label reads back as its first reason and the number of the others |
| Dot.ReadLabel | analyze_dependencies.py:341-352 | the escaped label reads back as the evidence text with its newlines as line-break escapes, and reading stops at the closing quote |
| Dot.NodesRendered | analyze_dependencies.py:320-329 | for names not ending in a backslash, the node lines read back as exactly the nodes of the graph (keys and targets) with their colours |
| Dot.EdgesRendered | analyze_dependencies.py:333-357 | for names not ending in a backslash, the edge lines read back as exactly the edges of the graph with their attributes |
| Quoting.ReadEscaped | analyze_dependencies.py:326-339 | `Escape` (backslash before every quote) is undone by a DOT reader: a text not ending in a backslash, escaped and followed by a quote, reads back as the text and stops at that quote |
| Quoting.BreakLines | analyze_dependencies.py:351 | the label holds no raw newline |
| Quoting.EscapeBreakCommute | analyze_dependencies.py:351 | escaping quotes and then newlines gives the same text as the other order |
| Text.StripSpec | analyze_dependencies.py:170 | `strip()` gives a slice of the line with only whitespace around it, which neither starts nor ends with whitespace |
| Text.JoinSplit | analyze_dependencies.py:166 | joining the parts of `split('\n')` with newlines gives back the content |
| Text.LastSegment | analyze_dependencies.py:250 | `split('.')[-1]` contains no dot, ends the name and, when the name has a dot, starts right after one |
| Text.ParseNatToString | analyze_dependencies.py:292 | `ParseNat` inverts `NatToString` on every natural number |
| Text.TrailingNatOf | analyze_dependencies.py:292 | a number written after a text that is empty or ends in a non-digit reads back as that text and that number |
| Text.TrailingNatIff | analyze_dependencies.py:292 | a trailing number reads back as `(a, n)` exactly when the text is `a` followed by `str(n)` and `a` does not end in a digit; zero-padded runs are refused |
| Text.NatToStringParse | analyze_dependencies.py:292 | `NatToString` inverts `ParseNat` on digit strings without a leading zero |
| Dict.Dedup | analyze_dependencies.py:301 | `list(set(xs))` holds each element of `xs` exactly once and nothing else |
| Dict.Put | analyze_dependencies.py:209 | assigning a key sets its value, keeps existing keys in place and appends a new key |
| Dict.Append | analyze_dependencies.py:293 | appending to a `defaultdict(list)` entry extends that list, starting from empty, and leaves the other entries alone |

## Left out

- Console and OS interaction is not modelled, because it carries no analysis logic. This covers `main`, the menu, every `print` and `input`, the clipboard, the browser and writing the `.dot` file.
- File enumeration and reading are not modelled. `Path.rglob`, `open`, `read` and `relative_to` are replaced by a sequence of units, each with its relative path and content. Both passes of a mode enumerate the units in the same order.
- Python's `re` engine is not modelled. Each regex is an opaque function of `Patterns.Lexer`, and every result holds for all of them.
- Iteration order over Python sets is not modelled. The renderer's order over `all_nodes` is a parameter. `all_systems` is kept in first-discovery order. The order of `list(set(...))` is first occurrence, and every property about it is stated up to membership.
- `circular_nodes` inside `find_circular_dependencies` is not modelled, because it is computed there but never returned. The renderer recomputes its own (`Dot.CircularNodes`).
- Python's recursion limit is not modelled. A deep graph makes `dfs` or `can_reach_back` raise `RecursionError`; the model recurses without bound.
- `generate_dot_content`'s `diagram_type` parameter is left out, because the function never reads it. An absent or empty `dependency_details` is the empty `Details`, so no edge gets a label.
- Quoting.ReadEscaped: requires that the text does not end in a backslash (`Quoting.Closable`). Escaping such a text puts a backslash right before the closing quote, which a DOT reader then takes as an escaped quote, so the text cannot be read back.
- Dot.ReadNodeOf: requires that the name does not end in a backslash, for the same reason.
- Dot.ReadEdgeOf: requires that both names do not end in a backslash, for the same reason.
- Dot.ReadNodeLine: requires that the name does not end in a backslash, for the same reason.
- Dot.ReadEdgeLine: requires that both names do not end in a backslash, for the same reason.
- Dot.NodesRendered: requires that no node name ends in a backslash, for the same reason.
- Dot.EdgesRendered: requires that no node name ends in a backslash, for the same reason.
- Dot.ReadLabel: requires that the label text does not end in a backslash, for the same reason.
- Dot.EdgeLabel: promises the quoted read-back only when the evidence text, with its line breaks escaped, does not end in a backslash, for the same reason.
- Dot.ReportedEdgeLabel: requires that both names do not end in a backslash, for the same reason.
- Dot.RenderShowsNode: requires that the node name does not end in a backslash, for the same reason.
- Dot.RenderShowsEdge: requires that both names do not end in a backslash, for the same reason.
- Cycles.FindCircularDependencies: states soundness only. Completeness does not hold, as `CycleExamples.MissedCycleEdge` shows: the early return at lines 57-58 and the recursion stack it never clears make phase 1 miss some cycle edges.
- `nested_classes` (lines 167 and 201) is not modelled, because it is never read. The `is_nested` flag is `Nesting.IsNested`, and whether a class is recorded is stated by `Symbols.Recorded`.

The systems mode stores a system's details only when it has targets (line 462). As a result, a system declared in two units can keep the details of the first unit after the second unit empties its target list. `SystemsMode.SystemsInv` therefore does not require every detail entry to belong to an edge, while `ClassMode.ClassInv` does.
