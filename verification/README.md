# Lynceus: advisors and plan page, modelled and proved

Lynceus monitors PostgreSQL from normalized, literal-free data. This project models four of its pure parts in
Dafny and proves what they promise.

* **The index advisor** (`internal/advisor/index.go`) scans the filter condition of every sequential scan in a set
  of plans with a regular expression, groups the candidates it finds under a string key, and ranks them.
* **The plan page** (`web/plan_vm.go`) copies a plan into a heap tree, flattens it into the list the page draws from,
  and decorates the list in place.
* **The configuration advisor** (`internal/advisor/config.go`) turns a settings snapshot into sorted advice.
* **The search-node table** (`web/search.go`) sorts rows in place by a parsed percentage.

`dafny verify dfyconfig.toml` checks everything.

## How it is built

| file | content |
|---|---|
| `Regex.dfy` | leftmost-first matching with backtracking, as the list of ways to match in order of preference |
| `ColumnScanner.dfy` | the advisor's pattern, and the closed form of what it matches |
| `ConditionTokens.dfy` | conditions as tokens, and what the pattern reads at each word |
| `ScannerText.dfy` | what the pattern reads, with every character class and operator written out |
| `PrintedPredicate.dfy` | normalized conditions as expressions and text, and what the pattern reads back from them |
| `FilterColumns.dfy` | the column list of a condition |
| `CandidateKey.dfy`, `GroupBy.dfy` | the string key, the evidence in the plans, and the group-by over it |
| `IndexAdvisor.dfy` | the walk, the aggregates on the heap, the report and its sort |
| `IndexReport.dfy` | what every report guarantees, whatever order Go's maps and sort choose |
| `PrintedPlans.dfy` | reports from plans whose conditions are printed expressions |
| `FlatTree.dfy` | trees as flat lists of rows with depths |
| `PlanView.dfy`, `PlanPage.dfy` | the heap tree, flattening and decoration; what the page can rely on |
| `Float64.dfy`, `Misestimate.dfy` | float64 rounding, and the misestimate flag |
| `ConfigAdvisor.dfy`, `SearchNodes.dfy` | the two smaller components |
| `Sorting.dfy`, `GoStrings.dfy`, `MachineInt.dfy`, `PlanProto.dfy`, `Options.dfy` | sorting, Go's string order and decimals, int64, the plan messages, optional values |

Go's `sort.Slice`, `sort.SliceStable`, `sort.Strings` and `slices.SortFunc` are one in-place `Sort` whose contract is
a sorted permutation; the order of elements that compare equal is left open. Iteration over a Go map takes keys in
arbitrary order. Integers are int64 with wrap-around where the source computes with them. A float64 that is only
carried along is its bit pattern; the one that is computed with is rounded as IEEE 754-2008 section 4.3.1 says.
Strings are sequences of characters compared as Go compares them.

## Where code and comments differ

The model follows the code in each case.

* `internal/advisor/index.go:12-15` says a match is a column and an operator after an optional qualifier. Any word that
  ends in "in" or "between" is itself read as a column and a word operator: `login.id = $1` also yields the column
  `log`, and the bare boolean column of `(admin)` yields `adm` (`LoginQualifierLeaks`, `AdminReadsAsAdm`). A column that
  is cast or quoted is not read; the last word of its type is, if the type ends in a word: `(t.status)::text = $1`
  yields `text` (`StatusReadsAsText`), and a type such as `text[]` yields nothing. `PrintScanRoundTrip` gives the exact
  condition, `CastColumnExact` that of a cast column.
* `internal/advisor/index.go:18-19` puts range columns last. "between" counts as a range operator only when spelled all
  lower or all upper case; any other spelling is matched and treated as equality, so
  `a Between $1 AND $2 AND b = $3` gives a, b (`BetweenLeads`). `BetweenCaseExact` says when that matters.
* `internal/advisor/index.go:116` calls the relation name a stable tiebreak. Recommendations of one relation still come
  in any order; `OrderFreedomExact` says that this is the only freedom, `TwoResults` gives plans with two results, and
  `OneReportPlain` says that the result is unique exactly when no relation is scanned with two column lists.
* `internal/advisor/index.go:65` ranks by size times scan count. The product is an int64 and wraps; `ScoreExact` says
  when, and `RankedRightlyExact` which tables are then ranked wrongly.
* `web/plan_vm.go:29` and `web/plan_vm.go:56` say more than 10 times; the code flags exactly 10 times as well. Beyond
  2^53 float64 rounding errs both ways: it flags some ratios below 10 and misses some of exactly 10
  (`MisestimateRoundsUp`, `MisestimateMissed`). Problem is set but never cleared.
* `web/plan_vm.go:94-96` says that an empty view still carries the requested fingerprint. It carries the plan's own, so
  none without a plan, and the handler returns that view as it is (`internal/api/plan.go:40-42`).
* `web/search.go:133` says that what cannot be parsed is 0. Digits beyond 64 bits give the nearest int64, even when
  other text follows them. `HeapPctExact` covers every text.
* `web/search.go:123-124` sorts by heap descending. The comparison is an int64 subtraction that can wrap;
  `SortsByHeapExact` says for which rows the result is by heap, and `HugeHeapSortsLast` gives two that always come out
  the wrong way round.

## Model

| member | source | states |
|---|---|---|
| Regex.FindFromIsTheScan | internal/advisor/index.go:25 | FindAllStringSubmatch's list is the one left-to-right list of non-overlapping preferred matches with no match starting in a gap, and nothing else is one |
| ColumnScanner.PreferredIsHitAt | internal/advisor/index.go:16 | at every position of every text, what backtracking prefers is: the whole word and a following operator; failing that the word minus a final "in" or "between"; failing that nothing |
| ColumnScanner.LongestPrefixWins | internal/advisor/index.go:16 | the pattern matches at a position exactly when some identifier there leaves an operator, and it takes the longest such identifier as the column |
| ColumnScanner.MatchesExact | internal/advisor/index.go:25-26 | the matches looped over are the leftmost-first scan of the condition; each takes at least two characters and has both groups |
| ColumnScanner.ComparisonsAreScan | internal/advisor/index.go:25-26 | the columns and operators of all matches are those of the closed-form scan, on every condition |
| ColumnScanner.ScannedColumnsAreIdents | internal/advisor/index.go:16 | every scanned column is an identifier, so it holds no comma and no NUL |
| ScannerText.ColumnReads | internal/advisor/index.go:16 | any name of letters, underscores and, after the first, digits, then any spaces, tabs, line feeds, carriage returns and form feeds, then any of the ten operators in any letter case, is read as that one comparison, whatever nameless text surrounds it |
| ScannerText.OtherCharacter | internal/advisor/index.go:16 | a name that does not end in n is not read when any character other than these and the symbols =<>!~ comes next |
| ScannerText.NameLeaks | internal/advisor/index.go:16 | a name that goes on with in or between, in any letter case, and stops there, is read as the name and that operator |
| ConditionTokens.ScanTokens | internal/advisor/index.go:16 | on every well-formed list of words, operators and punctuation the pattern reads, word by word, the word with the operator that starts after it, or else what the word's own last letters leak |
| ConditionTokens.PlainTokensExact | internal/advisor/index.go:12-16 | what is read is what is compared, each at its place, if and only if every compared column stands right before its operator and every other word stands before none and leaks nothing |
| PrintedPredicate.ScanPrinted | internal/advisor/index.go:12-26 | what the pattern reads from any printed condition, with casts, calls, arrays, subscripts, ANY, IS NULL, NOT, bare and quoted columns: for every word the operator seen after it, or its leak |
| PrintedPredicate.PrintScanRoundTrip | internal/advisor/index.go:12-26 | the pattern reads exactly the condition's comparisons back, each at its place in the text, if and only if the condition is plain |
| PrintedPredicate.PrintScanTexts | internal/advisor/index.go:12-26 | where no compared column is cast, quoted or in parentheses of its own, the columns and operators alone agree if and only if the condition is plain |
| PrintedPredicate.PrintedColumns | internal/advisor/index.go:18-42 | the column list of a plain condition holds its own columns, equality before range, each once |
| PrintedPredicate.CastColumn | internal/advisor/index.go:16 | a column, qualified or not, cast before it is compared is never read; what is read is what its words leak, then what its type reads before the operator |
| PrintedPredicate.CastColumnExact | internal/advisor/index.go:16 | cast to a one-word type, the column reads as the type, which is right if and only if they have the same name and neither column nor qualifier leaks |
| PrintedPredicate.StatusReadsAsText | internal/advisor/index.go:16 | `(t.status)::text = $1` reads as a comparison of a column text |
| PrintedPredicate.AdminReadsAsAdm | internal/advisor/index.go:16 | `(admin)` reads as a comparison of a column adm |
| PrintedPredicate.LoginQualifierLeaks | internal/advisor/index.go:16 | `login.id = $1` reads as comparisons of the columns log and id |
| PrintedPredicate.BetweenLeads | internal/advisor/index.go:18-42 | `a Between $1 AND $2 AND b = $3` gives a before b, and b before a if between is in lower case |
| FilterColumns.FilterColumns | internal/advisor/index.go:22-42 | the loop returns the first comparison of each column, equality class before range class |
| FilterColumns.ColumnOrderExact | internal/advisor/index.go:18-42 | a list is what filterColumns returns if and only if it holds the compared columns and is strictly ordered by class of the first operator, then by first use |
| FilterColumns.RangeColumnsLast | internal/advisor/index.go:18-42 | no column first compared by <, >, <=, >=, between or BETWEEN goes before one first compared by anything else; within either kind the first use decides; the columns are the compared ones, each once |
| FilterColumns.BetweenCaseExact | internal/advisor/index.go:34-39 | the columns come as they would with every between in lower case, if and only if no mixed-case between follows the first use of a range column or leads before an equality column |
| CandidateKey.KeyInjective | internal/advisor/index.go:81 | the composite key never merges two candidates, whatever the relation names contain |
| CandidateKey.KeyDecodesExactly | internal/advisor/index.go:95 | cutting the key at its first NUL gives the relation back if and only if the relation has no NUL |
| CandidateKey.UpToNulCuts | internal/advisor/index.go:95 | cutting at the first NUL leaves exactly what stands before it |
| GroupBy.StepsExact | internal/advisor/index.go:72-73 | the evidence is exactly the visited nodes of the plans, each with its plan's fingerprint |
| GroupBy.AbsorbIsGroupBy | internal/advisor/index.go:71-91 | aggregating the evidence one node at a time leaves one group per distinct candidate, with its columns and its distinct non-empty fingerprints |
| IndexAdvisor.Aggregation.Visit | internal/advisor/index.go:73-90 | the callback adds one node to the aggregates on the heap, which stay unshared |
| IndexAdvisor.Aggregation.Walk | internal/advisor/index.go:121-129 | walk applies the callback to the non-nil nodes of the tree, parents first |
| IndexAdvisor.Aggregate | internal/advisor/index.go:71-91 | after all plans the aggregates on the heap are the group-by of the evidence |
| IndexAdvisor.SortedKeys | internal/advisor/index.go:131-138 | the one lexicographically ascending list of the set |
| IndexAdvisor.Collect | internal/advisor/index.go:93-109 | in any map order, one recommendation per candidate |
| IndexAdvisor.RecommendIndexes | internal/advisor/index.go:66-119 | the result is a ranked permutation of one recommendation per distinct candidate in the plans |
| IndexReport.AdviceCounts | internal/advisor/index.go:100-103 | QueryCount is the number of listed fingerprints, which ascend lexicographically and are exactly the evidence's |
| IndexReport.ShownInfo | internal/advisor/index.go:96-102 | every row shows the size and the scan count of the table it names, each in its own field, and 0 for a table that is not there |
| IndexReport.RowEvidence | internal/advisor/index.go:71-103 | every row comes from a relation and a column list that some plan's sequential scan asks for, and lists exactly the non-empty fingerprints of the plans that ask for them |
| IndexReport.LabelExact | internal/advisor/index.go:95-98 | a recommendation bears its relation's name if and only if the name has no NUL |
| IndexReport.OneRowEach | internal/advisor/index.go:63-65 | where no name has a NUL, each relation and column list has exactly one row if it is a candidate and none otherwise |
| IndexReport.SamePlansSameReport | internal/advisor/index.go:66-119 | inputs with the same plans in any order and any repetition have the same possible results |
| IndexReport.MorePlansMoreAdvice | internal/advisor/index.go:66-119 | with more plans every recommendation stays, with at least its fingerprints and QueryCount |
| IndexReport.TiesAreSameRelation | internal/advisor/index.go:110-117 | the comparison is a strict weak order, and its ties in a result are exactly the pairs of one relation |
| IndexReport.SortedByRelation | internal/advisor/index.go:110-117 | recommendations are sorted exactly when their relations are sorted by score and name |
| IndexReport.RelationBlocks | internal/advisor/index.go:110-117 | each relation's recommendations stand in one contiguous block |
| IndexReport.OrderFreedomExact | internal/advisor/index.go:94-118 | the possible results for one input are exactly the rearrangements of one with the same sequence of relations |
| IndexReport.OneReportExact | internal/advisor/index.go:94-118 | an input has one result if and only if candidates whose recommendations bear the same name have the same columns and fingerprints |
| IndexReport.OneReportPlain | internal/advisor/index.go:94-118 | where no name has a NUL, an input has one result if and only if no relation is a candidate with two column lists |
| PrintedPlans.TwoResults | internal/advisor/index.go:110-118 | two scans of t, by a and by b, have two different results, whatever the tables |
| PrintedPlans.PlainRows | internal/advisor/index.go:63-119 | where every scan filters by the text of a plain condition, a name and a column list stand in the result if and only if some scan of that relation compares exactly these columns, in the order of filterColumns |
| IndexReport.ScoreExact | internal/advisor/index.go:111 | the int64 score is the true product if and only if the product fits in an int64, and always equals it modulo 2^64 |
| IndexReport.RankedByProduct | internal/advisor/index.go:63-65 | where the products of a table's size and scan count plus one fit, they descend, and on equal products the names ascend lexicographically |
| IndexReport.RankedRightlyExact | internal/advisor/index.go:110-117 | a table is ranked rightly against every table whose product fits if and only if its own product fits |
| IndexReport.OverflowMisranks | internal/advisor/index.go:110-117 | in every result a tiny cold table stands before a huge hot one whose product wraps |
| FlatTree.RebuildFlat | web/plan_vm.go:133-143 | rebuilding a tree from its flat list with depths gives the tree back |
| FlatTree.FlatInjective | web/plan_vm.go:133-143 | two trees with equal flat lists are equal |
| FlatTree.RebuildExact | web/plan_vm.go:133-143 | a list of rows is the flat list of a tree if and only if depth is 0 at index 0 only and never rises by more than one |
| FlatTree.RebuildMapped | web/plan_vm.go:133-143 | whatever part of its data each row shows, the rows with depths rebuild to the tree of those parts |
| FlatTree.SubtreesAreRuns | web/plan_vm.go:133-143 | the descendants of the i-th node are exactly the maximal run of deeper rows after it |
| PlanView.PlanNodeVM.constructor | web/plan_vm.go:111-126 | every field is the message field of its name, and the node is not decorated |
| PlanProto.Getters | web/plan_vm.go:109-131 | a nil message reads as empty texts, zeroes and no children, any other as its own fields |
| PlanView.ToNodeVM | web/plan_vm.go:109-131 | the new heap tree holds the message's tree with depths, in fresh pairwise distinct objects |
| PlanView.PlanVM.Flatten | web/plan_vm.go:133-143 | the tree's objects are appended, parents first |
| PlanView.HeldRows | web/plan_vm.go:111-143 | the rows of a held tree's objects are the flat list of the tree |
| PlanView.PlanVM.ToPlanVM | web/plan_vm.go:94-107 | a nil plan or root gives an empty view with its header; any other gives a view of the whole plan in fresh distinct objects |
| PlanView.OwnIndexExact | web/plan_vm.go:59-60 | every row ends up with its own index if and only if no object is listed twice |
| PlanView.PlanVM.MarkAll | web/plan_vm.go:59-68 | Idx, Problem and colour of every listed node; a set Problem stays set |
| PlanView.PlanVM.DecoratePlan | web/plan_vm.go:55-77 | the same, and the selected index, clamped to the root when out of range |
| PlanPage.PageShowsPlan | web/plan_vm.go:104-143 | the flat list, with the depth and data of each node, rebuilds to the plan's tree |
| PlanPage.SameRowsSamePlan | web/plan_vm.go:104-143 | two views with equal flat lists were made from the same plan |
| PlanPage.DrawnRowsExact | web/plan.templ:40-54 | two pages draw the same rows, with indentation, data, highlight, colour and link, if and only if their plans have the same tree of drawn data and their links the same text before the node index |
| PlanPage.DrawnFields | web/plan.templ:42-48 | which field of a node each part of its row shows |
| PlanPage.LinkText | web/plan.templ:41 | the exact link of a row, for one view and node |
| PlanPage.PageSubtrees | web/plan_vm.go:127-143 | the objects that hang below Flat[i] are exactly the deeper objects right after it |
| PlanPage.WalkIsFlatExactly | web/plan_vm.go:127-143 | the flat list goes through the nodes the advisor's walk visits, in the same order, if and only if no node is nil |
| PlanPage.FetchPlan | internal/api/plan.go:39-60 | without plans an empty view with no fingerprint; else the asked plan or the first, whole, with the asked fingerprint, one tab per plan of which exactly that plan's is selected, own indices, flags exactly the misestimates, and the asked node or the root selected |
| PlanPage.ShortFPExact | internal/api/plan.go:69-74 | the first eight characters of a fingerprint, or all of a shorter one |
| PlanPage.DecorateAgain | web/plan_vm.go:58-77 | decorating a decorated view again changes nothing |
| PlanPage.FollowLink | web/plan_vm.go:72-76 | decorating with a node's own Idx selects that node and moves no index |
| Float64.RoundIsNearest | web/plan_vm.go:81-91 | the rounding used is to nearest: no representable value is nearer |
| Float64.RoundTiesToEven | web/plan_vm.go:81-91 | a tie goes to an even significand |
| Float64.RoundReachesTen | web/plan_vm.go:61-62 | a rounded quotient is at least 10 exactly when the true one is at least 10 - 2^-50 |
| Misestimate.RatioSymmetric | web/plan_vm.go:79-92 | the ratio does not depend on which count is the estimate and is at least 1 |
| Misestimate.MisestimateExact | web/plan_vm.go:61-92 | the flag for every pair of int64 counts |
| Misestimate.MisestimateFlagExact | web/plan_vm.go:61-92 | for counts up to 2^53, or with one of them up to a tenth of that: flagged if and only if, clamped up to 1, one is at least 10 times the other |
| Misestimate.MisestimateRoundsUp | web/plan_vm.go:61-92 | beyond 2^53 a ratio below 10 can be flagged |
| Misestimate.MisestimateMissed | web/plan_vm.go:61-92 | beyond 2^53 a ratio of exactly 10 can be missed |
| ConfigAdvisor.ByName | internal/advisor/config.go:63-66 | the map holds the last setting of each name |
| ConfigAdvisor.ConfigAdvice | internal/advisor/config.go:62-154 | the result is strictly ascending by severity and name and holds exactly what the last setting of each name deserves |
| ConfigAdvisor.AdviceOrder | internal/advisor/config.go:146-152 | high advice comes before medium, medium before low, and within one severity the names ascend lexicographically |
| ConfigAdvisor.PointTwoIsNearest | internal/advisor/config.go:117-144 | the scale factor's bound is the float64 nearest to 0.2 |
| ConfigAdvisor.AdviceDetermined | internal/advisor/config.go:63-154 | inputs that agree on the last setting of every name get the identical list |
| ConfigAdvisor.OrderIrrelevant | internal/advisor/config.go:62-154 | with distinct names any permutation of the input gives the identical list |
| ConfigAdvisor.RepeatsIrrelevant | internal/advisor/config.go:63-66 | repeated names give the list of each name's last setting alone |
| ConfigAdvisor.AdviceMerges | internal/advisor/config.go:62-154 | for inputs that share no name, the advice for both is the ordered merge of the two advices and nothing else |
| ConfigAdvisor.OneSettingChanged | internal/advisor/config.go:62-154 | a new value for one setting replaces the advice about it by what the value deserves and changes no other advice |
| ConfigAdvisor.DurabilityFix | internal/advisor/config.go:70-92 | durability advice stays while the setting has the value shown, and goes away, alone, with any other value, the suggested one included |
| ConfigAdvisor.MemoryFix | internal/advisor/config.go:94-115 | memory advice goes away, alone, exactly when the setting leaves its default source, and otherwise shows the new value |
| ConfigAdvisor.AutovacuumAndPlannerFix | internal/advisor/config.go:117-144 | autovacuum and planner advice goes away, alone, exactly when the number falls below its bound or is none, or the source is no longer the default, and otherwise shows the new value |
| SearchNodes.ParseDigits | web/search.go:135 | the digits of a number parse to it and go on with what follows, or leave 64 bits |
| SearchNodes.PercentRoundTrip | web/search.go:133-137 | for every integer and any surrounding white space, the printed percentage parses back, clamped to an int64 |
| SearchNodes.HeapPctExact | web/search.go:133-137 | what every text reads as: digits alone the nearest int64 with their sign; followed by other text 0 if they fit in 64 bits and that nearest int64 if not; no digits 0 |
| SearchNodes.EveryTextHasParts | web/search.go:133-137 | every text is white space, sign, digits, other text, percent sign and white space as HeapPctExact takes it apart |
| SearchNodes.CharacterBefore | web/search.go:133-137 | exactly the white space of Unicode is trimmed, and any character that is no digit spoils the number |
| SearchNodes.SortSearchNodes | web/search.go:123-131 | a permutation; with names ascending lexicographically, or sorted by the comparison where that is a strict weak order, and descending by heap where all differences fit in an int64 |
| SearchNodes.CompareExact | web/search.go:130 | the subtraction has the sign of the comparison if and only if the difference fits |
| SearchNodes.HeapOrder | web/search.go:130 | where all differences fit, the comparison is a strict weak order and sorted by it means heap-descending |
| SearchNodes.SortedMeansDescendingExact | web/search.go:130 | for the rows in every order, sorted by the comparison means heap-descending if and only if all differences fit |
| SearchNodes.SortsByHeapExact | web/search.go:125-131 | every list the sort may leave is heap-descending if and only if all differences fit |
| SearchNodes.SortedAndDescendingExact | web/search.go:125-131 | some order of the rows is both sorted by the comparison and heap-descending if and only if all differences fit |
| SearchNodes.HalfRangeFits | web/search.go:130 | heaps from -2^62 up to but not including 2^62 always fit |
| SearchNodes.HugeHeapSortsLast | web/search.go:125-131 | of two heaps that do not fit, the sort leaves the larger one last, and nothing else |
| GoStrings.LessExact | web/search.go:127 | a text is less than another if and only if, where they first differ, it ends or has the smaller character |
| MachineInt.WrapExact | internal/advisor/index.go:111 | an int64 keeps its value, and any other integer wraps to the int64 equal to it modulo 2^64 |

## Left out

- Strings that are not valid UTF-8: a string is a sequence of characters, whose order is then Go's byte order.
- Case folding beyond ASCII: under (?i) Go also lets the Kelvin sign and the long s match k and s; the pattern is modelled over ASCII.
- Go's regexp engine: its matching is modelled by the order in which a backtracking matcher would try alternatives, which is the semantics it documents.
- strconv.ParseFloat: a parameter; "not comparable" (an error or NaN) is None, an infinity is any large number.
- strconv.Atoi's fast path for short texts: it gives the same values as the general path, which is modelled.
- Rationale and Detail texts, FmtCost, and the labels and links of the plan tabs: plain formatting.
- The handler's query for plans and its parsing of the request: its inputs are the plans found, none on an error, and
  the numbers asked for. shortFP cuts bytes and is modelled on characters, which is the same for an ASCII fingerprint.
- Printed conditions with quoted names other than identifiers, with names that have letters beyond ASCII or a dollar
  sign, and with fields of composite values: not built by the expressions of PrintedPredicate. ColumnScanner covers
  every text.
- The distinction between a nil slice and an empty one: both are the empty sequence.
- The stability of sort.SliceStable: the configuration advice has no ties, so nothing depends on it.
- internal/advisor/vacuum.go: threshold rules over table statistics, sorted by severity. The other pages: formatting.
- The collector, the stores, the audit chain and access control: not part of this model.
