/** What every run of RecommendIndexes guarantees, whatever order Go's maps and sort choose. */
module IndexReport {
  import opened Sorting
  import opened MachineInt
  import opened PlanProto
  import opened CandidateKey
  import opened GroupBy
  import opened IndexAdvisor
  import opened Options
  import opened ColumnScanner
  import opened FilterColumns
  import GoStrings

  // ---- One recommendation per candidate ----------------------------------------------------

  lemma {:induction false} DistinctSize(r: seq<string>, s: set<string>)
    requires Distinct(r) && forall x :: x in r <==> x in s
    ensures |r| == |s|
    decreases |r|
  {
    if r == [] {
      assert s == {};
    } else {
      assert forall x :: x in r <==> x == r[0] || x in r[1..];
      DistinctSize(r[1..], s - {r[0]});
    }
  }

  /** QueryCount is the number of fingerprints listed, and they are strictly ascending. */
  lemma AdviceCounts(steps: seq<Step>, tables: map<string, TableInfo>, c: Candidate)
    ensures var r := Advice(steps, tables, c);
            r.queryCount == |r.fingerprints| && IsAscending(r.fingerprints, Fingerprints(steps, c))
            && forall i, j :: 0 <= i < j < |r.fingerprints| ==>
                                GoStrings.Lexicographic(r.fingerprints[i], r.fingerprints[j])
  {
    hide Ascending, Fingerprints;
    GoStrings.LessIsLexicographic();
    var fps := Fingerprints(steps, c);
    GoStrings.LessOrder();
    DistinctSize(Ascending(fps), fps);
  }

  lemma MapMembers<A, B>(f: A -> B, xs: seq<A>, y: B)
    ensures y in Map(f, xs) <==> exists x :: x in xs && f(x) == y
  {
  }

  lemma ReportMembers(out: seq<Recommendation>, steps: seq<Step>, tables: map<string, TableInfo>)
    requires IsReport(out, steps, tables)
    ensures |out| == |Listing(steps)|
    ensures forall r :: r in out <==> exists c :: c in Listing(steps) && r == Advice(steps, tables, c)
  {
    hide Listing, Outranks, Sorted, Map, Advice, AdviceIn;
    var f := AdviceIn(steps, tables);
    SameMembers(out, Map(f, Listing(steps)));
    forall r ensures r in out <==> exists c :: c in Listing(steps) && r == Advice(steps, tables, c) {
      MapMembers(f, Listing(steps), r);
      AdviceInIs(steps, tables);
      if c :| c in Listing(steps) && r == Advice(steps, tables, c) {
        assert f(c) == r;
      }
    }
  }

  lemma AdviceInIs(steps: seq<Step>, tables: map<string, TableInfo>)
    ensures forall c :: AdviceIn(steps, tables)(c) == Advice(steps, tables, c)
  {
  }

  /** The label of a recommendation is its relation exactly when the relation has no NUL. */
  lemma LabelExact(steps: seq<Step>, tables: map<string, TableInfo>, c: Candidate)
    ensures Advice(steps, tables, c).relation == c.rel <==> NulFree(c.rel)
  {
    UpToNulExact(c.rel);
  }

  ghost predicate PlainRelations(steps: seq<Step>) {
    forall c :: c in Listing(steps) ==> NulFree(c.rel)
  }

  ghost predicate IsRow(r: Recommendation, rel: string, cols: seq<string>) {
    r.relation == rel && r.columns == cols
  }

  lemma PlainAdvice(steps: seq<Step>, tables: map<string, TableInfo>, c: Candidate)
    requires PlainRelations(steps) && c in Listing(steps)
    ensures forall rel, cols :: IsRow(Advice(steps, tables, c), rel, cols) <==> c == Candidate(rel, cols)
  {
    LabelExact(steps, tables, c);
  }

  /** Where no relation has a NUL, each (relation, columns) pair has one row if it is a candidate, none otherwise. */
  lemma OneRowEach(out: seq<Recommendation>, steps: seq<Step>, tables: map<string, TableInfo>,
                   rel: string, cols: seq<string>)
    requires IsReport(out, steps, tables) && PlainRelations(steps)
    ensures Candidate(rel, cols) in Listing(steps) <==> exists i :: 0 <= i < |out| && IsRow(out[i], rel, cols)
    ensures forall i :: 0 <= i < |out| && IsRow(out[i], rel, cols) ==>
              out[i] == Advice(steps, tables, Candidate(rel, cols))
    ensures forall i, j :: 0 <= i < |out| && 0 <= j < |out| && IsRow(out[i], rel, cols) && IsRow(out[j], rel, cols) ==>
              i == j
  {
    hide Advice, Outranks, Sorted, Listing, IsRow;
    var c0 := Candidate(rel, cols);
    var cs := Listing(steps);
    var rows := Map(AdviceIn(steps, tables), cs);
    ReportMembers(out, steps, tables);
    forall c | c in cs
      ensures forall rel, cols :: IsRow(Advice(steps, tables, c), rel, cols) <==> c == Candidate(rel, cols) {
      PlainAdvice(steps, tables, c);
    }
    forall i | 0 <= i < |out| && IsRow(out[i], rel, cols) ensures c0 in cs && out[i] == Advice(steps, tables, c0) {
      assert out[i] in out;
    }
    if c0 in cs {
      var r := Advice(steps, tables, c0);
      assert r in out;
      RowsDistinct(cs, rows, steps, tables);
      DistinctCount(rows, r);
      CountOne(out, r);
    }
  }

  lemma RowsDistinct(cs: seq<Candidate>, rows: seq<Recommendation>, steps: seq<Step>, tables: map<string, TableInfo>)
    requires cs == Listing(steps) && rows == Map(AdviceIn(steps, tables), cs) && PlainRelations(steps)
    ensures Distinct(rows)
  {
    hide Fingerprints, Ascending;
    forall i, j | 0 <= i < j < |rows| ensures rows[i] != rows[j] {
      assert cs[i] in cs && cs[j] in cs;
      LabelExact(steps, tables, cs[i]);
      LabelExact(steps, tables, cs[j]);
    }
  }

  /** An element of multiplicity at most one sits at one index only. */
  lemma CountOne<T>(s: seq<T>, x: T)
    requires multiset(s)[x] <= 1
    ensures forall i, j :: 0 <= i < |s| && 0 <= j < |s| && s[i] == x && s[j] == x ==> i == j
  {
    forall i, j | 0 <= i < j < |s| && s[i] == x && s[j] == x ensures false {
      CountTwo(s, i, j);
    }
  }

  // ---- More evidence, same evidence --------------------------------------------------------

  /** Only which plans there are matters, not their order or repetition: the same lists are reports of both. */
  lemma SamePlansSameReport(plans: seq<QueryPlan>, plans': seq<QueryPlan>, tables: map<string, TableInfo>,
                            out: seq<Recommendation>)
    requires forall p :: p in plans <==> p in plans'
    ensures IsReport(out, Steps(plans), tables) <==> IsReport(out, Steps(plans'), tables)
  {
    hide Listing, Steps, CandidateOf, Outranks, Sorted;
    var xs, ys := Steps(plans), Steps(plans');
    forall s ensures s in xs <==> s in ys {
      StepsExact(plans, s);
      StepsExact(plans', s);
    }
    forall c ensures c in Listing(xs) <==> c in Listing(ys) {
      ListingExact(xs, c);
      ListingExact(ys, c);
    }
    forall c ensures Fingerprints(xs, c) == Fingerprints(ys, c) {
    }
    DistinctPermutation(Listing(xs), Listing(ys));
    MapPermutation(AdviceIn(xs, tables), Listing(xs), Listing(ys));
    assert Map(AdviceIn(xs, tables), Listing(ys)) == Map(AdviceIn(ys, tables), Listing(ys));
  }

  /** More plans: every recommendation stays, with at least its fingerprints and its QueryCount. */
  lemma MorePlansMoreAdvice(plans: seq<QueryPlan>, plans': seq<QueryPlan>, tables: map<string, TableInfo>,
                            out: seq<Recommendation>, out': seq<Recommendation>, r: Recommendation)
    requires forall p :: p in plans ==> p in plans'
    requires IsReport(out, Steps(plans), tables) && IsReport(out', Steps(plans'), tables) && r in out
    ensures exists r' :: r' in out' && r'.relation == r.relation && r'.columns == r.columns
              && r'.totalBytes == r.totalBytes && r'.seqScans == r.seqScans
              && r.queryCount <= r'.queryCount && (forall f :: f in r.fingerprints ==> f in r'.fingerprints)
  {
    hide Listing, Steps, Ascending, Fingerprints, Outranks, Sorted, CandidateOf, IsReport, Info, UpToNul;
    var xs, ys := Steps(plans), Steps(plans');
    forall s | s in xs ensures s in ys {
      StepsExact(plans, s);
      StepsExact(plans', s);
    }
    ReportMembers(out, xs, tables);
    ReportMembers(out', ys, tables);
    var c :| c in Listing(xs) && r == Advice(xs, tables, c);
    ListingExact(xs, c);
    ListingExact(ys, c);
    var r' := Advice(ys, tables, c);
    MoreFingerprints(xs, ys, c);
    AdviceCounts(xs, tables, c);
    AdviceCounts(ys, tables, c);
    assert r' in out';
  }

  lemma MoreFingerprints(xs: seq<Step>, ys: seq<Step>, c: Candidate)
    requires forall s :: s in xs ==> s in ys
    ensures Fingerprints(xs, c) <= Fingerprints(ys, c) && |Fingerprints(xs, c)| <= |Fingerprints(ys, c)|
  {
    var a, b := Fingerprints(xs, c), Fingerprints(ys, c);
    assert b == a + (b - a);
  }

  // ---- The ranking -------------------------------------------------------------------------

  function Relations(out: seq<Recommendation>): (r: seq<string>)
    ensures |r| == |out| && forall i :: 0 <= i < |r| ==> r[i] == out[i].relation
  {
    Map((x: Recommendation) => x.relation, out)
  }

  /** Relation `a` ranks above relation `b`: by score, then by name. */
  predicate RanksAbove(tables: map<string, TableInfo>, a: string, b: string) {
    var sa, sb := Score(Info(tables, a)), Score(Info(tables, b));
    if sa != sb then sa > sb else GoStrings.Less(a, b)
  }

  ghost function RanksAboveIn(tables: map<string, TableInfo>): (string, string) -> bool {
    (a, b) => RanksAbove(tables, a, b)
  }

  lemma RanksAboveTotal(tables: map<string, TableInfo>, xs: seq<string>)
    ensures StrictTotalOn(RanksAboveIn(tables), xs)
  {
    hide Score, Info;
    GoStrings.LessOrder();
  }

  /** Size and scan count are the label's own. */
  ghost predicate Consistent(out: seq<Recommendation>, tables: map<string, TableInfo>) {
    forall r :: r in out ==> TableInfo(r.totalBytes, r.seqScans) == Info(tables, r.relation)
  }

  /** Size and scan count are those of the table named by the label, and 0 where there is none. */
  lemma ShownInfo(out: seq<Recommendation>, steps: seq<Step>, tables: map<string, TableInfo>, r: Recommendation)
    requires IsReport(out, steps, tables) && r in out
    ensures if r.relation in tables
            then r.totalBytes == tables[r.relation].totalBytes && r.seqScans == tables[r.relation].seqScans
            else r.totalBytes == 0 && r.seqScans == 0
  {
    ReportConsistent(out, steps, tables);
  }

  lemma ReportConsistent(out: seq<Recommendation>, steps: seq<Step>, tables: map<string, TableInfo>)
    requires IsReport(out, steps, tables)
    ensures Consistent(out, tables)
  {
    hide Listing, Fingerprints, Ascending, UpToNul, IsReport, Info;
    ReportMembers(out, steps, tables);
  }

  /** So the recommendations are sorted exactly when their relations are: ties are same-relation pairs. */
  lemma SortedByRelation(out: seq<Recommendation>, tables: map<string, TableInfo>)
    requires Consistent(out, tables)
    ensures Sorted(Outranks, out) <==> Sorted(RanksAboveIn(tables), Relations(out))
  {
  }

  /** The sort's comparison is a strict weak order on any recommendations, and within a report its ties are
      exactly the pairs of one relation. */
  lemma TiesAreSameRelation(out: seq<Recommendation>, steps: seq<Step>, tables: map<string, TableInfo>,
                            i: nat, j: nat)
    requires IsReport(out, steps, tables) && i < |out| && j < |out|
    ensures StrictWeakOn(Outranks, out)
    ensures !Outranks(out[i], out[j]) && !Outranks(out[j], out[i]) <==> out[i].relation == out[j].relation
  {
    hide Score, Info, IsReport, StrictWeakOn;
    OutranksIsStrictWeak(out);
    ReportConsistent(out, steps, tables);
    GoStrings.LessTotal(out[i].relation, out[j].relation);
    GoStrings.LessAsymmetric(out[i].relation, out[j].relation);
    assert out[i] in out && out[j] in out;
  }

  /** Each relation's recommendations stand in one contiguous block. */
  lemma RelationBlocks(out: seq<Recommendation>, steps: seq<Step>, tables: map<string, TableInfo>,
                       i: nat, j: nat, k: nat)
    requires IsReport(out, steps, tables) && i < j < k < |out| && out[i].relation == out[k].relation
    ensures out[j].relation == out[i].relation
  {
    ReportConsistent(out, steps, tables);
    SortedByRelation(out, tables);
    var rels := Relations(out);
    RanksAboveTotal(tables, rels);
    hide RanksAboveIn, IsReport, Outranks;
    assert rels[i] in rels && rels[j] in rels;
    assert !RanksAboveIn(tables)(rels[j], rels[i]) && !RanksAboveIn(tables)(rels[k], rels[j]);
  }

  /** Map order and the sort's freedom decide only the order inside a relation's block: the outputs for one
      input are exactly the rearrangements with the same sequence of relations. */
  lemma OrderFreedomExact(out: seq<Recommendation>, out': seq<Recommendation>, steps: seq<Step>,
                          tables: map<string, TableInfo>)
    requires IsReport(out, steps, tables)
    ensures IsReport(out', steps, tables) <==> multiset(out') == multiset(out) && Relations(out') == Relations(out)
  {
    hide Listing, AdviceIn, Outranks, Relations, RanksAboveIn, Sorted, StrictTotalOn;
    ReportConsistent(out, steps, tables);
    SortedByRelation(out, tables);
    if multiset(out') == multiset(out) {
      SameMembers(out', out);
      SortedByRelation(out', tables);
      RelationsPermute(out, out');
      RanksAboveTotal(tables, Relations(out));
      if Sorted(RanksAboveIn(tables), Relations(out')) {
        SortedUnique(RanksAboveIn(tables), Relations(out), Relations(out'));
      }
    }
  }

  lemma RelationsPermute(out: seq<Recommendation>, out': seq<Recommendation>)
    requires multiset(out') == multiset(out)
    ensures multiset(Relations(out)) == multiset(Relations(out'))
  {
    MapPermutation((x: Recommendation) => x.relation, out, out');
    assert Relations(out) == Map((x: Recommendation) => x.relation, out);
    assert Relations(out') == Map((x: Recommendation) => x.relation, out');
  }

  // ---- When the result is unique -----------------------------------------------------------

  lemma ReportExists(steps: seq<Step>, tables: map<string, TableInfo>) returns (out: seq<Recommendation>)
    ensures IsReport(out, steps, tables)
  {
    hide Outranks, Listing, AdviceIn, Map;
    var recs := Map(AdviceIn(steps, tables), Listing(steps));
    OutranksIsStrictWeak(recs);
    out := SortedPermutation(Outranks, recs);
  }

  /** Candidates whose recommendations bear the same label have the same columns and the same fingerprints. */
  ghost predicate OneAdvicePerLabel(steps: seq<Step>) {
    forall c, c' :: c in Listing(steps) && c' in Listing(steps) && UpToNul(c.rel) == UpToNul(c'.rel) ==>
                      c.cols == c'.cols && Fingerprints(steps, c) == Fingerprints(steps, c')
  }

  lemma AdviceEqual(steps: seq<Step>, tables: map<string, TableInfo>, c: Candidate, c': Candidate)
    ensures Advice(steps, tables, c) == Advice(steps, tables, c') <==>
            UpToNul(c.rel) == UpToNul(c'.rel) && c.cols == c'.cols
            && Fingerprints(steps, c) == Fingerprints(steps, c')
  {
    hide Fingerprints, Ascending, UpToNul;
    var f, f' := Fingerprints(steps, c), Fingerprints(steps, c');
    if Ascending(f) == Ascending(f') {
      assert forall x :: x in f <==> x in Ascending(f);
      assert forall x :: x in f' <==> x in Ascending(f');
      assert f == f';
    }
  }

  lemma OnlyReport(steps: seq<Step>, tables: map<string, TableInfo>,
                   out: seq<Recommendation>, out': seq<Recommendation>)
    requires OneAdvicePerLabel(steps) && IsReport(out, steps, tables) && IsReport(out', steps, tables)
    ensures out == out'
  {
    OrderFreedomExact(out, out', steps, tables);
    SameMembers(out, out');
    ReportMembers(out, steps, tables);
    hide IsReport, Listing, Fingerprints, UpToNul;
    forall i | 0 <= i < |out| ensures out[i] == out'[i] {
      assert out[i].relation == Relations(out)[i] == Relations(out')[i] == out'[i].relation;
      assert out[i] in out && out'[i] in out;
      var c :| c in Listing(steps) && out[i] == Advice(steps, tables, c);
      var c' :| c' in Listing(steps) && out'[i] == Advice(steps, tables, c');
      AdviceEqual(steps, tables, c, c');
    }
  }

  /** Two different recommendations of one label: exchanging them gives another result. */
  lemma OtherReport(steps: seq<Step>, tables: map<string, TableInfo>, out: seq<Recommendation>,
                    c: Candidate, c': Candidate) returns (out': seq<Recommendation>)
    requires IsReport(out, steps, tables) && c in Listing(steps) && c' in Listing(steps)
    requires UpToNul(c.rel) == UpToNul(c'.rel) && Advice(steps, tables, c) != Advice(steps, tables, c')
    ensures IsReport(out', steps, tables) && out' != out
  {
    hide IsReport, Listing, Fingerprints, Ascending, UpToNul, Info;
    ReportMembers(out, steps, tables);
    var r, r' := Advice(steps, tables, c), Advice(steps, tables, c');
    assert r in out && r' in out;
    var i :| 0 <= i < |out| && out[i] == r;
    var j :| 0 <= j < |out| && out[j] == r';
    var lo, hi := if i < j then i else j, if i < j then j else i;
    Exchanged(out, lo, hi);
    out' := out[lo := out[hi]][hi := out[lo]];
    assert out'[lo] != out[lo];
    assert Relations(out') == Relations(out);
    OrderFreedomExact(out, out', steps, tables);
  }

  /** An input has one result, whatever order the map and the sort choose, if and only if candidates with the same
      label have the same columns and fingerprints. */
  lemma OneReportExact(steps: seq<Step>, tables: map<string, TableInfo>)
    ensures (forall out, out' :: IsReport(out, steps, tables) && IsReport(out', steps, tables) ==> out == out')
            <==> OneAdvicePerLabel(steps)
  {
    hide IsReport, Listing, Fingerprints, UpToNul, Advice;
    if OneAdvicePerLabel(steps) {
      forall out, out' | IsReport(out, steps, tables) && IsReport(out', steps, tables) ensures out == out' {
        OnlyReport(steps, tables, out, out');
      }
    } else {
      var c, c' :| c in Listing(steps) && c' in Listing(steps) && UpToNul(c.rel) == UpToNul(c'.rel)
                   && !(c.cols == c'.cols && Fingerprints(steps, c) == Fingerprints(steps, c'));
      AdviceEqual(steps, tables, c, c');
      var out := ReportExists(steps, tables);
      var out' := OtherReport(steps, tables, out, c, c');
    }
  }

  /** No relation is scanned with two different column lists. */
  ghost predicate OneListPerRelation(steps: seq<Step>) {
    forall c, c' :: c in Listing(steps) && c' in Listing(steps) && c.rel == c'.rel ==> c == c'
  }

  /** Where no relation has a NUL: if and only if every relation has one column list. */
  lemma OneReportPlain(steps: seq<Step>, tables: map<string, TableInfo>)
    requires PlainRelations(steps)
    ensures (forall out, out' :: IsReport(out, steps, tables) && IsReport(out', steps, tables) ==> out == out')
            <==> OneListPerRelation(steps)
  {
    hide IsReport, Listing, Fingerprints, UpToNul;
    OneReportExact(steps, tables);
    forall c | c in Listing(steps) ensures UpToNul(c.rel) == c.rel {
      UpToNulExact(c.rel);
    }
  }

  function Product(ti: TableInfo): int {
    ti.totalBytes * (ti.seqScans + 1)
  }

  /** The machine score is size times scan count exactly when that product fits in an int64, and otherwise differs
      from it by a multiple of 2^64. */
  lemma ScoreExact(ti: TableInfo)
    ensures Score(ti) == Product(ti) <==> InInt64(Product(ti))
    ensures (Product(ti) - Score(ti)) % TWO_64 == 0
  {
    var n := ti.seqScans + 1;
    var m := ti.totalBytes * Wrap(n);
    WrappedBy(n);
    WrappedBy(m);
    var k, l := (n - Wrap(n)) / TWO_64, (m - Wrap(m)) / TWO_64;
    assert ti.totalBytes * n == ti.totalBytes * Wrap(n) + ti.totalBytes * k * TWO_64;
    assert Product(ti) - Score(ti) == (ti.totalBytes * k + l) * TWO_64;
    Multiple(ti.totalBytes * k + l);
  }

  lemma WrappedBy(x: int)
    ensures x == Wrap(x) + ((x - Wrap(x)) / TWO_64) * TWO_64
  {
  }

  lemma Multiple(k: int)
    ensures (k * TWO_64) % TWO_64 == 0
  {
  }

  /** Where the products of size and scan count plus one fit in an int64 (0 for a relation without a table), they
      descend, and on equal products the labels ascend lexicographically. */
  lemma RankedByProduct(out: seq<Recommendation>, steps: seq<Step>, tables: map<string, TableInfo>, i: nat, j: nat)
    requires IsReport(out, steps, tables) && i < j < |out|
    requires forall r :: r in out && r.relation in tables ==>
               var t := tables[r.relation];
               -9223372036854775808 <= t.totalBytes * (t.seqScans + 1) <= 9223372036854775807
    ensures var a, b := out[i].relation, out[j].relation;
            var x := if a in tables then tables[a].totalBytes * (tables[a].seqScans + 1) else 0;
            var y := if b in tables then tables[b].totalBytes * (tables[b].seqScans + 1) else 0;
            x >= y && (x == y ==> a == b || GoStrings.Lexicographic(a, b))
  {
    var a, b := out[i].relation, out[j].relation;
    ReportSorted(out, steps, tables);
    ReportConsistent(out, steps, tables);
    assert out[i] in out && out[j] in out;
    TableScore(tables, a);
    TableScore(tables, b);
    hide Info, Score, IsReport;
    assert !Outranks(out[j], out[i]);
    GoStrings.LessTotal(a, b);
    GoStrings.LessExact(a, b);
  }

  lemma TableScore(tables: map<string, TableInfo>, rel: string)
    requires rel in tables ==> InInt64(tables[rel].totalBytes * (tables[rel].seqScans + 1))
    ensures Score(Info(tables, rel)) ==
            if rel in tables then tables[rel].totalBytes * (tables[rel].seqScans + 1) else 0
  {
    hide Score;
    ScoreExact(Info(tables, rel));
    assert 0 * (0 + 1) == 0;
  }

  /** The scores of two tables are in the order of their products. */
  predicate RankedRightly(a: TableInfo, b: TableInfo) {
    && (Score(a) > Score(b) <==> Product(a) > Product(b))
    && (Score(a) < Score(b) <==> Product(a) < Product(b))
  }

  /** A table whose product fits is ranked rightly against every other such table, and one whose product does not
      fit is ranked wrongly against some. */
  lemma RankedRightlyExact(a: TableInfo)
    ensures InInt64(Product(a)) <==> forall b :: InInt64(Product(b)) ==> RankedRightly(a, b)
  {
    hide Product, Score;
    ScoreExact(a);
    if InInt64(Product(a)) {
      forall b | InInt64(Product(b)) ensures RankedRightly(a, b) {
        ScoreExact(b);
      }
    } else {
      var most, least := TableInfo(TWO_63 - 1, 0), TableInfo(-TWO_63, 0);
      assert Product(most) == TWO_63 - 1 && Product(least) == -TWO_63 by { ExtremeProducts(); }
      ScoreExact(most);
      ScoreExact(least);
      assert !RankedRightly(a, if Product(a) > 0 then most else least);
    }
  }

  lemma ExtremeProducts()
    ensures Product(TableInfo(TWO_63 - 1, 0)) == TWO_63 - 1 && Product(TableInfo(-TWO_63, 0)) == -TWO_63
  {
  }

  lemma ReportSorted(out: seq<Recommendation>, steps: seq<Step>, tables: map<string, TableInfo>)
    requires IsReport(out, steps, tables)
    ensures Sorted(Outranks, out)
  {
  }

  lemma HugeScore()
    ensures var huge, tiny := TableInfo(0x4000_0000_0000_0000, 3), TableInfo(1, 0);
            Product(huge) > Product(tiny) && Score(huge) < Score(tiny)
  {
  }

  /** A huge hot table can stand below a tiny cold one. */
  lemma OverflowMisranks(out: seq<Recommendation>, steps: seq<Step>, tables: map<string, TableInfo>, i: nat, j: nat)
    requires IsReport(out, steps, tables) && i < |out| && j < |out|
    requires out[i].relation in tables && tables[out[i].relation] == TableInfo(1, 0)
    requires out[j].relation in tables && tables[out[j].relation] == TableInfo(0x4000_0000_0000_0000, 3)
    ensures var tiny, huge := tables[out[i].relation], tables[out[j].relation];
            tiny.totalBytes * (tiny.seqScans + 1) < huge.totalBytes * (huge.seqScans + 1) && i < j
  {
    assert Info(tables, out[i].relation) == TableInfo(1, 0);
    assert Info(tables, out[j].relation) == TableInfo(0x4000_0000_0000_0000, 3);
    hide Info, Score, Product, IsReport;
    HugeScore();
    ReportConsistent(out, steps, tables);
    ReportSorted(out, steps, tables);
    assert out[i] in out && out[j] in out;
    assert Outranks(out[i], out[j]);
    assert !Outranks(out[j], out[i]);
  }

  // ---- Rows in terms of the plans ----------------------------------------------------------

  /** A node of the plan scans the relation sequentially, by a condition with these columns. */
  ghost predicate PlanAsks(p: QueryPlan, rel: string, cols: seq<string>) {
    && p.QueryPlan? && rel != "" && cols != []
    && exists n :: n in Visits(p.root) && n.nodeType == "Seq Scan" && n.relationName == rel
                   && ColumnsOf(Comparisons(n.normalizedCondition)) == cols
  }

  lemma CandidateIs(n: Fields, rel: string, cols: seq<string>)
    ensures CandidateOf(n) == Some(Candidate(rel, cols)) <==>
            n.nodeType == "Seq Scan" && n.relationName == rel && rel != "" && cols != []
            && ColumnsOf(Comparisons(n.normalizedCondition)) == cols
  {
    hide ColumnsOf, Comparisons;
  }

  lemma AsksExact(p: QueryPlan, rel: string, cols: seq<string>)
    ensures PlanAsks(p, rel, cols) <==>
            exists n :: n in Visits(GetRoot(p)) && CandidateOf(n) == Some(Candidate(rel, cols))
  {
    hide ColumnsOf, Comparisons, CandidateOf, Visits;
    assert Visits(NilNode) == [] by { NilVisits(); }
    if PlanAsks(p, rel, cols) {
      var n :| n in Visits(p.root) && n.nodeType == "Seq Scan" && n.relationName == rel
               && ColumnsOf(Comparisons(n.normalizedCondition)) == cols;
      CandidateIs(n, rel, cols);
    }
    if n :| n in Visits(GetRoot(p)) && CandidateOf(n) == Some(Candidate(rel, cols)) {
      CandidateIs(n, rel, cols);
    }
  }

  lemma NilVisits()
    ensures Visits(NilNode) == []
  {
  }

  /** The evidence for a candidate, plan by plan. */
  lemma StepAsks(plans: seq<QueryPlan>, c: Candidate, f: string)
    ensures (exists s :: s in Steps(plans) && CandidateOf(s.node) == Some(c) && s.fp == f) <==>
            exists p :: p in plans && p.QueryPlan? && p.fingerprint == f && PlanAsks(p, c.rel, c.cols)
  {
    hide Steps, CandidateOf, PlanAsks, Visits;
    if s :| s in Steps(plans) && CandidateOf(s.node) == Some(c) && s.fp == f {
      StepsExact(plans, s);
      var p :| p in plans && s.fp == GetFingerprint(p) && s.node in Visits(GetRoot(p));
      AsksExact(p, c.rel, c.cols);
      assert p.QueryPlan? by { AsksPlan(p, c.rel, c.cols); }
    }
    if p :| p in plans && p.QueryPlan? && p.fingerprint == f && PlanAsks(p, c.rel, c.cols) {
      AsksExact(p, c.rel, c.cols);
      AsksPlan(p, c.rel, c.cols);
      var n :| n in Visits(GetRoot(p)) && CandidateOf(n) == Some(Candidate(c.rel, c.cols));
      StepsExact(plans, Step(f, n));
      assert Step(f, n) in Steps(plans) && CandidateOf(Step(f, n).node) == Some(c);
    }
  }

  lemma AsksPlan(p: QueryPlan, rel: string, cols: seq<string>)
    requires PlanAsks(p, rel, cols)
    ensures p.QueryPlan?
  {
  }

  /** Every row comes from a relation and a column list that some plan asks for, under the part of the name before
      the first NUL; it lists exactly the non-empty fingerprints of the plans that ask for them. */
  lemma RowEvidence(plans: seq<QueryPlan>, tables: map<string, TableInfo>, out: seq<Recommendation>, r: Recommendation)
    returns (rel: string)
    requires IsReport(out, Steps(plans), tables) && r in out
    ensures UpToNul(rel) == r.relation && exists p :: p in plans && PlanAsks(p, rel, r.columns)
    ensures forall f :: f in r.fingerprints <==>
                          && f != ""
                          && exists p :: p in plans && p.QueryPlan? && p.fingerprint == f && PlanAsks(p, rel, r.columns)
  {
    hide IsReport, Steps, Listing, PlanAsks, UpToNul, Info, CandidateOf, Ascending, Fingerprints;
    var steps := Steps(plans);
    ReportMembers(out, steps, tables);
    var c :| c in Listing(steps) && r == Advice(steps, tables, c);
    rel := c.rel;
    ListingExact(steps, c);
    var s :| s in steps && CandidateOf(s.node) == Some(c);
    StepAsks(plans, c, s.fp);
    AdviceCounts(steps, tables, c);
    forall f ensures f in Fingerprints(steps, c) <==>
                       && f != ""
                       && exists p :: p in plans && p.QueryPlan? && p.fingerprint == f && PlanAsks(p, rel, r.columns) {
      FingerprintOf(steps, c, f);
      StepAsks(plans, c, f);
    }
  }

  lemma FingerprintOf(steps: seq<Step>, c: Candidate, f: string)
    ensures f in Fingerprints(steps, c) <==>
            f != "" && exists s :: s in steps && CandidateOf(s.node) == Some(c) && s.fp == f
  {
    hide CandidateOf;
  }
}
