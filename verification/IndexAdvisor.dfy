/** RecommendIndexes of internal/advisor/index.go: walk the plans, aggregate, report, rank. */
module IndexAdvisor {
  import opened Sorting
  import opened MachineInt
  import opened PlanProto
  import opened CandidateKey
  import opened GroupBy
  import GoStrings
  import Filter = FilterColumns
  import Scanner = ColumnScanner

  /** An aggregate: shared by reference from the map, its fingerprint set updated in place. */
  class Agg {
    const cols: seq<string>
    var fps: set<string>

    constructor (cols: seq<string>)
      ensures this.cols == cols && fps == {}
    {
      this.cols := cols;
      fps := {};
    }
  }

  class Aggregation {
    var cand: map<string, Agg>

    /** No two keys share an aggregate. */
    ghost predicate Valid()
      reads this
    {
      forall k, k' :: k in cand && k' in cand && k != k' ==> cand[k] != cand[k']
    }

    /** The map's contents as values. */
    ghost function View(): map<string, AggValue>
      reads this, cand.Values
    {
      map k | k in cand :: AggValue(cand[k].cols, cand[k].fps)
    }

    constructor ()
      ensures Valid() && View() == map[] && cand == map[]
    {
      cand := map[];
    }

    /** The function RecommendIndexes passes to walk, for a plan with fingerprint `fp`. */
    method Visit(fp: string, n: Fields)
      requires Valid()
      modifies this, cand.Values
      ensures Valid() && fresh(cand.Values - old(cand.Values))
      ensures View() == Absorb(old(View()), Step(fp, n))
    {
      hide Filter.ColumnsOf, Scanner.Comparisons, Key;
      if n.nodeType != "Seq Scan" || n.relationName == "" {
        return;
      }
      var cols := Filter.FilterColumns(n.normalizedCondition);
      assert cols == FilterCols(n.normalizedCondition);
      if |cols| == 0 {
        return;
      }
      var key := n.relationName + "\0" + Join(cols);
      assert key == KeyOf(Candidate(n.relationName, cols)) by { KeyText(n.relationName, cols); }
      if key !in cand {
        var a := new Agg(cols);
        cand := cand[key := a];
      }
      if fp != "" {
        cand[key].fps := cand[key].fps + {fp};
      }
    }

    /** walk: calls Visit on every non-nil node, parents first. */
    method Walk(fp: string, n: PlanNode)
      requires Valid()
      modifies this, cand.Values
      ensures Valid() && fresh(cand.Values - old(cand.Values))
      ensures View() == AbsorbAll(old(View()), StepsOf(fp, Visits(n)))
      decreases n
    {
      hide Absorb;
      if n.NilNode? {
        return;
      }
      ghost var v0 := View();
      Visit(fp, n.fields);
      ghost var v1 := View();
      VisitFirst(v0, fp, n.fields, []);
      for i := 0 to |n.plans|
        invariant Valid() && fresh(cand.Values - old(cand.Values))
        invariant View() == AbsorbAll(v1, StepsOf(fp, VisitsAll(n.plans[..i])))
      {
        Walk(fp, n.plans[i]);
        assert n.plans[..i + 1] == n.plans[..i] + [n.plans[i]];
        WalkNext(v1, fp, n.plans[..i], n.plans[i]);
      }
      assert n.plans[..|n.plans|] == n.plans;
      VisitFirst(v0, fp, n.fields, VisitsAll(n.plans));
    }
  }

  lemma KeyText(rel: string, cols: seq<string>)
    ensures rel + "\0" + Join(cols) == Key(rel, cols)
  {
  }

  lemma VisitFirst(v: map<string, AggValue>, fp: string, f: Fields, rest: seq<Fields>)
    ensures AbsorbAll(v, StepsOf(fp, [f] + rest)) == AbsorbAll(Absorb(v, Step(fp, f)), StepsOf(fp, rest))
  {
    var all := StepsOf(fp, [f] + rest);
    assert all[0] == Step(fp, f) && all[1..] == StepsOf(fp, rest);
  }

  lemma WalkNext(v: map<string, AggValue>, fp: string, ns: seq<PlanNode>, n: PlanNode)
    ensures AbsorbAll(v, StepsOf(fp, VisitsAll(ns + [n]))) ==
            AbsorbAll(AbsorbAll(v, StepsOf(fp, VisitsAll(ns))), StepsOf(fp, Visits(n)))
  {
    VisitsAllSnoc(ns, n);
    assert StepsOf(fp, VisitsAll(ns) + Visits(n)) == StepsOf(fp, VisitsAll(ns)) + StepsOf(fp, Visits(n));
    AbsorbConcat(v, StepsOf(fp, VisitsAll(ns)), StepsOf(fp, Visits(n)));
  }

  // ---- The report --------------------------------------------------------------------------

  datatype TableInfo = TableInfo(totalBytes: int64, seqScans: int64)

  datatype Recommendation = Recommendation(
    relation: string, columns: seq<string>, queryCount: nat, totalBytes: int64, seqScans: int64,
    fingerprints: seq<string>)

  /** Strictly ascending, with exactly the given members. */
  ghost predicate IsAscending(r: seq<string>, s: set<string>) {
    && (forall i, j :: 0 <= i < j < |r| ==> GoStrings.Less(r[i], r[j]))
    && (forall x :: x in r <==> x in s)
  }

  /** The ascending list of a set; there is one and no other. */
  ghost function Ascending(s: set<string>): (r: seq<string>)
    ensures IsAscending(r, s)
  {
    if s == {} then []
    else
      var x :| x in s;
      var r := Ascending(s - {x});
      var r' := Insert(x, r);
      assert forall y :: y in s <==> y == x || y in s - {x};
      r'
  }

  ghost function Insert(x: string, r: seq<string>): (r': seq<string>)
    requires x !in r && forall i, j :: 0 <= i < j < |r| ==> GoStrings.Less(r[i], r[j])
    ensures forall i, j :: 0 <= i < j < |r'| ==> GoStrings.Less(r'[i], r'[j])
    ensures forall y :: y in r' <==> y == x || y in r
  {
    GoStrings.LessOrder();
    if r == [] || GoStrings.Less(x, r[0]) then [x] + r
    else
      assert r[0] in r && forall y :: y in r <==> y == r[0] || y in r[1..];
      var t := Insert(x, r[1..]);
      assert GoStrings.Less(r[0], x);
      assert forall y :: y in r[1..] ==> GoStrings.Less(r[0], y);
      assert forall y :: y in t ==> GoStrings.Less(r[0], y);
      assert forall y :: y in [r[0]] + t <==> y == r[0] || y in t;
      [r[0]] + t
  }

  /** sortedKeys. */
  method SortedKeys(m: set<string>) returns (out: seq<string>)
    ensures out == Ascending(m)
    ensures forall i, j :: 0 <= i < j < |out| ==> GoStrings.Lexicographic(out[i], out[j])
    ensures forall x :: x in out <==> x in m
  {
    GoStrings.LessIsLexicographic();
    var ks: seq<string> := [];
    var rest := m;
    while rest != {}
      invariant rest <= m && Distinct(ks)
      invariant forall x :: x in ks <==> x in m && x !in rest
      decreases |rest|
    {
      var k :| k in rest;
      rest := rest - {k};
      ks := ks + [k];
    }
    var a := new string[|ks|](i requires 0 <= i < |ks| => ks[i]);
    assert a[..] == ks;
    GoStrings.LessOrder();
    Sort(a, GoStrings.Less);
    out := a[..];
    SortedIsAscending(out, ks, m);
  }

  lemma SortedIsAscending(out: seq<string>, ks: seq<string>, m: set<string>)
    requires multiset(out) == multiset(ks) && Sorted(GoStrings.Less, out)
    requires Distinct(ks) && forall x :: x in ks <==> x in m
    ensures out == Ascending(m)
  {
    var asc := Ascending(m);
    GoStrings.LessOrder();
    DistinctPermutation(ks, asc);
    assert Sorted(GoStrings.Less, asc);
    SortedUnique(GoStrings.Less, out, asc);
  }

  // ---- Ranking -----------------------------------------------------------------------------

  /** TotalBytes * (SeqScans + 1), in int64 arithmetic. */
  function Score(ti: TableInfo): int64 {
    Wrap(ti.totalBytes * Wrap(ti.seqScans + 1))
  }

  function Info(tables: map<string, TableInfo>, rel: string): TableInfo {
    if rel in tables then tables[rel] else TableInfo(0, 0)
  }

  /** The sort's less function. */
  predicate Outranks(a: Recommendation, b: Recommendation) {
    var sa, sb := Score(TableInfo(a.totalBytes, a.seqScans)), Score(TableInfo(b.totalBytes, b.seqScans));
    if sa != sb then sa > sb else GoStrings.Less(a.relation, b.relation)
  }

  // ---- What the report is ------------------------------------------------------------------

  /** The recommendation for a candidate. Its label is what precedes the first NUL of the relation. */
  ghost function Advice(steps: seq<Step>, tables: map<string, TableInfo>, c: Candidate): Recommendation {
    var rel := UpToNul(c.rel);
    var fps := Fingerprints(steps, c);
    Recommendation(rel, c.cols, |fps|, Info(tables, rel).totalBytes, Info(tables, rel).seqScans, Ascending(fps))
  }

  ghost function AdviceIn(steps: seq<Step>, tables: map<string, TableInfo>): Candidate -> Recommendation {
    c => Advice(steps, tables, c)
  }

  /** One recommendation per distinct candidate in the evidence, ranked. */
  ghost predicate IsReport(out: seq<Recommendation>, steps: seq<Step>, tables: map<string, TableInfo>) {
    multiset(out) == multiset(Map(AdviceIn(steps, tables), Listing(steps))) && Sorted(Outranks, out)
  }

  /** The first loop: every plan's tree is walked. */
  method Aggregate(plans: seq<QueryPlan>) returns (agg: Aggregation)
    ensures fresh(agg) && agg.Valid() && IsGroupBy(agg.View(), Steps(plans))
  {
    hide AbsorbAll, Absorb, IsGroupBy;
    agg := new Aggregation();
    AbsorbNothing();
    for i := 0 to |plans|
      invariant agg.Valid() && fresh(agg) && fresh(agg.cand.Values)
      invariant agg.View() == AbsorbAll(map[], Steps(plans[..i]))
    {
      agg.Walk(GetFingerprint(plans[i]), GetRoot(plans[i]));
      StepsNext(plans, i);
    }
    assert plans[..|plans|] == plans;
    AbsorbIsGroupBy(Steps(plans));
  }

  /** The second loop: one recommendation per map entry, in whatever order the map yields them. */
  method Collect(agg: Aggregation, ghost steps: seq<Step>, tables: map<string, TableInfo>)
    returns (recs: seq<Recommendation>)
    requires IsGroupBy(agg.View(), steps)
    ensures multiset(recs) == multiset(Map(AdviceIn(steps, tables), Listing(steps)))
  {
    hide Listing, Fingerprints, Ascending, UpToNul, Key, IsGroupBy, Advice;
    recs := [];
    ghost var done: seq<Candidate> := [];
    var keys := agg.cand.Keys;
    ListedIsKeyed(agg.View(), steps);
    while keys != {}
      invariant keys <= agg.cand.Keys
      invariant Distinct(done) && forall c :: c in done <==> c in Listing(steps) && KeyOf(c) !in keys
      invariant recs == Map(AdviceIn(steps, tables), done)
      decreases |keys|
    {
      var key :| key in keys;
      var a := agg.cand[key];
      var rel := UpToNul(key);
      var ti := Info(tables, rel);
      var fps := SortedKeys(a.fps);
      ghost var c := KeyCandidate(agg.View(), steps, tables, key);
      recs := recs + [Recommendation(rel, a.cols, |a.fps|, ti.totalBytes, ti.seqScans, fps)];
      keys := keys - {key};
      done := done + [c];
    }
    DistinctPermutation(done, Listing(steps));
    MapPermutation(AdviceIn(steps, tables), done, Listing(steps));
  }

  method RecommendIndexes(plans: seq<QueryPlan>, tables: map<string, TableInfo>) returns (out: seq<Recommendation>)
    ensures IsReport(out, Steps(plans), tables)
  {
    hide Listing, Outranks, Sorted, IsGroupBy, AdviceIn;
    var agg := Aggregate(plans);
    var recs := Collect(agg, Steps(plans), tables);
    var arr := new Recommendation[|recs|](i requires 0 <= i < |recs| => recs[i]);
    assert arr[..] == recs;
    OutranksIsStrictWeak(recs);
    Sort(arr, Outranks);
    out := arr[..];
  }

  lemma ListedIsKeyed(v: map<string, AggValue>, steps: seq<Step>)
    requires IsGroupBy(v, steps)
    ensures forall c :: c in Listing(steps) ==> KeyOf(c) in v
  {
  }

  lemma AbsorbNothing()
    ensures AbsorbAll(map[], Steps([])) == map[]
  {
  }

  lemma StepsNext(plans: seq<QueryPlan>, i: nat)
    requires i < |plans|
    ensures AbsorbAll(map[], Steps(plans[..i + 1])) ==
            AbsorbAll(AbsorbAll(map[], Steps(plans[..i])), StepsOf(GetFingerprint(plans[i]), Visits(GetRoot(plans[i]))))
  {
    var front := plans[..i + 1];
    assert front[..i] == plans[..i] && front[i] == plans[i];
    AbsorbConcat(map[], Steps(plans[..i]), StepsOf(GetFingerprint(plans[i]), Visits(GetRoot(plans[i]))));
  }

  /** The candidate a key of the map stands for, and its recommendation as read off the map. */
  lemma KeyCandidate(v: map<string, AggValue>, steps: seq<Step>, tables: map<string, TableInfo>, key: string)
    returns (c: Candidate)
    requires IsGroupBy(v, steps) && key in v
    ensures c in Listing(steps) && KeyOf(c) == key
    ensures forall c' :: c' in Listing(steps) && KeyOf(c') == key ==> c' == c
    ensures var rel := UpToNul(key);
            Advice(steps, tables, c) ==
            Recommendation(rel, v[key].cols, |v[key].fps|, Info(tables, rel).totalBytes, Info(tables, rel).seqScans,
                           Ascending(v[key].fps))
  {
    hide Listing, Fingerprints, Ascending;
    c :| c in Listing(steps) && KeyOf(c) == key;
    forall c' | c' in Listing(steps) && KeyOf(c') == key ensures c' == c {
      ListedKeys(steps, c, c');
    }
    UpToNulOf(c.rel, Join(c.cols));
  }

  lemma OutranksIsStrictWeak(recs: seq<Recommendation>)
    ensures StrictWeakOn(Outranks, recs)
  {
    hide Score;
    GoStrings.LessOrder();
  }
}
