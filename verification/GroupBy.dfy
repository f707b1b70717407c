/** What RecommendIndexes of internal/advisor/index.go groups, stated over the evidence in the plans. */
module GroupBy {
  import opened Options
  import opened Sorting
  import opened ColumnScanner
  import opened FilterColumns
  import opened CandidateKey
  import opened PlanProto

  /** A visited node together with the fingerprint of its plan. */
  datatype Step = Step(fp: string, node: Fields)

  datatype Candidate = Candidate(rel: string, cols: seq<string>)

  /** One entry of the aggregation map: the columns and the fingerprints seen so far. */
  datatype AggValue = AggValue(cols: seq<string>, fps: set<string>)

  function FilterCols(cond: string): seq<string> {
    ColumnsOf(Comparisons(cond))
  }

  /** The candidate a node is evidence for: a sequential scan of a named relation with filter columns. */
  function CandidateOf(f: Fields): Option<Candidate> {
    if f.nodeType != "Seq Scan" || f.relationName == "" || FilterCols(f.normalizedCondition) == [] then None
    else Some(Candidate(f.relationName, FilterCols(f.normalizedCondition)))
  }

  function KeyOf(c: Candidate): string {
    Key(c.rel, c.cols)
  }

  /** Adding one piece of evidence to the map. */
  function Absorb(v: map<string, AggValue>, s: Step): map<string, AggValue> {
    match CandidateOf(s.node)
    case None => v
    case Some(c) =>
      var key := KeyOf(c);
      var g := if key in v then v[key] else AggValue(c.cols, {});
      v[key := if s.fp != "" then AggValue(g.cols, g.fps + {s.fp}) else g]
  }

  function AbsorbAll(v: map<string, AggValue>, steps: seq<Step>): map<string, AggValue>
    decreases |steps|
  {
    if steps == [] then v else AbsorbAll(Absorb(v, steps[0]), steps[1..])
  }

  lemma {:induction false} AbsorbConcat(v: map<string, AggValue>, xs: seq<Step>, ys: seq<Step>)
    ensures AbsorbAll(v, xs + ys) == AbsorbAll(AbsorbAll(v, xs), ys)
    decreases |xs|
  {
    hide Absorb;
    if xs == [] {
      assert xs + ys == ys;
    } else {
      assert (xs + ys)[1..] == xs[1..] + ys;
      AbsorbConcat(Absorb(v, xs[0]), xs[1..], ys);
    }
  }

  // ---- The evidence in the plans -----------------------------------------------------------

  function StepsOf(fp: string, nodes: seq<Fields>): (r: seq<Step>)
    ensures |r| == |nodes| && forall i :: 0 <= i < |r| ==> r[i] == Step(fp, nodes[i])
  {
    Map((f: Fields) => Step(fp, f), nodes)
  }

  function Steps(plans: seq<QueryPlan>): seq<Step> {
    if plans == [] then []
    else
      var p := plans[|plans| - 1];
      Steps(plans[..|plans| - 1]) + StepsOf(GetFingerprint(p), Visits(GetRoot(p)))
  }

  /** The evidence is the set of visited nodes, each with its plan's fingerprint. */
  lemma {:induction false} StepsExact(plans: seq<QueryPlan>, s: Step)
    ensures s in Steps(plans) <==>
            exists p :: p in plans && s.fp == GetFingerprint(p) && s.node in Visits(GetRoot(p))
  {
    if plans != [] {
      var p := plans[|plans| - 1];
      var front := plans[..|plans| - 1];
      StepsExact(front, s);
      assert plans == front + [p];
      var last := StepsOf(GetFingerprint(p), Visits(GetRoot(p)));
      assert s in Steps(plans) <==> s in Steps(front) || s in last;
      if s.fp == GetFingerprint(p) && s.node in Visits(GetRoot(p)) {
        var i :| 0 <= i < |last| && Visits(GetRoot(p))[i] == s.node;
        assert last[i] == s;
      }
    }
  }

  // ---- The groups, declaratively -----------------------------------------------------------

  /** The distinct candidates, in the order of their first evidence. */
  function Listing(steps: seq<Step>): (r: seq<Candidate>)
    ensures Distinct(r)
  {
    if steps == [] then []
    else
      var before := Listing(steps[..|steps| - 1]);
      match CandidateOf(steps[|steps| - 1].node)
      case None => before
      case Some(c) => if c in before then before else before + [c]
  }

  /** The distinct non-empty fingerprints of plans with a node that is evidence for the candidate. */
  function Fingerprints(steps: seq<Step>, c: Candidate): set<string> {
    set s | s in steps && CandidateOf(s.node) == Some(c) && s.fp != "" :: s.fp
  }

  lemma {:induction false} ListingExact(steps: seq<Step>, c: Candidate)
    ensures c in Listing(steps) <==> exists s :: s in steps && CandidateOf(s.node) == Some(c)
  {
    hide CandidateOf;
    if steps != [] {
      var front, s := steps[..|steps| - 1], steps[|steps| - 1];
      ListingExact(front, c);
      assert steps == front + [s];
    }
  }

  lemma CandidateCols(f: Fields)
    ensures CandidateOf(f).Some? ==> var c := CandidateOf(f).value; c.cols != [] && Idents(c.cols) && c.rel != ""
  {
    hide Comparisons, Scan, ColumnsOf, IsIdent;
    var cond := f.normalizedCondition;
    ComparisonsAreScan(cond);
    ScannedColumnsAreIdents(cond);
    forall k | 0 <= k < |FilterCols(cond)| ensures IsIdent(FilterCols(cond)[k]) {
      var i := ColumnAt(Comparisons(cond), k);
    }
  }

  lemma CandidateKeys(f: Fields, f': Fields)
    requires CandidateOf(f).Some? && CandidateOf(f').Some?
    ensures KeyOf(CandidateOf(f).value) == KeyOf(CandidateOf(f').value) ==> CandidateOf(f) == CandidateOf(f')
  {
    hide CandidateOf, Key;
    CandidateCols(f);
    CandidateCols(f');
    var c, c' := CandidateOf(f).value, CandidateOf(f').value;
    if KeyOf(c) == KeyOf(c') {
      KeyInjective(c.rel, c.cols, c'.rel, c'.cols);
    }
  }

  lemma ListedKeys(steps: seq<Step>, c: Candidate, c': Candidate)
    requires c in Listing(steps) && c' in Listing(steps) && KeyOf(c) == KeyOf(c')
    ensures c == c'
  {
    hide CandidateOf, Listing, KeyOf;
    ListingExact(steps, c);
    ListingExact(steps, c');
    var s :| s in steps && CandidateOf(s.node) == Some(c);
    var s' :| s' in steps && CandidateOf(s'.node) == Some(c');
    CandidateKeys(s.node, s'.node);
  }

  /** The map holds one group per listed candidate, with that candidate's columns and fingerprints. */
  ghost predicate IsGroupBy(v: map<string, AggValue>, steps: seq<Step>) {
    && (forall c :: c in Listing(steps) ==> KeyOf(c) in v && v[KeyOf(c)] == AggValue(c.cols, Fingerprints(steps, c)))
    && (forall key :: key in v ==> exists c :: c in Listing(steps) && KeyOf(c) == key)
  }

  lemma FingerprintsSnoc(steps: seq<Step>, s: Step, c: Candidate)
    ensures Fingerprints(steps + [s], c) ==
            Fingerprints(steps, c) + if CandidateOf(s.node) == Some(c) && s.fp != "" then {s.fp} else {}
  {
  }

  lemma ListingSnoc(steps: seq<Step>, s: Step)
    ensures Listing(steps + [s]) == match CandidateOf(s.node)
                                    case None => Listing(steps)
                                    case Some(c) => if c in Listing(steps) then Listing(steps) else Listing(steps) + [c]
  {
  }

  lemma GroupValue(v: map<string, AggValue>, steps: seq<Step>, s: Step, c: Candidate)
    requires IsGroupBy(v, steps) && c in Listing(steps + [s])
    ensures var v' := Absorb(v, s);
            KeyOf(c) in v' && v'[KeyOf(c)] == AggValue(c.cols, Fingerprints(steps + [s], c))
  {
    hide Listing, CandidateOf, KeyOf, Fingerprints;
    ListingSnoc(steps, s);
    FingerprintsSnoc(steps, s, c);
    if CandidateOf(s.node).Some? {
      var c0 := CandidateOf(s.node).value;
      if c != c0 {
        if KeyOf(c) == KeyOf(c0) {
          ListedKeys(steps + [s], c, c0);
        }
      } else if c !in Listing(steps) {
        NoEvidenceYet(steps, c);
        if KeyOf(c) in v {
          var c' :| c' in Listing(steps) && KeyOf(c') == KeyOf(c);
          ListedKeys(steps + [s], c', c);
        }
      }
    }
  }

  lemma GroupKey(v: map<string, AggValue>, steps: seq<Step>, s: Step, key: string)
    requires IsGroupBy(v, steps) && key in Absorb(v, s)
    ensures exists c :: c in Listing(steps + [s]) && KeyOf(c) == key
  {
  }

  lemma GroupByStep(v: map<string, AggValue>, steps: seq<Step>, s: Step)
    requires IsGroupBy(v, steps)
    ensures IsGroupBy(Absorb(v, s), steps + [s])
  {
    hide Listing, CandidateOf, KeyOf, Fingerprints, Absorb;
    forall c | c in Listing(steps + [s])
      ensures KeyOf(c) in Absorb(v, s) && Absorb(v, s)[KeyOf(c)] == AggValue(c.cols, Fingerprints(steps + [s], c))
    {
      GroupValue(v, steps, s, c);
    }
    forall key | key in Absorb(v, s) ensures exists c :: c in Listing(steps + [s]) && KeyOf(c) == key {
      GroupKey(v, steps, s, key);
    }
  }

  lemma NoEvidenceYet(steps: seq<Step>, c: Candidate)
    requires c !in Listing(steps)
    ensures Fingerprints(steps, c) == {}
  {
  }

  /** Absorbing all the evidence one piece at a time computes the group-by. */
  lemma {:induction false} AbsorbIsGroupBy(steps: seq<Step>)
    ensures IsGroupBy(AbsorbAll(map[], steps), steps)
  {
    if steps != [] {
      var front, s := steps[..|steps| - 1], steps[|steps| - 1];
      assert steps == front + [s];
      AbsorbIsGroupBy(front);
      AbsorbConcat(map[], front, [s]);
      hide Absorb, IsGroupBy;
      GroupByStep(AbsorbAll(map[], front), front, s);
      assert [s][1..] == [];
      assert AbsorbAll(AbsorbAll(map[], front), [s]) == Absorb(AbsorbAll(map[], front), s);
    }
  }
}
