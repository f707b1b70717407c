/** filterColumns of internal/advisor/index.go: candidate index columns of a predicate. */
module FilterColumns {
  import opened Sorting
  import opened Regex
  import opened ColumnScanner

  /** The operators of a range column. Mixed-case spellings of "between" are not among them. */
  predicate IsRange(op: string) {
    op in ["<", ">", "<=", ">=", "between", "BETWEEN"]
  }

  /** Comparison `i` is the first one of its column. */
  predicate IsFirst(ms: seq<Comparison>, i: nat)
    requires i < |ms|
  {
    forall j :: 0 <= j < i ==> ms[j].col != ms[i].col
  }

  /** Comparison `i` is the first one of its column, and its operator is of the class. */
  predicate IsLead(ms: seq<Comparison>, i: nat, range: bool)
    requires i < |ms|
  {
    IsFirst(ms, i) && IsRange(ms[i].op) == range
  }

  /** The indices below `n` of the columns' first comparisons, of one class, in scan order. */
  function Leading(ms: seq<Comparison>, n: nat, range: bool): (r: seq<nat>)
    requires n <= |ms|
    ensures forall k :: 0 <= k < |r| ==> r[k] < n
  {
    if n == 0 then []
    else
      var before := Leading(ms, n - 1, range);
      if IsLead(ms, n - 1, range) then before + [n - 1] else before
  }

  function ColsAt(ms: seq<Comparison>, idx: seq<nat>): (r: seq<string>)
    requires forall k :: 0 <= k < |idx| ==> idx[k] < |ms|
    ensures |r| == |idx| && forall k :: 0 <= k < |r| ==> r[k] == ms[idx[k]].col
  {
    seq(|idx|, k requires 0 <= k < |idx| => ms[idx[k]].col)
  }

  /** Equality columns in scan order, then range columns in scan order. */
  function ColumnsOf(ms: seq<Comparison>): seq<string> {
    ColsAt(ms, Leading(ms, |ms|, false)) + ColsAt(ms, Leading(ms, |ms|, true))
  }

  ghost function SeenBefore(ms: seq<Comparison>, n: nat): set<string>
    requires n <= |ms|
  {
    set j | 0 <= j < n :: ms[j].col
  }

  /** One turn of the loop. */
  lemma Turn(ms: seq<Comparison>, i: nat)
    requires i < |ms|
    ensures ms[i].col in SeenBefore(ms, i) <==> !IsFirst(ms, i)
    ensures SeenBefore(ms, i + 1) == SeenBefore(ms, i) + {ms[i].col}
    ensures ColsAt(ms, Leading(ms, i + 1, false)) == ColsAt(ms, Leading(ms, i, false)) +
              if IsFirst(ms, i) && !IsRange(ms[i].op) then [ms[i].col] else []
    ensures ColsAt(ms, Leading(ms, i + 1, true)) == ColsAt(ms, Leading(ms, i, true)) +
              if IsFirst(ms, i) && IsRange(ms[i].op) then [ms[i].col] else []
  {
  }

  lemma NoTurn(ms: seq<Comparison>)
    ensures SeenBefore(ms, 0) == {} && ColsAt(ms, Leading(ms, 0, false)) == ColsAt(ms, Leading(ms, 0, true)) == []
  {
  }

  method FilterColumns(cond: string) returns (cols: seq<string>)
    ensures cols == ColumnsOf(Comparisons(cond))
  {
    hide Comparisons, Leading, IsFirst, IsRange, SeenBefore, ColsAt;
    var ms := Comparisons(cond);
    var eq: seq<string>, rng: seq<string> := [], [];
    var seen: set<string> := {};
    NoTurn(ms);
    for i := 0 to |ms|
      invariant seen == SeenBefore(ms, i)
      invariant eq == ColsAt(ms, Leading(ms, i, false))
      invariant rng == ColsAt(ms, Leading(ms, i, true))
    {
      Turn(ms, i);
      var col, op := ms[i].col, ms[i].op;
      if col in seen {
        assert seen + {col} == seen;
        continue;
      }
      seen := seen + {col};
      if IsRange(op) {
        rng := rng + [col];
      } else {
        eq := eq + [col];
      }
    }
    cols := eq + rng;
  }

  // ---- What the column order is, independently of how it is built ---------------------------

  ghost predicate Mentions(ms: seq<Comparison>, col: string) {
    exists i :: 0 <= i < |ms| && ms[i].col == col
  }

  /** Where the column is first compared. */
  ghost function FirstUse(ms: seq<Comparison>, col: string): (i: nat)
    requires Mentions(ms, col)
    ensures i < |ms| && ms[i].col == col && IsFirst(ms, i)
  {
    if ms[0].col == col then 0
    else
      assert Mentions(ms[1..], col) by {
        var i :| 0 <= i < |ms| && ms[i].col == col;
        assert ms[1..][i - 1].col == col;
      }
      1 + FirstUse(ms[1..], col)
  }

  /** Column `a` goes before column `b`: equality before range, by the first operator only, then by first use. */
  ghost predicate Before(ms: seq<Comparison>, a: string, b: string) {
    Mentions(ms, a) && Mentions(ms, b) &&
    var i, j := FirstUse(ms, a), FirstUse(ms, b);
    if IsRange(ms[i].op) == IsRange(ms[j].op) then i < j else IsRange(ms[j].op)
  }

  /** The mentioned columns, each once, in that order. */
  ghost predicate IsColumnOrder(ms: seq<Comparison>, cols: seq<string>) {
    && (forall c :: c in cols <==> Mentions(ms, c))
    && (forall a, b :: 0 <= a < b < |cols| ==> Before(ms, cols[a], cols[b]))
  }

  lemma FirstUseAt(ms: seq<Comparison>, i: nat)
    requires i < |ms| && IsFirst(ms, i)
    ensures Mentions(ms, ms[i].col) && FirstUse(ms, ms[i].col) == i
  {
  }

  /** `r` lists, in ascending order, the indices below `n` of the class's first comparisons. */
  ghost predicate Leads(ms: seq<Comparison>, n: nat, range: bool, r: seq<nat>)
    requires n <= |ms|
  {
    && (forall k :: 0 <= k < |r| ==> r[k] < n && IsLead(ms, r[k], range))
    && (forall i :: 0 <= i < n && IsLead(ms, i, range) ==> i in r)
    && (forall a, b :: 0 <= a < b < |r| ==> r[a] < r[b])
  }

  lemma LeadsOn(ms: seq<Comparison>, n: nat, range: bool, before: seq<nat>)
    requires n < |ms| && Leads(ms, n, range, before) && IsLead(ms, n, range)
    ensures Leads(ms, n + 1, range, before + [n])
  {
  }

  lemma LeadsOff(ms: seq<Comparison>, n: nat, range: bool, r: seq<nat>)
    requires n < |ms| && Leads(ms, n, range, r) && !IsLead(ms, n, range)
    ensures Leads(ms, n + 1, range, r)
  {
  }

  lemma LeadsNone(ms: seq<Comparison>, range: bool)
    ensures Leads(ms, 0, range, [])
  {
  }

  lemma {:induction false} LeadingIndices(ms: seq<Comparison>, n: nat, range: bool)
    requires n <= |ms|
    ensures Leads(ms, n, range, Leading(ms, n, range))
  {
    hide IsLead, Leads;
    if n == 0 {
      LeadsNone(ms, range);
    } else {
      LeadingIndices(ms, n - 1, range);
      if IsLead(ms, n - 1, range) {
        LeadsOn(ms, n - 1, range, Leading(ms, n - 1, range));
      } else {
        LeadsOff(ms, n - 1, range, Leading(ms, n - 1, range));
      }
    }
  }

  /** Which comparison the k-th column comes from. */
  lemma ColumnAt(ms: seq<Comparison>, k: nat) returns (i: nat)
    requires k < |ColumnsOf(ms)|
    ensures i < |ms| && ColumnsOf(ms)[k] == ms[i].col && Mentions(ms, ms[i].col) && FirstUse(ms, ms[i].col) == i
    ensures var es, rs := Leading(ms, |ms|, false), Leading(ms, |ms|, true);
            |ColumnsOf(ms)| == |es| + |rs| && i == (if k < |es| then es[k] else rs[k - |es|])
            && IsRange(ms[i].op) == (k >= |es|)
  {
    hide IsRange, Leading, FirstUse;
    LeadingIndices(ms, |ms|, false);
    LeadingIndices(ms, |ms|, true);
    var es, rs := Leading(ms, |ms|, false), Leading(ms, |ms|, true);
    i := if k < |es| then es[k] else rs[k - |es|];
    FirstUseAt(ms, i);
  }

  lemma MentionedIsListed(ms: seq<Comparison>, c: string)
    requires Mentions(ms, c)
    ensures c in ColumnsOf(ms)
  {
    hide IsRange, Leading, FirstUse;
    var i := FirstUse(ms, c);
    assert IsLead(ms, i, IsRange(ms[i].op));
    hide IsLead, IsFirst;
    LeadingIndices(ms, |ms|, false);
    LeadingIndices(ms, |ms|, true);
    var es, rs := Leading(ms, |ms|, false), Leading(ms, |ms|, true);
    if i in es {
      var k :| 0 <= k < |es| && es[k] == i;
      assert ColumnsOf(ms)[k] == c;
    } else {
      var k :| 0 <= k < |rs| && rs[k] == i;
      assert ColumnsOf(ms)[|es| + k] == c;
    }
  }

  lemma ColumnsOfIsOrder(ms: seq<Comparison>)
    ensures IsColumnOrder(ms, ColumnsOf(ms))
  {
    hide IsRange, Leading, FirstUse, ColumnsOf, Mentions;
    var cols := ColumnsOf(ms);
    LeadingIndices(ms, |ms|, false);
    LeadingIndices(ms, |ms|, true);
    forall c ensures c in cols <==> Mentions(ms, c) {
      if c in cols {
        var k :| 0 <= k < |cols| && cols[k] == c;
        var i := ColumnAt(ms, k);
      }
      if Mentions(ms, c) {
        MentionedIsListed(ms, c);
      }
    }
    forall a, b | 0 <= a < b < |cols| ensures Before(ms, cols[a], cols[b]) {
      var i := ColumnAt(ms, a);
      var j := ColumnAt(ms, b);
    }
  }

  ghost function BeforeIn(ms: seq<Comparison>): (string, string) -> bool {
    (a, b) => Before(ms, a, b)
  }

  lemma BeforeIsTotal(ms: seq<Comparison>, cols: seq<string>)
    requires IsColumnOrder(ms, cols)
    ensures StrictTotalOn(BeforeIn(ms), cols) && Sorted(BeforeIn(ms), cols) && Distinct(cols)
  {
  }

  /** filterColumns returns the column order, and nothing else is one. */
  lemma {:induction false} ColumnOrderExact(ms: seq<Comparison>, cols: seq<string>)
    ensures IsColumnOrder(ms, cols) <==> cols == ColumnsOf(ms)
  {
    hide ColumnsOf;
    ColumnsOfIsOrder(ms);
    if IsColumnOrder(ms, cols) {
      BeforeIsTotal(ms, cols);
      BeforeIsTotal(ms, ColumnsOf(ms));
      DistinctPermutation(cols, ColumnsOf(ms));
      SortedUnique(BeforeIn(ms), cols, ColumnsOf(ms));
    }
  }

  // ---- "between" in any letter case --------------------------------------------------------

  /** The comparison with "between" spelled in lower case. */
  function Meant(c: Comparison): Comparison {
    if EqualFold(c.op, "between") then Comparison(c.col, "between") else c
  }

  function AsMeant(ms: seq<Comparison>): (r: seq<Comparison>)
    ensures |r| == |ms| && forall i :: 0 <= i < |r| ==> r[i] == Meant(ms[i])
  {
    Map(Meant, ms)
  }

  /** The pattern reads it as "between" but filterColumns does not take it for a range. */
  predicate MisspeltBetween(op: string) {
    EqualFold(op, "between") && op !in ["between", "BETWEEN"]
  }

  lemma MisspeltExact(c: Comparison)
    ensures IsRange(Meant(c).op) <==> IsRange(c.op) || MisspeltBetween(c.op)
    ensures !(IsRange(c.op) && MisspeltBetween(c.op))
  {
    assert c.op == "between" || c.op == "BETWEEN" ==> EqualFold(c.op, "between");
    assert IsRange(c.op) && EqualFold(c.op, "between") ==> |c.op| == 7;
  }

  /** Of two columns in this order of first use, a mixed-case "between" makes filterColumns swap them, or keep them. */
  ghost predicate OutOfPlace(ms: seq<Comparison>, i: nat, j: nat)
    requires i < j < |ms|
  {
    && IsFirst(ms, i) && IsFirst(ms, j)
    && ((IsRange(ms[i].op) && MisspeltBetween(ms[j].op))
        || (MisspeltBetween(ms[i].op) && !IsRange(ms[j].op) && !MisspeltBetween(ms[j].op)))
  }

  lemma SameFirstUses(ms: seq<Comparison>, col: string)
    ensures Mentions(AsMeant(ms), col) <==> Mentions(ms, col)
    ensures Mentions(ms, col) ==> FirstUse(AsMeant(ms), col) == FirstUse(ms, col)
  {
    hide IsRange, FirstUse;
    var ws := AsMeant(ms);
    assert forall i :: 0 <= i < |ms| ==> ws[i].col == ms[i].col;
    if Mentions(ms, col) {
      var i := FirstUse(ms, col);
      assert ws[i].col == col && IsFirst(ws, i);
      FirstUseAt(ws, i);
    }
  }

  /** The two orders differ on a pair of columns exactly when the pair is out of place. */
  lemma BeforeDiffers(ms: seq<Comparison>, a: string, b: string)
    requires Mentions(ms, a) && Mentions(ms, b) && FirstUse(ms, a) < FirstUse(ms, b)
    ensures var i, j := FirstUse(ms, a), FirstUse(ms, b);
            && (OutOfPlace(ms, i, j) <==> Before(AsMeant(ms), a, b) != Before(ms, a, b))
            && Before(ms, a, b) != Before(ms, b, a)
            && Before(AsMeant(ms), a, b) != Before(AsMeant(ms), b, a)
  {
    hide IsRange, FirstUse, MisspeltBetween, Meant, Mentions;
    SameFirstUses(ms, a);
    SameFirstUses(ms, b);
    MisspeltExact(ms[FirstUse(ms, a)]);
    MisspeltExact(ms[FirstUse(ms, b)]);
  }

  /** Whatever the letter case of its "between"s, a condition has the columns it would have in lower case, if and
      only if no column is out of place. */
  lemma {:induction false} BetweenCaseExact(ms: seq<Comparison>)
    ensures ColumnsOf(ms) == ColumnsOf(AsMeant(ms)) <==> forall i, j :: 0 <= i < j < |ms| ==> !OutOfPlace(ms, i, j)
  {
    hide ColumnsOf, Before, FirstUse, OutOfPlace, AsMeant, Mentions;
    var ws, cols := AsMeant(ms), ColumnsOf(ms);
    ColumnsOfIsOrder(ms);
    ColumnOrderExact(ws, cols);
    forall c ensures Mentions(ws, c) <==> Mentions(ms, c) {
      SameFirstUses(ms, c);
    }
    if forall i, j :: 0 <= i < j < |ms| ==> !OutOfPlace(ms, i, j) {
      forall k, n | 0 <= k < n < |cols| ensures Before(ws, cols[k], cols[n]) {
        SameOrder(ms, cols[k], cols[n]);
      }
    }
    if cols == ColumnsOf(ws) {
      forall i, j | 0 <= i < j < |ms| && OutOfPlace(ms, i, j) ensures false {
        OrdersDiffer(ms, cols, i, j);
      }
    }
  }

  lemma SameOrder(ms: seq<Comparison>, a: string, b: string)
    requires Before(ms, a, b) && forall i, j :: 0 <= i < j < |ms| ==> !OutOfPlace(ms, i, j)
    ensures Before(AsMeant(ms), a, b)
  {
    hide IsRange, FirstUse, OutOfPlace, AsMeant;
    if FirstUse(ms, a) < FirstUse(ms, b) {
      BeforeDiffers(ms, a, b);
    } else {
      BeforeDiffers(ms, b, a);
    }
  }

  lemma OrdersDiffer(ms: seq<Comparison>, cols: seq<string>, i: nat, j: nat)
    requires i < j < |ms| && OutOfPlace(ms, i, j)
    ensures !(IsColumnOrder(ms, cols) && IsColumnOrder(AsMeant(ms), cols))
  {
    hide IsRange, FirstUse, AsMeant, Before;
    var a, b := ms[i].col, ms[j].col;
    FirstUseAt(ms, i);
    FirstUseAt(ms, j);
    BeforeDiffers(ms, a, b);
    if IsColumnOrder(ms, cols) {
      assert a in cols && b in cols;
      var k :| 0 <= k < |cols| && cols[k] == a;
      var n :| 0 <= n < |cols| && cols[n] == b;
      assert k < n ==> Before(ms, a, b);
      assert n < k ==> Before(ms, b, a);
    }
  }

  lemma OneColumn(x: Comparison)
    ensures ColumnsOf([x]) == [x.col]
  {
    var ms := [x];
    assert Leading(ms, 0, false) == Leading(ms, 0, true) == [];
  }

  /** The order of two different columns. */
  lemma TwoColumns(x: Comparison, y: Comparison)
    requires x.col != y.col
    ensures ColumnsOf([x, y]) == if IsRange(x.op) && !IsRange(y.op) then [y.col, x.col] else [x.col, y.col]
  {
    hide IsRange;
    var ms := [x, y];
    TwoLeading(ms, false);
    TwoLeading(ms, true);
  }

  lemma TwoLeading(ms: seq<Comparison>, range: bool)
    requires |ms| == 2 && ms[0].col != ms[1].col
    ensures Leading(ms, 2, range) == (if IsRange(ms[0].op) == range then [0] else []) +
              if IsRange(ms[1].op) == range then [1] else []
  {
    hide IsRange;
    assert Leading(ms, 1, range) == if IsRange(ms[0].op) == range then [0] else [] by {
      assert Leading(ms, 0, range) == [];
    }
  }

  // ---- The order, with the operators written out -------------------------------------------

  /** Comparison `i` is the first one of the column `col`. */
  ghost predicate ComparedFirst(ms: seq<Comparison>, col: string, i: nat) {
    i < |ms| && ms[i].col == col && forall j :: 0 <= j < i ==> ms[j].col != col
  }

  /** Of any two listed columns, by their first comparisons: a range operator does not go before another one, and
      within either kind the first use decides. Every compared column is listed, once, and no other. */
  lemma RangeColumnsLast(ms: seq<Comparison>, p: nat, q: nat, i: nat, j: nat)
    requires var cols := ColumnsOf(ms);
             p < q < |cols| && ComparedFirst(ms, cols[p], i) && ComparedFirst(ms, cols[q], j)
    ensures ms[i].op in ["<", ">", "<=", ">=", "between", "BETWEEN"] ==>
              ms[j].op in ["<", ">", "<=", ">=", "between", "BETWEEN"]
    ensures (ms[i].op in ["<", ">", "<=", ">=", "between", "BETWEEN"]
             <==> ms[j].op in ["<", ">", "<=", ">=", "between", "BETWEEN"]) ==> i < j
    ensures ColumnsOf(ms)[p] != ColumnsOf(ms)[q]
    ensures forall c :: c in ColumnsOf(ms) <==> exists k :: 0 <= k < |ms| && ms[k].col == c
  {
    var cols := ColumnsOf(ms);
    ColumnsOfIsOrder(ms);
    FirstUseAt(ms, i);
    FirstUseAt(ms, j);
    hide FirstUse, ColumnsOf;
    assert Before(ms, cols[p], cols[q]);
    assert forall c :: c in cols <==> Mentions(ms, c);
  }
}
