/** The comparison pattern of internal/advisor/index.go and the closed form of what it matches. */
module ColumnScanner {
  import opened Options
  import opened Sorting
  import opened Regex

  const IDENT := Group(Cat(One(Letter), Star(Word)))
  const WORD_OPS := Alt(Cat(Text("between"), WordEdge), Cat(Text("in"), WordEdge))
  const ANGLE_OPS := Alt(Text("<"), Alt(Text(">"), Alt(Text("~~"), WORD_OPS)))
  const OPS := Alt(Text("="), Alt(Text("<>"), Alt(Text("!="), Alt(Text("<="), Alt(Text(">="), ANGLE_OPS)))))
  const TAIL := Cat(Star(Space), Group(OPS))

  /** (?i)([a-z_][a-z0-9_]*)\s*(=|<>|!=|<=|>=|<|>|~~|between\b|in\b) */
  const COL_CMP := Cat(IDENT, TAIL)

  /** A matched column and the operator text that followed it. */
  datatype Comparison = Comparison(col: string, op: string)

  /** m[1] and m[2] of every match, in order. */
  function Comparisons(cond: string): seq<Comparison> {
    Captures(FindAll(COL_CMP, cond))
  }

  function CompareOf(f: Found): Comparison {
    if |f.run.caps| == 2 then Comparison(f.run.caps[0], f.run.caps[1]) else Comparison("", "")
  }

  function Captures(fs: seq<Found>): (r: seq<Comparison>)
    ensures |r| == |fs|
  {
    Map(CompareOf, fs)
  }

  /** A comparison and where it was read: the number of characters from its first one to the end of the text. */
  datatype Located = Located(left: int, cmp: Comparison)

  /** The matches of the pattern as comparisons with their places. */
  function LocatedComparisons(cond: string): seq<Located> {
    Places(|cond|, FindAll(COL_CMP, cond))
  }

  function Places(size: nat, fs: seq<Found>): (r: seq<Located>)
    ensures |r| == |fs| && forall i :: 0 <= i < |r| ==> r[i] == Located(size - fs[i].start, CompareOf(fs[i]))
  {
    Map((f: Found) => Located(size - f.start, CompareOf(f)), fs)
  }

  /** The comparisons without their places. */
  function Unlocated(ls: seq<Located>): (r: seq<Comparison>)
    ensures |r| == |ls| && forall i :: 0 <= i < |r| ==> r[i] == ls[i].cmp
  {
    Map((l: Located) => l.cmp, ls)
  }

  // ---- The closed form, on the text that remains -------------------------------------------

  /** Length of the leading run of characters in the class. */
  function RunLen(k: Class, u: string): (n: nat)
    ensures n <= |u| && (forall i :: 0 <= i < n ==> In(k, u[i])) && (n < |u| ==> !In(k, u[n]))
  {
    if u != [] && In(k, u[0]) then 1 + RunLen(k, u[1..]) else 0
  }

  predicate StartsWith(u: string, w: string) {
    |w| <= |u| && EqualFold(u[..|w|], w)
  }

  /** `u` starts with the word `w`, and the word ends there. */
  predicate StartsWithWord(u: string, w: string) {
    StartsWith(u, w) && (|u| == |w| || !In(Word, u[|w|]))
  }

  /** Length of the operator `u` starts with, or 0. */
  function OpLen(u: string): (n: nat)
    ensures n <= |u|
  {
    if StartsWith(u, "=") then 1
    else if StartsWith(u, "<>") || StartsWith(u, "!=") || StartsWith(u, "<=") || StartsWith(u, ">=") then 2
    else if StartsWith(u, "<") || StartsWith(u, ">") then 1
    else if StartsWith(u, "~~") then 2
    else WordOpLen(u)
  }

  function WordOpLen(u: string): (n: nat)
    ensures n <= |u|
  {
    if StartsWithWord(u, "between") then 7 else if StartsWithWord(u, "in") then 2 else 0
  }

  datatype Hit = Hit(cmp: Comparison, size: nat)

  predicate EndsWithWord(w: string, op: string) {
    |op| < |w| && EqualFold(w[|w| - |op|..], op)
  }

  /** What the pattern matches at the start of `u`. When no operator follows the leading word, the word
      gives back its own last letters if they spell a word operator. */
  function HitAt(u: string): (r: Option<Hit>)
    ensures r.Some? ==> 2 <= r.value.size <= |u|
  {
    if u == [] || !In(Letter, u[0]) then None else HitAtEnd(u, RunLen(Word, u))
  }

  /** The same, given where the leading word ends. */
  function HitAtEnd(u: string, e: nat): (r: Option<Hit>)
    requires 0 < e <= |u|
    ensures r.Some? ==> 2 <= r.value.size <= |u|
  {
    var w := e + RunLen(Space, u[e..]);
    var n := OpLen(u[w..]);
    if n > 0 then Some(Hit(Comparison(u[..e], u[w..w + n]), w + n))
    else if EndsWithWord(u[..e], "in") then Some(Hit(Comparison(u[..e - 2], u[e - 2..e]), e))
    else if EndsWithWord(u[..e], "between") then Some(Hit(Comparison(u[..e - 7], u[e - 7..e]), e))
    else None
  }

  /** The comparisons in `u`, read left to right. */
  function Scan(u: string): seq<Located>
    decreases |u|
  {
    if u == [] then []
    else match HitAt(u)
      case Some(h) => [Located(|u|, h.cmp)] + Scan(u[h.size..])
      case None => Scan(u[1..])
  }

  // ---- The pattern has that closed form ----------------------------------------------------

  /** The first way to match, if there is any, is `r`. */
  ghost predicate Leads(rs: seq<Run>, r: Option<Run>) {
    match r
    case Some(x) => rs != [] && rs[0] == x
    case None => rs == []
  }

  lemma TextRuns(w: string, s: string, i: nat)
    requires i <= |s|
    ensures Runs(Text(w), s, i) == if StartsWith(s[i..], w) then [Run(i + |w|, [])] else []
  {
  }

  lemma EdgeAfterWord(w: string, s: string, i: nat)
    requires i <= |s| && w != [] && In(Word, w[|w| - 1]) && StartsWith(s[i..], w)
    ensures AtEdge(s, i + |w|) <==> StartsWithWord(s[i..], w)
  {
  }

  lemma WordRuns(w: string, s: string, i: nat)
    requires i <= |s| && w != [] && In(Word, w[|w| - 1])
    ensures Leads(Runs(Cat(Text(w), WordEdge), s, i),
                  if StartsWithWord(s[i..], w) then Some(Run(i + |w|, [])) else None)
  {
    TextRuns(w, s, i);
    if StartsWith(s[i..], w) {
      EdgeAfterWord(w, s, i);
      ChainOne(Run(i + |w|, []), WordEdge, s);
    }
  }

  lemma AltRuns(a: Expr, b: Expr, s: string, i: nat, x: Option<Run>, y: Option<Run>)
    requires i <= |s| && Leads(Runs(a, s, i), x) && Leads(Runs(b, s, i), y)
    ensures Leads(Runs(Alt(a, b), s, i), if x.Some? then x else y)
  {
  }

  function Hop(i: nat, n: nat): Option<Run> {
    if n > 0 then Some(Run(i + n, [])) else None
  }

  lemma TextAlt(w: string, b: Expr, s: string, i: nat, n: nat)
    requires i <= |s| && w != [] && Leads(Runs(b, s, i), Hop(i, n))
    ensures Leads(Runs(Alt(Text(w), b), s, i), Hop(i, if StartsWith(s[i..], w) then |w| else n))
  {
    TextRuns(w, s, i);
    assert Leads(Runs(Text(w), s, i), if StartsWith(s[i..], w) then Some(Run(i + |w|, [])) else None);
    AltRuns(Text(w), b, s, i, if StartsWith(s[i..], w) then Some(Run(i + |w|, [])) else None, Hop(i, n));
  }

  lemma WordOpRuns(s: string, i: nat)
    requires i <= |s|
    ensures Leads(Runs(WORD_OPS, s, i), Hop(i, WordOpLen(s[i..])))
  {
    var u := s[i..];
    WordRuns("between", s, i);
    WordRuns("in", s, i);
    AltRuns(Cat(Text("between"), WordEdge), Cat(Text("in"), WordEdge), s, i,
            if StartsWithWord(u, "between") then Some(Run(i + 7, [])) else None,
            if StartsWithWord(u, "in") then Some(Run(i + 2, [])) else None);
  }

  lemma OpsRuns(s: string, i: nat)
    requires i <= |s|
    ensures Leads(Runs(OPS, s, i), Hop(i, OpLen(s[i..])))
  {
    hide Runs, StartsWith, WordOpLen;
    var u := s[i..];
    WordOpRuns(s, i);
    var n1 := if StartsWith(u, "~~") then 2 else WordOpLen(u);
    TextAlt("~~", WORD_OPS, s, i, WordOpLen(u));
    var n2 := if StartsWith(u, ">") then 1 else n1;
    TextAlt(">", Alt(Text("~~"), WORD_OPS), s, i, n1);
    var n3 := if StartsWith(u, "<") then 1 else n2;
    TextAlt("<", Alt(Text(">"), Alt(Text("~~"), WORD_OPS)), s, i, n2);
    var n4 := if StartsWith(u, ">=") then 2 else n3;
    TextAlt(">=", ANGLE_OPS, s, i, n3);
    var n5 := if StartsWith(u, "<=") then 2 else n4;
    TextAlt("<=", Alt(Text(">="), ANGLE_OPS), s, i, n4);
    var n6 := if StartsWith(u, "!=") then 2 else n5;
    TextAlt("!=", Alt(Text("<="), Alt(Text(">="), ANGLE_OPS)), s, i, n5);
    var n7 := if StartsWith(u, "<>") then 2 else n6;
    TextAlt("<>", Alt(Text("!="), Alt(Text("<="), Alt(Text(">="), ANGLE_OPS))), s, i, n6);
    TextAlt("=", Alt(Text("<>"), Alt(Text("!="), Alt(Text("<="), Alt(Text(">="), ANGLE_OPS)))), s, i, n7);
  }

  // ---- White space, then an operator -------------------------------------------------------

  /** Where the operator starts and ends after position `k`, white space skipped. */
  function TailHit(s: string, k: nat): (r: Option<Run>)
    requires k <= |s|
    ensures r.Some? ==> |r.value.caps| == 1
  {
    var w := RunLen(Space, s[k..]);
    var n := OpLen(s[k + w..]);
    if n > 0 then Some(Run(k + w + n, [s[k + w..k + w + n]])) else None
  }

  lemma {:induction false} RunLenStep(k: Class, s: string, i: nat)
    requires i < |s|
    ensures RunLen(k, s[i..]) == if In(k, s[i]) then 1 + RunLen(k, s[i + 1..]) else 0
  {
  }

  lemma SpaceStartsNoOp(u: string)
    requires u != [] && In(Space, u[0])
    ensures OpLen(u) == 0
  {
  }

  /** `e` reads operators, wherever it starts. */
  ghost predicate ReadsOps(e: Expr, s: string) {
    forall j: nat :: j <= |s| ==> Leads(Runs(e, s, j), Hop(j, OpLen(s[j..])))
  }

  lemma OpsReadOps(s: string)
    ensures ReadsOps(OPS, s)
  {
    forall j: nat | j <= |s| ensures Leads(Runs(OPS, s, j), Hop(j, OpLen(s[j..]))) {
      OpsRuns(s, j);
    }
  }

  function OpHit(s: string, k: nat): Option<Run>
    requires k <= |s|
  {
    var n := OpLen(s[k..]);
    if n > 0 then Some(Run(k + n, [s[k..k + n]])) else None
  }

  lemma OpHere(e: Expr, s: string, k: nat)
    requires k <= |s| && Leads(Runs(e, s, k), Hop(k, OpLen(s[k..])))
    ensures Leads(Chain([Run(k, [])], Group(e), s), OpHit(s, k))
  {
  }

  lemma TailHitStep(s: string, k: nat)
    requires k <= |s|
    ensures k < |s| && In(Space, s[k]) ==> TailHit(s, k) == TailHit(s, k + 1) && OpHit(s, k) == None
    ensures k == |s| || !In(Space, s[k]) ==> TailHit(s, k) == OpHit(s, k)
  {
    hide OpLen;
    if k < |s| {
      RunLenStep(Space, s, k);
      if In(Space, s[k]) {
        SpaceStartsNoOp(s[k..]);
      }
    }
  }

  lemma LeadsConcat(xs: seq<Run>, ys: seq<Run>, x: Option<Run>, y: Option<Run>)
    requires Leads(xs, x) && Leads(ys, y)
    ensures Leads(xs + ys, if x.Some? then x else y)
  {
  }

  lemma {:induction false} TailRunsFrom(e: Expr, s: string, k: nat)
    requires k <= |s| && ReadsOps(e, s)
    ensures Leads(Chain(StarRuns(Space, s, k), Group(e), s), TailHit(s, k))
    decreases |s| - k
  {
    hide OpLen, TailHit, OpHit, Hop, Runs;
    OpHere(e, s, k);
    TailHitStep(s, k);
    if k < |s| && In(Space, s[k]) {
      TailRunsFrom(e, s, k + 1);
      ChainConcat(StarRuns(Space, s, k + 1), [Run(k, [])], Group(e), s);
      LeadsConcat(Chain(StarRuns(Space, s, k + 1), Group(e), s), Chain([Run(k, [])], Group(e), s),
                  TailHit(s, k + 1), None);
    }
  }

  lemma TailRuns(s: string, k: nat)
    requires k <= |s|
    ensures Leads(Runs(TAIL, s, k), TailHit(s, k))
  {
    OpsReadOps(s);
    TailRunsFrom(OPS, s, k);
    CatRuns(Star(Space), Group(OPS), s, k);
  }

  lemma CatRuns(a: Expr, b: Expr, s: string, k: nat)
    requires k <= |s|
    ensures Runs(Cat(a, b), s, k) == Chain(Runs(a, s, k), b, s)
  {
  }

  // ---- An identifier, giving back letters as needed -----------------------------------------

  /** How white space and an operator are read from every position. */
  function TailHits(s: string): (t: seq<Option<Run>>)
    ensures |t| == |s| + 1 && forall k :: 0 <= k <= |s| ==> t[k] == TailHit(s, k)
  {
    seq(|s| + 1, k requires 0 <= k <= |s| => TailHit(s, k))
  }

  /** The match at `i` whose identifier ends at `k`. */
  function HitWith(s: string, hits: seq<Option<Run>>, i: nat, k: nat): Option<Run>
    requires i <= k <= |s| < |hits|
  {
    match hits[k]
    case Some(t) => Some(Run(t.end, [s[i..k]] + t.caps))
    case None => None
  }

  /** The match at `i` with the longest identifier, ending at `k` or later, that leaves an operator. */
  function Longest(s: string, hits: seq<Option<Run>>, i: nat, k: nat): Option<Run>
    requires i < k <= |s| < |hits|
    decreases |s| - k
  {
    if k < |s| && In(Word, s[k]) && Longest(s, hits, i, k + 1).Some? then Longest(s, hits, i, k + 1)
    else HitWith(s, hits, i, k)
  }

  /** The first of the ways `xs` that a hit can follow. */
  function FirstOf(xs: seq<Run>, hits: seq<Option<Run>>): Option<Run>
    requires forall x :: x in xs ==> x.end < |hits|
  {
    if xs == [] then None
    else match hits[xs[0].end]
      case Some(t) => Some(Run(t.end, xs[0].caps + t.caps))
      case None => assert forall x :: x in xs[1..] ==> x in xs; FirstOf(xs[1..], hits)
  }

  ghost predicate Reads(e: Expr, s: string, hits: seq<Option<Run>>) {
    |hits| == |s| + 1 && forall k :: 0 <= k <= |s| ==> Leads(Runs(e, s, k), hits[k])
  }

  lemma {:induction false} ChainLeads(xs: seq<Run>, e: Expr, s: string, hits: seq<Option<Run>>)
    requires Bounded(xs, 0, |s|) && Reads(e, s, hits)
    ensures Leads(Chain(xs, e, s), FirstOf(xs, hits))
    decreases |xs|
  {
    if xs != [] {
      assert xs[0] in xs && forall x :: x in xs[1..] ==> x in xs;
      assert Leads(Runs(e, s, xs[0].end), hits[xs[0].end]);
      ChainLeads(xs[1..], e, s, hits);
      assert Chain(xs, e, s) == Prefixed(xs[0].caps, Runs(e, s, xs[0].end)) + Chain(xs[1..], e, s);
    }
  }

  lemma {:induction false} FirstOfSnoc(xs: seq<Run>, y: Run, hits: seq<Option<Run>>)
    requires (forall x :: x in xs ==> x.end < |hits|) && y.end < |hits|
    ensures forall x :: x in xs + [y] ==> x.end < |hits|
    ensures FirstOf(xs + [y], hits) == if FirstOf(xs, hits).Some? then FirstOf(xs, hits) else FirstOf([y], hits)
  {
    if xs == [] {
      assert xs + [y] == [y];
    } else {
      assert (xs + [y])[1..] == xs[1..] + [y];
      assert forall x :: x in xs[1..] ==> x in xs;
      FirstOfSnoc(xs[1..], y, hits);
    }
  }

  lemma IdentRuns(s: string, i: nat)
    requires i <= |s|
    ensures Runs(IDENT, s, i) ==
            if i < |s| && In(Letter, s[i]) then Captured(StarRuns(Word, s, i + 1), s, i) else []
  {
    var e := Cat(One(Letter), Star(Word));
    CatRuns(One(Letter), Star(Word), s, i);
    if i < |s| && In(Letter, s[i]) {
      ChainOne(Run(i + 1, []), Star(Word), s);
      var rs := StarRuns(Word, s, i + 1);
      assert forall r: Run :: Run(r.end, [] + r.caps) == r by {
        assert forall r: Run :: [] + r.caps == r.caps;
      }
      assert Prefixed([], rs) == rs;
    }
  }

  lemma CapturedSnoc(rs: seq<Run>, s: string, i: nat, k: nat)
    requires i <= k <= |s| && Bounded(rs, i, |s|)
    ensures Bounded(rs + [Run(k, [])], i, |s|)
    ensures Captured(rs + [Run(k, [])], s, i) == Captured(rs, s, i) + [Run(k, [s[i..k]])]
  {
    assert [s[i..k]] + [] == [s[i..k]];
  }

  lemma CapturedStar(s: string, i: nat, k: nat)
    requires i <= k <= |s|
    ensures Captured(StarRuns(Word, s, k), s, i) ==
            if k < |s| && In(Word, s[k])
            then Captured(StarRuns(Word, s, k + 1), s, i) + [Run(k, [s[i..k]])]
            else [Run(k, [s[i..k]])]
  {
    if k < |s| && In(Word, s[k]) {
      CapturedSnoc(StarRuns(Word, s, k + 1), s, i, k);
    } else {
      CapturedSnoc([], s, i, k);
      assert [] + [Run(k, [])] == [Run(k, [])];
    }
  }

  lemma FirstOfOne(x: Run, hits: seq<Option<Run>>)
    requires x.end < |hits|
    ensures FirstOf([x], hits) == match hits[x.end] case Some(t) => Some(Run(t.end, x.caps + t.caps)) case None => None
  {
  }

  lemma LongestStep(s: string, hits: seq<Option<Run>>, i: nat, k: nat, more: seq<Run>)
    requires i < k < |s| < |hits| && In(Word, s[k]) && Bounded(more, 0, |s|)
    requires FirstOf(more, hits) == Longest(s, hits, i, k + 1)
    ensures Bounded(more + [Run(k, [s[i..k]])], 0, |s|)
    ensures FirstOf(more + [Run(k, [s[i..k]])], hits) == Longest(s, hits, i, k)
  {
    hide FirstOf;
    var here := Run(k, [s[i..k]]);
    FirstOfSnoc(more, here, hits);
    FirstOfOne(here, hits);
  }

  lemma LongestBase(s: string, hits: seq<Option<Run>>, i: nat, k: nat)
    requires i < k <= |s| < |hits| && (k == |s| || !In(Word, s[k]))
    ensures FirstOf([Run(k, [s[i..k]])], hits) == Longest(s, hits, i, k)
  {
  }

  lemma {:induction false} LongestIsFirst(s: string, hits: seq<Option<Run>>, i: nat, k: nat)
    requires i < k <= |s| < |hits|
    ensures FirstOf(Captured(StarRuns(Word, s, k), s, i), hits) == Longest(s, hits, i, k)
    decreases |s| - k
  {
    hide FirstOf, Longest, Captured, StarRuns, In;
    CapturedStar(s, i, k);
    if k < |s| && In(Word, s[k]) {
      var more := Captured(StarRuns(Word, s, k + 1), s, i);
      LongestIsFirst(s, hits, i, k + 1);
      LongestStep(s, hits, i, k, more);
    } else {
      LongestBase(s, hits, i, k);
    }
  }

  /** The pattern matches at a letter, with the longest identifier that leaves an operator, and nowhere else. */
  lemma MatchIsLongest(s: string, i: nat)
    requires i < |s|
    ensures Leads(Runs(COL_CMP, s, i), if In(Letter, s[i]) then Longest(s, TailHits(s), i, i + 1) else None)
  {
    IdentRuns(s, i);
    CatRuns(IDENT, TAIL, s, i);
    forall k | 0 <= k <= |s| ensures Leads(Runs(TAIL, s, k), TailHits(s)[k]) {
      TailRuns(s, k);
    }
    ChainLeads(Runs(IDENT, s, i), TAIL, s, TailHits(s));
    if In(Letter, s[i]) {
      LongestIsFirst(s, TailHits(s), i, i + 1);
    }
  }

  /** Which identifier end the longest-first search settles on. */
  lemma {:induction false} LongestEnds(s: string, hits: seq<Option<Run>>, i: nat, k: nat) returns (m: nat)
    requires i < k <= |s| < |hits|
    ensures k <= m <= k + RunLen(Word, s[k..])
    ensures Longest(s, hits, i, k) == HitWith(s, hits, i, m)
    ensures forall j :: m < j <= k + RunLen(Word, s[k..]) ==> hits[j].None?
    ensures hits[m].Some? || m == k
    decreases |s| - k
  {
    m := k;
    if k < |s| {
      RunLenStep(Word, s, k);
      if In(Word, s[k]) {
        var m' := LongestEnds(s, hits, i, k + 1);
        if hits[m'].Some? {
          m := m';
        }
      }
    }
  }

  /** The word run s[from..end] with nothing of it left over. */
  ghost predicate IsRun(s: string, from: nat, end: nat) {
    from <= end <= |s| && (forall j :: from <= j < end ==> In(Word, s[j])) && (end < |s| ==> !In(Word, s[end]))
  }

  lemma WordOpFillsRun(s: string, m: nat, end: nat, w: string)
    requires IsRun(s, m, end) && m < end && (forall c :: c in w ==> 'a' <= c <= 'z')
    ensures StartsWithWord(s[m..], w) <==> EqualFold(s[m..end], w)
  {
    var u := s[m..];
    if StartsWith(u, w) {
      assert u[..|w|] == s[m..m + |w|];
      forall p | m <= p < m + |w| ensures In(Word, s[p]) {
        assert s[p] == u[..|w|][p - m];
        assert w[p - m] in w;
      }
      assert m + |w| <= end;
      if m + |w| < end {
        assert u[|w|] == s[m + |w|];
      } else {
        assert s[m..end] == u[..|w|];
      }
    }
    if EqualFold(s[m..end], w) {
      assert u[..|w|] == s[m..end];
      assert end < |s| ==> u[|w|] == s[end];
    }
  }

  /** Inside a word run the only hit is a word operator that reaches the end of the run. */
  lemma HitInsideRun(s: string, m: nat, end: nat)
    requires IsRun(s, m, end) && m < end
    ensures TailHit(s, m) == if EqualFold(s[m..end], "in") || EqualFold(s[m..end], "between")
                             then Some(Run(end, [s[m..end]])) else None
  {
    var u := s[m..];
    assert In(Word, u[0]) && u[0] == s[m];
    TailHitStep(s, m);
    assert OpLen(u) == WordOpLen(u);
    WordOpFillsRun(s, m, end, "in");
    WordOpFillsRun(s, m, end, "between");
  }

  function HitRun(i: nat, h: Option<Hit>): Option<Run> {
    match h
    case Some(h) => Some(Run(i + h.size, [h.cmp.col, h.cmp.op]))
    case None => None
  }

  lemma RunLenUnique(s: string, from: nat, end: nat)
    requires IsRun(s, from, end)
    ensures RunLen(Word, s[from..]) == end - from
  {
  }

  lemma LongestPick(s: string, hits: seq<Option<Run>>, i: nat, end: nat)
    requires IsRun(s, i, end) && i < end && |s| < |hits|
    requires forall m :: i < m < end && hits[m].Some? ==> m == end - 2 || m == end - 7
    ensures Longest(s, hits, i, i + 1) ==
            if hits[end].Some? then HitWith(s, hits, i, end)
            else if end - i > 2 && hits[end - 2].Some? then HitWith(s, hits, i, end - 2)
            else if end - i > 7 then HitWith(s, hits, i, end - 7)
            else None
  {
    RunLenUnique(s, i + 1, end);
    var m := LongestEnds(s, hits, i, i + 1);
  }

  lemma RunHits(s: string, i: nat, end: nat)
    requires IsRun(s, i, end)
    ensures forall m :: i < m < end && TailHits(s)[m].Some? ==> m == end - 2 || m == end - 7
  {
    forall m | i < m < end && TailHits(s)[m].Some? ensures m == end - 2 || m == end - 7 {
      HitInsideRun(s, m, end);
    }
  }

  lemma HitGivenBack(s: string, i: nat, op: string, end: nat)
    requires op == "in" || op == "between"
    requires IsRun(s, i, end) && |op| < end - i
    ensures var m := end - |op|;
            HitWith(s, TailHits(s), i, m) ==
            if EqualFold(s[m..end], op) then Some(Run(end, [s[i..m], s[m..end]])) else None
  {
    hide OpLen, RunLen;
    var m := end - |op|;
    HitInsideRun(s, m, end);
    assert [s[i..m]] + [s[m..end]] == [s[i..m], s[m..end]];
  }

  lemma HitAfterRun(s: string, i: nat, end: nat)
    requires IsRun(s, i, end)
    ensures var w := end + RunLen(Space, s[end..]); var n := OpLen(s[w..]);
            HitWith(s, TailHits(s), i, end) == if n > 0 then Some(Run(w + n, [s[i..end], s[w..w + n]])) else None
  {
    hide OpLen, RunLen;
    var w := end + RunLen(Space, s[end..]);
    var n := OpLen(s[w..]);
    assert [s[i..end]] + [s[w..w + n]] == [s[i..end], s[w..w + n]];
  }

  /** The closed form, in positions of `s`: `end` is where the word at `i` ends. */
  function HitAtRun(s: string, i: nat, end: nat): Option<Run>
    requires i < end <= |s|
  {
    var w := end + RunLen(Space, s[end..]);
    var n := OpLen(s[w..]);
    if n > 0 then Some(Run(w + n, [s[i..end], s[w..w + n]]))
    else if end - i > 2 && EqualFold(s[end - 2..end], "in") then Some(Run(end, [s[i..end - 2], s[end - 2..end]]))
    else if end - i > 7 && EqualFold(s[end - 7..end], "between") then Some(Run(end, [s[i..end - 7], s[end - 7..end]]))
    else None
  }

  lemma LongestAtRun(s: string, i: nat, end: nat)
    requires IsRun(s, i, end) && i < end
    ensures Longest(s, TailHits(s), i, i + 1) == HitAtRun(s, i, end)
  {
    hide TailHit, OpLen, RunLen, EqualFold;
    RunHits(s, i, end);
    LongestPick(s, TailHits(s), i, end);
    assert HitAtRun(s, i, end) ==
           if HitWith(s, TailHits(s), i, end).Some? then HitWith(s, TailHits(s), i, end)
           else if end - i > 2 && HitWith(s, TailHits(s), i, end - 2).Some? then HitWith(s, TailHits(s), i, end - 2)
           else if end - i > 7 then HitWith(s, TailHits(s), i, end - 7)
           else None by {
      HitAfterRun(s, i, end);
      if end - i > 2 {
        HitGivenBack(s, i, "in", end);
      }
      if end - i > 7 {
        HitGivenBack(s, i, "between", end);
      }
    }
  }

  lemma Suffix(s: string, i: nat, a: nat, b: nat)
    requires i <= |s| && a <= b <= |s| - i
    ensures s[i..][a..b] == s[i + a..i + b] && s[i..][a..] == s[i + a..]
  {
  }

  lemma TailShift(s: string, i: nat, e: nat)
    requires i + e <= |s|
    ensures var w := RunLen(Space, s[i..][e..]);
            w == RunLen(Space, s[i + e..]) && s[i..][e + w..] == s[i + e + w..]
  {
  }

  lemma HitAfterShift(s: string, i: nat, e: nat)
    requires i + e <= |s| && 0 < e && OpLen(s[i + e + RunLen(Space, s[i + e..])..]) > 0
    ensures HitAtRun(s, i, i + e) == HitRun(i, HitAtEnd(s[i..], e))
  {
    hide OpLen, RunLen, EndsWithWord, EqualFold;
    TailShift(s, i, e);
    var w := e + RunLen(Space, s[i + e..]);
    Suffix(s, i, 0, e);
    Suffix(s, i, w, w + OpLen(s[i + w..]));
  }

  lemma HitBackShift(s: string, i: nat, e: nat)
    requires i + e <= |s| && 0 < e && OpLen(s[i + e + RunLen(Space, s[i + e..])..]) == 0
    ensures HitAtRun(s, i, i + e) == HitRun(i, HitAtEnd(s[i..], e))
  {
    hide OpLen, RunLen, EndsWithWord, EqualFold;
    TailShift(s, i, e);
    GivenBackText(s, i, i + e, "in");
    GivenBackText(s, i, i + e, "between");
  }

  lemma HitAtEndShift(s: string, i: nat, e: nat)
    requires i + e <= |s| && 0 < e
    ensures HitAtRun(s, i, i + e) == HitRun(i, HitAtEnd(s[i..], e))
  {
    hide OpLen, RunLen, HitAtRun, HitAtEnd;
    if OpLen(s[i + e + RunLen(Space, s[i + e..])..]) > 0 {
      HitAfterShift(s, i, e);
    } else {
      HitBackShift(s, i, e);
    }
  }

  lemma WordAt(s: string, i: nat)
    requires i < |s| && In(Letter, s[i])
    ensures var e := RunLen(Word, s[i..]); 0 < e && IsRun(s, i, i + e)
  {
  }

  lemma GivenBackText(s: string, i: nat, end: nat, op: string)
    requires i < end <= |s|
    ensures var u := s[i..]; var e := end - i;
            (EndsWithWord(u[..e], op) <==> |op| < e && EqualFold(s[end - |op|..end], op))
            && (|op| < e ==> u[..e - |op|] == s[i..end - |op|] && u[e - |op|..e] == s[end - |op|..end])
  {
  }

  lemma PreferredLeads(e: Expr, s: string, i: nat, r: Option<Run>)
    requires i <= |s| && Leads(Runs(e, s, i), r) && (r.Some? ==> i < r.value.end)
    ensures Preferred(e, s, i) == r
  {
  }

  /** The preferred match of the pattern at `i` is the closed form read from there. */
  lemma PreferredIsHitAt(s: string, i: nat)
    requires i < |s|
    ensures Preferred(COL_CMP, s, i) == HitRun(i, HitAt(s[i..]))
  {
    hide Preferred, Runs, Longest, HitAtEnd, HitAtRun, RunLen;
    MatchIsLongest(s, i);
    assert s[i..][0] == s[i];
    if In(Letter, s[i]) {
      var e := RunLen(Word, s[i..]);
      WordAt(s, i);
      LongestAtRun(s, i, i + e);
      HitAtEndShift(s, i, e);
    }
    PreferredLeads(COL_CMP, s, i, HitRun(i, HitAt(s[i..])));
  }

  /** The matches of the pattern, read off as column, operator and place, are the closed-form scan. */
  lemma {:induction false} FindFromIsScan(s: string, from: nat)
    requires from <= |s|
    ensures Places(|s|, FindFrom(Table(COL_CMP, s), from)) == Scan(s[from..])
    decreases |s| - from
  {
    hide HitAt, Preferred;
    var t := Table(COL_CMP, s);
    if from < |s| {
      PreferredIsHitAt(s, from);
      var u := s[from..];
      match HitAt(u)
      case Some(h) =>
        FindFromIsScan(s, from + h.size);
        assert u[h.size..] == s[from + h.size..];
        assert [h.cmp.col, h.cmp.op][0] == h.cmp.col;
      case None =>
        FindFromIsScan(s, from + 1);
        assert u[1..] == s[from + 1..];
    }
  }

  lemma ComparisonsAreScan(s: string)
    ensures LocatedComparisons(s) == Scan(s)
    ensures Comparisons(s) == Unlocated(Scan(s))
  {
    FindFromIsScan(s, 0);
    assert s[0..] == s;
  }

  /** s[i..k] is an identifier, and white space and an operator can follow it. */
  ghost predicate LeavesOperator(s: string, i: nat, k: nat)
    requires i < k <= |s|
  {
    In(Letter, s[i]) && (forall j :: i < j < k ==> In(Word, s[j])) && TailHit(s, k).Some?
  }

  ghost predicate IsLongest(s: string, i: nat, k: nat)
    requires i < k <= |s|
  {
    LeavesOperator(s, i, k) && forall j :: k < j <= |s| ==> !LeavesOperator(s, i, j)
  }

  lemma WordsEndWithin(s: string, i: nat, k: nat)
    requires i < k <= |s| && forall j :: i < j < k ==> In(Word, s[j])
    ensures k <= i + 1 + RunLen(Word, s[i + 1..])
  {
  }

  lemma WordsOf(s: string, i: nat, k: nat)
    requires i < |s| && i < k <= i + 1 + RunLen(Word, s[i + 1..])
    ensures k <= |s| && forall j :: i < j < k ==> In(Word, s[j])
  {
  }

  lemma LongestIsLongest(s: string, i: nat)
    requires i < |s| && In(Letter, s[i])
    ensures match Longest(s, TailHits(s), i, i + 1)
            case Some(r) => exists k :: i < k <= |s| && IsLongest(s, i, k) && |r.caps| == 2 && r.caps[0] == s[i..k]
            case None => forall k :: i < k <= |s| ==> !LeavesOperator(s, i, k)
  {
    hide RunLen, OpLen, TailHit, TailHits, Longest, HitWith;
    var hits := TailHits(s);
    var m := LongestEnds(s, hits, i, i + 1);
    WordsOf(s, i, m);
    forall k | m < k <= |s| && LeavesOperator(s, i, k) ensures false {
      WordsEndWithin(s, i, k);
    }
    HitWithText(s, hits, i, m);
    if hits[m].Some? {
      assert IsLongest(s, i, m);
    } else {
      assert !LeavesOperator(s, i, m);
    }
  }

  lemma HitWithText(s: string, hits: seq<Option<Run>>, i: nat, m: nat)
    requires i <= m <= |s| < |hits| && (hits[m].Some? ==> |hits[m].value.caps| == 1)
    ensures match HitWith(s, hits, i, m)
            case Some(r) => hits[m].Some? && |r.caps| == 2 && r.caps[0] == s[i..m]
            case None => hits[m].None?
  {
  }

  /** The pattern matches at `i` exactly when some identifier there leaves an operator, and it takes the
      longest such identifier as the column. */
  lemma LongestPrefixWins(s: string, i: nat)
    requires i < |s|
    ensures match Preferred(COL_CMP, s, i)
            case Some(r) => (exists k :: i < k <= |s| && IsLongest(s, i, k) && |r.caps| == 2 && r.caps[0] == s[i..k])
            case None => forall k :: i < k <= |s| ==> !LeavesOperator(s, i, k)
  {
    hide Runs, HitAt, TailHit, Longest, TailHits, IsLongest;
    MatchIsLongest(s, i);
    PreferredIsHitAt(s, i);
    if In(Letter, s[i]) {
      LongestIsLongest(s, i);
      LongestGoesOn(s, i);
      PreferredLeads(COL_CMP, s, i, Longest(s, TailHits(s), i, i + 1));
    } else {
      PreferredLeads(COL_CMP, s, i, None);
    }
  }

  lemma LongestGoesOn(s: string, i: nat)
    requires i < |s| && In(Letter, s[i])
    ensures var r := Longest(s, TailHits(s), i, i + 1); r.Some? ==> i < r.value.end
  {
    hide OpLen, RunLen;
    var m := LongestEnds(s, TailHits(s), i, i + 1);
  }

  /** The matches the advisor loops over are the one leftmost-first scan of the condition; each takes at least
      two characters and yields a column and an operator. */
  lemma MatchesExact(s: string, fs: seq<Found>)
    ensures fs == FindAll(COL_CMP, s) <==> LeftmostScan(Table(COL_CMP, s), 0, fs)
    ensures forall f :: f in FindAll(COL_CMP, s) ==> f.start + 2 <= f.run.end <= |s| && |f.run.caps| == 2
  {
    hide Preferred, HitAt, FindFrom;
    var t := Table(COL_CMP, s);
    FindFromIsTheScan(t, 0, fs);
    FindFromIsTheScan(t, 0, FindAll(COL_CMP, s));
    forall f | f in FindAll(COL_CMP, s) ensures f.start + 2 <= f.run.end <= |s| && |f.run.caps| == 2 {
      var k :| 0 <= k < |FindAll(COL_CMP, s)| && FindAll(COL_CMP, s)[k] == f;
      PreferredIsHitAt(s, f.start);
    }
  }

  predicate IsIdent(w: string) {
    w != [] && In(Letter, w[0]) && forall i :: 0 <= i < |w| ==> In(Word, w[i])
  }

  lemma HitIsIdent(u: string)
    ensures HitAt(u).Some? ==> IsIdent(HitAt(u).value.cmp.col)
  {
  }

  /** Every scanned column is an identifier. */
  lemma {:induction false} ScannedColumnsAreIdents(u: string)
    ensures forall m :: m in Scan(u) ==> IsIdent(m.cmp.col)
    decreases |u|
  {
    hide HitAt, IsIdent;
    if u != [] {
      HitIsIdent(u);
      match HitAt(u)
      case Some(h) => ScannedColumnsAreIdents(u[h.size..]);
      case None => ScannedColumnsAreIdents(u[1..]);
    }
  }
}
