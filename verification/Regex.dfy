/** The part of Go's regexp package the index advisor relies on, over ASCII text: leftmost-first matching
    with capture groups, under the (?i) flag. */
module Regex {
  import opened Options
  import opened Sorting

  /** [a-z_], [a-z0-9_] and \s. */
  datatype Class = Letter | Word | Space

  predicate In(k: Class, c: char) {
    match k
    case Letter => 'a' <= c <= 'z' || 'A' <= c <= 'Z' || c == '_'
    case Word => 'a' <= c <= 'z' || 'A' <= c <= 'Z' || c == '_' || '0' <= c <= '9'
    case Space => c == ' ' || c == '\t' || c == '\n' || c == '\r' || c == '\U{0C}'
  }

  /** Case folding: upper-case ASCII letters read as lower-case ones. */
  function FoldChar(c: char): char {
    if 'A' <= c <= 'Z' then (c as int + 32) as char else c
  }

  /** `a` reads as the lower-case text `w`. */
  predicate EqualFold(a: string, w: string) {
    |a| == |w| && forall j :: 0 <= j < |a| ==> FoldChar(a[j]) == w[j]
  }

  datatype Expr =
    | Text(w: string)      // lower-case literal text
    | One(k: Class)
    | Star(k: Class)       // greedy
    | Cat(a: Expr, b: Expr)
    | Alt(a: Expr, b: Expr)
    | WordEdge             // \b
    | Group(a: Expr)       // capturing parentheses

  /** One way to match: where it ends, and the text of its groups. */
  datatype Run = Run(end: nat, caps: seq<string>)

  ghost predicate Bounded(rs: seq<Run>, lo: nat, hi: nat) {
    forall r :: r in rs ==> lo <= r.end <= hi
  }

  predicate AtEdge(s: string, i: nat)
    requires i <= |s|
  {
    (i > 0 && In(Word, s[i - 1])) != (i < |s| && In(Word, s[i]))
  }

  /** All ways `e` matches `s` from position `i`, in the order a backtracking matcher tries them. */
  function Runs(e: Expr, s: string, i: nat): (rs: seq<Run>)
    requires i <= |s|
    ensures Bounded(rs, i, |s|)
    decreases e, 0
  {
    match e
    case Text(w) => if i + |w| <= |s| && EqualFold(s[i..i + |w|], w) then [Run(i + |w|, [])] else []
    case One(k) => if i < |s| && In(k, s[i]) then [Run(i + 1, [])] else []
    case Star(k) => StarRuns(k, s, i)
    case Cat(a, b) => Chain(Runs(a, s, i), b, s)
    case Alt(a, b) => Runs(a, s, i) + Runs(b, s, i)
    case WordEdge => if AtEdge(s, i) then [Run(i, [])] else []
    case Group(a) => Captured(Runs(a, s, i), s, i)
  }

  function StarRuns(k: Class, s: string, i: nat): (rs: seq<Run>)
    requires i <= |s|
    ensures Bounded(rs, i, |s|)
    decreases |s| - i
  {
    if i < |s| && In(k, s[i]) then StarRuns(k, s, i + 1) + [Run(i, [])] else [Run(i, [])]
  }

  /** Each way of matching the first part, followed by each way of matching `b` after it. */
  function Chain(xs: seq<Run>, b: Expr, s: string): (rs: seq<Run>)
    requires Bounded(xs, 0, |s|)
    ensures forall lo: nat :: Bounded(xs, lo, |s|) ==> Bounded(rs, lo, |s|)
    decreases b, 1 + |xs|
  {
    if xs == [] then []
    else
      assert xs[0] in xs && forall x :: x in xs[1..] ==> x in xs;
      assert forall lo: nat :: Bounded(xs, lo, |s|) ==> Bounded(xs[1..], lo, |s|);
      Prefixed(xs[0].caps, Runs(b, s, xs[0].end)) + Chain(xs[1..], b, s)
  }

  function Prefixed(caps: seq<string>, rs: seq<Run>): (r: seq<Run>)
    ensures |r| == |rs| && forall i :: 0 <= i < |r| ==> r[i] == Run(rs[i].end, caps + rs[i].caps)
  {
    Map((x: Run) => Run(x.end, caps + x.caps), rs)
  }

  function Captured(rs: seq<Run>, s: string, i: nat): (r: seq<Run>)
    requires Bounded(rs, i, |s|)
    ensures Bounded(r, i, |s|)
    ensures |r| == |rs| && forall k :: 0 <= k < |r| ==> r[k] == Run(rs[k].end, [s[i..rs[k].end]] + rs[k].caps)
  {
    seq(|rs|, k requires 0 <= k < |rs| => Run(rs[k].end, [s[i..rs[k].end]] + rs[k].caps))
  }

  lemma ChainOne(x: Run, b: Expr, s: string)
    requires x.end <= |s|
    ensures Chain([x], b, s) == Prefixed(x.caps, Runs(b, s, x.end))
  {
  }

  lemma BoundedParts(xs: seq<Run>, ys: seq<Run>, lo: nat, hi: nat)
    requires Bounded(xs, lo, hi) && Bounded(ys, lo, hi)
    ensures Bounded(xs + ys, lo, hi) && (xs != [] ==> Bounded(xs[1..], lo, hi))
  {
  }

  lemma {:induction false} ChainConcat(xs: seq<Run>, ys: seq<Run>, b: Expr, s: string)
    requires Bounded(xs, 0, |s|) && Bounded(ys, 0, |s|)
    ensures Chain(xs + ys, b, s) == Chain(xs, b, s) + Chain(ys, b, s)
    decreases |xs|
  {
    hide Runs, Prefixed, Bounded;
    if xs == [] {
      assert xs + ys == ys;
      assert Chain([], b, s) == [];
    } else {
      BoundedParts(xs, ys, 0, |s|);
      assert (xs + ys)[1..] == xs[1..] + ys;
      ChainConcat(xs[1..], ys, b, s);
    }
  }

  /** The preferred way to match at `i`. An empty match counts as none; the advisor's pattern has none. */
  function Preferred(e: Expr, s: string, i: nat): (r: Option<Run>)
    requires i <= |s|
    ensures r.Some? ==> i < r.value.end <= |s|
  {
    var rs := Runs(e, s, i);
    if rs != [] && rs[0].end > i then assert rs[0] in rs; Some(rs[0]) else None
  }

  /** A match: where it starts and how the pattern matched there. */
  datatype Found = Found(start: nat, run: Run)

  ghost predicate IsTable(t: seq<Option<Run>>) {
    forall i :: 0 <= i < |t| && t[i].Some? ==> i < t[i].value.end <= |t|
  }

  function Table(e: Expr, s: string): (t: seq<Option<Run>>)
    ensures |t| == |s| && IsTable(t)
    ensures forall i :: 0 <= i < |t| ==> t[i] == Preferred(e, s, i)
  {
    seq(|s|, i requires 0 <= i < |s| => Preferred(e, s, i))
  }

  /** FindAllStringSubmatch: successive leftmost matches, each search starting where the last match ended. */
  function FindAll(e: Expr, s: string): seq<Found>
  {
    FindFrom(Table(e, s), 0)
  }

  function FindFrom(t: seq<Option<Run>>, from: nat): seq<Found>
    requires from <= |t| && IsTable(t)
    decreases |t| - from
  {
    if from == |t| then []
    else match t[from]
      case Some(run) => [Found(from, run)] + FindFrom(t, run.end)
      case None => FindFrom(t, from + 1)
  }

  /** Position `p` lies after match k - 1 and before match k. */
  predicate InGap(fs: seq<Found>, from: nat, size: nat, k: nat, p: nat) {
    && k <= |fs|
    && (if k == 0 then from else fs[k - 1].run.end) <= p < (if k == |fs| then size else fs[k].start)
  }

  /** A left-to-right list of matches that do not overlap, each the preferred one at its start, with no
      match starting in between. */
  ghost predicate LeftmostScan(t: seq<Option<Run>>, from: nat, fs: seq<Found>) {
    && (forall k :: 0 <= k < |fs| ==> from <= fs[k].start < |t| && t[fs[k].start] == Some(fs[k].run))
    && (forall j, k :: 0 <= j < k < |fs| ==> fs[j].run.end <= fs[k].start)
    && (forall k: nat, p: nat :: InGap(fs, from, |t|, k, p) ==> t[p].None?)
  }

  /** FindAll is such a scan, and there is no other. */
  lemma {:induction false} FindFromIsTheScan(t: seq<Option<Run>>, from: nat, fs: seq<Found>)
    requires from <= |t| && IsTable(t)
    ensures LeftmostScan(t, from, fs) <==> fs == FindFrom(t, from)
    decreases |t| - from
  {
    hide LeftmostScan;
    if from < |t| && t[from].Some? {
      var run := t[from].value;
      FindFromIsTheScan(t, run.end, FindFrom(t, run.end));
      ScanCons(t, from, FindFrom(t, run.end));
      if LeftmostScan(t, from, fs) {
        FirstAt(t, from, fs);
        ScanTail(t, from, fs);
        FindFromIsTheScan(t, run.end, fs[1..]);
        assert fs == [fs[0]] + fs[1..];
      }
    } else if from < |t| {
      FindFromIsTheScan(t, from + 1, fs);
      ScanSkip(t, from, fs);
    } else {
      ScanAtEnd(t, fs);
    }
  }

  lemma ScanAtEnd(t: seq<Option<Run>>, fs: seq<Found>)
    ensures LeftmostScan(t, |t|, fs) <==> fs == []
  {
    if fs != [] {
      var f := fs[0];
      assert !(|t| <= f.start < |t|);
    }
  }

  lemma FirstAt(t: seq<Option<Run>>, from: nat, fs: seq<Found>)
    requires from < |t| && t[from].Some? && LeftmostScan(t, from, fs)
    ensures fs != [] && fs[0] == Found(from, t[from].value)
  {
    if fs == [] || fs[0].start > from {
      assert InGap(fs, from, |t|, 0, from);
    }
  }

  lemma ScanSkip(t: seq<Option<Run>>, from: nat, fs: seq<Found>)
    requires from < |t| && t[from].None?
    ensures LeftmostScan(t, from, fs) <==> LeftmostScan(t, from + 1, fs)
  {
    var next := from + 1;
    forall k: nat, p: nat ensures InGap(fs, next, |t|, k, p) ==> InGap(fs, from, |t|, k, p) {
    }
    forall k: nat, p: nat ensures InGap(fs, from, |t|, k, p) ==> p == from || InGap(fs, next, |t|, k, p) {
    }
  }

  lemma ScanTail(t: seq<Option<Run>>, from: nat, fs: seq<Found>)
    requires from <= |t| && LeftmostScan(t, from, fs) && fs != []
    ensures LeftmostScan(t, fs[0].run.end, fs[1..])
  {
    forall k: nat, p: nat ensures InGap(fs[1..], fs[0].run.end, |t|, k, p) ==> InGap(fs, from, |t|, k + 1, p) {
    }
  }

  lemma ScanCons(t: seq<Option<Run>>, from: nat, rest: seq<Found>)
    requires from < |t| && IsTable(t) && t[from].Some? && LeftmostScan(t, t[from].value.end, rest)
    ensures LeftmostScan(t, from, [Found(from, t[from].value)] + rest)
  {
    var fs := [Found(from, t[from].value)] + rest;
    forall k: nat, p: nat | InGap(fs, from, |t|, k, p) ensures t[p].None? {
      assert k > 0;
      assert InGap(rest, t[from].value.end, |t|, k - 1, p);
    }
  }
}
