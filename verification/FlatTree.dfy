/** Trees drawn as a flat list of rows, each with its depth. */
module FlatTree {
  import opened Options

  datatype Tree<T> = Node(val: T, kids: seq<Tree<T>>)

  datatype Row<T> = Row(depth: nat, val: T)

  /** Parents first, children left to right. */
  function Flat<T>(t: Tree<T>, d: nat): seq<Row<T>>
    decreases t, 0
  {
    [Row(d, t.val)] + FlatAll(t.kids, d + 1)
  }

  function FlatAll<T>(ts: seq<Tree<T>>, d: nat): seq<Row<T>>
    decreases ts, 1
  {
    if ts == [] then [] else Flat(ts[0], d) + FlatAll(ts[1..], d)
  }

  lemma {:induction false} FlatAllConcat<T>(xs: seq<Tree<T>>, ys: seq<Tree<T>>, d: nat)
    ensures FlatAll(xs + ys, d) == FlatAll(xs, d) + FlatAll(ys, d)
  {
    if xs == [] {
      assert xs + ys == ys;
    } else {
      assert (xs + ys)[1..] == xs[1..] + ys;
      FlatAllConcat(xs[1..], ys, d);
    }
  }

  // ---- Rebuilding --------------------------------------------------------------------------

  datatype Parsed<T> = Parsed(trees: seq<Tree<T>>, rest: seq<Row<T>>)

  /** Reads as many trees rooted at depth `d` as the rows start with. */
  function Parse<T>(rows: seq<Row<T>>, d: nat): (p: Parsed<T>)
    ensures |p.rest| <= |rows|
    decreases |rows|
  {
    if rows == [] || rows[0].depth != d then Parsed([], rows)
    else
      var kids := Parse(rows[1..], d + 1);
      var more := Parse(kids.rest, d);
      Parsed([Node(rows[0].val, kids.trees)] + more.trees, more.rest)
  }

  /** The tree a flat list draws, if it draws one. */
  function Rebuild<T>(rows: seq<Row<T>>): Option<Tree<T>> {
    var p := Parse(rows, 0);
    if |p.trees| == 1 && p.rest == [] then Some(p.trees[0]) else None
  }

  lemma {:induction false} ParseFlat<T>(t: Tree<T>, d: nat, rest: seq<Row<T>>)
    requires rest != [] ==> rest[0].depth <= d
    ensures var p := Parse(rest, d);
            Parse(Flat(t, d) + rest, d) == Parsed([t] + p.trees, p.rest)
    decreases t, 0
  {
    var rows := Flat(t, d) + rest;
    assert rows[0] == Row(d, t.val) && rows[1..] == FlatAll(t.kids, d + 1) + rest;
    ParseFlatAll(t.kids, d + 1, rest);
  }

  lemma {:induction false} ParseFlatAll<T>(ts: seq<Tree<T>>, d: nat, rest: seq<Row<T>>)
    requires rest != [] ==> rest[0].depth < d
    ensures Parse(FlatAll(ts, d) + rest, d) == Parsed(ts, rest)
    decreases ts, 1
  {
    if ts == [] {
      assert FlatAll(ts, d) + rest == rest;
    } else {
      var tail := FlatAll(ts[1..], d) + rest;
      assert FlatAll(ts, d) + rest == Flat(ts[0], d) + tail;
      if ts[1..] != [] {
        assert tail[0] == Flat(ts[1], d)[0];
      } else {
        assert tail == rest;
      }
      ParseFlat(ts[0], d, tail);
      ParseFlatAll(ts[1..], d, rest);
      assert [ts[0]] + ts[1..] == ts;
    }
  }

  /** The flat list loses nothing: rebuilding it gives the tree back. */
  lemma RebuildFlat<T>(t: Tree<T>)
    ensures Rebuild(Flat(t, 0)) == Some(t)
  {
    ParseFlat(t, 0, []);
    assert Flat(t, 0) + [] == Flat(t, 0);
    assert Parse<T>([], 0) == Parsed([], []);
    assert [t] + [] == [t];
  }

  lemma FlatInjective<T>(t: Tree<T>, t': Tree<T>)
    requires Flat(t, 0) == Flat(t', 0)
    ensures t == t'
  {
    RebuildFlat(t);
    RebuildFlat(t');
  }

  // ---- Lists that show a part of each row --------------------------------------------------

  function MapTree<A, B>(f: A -> B, t: Tree<A>): Tree<B>
    decreases t, 0
  {
    Node(f(t.val), MapTrees(f, t.kids))
  }

  function MapTrees<A, B>(f: A -> B, ts: seq<Tree<A>>): seq<Tree<B>>
    decreases ts, 1
  {
    if ts == [] then [] else [MapTree(f, ts[0])] + MapTrees(f, ts[1..])
  }

  function MapRows<A, B>(f: A -> B, rows: seq<Row<A>>): (r: seq<Row<B>>)
    ensures |r| == |rows| && forall i :: 0 <= i < |r| ==> r[i] == Row(rows[i].depth, f(rows[i].val))
  {
    seq(|rows|, i requires 0 <= i < |rows| => Row(rows[i].depth, f(rows[i].val)))
  }

  lemma MapRowsConcat<A, B>(f: A -> B, a: seq<Row<A>>, b: seq<Row<A>>)
    ensures MapRows(f, a + b) == MapRows(f, a) + MapRows(f, b)
  {
  }

  lemma {:induction false} FlatMapped<A, B>(f: A -> B, t: Tree<A>, d: nat)
    ensures MapRows(f, Flat(t, d)) == Flat(MapTree(f, t), d)
    decreases t, 0
  {
    FlatAllMapped(f, t.kids, d + 1);
    MapRowsConcat(f, [Row(d, t.val)], FlatAll(t.kids, d + 1));
    assert MapRows(f, [Row(d, t.val)]) == [Row(d, f(t.val))];
  }

  lemma {:induction false} FlatAllMapped<A, B>(f: A -> B, ts: seq<Tree<A>>, d: nat)
    ensures MapRows(f, FlatAll(ts, d)) == FlatAll(MapTrees(f, ts), d)
    decreases ts, 1
  {
    if ts == [] {
      assert MapRows(f, []) == [];
    } else {
      hide MapRows, Flat, MapTree;
      FlatMapped(f, ts[0], d);
      FlatAllMapped(f, ts[1..], d);
      MapRowsConcat(f, Flat(ts[0], d), FlatAll(ts[1..], d));
      assert MapTrees(f, ts)[1..] == MapTrees(f, ts[1..]);
    }
  }

  /** Whatever part of its data each row shows, the rows rebuild to the tree of those parts. */
  lemma RebuildMapped<A, B>(f: A -> B, t: Tree<A>)
    ensures Rebuild(MapRows(f, Flat(t, 0))) == Some(MapTree(f, t))
  {
    FlatMapped(f, t, 0);
    RebuildFlat(MapTree(f, t));
  }

  lemma ParseStep<T>(rows: seq<Row<T>>, d: nat)
    requires rows != []
    ensures rows[0].depth != d ==> Parse(rows, d) == Parsed([], rows)
    ensures rows[0].depth == d ==>
              var kids := Parse(rows[1..], d + 1);
              var more := Parse(kids.rest, d);
              Parse(rows, d) == Parsed([Node(rows[0].val, kids.trees)] + more.trees, more.rest)
  {
  }

  lemma SoundStep<T>(rows: seq<Row<T>>, d: nat, kids: Parsed<T>, more: Parsed<T>)
    requires rows != [] && rows[0].depth == d
    requires rows[1..] == FlatAll(kids.trees, d + 1) + kids.rest && kids.rest == FlatAll(more.trees, d) + more.rest
    ensures rows == FlatAll([Node(rows[0].val, kids.trees)] + more.trees, d) + more.rest
  {
  }

  lemma {:induction false} ParseSound<T>(rows: seq<Row<T>>, d: nat)
    ensures var p := Parse(rows, d);
            rows == FlatAll(p.trees, d) + p.rest && (p.rest != [] ==> p.rest[0].depth != d)
    decreases |rows|
  {
    if rows != [] {
      ParseStep(rows, d);
      if rows[0].depth == d {
        hide Parse, FlatAll;
        var kids := Parse(rows[1..], d + 1);
        var more := Parse(kids.rest, d);
        ParseSound(rows[1..], d + 1);
        ParseSound(kids.rest, d);
        SoundStep(rows, d, kids, more);
      }
    }
  }

  // ---- Which lists are flat lists ----------------------------------------------------------

  ghost predicate SmallSteps<T>(rows: seq<Row<T>>) {
    forall i, j :: 0 <= i && j == i + 1 && j < |rows| ==> rows[j].depth <= rows[i].depth + 1
  }

  /** Depth 0 at index 0 and nowhere else, and never up by more than one from a row to the next. */
  ghost predicate WellNested<T>(rows: seq<Row<T>>) {
    && rows != [] && rows[0].depth == 0
    && (forall i :: 0 < i < |rows| ==> 0 < rows[i].depth)
    && SmallSteps(rows)
  }

  /** The first row stands at depth `d` or less, none above `lo`, and depth climbs one step at a time. */
  ghost predicate Climbs<T>(rows: seq<Row<T>>, lo: nat) {
    && (forall i :: 0 <= i < |rows| ==> lo <= rows[i].depth)
    && SmallSteps(rows)
    && (rows != [] ==> rows[0].depth == lo)
  }

  lemma {:induction false} FlatClimbs<T>(t: Tree<T>, d: nat)
    ensures Climbs(Flat(t, d), d) && Flat(t, d)[0] == Row(d, t.val)
    ensures forall i :: 0 < i < |Flat(t, d)| ==> d < Flat(t, d)[i].depth
    decreases t, 0
  {
    FlatAllClimbs(t.kids, d + 1);
    var kids := FlatAll(t.kids, d + 1);
    assert forall i :: 0 < i < |Flat(t, d)| ==> Flat(t, d)[i] == kids[i - 1];
  }

  lemma {:induction false} FlatAllClimbs<T>(ts: seq<Tree<T>>, d: nat)
    ensures Climbs(FlatAll(ts, d), d)
    decreases ts, 1
  {
    if ts != [] {
      FlatClimbs(ts[0], d);
      FlatAllClimbs(ts[1..], d);
      JoinClimbs(Flat(ts[0], d), FlatAll(ts[1..], d), d);
    }
  }

  lemma JoinClimbs<T>(a: seq<Row<T>>, b: seq<Row<T>>, d: nat)
    requires a != [] && Climbs(a, d) && Climbs(b, d)
    ensures Climbs(a + b, d)
  {
  }

  lemma SuffixSteps<T>(front: seq<Row<T>>, rest: seq<Row<T>>)
    requires SmallSteps(front + rest)
    ensures SmallSteps(rest)
  {
    var all := front + rest;
    assert forall i :: 0 <= i < |rest| ==> rest[i] == all[|front| + i];
    forall i, j | 0 <= i && j == i + 1 && j < |rest| ensures rest[j].depth <= rest[i].depth + 1 {
      assert all[|front| + j].depth <= all[|front| + i].depth + 1;
    }
  }

  /** Parsing stops only above its own depth. */
  lemma {:induction false} ParseClimbs<T>(rows: seq<Row<T>>, d: nat)
    requires SmallSteps(rows) && (rows != [] ==> rows[0].depth <= d)
    ensures var p := Parse(rows, d); p.rest != [] ==> p.rest[0].depth < d
    decreases |rows|
  {
    if rows != [] && rows[0].depth == d {
      ParseStep(rows, d);
      hide Parse, FlatAll;
      var t := rows[1..];
      var kids := Parse(t, d + 1);
      assert [rows[0]] + t == rows;
      SuffixSteps([rows[0]], t);
      assert t != [] ==> t[0] == rows[1] && rows[1].depth <= rows[0].depth + 1;
      ParseClimbs(t, d + 1);
      ParseSound(t, d + 1);
      SuffixSteps(FlatAll(kids.trees, d + 1), kids.rest);
      hide SmallSteps;
      ParseClimbs(kids.rest, d);
    }
  }

  /** A list of rows is the flat list of some tree exactly when it is well nested. */
  lemma RebuildExact<T>(rows: seq<Row<T>>)
    ensures Rebuild(rows).Some? <==> WellNested(rows)
    ensures Rebuild(rows).Some? ==> Flat(Rebuild(rows).value, 0) == rows
  {
    var p := Parse(rows, 0);
    ParseSound(rows, 0);
    if Rebuild(rows).Some? {
      var t := p.trees[0];
      assert p.trees == [t] && p.trees[1..] == [];
      assert FlatAll(p.trees, 0) == Flat(t, 0);
      FlatClimbs(t, 0);
    }
    if WellNested(rows) {
      ParseClimbs(rows, 0);
      assert p.rest == [];
      if |p.trees| > 1 {
        TwoTrees(p.trees, rows);
      }
    }
  }

  lemma TwoTrees<T>(ts: seq<Tree<T>>, rows: seq<Row<T>>)
    requires |ts| > 1 && rows == FlatAll(ts, 0)
    ensures !WellNested(rows)
  {
    var n := |Flat(ts[0], 0)|;
    var more := ts[1..];
    assert more[0] == ts[1] && FlatAll(more, 0) == Flat(more[0], 0) + FlatAll(more[1..], 0);
    assert FlatAll(more, 0)[0] == Row(0, ts[1].val);
    assert rows[n] == FlatAll(ts[1..], 0)[0];
  }

  // ---- Subtrees are runs of deeper rows ----------------------------------------------------

  function Size<T>(t: Tree<T>): (n: nat)
    ensures n > 0
    decreases t, 0
  {
    1 + SizeAll(t.kids)
  }

  function SizeAll<T>(ts: seq<Tree<T>>): nat
    decreases ts, 1
  {
    if ts == [] then 0 else Size(ts[0]) + SizeAll(ts[1..])
  }

  lemma {:induction false} FlatSize<T>(t: Tree<T>, d: nat)
    ensures |Flat(t, d)| == Size(t)
    decreases t, 0
  {
    FlatAllSize(t.kids, d + 1);
  }

  lemma {:induction false} FlatAllSize<T>(ts: seq<Tree<T>>, d: nat)
    ensures |FlatAll(ts, d)| == SizeAll(ts)
    decreases ts, 1
  {
    if ts != [] {
      FlatSize(ts[0], d);
      FlatAllSize(ts[1..], d);
    }
  }

  /** The node that a walk of the tree, parents first, reaches after `i` others, with its depth. */
  function NodeAt<T>(t: Tree<T>, d: nat, i: nat): (Tree<T>, nat)
    requires i < Size(t)
    decreases t, 0
  {
    if i == 0 then (t, d) else NodeAtAll(t.kids, d + 1, i - 1)
  }

  function NodeAtAll<T>(ts: seq<Tree<T>>, d: nat, i: nat): (Tree<T>, nat)
    requires i < SizeAll(ts)
    decreases ts, 1
  {
    if i < Size(ts[0]) then NodeAt(ts[0], d, i) else NodeAtAll(ts[1..], d, i - Size(ts[0]))
  }

  /** Row `i` and the rows after it that are deeper, up to the first that is not, are `sub` at depth `k`. */
  ghost predicate IsRunOf<T>(rows: seq<Row<T>>, i: nat, sub: Tree<T>, k: nat) {
    var n := Size(sub);
    && i + n <= |rows|
    && rows[i..i + n] == Flat(sub, k)
    && rows[i] == Row(k, sub.val)
    && (forall j :: i < j < i + n ==> k < rows[j].depth)
    && (i + n < |rows| ==> rows[i + n].depth <= k)
  }

  lemma {:induction false} SubtreeIsRun<T>(t: Tree<T>, d: nat, i: nat, rest: seq<Row<T>>)
    requires i < Size(t) && (rest != [] ==> rest[0].depth <= d)
    ensures IsRunOf(Flat(t, d) + rest, i, NodeAt(t, d, i).0, NodeAt(t, d, i).1)
    decreases t, 0
  {
    FlatSize(t, d);
    var rows := Flat(t, d) + rest;
    if i == 0 {
      FlatClimbs(t, d);
      assert rows[0..Size(t)] == Flat(t, d);
    } else {
      SubtreeIsRunAll(t.kids, d + 1, i - 1, rest);
      var inner := FlatAll(t.kids, d + 1) + rest;
      assert rows == [Row(d, t.val)] + inner;
      var at := NodeAt(t, d, i);
      RunShift([Row(d, t.val)], inner, i - 1, at.0, at.1);
    }
  }

  lemma {:induction false} SubtreeIsRunAll<T>(ts: seq<Tree<T>>, d: nat, i: nat, rest: seq<Row<T>>)
    requires i < SizeAll(ts) && (rest != [] ==> rest[0].depth <= d)
    ensures IsRunOf(FlatAll(ts, d) + rest, i, NodeAtAll(ts, d, i).0, NodeAtAll(ts, d, i).1)
    decreases ts, 1
  {
    hide IsRunOf, Flat, FlatAll, Size, SizeAll, NodeAt, NodeAtAll;
    NodeAtAllStep(ts, d, i);
    FlatAllSplit(ts, d, rest);
    var tail := FlatAll(ts[1..], d) + rest;
    FlatSize(ts[0], d);
    if i < Size(ts[0]) {
      FlatAllHead(ts[1..], d, rest);
      SubtreeIsRun(ts[0], d, i, tail);
    } else {
      SubtreeIsRunAll(ts[1..], d, i - Size(ts[0]), rest);
      var at := NodeAtAll(ts[1..], d, i - Size(ts[0]));
      RunShift(Flat(ts[0], d), tail, i - Size(ts[0]), at.0, at.1);
    }
  }

  lemma NodeAtAllStep<T>(ts: seq<Tree<T>>, d: nat, i: nat)
    requires i < SizeAll(ts)
    ensures ts != [] && SizeAll(ts) == Size(ts[0]) + SizeAll(ts[1..])
    ensures NodeAtAll(ts, d, i) ==
            if i < Size(ts[0]) then NodeAt(ts[0], d, i) else NodeAtAll(ts[1..], d, i - Size(ts[0]))
  {
  }

  lemma FlatAllSplit<T>(ts: seq<Tree<T>>, d: nat, rest: seq<Row<T>>)
    requires ts != []
    ensures FlatAll(ts, d) + rest == Flat(ts[0], d) + (FlatAll(ts[1..], d) + rest)
  {
  }

  lemma FlatAllHead<T>(ts: seq<Tree<T>>, d: nat, rest: seq<Row<T>>)
    requires rest != [] ==> rest[0].depth <= d
    ensures var all := FlatAll(ts, d) + rest; all != [] ==> all[0].depth <= d
  {
  }

  lemma RunShift<T>(front: seq<Row<T>>, rows: seq<Row<T>>, i: nat, sub: Tree<T>, k: nat)
    requires IsRunOf(rows, i, sub, k)
    ensures IsRunOf(front + rows, |front| + i, sub, k)
  {
  }

  /** In a flat list the descendants of every row are exactly the maximal run of deeper rows after it. */
  lemma SubtreesAreRuns<T>(t: Tree<T>, i: nat)
    requires i < Size(t)
    ensures |Flat(t, 0)| == Size(t)
    ensures IsRunOf(Flat(t, 0), i, NodeAt(t, 0, i).0, NodeAt(t, 0, i).1)
  {
    FlatSize(t, 0);
    SubtreeIsRun(t, 0, i, []);
    assert Flat(t, 0) + [] == Flat(t, 0);
  }
}
