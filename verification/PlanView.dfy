/** ToPlanVM and DecoratePlan of web/plan_vm.go: the heap tree, its flat list, and its decoration. */
module PlanView {
  import opened Sorting
  import opened MachineInt
  import opened PlanProto
  import opened FlatTree
  import opened Misestimate
  import Float64

  /** One node of the view. What it copies from the message never changes; Children grows while the tree is
      built, and Idx, Problem and EstColorVar are decoration. */
  class PlanNodeVM {
    const Depth: nat
    const NodeType: string
    const Relation: string
    const Index: string
    const JoinType: string
    const ScanDirection: string
    const Condition: string
    const PlanRows: int64
    const ActualRows: int64
    const ActualLoops: int64
    const TotalCost: Float64Bits
    const ActualTotalTimeMs: Float64Bits
    const RowsRemovedByFilter: int64
    var Children: seq<PlanNodeVM>
    var Idx: int
    var Problem: bool
    var EstColorVar: string

    /** What the node shows, in the terms of the message it was built from. */
    ghost function Payload(): Fields {
      Fields(NodeType, Relation, Index, JoinType, ScanDirection, Condition, PlanRows, ActualRows, ActualLoops,
             TotalCost, ActualTotalTimeMs, RowsRemovedByFilter)
    }

    ghost predicate Undecorated()
      reads this
    {
      Idx == 0 && !Problem && EstColorVar == ""
    }

    constructor (n: Fields, depth: nat)
      ensures Payload() == n && Depth == depth && Children == [] && Undecorated()
      ensures NodeType == n.nodeType && Relation == n.relationName && Index == n.indexName && JoinType == n.joinType
      ensures ScanDirection == n.scanDirection && Condition == n.normalizedCondition
      ensures PlanRows == n.planRows && ActualRows == n.actualRows && ActualLoops == n.actualLoops
      ensures TotalCost == n.totalCost && ActualTotalTimeMs == n.actualTotalTimeMs
      ensures RowsRemovedByFilter == n.rowsRemovedByFilter
    {
      Depth := depth;
      NodeType := n.nodeType;
      Relation := n.relationName;
      Index := n.indexName;
      JoinType := n.joinType;
      ScanDirection := n.scanDirection;
      Condition := n.normalizedCondition;
      PlanRows := n.planRows;
      ActualRows := n.actualRows;
      ActualLoops := n.actualLoops;
      TotalCost := n.totalCost;
      ActualTotalTimeMs := n.actualTotalTimeMs;
      RowsRemovedByFilter := n.rowsRemovedByFilter;
      Children := [];
      Idx, Problem, EstColorVar := 0, false, "";
    }
  }

  /** The shape of a heap tree: which objects it consists of and how they hang together. */
  type Shape = Tree<PlanNodeVM>

  /** The objects of a tree, parents first. */
  ghost function Pre(sh: Shape): seq<PlanNodeVM>
    decreases sh, 0
  {
    [sh.val] + PreAll(sh.kids)
  }

  ghost function PreAll(shs: seq<Shape>): seq<PlanNodeVM>
    decreases shs, 1
  {
    if shs == [] then [] else Pre(shs[0]) + PreAll(shs[1..])
  }

  ghost function Objs(sh: Shape): set<PlanNodeVM> {
    set o | o in Pre(sh)
  }

  ghost function ObjsAll(shs: seq<Shape>): set<PlanNodeVM> {
    set o | o in PreAll(shs)
  }

  ghost function Roots(shs: seq<Shape>): (r: seq<PlanNodeVM>)
    ensures |r| == |shs| && forall i :: 0 <= i < |r| ==> r[i] == shs[i].val
  {
    seq(|shs|, i requires 0 <= i < |shs| => shs[i].val)
  }

  /** The heap holds the tree `t`, its root at depth `d`, in the objects of the shape. */
  ghost predicate Holds(sh: Shape, t: Tree<Fields>, d: nat)
    reads Objs(sh)`Children
    decreases sh, 0
  {
    assert sh.val in Objs(sh) && ObjsAll(sh.kids) <= Objs(sh);
    && sh.val.Depth == d && sh.val.Payload() == t.val
    && sh.val.Children == Roots(sh.kids)
    && HoldsAll(sh.kids, t.kids, d + 1)
  }

  ghost predicate HoldsAll(shs: seq<Shape>, ts: seq<Tree<Fields>>, d: nat)
    reads ObjsAll(shs)`Children
    decreases shs, 1
  {
    if shs == [] || ts == [] then shs == [] && ts == []
    else
      assert Objs(shs[0]) <= ObjsAll(shs) && ObjsAll(shs[1..]) <= ObjsAll(shs);
      Holds(shs[0], ts[0], d) && HoldsAll(shs[1..], ts[1..], d)
  }

  /** The heap links the objects as the shape says. */
  ghost predicate Linked(sh: Shape)
    reads Objs(sh)`Children
    decreases sh, 0
  {
    assert sh.val in Objs(sh) && ObjsAll(sh.kids) <= Objs(sh);
    sh.val.Children == Roots(sh.kids) && LinkedAll(sh.kids)
  }

  ghost predicate LinkedAll(shs: seq<Shape>)
    reads ObjsAll(shs)`Children
    decreases shs, 1
  {
    shs == [] ||
    (assert Objs(shs[0]) <= ObjsAll(shs) && ObjsAll(shs[1..]) <= ObjsAll(shs);
     Linked(shs[0]) && LinkedAll(shs[1..]))
  }

  lemma {:induction false} HeldIsLinked(sh: Shape, t: Tree<Fields>, d: nat)
    requires Holds(sh, t, d)
    ensures Linked(sh)
    decreases sh, 0
  {
    HeldIsLinkedAll(sh.kids, t.kids, d + 1);
  }

  lemma {:induction false} HeldIsLinkedAll(shs: seq<Shape>, ts: seq<Tree<Fields>>, d: nat)
    requires HoldsAll(shs, ts, d)
    ensures LinkedAll(shs)
    decreases shs, 1
  {
    if shs != [] {
      HeldIsLinked(shs[0], ts[0], d);
      HeldIsLinkedAll(shs[1..], ts[1..], d);
    }
  }

  /** The tree of a message; a nil child shows as a node with no data. */
  function View(n: PlanNode): Tree<Fields>
    decreases n, 0
  {
    if n.NilNode? then Node(ZERO_FIELDS, []) else Node(n.fields, ViewAll(n.plans))
  }

  function ViewAll(ns: seq<PlanNode>): seq<Tree<Fields>>
    decreases ns, 1
  {
    if ns == [] then [] else [View(ns[0])] + ViewAll(ns[1..])
  }

  lemma {:induction false} ViewAllSnoc(ns: seq<PlanNode>, n: PlanNode)
    ensures ViewAll(ns + [n]) == ViewAll(ns) + [View(n)]
  {
    if ns == [] {
      assert ns + [n] == [n] && [n][1..] == [];
    } else {
      assert (ns + [n])[1..] == ns[1..] + [n];
      ViewAllSnoc(ns[1..], n);
    }
  }

  lemma {:induction false} PreAllSnoc(shs: seq<Shape>, sh: Shape)
    ensures PreAll(shs + [sh]) == PreAll(shs) + Pre(sh)
  {
    if shs == [] {
      assert shs + [sh] == [sh] && [sh][1..] == [];
    } else {
      assert (shs + [sh])[1..] == shs[1..] + [sh];
      PreAllSnoc(shs[1..], sh);
    }
  }

  lemma {:induction false} HoldsAllSnoc(shs: seq<Shape>, ts: seq<Tree<Fields>>, sh: Shape, t: Tree<Fields>, d: nat)
    requires HoldsAll(shs, ts, d) && Holds(sh, t, d)
    ensures HoldsAll(shs + [sh], ts + [t], d)
  {
    if shs == [] {
      assert shs + [sh] == [sh] && ts + [t] == [t];
      assert [sh][1..] == [] && [t][1..] == [];
    } else {
      assert (shs + [sh])[1..] == shs[1..] + [sh] && (ts + [t])[1..] == ts[1..] + [t];
      HoldsAllSnoc(shs[1..], ts[1..], sh, t, d);
    }
  }

  /** Fresh objects are new to a list of older ones. */
  lemma DistinctJoin<T>(a: seq<T>, b: seq<T>)
    requires Distinct(a) && Distinct(b) && forall o :: o in a ==> o !in b
    ensures Distinct(a + b)
  {
    forall i, j | 0 <= i < j < |a + b| ensures (a + b)[i] != (a + b)[j] {
      if i < |a| <= j {
        assert a[i] in a && b[j - |a|] in b;
      }
    }
  }

  lemma NoKids(d: nat)
    ensures ObjsAll([]) == {} && Distinct(PreAll([])) && HoldsAll([], ViewAll([]), d) && Roots([]) == []
  {
  }

  lemma OneMoreKid(kids: seq<Shape>, csh: Shape, plans: seq<PlanNode>, i: nat, d: nat)
    requires i < |plans| && HoldsAll(kids, ViewAll(plans[..i]), d) && Holds(csh, View(plans[i]), d)
    requires Distinct(PreAll(kids)) && Distinct(Pre(csh)) && ObjsAll(kids) !! Objs(csh)
    ensures HoldsAll(kids + [csh], ViewAll(plans[..i + 1]), d) && Distinct(PreAll(kids + [csh]))
    ensures ObjsAll(kids + [csh]) == ObjsAll(kids) + Objs(csh) && Roots(kids + [csh]) == Roots(kids) + [csh.val]
  {
    hide HoldsAll, Holds, View, ViewAll, Pre, PreAll;
    PreAllSnoc(kids, csh);
    ViewAllSnoc(plans[..i], plans[i]);
    HoldsAllSnoc(kids, ViewAll(plans[..i]), csh, View(plans[i]), d);
    assert plans[..i + 1] == plans[..i] + [plans[i]];
    assert forall o :: o in PreAll(kids) ==> o in ObjsAll(kids);
    assert forall o :: o in Pre(csh) ==> o in Objs(csh);
    DistinctJoin(PreAll(kids), Pre(csh));
  }

  lemma AllKids(node: PlanNodeVM, kids: seq<Shape>, n: PlanNode, depth: nat)
    requires node.Payload() == GetFields(n) && node.Depth == depth && node.Children == Roots(kids)
    requires HoldsAll(kids, ViewAll(GetPlans(n)), depth + 1) && Distinct(PreAll(kids)) && node !in ObjsAll(kids)
    ensures Holds(Node(node, kids), View(n), depth) && Distinct(Pre(Node(node, kids)))
    ensures Objs(Node(node, kids)) == {node} + ObjsAll(kids)
  {
  }

  /** toNodeVM. */
  method ToNodeVM(n: PlanNode, depth: nat) returns (node: PlanNodeVM, ghost sh: Shape, ghost objs: set<PlanNodeVM>)
    ensures sh.val == node && objs == Objs(sh) && fresh(objs) && Distinct(Pre(sh))
    ensures Holds(sh, View(n), depth)
    ensures forall o :: o in objs ==> o.Undecorated()
    decreases n
  {
    hide Pre, PreAll, Holds, HoldsAll, View, ViewAll, Distinct, Roots, Objs, ObjsAll;
    node := new PlanNodeVM(GetFields(n), depth);
    ghost var kids: seq<Shape> := [];
    objs := {};
    var plans := GetPlans(n);
    NoKids(depth + 1);
    assert plans[..0] == [];
    for i := 0 to |plans|
      invariant objs == ObjsAll(kids) && fresh(objs) && fresh(node) && node !in objs && Distinct(PreAll(kids))
      invariant HoldsAll(kids, ViewAll(plans[..i]), depth + 1)
      invariant node.Children == Roots(kids) && node.Undecorated()
      invariant forall o :: o in objs ==> o.Undecorated()
    {
      var c, csh, more := ToNodeVM(plans[i], depth + 1);
      OneMoreKid(kids, csh, plans, i, depth + 1);
      node.Children := node.Children + [c];
      kids, objs := kids + [csh], objs + more;
    }
    assert plans[..|plans|] == plans;
    AllKids(node, kids, n, depth);
    sh := Node(node, kids);
    objs := {node} + objs;
  }

  // ---- The flat list -----------------------------------------------------------------------

  /** Each object of a list as a row: its depth and its data. */
  ghost function RowsOf(objs: seq<PlanNodeVM>): (r: seq<Row<Fields>>)
    ensures |r| == |objs| && forall i :: 0 <= i < |r| ==> r[i] == Row(objs[i].Depth, objs[i].Payload())
  {
    seq(|objs|, i requires 0 <= i < |objs| => Row(objs[i].Depth, objs[i].Payload()))
  }

  lemma {:induction false} HeldRows(sh: Shape, t: Tree<Fields>, d: nat)
    requires Holds(sh, t, d)
    ensures RowsOf(Pre(sh)) == Flat(t, d)
    decreases sh, 0
  {
    HeldRowsAll(sh.kids, t.kids, d + 1);
    assert RowsOf(Pre(sh)) == [Row(d, t.val)] + RowsOf(PreAll(sh.kids));
  }

  lemma {:induction false} HeldRowsAll(shs: seq<Shape>, ts: seq<Tree<Fields>>, d: nat)
    requires HoldsAll(shs, ts, d)
    ensures RowsOf(PreAll(shs)) == FlatAll(ts, d)
    decreases shs, 1
  {
    if shs != [] {
      HeldRows(shs[0], ts[0], d);
      HeldRowsAll(shs[1..], ts[1..], d);
      assert RowsOf(PreAll(shs)) == RowsOf(Pre(shs[0])) + RowsOf(PreAll(shs[1..]));
    }
  }

  lemma {:induction false} LinkedKid(shs: seq<Shape>, i: nat)
    requires LinkedAll(shs) && i < |shs|
    ensures Linked(shs[i])
    decreases i
  {
    if i > 0 {
      LinkedKid(shs[1..], i - 1);
    }
  }

  lemma PreObjs(sh: Shape)
    ensures forall o :: o in Pre(sh) <==> o in Objs(sh)
  {
  }

  lemma PreSplit(sh: Shape)
    ensures Pre(sh) == [sh.val] + PreAll(sh.kids) && PreAll([]) == []
  {
  }

  lemma {:induction false} KidObjs(sh: Shape, i: nat)
    requires i < |sh.kids|
    ensures Objs(sh.kids[i]) <= Objs(sh)
  {
    KidObjsAll(sh.kids, i);
  }

  lemma {:induction false} KidObjsAll(shs: seq<Shape>, i: nat)
    requires i < |shs|
    ensures Objs(shs[i]) <= ObjsAll(shs)
    decreases i
  {
    if i > 0 {
      KidObjsAll(shs[1..], i - 1);
    }
  }

  /** The last index of `x` in `s`, or -1. */
  ghost function LastIndex<T>(s: seq<T>, x: T): (i: int)
    ensures -1 <= i < |s| && (i >= 0 ==> s[i] == x) && (i < 0 <==> x !in s)
    ensures forall j :: i < j < |s| ==> s[j] != x
  {
    if s == [] then -1
    else if s[|s| - 1] == x then |s| - 1
    else
      var i := LastIndex(s[..|s| - 1], x);
      assert s == s[..|s| - 1] + [s[|s| - 1]];
      i
  }

  lemma LastIndexSnoc<T>(s: seq<T>, x: T, y: T)
    ensures LastIndex(s + [x], y) == if y == x then |s| else LastIndex(s, y)
  {
  }

  /** Every row has its own index as Idx exactly when no object is listed twice. */
  lemma OwnIndexExact<T>(s: seq<T>)
    ensures (forall i :: 0 <= i < |s| ==> LastIndex(s, s[i]) == i) <==> Distinct(s)
  {
  }

  function Color(problem: bool): string {
    if problem then "var(--critT)" else "var(--dim)"
  }

  lemma FlagAndColor(plan: int64, actual: int64)
    ensures IsMisestimate(plan, actual) <==> MisestimateRatio(plan, actual) >= Float64.TEN
    ensures Color(IsMisestimate(plan, actual)) == if IsMisestimate(plan, actual) then "var(--critT)" else "var(--dim)"
  {
  }

  /** The node is flagged if it was before or its counts are misestimated, and coloured by its counts. */
  ghost predicate Marked(o: PlanNodeVM, before: bool)
    reads o
  {
    var problem := IsMisestimate(o.PlanRows, o.ActualRows);
    o.Problem == (before || problem) && o.EstColorVar == Color(problem)
  }

  /** One tab of the page; its label and link are formatting. */
  datatype PlanVariant = PlanVariant(FP: string, Selected: bool)

  class PlanVM {
    var ServerID: string
    var Fingerprint: string
    var Empty: bool
    var Root: PlanNodeVM?
    var Flat: seq<PlanNodeVM>
    var Variants: seq<PlanVariant>
    var VariantIdx: int
    var SelectedIdx: int
    var Selected: PlanNodeVM?

    /** The view was built from this message root, and its objects hang together as `sh`. */
    ghost predicate Shows(root: PlanNode, sh: Shape)
      reads this, Objs(sh)`Children
    {
      && !root.NilNode? && !Empty
      && Root == sh.val && Flat == Pre(sh) && Distinct(Flat)
      && Holds(sh, View(root), 0)
    }

    /** Every listed node has its last index and its marks, and the node at this index, or the root, is selected. */
    ghost predicate Decorated(selectedIdx: int)
      reads this, Flat
    {
      && (forall o :: o in Flat ==> o.Idx == LastIndex(Flat, o) && Marked(o, o.Problem))
      && (Flat != [] ==> SelectedIdx == (if 0 <= selectedIdx < |Flat| then selectedIdx else 0)
                         && Selected == Flat[SelectedIdx])
    }

    /** flatten, appending to Flat. The ghost arguments give the shape of the tree at `n` and its objects. */
    method Flatten(n: PlanNodeVM?, ghost sh: Shape, ghost objs: set<PlanNodeVM>)
      requires n != null ==> n == sh.val && Linked(sh) && Objs(sh) <= objs
      modifies this`Flat
      ensures Flat == if n == null then old(Flat) else old(Flat) + Pre(sh)
      decreases sh
    {
      hide LinkedAll, Pre, PreAll, Objs;
      if n == null {
        return;
      }
      PreSplit(sh);
      Flat := Flat + [n];
      for i := 0 to |n.Children|
        invariant unchanged(objs) && Linked(sh)
        invariant Flat == old(Flat) + ([n] + PreAll(sh.kids[..i]))
      {
        LinkedKid(sh.kids, i);
        KidObjs(sh, i);
        PreAllSnoc(sh.kids[..i], sh.kids[i]);
        assert sh.kids[..i + 1] == sh.kids[..i] + [sh.kids[i]];
        Flatten(n.Children[i], sh.kids[i], objs);
      }
      assert sh.kids[..|n.Children|] == sh.kids;
    }

    /** ToPlanVM. */
    constructor ToPlanVM(serverID: string, p: QueryPlan)
      ensures ServerID == serverID && Fingerprint == GetFingerprint(p)
      ensures Empty <==> GetRoot(p).NilNode?
      ensures Empty ==> Root == null && Flat == []
      ensures !Empty ==> exists sh :: Shows(GetRoot(p), sh)
      ensures forall o :: o in Flat ==> fresh(o) && o.Undecorated()
      ensures SelectedIdx == 0 && Selected == null && Variants == [] && VariantIdx == 0
    {
      hide Pre, PreAll, Holds, HoldsAll, View, Distinct, Objs;
      ServerID, Fingerprint := serverID, GetFingerprint(p);
      Empty, Root, Flat, Variants, VariantIdx, SelectedIdx, Selected := false, null, [], [], 0, 0, null;
      new;
      var root := GetRoot(p);
      if p.NilPlan? || root.NilNode? {
        Empty := true;
        return;
      }
      ghost var sh: Shape;
      ghost var objs: set<PlanNodeVM>;
      Root, sh, objs := ToNodeVM(root, 0);
      label Built:
      HeldIsLinked(sh, View(root), 0);
      Flatten(Root, sh, objs);
      assert unchanged@Built(objs);
      PreObjs(sh);
      assert Flat == Pre(sh);
      assert forall o :: o in Flat ==> o in objs;
      assert Holds(sh, View(root), 0);
      assert Shows(GetRoot(p), sh);
    }

    /** The loop of DecoratePlan. Problem is only ever set, never cleared. */
    method MarkAll()
      modifies Flat`Idx, Flat`Problem, Flat`EstColorVar
      ensures forall o :: o in Flat ==> o.Idx == LastIndex(Flat, o)
      ensures forall o :: o in Flat ==> Marked(o, old(o.Problem))
    {
      hide LastIndex, IsMisestimate, MisestimateRatio, Color;
      for i := 0 to |Flat|
        invariant forall o :: o in Flat[..i] ==> o.Idx == LastIndex(Flat[..i], o) && Marked(o, old(o.Problem))
        invariant forall o :: o in Flat && o !in Flat[..i] ==> o.Problem == old(o.Problem)
      {
        var n := Flat[i];
        assert Flat[..i + 1] == Flat[..i] + [n];
        forall o ensures LastIndex(Flat[..i + 1], o) == if o == n then i else LastIndex(Flat[..i], o) {
          LastIndexSnoc(Flat[..i], n, o);
        }
        n.Idx := i;
        var ratio := MisestimateRatio(n.PlanRows, n.ActualRows);
        FlagAndColor(n.PlanRows, n.ActualRows);
        if ratio >= Float64.TEN {
          n.Problem := true;
          n.EstColorVar := "var(--critT)";
        } else {
          n.EstColorVar := "var(--dim)";
        }
      }
      assert Flat[..|Flat|] == Flat;
    }

    method DecoratePlan(selectedIdx: int)
      modifies this`SelectedIdx, this`Selected, Flat`Idx, Flat`Problem, Flat`EstColorVar
      ensures forall o :: o in Flat ==> o.Idx == LastIndex(Flat, o)
      ensures forall o :: o in Flat ==> Marked(o, old(o.Problem))
      ensures Flat == [] ==> SelectedIdx == old(SelectedIdx) && Selected == old(Selected)
      ensures Decorated(selectedIdx)
    {
      MarkAll();
      if |Flat| == 0 {
        return;
      }
      var sel := selectedIdx;
      if sel < 0 || sel >= |Flat| {
        sel := 0;
      }
      SelectedIdx := sel;
      Selected := Flat[sel];
    }
  }
}
