/** What the plan page can rely on: the flat list stands for the whole plan, and decoration for each node. */
module PlanPage {
  import opened Options
  import opened Sorting
  import opened GoStrings
  import opened MachineInt
  import opened PlanProto
  import opened FlatTree
  import opened Misestimate
  import opened PlanView

  // ---- The flat list is the plan -----------------------------------------------------------

  /** No child is nil. */
  predicate NoNil(n: PlanNode)
    decreases n, 0
  {
    !n.NilNode? && NoNilAll(n.plans)
  }

  predicate NoNilAll(ns: seq<PlanNode>)
    decreases ns, 1
  {
    ns == [] || (NoNil(ns[0]) && NoNilAll(ns[1..]))
  }

  /** The objects of the flat list, as rows, are the flat list of the plan's tree, and rebuild to it. */
  lemma PageShowsPlan(vm: PlanVM, root: PlanNode, sh: Shape)
    requires vm.Shows(root, sh)
    ensures RowsOf(vm.Flat) == Flat(View(root), 0)
    ensures Rebuild(RowsOf(vm.Flat)) == Some(View(root)) && WellNested(RowsOf(vm.Flat))
  {
    HeldRows(sh, View(root), 0);
    RebuildFlat(View(root));
    RebuildExact(RowsOf(vm.Flat));
  }

  lemma {:induction false} ViewInjective(m: PlanNode, n: PlanNode)
    requires NoNil(m) && NoNil(n) && View(m) == View(n)
    ensures m == n
    decreases m, 0
  {
    ViewAllInjective(m.plans, n.plans);
  }

  lemma {:induction false} ViewAllInjective(ms: seq<PlanNode>, ns: seq<PlanNode>)
    requires NoNilAll(ms) && NoNilAll(ns) && ViewAll(ms) == ViewAll(ns)
    ensures ms == ns
    decreases ms, 1
  {
    if ms != [] && ns != [] {
      var vs, ws := ViewAll(ms), ViewAll(ns);
      assert vs[0] == View(ms[0]) && ws[0] == View(ns[0]) && vs[1..] == ViewAll(ms[1..]) && ws[1..] == ViewAll(ns[1..]);
      ViewInjective(ms[0], ns[0]);
      ViewAllInjective(ms[1..], ns[1..]);
      assert ms == [ms[0]] + ms[1..] && ns == [ns[0]] + ns[1..];
    }
  }

  /** Two views with equal flat lists were made from the same plan. */
  lemma SameRowsSamePlan(vm: PlanVM, root: PlanNode, sh: Shape, vm': PlanVM, root': PlanNode, sh': Shape)
    requires vm.Shows(root, sh) && vm'.Shows(root', sh') && NoNil(root) && NoNil(root')
    requires RowsOf(vm.Flat) == RowsOf(vm'.Flat)
    ensures root == root'
  {
    PageShowsPlan(vm, root, sh);
    PageShowsPlan(vm', root', sh');
    ViewInjective(root, root');
  }

  /** The data that web/plan.templ draws of a node. */
  datatype Drawn = Drawn(nodeType: string, relation: string, planRows: int64, actualRows: int64, cost: string,
                         loops: int64)

  /** FmtCost is a parameter: it keeps two decimals. */
  function Draw(fmtCost: Float64Bits -> string): Fields -> Drawn {
    (f: Fields) => Drawn(f.nodeType, f.relationName, f.planRows, f.actualRows, fmtCost(f.totalCost), f.actualLoops)
  }

  /** Which field is drawn where. */
  lemma DrawnFields(fmtCost: Float64Bits -> string, f: Fields)
    ensures var d := Draw(fmtCost)(f);
            && d.nodeType == f.nodeType && d.relation == f.relationName && d.planRows == f.planRows
            && d.actualRows == f.actualRows && d.cost == fmtCost(f.totalCost) && d.loops == f.actualLoops
  {
  }

  /** A drawn row: indentation, data, highlight, colour of the counts, and the node's link. */
  datatype DrawnRow = DrawnRow(depth: nat, data: Drawn, problem: bool, color: string, href: string)

  /** planNodeHref, up to the node's index. */
  function HrefHead(vm: PlanVM): string
    reads vm
  {
    "/plan?server=" + vm.ServerID + "&fp=" + vm.Fingerprint + "&plan=" + Decimal(vm.VariantIdx) + "&node="
  }

  ghost function DrawRow(fmtCost: Float64Bits -> string, vm: PlanVM, n: PlanNodeVM): DrawnRow
    reads vm, n
  {
    DrawnRow(n.Depth, Draw(fmtCost)(n.Payload()), n.Problem, n.EstColorVar, HrefHead(vm) + Decimal(n.Idx))
  }

  ghost function DrawnRows(fmtCost: Float64Bits -> string, vm: PlanVM): (r: seq<DrawnRow>)
    reads vm, vm.Flat
    ensures |r| == |vm.Flat| && forall i :: 0 <= i < |r| ==> r[i] == DrawRow(fmtCost, vm, vm.Flat[i])
  {
    seq(|vm.Flat|, i requires 0 <= i < |vm.Flat| reads vm, vm.Flat => DrawRow(fmtCost, vm, vm.Flat[i]))
  }

  /** The marks of a freshly built and decorated view: own indices, and flags and colours by the node's counts. */
  ghost predicate OwnMarks(vm: PlanVM)
    reads vm, vm.Flat
  {
    forall i :: 0 <= i < |vm.Flat| ==>
                  var n := vm.Flat[i];
                  && n.Idx == i && n.Problem == IsMisestimate(n.PlanRows, n.ActualRows)
                  && n.EstColorVar == Color(n.Problem)
  }

  /** The link of node 13 in the second plan of query f on server s. */
  lemma LinkText(fmtCost: Float64Bits -> string, vm: PlanVM, n: PlanNodeVM)
    requires vm.ServerID == "s" && vm.Fingerprint == "f" && vm.VariantIdx == 1 && n.Idx == 13
    ensures DrawRow(fmtCost, vm, n).href == "/plan?server=s&fp=f&plan=1&node=13"
    ensures DrawRow(fmtCost, vm, n).problem == n.Problem && DrawRow(fmtCost, vm, n).color == n.EstColorVar
    ensures DrawRow(fmtCost, vm, n).depth == n.Depth
  {
    assert Decimal(13) == "13" && Decimal(1) == "1";
    assert HrefHead(vm) == "/plan?server=s&fp=f&plan=1&node=";
  }

  lemma SameTail(a: string, b: string, t: string)
    ensures a + t == b + t <==> a == b
  {
    if a + t == b + t {
      assert |a| == |b|;
      assert a == (a + t)[..|a|] && b == (b + t)[..|b|];
    }
  }

  lemma DrawnEqual(fmtCost: Float64Bits -> string, vm: PlanVM, vm': PlanVM, i: nat)
    requires i < |vm.Flat| && i < |vm'.Flat| && OwnMarks(vm) && OwnMarks(vm')
    ensures var n, n' := vm.Flat[i], vm'.Flat[i];
            DrawRow(fmtCost, vm, n) == DrawRow(fmtCost, vm', n') <==>
            n.Depth == n'.Depth && Draw(fmtCost)(n.Payload()) == Draw(fmtCost)(n'.Payload())
            && HrefHead(vm) == HrefHead(vm')
  {
    hide IsMisestimate, HrefHead, Color;
    SameTail(HrefHead(vm), HrefHead(vm'), Decimal(i));
  }

  /** Two pages draw the same rows exactly when their plans have the same tree of drawn data and their links have
      the same text before the node's index. */
  lemma DrawnRowsExact(fmtCost: Float64Bits -> string, vm: PlanVM, root: PlanNode, sh: Shape,
                       vm': PlanVM, root': PlanNode, sh': Shape)
    requires vm.Shows(root, sh) && vm'.Shows(root', sh') && OwnMarks(vm) && OwnMarks(vm')
    ensures DrawnRows(fmtCost, vm) == DrawnRows(fmtCost, vm') <==>
            MapTree(Draw(fmtCost), View(root)) == MapTree(Draw(fmtCost), View(root'))
            && HrefHead(vm) == HrefHead(vm')
  {
    var draw := Draw(fmtCost);
    PreSplit(sh);
    HeldRows(sh, View(root), 0);
    HeldRows(sh', View(root'), 0);
    hide Draw, View, MapTree, Flat, Rebuild, OwnMarks, DrawRow, HrefHead, Holds, Pre;
    FlatMapped(draw, View(root), 0);
    FlatMapped(draw, View(root'), 0);
    RebuildMapped(draw, View(root));
    RebuildMapped(draw, View(root'));
    var rows, rows' := MapRows(draw, RowsOf(vm.Flat)), MapRows(draw, RowsOf(vm'.Flat));
    if |vm.Flat| == |vm'.Flat| {
      forall i | 0 <= i < |vm.Flat|
        ensures DrawnRows(fmtCost, vm)[i] == DrawnRows(fmtCost, vm')[i] <==>
                rows[i] == rows'[i] && HrefHead(vm) == HrefHead(vm') {
        DrawnEqual(fmtCost, vm, vm', i);
      }
    }
    assert rows == rows' <==> MapTree(draw, View(root)) == MapTree(draw, View(root'));
  }

  // ---- Subtrees ----------------------------------------------------------------------------

  lemma {:induction false} PreFlat(sh: Shape, d: nat)
    ensures |Flat(sh, d)| == |Pre(sh)| && forall i :: 0 <= i < |Pre(sh)| ==> Flat(sh, d)[i].val == Pre(sh)[i]
    decreases sh, 0
  {
    PreFlatAll(sh.kids, d + 1);
  }

  lemma {:induction false} PreFlatAll(shs: seq<Shape>, d: nat)
    ensures |FlatAll(shs, d)| == |PreAll(shs)|
    ensures forall i :: 0 <= i < |PreAll(shs)| ==> FlatAll(shs, d)[i].val == PreAll(shs)[i]
    decreases shs, 1
  {
    if shs != [] {
      PreFlat(shs[0], d);
      PreFlatAll(shs[1..], d);
    }
  }

  /** Each object stands at its depth in the shape. */
  lemma {:induction false} HeldDepths(sh: Shape, t: Tree<Fields>, d: nat)
    requires Holds(sh, t, d)
    ensures |Flat(sh, d)| == |Pre(sh)| && forall i :: 0 <= i < |Pre(sh)| ==> Pre(sh)[i].Depth == Flat(sh, d)[i].depth
    decreases sh, 0
  {
    HeldDepthsAll(sh.kids, t.kids, d + 1);
  }

  lemma {:induction false} HeldDepthsAll(shs: seq<Shape>, ts: seq<Tree<Fields>>, d: nat)
    requires HoldsAll(shs, ts, d)
    ensures |FlatAll(shs, d)| == |PreAll(shs)|
    ensures forall i :: 0 <= i < |PreAll(shs)| ==> PreAll(shs)[i].Depth == FlatAll(shs, d)[i].depth
    decreases shs, 1
  {
    if shs != [] {
      HeldDepths(shs[0], ts[0], d);
      HeldDepthsAll(shs[1..], ts[1..], d);
    }
  }

  lemma {:induction false} LinkedAt(sh: Shape, d: nat, i: nat)
    requires Linked(sh) && i < Size(sh)
    ensures Linked(NodeAt(sh, d, i).0)
    decreases sh, 0
  {
    if i > 0 {
      LinkedAtAll(sh.kids, d + 1, i - 1);
    }
  }

  lemma {:induction false} LinkedAtAll(shs: seq<Shape>, d: nat, i: nat)
    requires LinkedAll(shs) && i < SizeAll(shs)
    ensures Linked(NodeAtAll(shs, d, i).0)
    decreases shs, 1
  {
    if i < Size(shs[0]) {
      LinkedAt(shs[0], d, i);
    } else {
      LinkedAtAll(shs[1..], d, i - Size(shs[0]));
    }
  }

  /** The objects below Flat[i] are exactly the deeper objects right after it, up to the first that is not. */
  lemma PageSubtrees(vm: PlanVM, root: PlanNode, sh: Shape, i: nat)
    requires vm.Shows(root, sh) && i < |vm.Flat|
    ensures Size(sh) == |vm.Flat|
    ensures var sub := NodeAt(sh, 0, i).0;
            var n := Size(sub);
            && sub.val == vm.Flat[i] && i + n <= |vm.Flat| && vm.Flat[i..i + n] == Pre(sub) && Linked(sub)
            && (forall j :: i < j < i + n ==> vm.Flat[i].Depth < vm.Flat[j].Depth)
            && (i + n < |vm.Flat| ==> vm.Flat[i + n].Depth <= vm.Flat[i].Depth)
  {
    hide Pre, Holds, View, Flat, Size, NodeAt;
    FlatSize(sh, 0);
    PreFlat(sh, 0);
    SubtreesAreRuns(sh, i);
    HeldDepths(sh, View(root), 0);
    var (sub, k) := NodeAt(sh, 0, i);
    var n := Size(sub);
    HeldIsLinked(sh, View(root), 0);
    LinkedAt(sh, 0, i);
    PreFlat(sub, k);
    FlatSize(sub, k);
    forall j | 0 <= j < n ensures vm.Flat[i..i + n][j] == Pre(sub)[j] {
      assert Flat(sh, 0)[i..i + n][j] == Flat(sh, 0)[i + j];
    }
  }

  // ---- The advisor's walk and the page's list ----------------------------------------------

  function Vals(rows: seq<Row<Fields>>): (r: seq<Fields>)
    ensures |r| == |rows| && forall i :: 0 <= i < |r| ==> r[i] == rows[i].val
  {
    Map((x: Row<Fields>) => x.val, rows)
  }

  lemma ValsConcat(a: seq<Row<Fields>>, b: seq<Row<Fields>>)
    ensures Vals(a + b) == Vals(a) + Vals(b)
  {
  }

  lemma {:induction false} WalkIsFlat(n: PlanNode, d: nat)
    ensures NoNil(n) ==> Vals(Flat(View(n), d)) == Visits(n)
    ensures |Flat(View(n), d)| >= |Visits(n)|
    ensures |Flat(View(n), d)| == |Visits(n)| ==> NoNil(n)
    decreases n, 0
  {
    if n.PlanNode? {
      WalkIsFlatAll(n.plans, d + 1);
      ValsConcat([Row(d, n.fields)], FlatAll(ViewAll(n.plans), d + 1));
    }
  }

  lemma {:induction false} WalkIsFlatAll(ns: seq<PlanNode>, d: nat)
    ensures NoNilAll(ns) ==> Vals(FlatAll(ViewAll(ns), d)) == VisitsAll(ns)
    ensures |FlatAll(ViewAll(ns), d)| >= |VisitsAll(ns)|
    ensures |FlatAll(ViewAll(ns), d)| == |VisitsAll(ns)| ==> NoNilAll(ns)
    decreases ns, 1
  {
    if ns != [] {
      WalkIsFlat(ns[0], d);
      WalkIsFlatAll(ns[1..], d);
      assert ViewAll(ns)[1..] == ViewAll(ns[1..]);
      ValsConcat(Flat(View(ns[0]), d), FlatAll(ViewAll(ns[1..]), d));
    }
  }

  /** The advisor's walk and the page's list go through the same nodes in the same order exactly when no
      child is nil: walk skips a nil child, the page shows it as an empty node. */
  lemma WalkIsFlatExactly(n: PlanNode)
    ensures Vals(Flat(View(n), 0)) == Visits(n) <==> NoNil(n)
  {
    WalkIsFlat(n, 0);
  }

  // ---- Decoration --------------------------------------------------------------------------

  /** Decorating a view that shows a plan: it still shows the plan, and each node has its own index. */
  method DecorateShown(vm: PlanVM, ghost root: PlanNode, ghost sh: Shape, node: int)
    requires vm.Shows(root, sh) && forall o :: o in vm.Flat ==> o.Undecorated()
    modifies vm`SelectedIdx, vm`Selected, vm.Flat`Idx, vm.Flat`Problem, vm.Flat`EstColorVar
    ensures vm.Shows(root, sh) && vm.Decorated(node) && vm.Flat != [] && vm.Root == vm.Flat[0]
    ensures OwnMarks(vm)
  {
    hide Holds, IsMisestimate, LastIndex, View, Pre, Color;
    PreSplit(sh);
    OwnIndexExact(vm.Flat);
    ghost var tree := View(root);
    assert Objs(sh) == set o | o in vm.Flat;
    vm.DecoratePlan(node);
    assert Holds(sh, tree, 0);
    forall i | 0 <= i < |vm.Flat|
      ensures var n := vm.Flat[i];
              && n.Idx == i && n.Problem == IsMisestimate(n.PlanRows, n.ActualRows)
              && n.EstColorVar == Color(n.Problem) {
      assert vm.Flat[i] in vm.Flat;
    }
  }

  /** shortFP. */
  function ShortFP(fp: string): string {
    if |fp| > 8 then fp[..8] else fp
  }

  /** The first eight characters, or all of a shorter text. */
  lemma ShortFPExact(fp: string)
    ensures ShortFP(fp) <= fp && |ShortFP(fp)| <= 8 && (ShortFP(fp) == fp || |ShortFP(fp)| == 8)
  {
  }

  /** The header fields of the handler: the fingerprint asked for, and one tab per plan. */
  method SetHeader(vm: PlanVM, fp: string, planIdx: nat, count: nat)
    requires vm.Variants == []
    modifies vm`Fingerprint, vm`VariantIdx, vm`Variants
    ensures vm.Fingerprint == fp && vm.VariantIdx == planIdx && |vm.Variants| == count
    ensures forall i :: 0 <= i < count ==> vm.Variants[i] == PlanVariant(ShortFP(fp), i == planIdx)
  {
    vm.Fingerprint := fp;
    vm.VariantIdx := planIdx;
    for i := 0 to count
      invariant vm.Fingerprint == fp && vm.VariantIdx == planIdx && |vm.Variants| == i
      invariant forall k :: 0 <= k < i ==> vm.Variants[k] == PlanVariant(ShortFP(fp), k == planIdx)
    {
      vm.Variants := vm.Variants + [PlanVariant(ShortFP(fp), i == planIdx)];
    }
  }

  /** fetchPlan, after the query: the plans found, and the plan and node asked for. */
  method FetchPlan(serverID: string, fp: string, plans: seq<QueryPlan>, plan: int, node: int) returns (vm: PlanVM)
    ensures fresh(vm) && vm.ServerID == serverID
    ensures plans == [] ==> vm.Empty && vm.Fingerprint == "" && vm.Flat == [] && vm.Variants == []
    ensures plans != [] ==>
              && vm.Fingerprint == fp && vm.VariantIdx == (if 0 <= plan < |plans| then plan else 0)
              && |vm.Variants| == |plans|
              && (forall i :: 0 <= i < |plans| ==> vm.Variants[i] == PlanVariant(ShortFP(fp), i == vm.VariantIdx))
              && (vm.Empty <==> GetRoot(plans[vm.VariantIdx]).NilNode?)
              && (!vm.Empty ==> exists sh :: vm.Shows(GetRoot(plans[vm.VariantIdx]), sh))
    ensures if vm.Empty then vm.Root == null && vm.Flat == [] && vm.Selected == null
            else vm.Decorated(node) && vm.Flat != [] && vm.Root == vm.Flat[0]
    ensures OwnMarks(vm)
  {
    hide Holds, IsMisestimate, LastIndex, View, Pre, Color, Marked, Distinct;
    if plans == [] {
      vm := new PlanVM.ToPlanVM(serverID, NilPlan);
      return;
    }
    var planIdx := if plan < 0 || plan >= |plans| then 0 else plan;
    vm := new PlanVM.ToPlanVM(serverID, plans[planIdx]);
    ghost var root := GetRoot(plans[planIdx]);
    if vm.Empty {
      SetHeader(vm, fp, planIdx, |plans|);
      vm.DecoratePlan(node);
    } else {
      ghost var sh :| vm.Shows(root, sh);
      forall k | 0 <= k < |vm.Flat| ensures fresh(vm.Flat[k]) {
        assert vm.Flat[k] in vm.Flat;
      }
      ghost var tree := View(root);
      assert Objs(sh) == set o | o in vm.Flat;
      SetHeader(vm, fp, planIdx, |plans|);
      assert Holds(sh, tree, 0);
      DecorateShown(vm, root, sh, node);
    }
  }

  /** On a view already decorated with this index, DecoratePlan changes nothing. */
  method DecorateAgain(vm: PlanVM, selectedIdx: int)
    requires vm.Decorated(selectedIdx)
    modifies vm`SelectedIdx, vm`Selected, vm.Flat`Idx, vm.Flat`Problem, vm.Flat`EstColorVar
    ensures vm.SelectedIdx == old(vm.SelectedIdx) && vm.Selected == old(vm.Selected)
    ensures forall o :: o in vm.Flat ==> o.Idx == old(o.Idx) && o.Problem == old(o.Problem)
                                         && o.EstColorVar == old(o.EstColorVar)
  {
    hide IsMisestimate, LastIndex, Color;
    vm.DecoratePlan(selectedIdx);
  }

  /** Following a node's own link selects that node. */
  method FollowLink(vm: PlanVM, k: nat)
    requires k < |vm.Flat| && Distinct(vm.Flat) && exists node :: vm.Decorated(node)
    modifies vm`SelectedIdx, vm`Selected, vm.Flat`Idx, vm.Flat`Problem, vm.Flat`EstColorVar
    ensures vm.Selected == vm.Flat[k] && vm.SelectedIdx == k
    ensures forall i :: 0 <= i < |vm.Flat| ==> vm.Flat[i].Idx == old(vm.Flat[i].Idx) == i
  {
    OwnIndexExact(vm.Flat);
    vm.DecoratePlan(vm.Flat[k].Idx);
  }
}
