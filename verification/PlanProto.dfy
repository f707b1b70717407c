/** The plan messages of proto/lynceus/v1/plan.proto, as the readers below see them. */
module PlanProto {
  import opened MachineInt

  /** A float64 that is only carried along, by its bit pattern. */
  type Float64Bits = x: nat | x < TWO_64

  /** The node fields that the advisor or the plan view reads. */
  datatype Fields = Fields(
    nodeType: string, relationName: string, indexName: string, joinType: string, scanDirection: string,
    normalizedCondition: string, planRows: int64, actualRows: int64, actualLoops: int64,
    totalCost: Float64Bits, actualTotalTimeMs: Float64Bits, rowsRemovedByFilter: int64)

  datatype PlanNode = NilNode | PlanNode(fields: Fields, plans: seq<PlanNode>)

  datatype QueryPlan = NilPlan | QueryPlan(fingerprint: string, root: PlanNode)

  /** What the getters read from a nil node. */
  const ZERO_FIELDS := Fields("", "", "", "", "", "", 0, 0, 0, 0, 0, 0)

  function GetFields(n: PlanNode): Fields {
    if n.NilNode? then ZERO_FIELDS else n.fields
  }

  function GetPlans(n: PlanNode): seq<PlanNode> {
    if n.NilNode? then [] else n.plans
  }

  function GetFingerprint(p: QueryPlan): string {
    if p.NilPlan? then "" else p.fingerprint
  }

  function GetRoot(p: QueryPlan): PlanNode {
    if p.NilPlan? then NilNode else p.root
  }

  /** The non-nil nodes of a subtree, parents first: the nodes `walk` calls its function on. */
  function Visits(n: PlanNode): seq<Fields>
    decreases n, 0
  {
    if n.NilNode? then [] else [n.fields] + VisitsAll(n.plans)
  }

  function VisitsAll(ns: seq<PlanNode>): seq<Fields>
    decreases ns, 1
  {
    if ns == [] then [] else Visits(ns[0]) + VisitsAll(ns[1..])
  }

  lemma {:induction false} VisitsAllSnoc(ns: seq<PlanNode>, n: PlanNode)
    ensures VisitsAll(ns + [n]) == VisitsAll(ns) + Visits(n)
  {
    if ns == [] {
      assert ns + [n] == [n] && [n][1..] == [];
      assert Visits(n) + [] == Visits(n) && [] + Visits(n) == Visits(n);
    } else {
      assert (ns + [n])[1..] == ns[1..] + [n];
      VisitsAllSnoc(ns[1..], n);
    }
  }

  /** What the getters read, message by message: from a nil one, nothing. */
  lemma Getters(fs: Fields, plans: seq<PlanNode>, fp: string, root: PlanNode)
    ensures GetFields(PlanNode(fs, plans)) == fs && GetPlans(PlanNode(fs, plans)) == plans
    ensures GetFields(NilNode) == Fields("", "", "", "", "", "", 0, 0, 0, 0, 0, 0) && GetPlans(NilNode) == []
    ensures GetFingerprint(QueryPlan(fp, root)) == fp && GetRoot(QueryPlan(fp, root)) == root
    ensures GetFingerprint(NilPlan) == "" && GetRoot(NilPlan) == NilNode
  {
  }
}
