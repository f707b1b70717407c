/** Reports from plans whose filter conditions are printed expressions. */
module PrintedPlans {
  import opened Options
  import opened ColumnScanner
  import opened PlanProto
  import opened CandidateKey
  import opened GroupBy
  import opened IndexAdvisor
  import opened IndexReport
  import opened PrintedPredicate
  import FilterColumns

  /** The nodes the advisor looks at: sequential scans of a named relation. */
  predicate IsScan(f: Fields) {
    f.nodeType == "Seq Scan" && f.relationName != ""
  }

  /** Every such node filters by the text of a plain condition. */
  ghost predicate PlainScans(steps: seq<Step>, condition: Fields -> Expr) {
    forall s :: s in steps && IsScan(s.node) ==>
                  var e := condition(s.node);
                  Valid(e) && Plain(e, None, "") && s.node.normalizedCondition == Print(e)
  }

  /** The columns a scan's condition compares, in the order of filterColumns. */
  function ComparedColumns(condition: Fields -> Expr, f: Fields): seq<string> {
    FilterColumns.ColumnsOf(Compared(condition(f), None))
  }

  /** A scan whose recommendation bears this label and these columns. */
  ghost predicate Asks(condition: Fields -> Expr, f: Fields, name: string, cols: seq<string>) {
    IsScan(f) && UpToNul(f.relationName) == name && cols != [] && cols == ComparedColumns(condition, f)
  }

  lemma PlainCandidate(steps: seq<Step>, condition: Fields -> Expr, s: Step)
    requires PlainScans(steps, condition) && s in steps
    ensures var cols := ComparedColumns(condition, s.node);
            CandidateOf(s.node) ==
            if IsScan(s.node) && cols != [] then Some(Candidate(s.node.relationName, cols)) else None
  {
    hide Valid, Plain, Print, Compared, Comparisons, FilterColumns.ColumnsOf;
    if IsScan(s.node) {
      PrintScanRoundTrip(condition(s.node));
    }
  }

  /** From plans with plain conditions the rows are exactly those of the scans: a label and a column list stand in
      the result if and only if some scan of that relation compares these columns. */
  lemma PlainRows(out: seq<Recommendation>, steps: seq<Step>, tables: map<string, TableInfo>,
                  condition: Fields -> Expr, name: string, cols: seq<string>)
    requires IsReport(out, steps, tables) && PlainScans(steps, condition)
    ensures (exists r :: r in out && IsRow(r, name, cols)) <==>
            exists s :: s in steps && Asks(condition, s.node, name, cols)
  {
    hide IsReport, Listing, CandidateOf, PlainScans, IsScan, ComparedColumns, Fingerprints, Ascending, Info, UpToNul;
    ReportMembers(out, steps, tables);
    if r :| r in out && IsRow(r, name, cols) {
      var c :| c in Listing(steps) && r == Advice(steps, tables, c);
      ListingExact(steps, c);
      var s :| s in steps && CandidateOf(s.node) == Some(c);
      PlainCandidate(steps, condition, s);
      assert Asks(condition, s.node, name, cols);
    }
    if s :| s in steps && Asks(condition, s.node, name, cols) {
      PlainCandidate(steps, condition, s);
      var c := Candidate(s.node.relationName, cols);
      ListingExact(steps, c);
      assert Advice(steps, tables, c) in out && IsRow(Advice(steps, tables, c), name, cols);
    }
  }

  // ---- An input with two results -----------------------------------------------------------

  function ScanNode(condition: string): Fields {
    Fields("Seq Scan", "t", "", "", "", condition, 0, 0, 0, 0, 0, 0)
  }

  function ScanPlan(condition: string): QueryPlan {
    QueryPlan("f", PlanNode(ScanNode(condition), []))
  }

  /** Two scans of one relation, by different columns. */
  const PLANS := [ScanPlan("a = $1"), ScanPlan("b = $1")]

  lemma ScanCandidate(col: string)
    requires ValidWord(col)
    ensures CandidateOf(ScanNode(col + " = $1")) == Some(Candidate("t", [col]))
  {
    hide Comparisons, ValidWord;
    var e := Infix(Column(col), "=", Value("$1"));
    ExampleWords();
    EqualsIsOp();
    ComparisonReads(col, "=", "$1");
    ScanPrinted(e);
    assert col + " " + "=" + " " + "$1" == col + " = $1" by { EqualsText(col); }
    FilterColumns.OneColumn(Comparison(col, "="));
  }

  lemma EqualsText(col: string)
    ensures col + " " + "=" + " " + "$1" == col + " = $1"
  {
    assert col + " " + "=" == col + " =";
    assert col + " =" + " " == col + " = ";
  }

  lemma ScanListed(plans: seq<QueryPlan>, condition: string, c: Candidate)
    requires ScanPlan(condition) in plans && CandidateOf(ScanNode(condition)) == Some(c)
    ensures c in Listing(Steps(plans))
  {
    hide Steps, Listing, CandidateOf;
    var s := Step("f", ScanNode(condition));
    assert Visits(GetRoot(ScanPlan(condition))) == [ScanNode(condition)];
    StepsExact(plans, s);
    ListingExact(Steps(plans), c);
  }

  /** Whatever the tables, the recommendations for these plans come in two orders. */
  lemma TwoResults(tables: map<string, TableInfo>)
    ensures exists out, out' :: IsReport(out, Steps(PLANS), tables) && IsReport(out', Steps(PLANS), tables)
                                && out != out'
  {
    hide Steps, Listing, CandidateOf, Fingerprints, IsReport, UpToNul, ScanNode;
    BetweenWords();
    ScanCandidate("a");
    ScanCandidate("b");
    assert "a" + " = $1" == "a = $1" && "b" + " = $1" == "b = $1";
    assert PLANS[0] == ScanPlan("a = $1") && PLANS[1] == ScanPlan("b = $1");
    ScanListed(PLANS, "a = $1", Candidate("t", ["a"]));
    ScanListed(PLANS, "b = $1", Candidate("t", ["b"]));
    assert ["a"][0] != ["b"][0];
    assert !OneAdvicePerLabel(Steps(PLANS));
    OneReportExact(Steps(PLANS), tables);
  }
}
