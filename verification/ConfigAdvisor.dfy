/** ConfigAdvice of internal/advisor/config.go. strconv.ParseFloat is a parameter: the number a text denotes,
    if it denotes one that can be compared. */
module ConfigAdvisor {
  import opened Options
  import opened Sorting
  import GoStrings

  datatype Setting = Setting(name: string, value: string, unit: string, source: string)

  datatype Category = Memory | Durability | Autovacuum | Planner

  datatype Severity = High | Medium | Low

  datatype Recommendation = Recommendation(setting: string, category: Category, severity: Severity,
                                           current: string, suggested: string)

  type Parser = string -> Option<real>

  /** The float64 constant 0.2. */
  const POINT_TWO := 3602879701896397.0 / 18014398509481984.0

  function Rank(s: Severity): nat {
    match s
    case High => 0
    case Medium => 1
    case Low => 2
  }

  /** Severity first, then name. */
  predicate Less(a: Recommendation, b: Recommendation) {
    if Rank(a.severity) != Rank(b.severity) then Rank(a.severity) < Rank(b.severity)
    else GoStrings.Less(a.setting, b.setting)
  }

  // ---- What a single setting deserves ------------------------------------------------------

  predicate AtLeast(parse: Parser, v: string, bound: real) {
    parse(v).Some? && parse(v).value >= bound
  }

  predicate IsDurability(name: string) {
    name == "fsync" || name == "full_page_writes" || name == "synchronous_commit"
  }

  predicate IsMemory(name: string) {
    name == "shared_buffers" || name == "work_mem" || name == "maintenance_work_mem"
  }

  /** The bound a numeric setting must stay below, if there is one for it. */
  function Bound(name: string): Option<real> {
    if name == "autovacuum_vacuum_scale_factor" then Some(POINT_TWO)
    else if name == "random_page_cost" then Some(4.0)
    else None
  }

  /** The setting has a value, or comes from a source, that a rule objects to. */
  predicate Deserves(s: Setting, parse: Parser) {
    if IsDurability(s.name) then s.value == "off"
    else if Bound(s.name).Some? then AtLeast(parse, s.value, Bound(s.name).value)
    else (IsMemory(s.name) || s.name == "autovacuum_vacuum_cost_limit") && s.source == "default"
  }

  /** What the rule for the setting says. */
  function Report(name: string, value: string): (r: Recommendation)
    ensures r.setting == name && r.current == value
    ensures r.category == Durability <==> IsDurability(name)
    ensures r.category == Memory <==> IsMemory(name)
  {
    if IsDurability(name) then
      Recommendation(name, Durability, if name == "synchronous_commit" then Medium else High, value, "on")
    else if name == "shared_buffers" then
      Recommendation(name, Memory, Medium, value, "~25% of dedicated-host RAM")
    else if name == "work_mem" then
      Recommendation(name, Memory, Low, value, "raise per-operation sort/hash memory")
    else if name == "maintenance_work_mem" then
      Recommendation(name, Memory, Low, value, "raise for faster VACUUM / CREATE INDEX")
    else if name == "autovacuum_vacuum_scale_factor" then
      Recommendation(name, Autovacuum, Medium, value, "lower (e.g. 0.05) so autovacuum triggers sooner")
    else if name == "autovacuum_vacuum_cost_limit" then
      Recommendation(name, Autovacuum, Low, value, "raise so autovacuum keeps up under write load")
    else
      Recommendation(name, Planner, Low, value, "lower toward 1.1 on SSD/managed storage")
  }

  /** The advice about one setting, if it deserves any. */
  function RuleFor(s: Setting, parse: Parser): (r: Option<Recommendation>)
    ensures r.Some? ==> r.value.setting == s.name
  {
    if Deserves(s, parse) then Some(Report(s.name, s.value)) else None
  }

  // ---- What the advice is ------------------------------------------------------------------

  /** The last setting of that name. */
  function LastNamed(settings: seq<Setting>, name: string): (r: Option<Setting>)
    ensures r.Some? ==> r.value in settings && r.value.name == name
  {
    if settings == [] then None
    else if settings[|settings| - 1].name == name then Some(settings[|settings| - 1])
    else LastNamed(settings[..|settings| - 1], name)
  }

  /** `r` is what the last setting of its name deserves. */
  predicate Advised(settings: seq<Setting>, parse: Parser, r: Recommendation) {
    var s := LastNamed(settings, r.setting);
    s.Some? && RuleFor(s.value, parse) == Some(r)
  }

  ghost predicate StrictlyAscending(out: seq<Recommendation>) {
    forall i, j :: 0 <= i < j < |out| ==> Less(out[i], out[j])
  }

  /** All the advice, in strictly ascending order. */
  ghost predicate IsAdvice(out: seq<Recommendation>, settings: seq<Setting>, parse: Parser) {
    StrictlyAscending(out) && forall r :: r in out <==> Advised(settings, parse, r)
  }

  // ---- The function ------------------------------------------------------------------------

  /** What one rule adds. */
  function Fired(last: map<string, Setting>, name: string, parse: Parser): seq<Recommendation> {
    if name in last && RuleFor(last[name], parse).Some? then [RuleFor(last[name], parse).value] else []
  }

  /** The map holds the last setting of each name, under its name. */
  ghost predicate IsByName(last: map<string, Setting>, settings: seq<Setting>) {
    forall name :: (name in last <==> LastNamed(settings, name).Some?)
                   && (name in last ==> LastNamed(settings, name) == Some(last[name]))
  }

  method ByName(settings: seq<Setting>) returns (last: map<string, Setting>)
    ensures IsByName(last, settings)
  {
    last := map[];
    for i := 0 to |settings|
      invariant IsByName(last, settings[..i])
    {
      var s := settings[i];
      assert settings[..i + 1][..i] == settings[..i];
      last := last[s.name := s];
    }
    assert settings[..|settings|] == settings;
  }

  /** Every entry stands under its own name. */
  ghost predicate WellKeyed(last: map<string, Setting>) {
    forall name :: name in last ==> last[name].name == name
  }

  lemma FiredIs(last: map<string, Setting>, name: string, parse: Parser)
    requires WellKeyed(last)
    ensures Fired(last, name, parse) ==
            if name in last && Deserves(last[name], parse) then [Report(name, last[name].value)] else []
  {
  }

  method AddDurability(last: map<string, Setting>, parse: Parser) returns (out: seq<Recommendation>)
    requires WellKeyed(last)
    ensures out == Fired(last, "fsync", parse) + Fired(last, "full_page_writes", parse)
                   + Fired(last, "synchronous_commit", parse)
  {
    hide Fired, AtLeast;
    FiredIs(last, "fsync", parse);
    FiredIs(last, "full_page_writes", parse);
    FiredIs(last, "synchronous_commit", parse);
    out := [];
    if "fsync" in last && last["fsync"].value == "off" {
      out := out + [Recommendation("fsync", Durability, High, "off", "on")];
    }
    assert out == Fired(last, "fsync", parse);
    if "full_page_writes" in last && last["full_page_writes"].value == "off" {
      out := out + [Recommendation("full_page_writes", Durability, High, "off", "on")];
    }
    assert out == Fired(last, "fsync", parse) + Fired(last, "full_page_writes", parse);
    if "synchronous_commit" in last && last["synchronous_commit"].value == "off" {
      out := out + [Recommendation("synchronous_commit", Durability, Medium, "off", "on")];
    }
  }

  method AddMemory(last: map<string, Setting>, parse: Parser) returns (out: seq<Recommendation>)
    requires WellKeyed(last)
    ensures out == Fired(last, "shared_buffers", parse) + Fired(last, "work_mem", parse)
                   + Fired(last, "maintenance_work_mem", parse)
  {
    hide Fired, AtLeast;
    FiredIs(last, "shared_buffers", parse);
    FiredIs(last, "work_mem", parse);
    FiredIs(last, "maintenance_work_mem", parse);
    out := [];
    if "shared_buffers" in last && last["shared_buffers"].source == "default" {
      out := out + [Recommendation("shared_buffers", Memory, Medium, last["shared_buffers"].value,
                                   "~25% of dedicated-host RAM")];
    }
    assert out == Fired(last, "shared_buffers", parse);
    if "work_mem" in last && last["work_mem"].source == "default" {
      out := out + [Recommendation("work_mem", Memory, Low, last["work_mem"].value,
                                   "raise per-operation sort/hash memory")];
    }
    assert out == Fired(last, "shared_buffers", parse) + Fired(last, "work_mem", parse);
    if "maintenance_work_mem" in last && last["maintenance_work_mem"].source == "default" {
      out := out + [Recommendation("maintenance_work_mem", Memory, Low, last["maintenance_work_mem"].value,
                                   "raise for faster VACUUM / CREATE INDEX")];
    }
  }

  lemma ScaleFactorRule(last: map<string, Setting>, parse: Parser)
    requires WellKeyed(last)
    ensures var name := "autovacuum_vacuum_scale_factor";
            Fired(last, name, parse) ==
            if name in last && AtLeast(parse, last[name].value, POINT_TWO)
            then [Recommendation(name, Autovacuum, Medium, last[name].value,
                                 "lower (e.g. 0.05) so autovacuum triggers sooner")]
            else []
  {
    hide AtLeast;
  }

  lemma CostLimitRule(last: map<string, Setting>, parse: Parser)
    requires WellKeyed(last)
    ensures var name := "autovacuum_vacuum_cost_limit";
            Fired(last, name, parse) ==
            if name in last && last[name].source == "default"
            then [Recommendation(name, Autovacuum, Low, last[name].value,
                                 "raise so autovacuum keeps up under write load")]
            else []
  {
    hide AtLeast;
  }

  lemma PageCostRule(last: map<string, Setting>, parse: Parser)
    requires WellKeyed(last)
    ensures var name := "random_page_cost";
            Fired(last, name, parse) ==
            if name in last && AtLeast(parse, last[name].value, 4.0)
            then [Recommendation(name, Planner, Low, last[name].value, "lower toward 1.1 on SSD/managed storage")]
            else []
  {
    hide AtLeast;
  }

  method AddAutovacuumAndPlanner(last: map<string, Setting>, parse: Parser) returns (out: seq<Recommendation>)
    requires WellKeyed(last)
    ensures out == Fired(last, "autovacuum_vacuum_scale_factor", parse)
                   + Fired(last, "autovacuum_vacuum_cost_limit", parse) + Fired(last, "random_page_cost", parse)
  {
    hide Fired, AtLeast;
    ScaleFactorRule(last, parse);
    CostLimitRule(last, parse);
    PageCostRule(last, parse);
    out := [];
    if "autovacuum_vacuum_scale_factor" in last {
      var s := last["autovacuum_vacuum_scale_factor"];
      if AtLeast(parse, s.value, POINT_TWO) {
        out := out + [Recommendation("autovacuum_vacuum_scale_factor", Autovacuum, Medium, s.value,
                                     "lower (e.g. 0.05) so autovacuum triggers sooner")];
      }
    }
    if "autovacuum_vacuum_cost_limit" in last && last["autovacuum_vacuum_cost_limit"].source == "default" {
      out := out + [Recommendation("autovacuum_vacuum_cost_limit", Autovacuum, Low,
                                   last["autovacuum_vacuum_cost_limit"].value,
                                   "raise so autovacuum keeps up under write load")];
    }
    if "random_page_cost" in last {
      var s := last["random_page_cost"];
      if AtLeast(parse, s.value, 4.0) {
        out := out + [Recommendation("random_page_cost", Planner, Low, s.value,
                                     "lower toward 1.1 on SSD/managed storage")];
      }
    }
  }

  /** The settings the rules look at, in the order of the rules. */
  const RULES: seq<string> := [
    "fsync", "full_page_writes", "synchronous_commit", "shared_buffers", "work_mem", "maintenance_work_mem",
    "autovacuum_vacuum_scale_factor", "autovacuum_vacuum_cost_limit", "random_page_cost"]

  function FiredAll(last: map<string, Setting>, names: seq<string>, parse: Parser): seq<Recommendation> {
    if names == [] then [] else FiredAll(last, names[..|names| - 1], parse) + Fired(last, names[|names| - 1], parse)
  }

  method ConfigAdvice(settings: seq<Setting>, parse: Parser) returns (out: seq<Recommendation>)
    ensures IsAdvice(out, settings, parse)
  {
    hide Fired, Less, Deserves, Report, Advised;
    var last := ByName(settings);
    var d := AddDurability(last, parse);
    var m := AddMemory(last, parse);
    var v := AddAutovacuumAndPlanner(last, parse);
    var recs := d + m + v;
    FiredInOrder(last, parse);
    FiredIsAdvised(last, settings, parse, recs);
    var a := new Recommendation[|recs|](i requires 0 <= i < |recs| => recs[i]);
    assert a[..] == recs;
    LessIsStrictWeak(recs);
    Sort(a, Less);
    out := a[..];
    SortedIsAdvice(out, recs, settings, parse);
  }

  lemma FiredInOrder(last: map<string, Setting>, parse: Parser)
    ensures FiredAll(last, RULES, parse) ==
            (Fired(last, RULES[0], parse) + Fired(last, RULES[1], parse) + Fired(last, RULES[2], parse))
            + (Fired(last, RULES[3], parse) + Fired(last, RULES[4], parse) + Fired(last, RULES[5], parse))
            + (Fired(last, RULES[6], parse) + Fired(last, RULES[7], parse) + Fired(last, RULES[8], parse))
  {
    hide Fired;
    FiredThree(last, RULES, 0, parse);
    FiredThree(last, RULES, 3, parse);
    FiredThree(last, RULES, 6, parse);
    assert RULES[..9] == RULES && RULES[..0] == [];
  }

  lemma FiredThree(last: map<string, Setting>, names: seq<string>, i: nat, parse: Parser)
    requires i + 3 <= |names|
    ensures FiredAll(last, names[..i + 3], parse) == FiredAll(last, names[..i], parse)
              + (Fired(last, names[i], parse) + Fired(last, names[i + 1], parse) + Fired(last, names[i + 2], parse))
  {
    hide Fired, FiredAll;
    FiredOne(last, names, i, parse);
    FiredOne(last, names, i + 1, parse);
    FiredOne(last, names, i + 2, parse);
  }

  lemma FiredOne(last: map<string, Setting>, names: seq<string>, i: nat, parse: Parser)
    requires i < |names|
    ensures FiredAll(last, names[..i + 1], parse) == FiredAll(last, names[..i], parse) + Fired(last, names[i], parse)
  {
    hide Fired;
    assert names[..i + 1][..i] == names[..i];
  }

  /** The advice of the rules `names`, each at most once. */
  lemma {:induction false} FiredMembers(last: map<string, Setting>, names: seq<string>, parse: Parser)
    requires WellKeyed(last) && Distinct(names)
    ensures Distinct(FiredAll(last, names, parse))
    ensures forall r :: r in FiredAll(last, names, parse) <==>
              r.setting in names && r.setting in last && RuleFor(last[r.setting], parse) == Some(r)
    decreases |names|
  {
    hide RuleFor;
    if names != [] {
      var front, name := names[..|names| - 1], names[|names| - 1];
      assert names == front + [name];
      FiredMembers(last, front, parse);
    }
  }

  lemma RulesCover(s: Setting, parse: Parser)
    ensures RuleFor(s, parse).Some? ==> s.name in RULES
  {
  }

  lemma RulesDistinct()
    ensures Distinct(RULES)
  {
  }

  lemma FiredIsAdvised(last: map<string, Setting>, settings: seq<Setting>, parse: Parser, recs: seq<Recommendation>)
    requires IsByName(last, settings) && recs == FiredAll(last, RULES, parse)
    ensures Distinct(recs) && forall r :: r in recs <==> Advised(settings, parse, r)
  {
    hide RuleFor, FiredAll;
    RulesDistinct();
    FiredMembers(last, RULES, parse);
    forall r | Advised(settings, parse, r) ensures r in recs {
      RulesCover(last[r.setting], parse);
    }
  }

  lemma LessIsStrictWeak(recs: seq<Recommendation>)
    ensures StrictWeakOn(Less, recs)
  {
    GoStrings.LessOrder();
  }

  /** Sorting advice, of which there is at most one piece per setting, leaves no ties. */
  lemma SortedIsAdvice(out: seq<Recommendation>, recs: seq<Recommendation>, settings: seq<Setting>, parse: Parser)
    requires multiset(out) == multiset(recs) && Sorted(Less, out)
    requires Distinct(recs) && forall r :: r in recs <==> Advised(settings, parse, r)
    ensures IsAdvice(out, settings, parse)
  {
    hide RuleFor;
    SameMembers(out, recs);
    GoStrings.LessOrder();
    forall i, j | 0 <= i < j < |out| ensures Less(out[i], out[j]) {
      assert out[i] in out && out[j] in out;
      if out[i] == out[j] {
        DistinctCount(recs, out[i]);
        CountTwo(out, i, j);
      }
    }
  }

  // ---- Only the last setting of each name matters ------------------------------------------

  /** Inputs that agree on the last setting of every name get the same list: it is the only strictly
      ascending one. */
  lemma AdviceDetermined(s: seq<Setting>, s': seq<Setting>, parse: Parser,
                         out: seq<Recommendation>, out': seq<Recommendation>)
    requires forall name :: LastNamed(s, name) == LastNamed(s', name)
    requires IsAdvice(out, s, parse) && IsAdvice(out', s', parse)
    ensures out == out'
  {
    hide RuleFor, LastNamed;
    GoStrings.LessOrder();
    assert forall r :: r in out <==> r in out';
    OneAscendingList(out, out');
  }

  lemma OneAscendingList(out: seq<Recommendation>, out': seq<Recommendation>)
    requires StrictlyAscending(out) && StrictlyAscending(out') && forall r :: r in out <==> r in out'
    ensures out == out'
  {
    GoStrings.LessOrder();
    assert StrictWeakOn(Less, out);
    assert Distinct(out) && Distinct(out') && Sorted(Less, out) && Sorted(Less, out');
    DistinctPermutation(out, out');
    assert StrictTotalOn(Less, out);
    SortedUnique(Less, out, out');
  }

  ghost predicate DistinctNames(s: seq<Setting>) {
    forall i, j :: 0 <= i < j < |s| ==> s[i].name != s[j].name
  }

  lemma {:induction false} LastNamedOf(s: seq<Setting>, x: Setting)
    requires DistinctNames(s) && x in s
    ensures LastNamed(s, x.name) == Some(x)
  {
    var front := s[..|s| - 1];
    assert s == front + [s[|s| - 1]];
    if s[|s| - 1].name != x.name {
      LastNamedOf(front, x);
    } else {
      var i :| 0 <= i < |s| && s[i] == x;
    }
  }

  lemma {:induction false} LastNamedExact(s: seq<Setting>, name: string)
    ensures LastNamed(s, name).Some? <==> exists x :: x in s && x.name == name
  {
    if s != [] {
      var front := s[..|s| - 1];
      assert s == front + [s[|s| - 1]];
      LastNamedExact(front, name);
    }
  }

  /** With distinct names, the order of the input does not matter. */
  lemma OrderIrrelevant(s: seq<Setting>, s': seq<Setting>, parse: Parser,
                        out: seq<Recommendation>, out': seq<Recommendation>)
    requires DistinctNames(s) && multiset(s) == multiset(s')
    requires IsAdvice(out, s, parse) && IsAdvice(out', s', parse)
    ensures out == out'
  {
    SameMembers(s, s');
    forall name ensures LastNamed(s, name) == LastNamed(s', name) {
      LastNamedExact(s, name);
      LastNamedExact(s', name);
      if LastNamed(s', name).Some? {
        LastNamedOf(s, LastNamed(s', name).value);
      }
    }
    AdviceDetermined(s, s', parse, out, out');
  }

  /** The settings that are the last of their name, in order. */
  function KeepLast(s: seq<Setting>): seq<Setting> {
    if s == [] then []
    else if exists x :: x in s[1..] && x.name == s[0].name then KeepLast(s[1..])
    else [s[0]] + KeepLast(s[1..])
  }

  lemma {:induction false} LastNamedConcat(a: seq<Setting>, b: seq<Setting>, name: string)
    ensures LastNamed(a + b, name) == if LastNamed(b, name).Some? then LastNamed(b, name) else LastNamed(a, name)
    decreases |b|
  {
    if b == [] {
      assert a + b == a;
    } else {
      assert (a + b)[..|a + b| - 1] == a + b[..|b| - 1];
      LastNamedConcat(a, b[..|b| - 1], name);
    }
  }

  lemma {:induction false} KeepLastKeeps(s: seq<Setting>, name: string)
    ensures LastNamed(KeepLast(s), name) == LastNamed(s, name)
    decreases |s|
  {
    if s != [] {
      var t := s[1..];
      KeepLastKeeps(t, name);
      assert s == [s[0]] + t;
      LastNamedConcat([s[0]], t, name);
      LastNamedConcat([s[0]], KeepLast(t), name);
      LastNamedExact(t, name);
      assert [s[0]][..0] == [];
    }
  }

  /** Repeated names: the same list as from the last setting of each name alone. */
  lemma RepeatsIrrelevant(s: seq<Setting>, parse: Parser, out: seq<Recommendation>, out': seq<Recommendation>)
    requires IsAdvice(out, s, parse) && IsAdvice(out', KeepLast(s), parse)
    ensures out == out'
  {
    forall name ensures LastNamed(s, name) == LastNamed(KeepLast(s), name) {
      KeepLastKeeps(s, name);
    }
    AdviceDetermined(s, KeepLast(s), parse, out, out');
  }

  // ---- The order of the advice -------------------------------------------------------------

  /** High before medium before low, and within one severity by name. */
  lemma AdviceOrder(out: seq<Recommendation>, settings: seq<Setting>, parse: Parser, i: nat, j: nat)
    requires IsAdvice(out, settings, parse) && i < j < |out|
    ensures out[j].severity == High ==> out[i].severity == High
    ensures out[i].severity == Low ==> out[j].severity == Low
    ensures out[i].severity == out[j].severity ==> GoStrings.Lexicographic(out[i].setting, out[j].setting)
  {
    GoStrings.LessExact(out[i].setting, out[j].setting);
    assert Less(out[i], out[j]);
  }

  /** The scale factor's bound is the float64 nearest to 0.2: of the multiples of 2^-54 around it, none is nearer. */
  lemma PointTwoIsNearest(k: int)
    ensures POINT_TWO == 3602879701896397.0 / 18014398509481984.0
    ensures var away := k as real / 18014398509481984.0 - 0.2;
            0.0 < POINT_TWO - 0.2 <= if away < 0.0 then -away else away
  {
  }

  // ---- What changing one setting does ------------------------------------------------------

  /** A new value for one setting replaces the advice about it by what the new value deserves, and changes no other. */
  lemma OneSettingChanged(s: seq<Setting>, x: Setting, parse: Parser,
                          out: seq<Recommendation>, out': seq<Recommendation>)
    requires IsAdvice(out, s, parse) && IsAdvice(out', s + [x], parse)
    ensures forall r :: r in out' <==> if r.setting == x.name then RuleFor(x, parse) == Some(r) else r in out
  {
    hide RuleFor;
    assert [x][..0] == [];
    forall name ensures LastNamed(s + [x], name) == if name == x.name then Some(x) else LastNamed(s, name) {
      LastNamedConcat(s, [x], name);
    }
  }

  /** The advice of `out` but for `r`. */
  ghost predicate Without(out': seq<Recommendation>, out: seq<Recommendation>, r: Recommendation) {
    forall q :: q in out' <==> q in out && q != r
  }

  lemma ChangedSetting(s: seq<Setting>, x: Setting, parse: Parser, out: seq<Recommendation>, out': seq<Recommendation>,
                       r: Recommendation)
    requires IsAdvice(out, s, parse) && IsAdvice(out', s + [x], parse) && r in out && x.name == r.setting
    ensures r in out' <==> RuleFor(x, parse) == Some(r)
    ensures Without(out', out, r) <==> RuleFor(x, parse) == None
  {
    hide RuleFor;
    OneSettingChanged(s, x, parse, out, out');
    forall q | q in out && q.setting == r.setting ensures q == r {
      assert Advised(s, parse, q) && Advised(s, parse, r);
    }
    assert RuleFor(x, parse).Some? ==> RuleFor(x, parse).value in out';
  }

  /** A durability recommendation stays while its setting has the shown value, and goes away, alone, with any
      other, the suggested one in particular. */
  lemma DurabilityFix(s: seq<Setting>, x: Setting, parse: Parser, out: seq<Recommendation>, out': seq<Recommendation>,
                      r: Recommendation)
    requires IsAdvice(out, s, parse) && IsAdvice(out', s + [x], parse) && r in out && x.name == r.setting
    requires r.category == Durability
    ensures r in out' <==> x.value == r.current
    ensures Without(out', out, r) <==> x.value != r.current
    ensures r.suggested != r.current
  {
    ChangedSetting(s, x, parse, out, out', r);
    hide AtLeast, Without;
    assert Advised(s, parse, r);
  }

  /** A memory recommendation goes away, alone, when its setting is no longer at its default source, whatever
      its value; with a new value from the default source it shows that value. */
  lemma MemoryFix(s: seq<Setting>, x: Setting, parse: Parser, out: seq<Recommendation>, out': seq<Recommendation>,
                  r: Recommendation)
    requires IsAdvice(out, s, parse) && IsAdvice(out', s + [x], parse) && r in out && x.name == r.setting
    requires r.category == Memory
    ensures Without(out', out, r) <==> x.source != "default"
    ensures r.(current := x.value) in out' <==> x.source == "default"
  {
    hide AtLeast, Without, Report;
    ShownAnew(s, x, parse, out, out', r);
    assert Advised(s, parse, r);
  }

  lemma ReportNewValue(name: string, value: string, value': string)
    ensures Report(name, value') == Report(name, value).(current := value')
  {
  }

  /** A new value that a rule objects to is shown in the same recommendation. */
  lemma ShownAnew(s: seq<Setting>, x: Setting, parse: Parser, out: seq<Recommendation>, out': seq<Recommendation>,
                  r: Recommendation)
    requires IsAdvice(out, s, parse) && IsAdvice(out', s + [x], parse) && r in out && x.name == r.setting
    ensures Without(out', out, r) <==> !Deserves(x, parse)
    ensures r.(current := x.value) in out' <==> Deserves(x, parse)
  {
    hide Deserves, Report;
    ChangedSetting(s, x, parse, out, out', r);
    OneSettingChanged(s, x, parse, out, out');
    assert Advised(s, parse, r);
    ReportNewValue(r.setting, r.current, x.value);
  }

  /** An autovacuum or planner recommendation goes away, alone, when its number gets below the bound or is no
      number at all; the one without a bound, when its source is no longer the default. Else it shows the value. */
  lemma AutovacuumAndPlannerFix(s: seq<Setting>, x: Setting, parse: Parser,
                                out: seq<Recommendation>, out': seq<Recommendation>, r: Recommendation)
    requires IsAdvice(out, s, parse) && IsAdvice(out', s + [x], parse) && r in out && x.name == r.setting
    requires r.category == Autovacuum || r.category == Planner
    ensures Without(out', out, r) <==>
            match Bound(r.setting)
            case Some(bound) => parse(x.value).Some? ==> parse(x.value).value < bound
            case None => x.source != "default"
    ensures r.(current := x.value) in out' <==> !Without(out', out, r)
  {
    hide Without, Report;
    ShownAnew(s, x, parse, out, out', r);
    assert Advised(s, parse, r);
  }

  // ---- Advice of disjoint inputs merges ----------------------------------------------------

  /** The ordered merge. */
  function Merge(a: seq<Recommendation>, b: seq<Recommendation>): seq<Recommendation>
    decreases |a| + |b|
  {
    if a == [] then b
    else if b == [] then a
    else if Less(b[0], a[0]) then [b[0]] + Merge(a, b[1..])
    else [a[0]] + Merge(a[1..], b)
  }

  lemma {:induction false} MergeMembers(a: seq<Recommendation>, b: seq<Recommendation>)
    ensures forall r :: r in Merge(a, b) <==> r in a || r in b
    decreases |a| + |b|
  {
    if a != [] && b != [] {
      MergeMembers(a, b[1..]);
      MergeMembers(a[1..], b);
      assert a == [a[0]] + a[1..] && b == [b[0]] + b[1..];
    }
  }

  ghost predicate LeastOf(x: Recommendation, t: seq<Recommendation>) {
    forall r :: r in t ==> Less(x, r)
  }

  lemma ConsAscending(x: Recommendation, t: seq<Recommendation>)
    requires StrictlyAscending(t) && LeastOf(x, t)
    ensures StrictlyAscending([x] + t)
  {
  }

  lemma HeadIsLeast(a: seq<Recommendation>)
    requires a != [] && StrictlyAscending(a)
    ensures LeastOf(a[0], a[1..]) && StrictlyAscending(a[1..])
  {
  }

  lemma {:induction false} MergeAscending(a: seq<Recommendation>, b: seq<Recommendation>)
    requires StrictlyAscending(a) && StrictlyAscending(b)
    requires forall x, y :: x in a && y in b ==> Less(x, y) || Less(y, x)
    ensures StrictlyAscending(Merge(a, b))
    decreases |a| + |b|
  {
    hide Less, StrictlyAscending;
    if a != [] && b != [] {
      HeadIsLeast(a);
      HeadIsLeast(b);
      LessTransitive();
      assert a[0] in a && b[0] in b;
      assert a == [a[0]] + a[1..] && b == [b[0]] + b[1..];
      if Less(b[0], a[0]) {
        MergeMembers(a, b[1..]);
        MergeAscending(a, b[1..]);
        ConsAscending(b[0], Merge(a, b[1..]));
      } else {
        MergeMembers(a[1..], b);
        MergeAscending(a[1..], b);
        ConsAscending(a[0], Merge(a[1..], b));
      }
    }
  }

  lemma LessTransitive()
    ensures forall x, y, z :: Less(x, y) && Less(y, z) ==> Less(x, z)
  {
    GoStrings.LessOrder();
  }

  ghost predicate DisjointNames(s: seq<Setting>, s': seq<Setting>) {
    forall x, y :: x in s && y in s' ==> x.name != y.name
  }

  /** Settings that share no name: the advice for both lists together is the ordered merge of the advice
      for each. */
  lemma AdviceMerges(s: seq<Setting>, s': seq<Setting>, parse: Parser,
                     out: seq<Recommendation>, out': seq<Recommendation>, both: seq<Recommendation>)
    requires DisjointNames(s, s')
    requires IsAdvice(out, s, parse) && IsAdvice(out', s', parse)
    ensures IsAdvice(both, s + s', parse) <==> both == Merge(out, out')
  {
    forall r ensures Advised(s + s', parse, r) <==> r in out || r in out' {
      LastNamedConcat(s, s', r.setting);
    }
    forall x, y | x in out && y in out' ensures Less(x, y) || Less(y, x) {
      GoStrings.LessTotal(x.setting, y.setting);
    }
    MergeMembers(out, out');
    MergeAscending(out, out');
    hide Advised, Less, Merge;
    if IsAdvice(both, s + s', parse) {
      OneAscendingList(both, Merge(out, out'));
    }
  }
}
