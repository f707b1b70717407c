/** SortSearchNodes and heapPct of web/search.go, with the parts of Go's strings and strconv they use. */
module SearchNodes {
  import opened Sorting
  import opened MachineInt
  import opened GoStrings

  // ---- strings.TrimSpace, strings.TrimSuffix, strconv.Atoi ---------------------------------

  /** unicode.IsSpace. */
  predicate IsSpace(c: char) {
    || '\t' <= c <= '\r' || c == ' ' || c == '\U{85}' || c == '\U{A0}' || c == '\U{1680}'
    || '\U{2000}' <= c <= '\U{200A}' || c == '\U{2028}' || c == '\U{2029}' || c == '\U{202F}' || c == '\U{205F}'
    || c == '\U{3000}'
  }

  predicate AllSpace(s: string) {
    forall i :: 0 <= i < |s| ==> IsSpace(s[i])
  }

  function TrimLeft(s: string): string {
    if s != [] && IsSpace(s[0]) then TrimLeft(s[1..]) else s
  }

  function TrimRight(s: string): string {
    if s != [] && IsSpace(s[|s| - 1]) then TrimRight(s[..|s| - 1]) else s
  }

  function TrimSpace(s: string): string {
    TrimRight(TrimLeft(s))
  }

  function TrimPercent(s: string): string {
    if s != [] && s[|s| - 1] == '%' then s[..|s| - 1] else s
  }

  const MAX_UINT64 := TWO_64 - 1
  const CUTOFF := MAX_UINT64 / 10 + 1

  datatype Parsed = Value(n: nat) | SyntaxError | RangeError

  /** strconv.ParseUint in base 10, `n` read so far. It stops at the first character that is no digit or
      that would carry the value past 64 bits, whatever follows. */
  function ParseUint(s: string, n: nat): (r: Parsed)
    ensures n <= MAX_UINT64 && r.Value? ==> r.n <= MAX_UINT64
  {
    if s == [] then Value(n)
    else if !IsDigit(s[0]) then SyntaxError
    else if n >= CUTOFF then RangeError
    else
      var n1 := n * 10 + (s[0] as int - '0' as int);
      if n1 > MAX_UINT64 then RangeError else ParseUint(s[1..], n1)
  }

  /** strconv.Atoi's value, its error ignored: 0 on a syntax error, the nearest bound on a range error. */
  function Atoi(s: string): int64 {
    var neg := s != [] && s[0] == '-';
    var digits := if s != [] && (s[0] == '-' || s[0] == '+') then s[1..] else s;
    if digits == [] then 0
    else match ParseUint(digits, 0)
      case SyntaxError => 0
      case RangeError => if neg then -TWO_63 else TWO_63 - 1
      case Value(n) =>
        if neg then (if n > TWO_63 then -TWO_63 else -(n as int))
        else (if n >= TWO_63 then TWO_63 - 1 else n)
  }

  /** heapPct. */
  function HeapPct(s: string): int64 {
    Atoi(TrimPercent(TrimSpace(s)))
  }

  // ---- Percentages round-trip --------------------------------------------------------------

  function Clamp(n: int): int64 {
    if n < -TWO_63 then -TWO_63 else if n >= TWO_63 then TWO_63 - 1 else n
  }

  lemma {:induction false} ParseDigits(n: nat, t: string)
    ensures ParseUint(Digits(n) + t, 0) == if n <= MAX_UINT64 then ParseUint(t, n) else RangeError
    decreases n
  {
    if n < 10 {
      assert ([Digit(n)] + t)[1..] == t;
    } else {
      var c := [Digit(n % 10)];
      assert Digits(n) + t == Digits(n / 10) + (c + t);
      assert (c + t)[1..] == t && (c + t)[0] == Digit(n % 10);
      ParseDigits(n / 10, c + t);
    }
  }

  lemma {:induction false} DigitsOnly(n: nat)
    ensures forall i :: 0 <= i < |Digits(n)| ==> IsDigit(Digits(n)[i])
    decreases n
  {
    if n >= 10 {
      DigitsOnly(n / 10);
    }
  }

  lemma AtoiOfDecimal(n: int)
    ensures Atoi(Decimal(n)) == Clamp(n)
  {
    var m: nat := if n < 0 then -n else n;
    ParseDigits(m, []);
    DigitsOnly(m);
    assert Digits(m) + [] == Digits(m);
    assert n < 0 ==> Decimal(n)[1..] == Digits(m);
  }

  lemma {:induction false} TrimLeftPast(w: string, t: string)
    requires AllSpace(w) && t != [] && !IsSpace(t[0])
    ensures TrimLeft(w + t) == t
    decreases |w|
  {
    if w == [] {
      assert w + t == t;
    } else {
      assert (w + t)[1..] == w[1..] + t;
      TrimLeftPast(w[1..], t);
    }
  }

  lemma {:induction false} TrimRightPast(t: string, w: string)
    requires AllSpace(w) && t != [] && !IsSpace(t[|t| - 1])
    ensures TrimRight(t + w) == t
    decreases |w|
  {
    if w == [] {
      assert t + w == t;
    } else {
      assert (t + w)[..|t + w| - 1] == t + w[..|w| - 1];
      TrimRightPast(t, w[..|w| - 1]);
    }
  }

  lemma DecimalStarts(n: int)
    ensures !IsSpace(Decimal(n)[0])
  {
    DigitsOnly(if n < 0 then -n else n);
  }

  /** heapPct reads a printed percentage back, between any white space: exactly for an int64, clamped to the
      nearest int64 otherwise. */
  lemma PercentRoundTrip(before: string, n: int, after: string)
    requires AllSpace(before) && AllSpace(after)
    ensures HeapPct(before + (Decimal(n) + "%" + after)) == Clamp(n)
  {
    var t := Decimal(n) + "%";
    DecimalStarts(n);
    assert t[|t| - 1] == '%' && t[0] == Decimal(n)[0];
    assert (t + after)[0] == t[0];
    TrimLeftPast(before, t + after);
    TrimRightPast(t, after);
    assert t[..|t| - 1] == Decimal(n);
    AtoiOfDecimal(n);
  }

  predicate AllDigits(s: string) {
    forall i :: 0 <= i < |s| ==> IsDigit(s[i])
  }

  /** The number that `n` becomes when the digits `ds` are written after it. */
  function Number(ds: string, n: nat): (m: nat)
    requires AllDigits(ds)
    ensures m >= n
  {
    if ds == [] then n else Number(ds[1..], n * 10 + (ds[0] as int - '0' as int))
  }

  /** Digits, then what starts with no digit: whether the number fits is found out before what follows is looked at. */
  lemma {:induction false} ParseExact(ds: string, t: string, n: nat)
    requires AllDigits(ds) && (t != [] ==> !IsDigit(t[0])) && n <= MAX_UINT64
    ensures ParseUint(ds + t, n) ==
            if Number(ds, n) > MAX_UINT64 then RangeError else if t == [] then Value(Number(ds, n)) else SyntaxError
    decreases |ds|
  {
    if ds == [] {
      assert ds + t == t;
    } else {
      assert (ds + t)[1..] == ds[1..] + t && (ds + t)[0] == ds[0];
      var n1: nat := n * 10 + (ds[0] as int - '0' as int);
      if n1 <= MAX_UINT64 {
        ParseExact(ds[1..], t, n1);
      }
    }
  }

  function Signed(sign: string, n: nat): int {
    if sign == "-" then -(n as int) else n
  }

  /** Every text, as its sign, digits and the rest: no digits give 0, digits alone the nearest int64, and digits
      with something after them 0 if they fit in 64 bits and otherwise the nearest int64 again. */
  lemma AtoiExact(sign: string, ds: string, t: string)
    requires sign in ["", "+", "-"] && AllDigits(ds) && (t != [] ==> !IsDigit(t[0]))
    requires sign == "" && ds == "" && t != [] ==> t[0] != '+' && t[0] != '-'
    ensures Atoi(sign + (ds + t)) ==
            if ds == "" || (t != [] && Number(ds, 0) <= MAX_UINT64) then 0
            else Clamp(Signed(sign, Number(ds, 0)))
  {
    var s := sign + (ds + t);
    ParseExact(ds, t, 0);
    if sign == "" {
      assert s == ds + t;
      assert ds != "" ==> s[0] == ds[0];
    } else {
      assert s[1..] == ds + t && s[0] == sign[0];
    }
  }

  /** The parts of a text that heapPct tells apart: `t` is what follows the digits. */
  datatype Parts = Parts(before: string, sign: string, ds: string, t: string, percent: string, after: string)

  function Body(p: Parts): string {
    p.sign + (p.ds + p.t)
  }

  function Whole(p: Parts): string {
    p.before + ((Body(p) + p.percent) + p.after)
  }

  predicate AreParts(p: Parts) {
    && AllSpace(p.before) && AllSpace(p.after) && p.percent in ["", "%"]
    && p.sign in ["", "+", "-"] && AllDigits(p.ds) && (p.t != [] ==> !IsDigit(p.t[0]))
    && (p.sign == "" && p.ds == "" && p.t != [] ==> p.t[0] != '+' && p.t[0] != '-')
    && (Body(p) != [] ==> !IsSpace(Body(p)[0]))
    && (Body(p) != [] && p.percent == "" ==> !IsSpace(Body(p)[|Body(p)| - 1]) && Body(p)[|Body(p)| - 1] != '%')
  }

  /** heapPct on every text: white space around it and one percent sign at its end do not matter. */
  lemma HeapPctExact(p: Parts)
    requires AreParts(p)
    ensures HeapPct(Whole(p)) ==
            if p.ds == "" || (p.t != [] && Number(p.ds, 0) <= 18446744073709551615) then 0
            else Clamp(Signed(p.sign, Number(p.ds, 0)))
  {
    hide Atoi;
    TrimmedBody(p.before, Body(p), p.percent, p.after);
    AtoiExact(p.sign, p.ds, p.t);
  }

  lemma {:induction false} TrimLeftParts(s: string) returns (w: string)
    ensures AllSpace(w) && s == w + TrimLeft(s) && (TrimLeft(s) != [] ==> !IsSpace(TrimLeft(s)[0]))
  {
    w := "";
    if s != [] && IsSpace(s[0]) {
      w := TrimLeftParts(s[1..]);
      w := [s[0]] + w;
      assert s == [s[0]] + s[1..];
    }
  }

  lemma {:induction false} TrimRightParts(s: string) returns (w: string)
    ensures AllSpace(w) && s == TrimRight(s) + w && (TrimRight(s) != [] ==> !IsSpace(TrimRight(s)[|TrimRight(s)| - 1]))
    ensures TrimRight(s) != [] ==> TrimRight(s)[0] == s[0]
  {
    w := "";
    if s != [] && IsSpace(s[|s| - 1]) {
      w := TrimRightParts(s[..|s| - 1]);
      w := w + [s[|s| - 1]];
      assert s == s[..|s| - 1] + [s[|s| - 1]];
    }
  }

  lemma {:induction false} DigitParts(s: string) returns (ds: string, t: string)
    ensures s == ds + t && AllDigits(ds) && (t != [] ==> !IsDigit(t[0]))
  {
    if s == [] || !IsDigit(s[0]) {
      ds, t := "", s;
    } else {
      ds, t := DigitParts(s[1..]);
      ds := [s[0]] + ds;
      assert s == [s[0]] + s[1..];
    }
  }

  lemma SignParts(body: string) returns (sign: string, ds: string, t: string)
    ensures body == sign + (ds + t) && sign in ["", "+", "-"] && AllDigits(ds) && (t != [] ==> !IsDigit(t[0]))
    ensures sign == "" && ds == "" && t != [] ==> t[0] != '+' && t[0] != '-'
  {
    sign := if body != [] && (body[0] == '-' || body[0] == '+') then body[..1] else "";
    ds, t := DigitParts(body[|sign|..]);
    assert body == sign + body[|sign|..];
    assert sign != "" ==> sign == [body[0]];
    assert sign == "" && ds == "" ==> t == body;
  }

  /** Every text has such parts. */
  lemma EveryTextHasParts(s: string) returns (p: Parts)
    ensures AreParts(p) && Whole(p) == s
  {
    hide TrimLeft, TrimRight, IsSpace;
    var before := TrimLeftParts(s);
    var trimmed := TrimSpace(s);
    var after := TrimRightParts(TrimLeft(s));
    var body := TrimPercent(trimmed);
    var percent := if body == trimmed then "" else "%";
    assert trimmed == body + percent;
    var sign, ds, t := SignParts(body);
    p := Parts(before, sign, ds, t, percent, after);
    assert Body(p) == body;
    assert body != [] ==> body[0] == trimmed[0];
  }

  lemma TrimmedBody(before: string, body: string, percent: string, after: string)
    requires AllSpace(before) && AllSpace(after) && percent in ["", "%"]
    requires percent == "" && body != [] ==> !IsSpace(body[|body| - 1]) && body[|body| - 1] != '%'
    requires body != [] ==> !IsSpace(body[0])
    ensures TrimPercent(TrimSpace(before + ((body + percent) + after))) == body
  {
    var b := body + percent;
    if b == [] {
      assert before + (b + after) == before + after;
      AllSpaceTrims(before + after);
    } else {
      assert (b + after)[0] == b[0] && (body != [] ==> b[0] == body[0]);
      TrimLeftPast(before, b + after);
      TrimRightPast(b, after);
      assert percent == "%" ==> b[..|b| - 1] == body;
      assert percent == "" ==> b == body;
    }
  }

  lemma {:induction false} AllSpaceTrims(s: string)
    requires AllSpace(s)
    ensures TrimSpace(s) == []
  {
    if s != [] {
      AllSpaceTrims(s[1..]);
    }
  }

  /** unicode.IsSpace, by code point. */
  predicate SpaceCode(n: int) {
    || 9 <= n <= 13 || n == 32 || n == 0x85 || n == 0xA0 || n == 0x1680 || 0x2000 <= n <= 0x200A
    || n == 0x2028 || n == 0x2029 || n == 0x202F || n == 0x205F || n == 0x3000
  }

  /** Which characters are trimmed, and which are digits: any other one, a sign aside, spoils the number. */
  lemma CharacterBefore(c: char)
    requires c != '+' && c != '-' && !('0' <= c <= '9')
    ensures HeapPct([c] + "58%") == if SpaceCode(c as int) then 58 else 0
    ensures HeapPct("5" + [c] + "8%") == 0
  {
    hide HeapPct;
    var ds := "58";
    Fives();
    if SpaceCode(c as int) {
      HeapPctExact(Parts([c], "", ds, "", "%", ""));
      assert Whole(Parts([c], "", ds, "", "%", "")) == [c] + "58%";
    } else {
      HeapPctExact(Parts("", "", "", [c] + ds, "%", ""));
      assert Whole(Parts("", "", "", [c] + ds, "%", "")) == [c] + "58%";
    }
    HeapPctExact(Parts("", "", "5", [c] + "8", "%", ""));
    assert Whole(Parts("", "", "5", [c] + "8", "%", "")) == "5" + [c] + "8%";
  }

  lemma Fives()
    ensures AllDigits("58") && Number("58", 0) == 58 && AllDigits("5") && Number("5", 0) == 5
  {
    assert "58"[1..] == "8" && "8"[1..] == "" && "5"[1..] == "";
    assert Number("8", 5) == 58;
  }

  // ---- Sorting -----------------------------------------------------------------------------

  datatype SearchNodeRow = SearchNodeRow(name: string, roles: seq<string>, version: string, heap: string,
                                         cpu: string, disk: string, shards: string, dedicatedManager: bool)

  predicate NameBefore(a: SearchNodeRow, b: SearchNodeRow) {
    GoStrings.Less(a.name, b.name)
  }

  /** heapPct(b.Heap) - heapPct(a.Heap) in int64 arithmetic, the sort's comparison. */
  function HeapCompare(a: SearchNodeRow, b: SearchNodeRow): int64 {
    Wrap(HeapPct(b.heap) - HeapPct(a.heap))
  }

  predicate HeapBefore(a: SearchNodeRow, b: SearchNodeRow) {
    HeapCompare(a, b) < 0
  }

  /** The subtraction fits for every two rows. */
  ghost predicate DifferencesFit(rows: seq<SearchNodeRow>) {
    forall x, y :: x in rows && y in rows ==> InInt64(HeapPct(x.heap) - HeapPct(y.heap))
  }

  ghost predicate HeapDescending(rows: seq<SearchNodeRow>) {
    forall i, j :: 0 <= i < j < |rows| ==> HeapPct(rows[i].heap) >= HeapPct(rows[j].heap)
  }

  ghost predicate NameAscending(rows: seq<SearchNodeRow>) {
    forall i, j :: 0 <= i < j < |rows| ==> rows[i].name == rows[j].name || Lexicographic(rows[i].name, rows[j].name)
  }

  /** What sorting by the comparison may leave of the rows: a permutation, and a sorted one where the comparison is
      a strict weak order on them. Where it is none, the sort promises no more. */
  ghost predicate MayLeave(rows: seq<SearchNodeRow>, s: seq<SearchNodeRow>) {
    multiset(s) == multiset(rows) && (StrictWeakOn(HeapBefore, rows) ==> Sorted(HeapBefore, s))
  }

  method SortSearchNodes(nodes: array<SearchNodeRow>, sort: string)
    modifies nodes
    ensures multiset(nodes[..]) == old(multiset(nodes[..]))
    ensures sort == "name" ==> NameAscending(nodes[..])
    ensures sort != "name" ==> MayLeave(old(nodes[..]), nodes[..])
    ensures sort != "name" && old(DifferencesFit(nodes[..])) ==> HeapDescending(nodes[..])
  {
    ghost var rows := nodes[..];
    if sort == "name" {
      GoStrings.LessOrder();
      LessIsLexicographic();
      Sort(nodes, NameBefore);
      return;
    }
    Sort(nodes, HeapBefore);
    if DifferencesFit(rows) {
      HeapOrder(rows, nodes[..]);
    }
  }

  /** The comparison has the right sign exactly when the difference fits. */
  lemma CompareExact(a: SearchNodeRow, b: SearchNodeRow)
    ensures var x, y := HeapPct(a.heap), HeapPct(b.heap);
            ((HeapCompare(a, b) < 0 <==> y < x) && (HeapCompare(a, b) > 0 <==> y > x)) <==> InInt64(y - x)
  {
  }

  lemma WrapDifference(x: int64, y: int64)
    ensures var d: int := y - x;
            Wrap(d) == if d >= TWO_63 then d - TWO_64 else if d < -TWO_63 then d + TWO_64 else d
  {
  }

  lemma FitIsStrictWeak(rows: seq<SearchNodeRow>)
    requires DifferencesFit(rows)
    ensures forall x, y :: x in rows && y in rows ==> (HeapBefore(x, y) <==> HeapPct(x.heap) > HeapPct(y.heap))
    ensures StrictWeakOn(HeapBefore, rows)
  {
  }

  /** Where all differences fit, sorted by the comparison means heap-descending. */
  lemma HeapOrder(rows: seq<SearchNodeRow>, s: seq<SearchNodeRow>)
    requires DifferencesFit(rows) && multiset(s) == multiset(rows)
    ensures StrictWeakOn(HeapBefore, rows)
    ensures Sorted(HeapBefore, s) <==> HeapDescending(s)
  {
    hide HeapPct, HeapBefore;
    FitIsStrictWeak(rows);
    SameMembers(s, rows);
    assert forall i :: 0 <= i < |s| ==> s[i] in rows;
  }

  predicate MoreHeap(a: SearchNodeRow, b: SearchNodeRow) {
    HeapPct(a.heap) > HeapPct(b.heap)
  }

  lemma DescendingPermutation(rows: seq<SearchNodeRow>) returns (s: seq<SearchNodeRow>)
    ensures HeapDescending(s) && multiset(s) == multiset(rows)
  {
    hide HeapPct;
    s := SortedPermutation(MoreHeap, rows);
  }

  /** Two rows whose difference does not fit compare the wrong way round. */
  lemma MisfitBefore(x: SearchNodeRow, y: SearchNodeRow)
    requires HeapPct(x.heap) - HeapPct(y.heap) >= TWO_63
    ensures HeapBefore(y, x)
  {
    hide HeapPct, Wrap;
    WrapDifference(HeapPct(y.heap), HeapPct(x.heap));
  }

  lemma MisfitUnsorted(s: seq<SearchNodeRow>, x: SearchNodeRow, y: SearchNodeRow)
    requires x in s && y in s && HeapDescending(s) && HeapPct(x.heap) - HeapPct(y.heap) >= TWO_63
    ensures !Sorted(HeapBefore, s)
  {
    hide HeapPct, HeapBefore;
    MisfitBefore(x, y);
    var i :| 0 <= i < |s| && s[i] == x;
    var j :| 0 <= j < |s| && s[j] == y;
  }

  /** Rows of which two do not fit: the one with the higher heap is x. */
  ghost predicate Misfit(rows: seq<SearchNodeRow>, x: SearchNodeRow, y: SearchNodeRow) {
    x in rows && y in rows && HeapPct(x.heap) - HeapPct(y.heap) >= TWO_63
  }

  lemma SomeMisfit(rows: seq<SearchNodeRow>) returns (x: SearchNodeRow, y: SearchNodeRow)
    requires !DifferencesFit(rows)
    ensures Misfit(rows, x, y)
  {
    hide HeapPct;
    x, y :| x in rows && y in rows && !InInt64(HeapPct(x.heap) - HeapPct(y.heap));
    if HeapPct(x.heap) < HeapPct(y.heap) {
      x, y := y, x;
    }
  }

  /** Any two rows in a heap-descending list can be exchanged. */
  lemma ExchangedHeaps(s: seq<SearchNodeRow>, x: SearchNodeRow, y: SearchNodeRow) returns (t: seq<SearchNodeRow>)
    requires HeapDescending(s) && x in s && y in s && HeapPct(x.heap) > HeapPct(y.heap)
    ensures multiset(t) == multiset(s) && !HeapDescending(t)
  {
    hide HeapPct;
    var i :| 0 <= i < |s| && s[i] == x;
    var j :| 0 <= j < |s| && s[j] == y;
    Exchanged(s, i, j);
    t := s[i := y][j := x];
    assert t[i] == y && t[j] == x;
  }

  /** Where two rows do not fit, the sort may leave them out of order. */
  lemma MisfitOutcome(rows: seq<SearchNodeRow>) returns (s: seq<SearchNodeRow>)
    requires !DifferencesFit(rows)
    ensures MayLeave(rows, s) && !HeapDescending(s)
  {
    hide HeapPct, HeapBefore, Sorted, HeapDescending, StrictWeakOn, DifferencesFit;
    var x, y := SomeMisfit(rows);
    if StrictWeakOn(HeapBefore, rows) {
      s := SortedPermutation(HeapBefore, rows);
      SameMembers(s, rows);
      if HeapDescending(s) {
        MisfitUnsorted(s, x, y);
      }
    } else {
      s := DescendingPermutation(rows);
      SameMembers(s, rows);
      s := ExchangedHeaps(s, x, y);
    }
  }

  /** Whatever order the sort leaves is heap-descending if and only if all differences fit. */
  lemma SortsByHeapExact(rows: seq<SearchNodeRow>)
    ensures (forall s :: MayLeave(rows, s) ==> HeapDescending(s)) <==> DifferencesFit(rows)
  {
    hide HeapPct, HeapBefore, Sorted, HeapDescending, StrictWeakOn;
    if DifferencesFit(rows) {
      forall s | MayLeave(rows, s) ensures HeapDescending(s) {
        HeapOrder(rows, s);
      }
    } else {
      var s := MisfitOutcome(rows);
    }
  }

  /** For the rows in every order, being sorted by the comparison means heap-descending, exactly when all
      differences fit. */
  lemma SortedMeansDescendingExact(rows: seq<SearchNodeRow>)
    ensures (forall s :: multiset(s) == multiset(rows) ==> (Sorted(HeapBefore, s) <==> HeapDescending(s)))
            <==> DifferencesFit(rows)
  {
    hide HeapPct, HeapBefore, Sorted, HeapDescending;
    if DifferencesFit(rows) {
      forall s | multiset(s) == multiset(rows) ensures Sorted(HeapBefore, s) <==> HeapDescending(s) {
        HeapOrder(rows, s);
      }
    } else {
      var x, y := SomeMisfit(rows);
      var s := DescendingPermutation(rows);
      SameMembers(s, rows);
      MisfitUnsorted(s, x, y);
    }
  }

  /** Otherwise no order of the rows at all is sorted and heap-descending. */
  lemma SortedAndDescendingExact(rows: seq<SearchNodeRow>)
    ensures (exists s :: multiset(s) == multiset(rows) && Sorted(HeapBefore, s) && HeapDescending(s))
            <==> DifferencesFit(rows)
  {
    hide HeapPct, HeapBefore, Sorted, HeapDescending;
    if DifferencesFit(rows) {
      var s := DescendingPermutation(rows);
      HeapOrder(rows, s);
    } else {
      var x, y := SomeMisfit(rows);
      forall s | multiset(s) == multiset(rows) && HeapDescending(s) ensures !Sorted(HeapBefore, s) {
        SameMembers(s, rows);
        MisfitUnsorted(s, x, y);
      }
    }
  }

  /** Heaps within a quarter of the 64-bit range of zero always fit; percentages do. */
  lemma HalfRangeFits(rows: seq<SearchNodeRow>)
    requires forall r :: r in rows ==> -TWO_63 / 2 <= HeapPct(r.heap) < TWO_63 / 2
    ensures DifferencesFit(rows)
  {
  }

  /** Of these two rows the comparison puts the lower heap first. */
  lemma HugeHeapCompares(a: SearchNodeRow, b: SearchNodeRow)
    requires a.heap == Decimal(TWO_63 - 1) + "%" && b.heap == Decimal(-2) + "%"
    ensures HeapPct(a.heap) > HeapPct(b.heap) && HeapBefore(b, a) && !HeapBefore(a, b)
    ensures !HeapBefore(a, a) && !HeapBefore(b, b)
  {
    hide HeapPct, Decimal;
    PercentRoundTrip("", TWO_63 - 1, "");
    PercentRoundTrip("", -2, "");
    assert "" + (a.heap + "") == a.heap && "" + (b.heap + "") == b.heap;
  }

  lemma TwoRows(a: SearchNodeRow, b: SearchNodeRow, s: seq<SearchNodeRow>)
    requires a != b
    ensures multiset(s) == multiset([a, b]) <==> s == [a, b] || s == [b, a]
  {
    assert multiset([b, a]) == multiset([a, b]);
    if multiset(s) == multiset([a, b]) {
      assert |s| == |multiset(s)| == 2;
      assert s == [s[0], s[1]];
      assert s[0] in multiset(s) && s[1] in multiset(s);
      assert multiset(s)[a] == 1;
    }
  }

  /** Two rows that do not fit: sorting always leaves the larger heap last. */
  lemma HugeHeapSortsLast(a: SearchNodeRow, b: SearchNodeRow, s: seq<SearchNodeRow>)
    requires a.heap == Decimal(TWO_63 - 1) + "%" && b.heap == Decimal(-2) + "%"
    ensures HeapPct(a.heap) > HeapPct(b.heap)
    ensures MayLeave([a, b], s) <==> s == [b, a]
  {
    hide HeapPct, Decimal, HeapBefore;
    HugeHeapCompares(a, b);
    TwoRows(a, b, s);
    assert StrictWeakOn(HeapBefore, [a, b]);
    assert Sorted(HeapBefore, [b, a]) && !Sorted(HeapBefore, [a, b]) by {
      assert [b, a][0] == b && [b, a][1] == a && [a, b][0] == a && [a, b][1] == b;
    }
  }
}
