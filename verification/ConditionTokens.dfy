/** Conditions as tokens, and what the scanner reads from each word of one. */
module ConditionTokens {
  import opened Options
  import opened Sorting
  import opened Regex
  import opened ColumnScanner

  /** The operators of the pattern; the word operators in any letter case. */
  predicate IsOp(op: string) {
    op in ["=", "<>", "!=", "<=", ">=", "<", ">", "~~"] || IsWordOp(op)
  }

  predicate IsWordOp(w: string) {
    EqualFold(w, "between") || EqualFold(w, "in")
  }

  predicate NoLetters(w: string) {
    forall i :: 0 <= i < |w| ==> !In(Letter, w[i])
  }

  /** Any operator between operands: symbols without letters, or a word operator of the pattern. */
  predicate IsOperator(op: string) {
    (op != [] && NoLetters(op) && !In(Word, op[0]) && !In(Space, op[0])) || IsWordOp(op)
  }

  /** Placeholders, parentheses, commas, dots, quotes: text without letters that does not look like an operator. */
  predicate IsMark(m: string) {
    m != [] && NoLetters(m) && !In(Space, m[0]) && m[0] !in "=<>!~"
  }

  /** A word may be a column that the condition compares; then `cmp` is the operator it is compared with. */
  datatype Token = Ident(w: string, cmp: Option<string>) | Operator(op: string) | Mark(m: string) | Gap

  predicate ValidHead(x: Token, rest: seq<Token>) {
    match x
    case Ident(w, cmp) =>
      && IsIdent(w) && (cmp.Some? ==> IsOp(cmp.value))
      && (rest != [] ==> rest[0].Gap? || (rest[0].Mark? && rest[0].m != [] && !In(Word, rest[0].m[0])))
    case Operator(op) => IsOperator(op) && rest != [] && rest[0].Gap? && (|rest| > 1 ==> !rest[1].Operator?)
    case Mark(m) => IsMark(m)
    case Gap => rest != [] ==> !rest[0].Gap? && (rest[0].Ident? ==> !IsWordOp(rest[0].w))
  }

  predicate ValidTokens(ts: seq<Token>) {
    ts == [] || (ValidHead(ts[0], ts[1..]) && ValidTokens(ts[1..]))
  }

  function TokenText(x: Token): string {
    match x
    case Ident(w, _) => w
    case Operator(op) => op
    case Mark(m) => m
    case Gap => " "
  }

  function TextOf(ts: seq<Token>): string {
    if ts == [] then "" else TokenText(ts[0]) + TextOf(ts[1..])
  }

  /** What the scanner takes an operator for: its longest beginning that is an operator of the pattern. */
  function ReadOp(op: string): string {
    op[..OpLen(op)]
  }

  /** The operator the scanner finds in front of these tokens. */
  function NextOp(ts: seq<Token>): string {
    if |ts| > 1 && ts[0].Gap? && ts[1].Operator? then ReadOp(ts[1].op) else ""
  }

  /** What a word leaks when no operator follows it: its own last letters, when they spell a word operator. */
  function Leak(w: string): (r: seq<Comparison>)
    ensures |r| <= 1 && forall c :: c in r ==> |c.col| < |w|
  {
    if EndsWithWord(w, "in") then [Comparison(w[..|w| - 2], w[|w| - 2..])]
    else if EndsWithWord(w, "between") then [Comparison(w[..|w| - 7], w[|w| - 7..])]
    else []
  }

  /** What the scanner reads at a word that this operator follows, "" if none does. */
  function ReadWord(w: string, next: string): (r: seq<Comparison>)
    ensures |r| <= 1
  {
    if next != "" then [Comparison(w, next)] else Leak(w)
  }

  function At(left: int, cs: seq<Comparison>): (r: seq<Located>)
    ensures |r| == |cs| && forall i :: 0 <= i < |r| ==> r[i] == Located(left, cs[i])
  {
    Map((c: Comparison) => Located(left, c), cs)
  }

  function ReadHead(x: Token, rest: seq<Token>): (r: seq<Comparison>)
    ensures |r| <= 1
  {
    if x.Ident? then ReadWord(x.w, NextOp(rest)) else []
  }

  /** Word by word, what the scanner reads. */
  function ReadTokens(ts: seq<Token>): seq<Located> {
    if ts == [] then [] else At(|TextOf(ts)|, ReadHead(ts[0], ts[1..])) + ReadTokens(ts[1..])
  }

  /** Both word operators end in n. */
  lemma NoFinalN(w: string)
    requires w != [] && FoldChar(w[|w| - 1]) != 'n'
    ensures !IsWordOp(w) && Leak(w) == []
  {
  }

  // ---- Scanning text piece by piece --------------------------------------------------------

  lemma {:induction false} ScanPastSymbols(w: string, t: string)
    requires NoLetters(w)
    ensures Scan(w + t) == Scan(t)
    decreases |w|
  {
    if w == [] {
      assert w + t == t;
    } else {
      assert (w + t)[1..] == w[1..] + t && (w + t)[0] == w[0];
      ScanPastSymbols(w[1..], t);
    }
  }

  /** `t` neither continues a word nor starts, after white space, with an operator. */
  predicate Quiet(t: string) {
    (t != [] ==> !In(Word, t[0])) && OpLen(t[RunLen(Space, t)..]) == 0
  }

  predicate AllWord(w: string) {
    forall i :: 0 <= i < |w| ==> In(Word, w[i])
  }

  lemma WordRun(w: string, t: string)
    requires AllWord(w) && (t != [] ==> !In(Word, t[0]))
    ensures RunLen(Word, w + t) == |w| && (w + t)[|w|..] == t && (w + t)[..|w|] == w
  {
  }

  lemma HitAtWord(w: string, t: string)
    requires w != [] && AllWord(w) && Quiet(t)
    ensures var h := HitAt(w + t);
            var found := In(Letter, w[0]) && (EndsWithWord(w, "in") || EndsWithWord(w, "between"));
            (h.Some? <==> found) && (found ==> h.value.size == |w| && [h.value.cmp] == Leak(w))
  {
    hide OpLen, EndsWithWord, RunLen;
    WordRun(w, t);
    var u := w + t;
    assert u[|w| + RunLen(Space, t)..] == t[RunLen(Space, t)..];
    assert (EndsWithWord(w, "in") ==> |w| > 2) && (EndsWithWord(w, "between") ==> |w| > 7) by {
      EndsWithWordLonger(w);
    }
    if |w| > 2 {
      assert u[..|w| - 2] == w[..|w| - 2] && u[|w| - 2..|w|] == w[|w| - 2..];
    }
    if |w| > 7 {
      assert u[..|w| - 7] == w[..|w| - 7] && u[|w| - 7..|w|] == w[|w| - 7..];
    }
  }

  lemma EndsWithWordLonger(w: string)
    ensures EndsWithWord(w, "in") ==> |w| > 2
    ensures EndsWithWord(w, "between") ==> |w| > 7
  {
  }

  lemma {:induction false} ScanPastSilentWord(w: string, t: string)
    requires AllWord(w) && Quiet(t) && !EndsWithWord(w, "in") && !EndsWithWord(w, "between")
    ensures Scan(w + t) == Scan(t)
    decreases |w|
  {
    hide OpLen, RunLen, HitAt, Quiet, EndsWithWord;
    if w == [] {
      assert w + t == t;
    } else {
      HitAtWord(w, t);
      EndsLikeItsTail(w, "in");
      EndsLikeItsTail(w, "between");
      assert (w + t)[1..] == w[1..] + t;
      ScanPastSilentWord(w[1..], t);
    }
  }

  lemma EndsLikeItsTail(w: string, op: string)
    requires w != []
    ensures EndsWithWord(w[1..], op) ==> EndsWithWord(w, op)
  {
  }

  /** A word that no operator follows adds what it leaks, and no more. */
  lemma ScanPastWord(w: string, t: string)
    requires IsIdent(w) && Quiet(t)
    ensures Scan(w + t) == At(|w + t|, Leak(w)) + Scan(t)
  {
    hide OpLen, RunLen, HitAt, Quiet, EndsWithWord;
    if EndsWithWord(w, "in") || EndsWithWord(w, "between") {
      HitAtWord(w, t);
      assert (w + t)[|w|..] == t;
      assert [Located(|w + t|, HitAt(w + t).value.cmp)] == At(|w + t|, Leak(w));
    } else {
      ScanPastSilentWord(w, t);
    }
  }

  /** The operator `u` starts with, decided by its first two characters. */
  lemma SymbolLen(u: string)
    requires u != []
    ensures OpLen(u) ==
            if u[0] == '=' then 1
            else if |u| > 1 && [u[0], u[1]] in ["<>", "!=", "<=", ">="] then 2
            else if u[0] == '<' || u[0] == '>' then 1
            else if |u| > 1 && [u[0], u[1]] == "~~" then 2
            else WordOpLen(u)
  {
  }

  lemma NoWordOp(u: string)
    requires u != [] && FoldChar(u[0]) != 'b' && FoldChar(u[0]) != 'i'
    ensures WordOpLen(u) == 0
  {
    assert |u| >= 7 ==> u[..7][0] == u[0];
    assert |u| >= 2 ==> u[..2][0] == u[0];
  }

  lemma MarkIsNoOperator(m: string, t: string)
    requires IsMark(m)
    ensures OpLen(m + t) == 0 && RunLen(Space, m + t) == 0
  {
    hide OpLen, WordOpLen;
    var u := m + t;
    assert u[0] == m[0];
    SymbolLen(u);
    NoWordOp(u);
  }

  /** Followed by a space, symbols are the operator they are alone. */
  lemma SymbolsBeforeSpace(op: string, t: string)
    requires op != [] && NoLetters(op) && t != [] && t[0] == ' '
    ensures OpLen(op + t) == OpLen(op)
  {
    hide OpLen, WordOpLen;
    var u := op + t;
    assert u[0] == op[0] && (if |op| > 1 then u[1] == op[1] else u[1] == ' ');
    SymbolLen(u);
    SymbolLen(op);
    NoWordOp(u);
    NoWordOp(op);
  }

  lemma WordOpBeforeSpace(op: string, t: string)
    requires IsWordOp(op) && (t != [] ==> t[0] == ' ')
    ensures OpLen(op + t) == |op|
  {
    hide OpLen;
    var u := op + t;
    var w := if EqualFold(op, "between") then "between" else "in";
    assert u[0] == op[0] && FoldChar(op[0]) == w[0];
    SymbolLen(u);
    assert u[..|w|] == op && (t != [] ==> u[|w|] == ' ');
    if w == "in" {
      assert FoldChar(u[0]) == 'i';
      assert |u| >= 7 ==> u[..7][0] == u[0];
    }
  }

  lemma OperatorBeforeSpace(op: string, t: string)
    requires IsOperator(op) && t != [] && t[0] == ' '
    ensures OpLen(op + t) == OpLen(op) && (IsWordOp(op) ==> OpLen(op) == |op|) && !In(Space, op[0])
  {
    hide OpLen;
    if IsWordOp(op) {
      WordOpBeforeSpace(op, t);
      WordOpBeforeSpace(op, "");
      assert op + "" == op;
      var w := if EqualFold(op, "between") then "between" else "in";
      assert FoldChar(op[0]) == w[0];
    } else {
      SymbolsBeforeSpace(op, t);
    }
  }

  lemma OtherWordIsNoOperator(w: string, t: string)
    requires IsIdent(w) && !IsWordOp(w) && (t != [] ==> !In(Word, t[0]))
    ensures OpLen(w + t) == 0 && RunLen(Space, w + t) == 0
  {
    hide OpLen;
    var u := w + t;
    assert u[0] == w[0];
    SymbolLen(u);
    StartsWithWholeWord(w, t, "between");
    StartsWithWholeWord(w, t, "in");
  }

  lemma StartsWithWholeWord(w: string, t: string, op: string)
    requires AllWord(w) && (t != [] ==> !In(Word, t[0])) && op != [] && forall c :: c in op ==> 'a' <= c <= 'z'
    ensures StartsWithWord(w + t, op) <==> EqualFold(w, op)
  {
    var u := w + t;
    assert u[..|w|] == w;
    if StartsWithWord(u, op) {
      forall i | 0 <= i < |op| ensures In(Word, u[i]) {
        assert u[..|op|][i] == u[i] && op[i] in op;
      }
    }
  }

  lemma ComparisonHit(col: string, op: string, r: string)
    requires IsIdent(col) && op != [] && !In(Space, op[0]) && OpLen(op + r) == |op|
    ensures var u := col + (" " + (op + r)); var n := |col| + 1 + |op|;
            u != [] && HitAt(u) == Some(Hit(Comparison(col, op), n)) && u[n..] == r
  {
    hide OpLen, EndsWithWord, RunLen;
    var v := " " + (op + r);
    assert v[0] == ' ';
    WordRun(col, v);
    assert v[1..] == op + r && (op + r)[0] == op[0];
    assert RunLen(Space, op + r) == 0;
    assert RunLen(Space, v) == 1;
    var u := col + v;
    assert u[0] == col[0];
    assert u[|col| + 1..] == op + r;
    assert u[|col| + 1..|col| + 1 + |op|] == op;
    assert u[|col| + 1 + |op|..] == r;
  }

  /** A word, a space and an operator that the pattern reads. */
  lemma ScanComparison(col: string, op: string, t: string)
    requires IsIdent(col) && IsOperator(op) && ReadOp(op) != "" && t != [] && t[0] == ' '
    ensures var u := col + (" " + (op + t)); Scan(u) == [Located(|u|, Comparison(col, ReadOp(op)))] + Scan(t)
  {
    hide OpLen, HitAt, IsIdent;
    OperatorBeforeSpace(op, t);
    var k := OpLen(op);
    var more := op[k..] + t;
    assert op + t == op[..k] + more;
    ComparisonHit(col, op[..k], more);
    if IsWordOp(op) {
      assert more == t;
    } else {
      ScanPastSymbols(op[k..], t);
    }
  }

  // ---- Scanning tokens ---------------------------------------------------------------------

  lemma TextStep(ts: seq<Token>)
    requires ts != []
    ensures TextOf(ts) == TokenText(ts[0]) + TextOf(ts[1..])
  {
  }

  lemma ValidStep(ts: seq<Token>)
    requires ValidTokens(ts) && ts != []
    ensures ValidHead(ts[0], ts[1..]) && ValidTokens(ts[1..])
  {
  }

  lemma GapStart(t: string)
    requires t != [] ==> !In(Space, t[0])
    ensures RunLen(Space, " " + t) == 1 && (" " + t)[1..] == t
  {
    assert (" " + t)[1..] == t;
  }

  lemma NothingQuiet()
    ensures Quiet("") && Quiet(" ")
  {
    assert " "[1..] == "";
  }

  lemma NoText()
    ensures TextOf([]) == ""
  {
  }

  /** What follows a word token does not continue it. */
  lemma WordEnds(ts: seq<Token>)
    requires ValidTokens(ts) && ts != [] && ts[0].Ident?
    ensures var t := TextOf(ts[1..]); t != [] ==> !In(Word, t[0])
  {
    var rest := ts[1..];
    if rest != [] {
      TextStep(rest);
      assert TextOf(rest)[0] == TokenText(rest[0])[0];
    }
  }

  /** What follows an operator token starts with a space. */
  lemma OperatorEnds(ts: seq<Token>)
    requires ValidTokens(ts) && ts != [] && ts[0].Operator?
    ensures var t := TextOf(ts[1..]); t != [] && t[0] == ' '
  {
  }

  /** Tokens after a gap start no operator that the pattern reads, unless one is there. */
  lemma AfterGap(ts: seq<Token>)
    requires ValidTokens([Gap] + ts) && (ts != [] && ts[0].Operator? ==> ReadOp(ts[0].op) == "")
    ensures Quiet(" " + TextOf(ts))
  {
    hide ValidTokens, TextOf, RunLen, OpLen;
    ValidStep([Gap] + ts);
    assert ([Gap] + ts)[1..] == ts;
    if ts == [] {
      NothingQuiet();
      NoText();
      assert " " + "" == " ";
    } else {
      ValidStep(ts);
      TextStep(ts);
      var t := TextOf(ts[1..]);
      match ts[0]
      case Mark(m) =>
        MarkIsNoOperator(m, t);
        GapStart(m + t);
      case Ident(w, _) =>
        WordEnds(ts);
        OtherWordIsNoOperator(w, t);
        GapStart(w + t);
      case Operator(op) =>
        OperatorEnds(ts);
        OperatorBeforeSpace(op, t);
        GapStart(op + t);
    }
  }

  lemma MarkQuiet(m: string, t: string)
    requires IsMark(m) && !In(Word, m[0])
    ensures Quiet(m + t)
  {
    hide OpLen;
    MarkIsNoOperator(m, t);
    assert (m + t)[0] == m[0] && (m + t)[0..] == m + t;
  }

  lemma AfterWord(ts: seq<Token>)
    requires ValidTokens(ts) && ts != [] && ts[0].Ident? && NextOp(ts[1..]) == ""
    ensures Quiet(TextOf(ts[1..]))
  {
    hide ValidTokens, TextOf, RunLen, OpLen, Quiet, ReadOp;
    ValidStep(ts);
    var rest := ts[1..];
    if rest == [] {
      NothingQuiet();
      NoText();
    } else {
      ValidStep(rest);
      TextStep(rest);
      if rest[0].Gap? {
        assert rest == [Gap] + rest[1..];
        AfterGap(rest[1..]);
      } else {
        MarkQuiet(rest[0].m, TextOf(rest[1..]));
      }
    }
  }

  /** A word operator that no word precedes is a word that leaks nothing. */
  lemma LoneWordOp(op: string)
    requires IsWordOp(op)
    ensures AllWord(op) && !EndsWithWord(op, "in") && !EndsWithWord(op, "between")
  {
    var w := if EqualFold(op, "between") then "between" else "in";
    forall i | 0 <= i < |op| ensures In(Word, op[i]) {
      assert 'a' <= w[i] <= 'z';
    }
    if EqualFold(op, "between") {
      assert op[5..][0] == op[5] && FoldChar(op[5]) == 'e';
    }
  }

  lemma ScanPastOperator(ts: seq<Token>)
    requires ValidTokens(ts) && ts != [] && ts[0].Operator?
    ensures Scan(TextOf(ts)) == Scan(TextOf(ts[1..]))
  {
    hide ValidTokens, TextOf, Scan, Quiet, IsWordOp, ReadOp, EndsWithWord;
    ValidStep(ts);
    TextStep(ts);
    var rest := ts[1..];
    if IsWordOp(ts[0].op) {
      TextStep(rest);
      assert rest == [Gap] + rest[1..];
      assert rest[1..] != [] ==> rest[1..][0] == rest[1];
      AfterGap(rest[1..]);
      LoneWordOp(ts[0].op);
      ScanPastSilentWord(ts[0].op, TextOf(rest));
    } else {
      ScanPastSymbols(ts[0].op, TextOf(rest));
    }
  }

  lemma ScanCompared(ts: seq<Token>)
    requires ValidTokens(ts) && ts != [] && ts[0].Ident? && NextOp(ts[1..]) != ""
    ensures |ts| > 2
    ensures Scan(TextOf(ts)) == At(|TextOf(ts)|, ReadHead(ts[0], ts[1..])) + Scan(TextOf(ts[3..]))
  {
    hide ValidTokens, TextOf, Scan, ReadOp, Leak, IsOperator;
    var rest := ts[1..];
    assert rest[1..] == ts[2..] && ts[2..][1..] == ts[3..];
    ValidStep(ts);
    ValidStep(rest);
    ValidStep(ts[2..]);
    TextStep(ts);
    TextStep(rest);
    TextStep(ts[2..]);
    OperatorEnds(ts[2..]);
    ScanComparison(ts[0].w, ts[2].op, TextOf(ts[3..]));
  }

  lemma ReadPast(ts: seq<Token>)
    requires ts != [] && !ts[0].Ident?
    ensures ReadTokens(ts) == ReadTokens(ts[1..])
  {
    hide TextOf, ReadWord, NextOp;
    assert At(|TextOf(ts)|, []) == [];
  }

  /** The scanner reads a list of tokens word by word. */
  lemma {:induction false} ScanTokens(ts: seq<Token>)
    requires ValidTokens(ts)
    ensures Scan(TextOf(ts)) == ReadTokens(ts)
    decreases |ts|
  {
    hide ValidTokens, TextOf, Scan, Quiet, ReadOp, Leak, NoLetters;
    if ts == [] {
      NoText();
      assert Scan("") == [] by { ScanNothing(); }
    } else {
      ValidStep(ts);
      TextStep(ts);
      var rest := ts[1..];
      ScanTokens(rest);
      match ts[0]
      case Ident(w, _) =>
        if NextOp(rest) == "" {
          AfterWord(ts);
          ScanPastWord(w, TextOf(rest));
        } else {
          ScanCompared(ts);
          ValidStep(rest);
          ValidStep(rest[1..]);
          assert rest[1..][1..] == ts[3..];
          ScanTokens(ts[3..]);
          ReadPast(rest);
          ReadPast(rest[1..]);
        }
      case Operator(_) => ScanPastOperator(ts);
      case Mark(m) => ScanPastSymbols(m, TextOf(rest));
      case Gap =>
        assert NoLetters(" ") by { SpaceIsNoLetter(); }
        ScanPastSymbols(" ", TextOf(rest));
    }
  }

  lemma ScanNothing()
    ensures Scan("") == []
  {
  }

  lemma SpaceIsNoLetter()
    ensures NoLetters(" ")
  {
  }

  // ---- Reading against comparing -----------------------------------------------------------

  /** The columns the condition compares, with their places. */
  function ComparedTokens(ts: seq<Token>): seq<Located> {
    if ts == [] then [] else At(|TextOf(ts)|, ComparedHead(ts[0])) + ComparedTokens(ts[1..])
  }

  function ComparedHead(x: Token): (r: seq<Comparison>)
    ensures |r| <= 1
  {
    if x.Ident? && x.cmp.Some? then [Comparison(x.w, x.cmp.value)] else []
  }

  /** A compared column stands right before its operator; any other word stands before none, and leaks nothing. */
  predicate PlainWord(w: string, cmp: Option<string>, next: string) {
    if cmp.Some? then next == cmp.value else next == "" && Leak(w) == []
  }

  predicate PlainTokens(ts: seq<Token>) {
    ts == [] || ((ts[0].Ident? ==> PlainWord(ts[0].w, ts[0].cmp, NextOp(ts[1..]))) && PlainTokens(ts[1..]))
  }

  lemma HeadsEqual(x: Token, rest: seq<Token>)
    requires ValidHead(x, rest)
    ensures ReadHead(x, rest) == ComparedHead(x) <==> (x.Ident? ==> PlainWord(x.w, x.cmp, NextOp(rest)))
  {
    hide NextOp, Leak;
    if x.Ident? && x.cmp.Some? {
      assert x.cmp.value != "";
      assert Leak(x.w) != [] ==> Leak(x.w)[0] in Leak(x.w);
      assert forall c: Comparison :: [c][0] == c;
    }
  }

  ghost predicate Within(ls: seq<Located>, left: int) {
    forall l :: l in ls ==> l.left <= left
  }

  lemma {:induction false} TokensWithin(ts: seq<Token>)
    ensures Within(ReadTokens(ts), |TextOf(ts)|) && Within(ComparedTokens(ts), |TextOf(ts)|)
  {
    hide ReadHead, ComparedHead;
    if ts != [] {
      TokensWithin(ts[1..]);
    }
  }

  /** Two lists that put at most one item at `left` and the others nearer the end are equal part by part. */
  lemma JoinsEqual(left: int, a: seq<Comparison>, b: seq<Comparison>, xs: seq<Located>, ys: seq<Located>)
    requires |a| <= 1 && |b| <= 1 && Within(xs, left - 1) && Within(ys, left - 1)
    ensures At(left, a) + xs == At(left, b) + ys <==> a == b && xs == ys
  {
    assert (xs != [] ==> xs[0] in xs) && (ys != [] ==> ys[0] in ys);
    var s, t := At(left, a) + xs, At(left, b) + ys;
    assert s != [] && s[0].left == left <==> |a| == 1;
    assert t != [] && t[0].left == left <==> |b| == 1;
    if s == t {
      assert At(left, a) == (At(left, a) + xs)[..|a|];
      assert xs == (At(left, a) + xs)[|a|..];
      assert |a| > 0 ==> At(left, a)[0] == At(left, b)[0];
    }
  }

  /** The scanner reads exactly the compared columns, each at its place, if and only if every word is plain. */
  lemma {:induction false} PlainTokensExact(ts: seq<Token>)
    requires ValidTokens(ts)
    ensures ReadTokens(ts) == ComparedTokens(ts) <==> PlainTokens(ts)
  {
    hide ReadHead, ComparedHead, PlainWord, TextOf, NextOp;
    if ts != [] {
      var x, rest := ts[0], ts[1..];
      PlainTokensExact(rest);
      TokensWithin(rest);
      HeadsEqual(x, rest);
      TextStep(ts);
      if x.Ident? {
        JoinsEqual(|TextOf(ts)|, ReadHead(x, rest), ComparedHead(x), ReadTokens(rest), ComparedTokens(rest));
      } else {
        NoWordNoRead(x, rest);
      }
    }
  }

  lemma NoWordNoRead(x: Token, rest: seq<Token>)
    requires !x.Ident?
    ensures ReadHead(x, rest) == [] && ComparedHead(x) == []
  {
  }

  /** Every compared column stands right before its operator. */
  predicate DirectTokens(ts: seq<Token>) {
    ts == [] || ((ts[0].Ident? && ts[0].cmp.Some? ==> NextOp(ts[1..]) == ts[0].cmp.value) && DirectTokens(ts[1..]))
  }

  lemma DirectHead(x: Token, rest: seq<Token>)
    requires ValidHead(x, rest) && (x.Ident? && x.cmp.Some? ==> NextOp(rest) == x.cmp.value)
    ensures |ReadHead(x, rest)| >= |ComparedHead(x)|
    ensures |ReadHead(x, rest)| == |ComparedHead(x)| <==> (x.Ident? ==> PlainWord(x.w, x.cmp, NextOp(rest)))
  {
    hide NextOp, Leak;
  }

  /** Then none is missed, and the number of comparisons tells whether every word is plain. */
  lemma {:induction false} DirectCount(ts: seq<Token>)
    requires ValidTokens(ts) && DirectTokens(ts)
    ensures |ReadTokens(ts)| >= |ComparedTokens(ts)|
    ensures |ReadTokens(ts)| == |ComparedTokens(ts)| <==> PlainTokens(ts)
  {
    hide ReadHead, ComparedHead, PlainWord, TextOf, NextOp;
    if ts != [] {
      DirectCount(ts[1..]);
      DirectHead(ts[0], ts[1..]);
      if !ts[0].Ident? {
        NoWordNoRead(ts[0], ts[1..]);
      }
    }
  }
}
