/** Normalized conditions as expressions, their text, and what the scanner reads back from it. */
module PrintedPredicate {
  import opened Options
  import opened Regex
  import opened ColumnScanner
  import opened ConditionTokens
  import FilterColumns

  /** One part of a name, in double quotes or not. */
  datatype Part = Part(w: string, quoted: bool)

  /** Expressions as EXPLAIN prints them. Parentheses are part of the expression. */
  datatype Expr =
    | Name(qual: Option<Part>, name: Part)            // a column, type, function or keyword
    | Value(text: string)                             // $1
    | Paren(e: Expr)                                  // (e)
    | Cast(e: Expr, ty: Expr)                         // e::ty
    | Call(f: Expr, square: bool, args: Option<Expr>) // f(args), f(), ARRAY[args]
    | Suffix(e: Expr, mark: string)                   // e[]
    | Comma(l: Expr, r: Expr)                         // l, r
    | Prefixed(word: string, e: Expr)                 // NOT e, ANY (e), double precision
    | Trailing(e: Expr, word: string)                 // e NOT, e END, IS NULL with two of them
    | Infix(l: Expr, op: string, r: Expr)             // any symbolic or word operator: =, ||, AND, IN, IS

  predicate ValidPart(p: Part) {
    IsIdent(p.w) && (!p.quoted ==> !IsWordOp(p.w))
  }

  predicate ValidWord(w: string) {
    IsIdent(w) && !IsWordOp(w)
  }

  predicate Valid(e: Expr) {
    match e
    case Name(qual, name) => (qual.Some? ==> ValidPart(qual.value)) && ValidPart(name)
    case Value(text) => IsMark(text)
    case Paren(e) => Valid(e)
    case Cast(e, ty) => Valid(e) && Valid(ty)
    case Call(f, _, args) => Valid(f) && (args.Some? ==> Valid(args.value))
    case Suffix(e, mark) => Valid(e) && IsMark(mark) && !In(Word, mark[0])
    case Comma(l, r) => Valid(l) && Valid(r)
    case Prefixed(word, e) => ValidWord(word) && Valid(e)
    case Trailing(e, word) => Valid(e) && ValidWord(word)
    case Infix(l, op, r) => Valid(l) && (IsOperator(op) || IsIdent(op)) && Valid(r)
  }

  function Open(square: bool): string {
    if square then "[" else "("
  }

  function Close(square: bool): string {
    if square then "]" else ")"
  }

  function PartText(p: Part): string {
    if p.quoted then "\"" + p.w + "\"" else p.w
  }

  function Print(e: Expr): string {
    match e
    case Name(qual, name) => (if qual.Some? then PartText(qual.value) + "." else "") + PartText(name)
    case Value(text) => text
    case Paren(e) => "(" + Print(e) + ")"
    case Cast(e, ty) => Print(e) + "::" + Print(ty)
    case Call(f, square, args) =>
      Print(f) + Open(square) + (if args.Some? then Print(args.value) else "") + Close(square)
    case Suffix(e, mark) => Print(e) + mark
    case Comma(l, r) => Print(l) + ", " + Print(r)
    case Prefixed(word, e) => word + " " + Print(e)
    case Trailing(e, word) => Print(e) + " " + word
    case Infix(l, op, r) => Print(l) + " " + op + " " + Print(r)
  }

  /** The operator of the pattern, if this is one. */
  function Compares(op: string): Option<string> {
    if IsOp(op) then Some(op) else None
  }

  function PartTokens(p: Part, cmp: Option<string>, rest: seq<Token>): (ts: seq<Token>)
    ensures ts != [] && !ts[0].Operator?
  {
    if p.quoted then [Mark("\"")] + ([Ident(p.w, cmp)] + ([Mark("\"")] + rest)) else [Ident(p.w, cmp)] + rest
  }

  function OpToken(op: string): Token {
    if IsOperator(op) then Operator(op) else Ident(op, None)
  }

  /** The tokens of `e`, which is compared by `cmp`, followed by `rest`. What an operator of the pattern compares
      is the column on its left, which may be in parentheses and cast. */
  function Tokens(e: Expr, cmp: Option<string>, rest: seq<Token>): (ts: seq<Token>)
    ensures ts != [] && !ts[0].Operator?
  {
    match e
    case Name(qual, name) =>
      var last := PartTokens(name, cmp, rest);
      if qual.Some? then PartTokens(qual.value, None, [Mark(".")] + last) else last
    case Value(text) => [Mark(text)] + rest
    case Paren(e) => [Mark("(")] + Tokens(e, cmp, [Mark(")")] + rest)
    case Cast(e, ty) => Tokens(e, cmp, [Mark("::")] + Tokens(ty, None, rest))
    case Call(f, square, args) =>
      var close := [Mark(Close(square))] + rest;
      Tokens(f, None, [Mark(Open(square))] + if args.Some? then Tokens(args.value, None, close) else close)
    case Suffix(e, mark) => Tokens(e, None, [Mark(mark)] + rest)
    case Comma(l, r) => Tokens(l, None, [Mark(",")] + ([Gap] + Tokens(r, None, rest)))
    case Prefixed(word, e) => [Ident(word, None)] + ([Gap] + Tokens(e, None, rest))
    case Trailing(e, word) => Tokens(e, None, [Gap] + ([Ident(word, None)] + rest))
    case Infix(l, op, r) => Tokens(l, Compares(op), [Gap] + ([OpToken(op)] + ([Gap] + Tokens(r, None, rest))))
  }

  /** The columns that operators of the pattern compare in `e`, from left to right. */
  function Compared(e: Expr, cmp: Option<string>): seq<Comparison> {
    match e
    case Name(_, name) => if cmp.Some? then [Comparison(name.w, cmp.value)] else []
    case Value(_) => []
    case Paren(e) => Compared(e, cmp)
    case Cast(e, ty) => Compared(e, cmp) + Compared(ty, None)
    case Call(f, _, args) => Compared(f, None) + if args.Some? then Compared(args.value, None) else []
    case Suffix(e, _) => Compared(e, None)
    case Comma(l, r) => Compared(l, None) + Compared(r, None)
    case Prefixed(_, e) => Compared(e, None)
    case Trailing(e, _) => Compared(e, None)
    case Infix(l, op, r) => Compared(l, Compares(op)) + Compared(r, None)
  }

  /** What the scanner takes the operator for, "" if it sees none. */
  function OpSeen(op: string): string {
    if IsOperator(op) then ReadOp(op) else ""
  }

  function ReadPart(p: Part, next: string): seq<Comparison> {
    ReadWord(p.w, if p.quoted then "" else next)
  }

  /** What the scanner reads in the text of `e` when it sees the operator `next` right after it. */
  function Read(e: Expr, next: string): seq<Comparison> {
    match e
    case Name(qual, name) => (if qual.Some? then ReadPart(qual.value, "") else []) + ReadPart(name, next)
    case Value(_) => []
    case Paren(e) => Read(e, "")
    case Cast(e, ty) => Read(e, "") + Read(ty, next)
    case Call(f, _, args) => Read(f, "") + if args.Some? then Read(args.value, "") else []
    case Suffix(e, _) => Read(e, "")
    case Comma(l, r) => Read(l, "") + Read(r, next)
    case Prefixed(word, e) => ReadWord(word, "") + Read(e, next)
    case Trailing(e, word) => Read(e, "") + ReadWord(word, next)
    case Infix(l, op, r) => Read(l, OpSeen(op)) + ((if IsOperator(op) then [] else ReadWord(op, "")) + Read(r, next))
  }

  predicate PlainPart(p: Part, cmp: Option<string>, next: string) {
    PlainWord(p.w, cmp, if p.quoted then "" else next)
  }

  /** Every compared column stands, unquoted and uncast, right before its operator; no other word stands before
      an operator or ends in "in" or "between" with something before it. */
  predicate Plain(e: Expr, cmp: Option<string>, next: string) {
    match e
    case Name(qual, name) => (qual.Some? ==> PlainPart(qual.value, None, "")) && PlainPart(name, cmp, next)
    case Value(_) => true
    case Paren(e) => Plain(e, cmp, "")
    case Cast(e, ty) => Plain(e, cmp, "") && Plain(ty, None, next)
    case Call(f, _, args) => Plain(f, None, "") && (args.Some? ==> Plain(args.value, None, ""))
    case Suffix(e, _) => Plain(e, None, "")
    case Comma(l, r) => Plain(l, None, "") && Plain(r, None, next)
    case Prefixed(word, e) => PlainWord(word, None, "") && Plain(e, None, next)
    case Trailing(e, word) => Plain(e, None, "") && PlainWord(word, None, next)
    case Infix(l, op, r) =>
      && Plain(l, Compares(op), OpSeen(op))
      && (!IsOperator(op) ==> PlainWord(op, None, "")) && Plain(r, None, next)
  }

  // ---- The printed tokens are well formed --------------------------------------------------

  predicate Follows(rest: seq<Token>) {
    ValidTokens(rest) && (rest != [] ==> rest[0].Gap? || (rest[0].Mark? && !In(Word, rest[0].m[0])))
  }

  /** Tokens that may stand after a gap. */
  predicate Starts(ts: seq<Token>) {
    ValidTokens(ts) && ts != [] && (ts[0].Mark? || (ts[0].Ident? && !IsWordOp(ts[0].w)))
  }

  lemma MarkFollows(m: string, rest: seq<Token>)
    requires (Starts(rest) || Follows(rest)) && IsMark(m)
    ensures Starts([Mark(m)] + rest)
    ensures !In(Word, m[0]) ==> Follows([Mark(m)] + rest)
  {
    assert ([Mark(m)] + rest)[1..] == rest;
  }

  lemma GapFollows(ts: seq<Token>)
    requires Starts(ts)
    ensures Follows([Gap] + ts)
  {
    assert ([Gap] + ts)[1..] == ts;
  }

  lemma WordStarts(w: string, cmp: Option<string>, rest: seq<Token>)
    requires IsIdent(w) && (cmp.Some? ==> IsOp(cmp.value)) && Follows(rest)
    ensures ValidTokens([Ident(w, cmp)] + rest) && (!IsWordOp(w) ==> Starts([Ident(w, cmp)] + rest))
  {
    assert ([Ident(w, cmp)] + rest)[1..] == rest;
  }

  lemma PunctuationMarks()
    ensures IsMark("\"") && IsMark(".") && IsMark("(") && IsMark(")") && IsMark("::") && IsMark(",")
    ensures IsMark("[") && IsMark("]")
  {
  }

  lemma PartStarts(p: Part, cmp: Option<string>, rest: seq<Token>)
    requires ValidPart(p) && (cmp.Some? ==> IsOp(cmp.value)) && Follows(rest)
    ensures Starts(PartTokens(p, cmp, rest))
  {
    hide IsIdent, IsMark, IsWordOp, IsOp;
    PunctuationMarks();
    if p.quoted {
      MarkFollows("\"", rest);
      WordStarts(p.w, cmp, [Mark("\"")] + rest);
      var inner := [Ident(p.w, cmp)] + ([Mark("\"")] + rest);
      assert ([Mark("\"")] + inner)[1..] == inner;
    } else {
      WordStarts(p.w, cmp, rest);
    }
  }

  lemma OpFollows(op: string, ts: seq<Token>)
    requires (IsOperator(op) || IsIdent(op)) && Starts(ts)
    ensures Follows([Gap] + ([OpToken(op)] + ([Gap] + ts)))
  {
    hide IsIdent, IsWordOp, IsMark;
    var rest := [Gap] + ts;
    GapFollows(ts);
    assert rest[1] == ts[0];
    var all := [OpToken(op)] + rest;
    assert all[1..] == rest && all[0] == OpToken(op);
    assert ValidHead(OpToken(op), rest);
    assert ValidTokens(all);
    assert ([Gap] + all)[1..] == all;
  }

  lemma {:induction false} PrintedTokens(e: Expr, cmp: Option<string>, rest: seq<Token>)
    requires Valid(e) && (cmp.Some? ==> IsOp(cmp.value)) && Follows(rest)
    ensures Starts(Tokens(e, cmp, rest))
  {
    hide ValidTokens, Follows, Starts, IsIdent, IsMark, IsWordOp, IsOp, ValidPart, PartTokens, IsOperator, OpToken;
    PunctuationMarks();
    match e
    case Name(qual, name) =>
      PartStarts(name, cmp, rest);
      if qual.Some? {
        MarkFollows(".", PartTokens(name, cmp, rest));
        PartStarts(qual.value, None, [Mark(".")] + PartTokens(name, cmp, rest));
      }
    case Value(text) => MarkFollows(text, rest);
    case Paren(e) =>
      MarkFollows(")", rest);
      PrintedTokens(e, cmp, [Mark(")")] + rest);
      MarkFollows("(", Tokens(e, cmp, [Mark(")")] + rest));
    case Cast(e, ty) =>
      PrintedTokens(ty, None, rest);
      MarkFollows("::", Tokens(ty, None, rest));
      PrintedTokens(e, cmp, [Mark("::")] + Tokens(ty, None, rest));
    case Call(f, square, args) =>
      var close := [Mark(Close(square))] + rest;
      MarkFollows(Close(square), rest);
      if args.Some? {
        PrintedTokens(args.value, None, close);
        MarkFollows(Open(square), Tokens(args.value, None, close));
        PrintedTokens(f, None, [Mark(Open(square))] + Tokens(args.value, None, close));
      } else {
        MarkFollows(Open(square), close);
        PrintedTokens(f, None, [Mark(Open(square))] + close);
      }
    case Suffix(e, mark) =>
      MarkFollows(mark, rest);
      PrintedTokens(e, None, [Mark(mark)] + rest);
    case Comma(l, r) =>
      PrintedTokens(r, None, rest);
      GapFollows(Tokens(r, None, rest));
      MarkFollows(",", [Gap] + Tokens(r, None, rest));
      PrintedTokens(l, None, [Mark(",")] + ([Gap] + Tokens(r, None, rest)));
    case Prefixed(word, e) =>
      PrintedTokens(e, None, rest);
      GapFollows(Tokens(e, None, rest));
      WordStarts(word, None, [Gap] + Tokens(e, None, rest));
    case Trailing(e, word) =>
      WordStarts(word, None, rest);
      GapFollows([Ident(word, None)] + rest);
      PrintedTokens(e, None, [Gap] + ([Ident(word, None)] + rest));
    case Infix(l, op, r) =>
      PrintedTokens(r, None, rest);
      OpFollows(op, Tokens(r, None, rest));
      PrintedTokens(l, Compares(op), [Gap] + ([OpToken(op)] + ([Gap] + Tokens(r, None, rest))));
  }

  // ---- The tokens are those of the text ----------------------------------------------------

  lemma TextCons(x: Token, rest: seq<Token>)
    ensures TextOf([x] + rest) == TokenText(x) + TextOf(rest)
  {
    assert ([x] + rest)[1..] == rest;
  }

  lemma PartTokensText(p: Part, cmp: Option<string>, rest: seq<Token>)
    ensures TextOf(PartTokens(p, cmp, rest)) == PartText(p) + TextOf(rest)
  {
    hide TextOf;
    var close := [Mark("\"")] + rest;
    TextCons(Mark("\""), rest);
    TextCons(Ident(p.w, cmp), close);
    TextCons(Mark("\""), [Ident(p.w, cmp)] + close);
    TextCons(Ident(p.w, cmp), rest);
  }

  lemma Assoc(a: string, b: string, t: string)
    ensures a + (b + t) == (a + b) + t
  {
  }

  lemma Assoc3(a: string, b: string, c: string, t: string)
    ensures a + (b + (c + t)) == (a + b + c) + t
  {
  }

  lemma Assoc4(a: string, b: string, c: string, d: string, t: string)
    ensures a + (b + (c + (d + t))) == (a + b + c + d) + t
  {
  }

  lemma CommaText(l: string, r: string, t: string)
    ensures l + ("," + (" " + (r + t))) == (l + ", " + r) + t
  {
    assert "," + (" " + (r + t)) == ", " + (r + t);
  }

  lemma {:induction false} TokensText(e: Expr, cmp: Option<string>, rest: seq<Token>)
    ensures TextOf(Tokens(e, cmp, rest)) == Print(e) + TextOf(rest)
  {
    hide TextOf, PartTokens, PartText, OpToken;
    var t := TextOf(rest);
    match e
    case Name(qual, name) =>
      PartTokensText(name, cmp, rest);
      if qual.Some? {
        TextCons(Mark("."), PartTokens(name, cmp, rest));
        PartTokensText(qual.value, None, [Mark(".")] + PartTokens(name, cmp, rest));
        Assoc3(PartText(qual.value), ".", PartText(name), t);
      }
    case Value(text) => TextCons(Mark(text), rest);
    case Paren(e) =>
      TextCons(Mark(")"), rest);
      TokensText(e, cmp, [Mark(")")] + rest);
      TextCons(Mark("("), Tokens(e, cmp, [Mark(")")] + rest));
      Assoc3("(", Print(e), ")", t);
    case Cast(e, ty) =>
      TokensText(ty, None, rest);
      TextCons(Mark("::"), Tokens(ty, None, rest));
      TokensText(e, cmp, [Mark("::")] + Tokens(ty, None, rest));
      Assoc3(Print(e), "::", Print(ty), t);
    case Call(f, square, args) =>
      var close := [Mark(Close(square))] + rest;
      TextCons(Mark(Close(square)), rest);
      if args.Some? {
        TokensText(args.value, None, close);
        TextCons(Mark(Open(square)), Tokens(args.value, None, close));
        TokensText(f, None, [Mark(Open(square))] + Tokens(args.value, None, close));
        Assoc4(Print(f), Open(square), Print(args.value), Close(square), t);
      } else {
        TextCons(Mark(Open(square)), close);
        TokensText(f, None, [Mark(Open(square))] + close);
        Assoc4(Print(f), Open(square), "", Close(square), t);
        assert "" + (Close(square) + t) == Close(square) + t;
      }
    case Suffix(e, mark) =>
      TextCons(Mark(mark), rest);
      TokensText(e, None, [Mark(mark)] + rest);
      Assoc(Print(e), mark, t);
    case Comma(l, r) =>
      var right := Tokens(r, None, rest);
      TokensText(r, None, rest);
      TextCons(Gap, right);
      TextCons(Mark(","), [Gap] + right);
      TokensText(l, None, [Mark(",")] + ([Gap] + right));
      CommaText(Print(l), Print(r), t);
    case Prefixed(word, e) =>
      TokensText(e, None, rest);
      TextCons(Gap, Tokens(e, None, rest));
      TextCons(Ident(word, None), [Gap] + Tokens(e, None, rest));
      Assoc3(word, " ", Print(e), t);
    case Trailing(e, word) =>
      TextCons(Ident(word, None), rest);
      TextCons(Gap, [Ident(word, None)] + rest);
      TokensText(e, None, [Gap] + ([Ident(word, None)] + rest));
      Assoc3(Print(e), " ", word, t);
    case Infix(l, op, r) =>
      var right := Tokens(r, None, rest);
      TokensText(r, None, rest);
      TextCons(Gap, right);
      TextCons(OpToken(op), [Gap] + right);
      TextCons(Gap, [OpToken(op)] + ([Gap] + right));
      TokensText(l, Compares(op), [Gap] + ([OpToken(op)] + ([Gap] + right)));
      OpTokenText(op);
      InfixText(Print(l), op, Print(r), t);
  }

  lemma OpTokenText(op: string)
    ensures TokenText(OpToken(op)) == op
  {
  }

  lemma InfixText(l: string, op: string, r: string, t: string)
    ensures l + (" " + (op + (" " + (r + t)))) == (l + " " + op + " " + r) + t
  {
  }

  // ---- Token by token, the functions on expressions are those on tokens --------------------

  function Reads(ts: seq<Token>): seq<Comparison> {
    Unlocated(ReadTokens(ts))
  }

  function Compareds(ts: seq<Token>): seq<Comparison> {
    Unlocated(ComparedTokens(ts))
  }

  /** What the first token adds. */
  lemma TokenStep(x: Token, rest: seq<Token>)
    ensures Reads([x] + rest) == (if x.Ident? then ReadWord(x.w, NextOp(rest)) else []) + Reads(rest)
    ensures Compareds([x] + rest) == ComparedHead(x) + Compareds(rest)
    ensures PlainTokens([x] + rest) <==> (x.Ident? ==> PlainWord(x.w, x.cmp, NextOp(rest))) && PlainTokens(rest)
  {
    hide TextOf, ReadWord, NextOp, PlainWord, ComparedHead, Unlocated, At;
    var ts := [x] + rest;
    assert ts[1..] == rest && ts[0] == x;
    UnlocatedJoin(|TextOf(ts)|, ReadHead(x, rest), ReadTokens(rest));
    UnlocatedJoin(|TextOf(ts)|, ComparedHead(x), ComparedTokens(rest));
  }

  lemma UnlocatedJoin(left: int, cs: seq<Comparison>, ls: seq<Located>)
    ensures Unlocated(At(left, cs) + ls) == cs + Unlocated(ls)
  {
  }

  lemma NoOpNext(x: Token, rest: seq<Token>)
    ensures !x.Gap? || (rest != [] && !rest[0].Operator?) ==> NextOp([x] + rest) == ""
  {
  }

  lemma OpNext(op: string, rest: seq<Token>)
    ensures NextOp([Gap] + ([OpToken(op)] + rest)) == OpSeen(op)
  {
  }

  /** What the scanner reads, what is compared, and whether all words are plain. */
  datatype Meaning = Meaning(read: seq<Comparison>, compared: seq<Comparison>, plain: bool)

  const SILENT := Meaning([], [], true)

  function Then(a: Meaning, b: Meaning): Meaning {
    Meaning(a.read + b.read, a.compared + b.compared, a.plain && b.plain)
  }

  function MeaningOf(e: Expr, cmp: Option<string>, next: string): Meaning {
    Meaning(Read(e, next), Compared(e, cmp), Plain(e, cmp, next))
  }

  function WordMeaning(w: string, next: string): Meaning {
    Meaning(ReadWord(w, next), [], PlainWord(w, None, next))
  }

  function OpMeaning(op: string): Meaning {
    if IsOperator(op) then SILENT else WordMeaning(op, "")
  }

  /** The tokens `ts` are tokens that mean `m`, followed by `rest`. */
  ghost predicate Stands(ts: seq<Token>, m: Meaning, rest: seq<Token>) {
    && Reads(ts) == m.read + Reads(rest)
    && Compareds(ts) == m.compared + Compareds(rest)
    && (PlainTokens(ts) <==> m.plain && PlainTokens(rest))
  }

  lemma Joins(ts: seq<Token>, a: Meaning, mid: seq<Token>, b: Meaning, rest: seq<Token>)
    requires Stands(ts, a, mid) && Stands(mid, b, rest)
    ensures Stands(ts, Then(a, b), rest)
    ensures a == SILENT ==> Stands(ts, b, rest)
    ensures b == SILENT ==> Stands(ts, a, rest)
  {
    hide Reads, Compareds, PlainTokens;
    assert SILENT.read + b.read == b.read && a.read + SILENT.read == a.read;
    assert SILENT.compared + b.compared == b.compared && a.compared + SILENT.compared == a.compared;
  }

  lemma MarkStands(m: string, rest: seq<Token>)
    ensures Stands([Mark(m)] + rest, SILENT, rest) && NextOp([Mark(m)] + rest) == ""
  {
    hide NextOp;
    TokenStep(Mark(m), rest);
    NoOpNext(Mark(m), rest);
  }

  lemma GapStands(rest: seq<Token>)
    ensures Stands([Gap] + rest, SILENT, rest)
    ensures rest != [] && !rest[0].Operator? ==> NextOp([Gap] + rest) == ""
  {
    hide NextOp;
    TokenStep(Gap, rest);
    NoOpNext(Gap, rest);
  }

  lemma WordStands(w: string, rest: seq<Token>)
    ensures Stands([Ident(w, None)] + rest, WordMeaning(w, NextOp(rest)), rest)
  {
    hide NextOp, Reads, Compareds, PlainTokens, ReadWord, PlainWord;
    TokenStep(Ident(w, None), rest);
  }

  lemma PartStands(p: Part, cmp: Option<string>, rest: seq<Token>)
    ensures Stands(PartTokens(p, cmp, rest), MeaningOf(Name(None, p), cmp, NextOp(rest)), rest)
  {
    hide NextOp, Reads, Compareds, PlainTokens, ReadWord, PlainWord;
    var m := MeaningOf(Name(None, p), cmp, NextOp(rest));
    assert m == Meaning(ReadPart(p, NextOp(rest)), if cmp.Some? then [Comparison(p.w, cmp.value)] else [],
                        PlainPart(p, cmp, NextOp(rest)));
    if p.quoted {
      var close := [Mark("\"")] + rest;
      var word := [Ident(p.w, cmp)] + close;
      MarkStands("\"", rest);
      TokenStep(Ident(p.w, cmp), close);
      assert Stands(word, m, close);
      MarkStands("\"", word);
      Joins([Mark("\"")] + word, SILENT, word, m, close);
      Joins([Mark("\"")] + word, m, close, SILENT, rest);
    } else {
      TokenStep(Ident(p.w, cmp), rest);
    }
  }

  lemma OpStands(op: string, ts: seq<Token>)
    requires ts != [] && !ts[0].Operator?
    ensures var all := [Gap] + ([OpToken(op)] + ([Gap] + ts));
            Stands(all, OpMeaning(op), ts) && NextOp(all) == OpSeen(op)
  {
    hide NextOp, Stands, IsOperator, ReadWord, PlainWord;
    var more := [Gap] + ts;
    var word := [OpToken(op)] + more;
    GapStands(ts);
    assert Stands(word, OpMeaning(op), more) by { OpTokenStands(op, more); }
    GapStands(word);
    OpNext(op, more);
    Joins([Gap] + word, SILENT, word, OpMeaning(op), more);
    Joins([Gap] + word, OpMeaning(op), more, SILENT, ts);
  }

  lemma OpTokenStands(op: string, rest: seq<Token>)
    requires NextOp(rest) == ""
    ensures Stands([OpToken(op)] + rest, OpMeaning(op), rest)
  {
    hide NextOp, Reads, Compareds, PlainTokens, ReadWord, PlainWord, IsOperator;
    TokenStep(OpToken(op), rest);
  }

  /** Before a mark, `e` is followed by no operator. */
  lemma BeforeMark(e: Expr, cmp: Option<string>, mark: string, m: Meaning, rest: seq<Token>, end: seq<Token>)
    requires var more := [Mark(mark)] + rest;
             Stands(Tokens(e, cmp, more), MeaningOf(e, cmp, NextOp(more)), more) && Stands(rest, m, end)
    ensures Stands(Tokens(e, cmp, [Mark(mark)] + rest), Then(MeaningOf(e, cmp, ""), m), end)
    ensures m == SILENT ==> Stands(Tokens(e, cmp, [Mark(mark)] + rest), MeaningOf(e, cmp, ""), end)
  {
    hide Tokens, Stands, MeaningOf, NextOp;
    var more := [Mark(mark)] + rest;
    MarkStands(mark, rest);
    Joins(Tokens(e, cmp, more), MeaningOf(e, cmp, ""), more, SILENT, rest);
    Joins(Tokens(e, cmp, more), MeaningOf(e, cmp, ""), rest, m, end);
  }

  lemma NothingStands(ts: seq<Token>)
    ensures Stands(ts, SILENT, ts)
  {
  }

  lemma AfterMark(mark: string, ts: seq<Token>, m: Meaning, rest: seq<Token>)
    requires Stands(ts, m, rest)
    ensures Stands([Mark(mark)] + ts, m, rest)
  {
    hide Stands, NextOp;
    MarkStands(mark, ts);
    Joins([Mark(mark)] + ts, SILENT, ts, m, rest);
  }

  lemma AfterSpace(ts: seq<Token>, m: Meaning, rest: seq<Token>)
    requires Stands(ts, m, rest)
    ensures Stands([Gap] + ts, m, rest)
  {
    hide Stands, NextOp;
    GapStands(ts);
    Joins([Gap] + ts, SILENT, ts, m, rest);
  }

  /** The printed tokens mean what the functions on expressions say. */
  lemma {:induction false} TokensStand(e: Expr, cmp: Option<string>, rest: seq<Token>)
    ensures Stands(Tokens(e, cmp, rest), MeaningOf(e, cmp, NextOp(rest)), rest)
  {
    hide NextOp, Stands, ReadWord, PlainWord, IsOperator, PartTokens, ReadPart, PlainPart, OpToken;
    NothingStands(rest);
    match e
    case Name(qual, name) =>
      PartStands(name, cmp, rest);
      if qual.Some? {
        var last := PartTokens(name, cmp, rest);
        var m := MeaningOf(Name(None, name), cmp, NextOp(rest));
        var more := [Mark(".")] + last;
        var q := MeaningOf(Name(None, qual.value), None, "");
        AfterMark(".", last, m, rest);
        MarkStands(".", last);
        PartStands(qual.value, None, more);
        Joins(PartTokens(qual.value, None, more), q, more, m, rest);
        QualifiedMeaning(qual.value, name, cmp, NextOp(rest));
      }
    case Value(text) => MarkStands(text, rest);
    case Paren(e) =>
      TokensStand(e, cmp, [Mark(")")] + rest);
      BeforeMark(e, cmp, ")", SILENT, rest, rest);
      AfterMark("(", Tokens(e, cmp, [Mark(")")] + rest), MeaningOf(e, cmp, ""), rest);
    case Cast(e, ty) =>
      var more := Tokens(ty, None, rest);
      TokensStand(ty, None, rest);
      TokensStand(e, cmp, [Mark("::")] + more);
      BeforeMark(e, cmp, "::", MeaningOf(ty, None, NextOp(rest)), more, rest);
    case Call(f, square, args) =>
      var close := [Mark(Close(square))] + rest;
      MarkStands(Close(square), rest);
      if args.Some? {
        TokensStand(args.value, None, close);
        BeforeMark(args.value, None, Close(square), SILENT, rest, rest);
        TokensStand(f, None, [Mark(Open(square))] + Tokens(args.value, None, close));
        BeforeMark(f, None, Open(square), MeaningOf(args.value, None, ""), Tokens(args.value, None, close), rest);
      } else {
        TokensStand(f, None, [Mark(Open(square))] + close);
        BeforeMark(f, None, Open(square), SILENT, close, rest);
        assert Read(f, "") + [] == Read(f, "") && Compared(f, None) + [] == Compared(f, None);
      }
    case Suffix(e, mark) =>
      TokensStand(e, None, [Mark(mark)] + rest);
      BeforeMark(e, None, mark, SILENT, rest, rest);
    case Comma(l, r) =>
      var right := Tokens(r, None, rest);
      var m := MeaningOf(r, None, NextOp(rest));
      TokensStand(r, None, rest);
      AfterSpace(right, m, rest);
      TokensStand(l, None, [Mark(",")] + ([Gap] + right));
      BeforeMark(l, None, ",", m, [Gap] + right, rest);
    case Prefixed(word, e) =>
      var more := [Gap] + Tokens(e, None, rest);
      var m := MeaningOf(e, None, NextOp(rest));
      TokensStand(e, None, rest);
      AfterSpace(Tokens(e, None, rest), m, rest);
      GapStands(Tokens(e, None, rest));
      WordStands(word, more);
      Joins([Ident(word, None)] + more, WordMeaning(word, ""), more, m, rest);
      assert [] + Compared(e, None) == Compared(e, None);
    case Trailing(e, word) =>
      var last := [Ident(word, None)] + rest;
      var m := WordMeaning(word, NextOp(rest));
      WordStands(word, rest);
      AfterSpace(last, m, rest);
      GapStands(last);
      TokensStand(e, None, [Gap] + last);
      Joins(Tokens(e, None, [Gap] + last), MeaningOf(e, None, ""), [Gap] + last, m, rest);
      assert Compared(e, None) + [] == Compared(e, None);
    case Infix(l, op, r) =>
      var right := Tokens(r, None, rest);
      var all := [Gap] + ([OpToken(op)] + ([Gap] + right));
      var m, o := MeaningOf(r, None, NextOp(rest)), OpMeaning(op);
      TokensStand(r, None, rest);
      OpStands(op, right);
      Joins(all, o, right, m, rest);
      TokensStand(l, Compares(op), all);
      Joins(Tokens(l, Compares(op), all), MeaningOf(l, Compares(op), OpSeen(op)), all, Then(o, m), rest);
      assert [] + Compared(r, None) == Compared(r, None);
  }

  lemma QualifiedMeaning(q: Part, name: Part, cmp: Option<string>, next: string)
    ensures MeaningOf(Name(Some(q), name), cmp, next) ==
            Then(MeaningOf(Name(None, q), None, ""), MeaningOf(Name(None, name), cmp, next))
  {
  }

  // ---- Round trip --------------------------------------------------------------------------

  /** The columns compared in `e`, each with its place in the text. */
  function LocatedCompared(e: Expr): seq<Located> {
    ComparedTokens(Tokens(e, None, []))
  }

  lemma NoTokens()
    ensures Reads([]) == [] && Compareds([]) == [] && PlainTokens([]) && NextOp([]) == "" && Follows([])
    ensures TextOf([]) == ""
  {
  }

  /** The text of a condition is the text of well-formed tokens that mean what the condition means. */
  lemma PrintedMeaning(e: Expr) returns (ts: seq<Token>)
    requires Valid(e)
    ensures ts == Tokens(e, None, []) && TextOf(ts) == Print(e) && ValidTokens(ts)
    ensures Reads(ts) == Read(e, "") && Compareds(ts) == Compared(e, None)
    ensures PlainTokens(ts) <==> Plain(e, None, "")
  {
    hide ValidTokens, TextOf, Tokens, Reads, Compareds, PlainTokens, NextOp, Print, Read, Compared, Plain;
    ts := Tokens(e, None, []);
    NoTokens();
    PrintedTokens(e, None, []);
    TokensText(e, None, []);
    TokensStand(e, None, []);
  }

  /** The scanner reads from a printed condition what `Read` says, word by word. */
  lemma ScanPrinted(e: Expr)
    requires Valid(e)
    ensures Comparisons(Print(e)) == Read(e, "")
    ensures Unlocated(LocatedCompared(e)) == Compared(e, None)
  {
    hide Valid, ValidTokens, TextOf, Tokens, Scan, ReadTokens, ComparedTokens, PlainTokens, Comparisons, Read, Print;
    var ts := PrintedMeaning(e);
    ScanTokens(ts);
    ComparisonsAreScan(Print(e));
  }

  /** Round trip: the scanner reads back exactly the comparisons of the condition, each at its place, if and
      only if the condition is plain. */
  lemma PrintScanRoundTrip(e: Expr)
    requires Valid(e)
    ensures LocatedComparisons(Print(e)) == LocatedCompared(e) <==> Plain(e, None, "")
    ensures Plain(e, None, "") ==> Comparisons(Print(e)) == Compared(e, None)
  {
    hide Valid, ValidTokens, TextOf, Tokens, Scan, ReadTokens, ComparedTokens, PlainTokens, Comparisons;
    hide LocatedComparisons, Read, Plain, Print;
    var ts := PrintedMeaning(e);
    ScanTokens(ts);
    ComparisonsAreScan(Print(e));
    PlainTokensExact(ts);
  }

  /** Where every compared column stands right before its operator, the texts read back decide as well. */
  lemma PrintScanTexts(e: Expr)
    requires Valid(e) && DirectTokens(Tokens(e, None, []))
    ensures Comparisons(Print(e)) == Compared(e, None) <==> Plain(e, None, "")
  {
    hide Valid, ValidTokens, TextOf, Tokens, ReadTokens, ComparedTokens, PlainTokens, Comparisons, Read, Plain, Print;
    var ts := PrintedMeaning(e);
    ScanPrinted(e);
    PrintScanRoundTrip(e);
    DirectCount(ts);
  }

  /** So the columns filterColumns takes from a plain condition are the condition's own, equality before range. */
  lemma PrintedColumns(e: Expr)
    requires Valid(e) && Plain(e, None, "")
    ensures FilterColumns.IsColumnOrder(Compared(e, None), FilterColumns.ColumnsOf(Comparisons(Print(e))))
  {
    PrintScanRoundTrip(e);
    FilterColumns.ColumnsOfIsOrder(Compared(e, None));
  }

  // ---- Conditions that are not plain -------------------------------------------------------

  function Column(w: string): Expr {
    Name(None, Part(w, false))
  }

  function Qualified(qual: Option<Part>, col: string): Expr {
    Name(qual, Part(col, false))
  }

  /** What the words of a qualified column leak. */
  function NameLeak(qual: Option<Part>, col: string): seq<Comparison> {
    (if qual.Some? then Leak(qual.value.w) else []) + Leak(col)
  }

  lemma OpIsOperator(op: string)
    requires IsOp(op)
    ensures IsOperator(op) && op != ""
  {
    hide EqualFold;
    assert EqualFold(op, "between") ==> |op| == 7 by { FoldedLength(op, "between"); }
    assert EqualFold(op, "in") ==> |op| == 2 by { FoldedLength(op, "in"); }
  }

  lemma FoldedLength(op: string, w: string)
    ensures EqualFold(op, w) ==> |op| == |w|
  {
  }

  lemma OpReads(op: string)
    requires IsOp(op)
    ensures IsOperator(op) && OpSeen(op) == op && op != ""
  {
    hide OpLen, IsOperator, WordOpLen;
    OpIsOperator(op);
    if IsWordOp(op) {
      WordOpBeforeSpace(op, "");
      assert op + "" == op;
    } else {
      hide IsWordOp;
      SymbolLen(op);
      NoWordOp(op);
    }
  }

  /** A column in parentheses: read is what its words leak, and no operator is seen to compare it. */
  lemma ParenColumn(qual: Option<Part>, col: string, op: string)
    requires op != ""
    ensures var c := Paren(Qualified(qual, col));
            Read(c, "") == NameLeak(qual, col) && Compared(c, Some(op)) == [Comparison(col, op)]
            && !Plain(c, Some(op), "")
  {
    hide Leak;
    var n := Qualified(qual, col);
    assert Read(n, "") == NameLeak(qual, col) && !Plain(n, Some(op), "");
    assert Compared(n, Some(op)) == [Comparison(col, op)];
  }

  lemma CastMeaning(e: Expr, ty: Expr, cmp: Option<string>, next: string)
    ensures MeaningOf(Cast(e, ty), cmp, next) == Then(MeaningOf(e, cmp, ""), MeaningOf(ty, None, next))
  {
  }

  lemma ComparisonMeaning(l: Expr, op: string, r: Expr)
    requires IsOp(op)
    ensures MeaningOf(Infix(l, op, r), None, "") == Then(MeaningOf(l, Some(op), op), MeaningOf(r, None, ""))
  {
    hide IsOp, IsOperator, OpSeen;
    OpReads(op);
    assert [] + Read(r, "") == Read(r, "");
  }

  /** What the scanner reads from `(qual.col)::ty op r`. */
  lemma CastRead(qual: Option<Part>, col: string, ty: Expr, op: string, r: Expr)
    requires IsOp(op)
    ensures var e := Infix(Cast(Paren(Qualified(qual, col)), ty), op, r);
            && Read(e, "") == NameLeak(qual, col) + (Read(ty, op) + Read(r, "")) && !Plain(e, None, "")
            && Compared(e, None) == ([Comparison(col, op)] + Compared(ty, None)) + Compared(r, None)
  {
    hide IsOp, IsOperator, OpSeen, NameLeak, Read, Compared, Plain, Qualified;
    OpIsOperator(op);
    var c := Paren(Qualified(qual, col));
    var leak := NameLeak(qual, col);
    ParenColumn(qual, col, op);
    CastMeaning(c, ty, Some(op), op);
    ComparisonMeaning(Cast(c, ty), op, r);
    assert (leak + Read(ty, op)) + Read(r, "") == leak + (Read(ty, op) + Read(r, ""));
  }

  /** A column, qualified or not, that is cast before it is compared is never read: the type is, if it ends in a
      word. */
  lemma CastColumn(qual: Option<Part>, col: string, ty: Expr, op: string, r: Expr)
    requires (qual.Some? ==> ValidPart(qual.value)) && ValidWord(col) && Valid(ty) && IsOp(op) && Valid(r)
    ensures var e := Infix(Cast(Paren(Qualified(qual, col)), ty), op, r);
            && Comparisons(Print(e)) == NameLeak(qual, col) + (Read(ty, op) + Read(r, ""))
            && LocatedComparisons(Print(e)) != LocatedCompared(e)
  {
    hide Print, LocatedComparisons, LocatedCompared, Comparisons, NameLeak, IsOp, IsOperator, Read, Plain, Compared;
    var e := Infix(Cast(Paren(Qualified(qual, col)), ty), op, r);
    assert Valid(Qualified(qual, col)) && Valid(Paren(Qualified(qual, col)));
    assert Valid(e) by { OpReads(op); }
    CastRead(qual, col, ty, op, r);
    ScanPrinted(e);
    PrintScanRoundTrip(e);
  }

  lemma OneAfter(x: Comparison, y: Comparison, leak: seq<Comparison>)
    ensures leak + [x] == [y] <==> leak == [] && x == y
  {
    assert [x][0] == x && [y][0] == y;
    assert leak + [x] == [y] ==> |leak| == 0;
  }

  /** When the type is a single word, it is read as the column: the right column only if it has that name. */
  lemma CastColumnExact(qual: Option<Part>, col: string, ty: string, op: string, placeholder: string)
    requires (qual.Some? ==> ValidPart(qual.value)) && ValidWord(col) && ValidWord(ty)
    requires IsOp(op) && IsMark(placeholder)
    ensures var e := Infix(Cast(Paren(Qualified(qual, col)), Column(ty)), op, Value(placeholder));
            && Comparisons(Print(e)) == NameLeak(qual, col) + [Comparison(ty, op)]
            && (Comparisons(Print(e)) == Compared(e, None) <==> ty == col && NameLeak(qual, col) == [])
  {
    hide Print, Comparisons, NameLeak, IsOp, LocatedComparisons, LocatedCompared, IsMark, IsIdent, IsWordOp;
    var r := Value(placeholder);
    assert Valid(r) && Valid(Column(ty));
    CastColumn(qual, col, Column(ty), op, r);
    CastRead(qual, col, Column(ty), op, r);
    OpReads(op);
    assert Read(Column(ty), op) == [Comparison(ty, op)];
    assert Compared(Column(ty), None) == Compared(r, None) == Read(r, "") == [];
    OneAfter(Comparison(ty, op), Comparison(col, op), NameLeak(qual, col));
  }

  lemma ExampleWords()
    ensures ValidWord("status") && ValidWord("text") && ValidWord("id") && IsMark("$1")
    ensures Leak("status") == [] && Leak("id") == []
    ensures ValidPart(Part("t", false)) && Leak("t") == []
  {
    hide IsWordOp, Leak;
    NoFinalN("t");
    NoFinalN("status");
    NoFinalN("text");
    NoFinalN("id");
  }

  /** "admin" and "login" end in "in". */
  lemma LeakingWords()
    ensures ValidWord("admin") && Leak("admin") == [Comparison("adm", "in")]
    ensures ValidWord("login") && Leak("login") == [Comparison("log", "in")]
  {
    assert "admin"[..3] == "adm" && "admin"[3..] == "in" && "login"[..3] == "log" && "login"[3..] == "in";
  }

  lemma EqualsIsOp()
    ensures IsOp("=")
  {
  }

  /** `(t.status)::text = $1` reads as a comparison of a column `text`. */
  lemma StatusReadsAsText()
    ensures Comparisons("(t.status)::text = $1") == [Comparison("text", "=")]
  {
    hide Comparisons, Leak, IsOp, IsMark, ValidWord, Read, LocatedComparisons, LocatedCompared;
    ExampleWords();
    assert IsOp("=") by { EqualsIsOp(); }
    var q := Some(Part("t", false));
    var e := Infix(Cast(Paren(Qualified(q, "status")), Column("text")), "=", Value("$1"));
    CastColumnExact(q, "status", "text", "=", "$1");
    assert Print(Paren(Qualified(q, "status"))) == "(t.status)";
    assert Print(e) == "(t.status)::text = $1";
    assert NameLeak(q, "status") == [];
  }

  /** `(admin)` reads as a comparison of a column `adm`. */
  lemma AdminReadsAsAdm()
    ensures Comparisons("(admin)") == [Comparison("adm", "in")]
  {
    hide Comparisons, Leak, IsMark, IsIdent, IsWordOp;
    LeakingWords();
    var e := Paren(Column("admin"));
    assert Print(e) == "(admin)";
    assert Read(Column("admin"), "") == [] + Leak("admin");
    assert Valid(Column("admin"));
    ScanPrinted(e);
  }

  /** `login.id = $1` also reads as a comparison of a column `log`. */
  lemma LoginQualifierLeaks()
    ensures Comparisons("login.id = $1") == [Comparison("log", "in"), Comparison("id", "=")]
  {
    hide Comparisons, Leak, IsMark, IsIdent, IsWordOp, IsOperator, OpSeen;
    ExampleWords();
    LeakingWords();
    OpReads("=");
    var n := Name(Some(Part("login", false)), Part("id", false));
    var e := Infix(n, "=", Value("$1"));
    assert Print(n) == "login.id";
    assert Print(e) == "login.id = $1";
    assert Read(n, "=") == Leak("login") + [Comparison("id", "=")];
    assert Valid(n);
    ScanPrinted(e);
  }

  lemma AndIsWord()
    ensures IsIdent("AND") && !IsOperator("AND") && Leak("AND") == []
  {
    NoFinalN("AND");
  }

  lemma AndMeaning(l: Expr, r: Expr)
    ensures var e := Infix(l, "AND", r);
            && Print(e) == Print(l) + " AND " + Print(r) && (Valid(e) <==> Valid(l) && Valid(r))
            && Read(e, "") == Read(l, "") + Read(r, "")
  {
    hide IsOperator, Leak, IsIdent;
    AndIsWord();
    assert [] + Read(r, "") == Read(r, "");
    AndText(Print(l), Print(r));
  }

  lemma AndText(l: string, r: string)
    ensures l + " " + "AND" + " " + r == l + " AND " + r
  {
    assert l + " " + "AND" + " " == l + " AND ";
  }

  /** One comparison of a column with a placeholder. */
  lemma ComparisonReads(col: string, op: string, placeholder: string)
    requires ValidWord(col) && IsOp(op) && IsMark(placeholder)
    ensures var e := Infix(Column(col), op, Value(placeholder));
            Valid(e) && Read(e, "") == [Comparison(col, op)] && Print(e) == col + " " + op + " " + placeholder
  {
    hide IsOp, IsOperator, OpSeen, IsMark, IsIdent, IsWordOp;
    OpReads(op);
    assert Read(Column(col), op) == [Comparison(col, op)];
    assert Print(Column(col)) == col by { assert "" + col == col; }
  }

  lemma BetweenWords()
    ensures IsOp("Between") && IsOp("=") && ValidWord("a") && ValidWord("b")
    ensures IsMark("$1") && IsMark("$2") && IsMark("$3")
  {
    NoFinalN("a");
    NoFinalN("b");
  }

  lemma PlaceholderReads(placeholder: string)
    ensures var v := Value(placeholder);
            Print(v) == placeholder && Read(v, "") == [] && (Valid(v) <==> IsMark(placeholder))
  {
  }

  lemma BetweenText()
    ensures "a" + " " + "Between" + " " + "$1" == "a Between $1" && "b" + " " + "=" + " " + "$3" == "b = $3"
    ensures "a Between $1" + " AND " + "$2" == "a Between $1 AND $2"
    ensures "a Between $1 AND $2" + " AND " + "b = $3" == "a Between $1 AND $2 AND b = $3"
  {
  }

  lemma BetweenReads()
    ensures Comparisons("a Between $1 AND $2 AND b = $3") == [Comparison("a", "Between"), Comparison("b", "=")]
  {
    hide Comparisons, IsOp, IsMark, ValidWord, Read, Print, Valid, Column;
    BetweenWords();
    var low, high := Infix(Column("a"), "Between", Value("$1")), Value("$2");
    var r := Infix(Column("b"), "=", Value("$3"));
    ComparisonReads("a", "Between", "$1");
    ComparisonReads("b", "=", "$3");
    PlaceholderReads("$2");
    AndMeaning(low, high);
    AndMeaning(Infix(low, "AND", high), r);
    BetweenText();
    var a, b := Comparison("a", "Between"), Comparison("b", "=");
    assert [a] + [] == [a] && [a] + [b] == [a, b];
    ScanPrinted(Infix(Infix(low, "AND", high), "AND", r));
  }

  /** A range column and an equality column: the mixed-case "Between" passes for an equality and stays first. */
  lemma BetweenLeads()
    ensures var ms := Comparisons("a Between $1 AND $2 AND b = $3");
            && FilterColumns.ColumnsOf(ms) == ["a", "b"]
            && FilterColumns.ColumnsOf(FilterColumns.AsMeant(ms)) == ["b", "a"]
  {
    hide Comparisons, FilterColumns.ColumnsOf;
    BetweenReads();
    var a, b := Comparison("a", "Between"), Comparison("b", "=");
    FilterColumns.TwoColumns(a, b);
    FilterColumns.TwoColumns(FilterColumns.Meant(a), b);
    assert FilterColumns.AsMeant([a, b]) == [FilterColumns.Meant(a), b];
  }
}
