/** What the pattern of internal/advisor/index.go reads, with the characters written out. */
module ScannerText {
  import opened Options
  import opened Regex
  import opened ColumnScanner
  import opened ConditionTokens

  /** A letter, an underscore. */
  predicate StartsName(c: char) {
    'a' <= c <= 'z' || 'A' <= c <= 'Z' || c == '_'
  }

  /** A letter, an underscore, a digit. */
  predicate ContinuesName(c: char) {
    'a' <= c <= 'z' || 'A' <= c <= 'Z' || c == '_' || '0' <= c <= '9'
  }

  predicate IsName(w: string) {
    w != [] && StartsName(w[0]) && forall i :: 0 <= i < |w| ==> ContinuesName(w[i])
  }

  /** Space, tab, line feed, carriage return, form feed, and no other character. */
  predicate IsBlank(ws: string) {
    forall i :: 0 <= i < |ws| ==> ws[i] == ' ' || ws[i] == '\t' || ws[i] == '\n' || ws[i] == '\r' || ws[i] == '\U{0C}'
  }

  predicate NoName(t: string) {
    forall i :: 0 <= i < |t| ==> !StartsName(t[i])
  }

  /** "in" or "between", each letter in either case. */
  predicate SpellsWordOp(op: string) {
    || (|op| == 2 && op[0] in "iI" && op[1] in "nN")
    || (|op| == 7 && op[0] in "bB" && op[1] in "eE" && op[2] in "tT" && op[3] in "wW" && op[4] in "eE"
        && op[5] in "eE" && op[6] in "nN")
  }

  predicate NextIs(t: string, chars: string) {
    t != [] && t[0] in chars
  }

  lemma Classes(c: char)
    ensures StartsName(c) <==> In(Letter, c)
    ensures ContinuesName(c) <==> In(Word, c)
    ensures c == ' ' || c == '\t' || c == '\n' || c == '\r' || c == '\U{0C}' <==> In(Space, c)
  {
  }

  lemma Names(w: string)
    ensures IsName(w) ==> IsIdent(w) && AllWord(w)
    ensures NoName(w) <==> NoLetters(w)
  {
  }

  lemma WordOps(op: string)
    ensures SpellsWordOp(op) <==> IsWordOp(op)
  {
    Spelling(op, "in", ["iI", "nN"]);
    Spelling(op, "between", ["bB", "eE", "tT", "wW", "eE", "eE", "nN"]);
  }

  /** Folding, letter by letter. */
  lemma Spelling(op: string, word: string, cases: seq<string>)
    requires |word| == |cases| && forall i :: 0 <= i < |word| ==> 'a' <= word[i] <= 'z'
    requires forall i :: 0 <= i < |word| ==> cases[i] == [word[i], (word[i] as int - 32) as char]
    ensures EqualFold(op, word) <==> |op| == |word| && forall i :: 0 <= i < |op| ==> op[i] in cases[i]
  {
  }

  /** An operator of the pattern, and no longer one, in front of `rest`. */
  predicate SpellsOp(op: string, rest: string) {
    || op in ["=", "<>", "!=", "<=", ">=", "~~"]
    || (op == "<" && !NextIs(rest, "=>"))
    || (op == ">" && !NextIs(rest, "="))
    || (SpellsWordOp(op) && (rest != [] ==> !ContinuesName(rest[0])))
  }

  lemma OpSpelled(op: string, rest: string)
    requires SpellsOp(op, rest)
    ensures OpLen(op + rest) == |op| > 0 && !In(Space, op[0])
    ensures In(Word, op[0]) ==> SpellsWordOp(op)
  {
    hide OpLen;
    var u := op + rest;
    if SpellsWordOp(op) {
      WordOps(op);
      WordOpStarts(op, rest);
    } else {
      assert u[0] == op[0] && (|op| > 1 ==> u[1] == op[1]) && (|op| == 1 && rest != [] ==> u[1] == rest[0]);
      SymbolLen(u);
    }
  }

  lemma WordOpStarts(op: string, rest: string)
    requires IsWordOp(op) && SpellsWordOp(op) && (rest != [] ==> !ContinuesName(rest[0]))
    ensures OpLen(op + rest) == |op|
  {
    hide OpLen;
    var u := op + rest;
    assert u[0] == op[0] && u[..|op|] == op && (rest != [] ==> u[|op|] == rest[0]);
    SymbolLen(u);
    assert rest != [] ==> !In(Word, rest[0]) by {
      if rest != [] {
        Classes(rest[0]);
      }
    }
    if |op| == 2 {
      assert |u| >= 7 ==> u[..7][0] == u[0];
    }
  }

  lemma BlankRun(ws: string, t: string)
    requires IsBlank(ws) && (t != [] ==> !In(Space, t[0]))
    ensures RunLen(Space, ws + t) == |ws| && (ws + t)[|ws|..] == t
    ensures ws != [] ==> (ws + t)[0] == ws[0] && In(Space, ws[0]) && !In(Word, ws[0])
  {
  }

  /** A word, white space or none, and a text that starts with an operator. */
  lemma HitBefore(w: string, ws: string, op: string, r: string)
    requires IsIdent(w) && IsBlank(ws) && op != [] && OpLen(op + r) == |op| && !In(Space, op[0])
    requires ws == [] ==> !In(Word, op[0])
    ensures var u := w + (ws + (op + r)); var n := |w| + |ws| + |op|;
            HitAt(u) == Some(Hit(Comparison(w, op), n)) && u[n..] == r
  {
    hide OpLen, EndsWithWord, RunLen;
    var v := ws + (op + r);
    assert (op + r)[0] == op[0];
    BlankRun(ws, op + r);
    assert v[0] == if ws == [] then op[0] else ws[0];
    WordRun(w, v);
    var u := w + v;
    assert u[0] == w[0];
    assert u[|w| + |ws|..] == op + r;
    assert u[|w| + |ws|..|w| + |ws| + |op|] == op;
    assert u[|w| + |ws| + |op|..] == r;
  }

  lemma ScanNoName(t: string)
    requires NoName(t)
    ensures Scan(t) == []
  {
    Names(t);
    ScanPastSymbols(t, []);
    assert t + [] == t;
    ScanNothing();
  }

  /** Any name, any white space, any operator: they are read as one comparison, and text without names adds none. */
  lemma ColumnReads(before: string, w: string, ws: string, op: string, rest: string)
    requires NoName(before) && IsName(w) && IsBlank(ws) && SpellsOp(op, rest) && NoName(rest)
    requires SpellsWordOp(op) ==> ws != ""
    ensures Comparisons(before + (w + (ws + (op + rest)))) == [Comparison(w, op)]
  {
    hide OpLen, RunLen, HitAt, SpellsOp, SpellsWordOp;
    var u := w + (ws + (op + rest));
    Names(w);
    Names(before);
    OpSpelled(op, rest);
    HitBefore(w, ws, op, rest);
    ScanNoName(rest);
    assert Scan(u) == [Located(|u|, Comparison(w, op))];
    ScanPastSymbols(before, u);
    ComparisonsAreScan(before + u);
  }

  lemma OtherIsQuiet(ws: string, c: char, rest: string)
    requires IsBlank(ws) && !StartsName(c) && (ws == "" ==> !ContinuesName(c)) && !IsBlank([c]) && c !in "=<>!~"
    ensures Quiet(ws + ([c] + rest)) && (NoName(rest) ==> NoName(ws + ([c] + rest)))
  {
    hide OpLen, RunLen;
    var t := [c] + rest;
    Classes(c);
    assert [c][0] == c && t[0] == c;
    BlankRun(ws, t);
    SymbolLen(t);
    NoWordOp(t);
  }

  /** In front of any other character a name that does not end in n is not read. */
  lemma OtherCharacter(w: string, ws: string, c: char, rest: string)
    requires IsName(w) && w[|w| - 1] !in "nN" && IsBlank(ws) && NoName(rest)
    requires !StartsName(c) && (ws == "" ==> !ContinuesName(c)) && !IsBlank([c]) && c !in "=<>!~"
    ensures Comparisons(w + (ws + ([c] + rest))) == []
  {
    hide OpLen, RunLen, HitAt, Scan, Leak, Comparisons, Quiet;
    var t := ws + ([c] + rest);
    Names(w);
    NoFinalN(w);
    OtherIsQuiet(ws, c, rest);
    ScanPastWord(w, t);
    ScanNoName(t);
    ComparisonsAreScan(w + t);
  }

  lemma LeakSpelled(w: string, op: string)
    requires w != [] && SpellsWordOp(op)
    ensures Leak(w + op) == [Comparison(w, op)]
  {
    WordOps(op);
    var all := w + op;
    assert all[..|w|] == w && all[|w|..] == op;
    assert |op| == 7 ==> all[|all| - 2] == op[5] && FoldChar(op[5]) == 'e';
    assert |op| == 7 ==> all[|all| - 2..][0] == all[|all| - 2];
  }

  /** A name that goes on with "in" or "between", and no operator after it: these letters are read as the operator. */
  lemma NameLeaks(w: string, op: string, rest: string)
    requires IsName(w) && SpellsWordOp(op) && (rest != [] ==> rest[0] == ')') && NoName(rest)
    ensures Comparisons(w + op + rest) == [Comparison(w, op)]
  {
    hide OpLen, RunLen, HitAt, Scan, Leak, Comparisons, Quiet, SpellsWordOp;
    assert IsName(w + op) by { WordOpIsName(w, op); }
    Names(w + op);
    LeakSpelled(w, op);
    assert Quiet(rest) by { CloseQuiet(rest); }
    ScanPastWord(w + op, rest);
    ScanNoName(rest);
    ComparisonsAreScan(w + op + rest);
  }

  lemma WordOpIsName(w: string, op: string)
    requires IsName(w) && SpellsWordOp(op)
    ensures IsName(w + op)
  {
    forall i | 0 <= i < |op| ensures ContinuesName(op[i]) {
    }
  }

  lemma CloseQuiet(rest: string)
    requires rest != [] ==> rest[0] == ')'
    ensures Quiet(rest)
  {
    if rest == [] {
      NothingQuiet();
    } else {
      SymbolLen(rest);
      NoWordOp(rest);
      assert rest[0..] == rest;
    }
  }
}
