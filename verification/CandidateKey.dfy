/** The string key under which internal/advisor/index.go groups candidates. */
module CandidateKey {
  import opened ColumnScanner

  function Join(cols: seq<string>): string {
    if cols == [] then "" else if |cols| == 1 then cols[0] else cols[0] + "," + Join(cols[1..])
  }

  function Key(rel: string, cols: seq<string>): string {
    rel + "\0" + Join(cols)
  }

  /** The text before the first NUL; all of it when there is none. */
  function UpToNul(s: string): string {
    if s == [] || s[0] == '\0' then [] else [s[0]] + UpToNul(s[1..])
  }

  predicate NulFree(s: string) {
    '\0' !in s
  }

  predicate Idents(cols: seq<string>) {
    forall k :: 0 <= k < |cols| ==> IsIdent(cols[k])
  }

  lemma IdentChars(w: string)
    requires IsIdent(w)
    ensures '\0' !in w && ',' !in w
  {
  }

  lemma {:induction false} JoinNulFree(cols: seq<string>)
    requires Idents(cols)
    ensures NulFree(Join(cols))
  {
    if cols != [] {
      IdentChars(cols[0]);
      JoinNulFree(cols[1..]);
    }
  }

  /** Two texts split at their last NUL are equal part by part. */
  lemma SplitAtNul(a: string, b: string, x: string, y: string)
    requires a + "\0" + x == b + "\0" + y && NulFree(x) && NulFree(y)
    ensures a == b && x == y
  {
    var l, r := a + "\0" + x, b + "\0" + y;
    assert l[|a|] == '\0' && r[|b|] == '\0';
    assert l[..|a|] == a && r[..|b|] == b && l[|a| + 1..] == x && r[|b| + 1..] == y;
  }

  /** Two texts split at their first comma are equal part by part. */
  lemma SplitAtComma(a: string, b: string, x: string, y: string)
    requires a + "," + x == b + "," + y && ',' !in a && ',' !in b
    ensures a == b && x == y
  {
    var l, r := a + "," + x, b + "," + y;
    assert l[|a|] == ',' && r[|b|] == ',';
    assert l[..|a|] == a && r[..|b|] == b && l[|a| + 1..] == x && r[|b| + 1..] == y;
  }

  lemma {:induction false} JoinInjective(xs: seq<string>, ys: seq<string>)
    requires xs != [] && ys != [] && Idents(xs) && Idents(ys) && Join(xs) == Join(ys)
    ensures xs == ys
  {
    IdentChars(xs[0]);
    IdentChars(ys[0]);
    if |xs| > 1 && |ys| > 1 {
      SplitAtComma(xs[0], ys[0], Join(xs[1..]), Join(ys[1..]));
      JoinInjective(xs[1..], ys[1..]);
      assert xs == [xs[0]] + xs[1..] && ys == [ys[0]] + ys[1..];
    }
  }

  /** The key never merges two candidates, whatever the relation names. */
  lemma {:induction false} KeyInjective(rel: string, cols: seq<string>, rel': string, cols': seq<string>)
    requires cols != [] && cols' != [] && Idents(cols) && Idents(cols')
    requires Key(rel, cols) == Key(rel', cols')
    ensures rel == rel' && cols == cols'
  {
    JoinNulFree(cols);
    JoinNulFree(cols');
    SplitAtNul(rel, rel', Join(cols), Join(cols'));
    JoinInjective(cols, cols');
  }

  lemma {:induction false} UpToNulOf(rel: string, rest: string)
    ensures UpToNul(rel + "\0" + rest) == UpToNul(rel)
  {
    var s := rel + "\0" + rest;
    if rel != [] && rel[0] != '\0' {
      assert s[1..] == rel[1..] + "\0" + rest;
      UpToNulOf(rel[1..], rest);
    }
  }

  lemma {:induction false} UpToNulExact(rel: string)
    ensures UpToNul(rel) == rel <==> NulFree(rel)
    ensures |UpToNul(rel)| <= |rel|
  {
    if rel != [] {
      UpToNulExact(rel[1..]);
      assert rel == [rel[0]] + rel[1..];
    }
  }

  /** Cutting the key at its first NUL gives the relation back exactly when the relation has no NUL. */
  lemma KeyDecodesExactly(rel: string, cols: seq<string>)
    ensures UpToNul(Key(rel, cols)) == rel <==> NulFree(rel)
  {
    UpToNulOf(rel, Join(cols));
    UpToNulExact(rel);
  }

  /** The text before the first NUL. */
  lemma {:induction false} UpToNulCuts(s: string, rest: string)
    requires NulFree(s)
    ensures UpToNul(s) == s && UpToNul(s + "\0" + rest) == s
  {
    UpToNulOf(s, rest);
    UpToNulExact(s);
  }
}
