/** What the tokens of SQL text are, said of its bytes, and that the splitter cuts the text into exactly these
    and ends statements where it should (tools/sqldelim.c). */
module SqlTokens {
  import opened Prelude
  import opened Splitter

  // ---------------------------------------------------------------------------------------------
  // Tokens
  // ---------------------------------------------------------------------------------------------

  function Ascii(text: string): (s: Str)
    requires forall i :: 0 <= i < |text| ==> text[i] < 128 as char
    ensures |s| == |text| && forall i :: 0 <= i < |s| ==> s[i] == text[i] as int
  {
    seq(|text|, i requires 0 <= i < |text| => text[i] as int)
  }

  predicate Digit(b: Byte) { '0' as int <= b <= '9' as int }

  /** Letters, digits, hyphen, underscore, everything outside ASCII, and one control character. */
  predicate IdByte(b: Byte) {
    || 'a' as int <= b <= 'z' as int || 'A' as int <= b <= 'Z' as int || Digit(b)
    || b == '-' as int || b == '_' as int || b >= 0x80 || b == 5
  }

  /** Space, tab, newline, vertical tab and form feed, but not the carriage return. */
  predicate BlankByte(b: Byte) { b == ' ' as int || 9 <= b <= 12 }

  /** Punctuation that stands for itself. */
  predicate Single(b: Byte) {
    || b == '-' as int || b == '(' as int || b == ')' as int || b == '*' as int || b == '=' as int || b == '<' as int
    || b == '>' as int || b == '!' as int || b == '?' as int || b == ',' as int || b == '.' as int
  }

  /** All bytes behind the first are of a class, and the next one is not. */
  ghost predicate Run(t: Str, rest: Str, class_: Byte -> bool) {
    (forall i :: 1 <= i < |t| ==> class_(t[i])) && (rest != [] ==> !class_(rest[0]))
  }

  /** The text ends with its first delimiter, or has none and nothing behind it. */
  ghost predicate Delimited(t: Str, rest: Str, delim: Byte) {
    || (|t| >= 2 && t[|t| - 1] == delim && forall i :: 1 <= i < |t| - 1 ==> t[i] != delim)
    || (rest == [] && forall i :: 1 <= i < |t| ==> t[i] != delim)
  }

  /** t is the first token of t + rest. */
  ghost predicate IsToken(t: Str, rest: Str) {
    && t != []
    && var b := t[0];
       if b == ' ' as int || b == 9 || b == 10 || b == 12 then Run(t, rest, BlankByte)
       else if b == '\'' as int || b == '`' as int then Delimited(t, rest, b)
       else if b == '[' as int then Delimited(t, rest, ']' as int)
       else if Digit(b) then Run(t, rest, Digit)
       else if IdByte(b) && b != '-' as int then Run(t, rest, IdByte)
       else |t| == 1
  }

  lemma {:induction false} BehindIs(z: Str, i: nat, delim: Byte)
    requires i <= |z|
    ensures var e := Behind(z, i, delim);
      && (forall j :: i <= j < e - 1 ==> z[j] != delim)
      && (e < |z| ==> e > i && z[e - 1] == delim)
      && (e > i && z[e - 1] != delim ==> e == |z|)
    decreases |z| - i
  {
    if i < |z| && z[i] != delim {
      BehindIs(z, i + 1, delim);
    }
  }

  lemma ClassesAre(b: Byte)
    ensures Continues(Blanks, b) <==> BlankByte(b)
    ensures Continues(Number, b) <==> Digit(b)
    ensures Continues(Word, b) <==> IdByte(b)
  {
  }

  lemma KindsAre(b: Byte)
    ensures KindOf(b) == Blanks <==> b == ' ' as int || b == 9 || b == 10 || b == 12
    ensures KindOf(b) == Quoted <==> b == '\'' as int || b == '`' as int
    ensures KindOf(b) == Bracketed <==> b == '[' as int
    ensures KindOf(b) == Number <==> Digit(b)
    ensures KindOf(b) == Word <==> IdByte(b) && b != '-' as int && !Digit(b)
    ensures KindOf(b) == Semicolon <==> b == ';' as int
    ensures KindOf(b) == Mark <==> Single(b)
  {
  }

  lemma SpanRun(z: Str, kind: Kind, class_: Byte -> bool, n: nat)
    requires 1 <= n <= |z| && forall b: Byte :: Continues(kind, b) <==> class_(b)
    ensures n == Span(z, 1, kind) <==> Run(z[..n], z[n..], class_)
  {
    SpanBytes(z, 1, kind);
    if Run(z[..n], z[n..], class_) {
      assert forall i :: 1 <= i < n ==> class_(z[..n][i]);
      SpanAll(z, 1, n, kind);
    }
  }

  lemma BehindDelimited(z: Str, delim: Byte, n: nat)
    requires 1 <= n <= |z|
    ensures n == Behind(z, 1, delim) <==> Delimited(z[..n], z[n..], delim)
  {
    BehindIs(z, 1, delim);
    var e := Behind(z, 1, delim);
    assert z[..n][n - 1] == z[n - 1];
    if Delimited(z[..n], z[n..], delim) {
      assert forall i :: 1 <= i < n - 1 ==> z[..n][i] == z[i] != delim;
      assert !(n < e);
      assert !(n > e);
    }
  }

  /** The splitter's tokens are these and no others. */
  lemma TokenIs(z: Str, n: nat)
    requires 1 <= n <= |z|
    ensures n == TokenLength(z) <==> IsToken(z[..n], z[n..])
  {
    KindsAre(z[0]);
    forall b: Byte
      ensures Continues(Blanks, b) <==> BlankByte(b)
      ensures Continues(Number, b) <==> Digit(b)
      ensures Continues(Word, b) <==> IdByte(b)
    {
      ClassesAre(b);
    }
    match KindOf(z[0]) {
      case Blanks => SpanRun(z, Blanks, BlankByte, n);
      case Number => SpanRun(z, Number, Digit, n);
      case Word => SpanRun(z, Word, IdByte, n);
      case Quoted => BehindDelimited(z, z[0], n);
      case Bracketed => BehindDelimited(z, ']' as int, n);
      case _ =>
    }
  }

  // ---------------------------------------------------------------------------------------------
  // Quoted text
  // ---------------------------------------------------------------------------------------------

  predicate Free(s: Str, b: Byte) { forall i :: 0 <= i < |s| ==> s[i] != b }

  /** The delimiter that ends quoted or bracketed text. */
  predicate Opens(q: Byte, close: Byte) {
    (q == '\'' as int && close == q) || (q == '`' as int && close == q) || (q == '[' as int && close == ']' as int)
  }

  lemma QuotedToken(q: Byte, close: Byte, body: Str, rest: Str)
    requires Opens(q, close) && Free(body, close)
    ensures TokenLength([q] + body + [close] + rest) == |body| + 2 && TokenLength([q] + body) == |body| + 1
  {
    var z, n := [q] + body + [close] + rest, |body| + 2;
    assert z[..n] == [q] + body + [close] && z[n..] == rest;
    assert forall i :: 1 <= i < n - 1 ==> z[..n][i] == body[i - 1];
    TokenIs(z, n);
    var y := [q] + body;
    assert y[..|y|] == y && y[|y|..] == [];
    TokenIs(y, |y|);
  }

  /** Nothing in quoted or bracketed text is dropped, a semicolon least of all, and none of it ends a statement;
      text whose delimiter never comes reaches to the end. */
  lemma QuotedKept(fn: Str -> int, q: Byte, close: Byte, body: Str, rest: Str, pending: Str, cont: bool)
    requires Opens(q, close) && Free(body, close)
    ensures var quoted := [q] + body + [close];
      && Strip(quoted + rest) == quoted + Strip(rest)
      && Split(fn, quoted + rest, pending, cont) == Split(fn, rest, pending + quoted, true)
    ensures Strip([q] + body) == [q] + body
    ensures Split(fn, [q] + body, pending, cont) == Outcome(0, [], pending + ([q] + body), true)
  {
    var quoted := [q] + body + [close];
    var z, y := quoted + rest, [q] + body;
    QuotedToken(q, close, body, rest);
    KindsAre(q);
    assert z[..|quoted|] == quoted && z[|quoted|..] == rest && z[0] == q;
    assert y[..|y|] == y && y[|y|..] == [] && y + [] == y && y[0] == q;
    assert Next(z, pending, cont) == Step(false, pending + quoted, rest, true);
    assert Next(y, pending, cont) == Step(false, pending + y, [], true);
  }

  // ---------------------------------------------------------------------------------------------
  // Where statements end
  // ---------------------------------------------------------------------------------------------

  /** The seven words, in any case. */
  lemma KeywordsAre(s: Str)
    ensures var u := Upper(s);
      IsKeyword(s) <==>
        || u == Ascii("ALTER") || u == Ascii("CREATE") || u == Ascii("DELETE") || u == Ascii("DROP")
        || u == Ascii("INSERT") || u == Ascii("SELECT") || u == Ascii("UPDATE")
  {
    assert KEYWORDS[0] == Ascii("ALTER") && KEYWORDS[1] == Ascii("CREATE");
    assert KEYWORDS[2] == Ascii("DELETE") && KEYWORDS[3] == Ascii("DROP");
    assert KEYWORDS[4] == Ascii("INSERT") && KEYWORDS[5] == Ascii("SELECT") && KEYWORDS[6] == Ascii("UPDATE");
  }

  /** A byte that begins nothing in SQL. */
  predicate Foreign(b: Byte) {
    && !BlankByte(b) && !Single(b) && !IdByte(b) && b != '\'' as int && b != '`' as int && b != '[' as int && b != ';' as int
  }

  /** One token: a semicolon ends the statement and is dropped, a byte foreign to SQL ends it and stays, a
      keyword ends it and begins the next, unless it stands first or the chunk before ended with a word; all
      else is gathered. */
  lemma StatementEnds(fn: Str -> int, t: Str, rest: Str, pending: Str, cont: bool)
    requires IsToken(t, rest)
    ensures Split(fn, t + rest, pending, cont) ==
      if t[0] == ';' as int then Conclude(fn, pending, Split(fn, rest, [], false))
      else if Foreign(t[0]) || t[0] == 11 then Conclude(fn, pending + t, Split(fn, rest, [], false))
      else if cont && IsKeyword(t) then Conclude(fn, pending, Split(fn, t + rest, [], false))
      else Split(fn, rest, pending + t, !(IdByte(t[0]) && t[0] != '-' as int && !Digit(t[0])) || rest != [])
  {
    var z := t + rest;
    assert z[..|t|] == t && z[|t|..] == rest && z[0] == t[0];
    TokenIs(z, |t|);
    KindsAre(t[0]);
    if IsKeyword(t) {
      KeywordLetters(t);
    }
  }
}
