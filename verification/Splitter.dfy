/** Splitting a stream of SQL text into statements (tools/sqldelim.c). */
module Splitter {
  import opened Prelude

  // ---------------------------------------------------------------------------------------------
  // Tokens
  // ---------------------------------------------------------------------------------------------

  /** What the first byte of a token says about it. */
  datatype Kind = Semicolon | Blanks | Mark | Quoted | Number | Bracketed | Word | Other

  /** isIdChar. */
  predicate IsIdChar(b: Byte) {
    b == 5 || b == 45 || 48 <= b <= 57 || 65 <= b <= 90 || b == 95 || 97 <= b <= 122 || b >= 128
  }

  function KindOf(b: Byte): Kind {
    if b == 59 then Semicolon
    else if b in [32, 9, 10, 12] then Blanks
    else if b in [45, 40, 41, 42, 61, 60, 62, 33, 63, 44, 46] then Mark
    else if b == 96 || b == 39 then Quoted
    else if 48 <= b <= 57 then Number
    else if b == 91 then Bracketed
    else if IsIdChar(b) then Word
    else Other
  }

  /** isspace without the carriage return, isdigit, or isIdChar. */
  predicate Continues(kind: Kind, b: Byte) {
    match kind
    case Blanks => b == 32 || 9 <= b <= 12
    case Number => 48 <= b <= 57
    case Word => IsIdChar(b)
    case _ => false
  }

  /** The first place from i on whose byte does not continue the token. */
  function Span(z: Str, i: nat, kind: Kind): (e: nat)
    requires i <= |z|
    ensures i <= e <= |z|
    decreases |z| - i
  {
    if i < |z| && Continues(kind, z[i]) then Span(z, i + 1, kind) else i
  }

  /** The place behind the first delimiter from i on, or the end. */
  function Behind(z: Str, i: nat, delim: Byte): (e: nat)
    requires i <= |z|
    ensures i <= e <= |z|
    decreases |z| - i
  {
    if i == |z| then i else if z[i] == delim then i + 1 else Behind(z, i + 1, delim)
  }

  function TokenLength(z: Str): (n: nat)
    requires z != []
    ensures 1 <= n <= |z|
  {
    match KindOf(z[0])
    case Blanks => Span(z, 1, Blanks)
    case Number => Span(z, 1, Number)
    case Word => Span(z, 1, Word)
    case Quoted => Behind(z, 1, z[0])
    case Bracketed => Behind(z, 1, 93)
    case _ => 1
  }

  const KEYWORDS: seq<Str> := [
    [65, 76, 84, 69, 82], [67, 82, 69, 65, 84, 69], [68, 69, 76, 69, 84, 69], [68, 82, 79, 80],
    [73, 78, 83, 69, 82, 84], [83, 69, 76, 69, 67, 84], [85, 80, 68, 65, 84, 69]]

  function Upper(s: Str): (u: Str)
    ensures |u| == |s|
  {
    if s == [] then [] else [if 97 <= s[0] <= 122 then s[0] - 32 else s[0]] + Upper(s[1..])
  }

  /** sqlite_find_keyword: ALTER, CREATE, DELETE, DROP, INSERT, SELECT or UPDATE in any case. */
  predicate IsKeyword(token: Str) { Upper(token) in KEYWORDS }

  /** The text is cut into tokens; a semicolon is one of its own. */
  function Tokens(z: Str): (tokens: seq<Str>) {
    if z == [] then [] else [z[..TokenLength(z)]] + Tokens(z[TokenLength(z)..])
  }

  function Flatten(pieces: seq<Str>): Str {
    if pieces == [] then [] else pieces[0] + Flatten(pieces[1..])
  }

  const SEMICOLON: Str := [59]

  /** The text without the semicolons between tokens. */
  function Strip(z: Str): Str {
    if z == [] then []
    else
      var n := TokenLength(z);
      (if z[0] == 59 then [] else z[..n]) + Strip(z[n..])
  }

  /** Tokens cut the text without a gap, and are never empty. */
  lemma {:induction false} TokensPartition(z: Str)
    ensures Flatten(Tokens(z)) == z
    ensures forall k :: 0 <= k < |Tokens(z)| ==> Tokens(z)[k] != []
  {
    if z != [] {
      var n := TokenLength(z);
      TokensPartition(z[n..]);
      assert z == z[..n] + z[n..];
    }
  }

  function WithoutSemicolons(tokens: seq<Str>): seq<Str> {
    if tokens == [] then []
    else (if tokens[0] == SEMICOLON then [] else [tokens[0]]) + WithoutSemicolons(tokens[1..])
  }

  /** What is stripped is exactly the tokens that are a semicolon. */
  lemma {:induction false} StripDropsTokens(z: Str)
    ensures Strip(z) == Flatten(WithoutSemicolons(Tokens(z)))
  {
    if z != [] {
      var n := TokenLength(z);
      StripDropsTokens(z[n..]);
      assert Tokens(z)[1..] == Tokens(z[n..]);
      assert z[..n] == SEMICOLON <==> z[0] == 59;
      if z[0] != 59 {
        assert WithoutSemicolons(Tokens(z)) == [z[..n]] + WithoutSemicolons(Tokens(z[n..]));
        assert WithoutSemicolons(Tokens(z))[1..] == WithoutSemicolons(Tokens(z[n..]));
      } else {
        assert WithoutSemicolons(Tokens(z)) == WithoutSemicolons(Tokens(z[n..]));
      }
    }
  }

  // ---------------------------------------------------------------------------------------------
  // Statements
  // ---------------------------------------------------------------------------------------------

  /** The outcome of a call: what it returns, the statements handed to the callback, and the state kept
      for the next call. */
  datatype Outcome = Outcome(ret: int, emitted: seq<Str>, pending: Str, cont: bool)

  /** A statement is handed out, unless it is empty; then comes the rest, unless the callback objects. */
  function Conclude(fn: Str -> int, statement: Str, rest: Outcome): Outcome {
    if statement == [] then rest
    else if fn(statement) != 0 then Outcome(fn(statement), [statement], [], false)
    else rest.(emitted := [statement] + rest.emitted)
  }

  /** One round of the loop: whether a statement ends, its text or what is gathered so far, what is left of
      the chunk, and the flag. */
  datatype Step = Step(done: bool, text: Str, rest: Str, cont: bool)

  function Next(z: Str, pending: Str, cont: bool): (st: Step)
    requires z != []
    ensures |st.rest| < |z| || (st.rest == z && cont && st.done)
    ensures st.done ==> !st.cont
  {
    var n, kind := TokenLength(z), KindOf(z[0]);
    if kind == Semicolon then Step(true, pending, z[1..], false)
    else if kind == Other then Step(true, pending + z[..1], z[1..], false)
    else if kind == Word && cont && IsKeyword(z[..n]) then Step(true, pending, z, false)
    else Step(false, pending + z[..n], z[n..], kind != Word || n < |z|)
  }

  /** sql_get_statement on text that is not empty. */
  function Split(fn: Str -> int, z: Str, pending: Str, cont: bool): Outcome
    decreases |z|, cont
  {
    if z == [] then Outcome(0, [], pending, cont)
    else
      var st := Next(z, pending, cont);
      if st.done then Conclude(fn, st.text, Split(fn, st.rest, [], false)) else Split(fn, st.rest, st.text, st.cont)
  }

  /** sql_get_statement on one chunk; an empty one flushes. */
  function Chunk(fn: Str -> int, z: Str, pending: Str, cont: bool): Outcome {
    if z == [] then Conclude(fn, pending, Outcome(0, [], [], false)) else Split(fn, z, pending, cont)
  }

  ghost predicate Agreeable(fn: Str -> int) { forall s :: fn(s) == 0 }

  lemma NextKeeps(z: Str, pending: Str, cont: bool)
    requires z != []
    ensures var st := Next(z, pending, cont); st.text + Strip(st.rest) == pending + Strip(z)
  {
    var n := TokenLength(z);
    if KindOf(z[0]) == Semicolon {
      assert [] + Strip(z[1..]) == Strip(z[1..]);
    } else {
      ConcatAssociative(pending, z[..n], Strip(z[n..]));
    }
  }

  /** A call that runs to its end keeps every byte but the semicolons between tokens. */
  lemma {:induction false} SplitKeeps(fn: Str -> int, z: Str, pending: Str, cont: bool)
    requires Split(fn, z, pending, cont).ret == 0
    ensures var o := Split(fn, z, pending, cont);
      Flatten(o.emitted) + o.pending == pending + Strip(z)
    decreases |z|, cont
  {
    if z == [] {
      assert Flatten([]) + pending == pending + [];
    } else {
      var st := Next(z, pending, cont);
      NextKeeps(z, pending, cont);
      if st.done {
        var rest := Split(fn, st.rest, [], false);
        if rest.ret == 0 {
          SplitKeeps(fn, st.rest, [], false);
        }
        ConcludeKeeps(fn, st.text, rest, Strip(st.rest));
      } else {
        SplitKeeps(fn, st.rest, st.text, st.cont);
      }
    }
  }

  lemma ConcludeKeeps(fn: Str -> int, statement: Str, rest: Outcome, kept: Str)
    requires Conclude(fn, statement, rest).ret == 0
    requires rest.ret == 0 ==> Flatten(rest.emitted) + rest.pending == [] + kept
    ensures rest.ret == 0
    ensures var o := Conclude(fn, statement, rest); Flatten(o.emitted) + o.pending == statement + kept
  {
    assert [] + kept == kept;
    if statement != [] {
      var o := Conclude(fn, statement, rest);
      assert o.emitted[1..] == rest.emitted;
      ConcatAssociative(statement, Flatten(rest.emitted), rest.pending);
    }
  }

  // ---------------------------------------------------------------------------------------------
  // Many calls
  // ---------------------------------------------------------------------------------------------

  /** The calls for a list of chunks, followed by the flush, for a callback that never objects. */
  function SplitAll(fn: Str -> int, chunks: seq<Str>, pending: Str, cont: bool): seq<Str> {
    if chunks == [] then Chunk(fn, [], pending, cont).emitted
    else
      var o := Chunk(fn, chunks[0], pending, cont);
      o.emitted + SplitAll(fn, chunks[1..], o.pending, o.cont)
  }

  function StripAll(chunks: seq<Str>): Str {
    if chunks == [] then [] else Strip(chunks[0]) + StripAll(chunks[1..])
  }

  lemma {:induction false} SplitSucceeds(fn: Str -> int, z: Str, pending: Str, cont: bool)
    requires Agreeable(fn)
    ensures Split(fn, z, pending, cont).ret == 0
    decreases |z|, cont
  {
    if z != [] {
      var st := Next(z, pending, cont);
      if st.done {
        SplitSucceeds(fn, st.rest, [], false);
      } else {
        SplitSucceeds(fn, st.rest, st.text, st.cont);
      }
    }
  }

  lemma ChunkKeeps(fn: Str -> int, z: Str, pending: Str, cont: bool)
    requires Agreeable(fn)
    ensures var o := Chunk(fn, z, pending, cont); Flatten(o.emitted) + o.pending == pending + Strip(z)
    ensures z == [] ==> Chunk(fn, z, pending, cont).pending == []
  {
    if z == [] {
      ConcludeKeeps(fn, pending, Outcome(0, [], [], false), []);
    } else {
      SplitSucceeds(fn, z, pending, cont);
      SplitKeeps(fn, z, pending, cont);
    }
  }

  lemma {:induction false} FlattenConcat(a: seq<Str>, b: seq<Str>)
    ensures Flatten(a + b) == Flatten(a) + Flatten(b)
  {
    if a == [] {
      assert a + b == b;
    } else {
      FlattenConcat(a[1..], b);
      assert (a + b)[0] == a[0] && (a + b)[1..] == a[1..] + b;
      ConcatAssociative(a[0], Flatten(a[1..]), Flatten(b));
    }
  }

  /** Over any list of chunks ended by the flush, the statements handed out hold exactly the text without
      the semicolons between tokens: nothing else is lost, duplicated or reordered. */
  lemma {:induction false} NothingLost(fn: Str -> int, chunks: seq<Str>, pending: Str, cont: bool)
    requires Agreeable(fn)
    ensures Flatten(SplitAll(fn, chunks, pending, cont)) == pending + StripAll(chunks)
  {
    if chunks == [] {
      ChunkKeeps(fn, [], pending, cont);
      var o := Chunk(fn, [], pending, cont);
      assert Flatten(o.emitted) == Flatten(o.emitted) + o.pending;
    } else {
      var o := Chunk(fn, chunks[0], pending, cont);
      ChunkKeeps(fn, chunks[0], pending, cont);
      NothingLost(fn, chunks[1..], o.pending, o.cont);
      FlattenConcat(o.emitted, SplitAll(fn, chunks[1..], o.pending, o.cont));
      ConcatAssociative(Flatten(o.emitted), o.pending, StripAll(chunks[1..]));
      ConcatAssociative(pending, Strip(chunks[0]), StripAll(chunks[1..]));
    }
  }

  // ---------------------------------------------------------------------------------------------
  // Where the text is cut into chunks
  // ---------------------------------------------------------------------------------------------

  /** The end of a is the end of a token of a + b. */
  predicate Boundary(a: Str, b: Str) {
    a == [] || (TokenLength(a + b) <= |a| && Boundary(a[TokenLength(a + b)..], b))
  }

  lemma {:induction false} SpanPrefix(a: Str, b: Str, i: nat, kind: Kind)
    requires i <= |a| && Span(a + b, i, kind) <= |a|
    ensures Span(a, i, kind) == Span(a + b, i, kind)
    ensures Span(a + b, i, kind) == |a| && b != [] ==> !Continues(kind, b[0])
    decreases |a| - i
  {
    if i < |a| {
      assert (a + b)[i] == a[i];
      if Continues(kind, a[i]) {
        SpanPrefix(a, b, i + 1, kind);
      }
    } else if b != [] {
      assert (a + b)[i] == b[0];
    }
  }

  lemma {:induction false} BehindPrefix(a: Str, b: Str, i: nat, delim: Byte)
    requires i <= |a| && Behind(a + b, i, delim) <= |a|
    ensures Behind(a, i, delim) == Behind(a + b, i, delim)
    decreases |a| - i
  {
    if i < |a| {
      assert (a + b)[i] == a[i];
      if a[i] != delim {
        BehindPrefix(a, b, i + 1, delim);
      }
    }
  }

  /** A token that ends inside a is the same when b is not there. */
  lemma TokenPrefix(a: Str, b: Str)
    requires a != [] && TokenLength(a + b) <= |a|
    ensures TokenLength(a) == TokenLength(a + b)
    ensures KindOf(a[0]) == Word && TokenLength(a) == |a| && b != [] ==> KindOf(b[0]) != Word
  {
    assert (a + b)[0] == a[0];
    match KindOf(a[0]) {
      case Blanks => SpanPrefix(a, b, 1, Blanks);
      case Number => SpanPrefix(a, b, 1, Number);
      case Word => SpanPrefix(a, b, 1, Word);
      case Quoted => BehindPrefix(a, b, 1, a[0]);
      case Bracketed => BehindPrefix(a, b, 1, 93);
      case _ =>
    }
  }

  /** One call and then another. */
  function Then(o: Outcome, q: Outcome): Outcome {
    if o.ret != 0 then o else q.(emitted := o.emitted + q.emitted)
  }

  /** A statement that ends before the cut does not see it. */
  lemma ConcludeCut(fn: Str -> int, statement: Str, p: Outcome, b: Str)
    ensures var o := Conclude(fn, statement, p);
      Conclude(fn, statement, Then(p, Split(fn, b, p.pending, p.cont))) == Then(o, Split(fn, b, o.pending, o.cont))
  {
    if statement != [] && fn(statement) == 0 && p.ret == 0 {
      ConcatAssociative([statement], p.emitted, Split(fn, b, p.pending, p.cont).emitted);
    }
  }

  /** The next round is the same with more text behind, but for the flag after a word at the very end. */
  lemma NextAgrees(a: Str, b: Str, pending: Str, cont: bool)
    requires a != [] && b != [] && Boundary(a, b)
    ensures var st, whole := Next(a, pending, cont), Next(a + b, pending, cont);
      && whole.done == st.done && whole.text == st.text && whole.rest == st.rest + b && Boundary(st.rest, b)
      && (whole.cont == st.cont || (!st.done && st.rest == [] && !st.cont && whole.cont && KindOf(b[0]) != Word))
  {
    TokenPrefix(a, b);
    var n := TokenLength(a);
    assert (a + b)[0] == a[0] && (a + b)[..n] == a[..n] && (a + b)[n..] == a[n..] + b;
  }

  lemma FlagAgrees(fn: Str -> int, b: Str, text: Str, rest: Str, cont: bool, flag: bool)
    requires b != [] && (flag == cont || (rest == [] && KindOf(b[0]) != Word))
    ensures Split(fn, rest + b, text, flag) == Split(fn, rest + b, text, cont)
  {
    if rest == [] {
      assert rest + b == b;
    }
  }

  /** The second chunk is split as it would be behind the first, when the cut is between two tokens. */
  lemma {:induction false} ChunksAgree(fn: Str -> int, a: Str, b: Str, pending: Str, cont: bool)
    requires b != [] && Boundary(a, b)
    ensures var o := Split(fn, a, pending, cont);
      Split(fn, a + b, pending, cont) == Then(o, Split(fn, b, o.pending, o.cont))
    decreases |a|, cont
  {
    if a == [] {
      assert a + b == b;
      assert [] + Split(fn, b, pending, cont).emitted == Split(fn, b, pending, cont).emitted;
    } else {
      var st := Next(a, pending, cont);
      NextAgrees(a, b, pending, cont);
      assert (a + b) != [];
      if st.done {
        ChunksAgree(fn, st.rest, b, [], false);
        ConcludeCut(fn, st.text, Split(fn, st.rest, [], false), b);
      } else {
        ChunksAgree(fn, st.rest, b, st.text, st.cont);
        FlagAgrees(fn, b, st.text, st.rest, st.cont, Next(a + b, pending, cont).cont);
      }
    }
  }

  // ---------------------------------------------------------------------------------------------
  // Blank statements
  // ---------------------------------------------------------------------------------------------

  lemma {:induction false} UpperAt(s: Str, i: nat)
    requires i < |s|
    ensures Upper(s)[i] == if 97 <= s[i] <= 122 then s[i] - 32 else s[i]
  {
    if i > 0 {
      UpperAt(s[1..], i - 1);
    }
  }

  /** Keywords are made of letters. */
  lemma KeywordLetters(k: Str)
    requires IsKeyword(k)
    ensures k != [] && KindOf(k[0]) == Word && forall i :: 0 <= i < |k| ==> IsIdChar(k[i])
  {
    var j :| 0 <= j < |KEYWORDS| && KEYWORDS[j] == Upper(k);
    forall i | 0 <= i < |k|
      ensures 65 <= k[i] <= 90 || 97 <= k[i] <= 122
    {
      UpperAt(k, i);
    }
  }

  lemma {:induction false} SpanAll(z: Str, i: nat, e: nat, kind: Kind)
    requires i <= e <= |z| && (forall j :: i <= j < e ==> Continues(kind, z[j])) && (e < |z| ==> !Continues(kind, z[e]))
    ensures Span(z, i, kind) == e
    decreases e - i
  {
    if i < e {
      SpanAll(z, i + 1, e, kind);
    }
  }

  lemma BlanksTaken(fn: Str -> int, w: Str, k: Str)
    requires w != [] && (forall i :: 0 <= i < |w| ==> w[i] == 32) && k != [] && KindOf(k[0]) == Word
    ensures Split(fn, w + k, [], false) == Split(fn, k, w, true)
  {
    BlankToken(w, k);
    assert Next(w + k, [], false) == Step(false, w, k, true);
  }

  lemma BlankToken(w: Str, k: Str)
    requires w != [] && (forall i :: 0 <= i < |w| ==> w[i] == 32) && k != [] && KindOf(k[0]) == Word
    ensures var z := w + k;
      TokenLength(z) == |w| && KindOf(z[0]) == Blanks && [] + z[..|w|] == w && z[|w|..] == k
  {
    var z := w + k;
    assert forall i :: 0 <= i < |w| ==> z[i] == 32;
    assert z[|w|] == k[0];
    SpanAll(z, 1, |w|, Blanks);
  }

  lemma KeywordTaken(fn: Str -> int, w: Str, k: Str)
    requires IsKeyword(k)
    ensures Split(fn, k, w, true) == Conclude(fn, w, Outcome(0, [], k, false))
  {
    KeywordLetters(k);
    SpanAll(k, 1, |k|, Word);
    assert k[..|k|] == k && k[|k|..] == [] && [] + k == k;
    assert Split(fn, k, [], false) == Outcome(0, [], k, false);
  }

  /** The blanks between a semicolon and a keyword are handed out as a statement of their own. */
  lemma BlankStatement(fn: Str -> int, w: Str, k: Str)
    requires w != [] && (forall i :: 0 <= i < |w| ==> w[i] == 32) && IsKeyword(k) && fn(w) == 0
    ensures Split(fn, SEMICOLON + (w + k), [], false) == Outcome(0, [w], k, false)
  {
    var z := SEMICOLON + (w + k);
    KeywordLetters(k);
    assert z[1..] == w + k && z[0] == 59;
    BlanksTaken(fn, w, k);
    KeywordTaken(fn, w, k);
  }

  /** Blanks and nothing else: the text of one token. */
  predicate IsBlank(s: Str) {
    s != [] && KindOf(s[0]) == Blanks && forall i :: 0 <= i < |s| ==> Continues(Blanks, s[i])
  }

  /** A statement ends behind this token; what follows is another one. */
  predicate Ends(token: Str) {
    token != [] && (KindOf(token[0]) == Semicolon || KindOf(token[0]) == Other)
  }

  /** A statement ends in front of the text; at the end of the text the flush ends it. */
  predicate EndsBefore(z: Str, cont: bool) {
    z == [] || KindOf(z[0]) == Semicolon || (cont && KindOf(z[0]) == Word && IsKeyword(z[..TokenLength(z)]))
  }

  /** Token k is blank, stands at the beginning of a statement, and is the whole of it. `begins` says that the
      first token begins one. */
  predicate BlankAt(tokens: seq<Str>, k: nat, begins: bool) {
    && k < |tokens| && tokens[k] != [] && KindOf(tokens[k][0]) == Blanks
    && (if k == 0 then begins else Ends(tokens[k - 1]))
    && (k + 1 == |tokens| || tokens[k + 1] == SEMICOLON || IsKeyword(tokens[k + 1]))
  }

  ghost predicate HasBlank(tokens: seq<Str>, begins: bool) {
    exists k: nat :: BlankAt(tokens, k, begins)
  }

  /** All statements of a text and of the flush behind it, for a callback that never objects. */
  function Statements(fn: Str -> int, z: Str, pending: Str, cont: bool): seq<Str> {
    var o := Split(fn, z, pending, cont);
    o.emitted + (if o.pending == [] then [] else [o.pending])
  }

  ghost predicate SomeBlank(texts: seq<Str>) {
    exists k :: 0 <= k < |texts| && IsBlank(texts[k])
  }

  lemma HasBlankStep(tokens: seq<Str>, begins: bool)
    requires tokens != []
    ensures HasBlank(tokens, begins) <==> BlankAt(tokens, 0, begins) || HasBlank(tokens[1..], Ends(tokens[0]))
  {
    if k: nat :| BlankAt(tokens, k, begins) && k > 0 {
      BlankAtNext(tokens, k - 1, begins);
    }
    if k: nat :| BlankAt(tokens[1..], k, Ends(tokens[0])) {
      BlankAtNext(tokens, k, begins);
    }
  }

  lemma BlankAtNext(tokens: seq<Str>, k: nat, begins: bool)
    requires tokens != []
    ensures BlankAt(tokens, k + 1, begins) <==> BlankAt(tokens[1..], k, Ends(tokens[0]))
  {
  }

  lemma SomeBlankFirst(first: Str, rest: seq<Str>)
    ensures SomeBlank([first] + rest) <==> IsBlank(first) || SomeBlank(rest)
  {
    var all := [first] + rest;
    assert all[0] == first && forall k :: 0 <= k < |rest| ==> all[k + 1] == rest[k];
    if k :| 0 <= k < |all| && IsBlank(all[k]) && k > 0 {
      assert rest[k - 1] == all[k];
    }
  }

  /** One round, seen from the statements. */
  lemma StatementsStep(fn: Str -> int, z: Str, pending: Str, cont: bool)
    requires Agreeable(fn) && z != []
    ensures var st := Next(z, pending, cont);
      Statements(fn, z, pending, cont) ==
        if !st.done then Statements(fn, st.rest, st.text, st.cont)
        else (if st.text == [] then [] else [st.text]) + Statements(fn, st.rest, [], false)
  {
    var st := Next(z, pending, cont);
    if st.done {
      SplitSucceeds(fn, st.rest, [], false);
      var rest := Split(fn, st.rest, [], false);
      if st.text != [] {
        ConcatAssociative([st.text], rest.emitted, if rest.pending == [] then [] else [rest.pending]);
      }
    }
  }

  /** Text behind a statement does not make it blank, unless it goes on with blanks. */
  lemma BlankGrows(s: Str, t: Str)
    requires t != [] && (IsBlank(s) ==> !Continues(Blanks, t[0]))
    ensures IsBlank(s + t) <==> s == [] && IsBlank(t)
  {
    if s == [] {
      assert s + t == t;
    } else {
      assert (s + t)[|s|] == t[0] && forall i :: 0 <= i < |s| ==> (s + t)[i] == s[i];
    }
  }

  /** The first token is blanks through and through, exactly when it begins with one; then no blank follows. */
  lemma FirstToken(z: Str)
    requires z != []
    ensures IsBlank(z[..TokenLength(z)]) <==> KindOf(z[0]) == Blanks
    ensures KindOf(z[0]) == Blanks && TokenLength(z) < |z| ==> !Continues(Blanks, z[TokenLength(z)])
  {
    if KindOf(z[0]) == Blanks {
      SpanBytes(z, 1, Blanks);
    }
  }

  lemma {:induction false} SpanBytes(z: Str, i: nat, kind: Kind)
    requires i <= |z|
    ensures forall j :: i <= j < Span(z, i, kind) ==> Continues(kind, z[j])
    ensures Span(z, i, kind) < |z| ==> !Continues(kind, z[Span(z, i, kind)])
    decreases |z| - i
  {
    if i < |z| && Continues(kind, z[i]) {
      SpanBytes(z, i + 1, kind);
    }
  }

  /** A statement ends in front of a first token that is a semicolon or a keyword. */
  lemma TokenEnds(z: Str)
    requires z != []
    ensures Tokens(z) != [] && (Tokens(z)[0] == SEMICOLON || IsKeyword(Tokens(z)[0]) <==> EndsBefore(z, true))
  {
    var t := z[..TokenLength(z)];
    assert t[0] == z[0] && (t == SEMICOLON <==> KindOf(z[0]) == Semicolon);
    if IsKeyword(t) {
      KeywordLetters(t);
    }
  }

  /** What token 0 of a text and the one behind it say about it. */
  lemma BlankFirst(z: Str, begins: bool)
    requires z != []
    ensures BlankAt(Tokens(z), 0, begins) <==>
      begins && KindOf(z[0]) == Blanks && EndsBefore(z[TokenLength(z)..], true)
    ensures HasBlank(Tokens(z), begins) <==>
      BlankAt(Tokens(z), 0, begins) || HasBlank(Tokens(z[TokenLength(z)..]), KindOf(z[0]) == Semicolon || KindOf(z[0]) == Other)
  {
    var t, rest := z[..TokenLength(z)], z[TokenLength(z)..];
    HasBlankStep(Tokens(z), begins);
    assert Tokens(z)[0] == t && Tokens(z)[1..] == Tokens(rest) && t[0] == z[0];
    if rest != [] {
      TokenEnds(rest);
      assert Tokens(z)[1] == Tokens(rest)[0];
    }
  }

  /** A statement that ends, and what holds of the rest. */
  lemma BlankEnded(fn: Str -> int, z: Str, pending: Str, cont: bool)
    requires Agreeable(fn) && z != [] && Next(z, pending, cont).done
    requires IsBlank(pending) ==> !Continues(Blanks, z[0])
    requires SomeBlank(Statements(fn, Next(z, pending, cont).rest, [], false)) <==>
      HasBlank(Tokens(Next(z, pending, cont).rest), true)
    ensures SomeBlank(Statements(fn, z, pending, cont)) <==>
      (IsBlank(pending) && EndsBefore(z, cont)) || HasBlank(Tokens(z), pending == [])
  {
    var st := Next(z, pending, cont);
    StatementsStep(fn, z, pending, cont);
    SomeBlankFirst(st.text, Statements(fn, st.rest, [], false));
    assert [] + Statements(fn, st.rest, [], false) == Statements(fn, st.rest, [], false);
    BlankFirst(z, pending == []);
    BlankFirst(z, true);
    if KindOf(z[0]) == Other {
      BlankGrows(pending, z[..1]);
    }
  }

  /** A token that is gathered, and what holds of the rest. */
  lemma BlankGathered(fn: Str -> int, z: Str, pending: Str, cont: bool)
    requires Agreeable(fn) && z != [] && !Next(z, pending, cont).done
    requires IsBlank(pending) ==> !Continues(Blanks, z[0])
    requires var st := Next(z, pending, cont);
      SomeBlank(Statements(fn, st.rest, st.text, st.cont)) <==>
        (IsBlank(st.text) && EndsBefore(st.rest, st.cont)) || HasBlank(Tokens(st.rest), false)
    ensures SomeBlank(Statements(fn, z, pending, cont)) <==>
      (IsBlank(pending) && EndsBefore(z, cont)) || HasBlank(Tokens(z), pending == [])
  {
    StatementsStep(fn, z, pending, cont);
    BlankFirst(z, pending == []);
    FirstToken(z);
    BlankGrows(pending, z[..TokenLength(z)]);
  }

  /** The statements from a point on hold a blank one exactly when what is gathered is blank and ends here, or
      the rest of the text has a blank token that is a whole statement. */
  lemma {:induction false} BlanksFrom(fn: Str -> int, z: Str, pending: Str, cont: bool)
    requires Agreeable(fn) && (z != [] && IsBlank(pending) ==> !Continues(Blanks, z[0]))
    ensures SomeBlank(Statements(fn, z, pending, cont)) <==>
      (IsBlank(pending) && EndsBefore(z, cont)) || HasBlank(Tokens(z), pending == [])
    decreases |z|, cont
  {
    if z == [] {
      assert Statements(fn, z, pending, cont) == if pending == [] then [] else [pending];
      if pending != [] {
        assert [pending][0] == pending;
      }
    } else {
      var st := Next(z, pending, cont);
      if st.done {
        BlanksFrom(fn, st.rest, [], false);
        BlankEnded(fn, z, pending, cont);
      } else {
        GatheredOk(z, pending, cont);
        BlanksFrom(fn, st.rest, st.text, st.cont);
        BlankGathered(fn, z, pending, cont);
      }
    }
  }

  lemma GatheredOk(z: Str, pending: Str, cont: bool)
    requires z != [] && !Next(z, pending, cont).done && (IsBlank(pending) ==> !Continues(Blanks, z[0]))
    ensures var st := Next(z, pending, cont);
      st.text != [] && (st.rest != [] && IsBlank(st.text) ==> !Continues(Blanks, st.rest[0]))
  {
    FirstToken(z);
    BlankGrows(pending, z[..TokenLength(z)]);
  }

  /** Which texts give a blank statement: exactly those with a blank token that is first or stands behind a
      semicolon or a byte that is no SQL, and that is last or stands before a semicolon or a keyword. */
  lemma BlankStatements(fn: Str -> int, z: Str)
    requires Agreeable(fn)
    ensures SomeBlank(SplitAll(fn, [z], [], false)) <==> HasBlank(Tokens(z), true)
  {
    BlanksFrom(fn, z, [], false);
    SplitSucceeds(fn, z, [], false);
    assert SplitAll(fn, [z], [], false) == Statements(fn, z, [], false);
  }

  // ---------------------------------------------------------------------------------------------
  // The program
  // ---------------------------------------------------------------------------------------------

  /** The character run of sql_skip_token. */
  method SkipSpan(z: Str, p: nat, kind: Kind) returns (i: nat)
    requires p < |z|
    ensures i == Span(z[p..], 1, kind)
  {
    i := 1;
    while p + i < |z| && Continues(kind, z[p + i])
      invariant 1 <= i && p + i <= |z| && Span(z[p..], 1, kind) == Span(z[p..], i, kind)
      decreases |z| - p - i
    {
      i := i + 1;
    }
  }

  /** The delimited text of sql_skip_token. */
  method SkipDelimited(z: Str, p: nat, delim: Byte) returns (i: nat)
    requires p < |z|
    ensures i == Behind(z[p..], 1, delim)
  {
    i := 1;
    while p + i < |z|
      invariant 1 <= i && p + i <= |z| && Behind(z[p..], 1, delim) == Behind(z[p..], i, delim)
      decreases |z| - p - i
    {
      i := i + 1;
      if z[p + i - 1] == delim {
        return;
      }
    }
  }

  /** The static state of sql_get_statement. */
  class StatementSplitter {
    var str: Str
    var cont: bool

    constructor ()
      ensures str == [] && !cont
    {
      str, cont := [], false;
    }

    /** sql_skip_token. A keyword is found without moving. */
    method SkipToken(z: Str, p: nat) returns (p': nat, done: bool)
      requires p < |z| && z[p] != 59
      modifies this`cont
      ensures var n, kind := TokenLength(z[p..]), KindOf(z[p]);
        if kind == Other then p' == p + 1 && done && cont
        else if kind == Word && old(cont) && IsKeyword(z[p..][..n]) then p' == p && done && cont
        else p' == p + n && !done && cont == (kind != Word || n < |z[p..]|)
    {
      var getKeyword := cont;
      cont := true;
      var i := 1;
      var kind := KindOf(z[p]);
      if kind == Blanks || kind == Number {
        i := SkipSpan(z, p, kind);
      } else if kind == Quoted || kind == Bracketed {
        i := SkipDelimited(z, p, if kind == Quoted then z[p] else 93);
      } else if kind == Word {
        i := SkipSpan(z, p, Word);
        if getKeyword && IsKeyword(z[p..][..i]) {
          return p, true;
        }
        if p + i == |z| {
          cont := false;
        }
      }
      p', done := p + i, kind == Other;
    }

    /** The end of a statement in sql_get_statement; `made` lists the statements handed out. */
    method Deliver(fn: Str -> int) returns (ret: int, made: seq<Str>)
      modifies this
      ensures str == [] && !cont
      ensures made == if old(str) == [] then [] else [old(str)]
      ensures ret == if old(str) == [] then 0 else fn(old(str))
    {
      cont := false;
      var stmt := str;
      str := [];
      ret, made := 0, [];
      if stmt != [] {
        ret, made := fn(stmt), [stmt];
      }
    }

    /** sql_get_statement; `emitted` lists the statements handed to the callback. */
    method GetStatement(start: Str, fn: Str -> int) returns (ret: int, emitted: seq<Str>)
      modifies this
      ensures Outcome(ret, emitted, str, cont) == Chunk(fn, start, old(str), old(cont))
    {
      emitted := [];
      if start == [] {
        ret, emitted := Deliver(fn);
        return;
      }
      ghost var whole := Split(fn, start, str, cont);
      var p := 0;
      assert start[0..] == start;
      assert whole == Prepend([], whole);
      while p < |start|
        invariant 0 <= p <= |start|
        invariant whole == Prepend(emitted, Split(fn, start[p..], str, cont))
        decreases |start| - p, cont
      {
        var done;
        assert |start[p..]| == |start| - p;
        p, done := Advance(start, p);
        assert |start[p..]| == |start| - p;
        ret := 0;
        if done {
          ghost var statement, rest := str, Split(fn, start[p..], [], false);
          var made;
          ret, made := Deliver(fn);
          Delivered(fn, emitted, statement, rest, ret, made);
          emitted := emitted + made;
          if ret != 0 {
            return;
          }
        }
      }
      ret := 0;
    }

    /** One step of the loop before the statement is concluded. */
    method Advance(start: Str, p: nat) returns (p': nat, done: bool)
      requires p < |start|
      modifies this
      ensures p <= p' <= |start|
      ensures var st := Next(start[p..], old(str), old(cont));
        done == st.done && str == st.text && start[p'..] == st.rest && (!done ==> cont == st.cont)
    {
      if start[p] == 59 {
        assert start[p..][1..] == start[p + 1..];
        return p + 1, true;
      }
      p', done := SkipToken(start, p);
      assert start[p..p'] == start[p..][..p' - p] && start[p..][p' - p..] == start[p'..];
      str := str + start[p..p'];
      assert p' == p ==> str == old(str);
    }
  }

  lemma Delivered(fn: Str -> int, emitted: seq<Str>, statement: Str, rest: Outcome, ret: int, made: seq<Str>)
    requires made == if statement == [] then [] else [statement]
    requires ret == if statement == [] then 0 else fn(statement)
    ensures Prepend(emitted, Conclude(fn, statement, rest)) ==
      if ret != 0 then Outcome(ret, emitted + made, [], false) else Prepend(emitted + made, rest)
  {
    ConcatAssociative(emitted, made, rest.emitted);
  }

  function Prepend(emitted: seq<Str>, o: Outcome): Outcome { o.(emitted := emitted + o.emitted) }
}
