/** What tokens are, by a grammar of escapes and quotes: the scanning state machine is not mentioned. */
module TokenGrammar {
  import opened Wrappers
  import Sequences
  import opened Bytes
  import opened Tokenizer
  import opened RunInjector

  // ---------- the grammar ----------

  /** A byte by itself, an escape with the byte it covers, or a quoted part. */
  datatype Piece = Plain(c: byte) | Escaped(c: byte) | Single(body: Text) | Double(body: Text)

  /** At the end of the line, a word may also end in an escape or inside quotes. */
  datatype Tail = Closed | Dangling | OpenSingle(body: Text) | OpenDouble(body: Text)

  datatype Line = End | Gap(c: byte, rest: Line) | Word(pieces: seq<Piece>, tail: Tail, rest: Line)

  predicate IsQuote(c: byte) {
    c == 0x22 || c == 0x27
  }

  /** In double quotes, an escape goes together with a following double quote, dollar or escape, and is
      an ordinary byte elsewhere. No other double quote may occur. If a quote follows the body, the
      body must not end in an escape that would cover it. */
  predicate InDouble(body: Text, esc: byte, closed: bool) {
    if body == [] then true
    else if body[0] == esc then
      if |body| == 1 then !closed
      else if body[1] == 0x22 || body[1] == 0x24 || body[1] == esc then InDouble(body[2..], esc, closed)
      else InDouble(body[1..], esc, closed)
    else body[0] != 0x22 && InDouble(body[1..], esc, closed)
  }

  predicate PieceOk(p: Piece, esc: byte) {
    match p
    case Plain(c) => !IsSpace(c) && c != esc && !IsQuote(c)
    case Escaped(_) => true
    case Single(body) => 0x27 !in body
    case Double(body) => InDouble(body, esc, true)
  }

  predicate TailOk(t: Tail, esc: byte) {
    match t
    case OpenSingle(body) => 0x27 !in body
    case OpenDouble(body) => InDouble(body, esc, false)
    case _ => true
  }

  function PieceText(p: Piece, esc: byte): (s: Text)
    ensures s != []
  {
    match p
    case Plain(c) => [c]
    case Escaped(c) => [esc, c]
    case Single(body) => [0x27] + body + [0x27]
    case Double(body) => [0x22] + body + [0x22]
  }

  function TailText(t: Tail, esc: byte): Text {
    match t
    case Closed => []
    case Dangling => [esc]
    case OpenSingle(body) => [0x27] + body
    case OpenDouble(body) => [0x22] + body
  }

  function WordText(pieces: seq<Piece>, tail: Tail, esc: byte): Text {
    if pieces == [] then TailText(tail, esc) else PieceText(pieces[0], esc) + WordText(pieces[1..], tail, esc)
  }

  function LineText(l: Line, esc: byte): Text {
    match l
    case End => []
    case Gap(c, rest) => [c] + LineText(rest, esc)
    case Word(pieces, tail, rest) => WordText(pieces, tail, esc) + LineText(rest, esc)
  }

  /** Words are not empty and are followed by white space, or by the end of the line, where alone they
      may be open. */
  predicate LineOk(l: Line, esc: byte) {
    match l
    case End => true
    case Gap(c, rest) => IsSpace(c) && LineOk(rest, esc)
    case Word(pieces, tail, rest) =>
      && (pieces != [] || !tail.Closed?) && (forall k :: 0 <= k < |pieces| ==> PieceOk(pieces[k], esc))
      && TailOk(tail, esc) && !rest.Word? && (tail.Closed? || rest.End?) && LineOk(rest, esc)
  }

  /** The words with their places. */
  function Words(l: Line, esc: byte, at: nat): seq<Token> {
    match l
    case End => []
    case Gap(_, rest) => Words(rest, esc, at + 1)
    case Word(pieces, tail, rest) =>
      var raw := WordText(pieces, tail, esc);
      [Token(at, raw)] + Words(rest, esc, at + |raw|)
  }

  // ---------- the scanner finds the words ----------

  ghost predicate At(line: Text, i: nat, s: Text) {
    i + |s| <= |line| && line[i..i + |s|] == s
  }

  lemma AtParts(line: Text, i: nat, a: Text, b: Text)
    requires At(line, i, a + b)
    ensures At(line, i, a) && At(line, i + |a|, b)
  {
    assert line[i..i + |a|] == (a + b)[..|a|];
    assert line[i + |a|..i + |a| + |b|] == (a + b)[|a|..];
  }

  lemma AtByte(line: Text, i: nat, s: Text, k: nat)
    requires At(line, i, s) && k < |s|
    ensures i + k < |line| && line[i + k] == s[k]
  {
    assert line[i..i + |s|][k] == s[k];
  }

  lemma {:induction false} SingleScanned(line: Text, esc: byte, i: nat, n: nat)
    requires i + n <= |line| && forall k :: i <= k < i + n ==> line[k] != 0x27
    ensures TokenEnd(line, esc, i, SINGLE_QUOTE) == TokenEnd(line, esc, i + n, SINGLE_QUOTE)
    decreases n
  {
    if n > 0 { SingleScanned(line, esc, i + 1, n - 1); }
  }

  lemma {:induction false} DoubleScanned(line: Text, esc: byte, i: nat, body: Text, closed: bool)
    requires ValidEscape(esc) && At(line, i, body) && InDouble(body, esc, closed)
    requires if closed then At(line, i + |body|, [0x22]) else i + |body| == |line|
    ensures TokenEnd(line, esc, i, DOUBLE_QUOTE) == TokenEnd(line, esc, i + |body|, DOUBLE_QUOTE)
    decreases |body|
  {
    hide TokenEnd, InDouble, At;
    if body != [] {
      AtByte(line, i, body, 0);
      InDoubleParts(body, esc, closed);
      ScanStep(line, esc, i, DOUBLE_QUOTE);
      if |body| > 1 { AtByte(line, i, body, 1); }
      if closed { AtByte(line, i + |body|, [0x22], 0); }
      var n := if IsPair(body, esc) then 2 else 1;
      assert body == body[..n] + body[n..];
      AtParts(line, i, body[..n], body[n..]);
      DoubleScanned(line, esc, i + n, body[n..], closed);
    }
  }

  /** The body starts with an escape and a byte that it covers. */
  predicate IsPair(body: Text, esc: byte) {
    |body| > 1 && body[0] == esc && (body[1] == 0x22 || body[1] == 0x24 || body[1] == esc)
  }

  lemma InDoubleParts(body: Text, esc: byte, closed: bool)
    requires body != [] && InDouble(body, esc, closed) && esc != 0x22
    ensures body[0] != 0x22 && (|body| == 1 && body[0] == esc ==> !closed)
    ensures InDouble(body[if IsPair(body, esc) then 2 else 1..], esc, closed)
  {
  }

  lemma SinglePiece(line: Text, esc: byte, i: nat, body: Text)
    requires ValidEscape(esc) && 0x27 !in body && At(line, i, [0x27] + body)
    ensures TokenEnd(line, esc, i, NO_QUOTE) == TokenEnd(line, esc, i + 1 + |body|, SINGLE_QUOTE)
  {
    hide TokenEnd, At;
    AtByte(line, i, [0x27] + body, 0);
    ScanStep(line, esc, i, NO_QUOTE);
    AtParts(line, i, [0x27], body);
    NoQuoteAt(line, i + 1, body);
    SingleScanned(line, esc, i + 1, |body|);
  }

  lemma NoQuoteAt(line: Text, i: nat, body: Text)
    requires 0x27 !in body && At(line, i, body)
    ensures i + |body| <= |line| && forall k :: i <= k < i + |body| ==> line[k] != 0x27
  {
    forall k | i <= k < i + |body| ensures line[k] != 0x27 { AtByte(line, i, body, k - i); }
  }

  lemma DoublePiece(line: Text, esc: byte, i: nat, body: Text, closed: bool)
    requires ValidEscape(esc) && InDouble(body, esc, closed) && At(line, i, [0x22] + body)
    requires if closed then At(line, i + 1 + |body|, [0x22]) else i + 1 + |body| == |line|
    ensures TokenEnd(line, esc, i, NO_QUOTE) == TokenEnd(line, esc, i + 1 + |body|, DOUBLE_QUOTE)
  {
    hide TokenEnd, InDouble;
    AtByte(line, i, [0x22] + body, 0);
    ScanStep(line, esc, i, NO_QUOTE);
    AtParts(line, i, [0x22], body);
    DoubleScanned(line, esc, i + 1, body, closed);
  }

  /** Scanning goes on behind a piece with no quote open. */
  lemma PieceScanned(line: Text, esc: byte, i: nat, p: Piece)
    requires ValidEscape(esc) && PieceOk(p, esc) && At(line, i, PieceText(p, esc))
    ensures TokenEnd(line, esc, i, NO_QUOTE) == TokenEnd(line, esc, i + |PieceText(p, esc)|, NO_QUOTE)
  {
    hide TokenEnd, InDouble, At;
    AtByte(line, i, PieceText(p, esc), 0);
    ScanStep(line, esc, i, NO_QUOTE);
    match p
    case Plain(c) =>
    case Escaped(c) =>
    case Single(body) =>
      AtParts(line, i, [0x27] + body, [0x27]);
      SinglePiece(line, esc, i, body);
      AtByte(line, i + 1 + |body|, [0x27], 0);
      ScanStep(line, esc, i + 1 + |body|, SINGLE_QUOTE);
    case Double(body) =>
      AtParts(line, i, [0x22] + body, [0x22]);
      DoublePiece(line, esc, i, body, true);
      AtByte(line, i + 1 + |body|, [0x22], 0);
      ScanStep(line, esc, i + 1 + |body|, DOUBLE_QUOTE);
  }

  /** A word that is open at the end of the line reaches to the end. */
  lemma TailScanned(line: Text, esc: byte, i: nat, t: Tail)
    requires ValidEscape(esc) && TailOk(t, esc) && !t.Closed? && At(line, i, TailText(t, esc))
    requires i + |TailText(t, esc)| == |line|
    ensures TokenEnd(line, esc, i, NO_QUOTE) == |line|
  {
    hide TokenEnd, InDouble, At;
    AtByte(line, i, TailText(t, esc), 0);
    ScanStep(line, esc, i, NO_QUOTE);
    ScanEnd(line, esc, |line|, SINGLE_QUOTE);
    ScanEnd(line, esc, |line|, DOUBLE_QUOTE);
    match t
    case Dangling => ScanEnd(line, esc, i + 2, NO_QUOTE);
    case OpenSingle(body) => SinglePiece(line, esc, i, body);
    case OpenDouble(body) => DoublePiece(line, esc, i, body, false);
  }

  lemma {:induction false} WordScanned(line: Text, esc: byte, i: nat, pieces: seq<Piece>, tail: Tail)
    requires ValidEscape(esc) && TailOk(tail, esc) && forall k :: 0 <= k < |pieces| ==> PieceOk(pieces[k], esc)
    requires At(line, i, WordText(pieces, tail, esc))
    requires var e := i + |WordText(pieces, tail, esc)|; e == |line| || (tail.Closed? && IsSpace(line[e]))
    ensures TokenEnd(line, esc, i, NO_QUOTE) == i + |WordText(pieces, tail, esc)|
    decreases |pieces|
  {
    hide TokenEnd, PieceOk, TailOk, PieceText;
    if pieces == [] {
      if tail.Closed? {
        if i < |line| { ScanStep(line, esc, i, NO_QUOTE); } else { ScanEnd(line, esc, i, NO_QUOTE); }
      } else {
        TailScanned(line, esc, i, tail);
      }
    } else {
      var first, rest := PieceText(pieces[0], esc), WordText(pieces[1..], tail, esc);
      AtParts(line, i, first, rest);
      PieceScanned(line, esc, i, pieces[0]);
      WordScanned(line, esc, i + |first|, pieces[1..], tail);
    }
  }

  lemma WordVisible(pieces: seq<Piece>, tail: Tail, esc: byte)
    requires ValidEscape(esc) && (pieces != [] || !tail.Closed?)
    requires forall k :: 0 <= k < |pieces| ==> PieceOk(pieces[k], esc)
    ensures var s := WordText(pieces, tail, esc); s != [] && !IsSpace(s[0])
  {
    hide InDouble;
  }

  lemma {:induction false} LineScanned(line: Text, esc: byte, i: nat, l: Line)
    requires ValidEscape(esc) && LineOk(l, esc) && i <= |line| && line[i..] == LineText(l, esc)
    ensures Tokens(line, esc, i) == Words(l, esc, i)
    decreases l
  {
    hide Tokens, TokenEnd, WordText, PieceOk, TailOk;
    match l
    case End => ScanEnd(line, esc, i, NO_QUOTE);
    case Gap(c, rest) =>
      assert line[i..][0] == c && line[i..][1..] == LineText(rest, esc);
      ScanStep(line, esc, i, NO_QUOTE);
      LineScanned(line, esc, i + 1, rest);
    case Word(pieces, tail, rest) =>
      var raw := WordText(pieces, tail, esc);
      WordVisible(pieces, tail, esc);
      var e := i + |raw|;
      assert line[i..][..|raw|] == raw && line[i..][|raw|..] == LineText(rest, esc) == line[e..];
      assert At(line, i, raw) && line[i] == raw[0];
      if rest.Gap? { assert line[e..][0] == rest.c; }
      WordScanned(line, esc, i, pieces, tail);
      TokensAt(line, esc, i, e, raw);
      LineScanned(line, esc, e, rest);
  }

  /** The tokens of a line are its words: whichever way a line is made of gaps and words. */
  lemma TokensAreWords(l: Line, esc: byte)
    requires ValidEscape(esc) && LineOk(l, esc)
    ensures Tokens(LineText(l, esc), esc, 0) == Words(l, esc, 0)
  {
    LineScanned(LineText(l, esc), esc, 0, l);
  }

  // ---------- every line is made of gaps and words ----------

  lemma {:induction false} FindDouble(s: Text, esc: byte) returns (k: nat)
    requires ValidEscape(esc)
    ensures k <= |s| && InDouble(s[..k], esc, k < |s|) && (k < |s| ==> s[k] == 0x22)
    decreases |s|
  {
    if s == [] || s[0] == 0x22 {
      k := 0;
    } else if s[0] == esc && |s| > 1 && (s[1] == 0x22 || s[1] == 0x24 || s[1] == esc) {
      k := FindDouble(s[2..], esc);
      k := k + 2;
      assert s[..k][2..] == s[2..][..k - 2];
    } else {
      k := FindDouble(s[1..], esc);
      k := k + 1;
      assert s[..k][1..] == s[1..][..k - 1];
      assert |s| > 1 && k > 1 ==> s[..k][1] == s[1];
    }
  }

  lemma {:induction false} FindSingle(s: Text) returns (k: nat)
    ensures k <= |s| && 0x27 !in s[..k] && (k < |s| ==> s[k] == 0x27)
  {
    k := 0;
    if s != [] && s[0] != 0x27 {
      k := FindSingle(s[1..]);
      k := k + 1;
      assert s[..k] == [s[0]] + s[1..][..k - 1];
    }
  }

  /** The first piece of a text that starts inside a word, or its open rest. */
  lemma FirstPiece(s: Text, esc: byte) returns (first: Option<Piece>, tail: Tail)
    requires ValidEscape(esc) && s != [] && !IsSpace(s[0])
    ensures first.Some? ==>
              var n := |PieceText(first.value, esc)|;
              PieceOk(first.value, esc) && n <= |s| && s == PieceText(first.value, esc) + s[n..]
    ensures first.None? ==> TailOk(tail, esc) && !tail.Closed? && s == TailText(tail, esc)
  {
    hide InDouble;
    first, tail := None, Closed;
    if s[0] == esc {
      if |s| == 1 { tail := Dangling; } else { first := Some(Escaped(s[1])); }
    } else if s[0] == 0x27 {
      var k := FindSingle(s[1..]);
      CutQuoted(s, 0x27, k);
      if k < |s| - 1 { first := Some(Single(s[1..][..k])); } else { tail := OpenSingle(s[1..]); }
    } else if s[0] == 0x22 {
      var k := FindDouble(s[1..], esc);
      CutQuoted(s, 0x22, k);
      if k < |s| - 1 { first := Some(Double(s[1..][..k])); } else { tail := OpenDouble(s[1..]); }
    } else {
      first := Some(Plain(s[0]));
    }
  }

  lemma CutQuoted(s: Text, quote: byte, k: nat)
    requires s != [] && s[0] == quote && k < |s| && (k < |s| - 1 ==> s[1..][k] == quote)
    ensures s == [quote] + s[1..] && s[1..][..|s| - 1] == s[1..]
    ensures k < |s| - 1 ==>
              var piece := [quote] + s[1..][..k] + [quote]; |piece| == k + 2 && s == piece + s[k + 2..]
  {
  }

  /** The first word of a text that starts inside a word. */
  lemma {:induction false} ParseWord(s: Text, esc: byte) returns (pieces: seq<Piece>, tail: Tail, rest: Text)
    requires ValidEscape(esc)
    ensures s == WordText(pieces, tail, esc) + rest && |rest| <= |s|
    ensures (forall k :: 0 <= k < |pieces| ==> PieceOk(pieces[k], esc)) && TailOk(tail, esc)
    ensures rest == [] || (tail.Closed? && IsSpace(rest[0]))
    decreases |s|
  {
    hide InDouble, WordText, PieceText, TailText, PieceOk, IsSpace;
    pieces, tail, rest := [], Closed, [];
    if s == [] || IsSpace(s[0]) {
      rest := s;
      OpenWord(tail, esc);
      assert TailText(Closed, esc) + s == s;
    } else {
      var first, open := FirstPiece(s, esc);
      if first.None? {
        tail := open;
        OpenWord(tail, esc);
        assert s + [] == s;
      } else {
        var text := PieceText(first.value, esc);
        var others;
        others, tail, rest := ParseWord(s[|text|..], esc);
        pieces := [first.value] + others;
        WordCons(first.value, others, tail, esc);
        Sequences.Assoc(text, WordText(others, tail, esc), rest);
      }
    }
  }

  lemma OpenWord(tail: Tail, esc: byte)
    ensures WordText([], tail, esc) == TailText(tail, esc) && TailText(Closed, esc) == []
  {
  }

  lemma WordCons(first: Piece, others: seq<Piece>, tail: Tail, esc: byte)
    ensures WordText([first] + others, tail, esc) == PieceText(first, esc) + WordText(others, tail, esc)
  {
    assert ([first] + others)[1..] == others;
  }

  /** Every line has such a form, so its tokens are known whatever it is. */
  lemma {:induction false} ParseLine(s: Text, esc: byte) returns (l: Line)
    requires ValidEscape(esc)
    ensures LineOk(l, esc) && LineText(l, esc) == s
    ensures s != [] && !IsSpace(s[0]) ==> l.Word?
    ensures s != [] && IsSpace(s[0]) ==> l.Gap?
    decreases |s|
  {
    hide PieceOk, TailOk, PieceText;
    if s == [] {
      l := End;
    } else if IsSpace(s[0]) {
      var rest := ParseLine(s[1..], esc);
      l := Gap(s[0], rest);
    } else {
      var pieces, tail, more := ParseWord(s, esc);
      SomeWord(pieces, tail, esc, s, more);
      var rest := ParseLine(more, esc);
      l := Word(pieces, tail, rest);
    }
  }

  lemma SomeWord(pieces: seq<Piece>, tail: Tail, esc: byte, s: Text, rest: Text)
    requires s != [] && !IsSpace(s[0]) && s == WordText(pieces, tail, esc) + rest
    requires rest == [] || IsSpace(rest[0])
    ensures pieces != [] || !tail.Closed?
    ensures |rest| < |s|
  {
    assert pieces == [] && tail.Closed? ==> s == rest;
    assert pieces != [] ==> WordText(pieces, tail, esc)[0] == PieceText(pieces[0], esc)[0];
  }

  // ---------- white space inside and outside of tokens ----------

  /** The byte at offset `p` of the word is covered by an escape or stands in quotes. */
  predicate Covered(pieces: seq<Piece>, tail: Tail, esc: byte, p: nat) {
    if pieces == [] then !tail.Dangling? && 0 < p
    else
      var n := |PieceText(pieces[0], esc)|;
      if p < n then !pieces[0].Plain? && 0 < p && (pieces[0].Escaped? || p < n - 1)
      else Covered(pieces[1..], tail, esc, p - n)
  }

  predicate CoveredIn(l: Line, esc: byte, p: nat) {
    match l
    case End => false
    case Gap(_, rest) => p > 0 && CoveredIn(rest, esc, p - 1)
    case Word(pieces, tail, rest) =>
      var n := |WordText(pieces, tail, esc)|;
      if p < n then Covered(pieces, tail, esc, p) else CoveredIn(rest, esc, p - n)
  }

  lemma {:induction false} SpaceInWord(pieces: seq<Piece>, tail: Tail, esc: byte, p: nat)
    requires ValidEscape(esc) && forall k :: 0 <= k < |pieces| ==> PieceOk(pieces[k], esc)
    requires p < |WordText(pieces, tail, esc)| && IsSpace(WordText(pieces, tail, esc)[p])
    ensures Covered(pieces, tail, esc, p)
  {
    hide InDouble;
    if pieces != [] {
      var n := |PieceText(pieces[0], esc)|;
      if p >= n { SpaceInWord(pieces[1..], tail, esc, p - n); }
    }
  }

  lemma InWords(first: Token, rest: seq<Token>, p: nat)
    ensures InToken([first] + rest, p) <==> first.start <= p < first.End() || InToken(rest, p)
  {
    var all := [first] + rest;
    assert all[0] == first;
    assert forall k :: 0 <= k < |rest| ==> all[k + 1] == rest[k];
    if InToken(all, p) {
      var k :| 0 <= k < |all| && all[k].start <= p < all[k].End();
      assert k > 0 ==> all[k] == rest[k - 1];
    }
    InTokenCons(first, rest, p);
  }

  lemma {:induction false} WordsBehind(l: Line, esc: byte, at: nat, p: nat)
    ensures InToken(Words(l, esc, at), p) ==> at <= p
    decreases l
  {
    hide WordText, InToken;
    match l
    case End => NoWords(p);
    case Gap(_, rest) => WordsBehind(rest, esc, at + 1, p);
    case Word(pieces, tail, rest) =>
      var n := |WordText(pieces, tail, esc)|;
      InWords(Token(at, WordText(pieces, tail, esc)), Words(rest, esc, at + n), p);
      WordsBehind(rest, esc, at + n, p);
  }

  lemma NoWords(p: nat)
    ensures !InToken([], p)
  {
  }

  /** White space is inside a token if and only if an escape covers it or it stands in quotes. */
  lemma {:induction false} SpaceInside(l: Line, esc: byte, at: nat, p: nat)
    requires ValidEscape(esc) && LineOk(l, esc) && p < |LineText(l, esc)| && IsSpace(LineText(l, esc)[p])
    ensures InToken(Words(l, esc, at), at + p) <==> CoveredIn(l, esc, p)
    decreases l
  {
    hide WordText, InToken, Covered, PieceOk;
    match l
    case End =>
    case Gap(_, rest) =>
      if p == 0 { WordsBehind(rest, esc, at + 1, at); } else { SpaceInside(rest, esc, at + 1, p - 1); }
    case Word(pieces, tail, rest) =>
      var raw := WordText(pieces, tail, esc);
      InWords(Token(at, raw), Words(rest, esc, at + |raw|), at + p);
      if p < |raw| {
        SpaceInWord(pieces, tail, esc, p);
      } else {
        SpaceInside(rest, esc, at + |raw|, p - |raw|);
      }
  }

  /** For every line: its gaps and words, which are its tokens, and where its white space belongs. */
  lemma EveryLine(line: Text, esc: byte) returns (l: Line)
    requires ValidEscape(esc)
    ensures LineOk(l, esc) && LineText(l, esc) == line && Tokens(line, esc, 0) == Words(l, esc, 0)
    ensures forall p :: 0 <= p < |line| && IsSpace(line[p]) ==>
              (InToken(Tokens(line, esc, 0), p) <==> CoveredIn(l, esc, p))
  {
    hide LineOk, LineText, Tokens, InToken, CoveredIn;
    l := ParseLine(line, esc);
    TokensAreWords(l, esc);
    forall p | 0 <= p < |line| && IsSpace(line[p])
      ensures InToken(Tokens(line, esc, 0), p) <==> CoveredIn(l, esc, p)
    {
      SpaceInside(l, esc, 0, p);
    }
  }

  // ---------- a quoted flag ----------

  function Plains(s: Text): (ps: seq<Piece>)
    ensures |ps| == |s| && forall k :: 0 <= k < |s| ==> ps[k] == Plain(s[k])
  {
    seq(|s|, k requires 0 <= k < |s| => Plain(s[k]))
  }

  lemma {:induction false} PlainsText(s: Text, more: seq<Piece>, tail: Tail, esc: byte)
    ensures WordText(Plains(s) + more, tail, esc) == s + WordText(more, tail, esc)
  {
    hide WordText;
    if s == [] {
      assert Plains(s) + more == more;
      assert s + WordText(more, tail, esc) == WordText(more, tail, esc);
    } else {
      assert Plains(s) + more == [Plain(s[0])] + (Plains(s[1..]) + more);
      WordCons(Plain(s[0]), Plains(s[1..]) + more, tail, esc);
      PlainsText(s[1..], more, tail, esc);
      assert [s[0]] + (s[1..] + WordText(more, tail, esc)) == s + WordText(more, tail, esc);
    }
  }

  predicate AllPlain(s: Text, esc: byte) {
    forall k :: 0 <= k < |s| ==> PieceOk(Plain(s[k]), esc)
  }

  /** A RUN instruction with a flag that holds a quoted part. */
  function FlaggedRun(flag: Text, quote: byte, body: Text, command: Text): Text {
    [0x52, 0x55, 0x4E] + [0x20] + (flag + [quote] + body + [quote]) + [0x20] + command
  }

  function Quoted(quote: byte, body: Text): Piece {
    if quote == 0x27 then Single(body) else Double(body)
  }

  /** Its gaps and words: the quoted part, with all its white space, belongs to the flag. */
  lemma FlaggedRunTokens(flag: Text, quote: byte, body: Text, command: Text, esc: byte)
    requires ValidEscape(esc) && flag != [] && AllPlain(flag, esc) && IsQuote(quote)
    requires PieceOk(Quoted(quote, body), esc) && command != [] && !IsSpace(command[0])
    ensures var n := |flag| + |body| + 7;
            var tokens := Tokens(FlaggedRun(flag, quote, body, command), esc, 0);
            && |tokens| >= 3
            && tokens[0] == Token(0, [0x52, 0x55, 0x4E])
            && tokens[1] == Token(4, flag + [quote] + body + [quote])
            && tokens[2].start == n && tokens[2].raw != [] && tokens[2].raw <= command
  {
    hide WordText, PieceOk, Tokens, Plains;
    var run: Text := [0x52, 0x55, 0x4E];
    var raw := flag + [quote] + body + [quote];
    var rest := ParseLine(command, esc);
    var flagged := Plains(flag) + [Quoted(quote, body)];
    RunWord(esc);
    FlagWord(flag, quote, body, esc);
    FlagPieces(flag, quote, body, esc);
    CommandWord(rest, command, esc, |raw| + 5);
    var l1 := Gap(0x20, rest);
    var l2 := Word(flagged, Closed, l1);
    var l3 := Gap(0x20, l2);
    var l := Word(Plains(run), Closed, l3);
    assert LineOk(l1, esc) && LineText(l1, esc) == [0x20] + command;
    assert LineOk(l2, esc) && LineText(l2, esc) == raw + LineText(l1, esc);
    assert LineOk(l3, esc) && LineText(l3, esc) == [0x20] + LineText(l2, esc);
    assert LineOk(l, esc) && LineText(l, esc) == run + LineText(l3, esc);
    assert LineText(l, esc) == FlaggedRun(flag, quote, body, command);
    TokensAreWords(l, esc);
    var words := Words(rest, esc, |raw| + 5);
    assert Words(l1, esc, |raw| + 4) == words;
    assert Words(l2, esc, 4) == [Token(4, raw)] + words;
    assert Words(l3, esc, 3) == Words(l2, esc, 4);
    assert Words(l, esc, 0) == [Token(0, run)] + ([Token(4, raw)] + words);
  }

  lemma FlagPieces(flag: Text, quote: byte, body: Text, esc: byte)
    requires AllPlain(flag, esc) && PieceOk(Quoted(quote, body), esc)
    ensures var flagged := Plains(flag) + [Quoted(quote, body)];
            flagged != [] && forall k :: 0 <= k < |flagged| ==> PieceOk(flagged[k], esc)
  {
    hide PieceOk;
  }

  lemma RunWord(esc: byte)
    requires ValidEscape(esc)
    ensures WordText(Plains([0x52, 0x55, 0x4E]), Closed, esc) == [0x52, 0x55, 0x4E]
    ensures forall k :: 0 <= k < 3 ==> PieceOk(Plains([0x52, 0x55, 0x4E])[k], esc)
  {
    PlainsText([0x52, 0x55, 0x4E], [], Closed, esc);
    assert Plains([0x52, 0x55, 0x4E]) + [] == Plains([0x52, 0x55, 0x4E]);
  }

  lemma FlagWord(flag: Text, quote: byte, body: Text, esc: byte)
    requires IsQuote(quote)
    ensures WordText(Plains(flag) + [Quoted(quote, body)], Closed, esc) == flag + [quote] + body + [quote]
  {
    var q := Quoted(quote, body);
    PlainsText(flag, [q], Closed, esc);
    assert [q] + [] == [q];
    WordCons(q, [], Closed, esc);
    assert flag + ([quote] + body + [quote]) == flag + [quote] + body + [quote];
  }

  lemma CommandWord(rest: Line, command: Text, esc: byte, at: nat)
    requires rest.Word? && LineOk(rest, esc) && LineText(rest, esc) == command
    requires ValidEscape(esc)
    ensures var words := Words(rest, esc, at);
            words != [] && words[0].start == at && words[0].raw != [] && words[0].raw <= command
  {
    WordVisible(rest.pieces, rest.tail, esc);
  }

  /** The injection goes before the command, not into the quoted flag. */
  lemma FlaggedRunChoice(flag: Text, quote: byte, body: Text, command: Text, st: Setting)
    requires ValidEscape(st.esc) && AllPlain(flag, st.esc) && IsQuote(quote)
    requires PieceOk(Quoted(quote, body), st.esc) && |flag| >= 2 && flag[0] == 0x2D && flag[1] == 0x2D
    requires command != [] && !IsSpace(command[0]) && command[0] != 0x23 && command[0] != 0x2D
    requires forall raw :: !st.heredoc(raw)
    ensures var line := FlaggedRun(flag, quote, body, command);
            && ChooseIn(line, st.esc, st.heredoc) == Accept(2)
            && IndexIn(line, st) == |flag| + |body| + 7
  {
    hide Tokens, PieceOk, AllPlain;
    var line := FlaggedRun(flag, quote, body, command);
    FlaggedRunTokens(flag, quote, body, command, st.esc);
    var tokens := Tokens(line, st.esc, 0);
    FlagIff(tokens[1].raw);
    FlagIff(tokens[2].raw);
    assert tokens[2].raw[0] == command[0];
    assert tokens[2].raw[..1][0] == command[0];
    ChooseMeaning(tokens, st.heredoc, 1, 2);
  }

  function Ascii(s: string): (t: Text)
    requires forall k :: 0 <= k < |s| ==> s[k] < '\U{80}'
    ensures |t| == |s| && forall k :: 0 <= k < |s| ==> t[k] as int == s[k] as int
  {
    seq(|s|, k requires 0 <= k < |s| => s[k] as int as byte)
  }

  /** A flag whose quoted value holds a space: the place is byte 44, where the command starts. */
  lemma RunWithQuotedFlag(st: Setting)
    requires ValidEscape(st.esc) && forall raw :: !st.heredoc(raw)
    ensures var flag, body := Ascii("--mount="), Ascii("type=cache, target=/var/cache");
            var line := FlaggedRun(flag, 0x22, body, Ascii("echo hello"));
            ChooseIn(line, st.esc, st.heredoc) == Accept(2) && IndexIn(line, st) == 44
  {
    hide *;
    var flag, body, command := "--mount=", "type=cache, target=/var/cache", "echo hello";
    FlagLetters(st.esc);
    BodyLetters(st.esc);
    CommandLetters();
    FlaggedRunChoice(Ascii(flag), 0x22, Ascii(body), Ascii(command), st);
  }

  lemma FlagLetters(esc: byte)
    requires ValidEscape(esc)
    ensures var flag := Ascii("--mount=");
            |flag| == 8 && AllPlain(flag, esc) && flag[0] == 0x2D && flag[1] == 0x2D
    ensures IsQuote(0x22)
  {
    var s := "--mount=";
    assert forall k :: 0 <= k < |s| ==> s[k] > ' ' && s[k] != '\\' && s[k] != '`' && s[k] != '"' && s[k] != '\'';
  }

  lemma BodyLetters(esc: byte)
    requires ValidEscape(esc)
    ensures var body := Ascii("type=cache, target=/var/cache");
            |body| == 29 && PieceOk(Quoted(0x22, body), esc)
  {
    var s := "type=cache, target=/var/cache";
    assert forall k :: 0 <= k < |s| ==> s[k] != '\\' && s[k] != '`' && s[k] != '"';
    NoSpecial(Ascii(s), esc);
  }

  lemma CommandLetters()
    ensures var command := Ascii("echo hello");
            command != [] && !IsSpace(command[0]) && command[0] != 0x23 && command[0] != 0x2D
  {
    assert "echo hello"[0] == 'e';
  }

  lemma {:induction false} NoSpecial(body: Text, esc: byte)
    requires forall k :: 0 <= k < |body| ==> body[k] != esc && body[k] != 0x22
    ensures InDouble(body, esc, true)
  {
    if body != [] { NoSpecial(body[1..], esc); }
  }
}
