/** `tokenize`: splitting a Containerfile line into tokens, with quoting and escaping. */
module Tokenizer {
  import opened Bytes

  /** A token starts at `line[start]` and its raw text is a slice of the line. */
  datatype Token = Token(start: nat, raw: Text) {
    function End(): nat { start + |raw| }
  }

  /** The escape tokens a Containerfile can select. */
  predicate ValidEscape(esc: byte) {
    esc == BACKSLASH || esc == BACKTICK
  }

  /** The value of the opening quote when no quote is open. */
  const NO_QUOTE: byte := 0

  /** Does the escape token at index `i` form an escape sequence here, or is it literal? */
  predicate IsAnEscape(line: Text, esc: byte, i: nat, quote: byte) {
    if quote == SINGLE_QUOTE then false
    else if quote == DOUBLE_QUOTE then
      i + 1 < |line| && (line[i + 1] == DOUBLE_QUOTE || line[i + 1] == DOLLAR || line[i + 1] == esc)
    else true
  }

  // ---------- reference definition ----------

  /** Where an open token goes on after index `i`: an escape covers the byte after it too. */
  function NextIndex(line: Text, esc: byte, i: nat, quote: byte): nat
    requires i < |line|
  {
    if !IsSpace(line[i]) && line[i] == esc && IsAnEscape(line, esc, i, quote) then i + 2 else i + 1
  }

  /** The open quote after index `i` of an open token. */
  function NextQuote(line: Text, esc: byte, i: nat, quote: byte): byte
    requires i < |line|
  {
    var c := line[i];
    if IsSpace(c) || c == esc || (c != SINGLE_QUOTE && c != DOUBLE_QUOTE) then quote
    else if quote == NO_QUOTE then c
    else if quote == c then NO_QUOTE
    else quote
  }

  predicate EndsToken(line: Text, i: nat, quote: byte) {
    i >= |line| || (IsSpace(line[i]) && quote == NO_QUOTE)
  }

  /** The end of the token that is open at index `i`: the next unquoted, unescaped white space. */
  function TokenEnd(line: Text, esc: byte, i: nat, quote: byte): (e: nat)
    ensures e <= |line| && (i <= |line| ==> i <= e) && (!EndsToken(line, i, quote) ==> i < e)
    decreases |line| + 1 - i
  {
    if i >= |line| then |line|
    else if EndsToken(line, i, quote) then i
    else TokenEnd(line, esc, NextIndex(line, esc, i, quote), NextQuote(line, esc, i, quote))
  }

  /** The tokens at or after index `i`, where no token is open. */
  function Tokens(line: Text, esc: byte, i: nat): seq<Token>
    decreases |line| - i
  {
    if i >= |line| then []
    else if IsSpace(line[i]) then Tokens(line, esc, i + 1)
    else
      var e := TokenEnd(line, esc, i, NO_QUOTE);
      [Token(i, line[i..e])] + Tokens(line, esc, e)
  }

  // ---------- the state machine of the source ----------

  /** The scanning loop computes the reference tokens. An open quote implies an open token. */
  method Tokenize(line: Text, esc: byte) returns (tokens: seq<Token>)
    ensures tokens == Tokens(line, esc, 0)
  {
    hide Tokens, TokenEnd;
    var tokenStart: int := -1;
    var openingQuote: byte := NO_QUOTE;
    tokens := [];
    var i := 0;
    ghost var all := Tokens(line, esc, 0);
    ghost var end: nat := 0;   // where the open token will end
    ghost var rest := all;     // the tokens from `i`, or from `end` if a token is open
    while i < |line|
      invariant 0 <= i <= |line| + 1 && -1 <= tokenStart < |line| && tokenStart <= i
      invariant tokenStart < 0 ==> i <= |line| && openingQuote == NO_QUOTE
      invariant tokenStart < 0 ==> rest == Tokens(line, esc, i) && tokens + rest == all
      invariant tokenStart >= 0 ==>
                  && tokenStart <= end <= |line| && end == TokenEnd(line, esc, i, openingQuote)
                  && rest == Tokens(line, esc, end)
                  && tokens + ([Token(tokenStart, line[tokenStart..end])] + rest) == all
      decreases |line| + 1 - i
    {
      var c := line[i];
      var isSpace := IsSpace(c);
      if !isSpace && tokenStart < 0 {
        tokenStart := i;
        end := TokenEnd(line, esc, i, NO_QUOTE);
        rest := Tokens(line, esc, end);
        TokensAt(line, esc, i, end, line[i..end]);
      }
      ScanStep(line, esc, i, openingQuote);
      if isSpace {
        if openingQuote == NO_QUOTE && tokenStart >= 0 {
          Append(tokens, Token(tokenStart, line[tokenStart..i]), rest);
          tokens := tokens + [Token(tokenStart, line[tokenStart..i])];
          tokenStart := -1;
        }
      } else if c == esc {
        if IsAnEscape(line, esc, i, openingQuote) {
          i := i + 1;
        }
      } else if c == SINGLE_QUOTE || c == DOUBLE_QUOTE {
        if openingQuote == NO_QUOTE {
          openingQuote := c;
        } else if openingQuote == c {
          openingQuote := NO_QUOTE;
        }
      }
      i := i + 1;
    }
    ScanEnd(line, esc, i, openingQuote);
    if tokenStart >= 0 {
      assert line[tokenStart..end] == line[tokenStart..];
      tokens := tokens + [Token(tokenStart, line[tokenStart..])];
    }
  }

  /** What one byte means for the tokens to come and for the end of an open token. */
  lemma ScanStep(line: Text, esc: byte, i: nat, quote: byte)
    requires i < |line|
    ensures IsSpace(line[i]) ==> Tokens(line, esc, i) == Tokens(line, esc, i + 1)
    ensures TokenEnd(line, esc, i, quote) ==
            if EndsToken(line, i, quote) then i
            else TokenEnd(line, esc, NextIndex(line, esc, i, quote), NextQuote(line, esc, i, quote))
  {
  }

  lemma ScanEnd(line: Text, esc: byte, i: nat, quote: byte)
    requires i >= |line|
    ensures Tokens(line, esc, i) == [] && Tokens(line, esc, |line|) == [] && TokenEnd(line, esc, i, quote) == |line|
  {
  }

  lemma Append(done: seq<Token>, t: Token, rest: seq<Token>)
    ensures done + ([t] + rest) == done + [t] + rest
  {
  }

  /** The definition of `Tokens` at the start of a token. */
  lemma TokensAt(line: Text, esc: byte, i: nat, e: nat, raw: Text)
    requires i < |line| && !IsSpace(line[i])
    requires e == TokenEnd(line, esc, i, NO_QUOTE) && raw == line[i..e]
    ensures Tokens(line, esc, i) == [Token(i, raw)] + Tokens(line, esc, e)
  {
  }

  // ---------- losslessness ----------

  lemma {:induction false} TokenEndStops(line: Text, esc: byte, i: nat, quote: byte)
    ensures var e := TokenEnd(line, esc, i, quote); e < |line| ==> IsSpace(line[e])
    decreases |line| + 1 - i
  {
    if !EndsToken(line, i, quote) {
      TokenEndStops(line, esc, NextIndex(line, esc, i, quote), NextQuote(line, esc, i, quote));
    }
  }

  /** A token is a non-empty slice of the line that starts with a non-space byte, follows white
      space or the line start, and ends at white space or the line end. */
  ghost predicate SliceOf(line: Text, t: Token) {
    && t.raw != [] && t.End() <= |line|
    && t.raw == line[t.start..t.End()]
    && !IsSpace(line[t.start])
    && (t.start == 0 || IsSpace(line[t.start - 1]))
    && (t.End() == |line| || IsSpace(line[t.End()]))
  }

  ghost predicate InToken(tokens: seq<Token>, p: nat) {
    exists k :: 0 <= k < |tokens| && tokens[k].start <= p < tokens[k].End()
  }

  /** The tokens are separate slices in order, and only white space is left out of them. */
  ghost predicate Lossless(line: Text, from: nat, tokens: seq<Token>) {
    && (forall k :: 0 <= k < |tokens| ==> from <= tokens[k].start && SliceOf(line, tokens[k]))
    && (forall k, l :: 0 <= k < l < |tokens| ==> tokens[k].End() < tokens[l].start)
    && (forall p: nat :: from <= p < |line| && !InToken(tokens, p) ==> IsSpace(line[p]))
  }

  lemma LosslessCons(line: Text, t: Token, rest: seq<Token>)
    requires SliceOf(line, t) && Lossless(line, t.End(), rest)
    ensures Lossless(line, t.start, [t] + rest)
  {
    SlicesCons(line, t, rest);
    forall p: nat | t.start <= p < |line| && !InToken([t] + rest, p) ensures IsSpace(line[p]) {
      InTokenCons(t, rest, p);
    }
  }

  lemma SlicesCons(line: Text, t: Token, rest: seq<Token>)
    requires SliceOf(line, t)
    requires forall k :: 0 <= k < |rest| ==> t.End() <= rest[k].start && SliceOf(line, rest[k])
    requires forall k, l :: 0 <= k < l < |rest| ==> rest[k].End() < rest[l].start
    ensures var tokens := [t] + rest;
            && (forall k :: 0 <= k < |tokens| ==> t.start <= tokens[k].start && SliceOf(line, tokens[k]))
            && (forall k, l :: 0 <= k < l < |tokens| ==> tokens[k].End() < tokens[l].start)
  {
    var tokens := [t] + rest;
    assert forall k :: 0 < k < |tokens| ==> tokens[k] == rest[k - 1];
  }

  lemma InTokenCons(t: Token, rest: seq<Token>, p: nat)
    ensures InToken(rest, p) || t.start <= p < t.End() ==> InToken([t] + rest, p)
  {
    assert ([t] + rest)[0] == t;
    if InToken(rest, p) {
      var k :| 0 <= k < |rest| && rest[k].start <= p < rest[k].End();
      assert ([t] + rest)[k + 1] == rest[k];
    }
  }

  /** Nothing but white space is lost between tokens. */
  lemma {:induction false} TokensLossless(line: Text, esc: byte, i: nat)
    requires i == 0 || i >= |line| || IsSpace(line[i]) || IsSpace(line[i - 1])
    ensures Lossless(line, i, Tokens(line, esc, i))
    decreases |line| - i
  {
    hide Lossless, TokenEnd, IsSpace;
    if i >= |line| {
      LosslessEnd(line, i);
    } else if IsSpace(line[i]) {
      TokensLossless(line, esc, i + 1);
      LosslessSpace(line, i, Tokens(line, esc, i + 1));
    } else {
      var e := TokenEnd(line, esc, i, NO_QUOTE);
      TokenEndStops(line, esc, i, NO_QUOTE);
      TokensLossless(line, esc, e);
      TokensAt(line, esc, i, e, line[i..e]);
      LosslessToken(line, i, e, Tokens(line, esc, e));
    }
  }

  lemma LosslessEnd(line: Text, i: nat)
    requires i >= |line|
    ensures Lossless(line, i, [])
  {
  }

  lemma LosslessSpace(line: Text, i: nat, tokens: seq<Token>)
    requires i < |line| && IsSpace(line[i]) && Lossless(line, i + 1, tokens)
    ensures Lossless(line, i, tokens)
  {
  }

  lemma LosslessToken(line: Text, i: nat, e: nat, rest: seq<Token>)
    requires i < e <= |line| && !IsSpace(line[i]) && (e < |line| ==> IsSpace(line[e]))
    requires i == 0 || IsSpace(line[i - 1])
    requires Lossless(line, e, rest)
    ensures Lossless(line, i, [Token(i, line[i..e])] + rest)
  {
    LosslessCons(line, Token(i, line[i..e]), rest);
  }

  // ---------- locality: a token end depends only on the bytes of the token ----------

  /** The bytes `line[i..e]` stand at `i + d` in `other`, which stops or has white space where
      they end; only where the line itself ended must `other` end as well. */
  ghost predicate SameSpan(line: Text, other: Text, d: nat, i: nat, e: nat) {
    && e <= |line| && d + e <= |other|
    && (forall p :: i <= p < e ==> line[p] == other[d + p])
    && (d + e < |other| ==> e < |line| && IsSpace(other[d + e]))
  }

  lemma {:induction false} TokenEndLocal(line: Text, other: Text, d: nat, esc: byte, i: nat, quote: byte)
    requires ValidEscape(esc) && i <= |line| + 1
    requires SameSpan(line, other, d, i, TokenEnd(line, esc, i, quote))
    ensures TokenEnd(other, esc, d + i, quote) == d + TokenEnd(line, esc, i, quote)
    decreases |line| + 1 - i
  {
    var e := TokenEnd(line, esc, i, quote);
    if i < |line| && !EndsToken(line, i, quote) {
      TokenEndStops(line, esc, i, quote);
      SameStep(line, other, d, esc, i, quote, e);
      TokenEndLocal(line, other, d, esc, NextIndex(line, esc, i, quote), NextQuote(line, esc, i, quote));
    }
  }

  lemma SameStep(line: Text, other: Text, d: nat, esc: byte, i: nat, quote: byte, e: nat)
    requires ValidEscape(esc) && i < e && SameSpan(line, other, d, i, e)
    requires e < |line| ==> IsSpace(line[e])
    requires NextIndex(line, esc, i, quote) <= e || e == |line|
    ensures NextIndex(other, esc, d + i, quote) == d + NextIndex(line, esc, i, quote)
    ensures NextQuote(other, esc, d + i, quote) == NextQuote(line, esc, i, quote)
  {
    assert line[i] == other[d + i];
    if i + 1 < e { assert line[i + 1] == other[d + i + 1]; }
  }

  function Shift(tokens: seq<Token>, d: nat): (r: seq<Token>)
    ensures |r| == |tokens|
  {
    seq(|tokens|, k requires 0 <= k < |tokens| => Token(tokens[k].start + d, tokens[k].raw))
  }

  function Raws(tokens: seq<Token>): (r: seq<Text>)
    ensures |r| == |tokens|
  {
    seq(|tokens|, k requires 0 <= k < |tokens| => tokens[k].raw)
  }

  lemma ShiftCons(t: Token, rest: seq<Token>, d: nat)
    ensures Shift([t] + rest, d) == [Token(t.start + d, t.raw)] + Shift(rest, d)
  {
  }

  lemma RawsParts(t: Token, rest: seq<Token>, d: nat)
    ensures Raws([t] + rest) == [t.raw] + Raws(rest)
    ensures Raws(Shift(rest, d)) == Raws(rest)
  {
  }

  /** Tokenizing looks only forward. */
  lemma TokensShift(a: Text, b: Text, esc: byte)
    requires ValidEscape(esc)
    ensures Tokens(a + b, esc, |a|) == Shift(Tokens(b, esc, 0), |a|)
  {
    TokensMoved(b, a + b, |a|, esc, 0);
  }

  /** The bytes of `b` end the line and start at index `d` of it. */
  ghost predicate Suffix(b: Text, line: Text, d: nat) {
    |line| == d + |b| && forall p :: 0 <= p < |b| ==> line[d + p] == b[p]
  }

  lemma {:induction false} TokensMoved(b: Text, line: Text, d: nat, esc: byte, i: nat)
    requires ValidEscape(esc) && i <= |b| && Suffix(b, line, d)
    ensures Tokens(line, esc, d + i) == Shift(Tokens(b, esc, i), d)
    decreases |b| - i
  {
    if i == |b| {
    } else if IsSpace(b[i]) {
      TokensMoved(b, line, d, esc, i + 1);
    } else {
      var e := TokenEnd(b, esc, i, NO_QUOTE);
      TokensMoved(b, line, d, esc, e);
      EndMoved(b, line, d, esc, i);
      SliceMoved(b, line, d, i, e);
      TokenMoved(b, line, d, esc, i, e);
    }
  }

  lemma EndMoved(b: Text, line: Text, d: nat, esc: byte, i: nat)
    requires ValidEscape(esc) && i < |b| && Suffix(b, line, d)
    ensures TokenEnd(line, esc, d + i, NO_QUOTE) == d + TokenEnd(b, esc, i, NO_QUOTE)
  {
    TokenEndStops(b, esc, i, NO_QUOTE);
    TokenEndLocal(b, line, d, esc, i, NO_QUOTE);
  }

  lemma SliceMoved(b: Text, line: Text, d: nat, i: nat, e: nat)
    requires i < e <= |b| && Suffix(b, line, d)
    ensures line[d + i..d + e] == b[i..e] && line[d + i] == b[i]
  {
    assert line[d..] == b;
  }

  lemma TokenMoved(b: Text, line: Text, d: nat, esc: byte, i: nat, e: nat)
    requires i < e <= |b| && d + e <= |line| && !IsSpace(b[i]) && !IsSpace(line[d + i])
    requires line[d + i..d + e] == b[i..e]
    requires e == TokenEnd(b, esc, i, NO_QUOTE) && d + e == TokenEnd(line, esc, d + i, NO_QUOTE)
    requires Tokens(line, esc, d + e) == Shift(Tokens(b, esc, e), d)
    ensures Tokens(line, esc, d + i) == Shift(Tokens(b, esc, i), d)
  {
    hide Tokens, TokenEnd, Shift;
    var raw := b[i..e];
    TokensAt(b, esc, i, e, raw);
    TokensAt(line, esc, d + i, d + e, raw);
    ShiftCons(Token(i, raw), Tokens(b, esc, e), d);
  }

  // ---------- stability ----------

  /** A token of `line` that stands at the front of `other` is the first token there. */
  lemma FirstToken(line: Text, other: Text, esc: byte, i: nat)
    requires ValidEscape(esc) && i < |line| && !IsSpace(line[i])
    requires var e := TokenEnd(line, esc, i, NO_QUOTE);
             && HasPrefix(other, line[i..e])
             && (e - i < |other| ==> e < |line| && IsSpace(other[e - i]))
    ensures var e := TokenEnd(line, esc, i, NO_QUOTE);
            Tokens(other, esc, 0) == [Token(0, line[i..e])] + Tokens(other, esc, e - i)
  {
    var e := TokenEnd(line, esc, i, NO_QUOTE);
    var raw := line[i..e];
    assert other[..|raw|] == raw;
    FirstEnd(line, other, esc, i, e);
    TokensAt(other, esc, 0, |raw|, raw);
  }

  lemma FirstEnd(line: Text, other: Text, esc: byte, i: nat, e: nat)
    requires ValidEscape(esc) && i < |line| && e == TokenEnd(line, esc, i, NO_QUOTE)
    requires HasPrefix(other, line[i..e]) && (e - i < |other| ==> e < |line| && IsSpace(other[e - i]))
    ensures TokenEnd(other, esc, 0, NO_QUOTE) == e - i
    ensures e > i ==> other[0] == line[i]
  {
    TailEnd(line, esc, i);
    var raw, tail := line[i..e], line[i..];
    assert forall p :: 0 <= p < e - i ==> tail[p] == raw[p] == other[..|raw|][p] == other[p];
    TokenEndLocal(tail, other, 0, esc, 0, NO_QUOTE);
  }

  lemma TailEnd(line: Text, esc: byte, i: nat)
    requires ValidEscape(esc) && i < |line|
    ensures i + TokenEnd(line[i..], esc, 0, NO_QUOTE) == TokenEnd(line, esc, i, NO_QUOTE)
  {
    TokenEndStops(line[i..], esc, 0, NO_QUOTE);
    TokenEndLocal(line[i..], line, i, esc, 0, NO_QUOTE);
  }

  lemma JoinCons(raw: Text, rest: seq<Text>)
    ensures Join([raw] + rest, [SPACE]) == if rest == [] then raw else raw + [SPACE] + Join(rest, [SPACE])
  {
    assert ([raw] + rest)[1..] == rest;
  }

  /** Re-tokenizing the raw tokens joined by single spaces gives the same raw tokens. */
  lemma {:induction false} TokensStable(line: Text, esc: byte, i: nat)
    requires ValidEscape(esc)
    ensures var raws := Raws(Tokens(line, esc, i));
            Raws(Tokens(Join(raws, [SPACE]), esc, 0)) == raws
    decreases |line| - i
  {
    if i >= |line| {
    } else if IsSpace(line[i]) {
      TokensStable(line, esc, i + 1);
    } else {
      var e := TokenEnd(line, esc, i, NO_QUOTE);
      TokensStable(line, esc, e);
      RawsParts(Token(i, line[i..e]), Tokens(line, esc, e), 0);
      StableCons(line, esc, i, Raws(Tokens(line, esc, e)));
    }
  }

  lemma StableCons(line: Text, esc: byte, i: nat, rest: seq<Text>)
    requires ValidEscape(esc) && i < |line| && !IsSpace(line[i])
    requires Raws(Tokens(Join(rest, [SPACE]), esc, 0)) == rest
    requires rest != [] ==> TokenEnd(line, esc, i, NO_QUOTE) < |line|
    ensures var raws := [line[i..TokenEnd(line, esc, i, NO_QUOTE)]] + rest;
            Raws(Tokens(Join(raws, [SPACE]), esc, 0)) == raws
  {
    hide Tokens, TokenEnd, Raws, Join, Shift;
    var e := TokenEnd(line, esc, i, NO_QUOTE);
    var raw, tail := line[i..e], Join(rest, [SPACE]);
    var joined := Join([raw] + rest, [SPACE]);
    JoinCons(raw, rest);
    if rest == [] { PrefixOf(raw, []); } else { PrefixOf(raw, [SPACE] + tail); SpaceAfter(raw, tail); }
    FirstToken(line, joined, esc, i);
    var more := Tokens(joined, esc, |raw|);
    RawsParts(Token(0, raw), more, 0);
    if rest == [] {
      ScanEnd(joined, esc, |raw|, NO_QUOTE);
    } else {
      ScanStep(joined, esc, |raw|, NO_QUOTE);
      TokensShift(raw + [SPACE], tail, esc);
      RawsParts(Token(0, raw), Tokens(tail, esc, 0), |raw| + 1);
    }
  }

  lemma PrefixOf(raw: Text, more: Text)
    ensures HasPrefix(raw + more, raw) && raw + [] == raw
  {
  }

  lemma SpaceAfter(raw: Text, tail: Text)
    ensures var s := raw + [SPACE] + tail;
            s == raw + ([SPACE] + tail) && |raw| < |s| && s[|raw|] == SPACE && |raw + [SPACE]| == |raw| + 1
  {
  }

  // ---------- editing at a token start ----------

  lemma {:induction false} TokenStartsOpen(line: Text, esc: byte, i: nat, j: nat)
    requires j < |Tokens(line, esc, i)|
    ensures var p := Tokens(line, esc, i)[j].start; i <= p < |line| && !IsSpace(line[p])
    decreases |line| - i
  {
    if IsSpace(line[i]) {
      TokenStartsOpen(line, esc, i + 1, j);
    } else if j > 0 {
      var e := TokenEnd(line, esc, i, NO_QUOTE);
      assert Tokens(line, esc, i)[j] == Tokens(line, esc, e)[j - 1];
      TokenStartsOpen(line, esc, e, j - 1);
    }
  }

  /** A line that agrees with `line` before its j-th token has the same first j tokens, and
      tokenizing it continues from there with no token or quote open. */
  lemma {:induction false} TokensPrefix(line: Text, other: Text, esc: byte, i: nat, j: nat, p: nat)
    requires ValidEscape(esc) && j < |Tokens(line, esc, i)| && p == Tokens(line, esc, i)[j].start
    requires p <= |line| && p <= |other| && forall q :: 0 <= q < p ==> line[q] == other[q]
    ensures i <= p && Tokens(other, esc, i) == Tokens(line, esc, i)[..j] + Tokens(other, esc, p)
    decreases |line| - i
  {
    TokenStartsOpen(line, esc, i, j);
    if IsSpace(line[i]) {
      TokensPrefix(line, other, esc, i + 1, j, p);
    } else if j > 0 {
      var e := TokenEnd(line, esc, i, NO_QUOTE);
      TokenKept(line, other, esc, i, j, p);
      TokensPrefix(line, other, esc, e, j - 1, p);
      PrefixCons(Token(i, line[i..e]), Tokens(line, esc, e), j, Tokens(other, esc, p));
    }
  }

  lemma LaterToken(line: Text, esc: byte, i: nat, j: nat)
    requires 0 < j < |Tokens(line, esc, i)| && i < |line| && !IsSpace(line[i])
    ensures var e := TokenEnd(line, esc, i, NO_QUOTE);
            && j - 1 < |Tokens(line, esc, e)| && Tokens(line, esc, i)[j] == Tokens(line, esc, e)[j - 1]
            && e <= Tokens(line, esc, i)[j].start < |line|
            && IsSpace(line[e]) && !IsSpace(line[Tokens(line, esc, i)[j].start])
  {
    var e := TokenEnd(line, esc, i, NO_QUOTE);
    TokenStartsOpen(line, esc, e, j - 1);
    TokenEndStops(line, esc, i, NO_QUOTE);
  }

  lemma TokenKept(line: Text, other: Text, esc: byte, i: nat, j: nat, p: nat)
    requires ValidEscape(esc) && 0 < j < |Tokens(line, esc, i)| && p == Tokens(line, esc, i)[j].start
    requires p <= |line| && p <= |other| && forall q :: 0 <= q < p ==> line[q] == other[q]
    requires i < |line| && !IsSpace(line[i])
    ensures var e := TokenEnd(line, esc, i, NO_QUOTE);
            && j - 1 < |Tokens(line, esc, e)| && p == Tokens(line, esc, e)[j - 1].start
            && i < |other| && Tokens(other, esc, i) == [Token(i, line[i..e])] + Tokens(other, esc, e)
  {
    var e := TokenEnd(line, esc, i, NO_QUOTE);
    LaterToken(line, esc, i, j);
    EndKept(line, other, esc, i, e, p);
  }

  lemma EndKept(line: Text, other: Text, esc: byte, i: nat, e: nat, p: nat)
    requires ValidEscape(esc) && i < |line| && !IsSpace(line[i])
    requires e == TokenEnd(line, esc, i, NO_QUOTE) < p <= |line| && IsSpace(line[e])
    requires p <= |other| && forall q :: 0 <= q < p ==> line[q] == other[q]
    ensures Tokens(other, esc, i) == [Token(i, line[i..e])] + Tokens(other, esc, e)
  {
    SameEnd(line, other, esc, i, e);
    assert other[i..e] == line[i..e];
    TokensAt(other, esc, i, e, line[i..e]);
  }

  lemma SameEnd(line: Text, other: Text, esc: byte, i: nat, e: nat)
    requires ValidEscape(esc) && i < |line|
    requires e == TokenEnd(line, esc, i, NO_QUOTE) < |line| && e < |other| && IsSpace(other[e])
    requires forall q :: i <= q < e ==> line[q] == other[q]
    ensures TokenEnd(other, esc, i, NO_QUOTE) == e
  {
    TokenEndLocal(line, other, 0, esc, i, NO_QUOTE);
  }

  lemma PrefixCons(t: Token, rest: seq<Token>, j: nat, more: seq<Token>)
    requires 0 < j <= |rest| + 1
    ensures [t] + (rest[..j - 1] + more) == ([t] + rest)[..j] + more
  {
  }

  /** Text inserted at a token start leaves every earlier token as it is, and what follows is
      tokenized as if the inserted text began a line. */
  lemma InsertAtToken(line: Text, esc: byte, j: nat, x: Text)
    requires ValidEscape(esc) && j < |Tokens(line, esc, 0)|
    ensures var p := Tokens(line, esc, 0)[j].start;
            && p < |line|
            && Tokens(line[..p] + x + line[p..], esc, 0)
               == Tokens(line, esc, 0)[..j] + Shift(Tokens(x + line[p..], esc, 0), p)
  {
    hide Tokens, Shift;
    TokenStartsOpen(line, esc, 0, j);
    var p := Tokens(line, esc, 0)[j].start;
    var edited := line[..p] + x + line[p..];
    TokensPrefix(line, edited, esc, 0, j, p);
    assert edited == line[..p] + (x + line[p..]);
    TokensShift(line[..p], x + line[p..], esc);
  }
}
