/** Exactly when gathering an injected RUN again gives the intended logical line, for ASCII text. */
module InjectionExactness {
  import Sequences
  import opened Bytes
  import opened Tokenizer
  import opened LogicalLines
  import opened RunInjector
  import opened InjectionProofs

  ghost predicate Ascii(s: Text) {
    forall i :: 0 <= i < |s| ==> s[i] < 0x80
  }

  predicate AsciiSpace(c: byte) {
    0x09 <= c <= 0x0D || c == SPACE
  }

  predicate AllSpace(s: Text) {
    s == [] || (AsciiSpace(s[0]) && AllSpace(s[1..]))
  }

  /** After ASCII white space comes a `#`. */
  predicate HashFirst(s: Text) {
    s != [] && (s[0] == HASH || (AsciiSpace(s[0]) && HashFirst(s[1..])))
  }

  lemma {:induction false} HashIsComment(s: Text)
    ensures HashFirst(s) ==> IsComment(s)
    ensures Ascii(s) && IsComment(s) ==> HashFirst(s)
  {
    if s != [] {
      if AsciiSpace(s[0]) {
        assert TrimLeftSpace(s) == TrimLeftSpace(s[1..]) by { assert SpaceRune(s) == 1; }
        HashIsComment(s[1..]);
      } else if Ascii(s) || s[0] == HASH {
        assert SpaceRune(s) == 0;
      }
    }
  }

  lemma {:induction false} HashAppend(x: Text, y: Text)
    ensures HashFirst(x + y) <==> HashFirst(x) || (AllSpace(x) && HashFirst(y))
  {
    if x == [] {
      assert x + y == y;
    } else {
      assert (x + y)[1..] == x[1..] + y;
      HashAppend(x[1..], y);
    }
  }

  /** A logical line never starts with a comment. */
  lemma {:induction false} LogicalNoHash(lines: seq<Text>, esc: byte, i: nat)
    ensures !HashFirst(Logical(lines, esc, i))
    decreases |lines| - i
  {
    hide IsComment, HasContinuation, TrimContinuation;
    if i < |lines| {
      LogicalNoHash(lines, esc, i + 1);
      var l := lines[i];
      var c := TrimContinuation(l, esc);
      if !IsComment(l) {
        HashIsComment(l);
        TrimContinuationPrefix(l, esc);
        assert l == c + l[|c|..];
        HashAppend(c, l[|c|..]);
        HashAppend(c, Logical(lines, esc, i + 1));
      }
    }
  }

  /** The condition, on the text `a` before the insertion and the fixed lines: no line but the last
      ends in the escape token, and none that begins a physical line is a comment. */
  predicate Fits(a: Text, fs: seq<Text>, esc: byte)
    decreases |fs|
  {
    fs == [] ||
    (&& !(AllSpace(a) && HashFirst(fs[0]))
     && (|fs| >= 2 ==> (fs[0] == [] || fs[0][|fs[0]| - 1] != esc) && Fits([], fs[1..], esc)))
  }

  ghost predicate AsciiAll(fs: seq<Text>) {
    forall j :: 0 <= j < |fs| ==> Ascii(fs[j])
  }

  /** What is needed of the text around the insertion: `b` starts with a visible byte, no `#`. */
  ghost predicate AtToken(a: Text, b: Text, esc: byte) {
    && Ascii(a) && Ascii(b) && !HashFirst(a)
    && (a == [] || a[|a| - 1] != esc)
    && b != [] && !IsSpace(b[0]) && b[0] != HASH
    && KeepsContinuation(b, esc) && TrimContinuation(b, esc) != []
  }

  lemma AtTokenRest(a: Text, b: Text, esc: byte)
    requires AtToken(a, b, esc)
    ensures AtToken([], b, esc)
  {
    hide KeepsContinuation, TrimContinuation;
  }

  lemma PieceComment(x: Text, y: Text)
    requires Ascii(x) && Ascii(y) && y != [] && !IsSpace(y[0]) && y[0] != HASH
    ensures IsComment(x + y) <==> HashFirst(x)
  {
    hide IsComment;
    HashIsComment(x + y);
    HashAppend(x, y);
  }

  /** A comment line is skipped, and what is gathered instead cannot begin with a comment. */
  lemma SkippedDiffers(lines: seq<Text>, t: nat, x: Text, more: Text, esc: byte)
    requires t < |lines| && IsComment(lines[t]) && HashFirst(x)
    ensures Logical(lines, esc, t) != x + more
  {
    hide IsComment, HasContinuation, TrimContinuation;
    LogicalNoHash(lines, esc, t);
    HashAppend(x, more);
  }

  /** A line `x` that already ends in the escape is not continued by one more escape. */
  lemma EscapedStops(lines: seq<Text>, t: nat, x: Text, more: Text, esc: byte)
    requires ValidEscape(esc) && t < |lines| && lines[t] == x + [esc] && !IsComment(lines[t])
    requires x != [] && x[|x| - 1] == esc
    requires more != [] && more != [esc]
    ensures Logical(lines, esc, t) != x + more
  {
    hide IsComment;
    TrimRightUnique(x + [esc], |x| + 1);
    assert (x + [esc])[..|x| + 1] == x + [esc];
    assert (x + [esc])[|x| - 1] == esc;
    assert Logical(lines, esc, t) == x + [esc];
    assert (x + more)[|x|..] == more && (x + [esc])[|x|..] == [esc];
  }

  lemma RestNotEscape(u: Text, b: Text, tail: Text, esc: byte)
    requires KeepsContinuation(b, esc) && TrimContinuation(b, esc) != []
    ensures u + TrimContinuation(b, esc) + tail != [esc] && u + TrimContinuation(b, esc) + tail != []
  {
    TrimRightFacts(b);
    var c := TrimContinuation(b, esc);
    if |u + c + tail| == 1 {
      assert u == [] && tail == [] && |c| == 1;
      assert u + c + tail == c;
      TrimContinuationPrefix(b, esc);
      assert c[0] == b[0];
    }
  }

  /** Gathering the inserted lines gives the intended text if and only if the injection fits. */
  lemma {:induction false} InsertedIff(lines: seq<Text>, t: nat, a: Text, fs: seq<Text>, b: Text, esc: byte, tail: Text)
    requires ValidEscape(esc) && AtToken(a, b, esc) && AsciiAll(fs)
    requires StandsAt(Inserted(a, fs, b, esc), lines, t)
    requires tail == if HasContinuation(b, esc) then Logical(lines, esc, t + |Inserted(a, fs, b, esc)|) else []
    ensures Logical(lines, esc, t) == a + Concat(fs) + TrimContinuation(b, esc) + tail <==> Fits(a, fs, esc)
    decreases |fs|
  {
    hide IsComment, HasContinuation, TrimContinuation, KeepsContinuation, Logical, HashFirst, AllSpace;
    var c := TrimContinuation(b, esc);
    var ls := Inserted(a, fs, b, esc);
    assert lines[t + 0] == ls[0];
    if fs == [] {
      PieceComment(a, b);
      LastInserted(lines, t, a, b, esc);
      assert a + Concat(fs) == a;
    } else {
      var x := a + fs[0];
      HashAppend(a, fs[0]);
      if |fs| == 1 {
        PieceComment(x, b);
        assert fs[0] + [] == fs[0];
        assert Concat(fs) == fs[0];
        if HashFirst(x) {
          SkippedDiffers(lines, t, x, c + tail, esc);
          assert x + (c + tail) == x + c + tail;
        } else {
          LastInserted(lines, t, x, b, esc);
        }
      } else {
        InsertedIffHead(lines, t, a, fs, b, esc, tail);
      }
    }
  }

  lemma {:induction false} InsertedIffHead(lines: seq<Text>, t: nat, a: Text, fs: seq<Text>, b: Text, esc: byte,
                                           tail: Text)
    requires ValidEscape(esc) && AtToken(a, b, esc) && AsciiAll(fs) && |fs| >= 2
    requires StandsAt(Inserted(a, fs, b, esc), lines, t)
    requires tail == if HasContinuation(b, esc) then Logical(lines, esc, t + |Inserted(a, fs, b, esc)|) else []
    ensures Logical(lines, esc, t) == a + Concat(fs) + TrimContinuation(b, esc) + tail <==> Fits(a, fs, esc)
    decreases |fs|, 0
  {
    hide IsComment, HasContinuation, TrimContinuation, KeepsContinuation, Logical, HashFirst, AllSpace;
    hide StandsAt, AtToken, Concat;
    var x, c, rest := a + fs[0], TrimContinuation(b, esc), Concat(fs[1..]);
    var ls, tl := Inserted(a, fs, b, esc), Inserted([], fs[1..], b, esc);
    assert ls == [x + [esc]] + tl && ls[1..] == tl;
    var more := [] + rest + c + tail;
    assert a + Concat(fs) + c + tail == x + more by {
      ConcatHead(fs);
      Rejoin(a, fs[0], rest, c, tail);
    }
    StandsFirst(ls, lines, t);
    HeadPiece(a, fs[0], b, esc);
    if HashFirst(x) {
      SkippedDiffers(lines, t, x, more, esc);
    } else if x != [] && x[|x| - 1] == esc {
      RestNotEscape([] + rest, b, tail, esc);
      EscapedStops(lines, t, x, more, esc);
    } else {
      StandsAtTail(ls, lines, t);
      HeadContinues(lines, t, x, esc);
      AtTokenRest(a, b, esc);
      InsertedIff(lines, t + 1, [], fs[1..], b, esc, tail);
      Sequences.SamePrefix(x, Logical(lines, esc, t + 1), more);
    }
  }

  lemma ConcatHead(fs: seq<Text>)
    requires fs != []
    ensures Concat(fs) == fs[0] + Concat(fs[1..])
  {
  }

  lemma StandsFirst(ls: seq<Text>, lines: seq<Text>, t: nat)
    requires ls != [] && StandsAt(ls, lines, t)
    ensures t < |lines| && lines[t] == ls[0]
  {
    assert lines[t + 0] == ls[0];
  }

  lemma HeadPiece(a: Text, f: Text, b: Text, esc: byte)
    requires ValidEscape(esc) && AtToken(a, b, esc) && Ascii(f)
    ensures var x := a + f;
            && (IsComment(x + [esc]) <==> HashFirst(x))
            && (HashFirst(x) <==> AllSpace(a) && HashFirst(f))
            && ((x == [] || x[|x| - 1] != esc) <==> (f == [] || f[|f| - 1] != esc))
            && KeepsContinuation(b, esc) && TrimContinuation(b, esc) != []
  {
    hide IsComment, HashFirst, AllSpace, KeepsContinuation, TrimContinuation;
    var x := a + f;
    PieceComment(x, [esc]);
    HashAppend(a, f);
    if f == [] { assert x == a; } else { assert x[|x| - 1] == f[|f| - 1]; }
  }

  lemma HeadContinues(lines: seq<Text>, t: nat, x: Text, esc: byte)
    requires ValidEscape(esc) && t < |lines| && lines[t] == x + [esc] && !IsComment(lines[t])
    requires x == [] || x[|x| - 1] != esc
    ensures Logical(lines, esc, t) == x + Logical(lines, esc, t + 1)
  {
    hide IsComment, HasContinuation, TrimContinuation;
    ContinuationAdded(x, esc);
  }

  // ---------- for an instruction and for a whole file ----------

  lemma RegatherLineIff(lines: seq<Text>, m: nat, k: nat, fs: seq<Text>, esc: byte, other: seq<Text>, s: nat)
    requires ValidEscape(esc) && AsciiAll(fs) && m < |lines| && !IsComment(lines[m])
    requires k < |TrimContinuation(lines[m], esc)| && AtToken(lines[m][..k], lines[m][k..], esc)
    requires Replaced(lines, m, m, RunEnd(lines, esc, m), Inserted(lines[m][..k], fs, lines[m][k..], esc), other, s)
    ensures k < |Logical(lines, esc, m)|
    ensures Logical(other, esc, s) == Insert(Logical(lines, esc, m), k, Concat(fs)) <==> Fits(lines[m][..k], fs, esc)
  {
    hide IsComment, HasContinuation, TrimContinuation, KeepsContinuation, StandsAt, Inserted, Concat, Fits, HashFirst;
    var p := lines[m];
    var a, b := p[..k], p[k..];
    assert k == 0 || p[k - 1] == a[|a| - 1];
    assert b[0] == p[k];
    CutKeeps(p, k, esc);
    var tail := if HasContinuation(p, esc) then Logical(lines, esc, m + 1) else [];
    if HasContinuation(p, esc) {
      LogicalSame(lines, m + 1, other, s + |Inserted(a, fs, b, esc)|, esc);
    }
    var c := TrimContinuation(b, esc);
    assert Logical(lines, esc, m) == a + c + tail by { assert a + c + [] == a + c; }
    InsertMiddle(a, c, tail, Concat(fs));
    InsertedIff(other, s, a, fs, b, esc, tail);
  }

  lemma RegatherIff(lines: seq<Text>, i: nat, off: nat, fs: seq<Text>, esc: byte, other: seq<Text>, s: nat)
    requires ValidEscape(esc) && AsciiAll(fs) && off < |Logical(lines, esc, i)|
    requires var spot := Locate(lines, esc, i, off);
             var p := lines[spot.line];
             && AtToken(p[..spot.offset], p[spot.offset..], esc)
             && Replaced(lines, i, spot.line, RunEnd(lines, esc, i),
                         Inserted(p[..spot.offset], fs, p[spot.offset..], esc), other, s)
    ensures var spot := Locate(lines, esc, i, off);
            Logical(other, esc, s) == Insert(Logical(lines, esc, i), off, Concat(fs))
            <==> Fits(lines[spot.line][..spot.offset], fs, esc)
  {
    hide *;
    var Spot(m, k) := Locate(lines, esc, i, off);
    var u := GatherBefore(lines, i, off, esc, Inserted(lines[m][..k], fs, lines[m][k..], esc), other, s);
    RegatherLineIff(lines, m, k, fs, esc, other, s + m - i);
    InsertAfter(u, Logical(lines, esc, m), k, Concat(fs));
    Sequences.SamePrefix(u, Logical(other, esc, s + m - i), Insert(Logical(lines, esc, m), k, Concat(fs)));
  }

  lemma {:induction false} ChosenNotHash(tokens: seq<Token>, heredoc: Text -> bool, j: nat)
    requires Choose(tokens, heredoc, j).Accept?
    ensures !HasPrefix(tokens[Choose(tokens, heredoc, j).token].raw, [HASH])
    decreases |tokens| - j
  {
    if IsFlag(tokens[j].raw) { ChosenNotHash(tokens, heredoc, j + 1); }
  }

  lemma ChosenVisible(line: Text, st: Setting)
    requires ChooseIn(line, st.esc, st.heredoc).Accept?
    ensures line[IndexIn(line, st)] != HASH
  {
    hide Tokens, Choose;
    var tokens := Tokens(line, st.esc, 0);
    var tok := tokens[ChooseIn(line, st.esc, st.heredoc).token];
    TokensLossless(line, st.esc, 0);
    ChosenNotHash(tokens, st.heredoc, 1);
    assert SliceOf(line, tok);
    assert tok.raw[..1] == [tok.raw[0]];
  }

  lemma NodeAtToken(lines: seq<Text>, st: Setting, node: Node)
    requires ValidEscape(st.esc) && AsciiAll(lines) && Decide(lines, st, node).Inject?
    ensures var Spot(m, k) := Decide(lines, st, node).spot;
            m < |lines| && k <= |lines[m]| && AtToken(lines[m][..k], lines[m][k..], st.esc)
  {
    hide IsComment, Logical, Locate, Tokens, Choose, TrimContinuation, HashFirst, KeepsContinuation, HasContinuation;
    var line := Logical(lines, st.esc, Start(node));
    var off := IndexIn(line, st);
    ChosenByte(line, st.esc, st.heredoc);
    ChosenVisible(line, st);
    LocatedInLine(lines, st, node);
    LocateBytes(lines, st.esc, Start(node), off);
    var Spot(m, k) := Decide(lines, st, node).spot;
    var p := lines[m];
    TrimContinuationPrefix(p, st.esc);
    CutKeeps(p, k, st.esc);
    var a, b := p[..k], p[k..];
    assert p == a + b;
    assert k == 0 || a[|a| - 1] == p[k - 1];
    HashIsComment(p);
    HashAppend(a, b);
  }

  /** Exactness. For ASCII text the output gathers again to the intended logical line if and only
      if the injection fits behind the text before the chosen token on its physical line. */
  lemma InjectionExact(lines: seq<Text>, st: Setting, nodes: seq<Node>, a: nat)
    requires ValidEscape(st.esc) && PlainLines(lines) && PlainLines(st.fs) && AsciiAll(lines) && AsciiAll(st.fs)
    requires Disjoint(lines, st.esc, nodes) && a < |nodes|
    ensures Decide(lines, st, nodes[a]).Inject? ==>
            var s, final := Start(nodes[a]), EditAll(lines, st, nodes);
            var line := Logical(lines, st.esc, s);
            var Inject(Spot(m, k), i) := Decide(lines, st, nodes[a]);
            && i < |line| && s <= |final| && m < |lines| && k <= |lines[m]|
            && (Logical(Lines(Unsplit(final)), st.esc, |Flat(final[..s])|) == Insert(line, i, Concat(st.fs))
                <==> Fits(lines[m][..k], st.fs, st.esc))
  {
    hide Disjoint, EditAll, RunEnd, Flat, Inserted, Replaced, Insert, Lines, Logical, Locate, ChooseIn, Unsplit;
    hide Fits, AtToken;
    if Decide(lines, st, nodes[a]).Inject? {
      var s, final := Start(nodes[a]), EditAll(lines, st, nodes);
      RunReplaced(lines, st, nodes, a);
      NodeAtToken(lines, st, nodes[a]);
      SplitUnsplit(final);
      RegatherIff(lines, s, Decide(lines, st, nodes[a]).index, st.fs, st.esc, Flat(final), |Flat(final[..s])|);
    }
  }

  /** In an ASCII Containerfile the old command may always begin a line. */
  lemma AsciiMayBeginLine(lines: seq<Text>, st: Setting, node: Node)
    requires ValidEscape(st.esc) && AsciiAll(lines)
    ensures MayBeginLine(lines, st, node)
  {
    hide IsComment, Decide, KeepsContinuation, TrimContinuation, BlankEnd;
    if Decide(lines, st, node).Inject? {
      NodeAtToken(lines, st, node);
      var Spot(m, k) := Decide(lines, st, node).spot;
      HashIsComment(lines[m][k..]);
    }
  }

  /** The injection that the build makes for prefetched dependencies: source the environment file
      with the given quoted path, and continue on an indented line. */
  function PrefetchInjection(quotedPath: Text): Text {
    [0x2E, SPACE] + quotedPath + [SPACE, 0x26, 0x26, SPACE, BACKSLASH, NEWLINE, SPACE, SPACE, SPACE, SPACE]
  }

  /** Its two lines. */
  lemma PrefetchLines(quotedPath: Text) returns (head: Text, indent: Text)
    requires NEWLINE !in quotedPath
    ensures head == [0x2E, SPACE] + quotedPath + [SPACE, 0x26, 0x26, SPACE] && indent == [SPACE, SPACE, SPACE, SPACE]
    ensures FixedLines(PrefetchInjection(quotedPath)) == [head, indent]
    ensures TrimLeftSpace(indent) == []
  {
    hide Lines, TrimLeftSpace;
    head := [0x2E, SPACE] + quotedPath + [SPACE, 0x26, 0x26, SPACE];
    indent := [SPACE, SPACE, SPACE, SPACE];
    var x := PrefetchInjection(quotedPath);
    assert x == (head + [BACKSLASH]) + [NEWLINE] + indent;
    LinesFirst(head + [BACKSLASH], indent);
    LinesOf(indent);
    ContinuationAdded(head, BACKSLASH);
    BlankKept(indent);
    BlankTrims(indent);
  }

  /** It fits everywhere in ASCII text, with either escape token. */
  lemma PrefetchInjectionFits(quotedPath: Text, before: Text, esc: byte)
    requires ValidEscape(esc) && NEWLINE !in quotedPath
    ensures Fits(before, FixedLines(PrefetchInjection(quotedPath)), esc)
    ensures Concat(FixedLines(PrefetchInjection(quotedPath)))
            == [0x2E, SPACE] + quotedPath + [SPACE, 0x26, 0x26, SPACE, SPACE, SPACE, SPACE, SPACE]
  {
    hide FixedLines, TrimLeftSpace;
    var head, indent := PrefetchLines(quotedPath);
    assert head[0] == 0x2E;
    BlankNoHash(indent);
    FitsTwo(before, head, indent, esc);
  }

  lemma {:induction false} BlankNoHash(s: Text)
    requires forall i :: 0 <= i < |s| ==> s[i] == SPACE
    ensures !HashFirst(s)
  {
    if s != [] { BlankNoHash(s[1..]); }
  }

  lemma LinesOf(l: Text)
    requires l != [] && NEWLINE !in l
    ensures Lines(l) == [l]
  {
  }

  lemma BlankKept(s: Text)
    requires s == [SPACE, SPACE, SPACE, SPACE]
    ensures TrimContinuation(s, BACKSLASH) == s
  {
    TrimRightUnique(s, 0);
  }

  lemma {:induction false} BlankTrims(s: Text)
    requires forall i :: 0 <= i < |s| ==> s[i] == SPACE
    ensures TrimLeftSpace(s) == []
  {
    if s != [] {
      assert SpaceRune(s) == 1;
      BlankTrims(s[1..]);
    }
  }

  lemma FitsTwo(a: Text, f: Text, g: Text, esc: byte)
    requires f != [] && f[|f| - 1] != esc && !HashFirst(f) && !HashFirst(g)
    ensures Fits(a, [f, g], esc) && Concat([f, g]) == f + g
  {
    assert [f, g][1..] == [g] && [g][1..] == [];
    assert Concat([g]) == g + [] == g;
    assert Concat([f, g]) == f + Concat([g]);
    assert Fits([], [g], esc);
  }
}
