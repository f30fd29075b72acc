/** Exactly when gathering an injected RUN again gives the intended logical line and the intended
    extent of the instruction, for all byte texts. */
module InjectionExtent {
  import Sequences
  import opened Bytes
  import opened Tokenizer
  import opened LogicalLines
  import opened RunInjector
  import opened InjectionProofs
  import opened InjectionExactness

  /** The condition: none of the resulting physical lines is a comment, and no fixed line but the
      last ends in the escape token, which would escape the added continuation. */
  ghost predicate FitsAt(a: Text, fs: seq<Text>, b: Text, esc: byte) {
    NoComment(Inserted(a, fs, b, esc)) && BreaksContinue(fs, esc)
  }

  /** What is needed of the text around the insertion. */
  ghost predicate AtCut(a: Text, b: Text, esc: byte) {
    && (a == [] || a[|a| - 1] != esc)
    && KeepsContinuation(b, esc) && TrimContinuation(b, esc) != []
  }

  /** The intended text and end of the rest of a run: what follows the inserted lines is `tail`,
      and the run ends at `end`. */
  ghost predicate Follows(lines: seq<Text>, t: nat, b: Text, esc: byte, tail: Text, end: nat) {
    if HasContinuation(b, esc) then tail == Logical(lines, esc, t) && end == RunEnd(lines, esc, t)
    else tail == [] && end == t
  }

  lemma LastPiece(lines: seq<Text>, t: nat, x: Text, b: Text, esc: byte, tail: Text, end: nat)
    requires t < |lines| && lines[t] == x + b && KeepsContinuation(b, esc) && TrimContinuation(b, esc) != []
    requires Follows(lines, t + 1, b, esc, tail, end)
    ensures var goal := x + TrimContinuation(b, esc) + tail;
            && (Logical(lines, esc, t) == goal && RunEnd(lines, esc, t) == end <==> !IsComment(x + b))
            && (RunEnd(lines, esc, t) == end ==> |Logical(lines, esc, t)| <= |goal|)
  {
    hide IsComment, HasContinuation, TrimContinuation, KeepsContinuation;
    ContinuationPrefixed(x, b, esc);
  }

  lemma HeadStep(lines: seq<Text>, t: nat, x: Text, esc: byte)
    requires ValidEscape(esc) && t < |lines| && lines[t] == x + [esc]
    ensures IsComment(lines[t]) ==> x != [] && Logical(lines, esc, t) == Logical(lines, esc, t + 1)
    ensures !IsComment(lines[t]) && x != [] && x[|x| - 1] == esc ==> RunEnd(lines, esc, t) == t + 1
    ensures !IsComment(lines[t]) && (x == [] || x[|x| - 1] != esc) ==>
              Logical(lines, esc, t) == x + Logical(lines, esc, t + 1)
    ensures IsComment(lines[t]) || x == [] || x[|x| - 1] != esc ==> RunEnd(lines, esc, t) == RunEnd(lines, esc, t + 1)
  {
    hide HasContinuation, TrimContinuation, IsComment;
    LoneEscapeVisible(esc);
    if x == [] { assert x + [esc] == [esc]; }
    if x == [] || x[|x| - 1] != esc { ContinuationAdded(x, esc); } else { EscapedNotContinued(x, esc); }
  }

  lemma LoneEscapeVisible(esc: byte)
    requires ValidEscape(esc)
    ensures !IsComment([esc])
  {
    hide IsComment;
    VisibleFirst([esc]);
  }

  /** A line that starts with a visible ASCII byte is a comment exactly if that byte is `#`. */
  lemma VisibleFirst(s: Text)
    requires s != [] && 0x20 < s[0] < 0x80
    ensures IsComment(s) <==> s[0] == HASH
  {
    hide TrimLeftSpace;
    NoSpaceRune(s);
    TrimNothing(s);
  }

  lemma NoSpaceRune(s: Text)
    requires s != [] && 0x20 < s[0] < 0x80
    ensures SpaceRune(s) == 0
  {
  }

  lemma TrimNothing(s: Text)
    requires SpaceRune(s) == 0
    ensures TrimLeftSpace(s) == s
  {
    hide SpaceRune;
  }

  lemma EscapedNotContinued(x: Text, esc: byte)
    requires ValidEscape(esc) && x != [] && x[|x| - 1] == esc
    ensures !HasContinuation(x + [esc], esc)
  {
    ContinuedIff(x + [esc], esc);
    TrimRightUnique(x + [esc], |x| + 1);
    assert (x + [esc])[..|x| + 1] == x + [esc];
    assert (x + [esc])[|x| - 1] == esc;
  }

  /** Gathering the inserted lines gives the intended text and extent if and only if they fit. */
  lemma {:induction false} InsertedExact(lines: seq<Text>, t: nat, a: Text, fs: seq<Text>, b: Text, esc: byte,
                                         tail: Text, end: nat)
    requires ValidEscape(esc) && AtCut(a, b, esc) && StandsAt(Inserted(a, fs, b, esc), lines, t)
    requires Follows(lines, t + |Inserted(a, fs, b, esc)|, b, esc, tail, end)
    ensures var goal := a + Concat(fs) + TrimContinuation(b, esc) + tail;
            && (Logical(lines, esc, t) == goal && RunEnd(lines, esc, t) == end <==> FitsAt(a, fs, b, esc))
            && (RunEnd(lines, esc, t) == end ==> |Logical(lines, esc, t)| <= |goal|)
    decreases |fs|
  {
    hide IsComment, HasContinuation, TrimContinuation, KeepsContinuation, Logical, RunEnd, Follows, NoComment, StandsAt;
    var ls := Inserted(a, fs, b, esc);
    StandsFirst(ls, lines, t);
    if |fs| <= 1 {
      var x := if fs == [] then a else a + fs[0];
      assert a + Concat(fs) == x by { ConcatShort(fs); }
      LastPiece(lines, t, x, b, esc, tail, end);
      NoCommentOne(x + b);
    } else {
      var x, c, rest := a + fs[0], TrimContinuation(b, esc), Concat(fs[1..]);
      var tl := Inserted([], fs[1..], b, esc);
      assert ls == [x + [esc]] + tl && ls[1..] == tl;
      StandsAtTail(ls, lines, t);
      InsertedExact(lines, t + 1, [], fs[1..], b, esc, tail, end);
      HeadStep(lines, t, x, esc);
      Rejoin(a, fs[0], rest, c, tail);
      Sequences.SamePrefix(x, Logical(lines, esc, t + 1), [] + rest + c + tail);
      FitsCons(a, fs, b, esc);
      EndBeyond(lines, t + 1, tl, b, esc, tail, end);
    }
  }

  lemma ConcatShort(fs: seq<Text>)
    requires |fs| <= 1
    ensures fs == [] ==> Concat(fs) == []
    ensures fs != [] ==> Concat(fs) == fs[0]
  {
    if fs != [] { assert fs[1..] == []; }
  }

  lemma NoCommentOne(l: Text)
    ensures NoComment([l]) <==> !IsComment(l)
  {
    hide IsComment;
    assert [l][0] == l;
  }

  lemma NoCommentCons(l: Text, ls: seq<Text>)
    ensures NoComment([l] + ls) <==> !IsComment(l) && NoComment(ls)
  {
    hide IsComment;
    var all := [l] + ls;
    assert all[0] == l;
    assert forall j :: 0 <= j < |ls| ==> all[j + 1] == ls[j];
  }

  lemma FitsCons(a: Text, fs: seq<Text>, b: Text, esc: byte)
    requires |fs| >= 2 && (a == [] || a[|a| - 1] != esc)
    ensures var x := a + fs[0];
            FitsAt(a, fs, b, esc) <==>
              !IsComment(x + [esc]) && (x == [] || x[|x| - 1] != esc) && FitsAt([], fs[1..], b, esc)
  {
    hide IsComment, NoComment;
    var x := a + fs[0];
    NoCommentCons(x + [esc], Inserted([], fs[1..], b, esc));
    BreaksCons(fs, esc);
    if fs[0] == [] { assert x == a; } else { assert x[|x| - 1] == fs[0][|fs[0]| - 1]; }
  }

  lemma BreaksCons(fs: seq<Text>, esc: byte)
    requires |fs| >= 2
    ensures BreaksContinue(fs, esc) <==> (fs[0] == [] || fs[0][|fs[0]| - 1] != esc) && BreaksContinue(fs[1..], esc)
  {
    var rest := fs[1..];
    assert forall j :: 0 < j < |fs| ==> fs[j] == rest[j - 1];
    if BreaksContinue(rest, esc) && (fs[0] == [] || fs[0][|fs[0]| - 1] != esc) {
      forall j | 0 <= j < |fs| - 1 && fs[j] != [] ensures fs[j][|fs[j]| - 1] != esc {
        if j > 0 { assert rest[j - 1] == fs[j]; }
      }
    }
    if BreaksContinue(fs, esc) {
      forall j | 0 <= j < |rest| - 1 && rest[j] != [] ensures rest[j][|rest[j]| - 1] != esc {
        assert rest[j] == fs[j + 1];
      }
    }
  }

  lemma EndBeyond(lines: seq<Text>, t: nat, ls: seq<Text>, b: Text, esc: byte, tail: Text, end: nat)
    requires ls != [] && Follows(lines, t + |ls|, b, esc, tail, end)
    ensures end > t
  {
    hide HasContinuation, Logical;
  }

  // ---------- for an instruction and for a whole file ----------

  /** The number of physical lines an injection adds. */
  function Added(fs: seq<Text>): (n: nat)
    ensures forall a, b, esc :: |Inserted(a, fs, b, esc)| == n + 1
  {
    if fs == [] then 0 else |fs| - 1
  }

  lemma RegatherLineExact(lines: seq<Text>, m: nat, k: nat, fs: seq<Text>, esc: byte, other: seq<Text>, s: nat)
    requires ValidEscape(esc) && m < |lines| && !IsComment(lines[m])
    requires k < |TrimContinuation(lines[m], esc)| && !IsSpace(lines[m][k]) && (k == 0 || lines[m][k - 1] != esc)
    requires Replaced(lines, m, m, RunEnd(lines, esc, m), Inserted(lines[m][..k], fs, lines[m][k..], esc), other, s)
    ensures k < |Logical(lines, esc, m)|
    ensures Logical(other, esc, s) == Insert(Logical(lines, esc, m), k, Concat(fs))
            && RunEnd(other, esc, s) == s + RunEnd(lines, esc, m) - m + Added(fs)
            <==> FitsAt(lines[m][..k], fs, lines[m][k..], esc)
  {
    hide *;
    var p := lines[m];
    var a, b := p[..k], p[k..];
    LineRun(lines, m, esc);
    CutAt(p, k, esc);
    var ls := Inserted(a, fs, b, esc);
    var tail := if HasContinuation(p, esc) then Logical(lines, esc, m + 1) else [];
    var end := s + RunEnd(lines, esc, m) - m + Added(fs);
    RestFollows(lines, m, b, ls, esc, other, s, tail, end);
    InsertMiddle(a, TrimContinuation(b, esc), tail, Concat(fs));
    InsertedExact(other, s, a, fs, b, esc, tail, end);
  }

  /** A line that is no comment, and the rest of its run. */
  lemma LineRun(lines: seq<Text>, m: nat, esc: byte)
    requires m < |lines| && !IsComment(lines[m])
    ensures Logical(lines, esc, m)
            == TrimContinuation(lines[m], esc)
               + if HasContinuation(lines[m], esc) then Logical(lines, esc, m + 1) else []
    ensures RunEnd(lines, esc, m) == if HasContinuation(lines[m], esc) then RunEnd(lines, esc, m + 1) else m + 1
  {
    hide IsComment, HasContinuation, TrimContinuation;
    var c := TrimContinuation(lines[m], esc);
    assert c + [] == c;
  }

  lemma CutAt(p: Text, k: nat, esc: byte)
    requires k < |TrimContinuation(p, esc)| && !IsSpace(p[k]) && (k == 0 || p[k - 1] != esc)
    ensures AtCut(p[..k], p[k..], esc) && HasContinuation(p, esc) == HasContinuation(p[k..], esc)
    ensures TrimContinuation(p, esc) == p[..k] + TrimContinuation(p[k..], esc)
  {
    hide HasContinuation, TrimContinuation, KeepsContinuation;
    CutKeeps(p, k, esc);
    assert k == 0 || p[k - 1] == p[..k][k - 1];
  }

  lemma RestFollows(lines: seq<Text>, m: nat, b: Text, ls: seq<Text>, esc: byte, other: seq<Text>, s: nat,
                    tail: Text, end: nat)
    requires m < |lines| && !IsComment(lines[m]) && HasContinuation(b, esc) == HasContinuation(lines[m], esc)
    requires ls != [] && Replaced(lines, m, m, RunEnd(lines, esc, m), ls, other, s)
    requires tail == if HasContinuation(b, esc) then Logical(lines, esc, m + 1) else []
    requires end == s + RunEnd(lines, esc, m) - m + |ls| - 1
    ensures StandsAt(ls, other, s) && Follows(other, s + |ls|, b, esc, tail, end)
  {
    hide IsComment, HasContinuation, TrimContinuation, StandsAt, Logical, RunEnd;
    LineRun(lines, m, esc);
    if HasContinuation(b, esc) {
      LogicalSame(lines, m + 1, other, s + |ls|, esc);
    }
  }

  lemma RegatherExact(lines: seq<Text>, i: nat, off: nat, fs: seq<Text>, esc: byte, other: seq<Text>, s: nat)
    requires ValidEscape(esc) && off < |Logical(lines, esc, i)|
    requires var spot := Locate(lines, esc, i, off);
             var p := lines[spot.line];
             && !IsSpace(p[spot.offset]) && (spot.offset == 0 || p[spot.offset - 1] != esc)
             && Replaced(lines, i, spot.line, RunEnd(lines, esc, i),
                         Inserted(p[..spot.offset], fs, p[spot.offset..], esc), other, s)
    ensures var spot := Locate(lines, esc, i, off);
            var p := lines[spot.line];
            Logical(other, esc, s) == Insert(Logical(lines, esc, i), off, Concat(fs))
            && RunEnd(other, esc, s) == s + RunEnd(lines, esc, i) - i + Added(fs)
            <==> FitsAt(p[..spot.offset], fs, p[spot.offset..], esc)
  {
    hide *;
    var Spot(m, k) := Locate(lines, esc, i, off);
    var u := GatherBefore(lines, i, off, esc, Inserted(lines[m][..k], fs, lines[m][k..], esc), other, s);
    RegatherLineExact(lines, m, k, fs, esc, other, s + m - i);
    InsertAfter(u, Logical(lines, esc, m), k, Concat(fs));
    Sequences.SamePrefix(u, Logical(other, esc, s + m - i), Insert(Logical(lines, esc, m), k, Concat(fs)));
  }

  lemma NodeAtCut(lines: seq<Text>, st: Setting, node: Node)
    requires ValidEscape(st.esc) && Decide(lines, st, node).Inject?
    ensures var Spot(m, k) := Decide(lines, st, node).spot;
            && m < |lines| && k < |lines[m]| && !IsSpace(lines[m][k])
            && (k == 0 || lines[m][k - 1] != st.esc)
  {
    hide Decide, IsComment;
    NodeBeforeToken(lines, st, node);
    var Spot(m, k) := Decide(lines, st, node).spot;
    assert k > 0 ==> lines[m][k - 1] == lines[m][..k][k - 1];
  }

  lemma DecidedPlace(lines: seq<Text>, st: Setting, node: Node)
    requires Decide(lines, st, node).Inject?
    ensures var Inject(spot, i) := Decide(lines, st, node);
            i < |Logical(lines, st.esc, Start(node))| && spot == Locate(lines, st.esc, Start(node), i)
  {
    hide ChooseIn, Logical, Locate;
  }

  /** Split the output text into lines and gather node `a` again from where its first line now is:
      the result is its logical line with the injected lines, free of the added continuations,
      inserted at the chosen token; and it takes up the old lines and the added ones. */
  ghost predicate AsIntended(lines: seq<Text>, st: Setting, nodes: seq<Node>, a: nat)
    requires a < |nodes|
  {
    var s, final := Start(nodes[a]), EditAll(lines, st, nodes);
    && Decide(lines, st, nodes[a]).Inject? && s <= |final|
    && var line, i := Logical(lines, st.esc, s), Decide(lines, st, nodes[a]).index;
       var out, s' := Lines(Unsplit(final)), |Flat(final[..s])|;
       && i < |line|
       && Logical(out, st.esc, s') == line[..i] + Concat(st.fs) + line[i..]
       && RunEnd(out, st.esc, s') == s' + RunEnd(lines, st.esc, s) - s + Added(st.fs)
  }

  /** Exactness for all texts. An injected node comes out as intended if and only if the lines that
      result from the insertion fit. */
  lemma InjectionExtentExact(lines: seq<Text>, st: Setting, nodes: seq<Node>, a: nat)
    requires ValidEscape(st.esc) && PlainLines(lines) && PlainLines(st.fs) && Disjoint(lines, st.esc, nodes)
    requires a < |nodes|
    ensures Decide(lines, st, nodes[a]).Inject? ==>
              var Spot(m, k) := Decide(lines, st, nodes[a]).spot;
              && m < |lines| && k <= |lines[m]|
              && (AsIntended(lines, st, nodes, a) <==> FitsAt(lines[m][..k], st.fs, lines[m][k..], st.esc))
  {
    hide *;
    if Decide(lines, st, nodes[a]).Inject? {
      var Spot(m, k) := Decide(lines, st, nodes[a]).spot;
      RunReplaced(lines, st, nodes, a);
      DecidedPlace(lines, st, nodes[a]);
      NodeAtCut(lines, st, nodes[a]);
      RegatheredIff(lines, st, nodes, a, FitsAt(lines[m][..k], st.fs, lines[m][k..], st.esc));
    }
  }

  lemma RegatheredIff(lines: seq<Text>, st: Setting, nodes: seq<Node>, a: nat, fits: bool)
    requires ValidEscape(st.esc) && a < |nodes| && Decide(lines, st, nodes[a]).Inject?
    requires var Inject(spot, i) := Decide(lines, st, nodes[a]);
             var s, final := Start(nodes[a]), EditAll(lines, st, nodes);
             && i < |Logical(lines, st.esc, s)| && spot == Locate(lines, st.esc, s, i) && final != [] && s <= |final|
             && var p := lines[spot.line];
                && !IsSpace(p[spot.offset]) && (spot.offset == 0 || p[spot.offset - 1] != st.esc)
                && Replaced(lines, s, spot.line, RunEnd(lines, st.esc, s),
                            Inserted(p[..spot.offset], st.fs, p[spot.offset..], st.esc),
                            Flat(final), |Flat(final[..s])|)
                && fits == FitsAt(p[..spot.offset], st.fs, p[spot.offset..], st.esc)
    ensures AsIntended(lines, st, nodes, a) <==> fits
  {
    hide Decide, EditAll, Logical, RunEnd, Flat, Lines, Unsplit, Concat, FitsAt, Locate, Replaced, Inserted;
    var s, final := Start(nodes[a]), EditAll(lines, st, nodes);
    SplitUnsplit(final);
    RegatherExact(lines, s, Decide(lines, st, nodes[a]).index, st.fs, st.esc, Flat(final), |Flat(final[..s])|);
  }

  /** A clean injection fits at every chosen token at which the old command may begin a line. */
  lemma CleanFits(lines: seq<Text>, st: Setting, node: Node)
    requires ValidEscape(st.esc) && CleanInjection(st.fs, st.esc) && MayBeginLine(lines, st, node)
    ensures Decide(lines, st, node).Inject? ==>
              var Spot(m, k) := Decide(lines, st, node).spot;
              m < |lines| && k <= |lines[m]| && FitsAt(lines[m][..k], st.fs, lines[m][k..], st.esc)
  {
    hide IsComment, NoComment, BlankEnd, TrimLeftSpace, PartialSpaceRune, Decide, Inserted;
    if Decide(lines, st, node).Inject? {
      NodeBeforeToken(lines, st, node);
      var Spot(m, k) := Decide(lines, st, node).spot;
      assert lines[m][..k] + lines[m][k..] == lines[m];
      NoCommentInserted(lines[m][..k], st.fs, lines[m][k..], st.esc);
    }
  }

  lemma NodeBeforeToken(lines: seq<Text>, st: Setting, node: Node)
    requires Decide(lines, st, node).Inject?
    ensures var Spot(m, k) := Decide(lines, st, node).spot;
            && m < |lines| && k < |lines[m]| && !IsComment(lines[m]) && !IsSpace(lines[m][k])
            && var a := lines[m][..k]; a == [] || IsSpace(a[|a| - 1])
  {
    hide IsComment, Logical, Locate, Tokens, Choose, TrimContinuation;
    var line := Logical(lines, st.esc, Start(node));
    ChosenByte(line, st.esc, st.heredoc);
    LocatedInLine(lines, st, node);
    LocateBytes(lines, st.esc, Start(node), IndexIn(line, st));
    TrimContinuationPrefix(lines[Decide(lines, st, node).spot.line], st.esc);
  }

  /** End to end, from text to text: with a clean injection, every injected instruction whose old
      command may begin a line comes out as intended. */
  lemma InjectionEndToEnd(content: Text, toInject: Text, esc: byte, heredoc: Text -> bool, nodes: seq<Node>, a: nat)
    requires ValidEscape(esc) && CleanInjection(FixedLines(toInject), esc) && Disjoint(Lines(content), esc, nodes)
    requires a < |nodes| && MayBeginLine(Lines(content), Setting(esc, heredoc, FixedLines(toInject)), nodes[a])
    ensures var st := Setting(esc, heredoc, FixedLines(toInject));
            Decide(Lines(content), st, nodes[a]).Inject? ==> AsIntended(Lines(content), st, nodes, a)
  {
    hide *;
    var st := Setting(esc, heredoc, FixedLines(toInject));
    LinesPlain(content);
    FixedPlain(toInject);
    PlainIs(Lines(content));
    CleanFits(Lines(content), st, nodes[a]);
    InjectionExtentExact(Lines(content), st, nodes, a);
  }

  lemma PlainIs(ls: seq<Text>)
    requires forall i :: 0 <= i < |ls| ==> NEWLINE !in ls[i]
    ensures PlainLines(ls)
  {
  }

  // ---------- the injection for prefetched dependencies ----------

  /** The build's own injection fits at a token exactly if the old command is no comment line by
      itself, since it comes to stand on a line of its own. */
  lemma PrefetchFitsIff(quotedPath: Text, a: Text, b: Text, esc: byte)
    requires ValidEscape(esc) && NEWLINE !in quotedPath
    requires (a == [] || IsSpace(a[|a| - 1])) && !IsComment(a + b)
    ensures FitsAt(a, FixedLines(PrefetchInjection(quotedPath)), b, esc) <==> !IsComment(b)
  {
    hide IsComment, NoComment, FixedLines;
    var head, indent := PrefetchLines(quotedPath);
    assert [head, indent][1..] == [indent];
    assert Inserted(a, [head, indent], b, esc) == [a + head + [esc]] + [[] + indent + b];
    NoCommentCons(a + head + [esc], [[] + indent + b]);
    NoCommentOne([] + indent + b);
    assert [] + indent + b == indent + b;
    CommentAppend(indent, b);
    DotIsNoComment(head);
    CommentBeforeToken(a, head, b);
    CommentEscape(a + head, esc);
  }

  lemma DotIsNoComment(s: Text)
    requires s != [] && s[0] == 0x2E
    ensures !IsComment(s)
  {
    hide IsComment;
    VisibleFirst(s);
  }

  /** For all texts: an instruction the build injects into comes out as intended if and only if its
      old command is no comment line by itself. */
  lemma PrefetchExact(content: Text, quotedPath: Text, esc: byte, heredoc: Text -> bool, nodes: seq<Node>, a: nat)
    requires ValidEscape(esc) && NEWLINE !in quotedPath
    requires Disjoint(Lines(content), esc, nodes) && a < |nodes|
    ensures var lines, st := Lines(content), Setting(esc, heredoc, FixedLines(PrefetchInjection(quotedPath)));
            Decide(lines, st, nodes[a]).Inject? ==>
              var Spot(m, k) := Decide(lines, st, nodes[a]).spot;
              && m < |lines| && k <= |lines[m]|
              && (AsIntended(lines, st, nodes, a) <==> !IsComment(lines[m][k..]))
  {
    hide *;
    var lines, st := Lines(content), Setting(esc, heredoc, FixedLines(PrefetchInjection(quotedPath)));
    LinesPlain(content);
    PlainIs(lines);
    FixedPlain(PrefetchInjection(quotedPath));
    InjectionExtentExact(lines, st, nodes, a);
    if Decide(lines, st, nodes[a]).Inject? {
      var Spot(m, k) := Decide(lines, st, nodes[a]).spot;
      NodeBeforeToken(lines, st, nodes[a]);
      assert lines[m][..k] + lines[m][k..] == lines[m];
      PrefetchFitsIff(quotedPath, lines[m][..k], lines[m][k..], esc);
    }
  }

  /** The injected text sources the given path if and only if that holds no newline: a newline
      becomes a line continuation. */
  lemma PrefetchSourcesIff(quotedPath: Text)
    ensures Concat(FixedLines(PrefetchInjection(quotedPath)))
            == [0x2E, SPACE] + quotedPath + [SPACE, 0x26, 0x26, SPACE, SPACE, SPACE, SPACE, SPACE]
            <==> NEWLINE !in quotedPath
  {
    hide FixedLines, Concat;
    if NEWLINE !in quotedPath {
      PrefetchInjectionFits(quotedPath, [], BACKSLASH);
    } else {
      FixedPlain(PrefetchInjection(quotedPath));
      ConcatPlain(FixedLines(PrefetchInjection(quotedPath)));
    }
  }

  lemma {:induction false} ConcatPlain(ls: seq<Text>)
    requires PlainLines(ls)
    ensures NEWLINE !in Concat(ls)
  {
    if ls != [] { ConcatPlain(ls[1..]); }
  }

  /** In every ASCII Containerfile, every instruction the build injects into comes out as intended. */
  lemma PrefetchEndToEnd(content: Text, quotedPath: Text, esc: byte, heredoc: Text -> bool, nodes: seq<Node>, a: nat)
    requires ValidEscape(esc) && NEWLINE !in quotedPath && AsciiAll(Lines(content))
    requires Disjoint(Lines(content), esc, nodes) && a < |nodes|
    ensures var st := Setting(esc, heredoc, FixedLines(PrefetchInjection(quotedPath)));
            Decide(Lines(content), st, nodes[a]).Inject? ==> AsIntended(Lines(content), st, nodes, a)
  {
    hide *;
    var st := Setting(esc, heredoc, FixedLines(PrefetchInjection(quotedPath)));
    PrefetchClean(quotedPath, esc);
    AsciiMayBeginLine(Lines(content), st, nodes[a]);
    InjectionEndToEnd(content, PrefetchInjection(quotedPath), esc, heredoc, nodes, a);
  }

  lemma PrefetchClean(quotedPath: Text, esc: byte)
    requires ValidEscape(esc) && NEWLINE !in quotedPath
    ensures CleanInjection(FixedLines(PrefetchInjection(quotedPath)), esc)
  {
    hide FixedLines, TrimLeftSpace, IsComment;
    var head, indent := PrefetchLines(quotedPath);
    DotIsNoComment(head);
    BlankIsNoComment(indent);
  }

  lemma BlankIsNoComment(s: Text)
    requires TrimLeftSpace(s) == []
    ensures !IsComment(s)
  {
    hide TrimLeftSpace;
  }

  const RUN: Text := [0x52, 0x55, 0x4E]
  const WIDE_SPACE_HASH: Text := [0xE2, 0x80, 0x83, HASH]

  /** It does not always fit: white space is decoded as UTF-8 in physical lines but not in tokens,
      so a command that starts with a wide space and a `#` is chosen, and then becomes a comment:
      the output is not the instruction with the text put in front of its command. */
  lemma WideSpaceCommand(quotedPath: Text, esc: byte)
    requires ValidEscape(esc) && NEWLINE !in quotedPath
    ensures var st := Setting(esc, _ => false, FixedLines(PrefetchInjection(quotedPath)));
            var line, node := RUN + [SPACE] + WIDE_SPACE_HASH, Node(RUN, false, 1);
            Decide([line], st, node) == Inject(Spot(0, 4), 4) && !AsIntended([line], st, [node], 0)
  {
    hide *;
    var st := Setting(esc, _ => false, FixedLines(PrefetchInjection(quotedPath)));
    var line, node := RUN + [SPACE] + WIDE_SPACE_HASH, Node(RUN, false, 1);
    WideDecision(line, st);
    WideUnfit(quotedPath, line, st);
    WidePlain(line, node, esc);
    FixedPlain(PrefetchInjection(quotedPath));
    InjectionExtentExact([line], st, [node], 0);
  }

  lemma WidePlain(line: Text, node: Node, esc: byte)
    requires line == RUN + [SPACE] + WIDE_SPACE_HASH
    ensures PlainLines([line]) && Disjoint([line], esc, [node])
  {
  }

  lemma WideUnfit(quotedPath: Text, line: Text, st: Setting)
    requires ValidEscape(st.esc) && NEWLINE !in quotedPath && line == RUN + [SPACE] + WIDE_SPACE_HASH
    requires st.fs == FixedLines(PrefetchInjection(quotedPath))
    ensures !FitsAt([line][0][..4], st.fs, [line][0][4..], st.esc)
  {
    hide IsComment, FitsAt, FixedLines;
    assert line[..4] == RUN + [SPACE] && line[4..] == WIDE_SPACE_HASH;
    WideComments(line);
    PrefetchFitsIff(quotedPath, RUN + [SPACE], WIDE_SPACE_HASH, st.esc);
  }

  lemma WideDecision(line: Text, st: Setting)
    requires ValidEscape(st.esc) && line == RUN + [SPACE] + WIDE_SPACE_HASH && !st.heredoc(WIDE_SPACE_HASH)
    ensures Decide([line], st, Node(RUN, false, 1)) == Inject(Spot(0, 4), 4)
  {
    hide Tokens, Logical, Locate;
    WideTokens(line, st.esc);
    WideLogical(line, st.esc);
    var tokens := Tokens(line, st.esc, 0);
    assert tokens[1] == Token(4, WIDE_SPACE_HASH);
    WideIsCommand();
    ChooseMeaning(tokens, st.heredoc, 1, 1);
    assert ChooseIn(line, st.esc, st.heredoc) == Accept(1);
    WideLocate(line, st.esc);
  }

  lemma WideIsCommand()
    ensures !IsFlag(WIDE_SPACE_HASH) && !HasPrefix(WIDE_SPACE_HASH, [HASH])
  {
    assert WIDE_SPACE_HASH[..2][0] != [DASH, DASH][0];
    assert WIDE_SPACE_HASH[..1][0] != [HASH][0];
  }

  lemma WideLocate(line: Text, esc: byte)
    requires ValidEscape(esc) && line == RUN + [SPACE] + WIDE_SPACE_HASH
    ensures 4 < |Logical([line], esc, 0)| && Locate([line], esc, 0, 4) == Spot(0, 4)
  {
    hide IsComment, TrimContinuation, Logical;
    WideLogical(line, esc);
    WideComments(line);
  }

  lemma WideComments(line: Text)
    requires line == RUN + [SPACE] + WIDE_SPACE_HASH
    ensures !IsComment(line) && IsComment(WIDE_SPACE_HASH)
  {
    hide IsComment, TrimLeftSpace;
    VisibleFirst(line);
    assert WIDE_SPACE_HASH[3..] == [HASH];
    VisibleFirst([HASH]);
    WideFirst(WIDE_SPACE_HASH);
  }

  lemma WideFirst(s: Text)
    requires |s| == 4 && s[..3] == [0xE2, 0x80, 0x83]
    ensures IsComment(s) == IsComment(s[3..])
  {
    assert s[..3][0] == s[0] && s[..3][1] == s[1] && s[..3][2] == s[2];
    assert SpaceRune(s) == 3;
    assert TrimLeftSpace(s) == TrimLeftSpace(s[3..]);
  }

  lemma WideLogical(line: Text, esc: byte)
    requires ValidEscape(esc) && line == RUN + [SPACE] + WIDE_SPACE_HASH
    ensures Logical([line], esc, 0) == line && TrimContinuation(line, esc) == line
  {
    hide IsComment;
    WideComments(line);
    TrimRightUnique(line, 8);
    assert line[..8] == line;
  }

  lemma WideTokens(line: Text, esc: byte)
    requires ValidEscape(esc) && line == RUN + [SPACE] + WIDE_SPACE_HASH
    ensures Tokens(line, esc, 0) == [Token(0, RUN), Token(4, WIDE_SPACE_HASH)]
  {
    assert TokenEnd(line, esc, 3, NO_QUOTE) == 3 && TokenEnd(line, esc, 8, NO_QUOTE) == 8;
    PlainByte(line, esc, 2); PlainByte(line, esc, 1); PlainByte(line, esc, 0);
    PlainByte(line, esc, 7); PlainByte(line, esc, 6); PlainByte(line, esc, 5); PlainByte(line, esc, 4);
    assert line[0..3] == RUN && line[4..8] == WIDE_SPACE_HASH;
    assert Tokens(line, esc, 8) == [];
    TokensAt(line, esc, 4, 8, WIDE_SPACE_HASH);
    assert Tokens(line, esc, 3) == Tokens(line, esc, 4);
    TokensAt(line, esc, 0, 3, RUN);
  }

  /** A byte that is no white space, quote or escape just belongs to its token. */
  lemma PlainByte(line: Text, esc: byte, i: nat)
    requires i < |line| && !IsSpace(line[i]) && line[i] != esc && line[i] != SINGLE_QUOTE && line[i] != DOUBLE_QUOTE
    ensures TokenEnd(line, esc, i, NO_QUOTE) == TokenEnd(line, esc, i + 1, NO_QUOTE)
  {
  }
}
