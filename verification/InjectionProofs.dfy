/** What the RUN injector guarantees for a whole Containerfile. */
module InjectionProofs {
  import opened Bytes
  import opened Tokenizer
  import opened LogicalLines
  import opened RunInjector

  // ---------- which injections are safe in every Containerfile ----------

  /** A condition on the injected text alone: no line but the last ends in the escape token, no
      line is a comment, and the last line does not stop inside a white-space rune. */
  ghost predicate CleanInjection(fs: seq<Text>, esc: byte) {
    && BreaksContinue(fs, esc)
    && NoComment(fs)
    && (fs != [] ==> !PartialSpaceRune(TrimLeftSpace(fs[|fs| - 1])))
  }

  /** No line but the last ends in the escape token, which would escape the added continuation. */
  predicate BreaksContinue(fs: seq<Text>, esc: byte) {
    forall j :: 0 <= j < |fs| - 1 && fs[j] != [] ==> fs[j][|fs[j]| - 1] != esc
  }

  /** The last of several lines is blank, so that the old command begins a line of its own. */
  ghost predicate BlankEnd(fs: seq<Text>) {
    |fs| >= 2 && TrimLeftSpace(fs[|fs| - 1]) == []
  }

  /** The old command may begin a line: it is no comment there. A token that starts with `#` is
      never chosen, so this only excludes a command that starts with a multi-byte white-space rune
      and a `#`. */
  ghost predicate MayBeginLine(lines: seq<Text>, st: Setting, node: Node) {
    Decide(lines, st, node).Inject? ==>
      var Spot(m, k) := Decide(lines, st, node).spot;
      m < |lines| && k <= |lines[m]| && (BlankEnd(st.fs) ==> !IsComment(lines[m][k..]))
  }

  lemma CommentAppend(x: Text, y: Text)
    ensures TrimLeftSpace(x) == [] ==> IsComment(x + y) == IsComment(y)
    ensures TrimLeftSpace(x) != [] && !PartialSpaceRune(TrimLeftSpace(x)) ==> IsComment(x + y) == IsComment(x)
  {
    hide TrimLeftSpace, PartialSpaceRune;
    TrimLeftAppend(x, y);
  }

  /** An escape token completes no white-space rune and starts no comment. */
  lemma {:induction false} CommentEscape(x: Text, esc: byte)
    requires ValidEscape(esc)
    ensures IsComment(x + [esc]) == IsComment(x)
    decreases |x|
  {
    var n := SpaceRune(x);
    if n == 0 {
      assert SpaceRune(x + [esc]) == 0;
    } else {
      assert SpaceRune(x + [esc]) == n;
      assert (x + [esc])[n..] == x[n..] + [esc];
      CommentEscape(x[n..], esc);
    }
  }

  /** What stands before a token start decides alone whether the line is a comment. */
  lemma CommentBeforeToken(a: Text, y: Text, b: Text)
    requires a == [] || IsSpace(a[|a| - 1])
    requires !IsComment(a + b)
    ensures TrimLeftSpace(a) == [] ==> IsComment(a + y) == IsComment(y) && !IsComment(b)
    ensures TrimLeftSpace(a) != [] ==> !IsComment(a + y)
  {
    hide IsComment, TrimLeftSpace;
    var t := TrimLeftSpace(a);
    if t != [] {
      assert t[|t| - 1] == a[|a| - 1];
      assert !PartialSpaceRune(t);
    }
    CommentAppend(a, y);
    CommentAppend(a, b);
  }

  /** A clean injection at a token start of a physical line makes no comment lines. */
  lemma NoCommentInserted(a: Text, fs: seq<Text>, b: Text, esc: byte)
    requires ValidEscape(esc) && CleanInjection(fs, esc)
    requires a == [] || IsSpace(a[|a| - 1])
    requires !IsComment(a + b) && (BlankEnd(fs) ==> !IsComment(b))
    ensures NoComment(Inserted(a, fs, b, esc))
  {
    hide IsComment, TrimLeftSpace, PartialSpaceRune;
    if fs == [] {
    } else if |fs| == 1 {
      var f := fs[0];
      CommentBeforeToken(a, f + b, b);
      CommentAppend(f, b);
      assert a + (f + b) == a + f + b;
    } else {
      var x := a + fs[0];
      CommentBeforeToken(a, fs[0], b);
      CommentEscape(x, esc);
      NoCommentRest(fs[1..], b, esc);
    }
  }

  lemma {:induction false} NoCommentRest(fs: seq<Text>, b: Text, esc: byte)
    requires ValidEscape(esc) && fs != [] && NoComment(fs)
    requires var t := TrimLeftSpace(fs[|fs| - 1]); !PartialSpaceRune(t) && (t == [] ==> !IsComment(b))
    ensures NoComment(Inserted([], fs, b, esc))
    decreases |fs|
  {
    hide IsComment, TrimLeftSpace, PartialSpaceRune;
    assert [] + fs[0] == fs[0];
    if |fs| == 1 {
      CommentAppend(fs[0], b);
    } else {
      CommentEscape(fs[0], esc);
      NoCommentRest(fs[1..], b, esc);
    }
  }

  /** The bytes around a located offset are those of the logical line. */
  lemma {:induction false} LocateBytes(lines: seq<Text>, esc: byte, i: nat, off: nat)
    requires off < |Logical(lines, esc, i)|
    ensures var Spot(m, k) := Locate(lines, esc, i, off);
            var c := TrimContinuation(lines[m], esc);
            && c[k] == Logical(lines, esc, i)[off]
            && (k > 0 ==> off > 0 && c[k - 1] == Logical(lines, esc, i)[off - 1])
    decreases |lines| - i
  {
    hide IsComment, HasContinuation, TrimContinuation;
    if Locate(lines, esc, i, off).line != i {
      LocateNext(lines, esc, i, off);
      LocateBytes(lines, esc, i + 1, if IsComment(lines[i]) then off else off - |TrimContinuation(lines[i], esc)|);
    }
  }

  // ---------- the whole file: what is edited and what is reported ----------

  /** Only a shell-form RUN instruction has its lines gathered. */
  ghost predicate Gathers(node: Node) {
    IsRun(node) && !node.json
  }

  /** No physical line is read for two instructions. */
  ghost predicate Disjoint(lines: seq<Text>, esc: byte, nodes: seq<Node>) {
    forall a, b :: 0 <= a < b < |nodes| && Gathers(nodes[a]) && Gathers(nodes[b]) ==>
      || RunEnd(lines, esc, Start(nodes[a])) <= Start(nodes[b])
      || RunEnd(lines, esc, Start(nodes[b])) <= Start(nodes[a])
  }

  /** The node is injected, and into physical line `m`. */
  ghost predicate Edits(lines: seq<Text>, st: Setting, node: Node, m: nat) {
    Decide(lines, st, node).Inject? && Decide(lines, st, node).spot.line == m
  }

  /** `cur` is `lines` with exactly the insertions that the nodes call for in `lines`. */
  ghost predicate EditedBy(lines: seq<Text>, cur: seq<Text>, st: Setting, nodes: seq<Node>) {
    && |cur| == |lines|
    && (forall a, m :: 0 <= a < |nodes| && 0 <= m < |lines| && Edits(lines, st, nodes[a], m) ==>
          InsertedAt(lines[m], cur[m], Decide(lines, st, nodes[a]).spot.offset, st.Fixed()))
    && (forall m :: 0 <= m < |lines| && Untouched(lines, st, nodes, m) ==> cur[m] == lines[m])
  }

  ghost predicate InsertedAt(l: Text, r: Text, k: nat, x: Text) {
    k <= |l| && r == Insert(l, k, x)
  }

  ghost predicate Untouched(lines: seq<Text>, st: Setting, nodes: seq<Node>, m: nat) {
    forall a :: 0 <= a < |nodes| ==> !Edits(lines, st, nodes[a], m)
  }

  /** The reports called for by the original lines, in the order of the nodes. */
  function Planned(lines: seq<Text>, st: Setting, nodes: seq<Node>): seq<Report> {
    if nodes == [] then [] else ReportOf(lines, st, nodes[0]) + Planned(lines, st, nodes[1..])
  }

  lemma {:induction false} SameRun(lines: seq<Text>, cur: seq<Text>, esc: byte, i: nat)
    requires |cur| == |lines| && forall q :: i <= q < RunEnd(lines, esc, i) && q < |lines| ==> cur[q] == lines[q]
    ensures RunEnd(cur, esc, i) == RunEnd(lines, esc, i) && Logical(cur, esc, i) == Logical(lines, esc, i)
    decreases |lines| - i
  {
    hide IsComment, HasContinuation, TrimContinuation;
    if i < |lines| && (IsComment(lines[i]) || HasContinuation(lines[i], esc)) {
      SameRun(lines, cur, esc, i + 1);
    }
  }

  lemma {:induction false} SameLocate(lines: seq<Text>, cur: seq<Text>, esc: byte, i: nat, off: nat)
    requires |cur| == |lines| && forall q :: i <= q < RunEnd(lines, esc, i) && q < |lines| ==> cur[q] == lines[q]
    requires off < |Logical(lines, esc, i)|
    ensures off < |Logical(cur, esc, i)| && Locate(cur, esc, i, off) == Locate(lines, esc, i, off)
    decreases |lines| - i
  {
    hide IsComment, HasContinuation, TrimContinuation;
    SameRun(lines, cur, esc, i);
    if Locate(lines, esc, i, off).line != i {
      LocateNext(lines, esc, i, off);
      SameLocate(lines, cur, esc, i + 1, if IsComment(lines[i]) then off else off - |TrimContinuation(lines[i], esc)|);
    }
  }

  /** The decision for a node depends only on the lines of its run. */
  lemma SameDecision(lines: seq<Text>, cur: seq<Text>, st: Setting, node: Node)
    requires |cur| == |lines|
    requires Gathers(node) ==>
               forall q :: Start(node) <= q < RunEnd(lines, st.esc, Start(node)) && q < |lines| ==> cur[q] == lines[q]
    ensures Decide(cur, st, node) == Decide(lines, st, node)
  {
    hide Logical, RunEnd, Locate, Tokens, Choose;
    if Gathers(node) {
      SameRun(lines, cur, st.esc, Start(node));
      var line := Logical(lines, st.esc, Start(node));
      if ChooseIn(line, st.esc, st.heredoc).Accept? {
        SameLocate(lines, cur, st.esc, Start(node), IndexIn(line, st));
      }
    }
  }

  /** Two nodes with disjoint runs edit different lines. */
  lemma EditsInRun(lines: seq<Text>, st: Setting, node: Node, m: nat)
    requires Edits(lines, st, node, m)
    ensures Gathers(node) && Start(node) <= m < RunEnd(lines, st.esc, Start(node)) <= |lines|
  {
    hide Logical, RunEnd, Locate, Tokens, Choose;
    LocatedInLine(lines, st, node);
  }

  lemma RunUntouched(lines: seq<Text>, st: Setting, nodes: seq<Node>, j: nat, q: nat)
    requires Disjoint(lines, st.esc, nodes) && j < |nodes| && Gathers(nodes[j])
    requires Start(nodes[j]) <= q < RunEnd(lines, st.esc, Start(nodes[j]))
    ensures forall a :: 0 <= a < |nodes| && a != j ==> !Edits(lines, st, nodes[a], q)
  {
    hide RunEnd, Edits, Gathers;
    forall a | 0 <= a < |nodes| && a != j ensures !Edits(lines, st, nodes[a], q) {
      if Edits(lines, st, nodes[a], q) { EditsInRun(lines, st, nodes[a], q); }
    }
  }

  lemma FrameStep(lines: seq<Text>, cur: seq<Text>, st: Setting, nodes: seq<Node>, j: nat)
    requires Disjoint(lines, st.esc, nodes) && j < |nodes| && EditedBy(lines, cur, st, nodes[..j])
    ensures Decide(cur, st, nodes[j]) == Decide(lines, st, nodes[j])
    ensures EditedBy(lines, Edit(cur, st, nodes[j]), st, nodes[..j + 1])
  {
    hide RunEnd, Decide, Disjoint, Gathers, Insert;
    var node, done := nodes[j], nodes[..j];
    if Gathers(node) {
      forall q | Start(node) <= q < RunEnd(lines, st.esc, Start(node)) && q < |lines| ensures cur[q] == lines[q] {
        RunUntouched(lines, st, nodes, j, q);
        assert Untouched(lines, st, done, q);
      }
    }
    SameDecision(lines, cur, st, node);
    EditedNext(lines, cur, st, nodes, j);
  }

  lemma EditedNext(lines: seq<Text>, cur: seq<Text>, st: Setting, nodes: seq<Node>, j: nat)
    requires Disjoint(lines, st.esc, nodes) && j < |nodes| && EditedBy(lines, cur, st, nodes[..j])
    requires Decide(cur, st, nodes[j]) == Decide(lines, st, nodes[j])
    ensures EditedBy(lines, Edit(cur, st, nodes[j]), st, nodes[..j + 1])
  {
    hide RunEnd, Decide, Disjoint, Gathers, Insert, Edit, InsertedAt;
    var node, more := nodes[j], nodes[..j + 1];
    var next := Edit(cur, st, node);
    EditStep(cur, st, node);
    if Decide(lines, st, node).Inject? {
      var m := Decide(lines, st, node).spot.line;
      assert Edits(lines, st, node, m);
      EditsInRun(lines, st, node, m);
      RunUntouched(lines, st, nodes, j, m);
      assert Untouched(lines, st, nodes[..j], m);
    }
    forall a, m | 0 <= a < |more| && 0 <= m < |lines| && Edits(lines, st, more[a], m)
      ensures InsertedAt(lines[m], next[m], Decide(lines, st, more[a]).spot.offset, st.Fixed())
    {
      if a < j { assert nodes[..j][a] == more[a]; }
    }
    forall m | 0 <= m < |lines| && Untouched(lines, st, more, m) ensures next[m] == lines[m] {
      assert more[j] == node;
      assert forall a :: 0 <= a < j ==> nodes[..j][a] == more[a];
    }
  }

  /** One edit changes the located line only. */
  lemma EditStep(cur: seq<Text>, st: Setting, node: Node)
    ensures forall m :: 0 <= m < |cur| && !Edits(cur, st, node, m) ==> Edit(cur, st, node)[m] == cur[m]
    ensures Decide(cur, st, node).Inject? ==>
              var Spot(m, k) := Decide(cur, st, node).spot;
              m < |cur| && InsertedAt(cur[m], Edit(cur, st, node)[m], k, st.Fixed())
  {
    hide Decide, Insert, RunEnd, IsComment, TrimContinuation;
    if Decide(cur, st, node).Inject? { LocatedInLine(cur, st, node); }
  }

  /** The whole-file frame. For instructions that share no physical line, the loop makes exactly
      the insertions and reports that the original lines call for: each RUN node is injected once
      or reported once, and every other line is kept as it is. */
  lemma InjectionFrame(lines: seq<Text>, st: Setting, nodes: seq<Node>)
    requires Disjoint(lines, st.esc, nodes)
    ensures EditedBy(lines, EditAll(lines, st, nodes), st, nodes)
    ensures ReportAll(lines, st, nodes) == Planned(lines, st, nodes)
  {
    hide Disjoint, EditAll, ReportAll, Planned;
    assert nodes[0..] == nodes;
    FrameFrom(lines, lines, st, nodes, 0);
  }

  lemma {:induction false} FrameFrom(lines: seq<Text>, cur: seq<Text>, st: Setting, nodes: seq<Node>, j: nat)
    requires Disjoint(lines, st.esc, nodes) && j <= |nodes| && EditedBy(lines, cur, st, nodes[..j])
    ensures EditedBy(lines, EditAll(cur, st, nodes[j..]), st, nodes)
    ensures ReportAll(cur, st, nodes[j..]) == Planned(lines, st, nodes[j..])
    decreases |nodes| - j
  {
    hide Disjoint, EditedBy, Edit, Decide;
    if j == |nodes| {
      assert nodes[..j] == nodes;
    } else {
      FrameStep(lines, cur, st, nodes, j);
      assert nodes[j..][0] == nodes[j] && nodes[j..][1..] == nodes[j + 1..];
      FrameFrom(lines, Edit(cur, st, nodes[j]), st, nodes, j + 1);
    }
  }

  // ---------- undoing the edits ----------

  /** `n` bytes deleted at offset `k`. */
  function Delete(l: Text, k: nat, n: nat): Text
    requires k + n <= |l|
  {
    l[..k] + l[k + n..]
  }

  lemma DeleteInserted(l: Text, k: nat, x: Text)
    requires k <= |l|
    ensures k + |x| <= |Insert(l, k, x)| && Delete(Insert(l, k, x), k, |x|) == l
  {
  }

  /** Deleting the inserted text where it was inserted gives back every edited line. */
  lemma InjectionDeletes(lines: seq<Text>, st: Setting, nodes: seq<Node>, a: nat)
    requires Disjoint(lines, st.esc, nodes) && a < |nodes|
    ensures |EditAll(lines, st, nodes)| == |lines|
    ensures Decide(lines, st, nodes[a]).Inject? ==>
              var Spot(m, k) := Decide(lines, st, nodes[a]).spot;
              && m < |lines| && k + |st.Fixed()| <= |EditAll(lines, st, nodes)[m]|
              && Delete(EditAll(lines, st, nodes)[m], k, |st.Fixed()|) == lines[m]
  {
    hide Decide, Disjoint, EditAll, Insert, Delete;
    InjectionFrame(lines, st, nodes);
    if Decide(lines, st, nodes[a]).Inject? {
      var Spot(m, k) := Decide(lines, st, nodes[a]).spot;
      assert Edits(lines, st, nodes[a], m);
      EditsInRun(lines, st, nodes[a], m);
      assert InsertedAt(lines[m], EditAll(lines, st, nodes)[m], k, st.Fixed());
      DeleteInserted(lines[m], k, st.Fixed());
    }
  }

  /** A Containerfile with nothing to inject into comes back as it is, if and only if it ends in a
      newline; otherwise that is added. */
  lemma NothingInjected(content: Text, st: Setting, nodes: seq<Node>)
    requires forall a :: 0 <= a < |nodes| ==> !Decide(Lines(content), st, nodes[a]).Inject?
    ensures Unsplit(EditAll(Lines(content), st, nodes)) == content <==>
            content != [] && content[|content| - 1] == NEWLINE
  {
    hide Decide, EditAll, Lines, Unsplit;
    NothingEdited(Lines(content), st, nodes);
    UnsplitLinesIff(content);
  }

  lemma {:induction false} NothingEdited(lines: seq<Text>, st: Setting, nodes: seq<Node>)
    requires forall a :: 0 <= a < |nodes| ==> !Decide(lines, st, nodes[a]).Inject?
    ensures EditAll(lines, st, nodes) == lines
  {
    hide Decide;
    if nodes != [] {
      assert Edit(lines, st, nodes[0]) == lines;
      NothingEdited(lines, st, nodes[1..]);
    }
  }

  // ---------- end to end: from text to text ----------

  ghost predicate PlainLines(ls: seq<Text>) {
    forall j :: 0 <= j < |ls| ==> NEWLINE !in ls[j]
  }

  lemma StandsInside(a: seq<Text>, x: seq<Text>, b: seq<Text>)
    ensures StandsAt(x, a + x + b, |a|)
  {
  }

  /** Splitting the stored lines replaces the edited line by its parts and keeps its neighbours. */
  lemma FlatLayout(lines: seq<Text>, final: seq<Text>, s: nat, m: nat, e: nat, ls: seq<Text>)
    requires s <= m < e <= |lines| == |final| && PlainLines(lines)
    requires forall q :: s <= q < e && q != m ==> final[q] == lines[q]
    requires Lines(final[m] + [NEWLINE]) == ls
    ensures Replaced(lines, s, m, e, ls, Flat(final), |Flat(final[..s])|)
  {
    hide Lines, Flat, Replaced, StandsAt;
    var X, Y := lines[s..m], lines[m + 1..e];
    CutFive(final, s, m, e, X, Y, lines);
    FlatFive(final[..s], X, final[m], Y, final[e..]);
    FlatPlain(X);
    FlatPlain(Y);
    FiveStand(Flat(final[..s]), X, ls, Y, Flat(final[e..]));
    if e == |lines| { assert final[e..] == []; assert |Flat([])| == 0 by { FlatPlain([]); } }
    ReplacedIntro(lines, s, m, e, ls, Flat(final), |Flat(final[..s])|);
  }

  lemma ReplacedIntro(lines: seq<Text>, i: nat, m: nat, e: nat, ls: seq<Text>, other: seq<Text>, s: nat)
    requires i <= m < e <= |lines|
    requires StandsAt(lines[i..m], other, s) && StandsAt(ls, other, s + |lines[i..m]|)
    requires StandsAt(lines[m + 1..e], other, s + |lines[i..m]| + |ls|)
    requires e == |lines| ==> |other| == s + |lines[i..m]| + |ls| + |lines[m + 1..e]|
    ensures Replaced(lines, i, m, e, ls, other, s)
  {
  }

  lemma CutFive(final: seq<Text>, s: nat, m: nat, e: nat, x: seq<Text>, y: seq<Text>, lines: seq<Text>)
    requires s <= m < e <= |final| == |lines| && x == lines[s..m] && y == lines[m + 1..e]
    requires forall q :: s <= q < e && q != m ==> final[q] == lines[q]
    ensures final == final[..s] + x + [final[m]] + y + final[e..]
  {
    assert final[s..m] == x && final[m + 1..e] == y;
  }

  lemma FiveStand(a: seq<Text>, x: seq<Text>, ls: seq<Text>, y: seq<Text>, z: seq<Text>)
    ensures var all := a + x + ls + y + z;
            && StandsAt(x, all, |a|) && StandsAt(ls, all, |a| + |x|) && StandsAt(y, all, |a| + |x| + |ls|)
  {
    hide StandsAt;
    var all := a + x + ls + y + z;
    assert all == a + x + (ls + y + z);
    StandsInside(a, x, ls + y + z);
    assert all == (a + x) + ls + (y + z);
    StandsInside(a + x, ls, y + z);
    StandsInside(a + x + ls, y, z);
  }

  lemma FlatFive(a: seq<Text>, x: seq<Text>, l: Text, y: seq<Text>, z: seq<Text>)
    ensures Flat(a + x + [l] + y + z) == Flat(a) + Flat(x) + Lines(l + [NEWLINE]) + Flat(y) + Flat(z)
  {
    hide Lines;
    FlatAppend(a + x + [l] + y, z);
    FlatAppend(a + x + [l], y);
    FlatAppend(a + x, [l]);
    FlatAppend(a, x);
    assert Flat([l]) == Lines(l + [NEWLINE]) by {
      assert [l][1..] == [];
      assert Lines(l + [NEWLINE]) + [] == Lines(l + [NEWLINE]);
    }
  }

  lemma {:induction false} FixedPlain(toInject: Text)
    ensures PlainLines(FixedLines(toInject))
  {
    hide TrimContinuation, Lines;
    LinesPlain(toInject);
    var ls, fs := Lines(toInject), FixedLines(toInject);
    forall j | 0 <= j < |fs| ensures NEWLINE !in fs[j] {
      TrimContinuationPrefix(ls[j], BACKSLASH);
      assert fs[j] == ls[j][..|fs[j]|];
    }
  }

  /** The edited line splits into the inserted lines. */
  lemma EditedLineSplits(p: Text, k: nat, st: Setting)
    requires ValidEscape(st.esc) && k <= |p| && NEWLINE !in p && PlainLines(st.fs)
    ensures Lines(Insert(p, k, st.Fixed()) + [NEWLINE]) == Inserted(p[..k], st.fs, p[k..], st.esc)
  {
    InsertedSplits(p[..k], st.fs, p[k..], st.esc);
  }

  /** After the whole loop, the run of an injected node still holds its lines, but for the parts
      of the one line that was edited. */
  lemma RunReplaced(lines: seq<Text>, st: Setting, nodes: seq<Node>, a: nat)
    requires ValidEscape(st.esc) && PlainLines(lines) && PlainLines(st.fs) && Disjoint(lines, st.esc, nodes)
    requires a < |nodes| && Decide(lines, st, nodes[a]).Inject?
    ensures var Spot(m, k) := Decide(lines, st, nodes[a]).spot;
            var s, e := Start(nodes[a]), RunEnd(lines, st.esc, Start(nodes[a]));
            var final := EditAll(lines, st, nodes);
            && m < |lines| == |final| && k <= |lines[m]| && s <= |final|
            && Replaced(lines, s, m, e, Inserted(lines[m][..k], st.fs, lines[m][k..], st.esc),
                        Flat(final), |Flat(final[..s])|)
  {
    hide Decide, Disjoint, EditAll, RunEnd, Flat, Inserted, Replaced, Insert, Lines;
    var Spot(m, k) := Decide(lines, st, nodes[a]).spot;
    var s, e := Start(nodes[a]), RunEnd(lines, st.esc, Start(nodes[a]));
    var final := EditAll(lines, st, nodes);
    InjectionFrame(lines, st, nodes);
    assert Edits(lines, st, nodes[a], m);
    EditsInRun(lines, st, nodes[a], m);
    assert InsertedAt(lines[m], final[m], k, st.Fixed());
    EditedLineSplits(lines[m], k, st);
    forall q | s <= q < e && q != m ensures final[q] == lines[q] {
      RunUntouched(lines, st, nodes, a, q);
      assert Untouched(lines, st, nodes, q);
    }
    FlatLayout(lines, final, s, m, e, Inserted(lines[m][..k], st.fs, lines[m][k..], st.esc));
  }

  /** The options of the instruction survive: its tokens before the chosen one are unchanged, and
      the rest is tokenized as the injected text followed by the old command. */
  lemma InjectionKeepsOptions(line: Text, st: Setting, x: Text)
    requires ValidEscape(st.esc) && ChooseIn(line, st.esc, st.heredoc).Accept?
    ensures var i, j := IndexIn(line, st), ChooseIn(line, st.esc, st.heredoc).token;
            Tokens(Insert(line, i, x), st.esc, 0)
            == Tokens(line, st.esc, 0)[..j] + Shift(Tokens(x + line[i..], st.esc, 0), i)
  {
    hide Tokens, Choose;
    InsertAtToken(line, st.esc, ChooseIn(line, st.esc, st.heredoc).token, x);
  }

  // ---------- where a line ends up ----------

  /** How many of the first `s` lines are edited. */
  ghost function EditCount(lines: seq<Text>, st: Setting, nodes: seq<Node>, s: nat): nat {
    if s == 0 then 0
    else EditCount(lines, st, nodes, s - 1) + if Untouched(lines, st, nodes, s - 1) then 0 else 1
  }

  /** Each edited line before it moves a line down by the added lines of the injection. */
  lemma {:induction false} ShiftedStart(lines: seq<Text>, st: Setting, nodes: seq<Node>, s: nat)
    requires ValidEscape(st.esc) && PlainLines(lines) && PlainLines(st.fs) && Disjoint(lines, st.esc, nodes)
    requires s <= |lines| && st.fs != []
    ensures |EditAll(lines, st, nodes)| == |lines|
    ensures |Flat(EditAll(lines, st, nodes)[..s])| == s + (|st.fs| - 1) * EditCount(lines, st, nodes, s)
  {
    hide *;
    LineCount(lines, st, nodes);
    var final := EditAll(lines, st, nodes);
    if s == 0 {
      CountNone(lines, st, nodes, final);
    } else {
      ShiftedStart(lines, st, nodes, s - 1);
      PieceCount(lines, st, nodes, s - 1);
      assert final[..s] == final[..s - 1] + [final[s - 1]];
      FlatAppend(final[..s - 1], [final[s - 1]]);
      FlatOne(final[s - 1]);
      CountNext(lines, st, nodes, s);
    }
  }

  lemma LineCount(lines: seq<Text>, st: Setting, nodes: seq<Node>)
    requires Disjoint(lines, st.esc, nodes)
    ensures |EditAll(lines, st, nodes)| == |lines|
  {
    hide Disjoint, EditAll;
    InjectionFrame(lines, st, nodes);
  }

  lemma CountNone(lines: seq<Text>, st: Setting, nodes: seq<Node>, final: seq<Text>)
    ensures EditCount(lines, st, nodes, 0) == 0 && |Flat(final[..0])| == 0
  {
  }

  lemma CountNext(lines: seq<Text>, st: Setting, nodes: seq<Node>, s: nat)
    requires s > 0 && st.fs != []
    ensures (|st.fs| - 1) * EditCount(lines, st, nodes, s)
            == (|st.fs| - 1) * EditCount(lines, st, nodes, s - 1)
             + if Untouched(lines, st, nodes, s - 1) then 0 else |st.fs| - 1
  {
    hide Untouched;
  }

  /** An edited line splits into as many lines as the injection has, any other line into one. */
  lemma PieceCount(lines: seq<Text>, st: Setting, nodes: seq<Node>, q: nat)
    requires ValidEscape(st.esc) && PlainLines(lines) && PlainLines(st.fs) && Disjoint(lines, st.esc, nodes)
    requires q < |lines| && st.fs != []
    ensures q < |EditAll(lines, st, nodes)|
    ensures |Lines(EditAll(lines, st, nodes)[q] + [NEWLINE])| == if Untouched(lines, st, nodes, q) then 1 else |st.fs|
  {
    hide Disjoint, EditAll, Decide, Insert, Inserted, Lines;
    InjectionFrame(lines, st, nodes);
    var l := EditAll(lines, st, nodes)[q];
    if Untouched(lines, st, nodes, q) {
      OneLine(l);
    } else {
      var a :| 0 <= a < |nodes| && Edits(lines, st, nodes[a], q);
      assert InsertedAt(lines[q], l, Decide(lines, st, nodes[a]).spot.offset, st.Fixed());
      EditedLineSplits(lines[q], Decide(lines, st, nodes[a]).spot.offset, st);
    }
  }

  lemma FlatOne(l: Text)
    ensures Flat([l]) == Lines(l + [NEWLINE])
  {
    hide Lines;
    assert [l][1..] == [];
  }
}
