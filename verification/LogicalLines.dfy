/** Physical lines, line continuations and the logical line they form. */
module LogicalLines {
  import opened Bytes

  /** A line whose first visible character is `#`. */
  predicate IsComment(line: Text) {
    var t := TrimLeftSpace(line);
    t != [] && t[0] == HASH
  }

  /** Does `t`, which has no trailing blanks, end in an escape that is not itself escaped? */
  predicate EndsInEscape(t: Text, esc: byte) {
    t != [] && t[|t| - 1] == esc && (|t| == 1 || t[|t| - 2] != esc)
  }

  /** `trimContinuation`: drop an unescaped trailing escape and the blanks after it. */
  function TrimContinuation(line: Text, esc: byte): (c: Text)
    ensures |c| <= |line|
  {
    var t := TrimRightBlanks(line);
    if EndsInEscape(t, esc) then t[..|t| - 1] else line
  }

  lemma TrimContinuationPrefix(line: Text, esc: byte)
    ensures var c := TrimContinuation(line, esc); c == line[..|c|]
  {
    TrimRightFacts(line);
  }

  predicate HasContinuation(line: Text, esc: byte) {
    |TrimContinuation(line, esc)| != |line|
  }

  /** A line is continued exactly if its text without trailing blanks ends in an unescaped escape. */
  lemma ContinuedIff(line: Text, esc: byte)
    ensures HasContinuation(line, esc) <==> EndsInEscape(TrimRightBlanks(line), esc)
  {
  }

  /** `line` is `c`, then an escape that none precedes, then blanks. */
  ghost predicate IsContinuedAs(line: Text, c: Text, esc: byte) {
    && |c| < |line| && line[..|c|] == c && line[|c|] == esc && (c == [] || c[|c| - 1] != esc)
    && forall i :: |c| < i < |line| ==> line[i] == 0x20 || line[i] == 0x09
  }

  /** A continued line contributes what stands before its escape, any other line all of itself. */
  lemma ContributionIff(line: Text, esc: byte, c: Text)
    requires esc != SPACE && esc != TAB
    ensures HasContinuation(line, esc) && TrimContinuation(line, esc) == c <==> IsContinuedAs(line, c, esc)
    ensures !HasContinuation(line, esc) ==> TrimContinuation(line, esc) == line
  {
    hide TrimRightBlanks;
    TrimRightFacts(line);
    var t := TrimRightBlanks(line);
    if IsContinuedAs(line, c, esc) {
      TrimRightUnique(line, |c| + 1);
      assert t == line[..|c| + 1] && t[..|t| - 1] == c;
      assert c != [] ==> t[|t| - 2] == c[|c| - 1];
    }
    if EndsInEscape(t, esc) {
      assert t[..|t| - 1] == line[..|t| - 1];
      assert |t| > 1 ==> t[..|t| - 1][|t| - 2] == t[|t| - 2];
      assert line[|t| - 1] == t[|t| - 1];
    }
  }

  // ---------- gathering an instruction ----------

  /** The logical line that starts at physical line `i`. */
  function Logical(lines: seq<Text>, esc: byte, i: nat): Text
    decreases |lines| - i
  {
    if i >= |lines| then []
    else if IsComment(lines[i]) then Logical(lines, esc, i + 1)
    else if HasContinuation(lines[i], esc) then TrimContinuation(lines[i], esc) + Logical(lines, esc, i + 1)
    else TrimContinuation(lines[i], esc)
  }

  /** The indices of the physical lines that contribute to it. */
  function Gather(lines: seq<Text>, esc: byte, i: nat): seq<nat>
    decreases |lines| - i
  {
    if i >= |lines| then []
    else if IsComment(lines[i]) then Gather(lines, esc, i + 1)
    else if HasContinuation(lines[i], esc) then [i] + Gather(lines, esc, i + 1)
    else [i]
  }

  /** The index after the last physical line that gathering reads. */
  function RunEnd(lines: seq<Text>, esc: byte, i: nat): (e: nat)
    ensures i <= e && (i < |lines| ==> i < e <= |lines|)
    decreases |lines| - i
  {
    if i >= |lines| then i
    else if IsComment(lines[i]) || HasContinuation(lines[i], esc) then RunEnd(lines, esc, i + 1)
    else i + 1
  }

  ghost predicate InRange(lines: seq<Text>, idxs: seq<nat>) {
    forall k :: 0 <= k < |idxs| ==> idxs[k] < |lines|
  }

  lemma {:induction false} GatherInRange(lines: seq<Text>, esc: byte, i: nat)
    ensures InRange(lines, Gather(lines, esc, i))
    decreases |lines| - i
  {
    hide IsComment, HasContinuation, TrimContinuation;
    if i < |lines| { GatherInRange(lines, esc, i + 1); }
  }

  /** Gathered are the lines from the start on that are no comments, up to and with the first of them
      that is not continued, in order. */
  lemma {:induction false} GatherIff(lines: seq<Text>, esc: byte, i: nat, k: nat)
    ensures k in Gather(lines, esc, i) <==>
            && i <= k < |lines| && !IsComment(lines[k])
            && forall j :: i <= j < k && !IsComment(lines[j]) ==> HasContinuation(lines[j], esc)
    ensures forall a, b :: 0 <= a < b < |Gather(lines, esc, i)| ==> Gather(lines, esc, i)[a] < Gather(lines, esc, i)[b]
    decreases |lines| - i
  {
    hide IsComment, HasContinuation;
    if i < |lines| {
      GatherIff(lines, esc, i + 1, k);
      var rest := Gather(lines, esc, i + 1);
      GatherFrom(lines, esc, i + 1);
      assert k in [i] + rest <==> k == i || k in rest;
    }
  }

  lemma {:induction false} GatherFrom(lines: seq<Text>, esc: byte, i: nat)
    ensures forall a :: 0 <= a < |Gather(lines, esc, i)| ==> i <= Gather(lines, esc, i)[a]
    decreases |lines| - i
  {
    hide IsComment, HasContinuation;
    if i < |lines| { GatherFrom(lines, esc, i + 1); }
  }

  /** What the physical lines at the given indices contribute. */
  function JoinAt(lines: seq<Text>, idxs: seq<nat>, esc: byte): Text
    requires InRange(lines, idxs)
  {
    if idxs == [] then [] else TrimContinuation(lines[idxs[0]], esc) + JoinAt(lines, idxs[1..], esc)
  }

  lemma {:induction false} GatherJoins(lines: seq<Text>, esc: byte, i: nat)
    ensures InRange(lines, Gather(lines, esc, i))
    ensures JoinAt(lines, Gather(lines, esc, i), esc) == Logical(lines, esc, i)
    decreases |lines| - i
  {
    hide IsComment, HasContinuation, TrimContinuation;
    GatherInRange(lines, esc, i);
    GatherInRange(lines, esc, i + 1);
    if i < |lines| {
      if IsComment(lines[i]) {
        GatherJoins(lines, esc, i + 1);
      } else if HasContinuation(lines[i], esc) {
        GatherJoins(lines, esc, i + 1);
        JoinAtCons(lines, i, Gather(lines, esc, i + 1), esc);
      } else {
        JoinAtCons(lines, i, [], esc);
        assert [i] + [] == [i];
        assert TrimContinuation(lines[i], esc) + [] == TrimContinuation(lines[i], esc);
      }
    }
  }

  lemma JoinAtCons(lines: seq<Text>, i: nat, rest: seq<nat>, esc: byte)
    requires i < |lines| && InRange(lines, rest)
    ensures JoinAt(lines, [i] + rest, esc) == TrimContinuation(lines[i], esc) + JoinAt(lines, rest, esc)
  {
    assert ([i] + rest)[1..] == rest;
  }

  /** A place in a physical line. */
  datatype Spot = Spot(line: nat, offset: nat)

  /** The physical place of an offset into the logical line. */
  function Locate(lines: seq<Text>, esc: byte, i: nat, off: nat): (spot: Spot)
    requires off < |Logical(lines, esc, i)|
    ensures i <= spot.line < RunEnd(lines, esc, i) <= |lines|
    ensures !IsComment(lines[spot.line]) && spot.offset < |TrimContinuation(lines[spot.line], esc)|
    decreases |lines| - i
  {
    if IsComment(lines[i]) then Locate(lines, esc, i + 1, off)
    else
      var n := |TrimContinuation(lines[i], esc)|;
      if off < n then Spot(i, off) else Locate(lines, esc, i + 1, off - n)
  }

  /** `Locate` on the gathered indices, as the source walks them. */
  function LocateAt(lines: seq<Text>, idxs: seq<nat>, esc: byte, off: nat): Spot
    requires InRange(lines, idxs)
    requires off < |JoinAt(lines, idxs, esc)|
  {
    var n := |TrimContinuation(lines[idxs[0]], esc)|;
    if off < n then Spot(idxs[0], off) else LocateAt(lines, idxs[1..], esc, off - n)
  }

  lemma {:induction false} LocateGathered(lines: seq<Text>, esc: byte, i: nat, off: nat)
    requires off < |Logical(lines, esc, i)|
    ensures InRange(lines, Gather(lines, esc, i))
    ensures JoinAt(lines, Gather(lines, esc, i), esc) == Logical(lines, esc, i)
    ensures LocateAt(lines, Gather(lines, esc, i), esc, off) == Locate(lines, esc, i, off)
    decreases |lines| - i
  {
    hide IsComment, HasContinuation, TrimContinuation;
    GatherJoins(lines, esc, i);
    if IsComment(lines[i]) {
      LocateGathered(lines, esc, i + 1, off);
    } else {
      var n := |TrimContinuation(lines[i], esc)|;
      if off >= n {
        LocateGathered(lines, esc, i + 1, off - n);
        LocateAtCons(lines, i, Gather(lines, esc, i + 1), esc, off);
      }
    }
  }

  lemma LocateAtCons(lines: seq<Text>, i: nat, rest: seq<nat>, esc: byte, off: nat)
    requires i < |lines| && InRange(lines, rest)
    requires var n := |TrimContinuation(lines[i], esc)|; n <= off < n + |JoinAt(lines, rest, esc)|
    ensures off < |JoinAt(lines, [i] + rest, esc)|
    ensures LocateAt(lines, [i] + rest, esc, off)
            == LocateAt(lines, rest, esc, off - |TrimContinuation(lines[i], esc)|)
  {
    JoinAtCons(lines, i, rest, esc);
    assert ([i] + rest)[1..] == rest;
  }

  // ---------- the methods of the source ----------

  /** `getPhysicalLines`, from the 0-based index of the start line. */
  method GetPhysicalLines(lines: seq<Text>, esc: byte, start: nat) returns (idxs: seq<nat>)
    ensures idxs == Gather(lines, esc, start)
  {
    hide IsComment, HasContinuation, TrimContinuation;
    idxs := [];
    var i := start;
    ghost var all := Gather(lines, esc, start);
    while i < |lines|
      invariant start <= i
      invariant idxs + Gather(lines, esc, i) == all
    {
      if IsComment(lines[i]) {
        i := i + 1;
        continue;
      }
      GatherStep(lines, esc, i, idxs);
      idxs := idxs + [i];
      if !HasContinuation(lines[i], esc) {
        return;
      }
      i := i + 1;
    }
  }

  lemma GatherStep(lines: seq<Text>, esc: byte, i: nat, idxs: seq<nat>)
    requires i < |lines| && !IsComment(lines[i])
    ensures idxs + Gather(lines, esc, i)
            == if HasContinuation(lines[i], esc) then idxs + [i] + Gather(lines, esc, i + 1) else idxs + [i]
  {
    var rest := Gather(lines, esc, i + 1);
    assert idxs + ([i] + rest) == idxs + [i] + rest;
  }

  /** `joinToLogicalLine`. */
  method JoinToLogicalLine(lines: seq<Text>, idxs: seq<nat>, esc: byte) returns (s: Text)
    requires InRange(lines, idxs)
    ensures s == JoinAt(lines, idxs, esc)
  {
    s := [];
    var j := 0;
    assert idxs[0..] == idxs;
    while j < |idxs|
      invariant 0 <= j <= |idxs|
      invariant s + JoinAt(lines, idxs[j..], esc) == JoinAt(lines, idxs, esc)
    {
      assert idxs[j..][1..] == idxs[j + 1..];
      s := s + TrimContinuation(lines[idxs[j]], esc);
      j := j + 1;
    }
  }

  // ---------- inserting lines ----------

  /** `x` inserted into `s` at offset `k`. */
  function Insert(s: Text, k: nat, x: Text): Text
    requires k <= |s|
  {
    s[..k] + x + s[k..]
  }

  /** The physical lines that result from putting the fixed lines `fs` between `a` and `b`. */
  function Inserted(a: Text, fs: seq<Text>, b: Text, esc: byte): (ls: seq<Text>)
    ensures |ls| == if fs == [] then 1 else |fs|
    decreases |fs|
  {
    if fs == [] then [a + b]
    else if |fs| == 1 then [a + fs[0] + b]
    else [a + fs[0] + [esc]] + Inserted([], fs[1..], b, esc)
  }

  /** Inserting the fixed text, newlines included, yields those lines. */
  lemma {:induction false} InsertedSplits(a: Text, fs: seq<Text>, b: Text, esc: byte)
    requires NEWLINE !in a && NEWLINE !in b && esc != NEWLINE
    requires forall j :: 0 <= j < |fs| ==> NEWLINE !in fs[j]
    ensures Lines(a + Join(fs, [esc, NEWLINE]) + b + [NEWLINE]) == Inserted(a, fs, b, esc)
    decreases |fs|
  {
    if fs == [] {
      assert a + [] + b == a + b;
      OneLine(a + b);
    } else if |fs| == 1 {
      OneLine(a + fs[0] + b);
    } else {
      var rest := Join(fs[1..], [esc, NEWLINE]);
      var l := a + fs[0] + [esc];
      SplitHead(a, fs[0], esc, rest, b);
      LinesFirst(l, [] + rest + b + [NEWLINE]);
      InsertedSplits([], fs[1..], b, esc);
    }
  }

  lemma SplitHead(a: Text, f: Text, esc: byte, rest: Text, b: Text)
    ensures a + (f + [esc, NEWLINE] + rest) + b + [NEWLINE]
            == (a + f + [esc]) + [NEWLINE] + ([] + rest + b + [NEWLINE])
  {
  }

  /** The rest `b` of a physical line keeps its continuation whatever is put in front of it:
      it has a visible byte, and is not a lone escape. */
  ghost predicate KeepsContinuation(b: Text, esc: byte) {
    var t := TrimRightBlanks(b);
    t != [] && (|t| >= 2 || t[0] != esc)
  }

  lemma TrimRightPrefixed(x: Text, b: Text)
    requires TrimRightBlanks(b) != []
    ensures TrimRightBlanks(x + b) == x + TrimRightBlanks(b)
  {
    TrimRightFacts(b);
    var t := TrimRightBlanks(b);
    var n := |x| + |t|;
    assert (x + b)[n - 1] == t[|t| - 1];
    assert forall i :: n <= i < |x + b| ==> (x + b)[i] == b[i - |x|];
    TrimRightUnique(x + b, n);
    assert (x + b)[..n] == x + t;
  }

  lemma ContinuationPrefixed(x: Text, b: Text, esc: byte)
    requires KeepsContinuation(b, esc)
    ensures TrimContinuation(x + b, esc) == x + TrimContinuation(b, esc)
    ensures HasContinuation(x + b, esc) == HasContinuation(b, esc)
  {
    var t := TrimRightBlanks(b);
    TrimRightPrefixed(x, b);
    assert (x + t)[|x + t| - 1] == t[|t| - 1];
    if |t| >= 2 { assert (x + t)[|x + t| - 2] == t[|t| - 2]; }
    assert EndsInEscape(x + t, esc) == EndsInEscape(t, esc);
    assert (x + t)[..|x + t| - 1] == x + t[..|t| - 1];
  }

  /** A line that ends in the escape added after a fixed line is continued, if the text before
      does not itself end in the escape. */
  lemma ContinuationAdded(x: Text, esc: byte)
    requires esc != SPACE && esc != TAB
    requires x == [] || x[|x| - 1] != esc
    ensures TrimContinuation(x + [esc], esc) == x && HasContinuation(x + [esc], esc)
  {
    TrimRightUnique(x + [esc], |x| + 1);
    assert (x + [esc])[..|x| + 1] == x + [esc];
    assert (x + [esc])[..|x|] == x;
  }

  /** The inserted lines stand in `lines` from index `t`. */
  ghost predicate StandsAt(ls: seq<Text>, lines: seq<Text>, t: nat) {
    t + |ls| <= |lines| && forall j :: 0 <= j < |ls| ==> lines[t + j] == ls[j]
  }

  ghost predicate NoComment(ls: seq<Text>) {
    forall j :: 0 <= j < |ls| ==> !IsComment(ls[j])
  }

  lemma LastInserted(lines: seq<Text>, t: nat, x: Text, b: Text, esc: byte)
    requires t < |lines| && lines[t] == x + b && !IsComment(lines[t]) && KeepsContinuation(b, esc)
    ensures Logical(lines, esc, t) == x + TrimContinuation(b, esc)
            + if HasContinuation(b, esc) then Logical(lines, esc, t + 1) else []
  {
    hide IsComment, HasContinuation, TrimContinuation, KeepsContinuation;
    ContinuationPrefixed(x, b, esc);
  }

  lemma Rejoin(a: Text, f: Text, u: Text, c: Text, tail: Text)
    ensures (a + f) + ([] + u + c + tail) == a + (f + u) + c + tail
  {
  }

  // ---------- gathering again after an insertion ----------

  /** Cutting a physical line at a visible byte that does not follow an escape, within its
      contribution, leaves the continuation to the second part. */
  lemma CutKeeps(p: Text, k: nat, esc: byte)
    requires k < |TrimContinuation(p, esc)| && p[k] != SPACE && p[k] != TAB
    requires k == 0 || p[k - 1] != esc
    ensures KeepsContinuation(p[k..], esc)
    ensures TrimContinuation(p, esc) == p[..k] + TrimContinuation(p[k..], esc)
    ensures HasContinuation(p, esc) == HasContinuation(p[k..], esc)
  {
    var a, b := p[..k], p[k..];
    assert p == a + b;
    RestVisible(a, b, esc);
    ContinuationPrefixed(a, b, esc);
  }

  lemma RestVisible(a: Text, b: Text, esc: byte)
    requires |a| < |TrimContinuation(a + b, esc)| && b != [] && b[0] != SPACE && b[0] != TAB
    requires a == [] || a[|a| - 1] != esc
    ensures KeepsContinuation(b, esc)
  {
    hide TrimRightBlanks, EndsInEscape;
    VisibleStays(b);
    TrimRightPrefixed(a, b);
    LoneEscape(a, esc);
    var t := TrimRightBlanks(b);
    assert |t| == 1 ==> t == [t[0]];
  }

  lemma VisibleStays(b: Text)
    requires b != [] && b[0] != SPACE && b[0] != TAB
    ensures TrimRightBlanks(b) != []
  {
    hide TrimRightBlanks;
    TrimRightFacts(b);
  }

  lemma LoneEscape(a: Text, esc: byte)
    requires a == [] || a[|a| - 1] != esc
    ensures EndsInEscape(a + [esc], esc) && (a + [esc])[..|a + [esc]| - 1] == a
  {
  }

  /** The run that starts at `i` reads no further than its end, so lines that agree that far
      have the same logical line and a run of the same length. */
  lemma {:induction false} LogicalSame(lines: seq<Text>, i: nat, other: seq<Text>, s: nat, esc: byte)
    requires i <= |lines|
    requires StandsAt(lines[i..RunEnd(lines, esc, i)], other, s)
    requires RunEnd(lines, esc, i) == |lines| ==> |other| == s + |lines| - i
    ensures Logical(other, esc, s) == Logical(lines, esc, i)
    ensures RunEnd(other, esc, s) - s == RunEnd(lines, esc, i) - i
    decreases |lines| - i
  {
    hide IsComment, HasContinuation, TrimContinuation;
    if i < |lines| {
      var run := lines[i..RunEnd(lines, esc, i)];
      assert other[s + 0] == run[0] == lines[i];
      if IsComment(lines[i]) || HasContinuation(lines[i], esc) {
        StandsAtTail(run, other, s);
        assert run[1..] == lines[i + 1..RunEnd(lines, esc, i + 1)];
        LogicalSame(lines, i + 1, other, s + 1, esc);
      }
    }
  }

  lemma StandsAtTail(ls: seq<Text>, lines: seq<Text>, t: nat)
    requires StandsAt(ls, lines, t) && ls != []
    ensures StandsAt(ls[1..], lines, t + 1)
  {
    forall j | 0 <= j < |ls| - 1 ensures lines[t + 1 + j] == ls[1..][j] {
      assert lines[t + (j + 1)] == ls[j + 1];
    }
  }

  /** `other` holds, from index `s`, the lines `i..e` with line `m` replaced by the lines `ls`,
      and nothing more if the lines end at `e`. */
  ghost predicate Replaced(lines: seq<Text>, i: nat, m: nat, e: nat, ls: seq<Text>, other: seq<Text>, s: nat) {
    && i <= m < e <= |lines|
    && StandsAt(lines[i..m], other, s)
    && StandsAt(ls, other, s + m - i)
    && StandsAt(lines[m + 1..e], other, s + m - i + |ls|)
    && (e == |lines| ==> |other| == s + e - i + |ls| - 1)
  }

  lemma InsertMiddle(a: Text, c: Text, tail: Text, x: Text)
    ensures Insert(a + c + tail, |a|, x) == a + x + c + tail
  {
    assert (a + c + tail)[..|a|] == a && (a + c + tail)[|a|..] == c + tail;
    assert a + x + (c + tail) == a + x + c + tail;
  }

  lemma InsertAfter(t: Text, l: Text, k: nat, x: Text)
    requires k <= |l|
    ensures Insert(t + l, |t| + k, x) == t + Insert(l, k, x)
  {
    assert (t + l)[..|t| + k] == t + l[..k] && (t + l)[|t| + k..] == l[k..];
    assert (t + l[..k]) + x + l[k..] == t + (l[..k] + x + l[k..]);
  }

  /** Up to the edited line both gather the same text `u`. */
  lemma {:induction false} GatherBefore(lines: seq<Text>, i: nat, off: nat, esc: byte,
                                        ls: seq<Text>, other: seq<Text>, s: nat) returns (u: Text)
    requires off < |Logical(lines, esc, i)|
    requires Replaced(lines, i, Locate(lines, esc, i, off).line, RunEnd(lines, esc, i), ls, other, s)
    ensures var Spot(m, k) := Locate(lines, esc, i, off);
            && |u| + k == off
            && Logical(lines, esc, i) == u + Logical(lines, esc, m)
            && Logical(other, esc, s) == u + Logical(other, esc, s + m - i)
            && RunEnd(other, esc, s) == RunEnd(other, esc, s + m - i)
            && RunEnd(lines, esc, m) == RunEnd(lines, esc, i)
            && Replaced(lines, m, m, RunEnd(lines, esc, m), ls, other, s + m - i)
    decreases |lines| - i
  {
    hide *;
    var m := Locate(lines, esc, i, off).line;
    if i == m {
      LocateHere(lines, esc, i, off);
      u := [];
      assert [] + Logical(lines, esc, i) == Logical(lines, esc, i);
      assert [] + Logical(other, esc, s) == Logical(other, esc, s);
    } else {
      ReplacedNext(lines, i, m, RunEnd(lines, esc, i), ls, other, s);
      LocateNext(lines, esc, i, off);
      LogicalNext(other, esc, s);
      if IsComment(lines[i]) {
        u := GatherBefore(lines, i + 1, off, esc, ls, other, s + 1);
      } else {
        var t := TrimContinuation(lines[i], esc);
        var v := GatherBefore(lines, i + 1, off - |t|, esc, ls, other, s + 1);
        u := t + v;
        assert t + (v + Logical(lines, esc, m)) == u + Logical(lines, esc, m);
        assert t + (v + Logical(other, esc, s + m - i)) == u + Logical(other, esc, s + m - i);
      }
    }
  }

  lemma LogicalNext(lines: seq<Text>, esc: byte, i: nat)
    requires i < |lines|
    ensures IsComment(lines[i]) ==> Logical(lines, esc, i) == Logical(lines, esc, i + 1)
    ensures !IsComment(lines[i]) && HasContinuation(lines[i], esc) ==>
              Logical(lines, esc, i) == TrimContinuation(lines[i], esc) + Logical(lines, esc, i + 1)
    ensures IsComment(lines[i]) || HasContinuation(lines[i], esc) ==> RunEnd(lines, esc, i) == RunEnd(lines, esc, i + 1)
  {
    hide IsComment, HasContinuation, TrimContinuation;
  }

  /** An offset beyond the contribution of line `i` is found from the next line on. */
  lemma LocateNext(lines: seq<Text>, esc: byte, i: nat, off: nat)
    requires off < |Logical(lines, esc, i)| && Locate(lines, esc, i, off).line != i
    ensures i < |lines| && RunEnd(lines, esc, i + 1) == RunEnd(lines, esc, i)
    ensures IsComment(lines[i]) ==>
              && Logical(lines, esc, i) == Logical(lines, esc, i + 1)
              && Locate(lines, esc, i + 1, off) == Locate(lines, esc, i, off)
    ensures !IsComment(lines[i]) ==>
              var t := TrimContinuation(lines[i], esc);
              && HasContinuation(lines[i], esc) && |t| <= off
              && Logical(lines, esc, i) == t + Logical(lines, esc, i + 1)
              && off - |t| < |Logical(lines, esc, i + 1)|
              && Locate(lines, esc, i + 1, off - |t|) == Locate(lines, esc, i, off)
  {
    hide IsComment, HasContinuation, TrimContinuation;
  }

  lemma LocateHere(lines: seq<Text>, esc: byte, i: nat, off: nat)
    requires off < |Logical(lines, esc, i)| && Locate(lines, esc, i, off).line == i
    ensures Locate(lines, esc, i, off).offset == off
  {
  }

  lemma ReplacedNext(lines: seq<Text>, i: nat, m: nat, e: nat, ls: seq<Text>, other: seq<Text>, s: nat)
    requires Replaced(lines, i, m, e, ls, other, s) && i < m
    ensures Replaced(lines, i + 1, m, e, ls, other, s + 1)
    ensures s < |other| && other[s] == lines[i]
  {
    var before := lines[i..m];
    StandsAtTail(before, other, s);
    assert before[1..] == lines[i + 1..m];
    assert other[s + 0] == before[0];
  }
}
