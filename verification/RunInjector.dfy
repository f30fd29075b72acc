/** `RunInjector`: putting shell text in front of the command of every supported RUN instruction. */
module RunInjector {
  import opened Wrappers
  import Sequences
  import opened Bytes
  import opened Tokenizer
  import opened LogicalLines

  // ---------- the injected text ----------

  /** The lines of the injection, without the backslash continuations it may already have. */
  function FixedLines(toInject: Text): seq<Text> {
    var ls := Lines(toInject);
    seq(|ls|, j requires 0 <= j < |ls| => TrimContinuation(ls[j], BACKSLASH))
  }

  /** `fixInjection`: rejoin those lines with the escape token of the Containerfile. */
  method FixInjection(toInject: Text, esc: byte) returns (fixed: Text)
    ensures fixed == Join(FixedLines(toInject), [esc, NEWLINE])
  {
    var lines := SplitLines(toInject);
    ghost var split := lines;
    var i := 0;
    while i < |lines|
      invariant 0 <= i <= |lines| == |split|
      invariant forall j :: 0 <= j < i ==> lines[j] == TrimContinuation(split[j], BACKSLASH)
      invariant forall j :: i <= j < |lines| ==> lines[j] == split[j]
    {
      lines := lines[i := TrimContinuation(lines[i], BACKSLASH)];
      i := i + 1;
    }
    assert lines == FixedLines(toInject);
    fixed := Join(lines, [esc, NEWLINE]);
  }

  // ---------- choosing the place in the logical line ----------

  datatype Unsupported = Heredoc | ExecForm | NoOp

  datatype Choice = Reject(why: Unsupported) | Accept(token: nat)

  predicate IsFlag(raw: Text) { HasPrefix(raw, [DASH, DASH]) }

  /** A flag starts with two dashes. */
  lemma FlagIff(raw: Text)
    ensures IsFlag(raw) <==> |raw| >= 2 && raw[0] == 0x2D && raw[1] == 0x2D
  {
    if |raw| >= 2 { assert raw[..2] == [raw[0], raw[1]]; }
  }

  /** The first token from the j-th on that is no flag decides. */
  function Choose(tokens: seq<Token>, heredoc: Text -> bool, j: nat): (c: Choice)
    ensures c.Accept? ==> j <= c.token < |tokens|
    decreases |tokens| - j
  {
    if j >= |tokens| then Reject(NoOp)
    else if IsFlag(tokens[j].raw) then Choose(tokens, heredoc, j + 1)
    else if HasPrefix(tokens[j].raw, [HASH]) then Reject(NoOp)
    else if heredoc(tokens[j].raw) then Reject(Heredoc)
    else Accept(j)
  }

  /** The choice in declarative terms: accepted is the first non-flag token after the instruction
      name, unless it is a comment or a heredoc; without one the instruction does nothing. */
  lemma {:induction false} ChooseMeaning(tokens: seq<Token>, heredoc: Text -> bool, from: nat, j: nat)
    requires from <= j < |tokens|
    requires !IsFlag(tokens[j].raw) && forall l :: from <= l < j ==> IsFlag(tokens[l].raw)
    ensures var raw := tokens[j].raw;
            Choose(tokens, heredoc, from) ==
            if HasPrefix(raw, [HASH]) then Reject(NoOp)
            else if heredoc(raw) then Reject(Heredoc) else Accept(j)
    decreases j - from
  {
    if from < j { ChooseMeaning(tokens, heredoc, from + 1, j); }
  }

  lemma {:induction false} ChooseNothing(tokens: seq<Token>, heredoc: Text -> bool, from: nat)
    requires forall l :: from <= l < |tokens| ==> IsFlag(tokens[l].raw)
    ensures Choose(tokens, heredoc, from) == Reject(NoOp)
    decreases |tokens| - from
  {
    if from < |tokens| { ChooseNothing(tokens, heredoc, from + 1); }
  }

  /** The choice for a logical line: the instruction name itself is never the place. */
  function ChooseIn(line: Text, esc: byte, heredoc: Text -> bool): Choice {
    Choose(Tokens(line, esc, 0), heredoc, 1)
  }

  /** `findInjectionIndex`: an index and no error, or -1 and the reason. */
  method FindInjectionIndex(line: Text, esc: byte, heredoc: Text -> bool)
    returns (index: int, err: Option<Unsupported>)
    ensures match ChooseIn(line, esc, heredoc)
            case Reject(why) => index == -1 && err == Some(why)
            case Accept(j) => index == Tokens(line, esc, 0)[j].start && err == None
  {
    var tokens := Tokenize(line, esc);
    if |tokens| < 1 {
      return -1, Some(NoOp);
    }
    var j := 1;
    while j < |tokens|
      invariant 1 <= j <= |tokens|
      invariant Choose(tokens, heredoc, 1) == Choose(tokens, heredoc, j)
    {
      var raw := tokens[j].raw;
      if IsFlag(raw) {
        j := j + 1;
        continue;
      }
      if HasPrefix(raw, [HASH]) {
        return -1, Some(NoOp);
      }
      if heredoc(raw) {
        return -1, Some(Heredoc);
      }
      return tokens[j].start, None;
    }
    return -1, Some(NoOp);
  }

  /** What is known of the chosen index. */
  lemma ChosenByte(line: Text, esc: byte, heredoc: Text -> bool)
    requires ChooseIn(line, esc, heredoc).Accept?
    ensures var p := Tokens(line, esc, 0)[ChooseIn(line, esc, heredoc).token].start;
            p < |line| && !IsSpace(line[p]) && (p == 0 || IsSpace(line[p - 1]))
  {
    hide Tokens, Choose;
    var j := ChooseIn(line, esc, heredoc).token;
    TokensLossless(line, esc, 0);
    assert SliceOf(line, Tokens(line, esc, 0)[j]);
  }

  // ---------- deciding what to do with a node ----------

  /** A parsed instruction: its keyword, whether its arguments are in JSON form, its 1-based line. */
  datatype Node = Node(value: Text, json: bool, startLine: LineNumber)

  /** Line numbers of the parser are 1-based. */
  type LineNumber = n: int | 1 <= n witness 1

  datatype Report = Report(line: LineNumber, why: Unsupported)

  datatype Decision =
    | Other
    | Unsupported(why: Unsupported)
    | Inject(spot: Spot, index: nat)

  function Upper(c: byte): byte {
    if 0x61 <= c <= 0x7A then c - 0x20 else c
  }

  predicate IsRun(node: Node) {
    var v := node.value;
    |v| == 3 && Upper(v[0]) == 0x52 && Upper(v[1]) == 0x55 && Upper(v[2]) == 0x4E
  }

  /** Everything but the lines: the escape token, the heredoc test and the fixed lines. */
  datatype Setting = Setting(esc: byte, heredoc: Text -> bool, fs: seq<Text>) {
    function Fixed(): Text { Join(fs, [esc, NEWLINE]) }
  }

  function Start(node: Node): nat {
    node.startLine - 1
  }

  function IndexIn(line: Text, st: Setting): (p: nat)
    requires ChooseIn(line, st.esc, st.heredoc).Accept?
    ensures p < |line|
  {
    ChosenByte(line, st.esc, st.heredoc);
    Tokens(line, st.esc, 0)[ChooseIn(line, st.esc, st.heredoc).token].start
  }

  function Decide(lines: seq<Text>, st: Setting, node: Node): Decision {
    if !IsRun(node) then Other
    else if node.json then Unsupported(ExecForm)
    else
      var line := Logical(lines, st.esc, Start(node));
      match ChooseIn(line, st.esc, st.heredoc)
      case Reject(why) => Unsupported(why)
      case Accept(_) =>
        var p := IndexIn(line, st);
        Inject(Locate(lines, st.esc, Start(node), p), p)
  }

  /** The keyword in any mixture of cases. */
  lemma RunSpellings(node: Node)
    ensures IsRun(node) <==>
            && |node.value| == 3 && (node.value[0] == 0x52 || node.value[0] == 0x72)
            && (node.value[1] == 0x55 || node.value[1] == 0x75) && (node.value[2] == 0x4E || node.value[2] == 0x6E)
  {
  }

  /** What is decided, where `j` is the first token after the keyword that is no flag: other
      instructions and RUN in JSON form are told by the parser, a comment, a heredoc or nothing by that
      token; otherwise the place is its start. */
  lemma DecideMeaning(lines: seq<Text>, st: Setting, node: Node, j: nat)
    requires var tokens := Tokens(Logical(lines, st.esc, Start(node)), st.esc, 0);
             && 1 <= j && (j < |tokens| ==> !IsFlag(tokens[j].raw))
             && forall l :: 1 <= l < j && l < |tokens| ==> IsFlag(tokens[l].raw)
    ensures var line := Logical(lines, st.esc, Start(node));
            var tokens := Tokens(line, st.esc, 0);
            var reports := ReportOf(lines, st, node);
            if !IsRun(node) then reports == [] && Decide(lines, st, node) == Other
            else if node.json then reports == [Report(node.startLine, ExecForm)]
            else if j >= |tokens| || (tokens[j].raw != [] && tokens[j].raw[0] == 0x23) then
              reports == [Report(node.startLine, NoOp)]
            else if st.heredoc(tokens[j].raw) then reports == [Report(node.startLine, Heredoc)]
            else
              && reports == [] && tokens[j].start < |line|
              && Decide(lines, st, node) == Inject(Locate(lines, st.esc, Start(node), tokens[j].start), tokens[j].start)
    ensures !Decide(lines, st, node).Inject? ==> Edit(lines, st, node) == lines
  {
    hide Tokens, Logical, Locate, Choose;
    var tokens := Tokens(Logical(lines, st.esc, Start(node)), st.esc, 0);
    if j < |tokens| {
      ChooseMeaning(tokens, st.heredoc, 1, j);
      assert tokens[j].raw != [] ==> tokens[j].raw[..1] == [tokens[j].raw[0]];
    } else {
      ChooseNothing(tokens, st.heredoc, 1);
    }
  }

  // ---------- the loop over the nodes ----------

  function Edit(lines: seq<Text>, st: Setting, node: Node): (r: seq<Text>)
    ensures |r| == |lines|
  {
    match Decide(lines, st, node)
    case Inject(Spot(m, k), _) =>
      LocatedInLine(lines, st, node);
      lines[m := Insert(lines[m], k, st.Fixed())]
    case _ => lines
  }

  lemma LocatedInLine(lines: seq<Text>, st: Setting, node: Node)
    requires Decide(lines, st, node).Inject?
    ensures var Spot(m, k) := Decide(lines, st, node).spot;
            && Start(node) <= m < RunEnd(lines, st.esc, Start(node)) <= |lines|
            && !IsComment(lines[m]) && k < |TrimContinuation(lines[m], st.esc)| <= |lines[m]|
  {
    hide IsComment, TrimContinuation, Logical, ChooseIn, RunEnd;
  }

  function ReportOf(lines: seq<Text>, st: Setting, node: Node): seq<Report> {
    match Decide(lines, st, node)
    case Unsupported(why) => [Report(node.startLine, why)]
    case _ => []
  }

  function EditAll(lines: seq<Text>, st: Setting, nodes: seq<Node>): seq<Text>
    decreases |nodes|
  {
    if nodes == [] then lines else EditAll(Edit(lines, st, nodes[0]), st, nodes[1..])
  }

  function ReportAll(lines: seq<Text>, st: Setting, nodes: seq<Node>): seq<Report>
    decreases |nodes|
  {
    if nodes == [] then []
    else ReportOf(lines, st, nodes[0]) + ReportAll(Edit(lines, st, nodes[0]), st, nodes[1..])
  }

  /** The injector state: the physical lines are edited in place, and may then hold newlines. */
  class InternalInjector {
    var physicalLines: seq<Text>
    const nodes: seq<Node>
    const escapeToken: byte

    constructor (content: Text, nodes: seq<Node>, escapeToken: byte)
      ensures physicalLines == Lines(content) && this.nodes == nodes && this.escapeToken == escapeToken
    {
      var lines := SplitLines(content);
      this.physicalLines := lines;
      this.nodes := nodes;
      this.escapeToken := escapeToken;
    }

    /** `injectIntoPhysicalLine`: the offset is in range, so the final panic is unreachable. */
    method InjectIntoPhysicalLine(logicalLine: seq<nat>, injectionIndex: nat, toInject: Text)
      requires InRange(physicalLines, logicalLine)
      requires injectionIndex < |JoinAt(physicalLines, logicalLine, escapeToken)|
      modifies this`physicalLines
      ensures var Spot(m, k) := LocateAt(old(physicalLines), logicalLine, escapeToken, injectionIndex);
              && m < |old(physicalLines)| && k <= |old(physicalLines)[m]|
              && physicalLines == old(physicalLines)[m := Insert(old(physicalLines)[m], k, toInject)]
    {
      hide TrimContinuation;
      var off: nat := injectionIndex;
      var j := 0;
      assert logicalLine[0..] == logicalLine;
      while j < |logicalLine|
        invariant 0 <= j <= |logicalLine| && physicalLines == old(physicalLines)
        invariant off < |JoinAt(physicalLines, logicalLine[j..], escapeToken)|
        invariant LocateAt(physicalLines, logicalLine[j..], escapeToken, off)
                  == LocateAt(physicalLines, logicalLine, escapeToken, injectionIndex)
      {
        var i := logicalLine[j];
        var physicalLine := physicalLines[i];
        var contribution := |TrimContinuation(physicalLine, escapeToken)|;
        if contribution > off {
          physicalLines := physicalLines[i := physicalLine[..off] + toInject + physicalLine[off..]];
          return;
        }
        assert logicalLine[j..][1..] == logicalLine[j + 1..];
        off := off - contribution;
        j := j + 1;
      }
      assert false;
    }

    /** `inject`: the new lines and the reports are those of `EditAll` and `ReportAll`. */
    method Inject(toInject: Text, heredoc: Text -> bool) returns (text: Text, reports: seq<Report>)
      modifies this`physicalLines
      ensures var st := Setting(escapeToken, heredoc, FixedLines(toInject));
              && physicalLines == EditAll(old(physicalLines), st, nodes)
              && reports == ReportAll(old(physicalLines), st, nodes)
      ensures text == Unsplit(physicalLines)
    {
      var fixed := FixInjection(toInject, escapeToken);
      ghost var st := Setting(escapeToken, heredoc, FixedLines(toInject));
      reports := [];
      var n := 0;
      assert nodes[0..] == nodes;
      while n < |nodes|
        invariant 0 <= n <= |nodes|
        invariant EditAll(physicalLines, st, nodes[n..]) == EditAll(old(physicalLines), st, nodes)
        invariant reports + ReportAll(physicalLines, st, nodes[n..]) == ReportAll(old(physicalLines), st, nodes)
      {
        hide Decide, Edit, ReportOf;
        var node := nodes[n];
        assert nodes[n..][1..] == nodes[n + 1..];
        var found := InjectNode(node, fixed, heredoc, st);
        Sequences.Assoc(reports, found, ReportAll(physicalLines, st, nodes[n + 1..]));
        reports := reports + found;
        n := n + 1;
      }
      text := Join(physicalLines, [NEWLINE]) + [NEWLINE];
    }

    /** One iteration of the loop over the nodes. */
    method InjectNode(node: Node, fixed: Text, heredoc: Text -> bool, ghost st: Setting) returns (reports: seq<Report>)
      requires st.esc == escapeToken && st.heredoc == heredoc && st.Fixed() == fixed
      modifies this`physicalLines
      ensures physicalLines == Edit(old(physicalLines), st, node)
      ensures reports == ReportOf(old(physicalLines), st, node)
    {
      hide Logical, Gather, JoinAt, Locate, LocateAt, Tokens, Choose, InRange;
      reports := [];
      if !IsRun(node) {
        return;
      }
      if node.json {
        return [Report(node.startLine, ExecForm)];
      }
      var lineIndices := GetPhysicalLines(physicalLines, escapeToken, Start(node));
      GatherJoins(physicalLines, escapeToken, Start(node));
      var logicalLine := JoinToLogicalLine(physicalLines, lineIndices, escapeToken);
      var injectionIndex, unsupported := FindInjectionIndex(logicalLine, escapeToken, heredoc);
      if unsupported.Some? {
        reports := [Report(node.startLine, unsupported.value)];
      }
      if injectionIndex >= 0 {
        assert injectionIndex == IndexIn(logicalLine, st);
        LocateGathered(physicalLines, escapeToken, Start(node), injectionIndex);
        InjectIntoPhysicalLine(lineIndices, injectionIndex, fixed);
      }
    }
  }
}
