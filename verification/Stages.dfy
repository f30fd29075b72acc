/** The stages of a parsed Containerfile and the references between them. */
module Stages {
  import opened Wrappers

  /** What a stage is built from: an earlier stage, nothing, or an image. */
  datatype From = From(stage: Option<nat>, scratch: bool, image: Option<string>)

  datatype KeyValue = KeyValue(key: string, value: string)

  datatype Action = Copy(from: string) | Label(labels: seq<KeyValue>) | OtherAction

  /** A command and the `from` values of its mounts. */
  datatype Command = Command(action: Action, mounts: seq<string>)

  datatype Stage = Stage(name: Option<string>, from: From, platform: string, commands: seq<Command>)

  datatype BaseImage = BaseImage(ref: string, platform: string)

  /** All that is assumed of the parser: a stage is built only from an earlier one. */
  ghost predicate WellFormed(stages: seq<Stage>) {
    forall i :: 0 <= i < |stages| && stages[i].from.stage.Some? ==> stages[i].from.stage.value < i
  }

  // ---------- references in commands ----------

  function NonEmpty(refs: seq<string>): seq<string> {
    if refs == [] then []
    else if refs[0] == "" then NonEmpty(refs[1..]) else [refs[0]] + NonEmpty(refs[1..])
  }

  function CommandRefs(c: Command): seq<string> {
    (if c.action.Copy? && c.action.from != "" then [c.action.from] else []) + NonEmpty(c.mounts)
  }

  function FromRefs(commands: seq<Command>): seq<string> {
    if commands == [] then [] else CommandRefs(commands[0]) + FromRefs(commands[1..])
  }

  lemma {:induction false} NonEmptyMeaning(refs: seq<string>, ref: string)
    ensures ref in NonEmpty(refs) <==> ref != "" && ref in refs
  {
    if refs != [] {
      NonEmptyMeaning(refs[1..], ref);
      assert refs == [refs[0]] + refs[1..];
    }
  }

  /** A reference is collected exactly if some command copies or mounts from it. */
  lemma {:induction false} FromRefsMeaning(commands: seq<Command>, ref: string)
    ensures ref in FromRefs(commands) <==>
            ref != "" && exists c :: c in commands && (c.action == Copy(ref) || ref in c.mounts)
  {
    if commands != [] {
      var first := commands[0];
      NonEmptyMeaning(first.mounts, ref);
      FromRefsMeaning(commands[1..], ref);
      assert commands == [first] + commands[1..];
    }
  }

  /** `getFromRefsInCommands`. */
  method GetFromRefsInCommands(stage: Stage) returns (refs: seq<string>)
    ensures refs == FromRefs(stage.commands)
  {
    hide CommandRefs;
    refs := [];
    var i := 0;
    assert stage.commands[0..] == stage.commands;
    while i < |stage.commands|
      invariant 0 <= i <= |stage.commands|
      invariant refs + FromRefs(stage.commands[i..]) == FromRefs(stage.commands)
    {
      assert stage.commands[i..][1..] == stage.commands[i + 1..];
      var found := RefsOfCommand(stage.commands[i]);
      refs := refs + found;
      i := i + 1;
    }
  }

  /** The references of one command: that of a COPY, then those of its mounts. */
  method RefsOfCommand(cmd: Command) returns (refs: seq<string>)
    ensures refs == CommandRefs(cmd)
  {
    refs := [];
    if cmd.action.Copy? && cmd.action.from != "" {
      refs := refs + [cmd.action.from];
    }
    ghost var all := refs + NonEmpty(cmd.mounts);
    assert all == CommandRefs(cmd);
    var j := 0;
    assert cmd.mounts[0..] == cmd.mounts;
    while j < |cmd.mounts|
      invariant 0 <= j <= |cmd.mounts|
      invariant refs + NonEmpty(cmd.mounts[j..]) == all
    {
      assert cmd.mounts[j..][1..] == cmd.mounts[j + 1..];
      if cmd.mounts[j] != "" {
        refs := refs + [cmd.mounts[j]];
      }
      j := j + 1;
    }
  }

  // ---------- references to stages ----------

  predicate IsDigits(s: string) {
    forall i :: 0 <= i < |s| ==> '0' <= s[i] <= '9'
  }

  function Decimal(s: string): (n: nat)
    requires IsDigits(s)
  {
    if s == "" then 0 else 10 * Decimal(s[..|s| - 1]) + (s[|s| - 1] - '0') as nat
  }

  /** `strconv.Atoi` for 64-bit integers. */
  function Atoi(s: string): Option<int> {
    var neg := s != "" && s[0] == '-';
    var digits := if s != "" && (s[0] == '-' || s[0] == '+') then s[1..] else s;
    if digits == "" || !IsDigits(digits) then None
    else
      var magnitude: int := Decimal(digits);
      var n := if neg then -magnitude else magnitude;
      if -0x8000_0000_0000_0000 <= n < 0x8000_0000_0000_0000 then Some(n) else None
  }

  /** The stages that carry the name, in order. */
  function Named(stages: seq<Stage>, ref: string): (r: seq<nat>)
    ensures forall i: nat :: i in r <==> i < |stages| && stages[i].name == Some(ref)
  {
    if stages == [] then []
    else
      var n := |stages| - 1;
      Named(stages[..n], ref) + if stages[n].name == Some(ref) then [n] else []
  }

  /** The stages a reference stands for: those with that name, or else the one with that index. */
  function Matching(stages: seq<Stage>, ref: string): (r: seq<nat>)
    ensures forall i: nat :: i in r ==> i < |stages|
  {
    var named := Named(stages, ref);
    if named != [] then named
    else
      var n := Atoi(ref);
      if n.Some? && 0 <= n.value < |stages| then [n.value] else []
  }

  /** `findMatchingStages`. */
  method FindMatchingStages(stages: seq<Stage>, ref: string) returns (matching: seq<nat>, found: bool)
    ensures matching == Matching(stages, ref) && found == (matching != [])
  {
    matching := [];
    var i := 0;
    while i < |stages|
      invariant 0 <= i <= |stages|
      invariant matching == Named(stages[..i], ref)
    {
      assert stages[..i + 1][..i] == stages[..i];
      if stages[i].name.Some? && stages[i].name.value == ref {
        matching := matching + [i];
      }
      i := i + 1;
    }
    assert stages[..|stages|] == stages;
    if |matching| > 0 {
      return matching, true;
    }
    var n := Atoi(ref);
    if n.Some? && 0 <= n.value < |stages| {
      return [n.value], true;
    }
    return [], false;
  }

  // ---------- what references to stages mean ----------

  /** The decimal text of a number. */
  function Digits(n: nat): string {
    if n < 10 then [DigitChar(n)] else Digits(n / 10) + [DigitChar(n % 10)]
  }

  function DigitChar(d: nat): char
    requires d < 10
  {
    "0123456789"[d]
  }

  function Zeros(k: nat): (s: string)
    ensures |s| == k && forall i :: 0 <= i < k ==> s[i] == '0'
  {
    if k == 0 then "" else Zeros(k - 1) + "0"
  }

  function Abs(v: int): nat { if v < 0 then -v else v }

  /** The text is the decimal text of the number, after an optional sign and leading zeros. */
  ghost predicate Denotes(s: string, v: int) {
    exists sign: string, k: nat :: IsTextOf(s, sign, k, v)
  }

  ghost predicate IsTextOf(s: string, sign: string, k: nat, v: int) {
    && s == sign + (Zeros(k) + Digits(Abs(v)))
    && if sign == "-" then v <= 0 else (sign == "" || sign == "+") && v >= 0
  }

  lemma DigitCharIs(d: nat)
    requires d < 10
    ensures '0' <= DigitChar(d) <= '9' && (DigitChar(d) - '0') as nat == d
  {
  }

  /** A digit character is the text of its value. */
  lemma DigitOf(c: char)
    requires '0' <= c <= '9'
    ensures (c - '0') as nat < 10 && DigitChar((c - '0') as nat) == c
  {
    DigitCharIs((c - '0') as nat);
  }

  lemma DecimalSnoc(s: string, c: char)
    requires IsDigits(s) && '0' <= c <= '9'
    ensures IsDigits(s + [c]) && Decimal(s + [c]) == 10 * Decimal(s) + (c - '0') as nat
  {
    var t := s + [c];
    assert t[..|t| - 1] == s;
  }

  lemma DigitsSnoc(p: nat, d: nat)
    requires d < 10
    ensures Digits(10 * p + d) == if p == 0 then [DigitChar(d)] else Digits(p) + [DigitChar(d)]
  {
    assert (10 * p + d) / 10 == p && (10 * p + d) % 10 == d;
  }

  lemma {:induction false} DigitsAre(n: nat, k: nat)
    ensures var s := Zeros(k) + Digits(n); s != "" && IsDigits(s) && Decimal(s) == n
    decreases n, k
  {
    hide Digits, Decimal, IsDigits, DigitChar;
    var p, d := n / 10, n % 10;
    DigitsSnoc(p, d);
    DigitCharIs(d);
    if p == 0 {
      ZerosAre(k);
      DecimalSnoc(Zeros(k), DigitChar(d));
    } else {
      DigitsAre(p, k);
      DecimalSnoc(Zeros(k) + Digits(p), DigitChar(d));
      assert Zeros(k) + (Digits(p) + [DigitChar(d)]) == Zeros(k) + Digits(p) + [DigitChar(d)];
    }
  }

  lemma {:induction false} ZerosAre(k: nat)
    ensures IsDigits(Zeros(k)) && Decimal(Zeros(k)) == 0
  {
    if k > 0 {
      ZerosAre(k - 1);
      DecimalSnoc(Zeros(k - 1), '0');
    }
  }

  /** Every digit text is the text of its value after some zeros. */
  lemma {:induction false} DigitsRead(s: string) returns (k: nat)
    requires s != "" && IsDigits(s)
    ensures s == Zeros(k) + Digits(Decimal(s))
  {
    hide Digits, Decimal, DigitChar, Zeros, IsDigits;
    var before, c := s[..|s| - 1], s[|s| - 1];
    assert s == before + [c];
    DigitsOf(before, c);
    k := 0;
    if before != "" { k := DigitsRead(before); }
    k := ReadSnoc(before, c, k);
  }

  lemma DigitsOf(before: string, c: char)
    requires IsDigits(before + [c])
    ensures IsDigits(before) && '0' <= c <= '9'
  {
    var s := before + [c];
    assert s[|before|] == c;
    assert forall i :: 0 <= i < |before| ==> s[i] == before[i];
  }

  lemma ReadSnoc(before: string, c: char, j: nat) returns (k: nat)
    requires IsDigits(before) && '0' <= c <= '9' && (before != "" ==> before == Zeros(j) + Digits(Decimal(before)))
    ensures before + [c] == Zeros(k) + Digits(Decimal(before + [c]))
  {
    hide Digits, Decimal, DigitChar, IsDigits;
    var p := Decimal(before);
    DigitOf(c);
    DecimalSnoc(before, c);
    DigitsSnoc(p, (c - '0') as nat);
    if before == "" {
      k := 0;
      ZerosAre(0);
      assert Zeros(0) == before;
    } else if p == 0 {
      k := j + 1;
      ZeroDigit();
      assert before == Zeros(j) + "0" == Zeros(k);
    } else {
      k := j;
      assert Zeros(k) + (Digits(p) + [c]) == Zeros(k) + Digits(p) + [c];
    }
  }

  lemma ZeroDigit()
    ensures Digits(0) == "0"
  {
  }

  /** `strconv.Atoi` reads exactly the texts of 64-bit integers, as their values. */
  lemma AtoiIff(s: string, v: int)
    ensures Atoi(s) == Some(v) <==> Denotes(s, v) && -0x8000_0000_0000_0000 <= v < 0x8000_0000_0000_0000
  {
    hide Digits, Decimal, Zeros, IsDigits;
    var signed := s != "" && (s[0] == '-' || s[0] == '+');
    var sign, digits := if signed then [s[0]] else "", if signed then s[1..] else s;
    assert s == sign + digits;
    if Atoi(s) == Some(v) {
      var k := DigitsRead(digits);
      assert IsTextOf(s, sign, k, v);
    }
    if Denotes(s, v) {
      var sgn, k :| IsTextOf(s, sgn, k, v);
      var text := Zeros(k) + Digits(Abs(v));
      DigitsAre(Abs(v), k);
      NoSign(text);
      SignSplit(s, sgn, text);
    }
  }

  lemma NoSign(text: string)
    requires text != "" && IsDigits(text)
    ensures text[0] != '-' && text[0] != '+'
  {
  }

  lemma SignSplit(s: string, sign: string, text: string)
    requires s == sign + text && (sign == "" || sign == "+" || sign == "-")
    requires text != "" && text[0] != '-' && text[0] != '+'
    ensures s != "" && (s[0] == '-' <==> sign == "-") && (s[0] == '+' <==> sign == "+")
    ensures if sign == "" then s == text else s[1..] == text
  {
  }

  /** Named stages come in increasing order. */
  lemma {:induction false} NamedInOrder(stages: seq<Stage>, ref: string)
    ensures forall a, b :: 0 <= a < b < |Named(stages, ref)| ==> Named(stages, ref)[a] < Named(stages, ref)[b]
  {
    if stages != [] {
      var n := |stages| - 1;
      NamedInOrder(stages[..n], ref);
      var before := Named(stages[..n], ref);
      assert forall a :: 0 <= a < |before| ==> before[a] in before;
    }
  }

  /** A reference matches the stages of that name, in order, or else the stage whose index it denotes. */
  lemma MatchingIff(stages: seq<Stage>, ref: string, i: nat)
    ensures i in Matching(stages, ref) <==>
            && i < |stages|
            && (|| stages[i].name == Some(ref)
                || (&& (forall j :: 0 <= j < |stages| ==> stages[j].name != Some(ref))
                    && Denotes(ref, i) && i < 0x8000_0000_0000_0000))
    ensures forall a, b :: 0 <= a < b < |Matching(stages, ref)| ==> Matching(stages, ref)[a] < Matching(stages, ref)[b]
  {
    hide Atoi, Denotes, Named;
    AtoiIff(ref, i);
    NamedInOrder(stages, ref);
    var named := Named(stages, ref);
    if named != [] { assert named[0] in named; }
  }

  // ---------- what a stage needs ----------

  /** Stage `i` needs stage `j`: by FROM, or by a reference in a command to an earlier stage. */
  ghost predicate DependsOn(stages: seq<Stage>, i: nat, j: nat) {
    && i < |stages|
    && (|| stages[i].from.stage == Some(j)
        || exists ref :: ref in FromRefs(stages[i].commands) && j in Matching(stages[..i], ref))
  }

  /** Stage `i` needs an image: by FROM with the platform of the stage, or by a reference in a
      command that matches no earlier stage. */
  ghost predicate UsesImage(stages: seq<Stage>, i: nat, img: BaseImage) {
    && i < |stages|
    && (|| (stages[i].from.stage.None? && stages[i].from.image == Some(img.ref) && img.platform == stages[i].platform)
        || (img.platform == "" && img.ref in FromRefs(stages[i].commands) && Matching(stages[..i], img.ref) == []))
  }

  /** No stage before `i` has the name or the index that the reference gives. */
  ghost predicate NamesNoStage(stages: seq<Stage>, i: nat, ref: string)
    requires i <= |stages|
  {
    forall j: nat :: j < i ==>
      stages[j].name != Some(ref) && !(Denotes(ref, j) && j < 0x8000_0000_0000_0000)
  }

  /** A reference to an image is one that is copied or mounted from and names no earlier stage. */
  lemma UsesImageIff(stages: seq<Stage>, i: nat, img: BaseImage)
    requires i < |stages|
    ensures UsesImage(stages, i, img) <==>
            || (&& stages[i].from.stage == None && stages[i].from.image == Some(img.ref)
                && img.platform == stages[i].platform)
            || (&& img.platform == "" && img.ref != "" && NamesNoStage(stages, i, img.ref)
                && exists c :: c in stages[i].commands && (c.action == Copy(img.ref) || img.ref in c.mounts))
  {
    hide Denotes, FromRefs, Matching;
    FromRefsMeaning(stages[i].commands, img.ref);
    var m := Matching(stages[..i], img.ref);
    forall j: nat ensures j in m <==> j < i && j in m { MatchingIff(stages[..i], img.ref, j); }
    if m != [] {
      assert m[0] in m;
      MatchingIff(stages[..i], img.ref, m[0]);
    } else {
      forall j: nat | j < i ensures stages[j].name != Some(img.ref) { MatchingIff(stages[..i], img.ref, j); }
      forall j: nat | j < i ensures !(Denotes(img.ref, j) && j < 0x8000_0000_0000_0000) {
        MatchingIff(stages[..i], img.ref, j);
      }
    }
  }

  /** A stage needs the one it is built from, and those that a copy or mount names. */
  lemma DependsOnIff(stages: seq<Stage>, i: nat, j: nat)
    requires i < |stages|
    ensures DependsOn(stages, i, j) <==>
            || stages[i].from.stage == Some(j)
            || exists ref, c ::
                 && ref != "" && c in stages[i].commands && (c.action == Copy(ref) || ref in c.mounts)
                 && j in Matching(stages[..i], ref)
  {
    hide Matching, FromRefs;
    if ref :| ref in FromRefs(stages[i].commands) && j in Matching(stages[..i], ref) {
      FromRefsMeaning(stages[i].commands, ref);
    }
    if ref, c :| && ref != "" && c in stages[i].commands && (c.action == Copy(ref) || ref in c.mounts)
                 && j in Matching(stages[..i], ref) {
      FromRefsMeaning(stages[i].commands, ref);
    }
  }

  /** References go backwards only. */
  lemma DependsBackwards(stages: seq<Stage>, i: nat, j: nat)
    requires WellFormed(stages) && DependsOn(stages, i, j)
    ensures j < i < |stages|
  {
    hide FromRefs, Named;
  }

  /** A chain of needs that starts at a root. */
  ghost predicate Chain(stages: seq<Stage>, roots: set<nat>, p: seq<nat>) {
    && p != [] && p[0] in roots
    && forall k :: 0 <= k < |p| - 1 ==> DependsOn(stages, p[k], p[k + 1])
  }

  ghost predicate Reachable(stages: seq<Stage>, roots: set<nat>, i: nat) {
    exists p :: Chain(stages, roots, p) && p[|p| - 1] == i
  }

  ghost predicate UsedBy(stages: seq<Stage>, roots: set<nat>, img: BaseImage) {
    exists i :: Reachable(stages, roots, i) && UsesImage(stages, i, img)
  }

  /** Two uses of one image reference with different platforms. */
  ghost predicate Conflicting(stages: seq<Stage>, roots: set<nat>) {
    exists a, b :: UsedBy(stages, roots, a) && UsedBy(stages, roots, b) && a.ref == b.ref && a.platform != b.platform
  }

  lemma RootReachable(stages: seq<Stage>, roots: set<nat>, i: nat)
    requires i in roots
    ensures Reachable(stages, roots, i)
  {
    assert Chain(stages, roots, [i]);
  }

  lemma NextReachable(stages: seq<Stage>, roots: set<nat>, i: nat, j: nat)
    requires Reachable(stages, roots, i) && DependsOn(stages, i, j)
    ensures Reachable(stages, roots, j)
  {
    hide DependsOn;
    var p :| Chain(stages, roots, p) && p[|p| - 1] == i;
    var q := p + [j];
    forall k | 0 <= k < |q| - 1 ensures DependsOn(stages, q[k], q[k + 1]) {
      if k < |p| - 1 { assert q[k] == p[k] && q[k + 1] == p[k + 1]; }
    }
    assert Chain(stages, roots, q);
  }

  ghost predicate Closed(stages: seq<Stage>, S: set<nat>) {
    forall i, j :: i in S && DependsOn(stages, i, j) ==> j in S
  }

  /** A closed set that holds the roots holds everything reachable. */
  lemma {:induction false} ClosedHolds(stages: seq<Stage>, roots: set<nat>, S: set<nat>, p: seq<nat>)
    requires roots <= S && Closed(stages, S) && Chain(stages, roots, p)
    ensures p[|p| - 1] in S
  {
    hide DependsOn;
    if |p| > 1 {
      var q := p[..|p| - 1];
      assert Chain(stages, roots, q) by {
        forall k | 0 <= k < |q| - 1 ensures DependsOn(stages, q[k], q[k + 1]) {
          assert q[k] == p[k] && q[k + 1] == p[k + 1];
        }
      }
      ClosedHolds(stages, roots, S, q);
      assert DependsOn(stages, p[|p| - 2], p[|p| - 2 + 1]);
    }
  }
}
