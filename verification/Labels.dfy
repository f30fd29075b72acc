/** Pulling the base images and resolving the labels of the final image. */
module Labels {
  import opened Wrappers
  import Sequences
  import opened Stages
  import opened BaseImages

  /** The value of the first option that has one. */
  function Or(a: Option<string>, b: Option<string>): Option<string> {
    if a.Some? then a else b
  }

  // ---------- image transports ----------

  const TRANSPORTS: seq<string> := [
    "docker://", "containers-storage:", "dir:", "docker-archive:", "docker-daemon:", "oci:", "oci-archive:", "sif:"
  ]

  function TransportFrom(ref: string, k: nat): (string, string)
    decreases |TRANSPORTS| - k
  {
    if k >= |TRANSPORTS| then ("", ref)
    else if TRANSPORTS[k] <= ref then (TRANSPORTS[k], ref[|TRANSPORTS[k]|..])
    else TransportFrom(ref, k + 1)
  }

  /** `splitTransport`: the first listed transport that is a prefix, and the rest. */
  function SplitTransport(ref: string): (string, string) {
    TransportFrom(ref, 0)
  }

  predicate IsPullable(ref: string) {
    ref != "" && SplitTransport(ref).0 in ["", "docker://", "containers-storage:"]
  }

  /** The transports of which none may be a prefix of a pullable reference. */
  predicate HasUnpullableTransport(ref: string) {
    || "dir:" <= ref || "docker-archive:" <= ref || "docker-daemon:" <= ref
    || "oci:" <= ref || "oci-archive:" <= ref || "sif:" <= ref
  }

  predicate HasPullableTransport(ref: string) {
    "docker://" <= ref || "containers-storage:" <= ref
  }

  lemma TransportsOneByOne(ref: string)
    ensures TransportFrom(ref, 0) == if "docker://" <= ref then ("docker://", ref[9..]) else TransportFrom(ref, 1)
    ensures TransportFrom(ref, 1) ==
            if "containers-storage:" <= ref then ("containers-storage:", ref[19..]) else TransportFrom(ref, 2)
    ensures TransportFrom(ref, 2) == if "dir:" <= ref then ("dir:", ref[4..]) else TransportFrom(ref, 3)
    ensures TransportFrom(ref, 3) ==
            if "docker-archive:" <= ref then ("docker-archive:", ref[15..]) else TransportFrom(ref, 4)
    ensures TransportFrom(ref, 4) ==
            if "docker-daemon:" <= ref then ("docker-daemon:", ref[14..]) else TransportFrom(ref, 5)
    ensures TransportFrom(ref, 5) == if "oci:" <= ref then ("oci:", ref[4..]) else TransportFrom(ref, 6)
    ensures TransportFrom(ref, 6) ==
            if "oci-archive:" <= ref then ("oci-archive:", ref[12..]) else TransportFrom(ref, 7)
    ensures TransportFrom(ref, 7) == if "sif:" <= ref then ("sif:", ref[4..]) else ("", ref)
  {
    assert TransportFrom(ref, 8) == ("", ref);
  }

  /** The two parts make up the reference; the first is one of the eight transports, or empty exactly
      if none of them is a prefix. */
  lemma SplitMeaning(ref: string)
    ensures var (transport, rest) := SplitTransport(ref);
            && transport + rest == ref
            && (transport == "" <==> !HasPullableTransport(ref) && !HasUnpullableTransport(ref))
            && (transport in {"docker://", "containers-storage:"} <==> HasPullableTransport(ref))
  {
    hide TransportFrom;
    TransportsOneByOne(ref);
  }

  /** Pullable is a non-empty reference without a transport, or with one of the two that name an
      image in a registry or in local storage. */
  lemma PullableIff(ref: string)
    ensures IsPullable(ref) <==> ref != "" && (HasPullableTransport(ref) || !HasUnpullableTransport(ref))
  {
    hide TransportFrom;
    SplitMeaning(ref);
    assert SplitTransport(ref).0 in ["", "docker://", "containers-storage:"] <==>
           SplitTransport(ref).0 == "" || SplitTransport(ref).0 in {"docker://", "containers-storage:"};
  }

  // ---------- labels of a stage ----------

  function LabelsOf(commands: seq<Command>): seq<KeyValue> {
    if commands == [] then []
    else (if commands[0].action.Label? then commands[0].action.labels else []) + LabelsOf(commands[1..])
  }

  /** The last value given to the key. */
  function LastValue(kvs: seq<KeyValue>, key: string): Option<string> {
    if kvs == [] then None
    else if kvs[|kvs| - 1].key == key then Some(kvs[|kvs| - 1].value)
    else LastValue(kvs[..|kvs| - 1], key)
  }

  lemma {:induction false} LastValueAppend(a: seq<KeyValue>, b: seq<KeyValue>, key: string)
    ensures LastValue(a + b, key) == Or(LastValue(b, key), LastValue(a, key))
  {
    if b == [] {
      assert a + b == a;
    } else {
      var n := |b| - 1;
      assert (a + b)[..|a + b| - 1] == a + b[..n];
      LastValueAppend(a, b[..n], key);
    }
  }

  function StageLabel(stage: Stage, key: string): Option<string> {
    LastValue(LabelsOf(stage.commands), key)
  }

  /** The label of a stage is the value that its last pair with the key has, wherever that stands. */
  lemma StageLabelIff(stage: Stage, key: string, value: string)
    ensures StageLabel(stage, key) == Some(value) <==>
            exists c, j :: LabelAt(stage.commands, c, j, KeyValue(key, value)) && NoneLater(stage.commands, c, j, key)
  {
    hide LastValue, LabelsOf, LabelAt;
    var commands := stage.commands;
    if StageLabel(stage, key).Some? {
      var c, j := LastPlace(commands, key);
      var v := StageLabel(stage, key).value;
      if c': nat, j': nat :| LabelAt(commands, c', j', KeyValue(key, value)) && NoneLater(commands, c', j', key) {
        assert c' == c && j' == j;
        OneValue(commands, c, j, KeyValue(key, v), KeyValue(key, value));
      }
    } else {
      NoPlace(commands, key);
    }
  }

  /** The j-th pair of the c-th command. */
  ghost predicate LabelAt(commands: seq<Command>, c: nat, j: nat, kv: KeyValue) {
    && c < |commands| && commands[c].action.Label?
    && j < |commands[c].action.labels| && commands[c].action.labels[j] == kv
  }

  /** No pair with the key stands after that one. */
  ghost predicate NoneLater(commands: seq<Command>, c: nat, j: nat, key: string) {
    forall c': nat, j': nat, v :: LabelAt(commands, c', j', KeyValue(key, v)) ==> c' < c || (c' == c && j' <= j)
  }

  lemma OneValue(commands: seq<Command>, c: nat, j: nat, a: KeyValue, b: KeyValue)
    requires LabelAt(commands, c, j, a) && LabelAt(commands, c, j, b)
    ensures a == b
  {
  }

  lemma {:induction false} LastIn(kvs: seq<KeyValue>, key: string) returns (j: nat)
    requires LastValue(kvs, key).Some?
    ensures j < |kvs| && kvs[j] == KeyValue(key, LastValue(kvs, key).value)
    ensures forall k :: j < k < |kvs| ==> kvs[k].key != key
  {
    j := |kvs| - 1;
    if kvs[j].key != key { j := LastIn(kvs[..j], key); }
  }

  lemma {:induction false} NotIn(kvs: seq<KeyValue>, key: string)
    requires LastValue(kvs, key).None?
    ensures forall k :: 0 <= k < |kvs| ==> kvs[k].key != key
  {
    if kvs != [] { NotIn(kvs[..|kvs| - 1], key); }
  }

  function Own(command: Command): seq<KeyValue> {
    if command.action.Label? then command.action.labels else []
  }

  /** A pair stands in the first command or in the others. */
  lemma LabelAtCons(commands: seq<Command>, c: nat, j: nat, kv: KeyValue)
    requires commands != []
    ensures LabelAt(commands, c, j, kv) <==>
            if c == 0 then j < |Own(commands[0])| && Own(commands[0])[j] == kv else LabelAt(commands[1..], c - 1, j, kv)
  {
  }

  lemma LabelsOfCons(commands: seq<Command>, key: string)
    requires commands != []
    ensures LastValue(LabelsOf(commands), key)
            == Or(LastValue(LabelsOf(commands[1..]), key), LastValue(Own(commands[0]), key))
  {
    LastValueAppend(Own(commands[0]), LabelsOf(commands[1..]), key);
  }

  lemma {:induction false} NoPlace(commands: seq<Command>, key: string)
    requires LastValue(LabelsOf(commands), key).None?
    ensures forall c: nat, j: nat, v :: !LabelAt(commands, c, j, KeyValue(key, v))
  {
    hide LastValue, LabelsOf;
    if commands != [] {
      LabelsOfCons(commands, key);
      NoPlace(commands[1..], key);
      NotIn(Own(commands[0]), key);
      forall c: nat, j: nat, v ensures !LabelAt(commands, c, j, KeyValue(key, v)) {
        LabelAtCons(commands, c, j, KeyValue(key, v));
      }
    }
  }

  lemma {:induction false} LastPlace(commands: seq<Command>, key: string) returns (c: nat, j: nat)
    requires LastValue(LabelsOf(commands), key).Some?
    ensures LabelAt(commands, c, j, KeyValue(key, LastValue(LabelsOf(commands), key).value))
    ensures NoneLater(commands, c, j, key)
  {
    hide LastValue, LabelAt;
    NothingLabelled(key);
    LabelsOfCons(commands, key);
    var rest := commands[1..];
    if LastValue(LabelsOf(rest), key).Some? {
      c, j := LastPlace(rest, key);
      c := c + 1;
    } else {
      NoPlace(rest, key);
      c := 0;
      j := LastIn(Own(commands[0]), key);
    }
    LabelAtCons(commands, c, j, KeyValue(key, LastValue(LabelsOf(commands), key).value));
    forall c': nat, j': nat, v | LabelAt(commands, c', j', KeyValue(key, v)) ensures c' < c || (c' == c && j' <= j) {
      LabelAtCons(commands, c', j', KeyValue(key, v));
    }
  }

  lemma NothingLabelled(key: string)
    ensures LastValue([], key).None?
  {
  }

  /** The map holds for every key the last value given to it. */
  ghost predicate Holds(m: map<string, string>, kvs: seq<KeyValue>) {
    forall key :: Find(m, key) == LastValue(kvs, key)
  }

  lemma HoldsNext(m: map<string, string>, kvs: seq<KeyValue>, kv: KeyValue)
    requires Holds(m, kvs)
    ensures Holds(m[kv.key := kv.value], kvs + [kv])
  {
    forall key ensures Find(m[kv.key := kv.value], key) == LastValue(kvs + [kv], key) {
      LastValueAppend(kvs, [kv], key);
      assert [kv][..0] == [];
    }
  }

  /** `getStageLabels`. */
  method GetStageLabels(stage: Stage) returns (labels: map<string, string>)
    ensures Holds(labels, LabelsOf(stage.commands))
  {
    hide Holds;
    labels := map[];
    ghost var done: seq<KeyValue> := [];
    EmptyHolds();
    var i := 0;
    assert stage.commands[0..] == stage.commands;
    while i < |stage.commands|
      invariant 0 <= i <= |stage.commands| && Holds(labels, done)
      invariant done + LabelsOf(stage.commands[i..]) == LabelsOf(stage.commands)
    {
      assert stage.commands[i..][1..] == stage.commands[i + 1..];
      var cmd := stage.commands[i];
      if cmd.action.Label? {
        labels := AddLabels(labels, done, cmd.action.labels);
        Sequences.Assoc(done, cmd.action.labels, LabelsOf(stage.commands[i + 1..]));
        done := done + cmd.action.labels;
      } else {
        assert [] + LabelsOf(stage.commands[i + 1..]) == LabelsOf(stage.commands[i + 1..]);
      }
      i := i + 1;
    }
    assert stage.commands[|stage.commands|..] == [] && done + [] == done;
  }

  /** The inner loop over the pairs of one LABEL instruction. */
  method AddLabels(before: map<string, string>, ghost done: seq<KeyValue>, kvs: seq<KeyValue>)
    returns (labels: map<string, string>)
    requires Holds(before, done)
    ensures Holds(labels, done + kvs)
  {
    hide Holds;
    labels := before;
    var j := 0;
    assert done + kvs[..0] == done;
    while j < |kvs|
      invariant 0 <= j <= |kvs| && Holds(labels, done + kvs[..j])
    {
      HoldsNext(labels, done + kvs[..j], kvs[j]);
      assert done + kvs[..j] + [kvs[j]] == done + kvs[..j + 1];
      labels := labels[kvs[j].key := kvs[j].value];
      j := j + 1;
    }
    assert kvs[..|kvs|] == kvs;
  }

  lemma EmptyHolds()
    ensures Holds(map[], [])
  {
  }

  // ---------- the FROM chain ----------

  /** The stages from `i` back to the stage that is built from no other stage. */
  ghost function FromChain(stages: seq<Stage>, i: nat): (c: seq<nat>)
    requires WellFormed(stages) && i < |stages|
    ensures c != [] && c[0] == i && forall k :: 0 <= k < |c| ==> c[k] < |stages|
    decreases i
  {
    match stages[i].from.stage
    case Some(j) => [i] + FromChain(stages, j)
    case None => [i]
  }

  /** The value of the nearest stage of the chain that gives the key one. */
  ghost function ChainLabel(stages: seq<Stage>, chain: seq<nat>, key: string): Option<string>
    requires forall k :: 0 <= k < |chain| ==> chain[k] < |stages|
  {
    if chain == [] then None
    else Or(StageLabel(stages[chain[0]], key), ChainLabel(stages, chain[1..], key))
  }

  function ImageOf(stage: Stage): string {
    if !stage.from.scratch && stage.from.image.Some? then stage.from.image.value else ""
  }

  ghost function BaseStage(stages: seq<Stage>, i: nat): (b: nat)
    requires WellFormed(stages) && i < |stages|
    ensures b < |stages| && stages[b].from.stage.None?
    decreases i
  {
    match stages[i].from.stage
    case Some(j) => BaseStage(stages, j)
    case None => i
  }

  /** Each stage of the chain is built from the next one, and the last from no stage. */
  lemma {:induction false} ChainLinks(stages: seq<Stage>, i: nat)
    requires WellFormed(stages) && i < |stages|
    ensures var c := FromChain(stages, i);
            && (forall k :: 0 <= k < |c| - 1 ==> stages[c[k]].from.stage == Some(c[k + 1]))
            && stages[c[|c| - 1]].from.stage == None
    decreases i
  {
    if stages[i].from.stage.Some? {
      var j := stages[i].from.stage.value;
      ChainLinks(stages, j);
      var rest := FromChain(stages, j);
      assert FromChain(stages, i) == [i] + rest;
      assert rest[0] == j;
    }
  }

  /** The label of a chain is that of the first of its stages that has one. */
  lemma {:induction false} ChainLabelIff(stages: seq<Stage>, chain: seq<nat>, key: string, value: string)
    requires forall k :: 0 <= k < |chain| ==> chain[k] < |stages|
    ensures ChainLabel(stages, chain, key) == Some(value) <==>
            exists k :: FirstLabelled(stages, chain, key, k) && StageLabel(stages[chain[k]], key) == Some(value)
  {
    hide StageLabel;
    if chain != [] {
      var rest := chain[1..];
      ChainLabelIff(stages, rest, key, value);
      if StageLabel(stages[chain[0]], key).Some? {
        assert FirstLabelled(stages, chain, key, 0);
      } else {
        if k :| FirstLabelled(stages, rest, key, k) && StageLabel(stages[rest[k]], key) == Some(value) {
          assert FirstLabelled(stages, chain, key, k + 1);
        }
        if k :| FirstLabelled(stages, chain, key, k) && StageLabel(stages[chain[k]], key) == Some(value) {
          assert chain[k] == rest[k - 1];
          assert forall l :: 0 <= l < k - 1 ==> rest[l] == chain[l + 1];
          assert FirstLabelled(stages, rest, key, k - 1);
        }
      }
    }
  }

  ghost predicate FirstLabelled(stages: seq<Stage>, chain: seq<nat>, key: string, k: int)
    requires forall k :: 0 <= k < |chain| ==> chain[k] < |stages|
  {
    && 0 <= k < |chain| && StageLabel(stages[chain[k]], key).Some?
    && forall l :: 0 <= l < k ==> StageLabel(stages[chain[l]], key).None?
  }

  lemma {:induction false} ChainEndsAtBase(stages: seq<Stage>, i: nat)
    requires WellFormed(stages) && i < |stages|
    ensures var c := FromChain(stages, i); c[|c| - 1] == BaseStage(stages, i)
    decreases i
  {
    if stages[i].from.stage.Some? { ChainEndsAtBase(stages, stages[i].from.stage.value); }
  }

  function Reverse<T>(s: seq<T>): (r: seq<T>)
    ensures |r| == |s| && forall k :: 0 <= k < |s| ==> r[k] == s[|s| - 1 - k]
  {
    if s == [] then [] else Reverse(s[1..]) + [s[0]]
  }

  /** The labels of the chain so far, over those of the stages nearer the base. */
  ghost predicate HoldsChain(m: map<string, string>, stages: seq<Stage>, chain: seq<nat>) {
    && (forall k :: 0 <= k < |chain| ==> chain[k] < |stages|)
    && forall key :: Find(m, key) == ChainLabel(stages, chain, key)
  }

  /** `processUntilBaseStage`: the base image of the chain, and its labels. */
  method ProcessUntilBaseStage(stages: seq<Stage>) returns (baseImage: string, labels: map<string, string>)
    requires WellFormed(stages)
    ensures stages == [] ==> baseImage == "" && labels == map[]
    ensures stages != [] ==>
              && baseImage == ImageOf(stages[BaseStage(stages, |stages| - 1)])
              && HoldsChain(labels, stages, FromChain(stages, |stages| - 1))
  {
    hide FromChain, BaseStage, HoldsChain, ImageOf;
    if |stages| == 0 {
      return "", map[];
    }
    var chain := CollectChain(stages);
    var stageChain := Reverse(chain);
    ChainEndsAtBase(stages, |stages| - 1);
    baseImage := ImageOf(stages[stageChain[0]]);
    labels := CopyChainLabels(stages, chain, stageChain);
  }

  /** The walk terminates because the stage indexes strictly decrease. */
  method CollectChain(stages: seq<Stage>) returns (chain: seq<nat>)
    requires WellFormed(stages) && stages != []
    ensures chain == FromChain(stages, |stages| - 1)
  {
    var stage := Some(|stages| - 1);
    chain := [];
    ghost var rest: seq<nat> := FromChain(stages, |stages| - 1);
    while stage.Some?
      invariant stage.Some? ==> 0 <= stage.value < |stages| && rest == FromChain(stages, stage.value)
      invariant stage.None? ==> rest == []
      invariant chain + rest == FromChain(stages, |stages| - 1)
      decreases if stage.Some? then stage.value + 1 else 0
    {
      var i := stage.value;
      chain := chain + [i];
      if stages[i].from.stage.Some? {
        stage := Some(stages[i].from.stage.value);
        rest := FromChain(stages, stage.value);
      } else {
        stage := None;
        rest := [];
      }
    }
  }

  /** Labels are copied from the base stage through to the final stage, later ones winning. */
  method CopyChainLabels(stages: seq<Stage>, ghost chain: seq<nat>, stageChain: seq<nat>)
    returns (labels: map<string, string>)
    requires stageChain == Reverse(chain) && forall k :: 0 <= k < |chain| ==> chain[k] < |stages|
    ensures HoldsChain(labels, stages, chain)
  {
    hide LastValue, LabelsOf, HoldsChain;
    labels := map[];
    var k := 0;
    ChainStarts(stages);
    assert chain[|chain|..] == [];
    while k < |stageChain|
      invariant 0 <= k <= |stageChain|
      invariant HoldsChain(labels, stages, chain[|chain| - k..])
    {
      var own := GetStageLabels(stages[stageChain[k]]);
      ChainCopied(labels, stages, chain, |chain| - k - 1, own);
      labels := labels + own;
      k := k + 1;
    }
    assert chain[0..] == chain;
  }

  lemma ChainStarts(stages: seq<Stage>)
    ensures HoldsChain(map[], stages, [])
  {
  }

  lemma ChainCopied(m: map<string, string>, stages: seq<Stage>, chain: seq<nat>, n: nat, own: map<string, string>)
    requires n < |chain| && chain[n] < |stages| && HoldsChain(m, stages, chain[n + 1..])
    requires Holds(own, LabelsOf(stages[chain[n]].commands))
    ensures HoldsChain(m + own, stages, chain[n..])
  {
    assert chain[n..] == [chain[n]] + chain[n + 1..];
    assert chain[n..][1..] == chain[n + 1..];
  }

  // ---------- the final labels ----------

  const BUILDAH_LABEL := "io.buildah.version"

  /** `strings.Cut(s, "=")`. */
  function Cut(s: string): KeyValue {
    if s == "" then KeyValue("", "")
    else if s[0] == '=' then KeyValue("", s[1..])
    else
      var rest := Cut(s[1..]);
      KeyValue([s[0]] + rest.key, rest.value)
  }

  /** The text is cut at its first `=`; without one it is all key. */
  lemma {:induction false} CutMeaning(s: string)
    ensures var kv := Cut(s);
            if '=' in s then kv.key + "=" + kv.value == s && '=' !in kv.key else kv == KeyValue(s, "")
  {
    if s != "" && s[0] != '=' {
      CutMeaning(s[1..]);
      var rest := Cut(s[1..]);
      CutCons(s[0], s[1..], rest.key, rest.value);
    }
  }

  lemma CutCons(c: char, s: string, key: string, value: string)
    ensures s == key + "=" + value ==> [c] + s == [c] + key + "=" + value
    ensures '=' in [c] + s <==> c == '=' || '=' in s
  {
    assert ([c] + s)[0] == c && ([c] + s)[1..] == s;
  }

  function CutAll(labels: seq<string>): (r: seq<KeyValue>)
    ensures |r| == |labels| && forall k :: 0 <= k < |r| ==> r[k] == Cut(labels[k])
  {
    if labels == [] then [] else CutAll(labels[..|labels| - 1]) + [Cut(labels[|labels| - 1])]
  }

  /** The parameters of a build that matter for labels; the version label needs an empty epoch. */
  datatype LabelParams = LabelParams(
    inherit: bool, userLabels: seq<string>, sourceDateEpoch: string, buildahVersion: string)

  /** The image whose labels are inspected, if any. */
  ghost function Inspected(stages: seq<Stage>, inherit: bool): Option<string>
    requires WellFormed(stages)
  {
    if !inherit || stages == [] then None
    else
      var image := ImageOf(stages[BaseStage(stages, |stages| - 1)]);
      if image != "" && IsPullable(image) then Some(image) else None
  }

  /** Inspected is the image at the end of the FROM chain, if labels are inherited and it is a
      pullable image. */
  lemma InspectedIff(stages: seq<Stage>, inherit: bool, image: string)
    requires WellFormed(stages) && stages != []
    ensures var chain := FromChain(stages, |stages| - 1);
            var from := stages[chain[|chain| - 1]].from;
            Inspected(stages, inherit) == Some(image) <==>
            && inherit && !from.scratch && from.image == Some(image)
            && image != "" && (HasPullableTransport(image) || !HasUnpullableTransport(image))
  {
    hide IsPullable, FromChain, BaseStage;
    ChainEndsAtBase(stages, |stages| - 1);
    PullableIff(image);
  }

  ghost function ContainerfileLabel(stages: seq<Stage>, inherit: bool, key: string): Option<string>
    requires WellFormed(stages)
  {
    if stages == [] then None
    else if inherit then ChainLabel(stages, FromChain(stages, |stages| - 1), key)
    else StageLabel(stages[|stages| - 1], key)
  }

  /** The override chain: the buildah version, else the last user label, else the label of the
      nearest stage of the FROM chain, else the label of the inspected base image. */
  ghost function FinalLabel(stages: seq<Stage>, p: LabelParams, base: map<string, string>, key: string): Option<string>
    requires WellFormed(stages)
  {
    if p.sourceDateEpoch == "" && key == BUILDAH_LABEL then Some(p.buildahVersion)
    else Or(LastValue(CutAll(p.userLabels), key), Or(ContainerfileLabel(stages, p.inherit, key), Find(base, key)))
  }

  /** The chain spelled out; `nearest` is the label of the last stage, or with inheritance that of the
      nearest stage of the FROM chain that has one. */
  lemma OverrideChain(stages: seq<Stage>, p: LabelParams, base: map<string, string>, key: string)
    requires WellFormed(stages)
    ensures var user := LastValue(CutAll(p.userLabels), key);
            var nearest := if stages == [] then None
                           else if p.inherit then ChainLabel(stages, FromChain(stages, |stages| - 1), key)
                           else StageLabel(stages[|stages| - 1], key);
            FinalLabel(stages, p, base, key) ==
            if p.sourceDateEpoch == "" && key == "io.buildah.version" then Some(p.buildahVersion)
            else if user.Some? then user
            else if nearest.Some? then nearest
            else if key in base then Some(base[key]) else None
  {
    hide LastValue, CutAll, ChainLabel, FromChain, StageLabel;
  }

  /** `determineFinalLabels`. `inspect` gives the labels of a locally stored image, if it can. */
  method DetermineFinalLabels(stages: seq<Stage>, p: LabelParams, inspect: string -> Option<map<string, string>>)
    returns (r: Option<map<string, string>>, inspected: Option<string>)
    requires WellFormed(stages)
    ensures inspected == Inspected(stages, p.inherit)
    ensures r.None? <==> inspected.Some? && inspect(SplitTransport(inspected.value).1).None?
    ensures r.Some? ==>
              var base := if inspected.Some? then inspect(SplitTransport(inspected.value).1).value else map[];
              forall key :: Find(r.value, key) == FinalLabel(stages, p, base, key)
    ensures r.Some? && p.sourceDateEpoch == "" ==> Find(r.value, "io.buildah.version") == Some(p.buildahVersion)
  {
    hide LastValue, CutAll, HoldsChain, Holds, TransportFrom, IsPullable, BaseStage, FromChain, ImageOf;
    hide ContainerfileLabel;
    var baseImage, containerfileLabels := "", map[];
    if p.inherit {
      baseImage, containerfileLabels := ProcessUntilBaseStage(stages);
    } else if |stages| > 0 {
      containerfileLabels := GetStageLabels(stages[|stages| - 1]);
    }
    ContainerfileLabels(stages, p.inherit, containerfileLabels);

    inspected := None;
    var labels: map<string, string> := map[];
    if baseImage != "" {
      if IsPullable(baseImage) {
        inspected := Some(baseImage);
        var baseLabels := inspect(SplitTransport(baseImage).1);
        if baseLabels.None? {
          return None, inspected;
        }
        labels := labels + baseLabels.value;
      }
    }
    ghost var base := labels;
    labels := labels + containerfileLabels;
    labels := AddUserLabels(labels, p.userLabels);
    if p.sourceDateEpoch == "" {
      labels := labels[BUILDAH_LABEL := p.buildahVersion];
    }
    return Some(labels), inspected;
  }

  lemma ContainerfileLabels(stages: seq<Stage>, inherit: bool, m: map<string, string>)
    requires WellFormed(stages)
    requires stages == [] ==> m == map[]
    requires stages != [] && inherit ==> HoldsChain(m, stages, FromChain(stages, |stages| - 1))
    requires stages != [] && !inherit ==> Holds(m, LabelsOf(stages[|stages| - 1].commands))
    ensures forall key :: Find(m, key) == ContainerfileLabel(stages, inherit, key)
  {
  }

  method AddUserLabels(base: map<string, string>, userLabels: seq<string>) returns (labels: map<string, string>)
    ensures forall key :: Find(labels, key) == Or(LastValue(CutAll(userLabels), key), Find(base, key))
  {
    labels := base;
    var i := 0;
    while i < |userLabels|
      invariant 0 <= i <= |userLabels|
      invariant forall key :: Find(labels, key) == Or(LastValue(CutAll(userLabels[..i]), key), Find(base, key))
    {
      var kv := Cut(userLabels[i]);
      UserLabelNext(labels, base, userLabels, i);
      labels := labels[kv.key := kv.value];
      i := i + 1;
    }
    assert userLabels[..|userLabels|] == userLabels;
  }

  lemma UserLabelNext(labels: map<string, string>, base: map<string, string>, userLabels: seq<string>, i: nat)
    requires i < |userLabels|
    requires forall key :: Find(labels, key) == Or(LastValue(CutAll(userLabels[..i]), key), Find(base, key))
    ensures var kv := Cut(userLabels[i]);
            forall key :: Find(labels[kv.key := kv.value], key)
                          == Or(LastValue(CutAll(userLabels[..i + 1]), key), Find(base, key))
  {
    hide Cut;
    var kv, before := Cut(userLabels[i]), CutAll(userLabels[..i]);
    assert userLabels[..i + 1][..i] == userLabels[..i];
    assert CutAll(userLabels[..i + 1]) == before + [kv];
    forall key ensures Find(labels[kv.key := kv.value], key) == Or(LastValue(before + [kv], key), Find(base, key)) {
      LastValueAppend(before, [kv], key);
      assert [kv][..0] == [];
    }
  }

  // ---------- pulling ----------

  datatype PullError = TargetNotFound | ConflictingPlatforms(conflict: Conflict) | PullFailed(image: BaseImage)

  /** `slices.Compare(v, w) >= 0`. */
  predicate AtLeast(v: seq<int>, w: seq<int>) {
    w == [] || (v != [] && if v[0] == w[0] then AtLeast(v[1..], w[1..]) else v[0] > w[0])
  }

  /** Versions are ordered by their first difference, and a version precedes its extensions. */
  lemma {:induction false} AtLeastMeaning(v: seq<int>, w: seq<int>)
    ensures AtLeast(v, w) <==> w <= v || exists k :: Exceeds(v, w, k)
  {
    if v != [] && w != [] && v[0] == w[0] {
      var v', w' := v[1..], w[1..];
      AtLeastMeaning(v', w');
      assert v == [v[0]] + v' && w == [w[0]] + w';
      if k :| Exceeds(v', w', k) {
        assert v[..k + 1] == [v[0]] + v'[..k] && w[..k + 1] == [w[0]] + w'[..k];
        assert Exceeds(v, w, k + 1);
      }
      if k :| Exceeds(v, w, k) {
        assert v[..k][1..] == v'[..k - 1] && w[..k][1..] == w'[..k - 1];
        assert Exceeds(v', w', k - 1);
      }
    } else if v != [] && w != [] {
      assert v[..0] == w[..0];
      assert v[0] > w[0] ==> Exceeds(v, w, 0);
      if k :| Exceeds(v, w, k) && k > 0 { assert v[..k][0] == w[..k][0]; }
    }
  }

  /** The first difference is at `k`, where `v` is larger. */
  ghost predicate Exceeds(v: seq<int>, w: seq<int>, k: int) {
    0 <= k < |v| && k < |w| && v[..k] == w[..k] && v[k] > w[k]
  }

  const BUILDS_ALL_MATCHING: seq<int> := [1, 44, 0]

  /** The stages that are built: all that match the target, or the first of them before buildah
      1.44, or the last stage if there is no target. */
  ghost function TargetStages(stages: seq<Stage>, target: string, buildahVersion: seq<int>): seq<nat>
    requires stages != []
  {
    if target == "" then [|stages| - 1]
    else
      var m := Matching(stages, target);
      if m == [] || AtLeast(buildahVersion, BUILDS_ALL_MATCHING) then m else m[..1]
  }

  /** Which stages are built: without a target the last, else those that match it, of which buildah
      before 1.44.0 takes the first. */
  lemma TargetsAre(stages: seq<Stage>, target: string, version: seq<int>)
    requires stages != []
    ensures var m := Matching(stages, target);
            var targets := TargetStages(stages, target, version);
            if target == "" then targets == [|stages| - 1]
            else if m == [] || [1, 44, 0] <= version || (exists k :: Exceeds(version, [1, 44, 0], k)) then targets == m
            else targets == [m[0]]
  {
    hide AtLeast, Matching, Exceeds;
    AtLeastMeaning(version, [1, 44, 0]);
  }

  /** `prePullBaseImages`: on success exactly the pullable images that are needed were pulled. */
  method PrePullBaseImages(stages: seq<Stage>, target: string, buildahVersion: seq<int>, skipUnused: bool,
                           pull: BaseImage -> bool) returns (r: Result<seq<BaseImage>, PullError>)
    requires WellFormed(stages)
    ensures stages == [] ==> r == Success([])
    ensures stages != [] ==>
              var targets := TargetStages(stages, target, buildahVersion);
              && (r == Failure(TargetNotFound) <==> targets == [])
              && (targets != [] ==>
                    var roots := Roots(targets, skipUnused);
                    && (r.Failure? && r.error.ConflictingPlatforms? <==> Conflicting(stages, roots))
                    && (r.Success? ==>
                          forall img :: img in r.value <==> UsedBy(stages, roots, img) && IsPullable(img.ref))
                    && (r.Success? ==> forall img :: img in r.value ==> pull(img))
                    && (r.Failure? && r.error.PullFailed? ==>
                          && UsedBy(stages, roots, r.error.image) && IsPullable(r.error.image.ref)
                          && !pull(r.error.image)))
  {
    hide UsedBy, Conflicting, TransportFrom, IsPullable, Max, Named, Atoi, RealConflict, WellFormed, AtLeast;
    if |stages| == 0 {
      return Success([]);
    }
    var targets;
    if target != "" {
      var matching, found := FindMatchingStages(stages, target);
      if !found {
        return Failure(TargetNotFound);
      }
      assert matching[0] in matching;
      targets := if AtLeast(buildahVersion, BUILDS_ALL_MATCHING) then matching else matching[..1];
    } else {
      targets := [|stages| - 1];
    }
    assert forall t :: t in targets ==> t < |stages|;
    var collected := CollectBaseImages(stages, targets, skipUnused);
    if collected.Failure? {
      return Failure(ConflictingPlatforms(collected.error));
    }
    r := PullAll(collected.value, pull);
  }

  method PullAll(images: seq<BaseImage>, pull: BaseImage -> bool) returns (r: Result<seq<BaseImage>, PullError>)
    ensures r.Success? ==> forall img :: img in r.value <==> img in images && IsPullable(img.ref)
    ensures r.Success? ==> forall img :: img in r.value ==> pull(img)
    ensures r.Failure? ==>
              && r.error.PullFailed? && r.error.image in images
              && IsPullable(r.error.image.ref) && !pull(r.error.image)
  {
    hide IsPullable;
    var pulled := [];
    var k := 0;
    while k < |images|
      invariant 0 <= k <= |images|
      invariant forall img :: img in pulled <==> img in images[..k] && IsPullable(img.ref)
      invariant forall img :: img in pulled ==> pull(img)
    {
      assert images[..k + 1] == images[..k] + [images[k]];
      if IsPullable(images[k].ref) {
        if !pull(images[k]) {
          return Failure(PullFailed(images[k]));
        }
        pulled := pulled + [images[k]];
      }
      k := k + 1;
    }
    assert images[..|images|] == images;
    return Success(pulled);
  }

  // ---------- what is inspected was pulled ----------

  lemma {:induction false} BaseReachable(stages: seq<Stage>, roots: set<nat>, i: nat)
    requires WellFormed(stages) && i < |stages| && Reachable(stages, roots, i)
    ensures Reachable(stages, roots, BaseStage(stages, i))
    decreases i
  {
    hide Reachable, FromRefs, Matching;
    if stages[i].from.stage.Some? {
      var j := stages[i].from.stage.value;
      assert DependsOn(stages, i, j);
      NextReachable(stages, roots, i, j);
      BaseReachable(stages, roots, j);
    }
  }

  /** The image at the end of the FROM chain of the last stage is always among the needed ones. */
  lemma InspectedIsUsed(stages: seq<Stage>, inherit: bool, skipUnused: bool)
    requires WellFormed(stages) && Inspected(stages, inherit).Some?
    ensures exists img :: UsedBy(stages, Roots([|stages| - 1], skipUnused), img)
                          && img.ref == Inspected(stages, inherit).value && IsPullable(img.ref)
  {
    hide Reachable, FromRefs, Matching, IsPullable, TransportFrom;
    var last := |stages| - 1;
    var roots := Roots([last], skipUnused);
    RootsAre([last]);
    RootReachable(stages, roots, last);
    BaseReachable(stages, roots, last);
    var b := BaseStage(stages, last);
    var img := BaseImage(Inspected(stages, inherit).value, stages[b].platform);
    assert UsesImage(stages, b, img);
    assert UsedBy(stages, roots, img);
  }

  /** The two steps in the order of `run`, without a target: the base image whose labels are
      inspected was pulled before. */
  method PullThenLabel(stages: seq<Stage>, p: LabelParams, buildahVersion: seq<int>, skipUnused: bool,
                       pull: BaseImage -> bool, inspect: string -> Option<map<string, string>>)
    returns (pulled: Result<seq<BaseImage>, PullError>, labels: Option<map<string, string>>, inspected: Option<string>)
    requires WellFormed(stages)
    ensures inspected.Some? ==>
              pulled.Success? && exists img :: img in pulled.value && img.ref == inspected.value && pull(img)
    ensures labels.Some? ==>
              var base := if inspected.Some? then inspect(SplitTransport(inspected.value).1).GetOr(map[]) else map[];
              forall key :: Find(labels.value, key) == FinalLabel(stages, p, base, key)
  {
    hide UsedBy, Conflicting, FinalLabel, IsPullable, WellFormed, TransportFrom, BaseStage, ImageOf;
    labels, inspected := None, None;
    pulled := PrePullBaseImages(stages, "", buildahVersion, skipUnused, pull);
    if pulled.Failure? {
      return;
    }
    labels, inspected := DetermineFinalLabels(stages, p, inspect);
    if inspected.Some? {
      InspectedIsUsed(stages, p.inherit, skipUnused);
    }
  }
}
