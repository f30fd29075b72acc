/** `collectBaseImages`: the images needed to build the target stages. */
module BaseImages {
  import opened Wrappers
  import opened Stages

  datatype Conflict = Conflict(ref: string, previous: string, platform: string)

  // ---------- the stages of interest ----------

  function Max(targets: seq<nat>): (m: nat)
    requires targets != []
    ensures m in targets && forall t :: t in targets ==> t <= m
  {
    if |targets| == 1 then targets[0]
    else
      var m := Max(targets[1..]);
      assert targets == [targets[0]] + targets[1..];
      if targets[0] > m then targets[0] else m
  }

  ghost function UpTo(n: nat): (s: set<nat>)
    ensures |s| == n && forall i: nat :: i in s <==> i < n
  {
    if n == 0 then {} else UpTo(n - 1) + {n - 1}
  }

  /** The targets alone, or every stage up to the last target. */
  ghost function Roots(targets: seq<nat>, skipUnused: bool): set<nat>
    requires targets != []
  {
    if skipUnused then set t | t in targets else UpTo(Max(targets) + 1)
  }

  // ---------- invariants of the worklist ----------

  /** The variables of the search: result images, platform of each reference, queue, seen stages. */
  datatype Work = Work(images: seq<BaseImage>, platforms: map<string, string>, queue: seq<nat>, seen: set<nat>)

  /** Everything seen is reachable, and the queue holds seen stages once each. */
  ghost predicate QueueOk(stages: seq<Stage>, roots: set<nat>, w: Work) {
    && w.seen <= UpTo(|stages|)
    && (forall i :: i in w.seen ==> Reachable(stages, roots, i))
    && (forall i :: i in w.queue ==> i in w.seen)
    && (forall a, b :: 0 <= a < b < |w.queue| ==> w.queue[a] != w.queue[b])
  }

  /** The collected images are used, have distinct references, and agree with the platform map. */
  ghost predicate ImagesOk(stages: seq<Stage>, roots: set<nat>, w: Work) {
    && (forall k :: 0 <= k < |w.images| ==> UsedBy(stages, roots, w.images[k]))
    && (forall k :: 0 <= k < |w.images| ==>
          w.images[k].ref in w.platforms && w.platforms[w.images[k].ref] == w.images[k].platform)
    && (forall ref :: ref in w.platforms ==> BaseImage(ref, w.platforms[ref]) in w.images)
    && DistinctRefs(w.images)
  }

  ghost predicate DistinctRefs(images: seq<BaseImage>) {
    forall a, b :: 0 <= a < b < |images| ==> images[a].ref != images[b].ref
  }

  ghost predicate Ok(stages: seq<Stage>, roots: set<nat>, w: Work) {
    QueueOk(stages, roots, w) && ImagesOk(stages, roots, w)
  }

  /** Nothing is forgotten, newly seen stages are exactly the newly queued ones, and the measure
      `unseen stages + queue length` does not grow. */
  ghost predicate Grown(w: Work, w': Work) {
    && w.images <= w'.images && w.seen <= w'.seen
    && (forall i :: i in w'.queue <==> i in w.queue || (i in w'.seen && i !in w.seen))
    && |w'.queue| - |w'.seen| == |w.queue| - |w.seen|
  }

  lemma GrownTransitive(a: Work, b: Work, c: Work)
    requires Grown(a, b) && Grown(b, c)
    ensures Grown(a, c)
  {
  }

  ghost predicate Expanded(stages: seq<Stage>, w: Work, i: nat) {
    forall j :: DependsOn(stages, i, j) ==> j in w.seen
  }

  ghost predicate Collected(stages: seq<Stage>, w: Work, i: nat) {
    forall img :: UsesImage(stages, i, img) ==> img in w.images
  }

  // ---------- the two closures of the source ----------

  /** The conflict names two uses of one reference with different platforms. */
  ghost predicate RealConflict(stages: seq<Stage>, roots: set<nat>, c: Conflict) {
    && UsedBy(stages, roots, BaseImage(c.ref, c.previous))
    && UsedBy(stages, roots, BaseImage(c.ref, c.platform))
    && c.previous != c.platform
  }

  /** `addImage`. */
  method AddImage(stages: seq<Stage>, ghost roots: set<nat>, w: Work, img: BaseImage)
    returns (r: Result<Work, Conflict>)
    requires Ok(stages, roots, w) && UsedBy(stages, roots, img)
    ensures r.Success? ==> Ok(stages, roots, r.value) && Grown(w, r.value) && img in r.value.images
    ensures r.Failure? ==> RealConflict(stages, roots, r.error)
  {
    hide UsedBy, QueueOk, Grown;
    GrownReflexive(w);
    if img.ref in w.platforms {
      var prev := w.platforms[img.ref];
      if prev != img.platform {
        return Failure(Conflict(img.ref, prev, img.platform));
      }
      return Success(w);
    }
    var w' := w.(images := w.images + [img], platforms := w.platforms[img.ref := img.platform]);
    QueueKept(stages, roots, w, w');
    ImageAdded(stages, roots, w, img);
    return Success(w');
  }

  /** An image whose reference is new is appended. */
  lemma ImageAdded(stages: seq<Stage>, roots: set<nat>, w: Work, img: BaseImage)
    requires ImagesOk(stages, roots, w) && UsedBy(stages, roots, img) && img.ref !in w.platforms
    ensures var w' := w.(images := w.images + [img], platforms := w.platforms[img.ref := img.platform]);
            ImagesOk(stages, roots, w') && Grown(w, w') && img in w'.images
  {
    hide UsedBy;
    var images := w.images + [img];
    assert images[|w.images|] == img;
    forall ref | ref in w.platforms ensures BaseImage(ref, w.platforms[ref]) in images {
      assert BaseImage(ref, w.platforms[ref]) in w.images;
    }
  }

  lemma QueueKept(stages: seq<Stage>, roots: set<nat>, w: Work, w': Work)
    requires QueueOk(stages, roots, w) && w'.queue == w.queue && w'.seen == w.seen
    ensures QueueOk(stages, roots, w')
  {
  }

  lemma ImagesKept(stages: seq<Stage>, roots: set<nat>, w: Work, w': Work)
    requires ImagesOk(stages, roots, w) && w'.images == w.images && w'.platforms == w.platforms
    ensures ImagesOk(stages, roots, w')
  {
    hide UsedBy;
  }

  /** `enqueue`. */
  method Enqueue(stages: seq<Stage>, ghost roots: set<nat>, w: Work, idxs: seq<nat>) returns (w': Work)
    requires Ok(stages, roots, w)
    requires forall i :: i in idxs ==> i < |stages| && Reachable(stages, roots, i)
    ensures Ok(stages, roots, w') && Grown(w, w')
    ensures forall i :: i in w'.seen <==> i in w.seen || i in idxs
  {
    hide *;
    w' := w;
    GrownReflexive(w);
    var k := 0;
    while k < |idxs|
      invariant 0 <= k <= |idxs|
      invariant Ok(stages, roots, w') && Grown(w, w')
      invariant forall i :: i in w'.seen <==> i in w.seen || i in idxs[..k]
    {
      var i := idxs[k];
      assert i in idxs;
      assert idxs[..k + 1] == idxs[..k] + [i];
      if i !in w'.seen {
        PushKeeps(stages, roots, w', i);
        GrownTransitive(w, w', w'.(queue := w'.queue + [i], seen := w'.seen + {i}));
        w' := w'.(queue := w'.queue + [i], seen := w'.seen + {i});
      }
      k := k + 1;
    }
    assert idxs[..|idxs|] == idxs;
  }

  lemma GrownReflexive(w: Work)
    ensures Grown(w, w)
  {
  }

  /** A new stage is marked as seen and queued. */
  lemma PushKeeps(stages: seq<Stage>, roots: set<nat>, w: Work, i: nat)
    requires Ok(stages, roots, w) && i < |stages| && Reachable(stages, roots, i) && i !in w.seen
    ensures var w' := w.(queue := w.queue + [i], seen := w.seen + {i});
            Ok(stages, roots, w') && Grown(w, w')
  {
    hide Reachable, ImagesOk;
    var w' := w.(queue := w.queue + [i], seen := w.seen + {i});
    ImagesKept(stages, roots, w, w');
    var q := w.queue + [i];
    forall a, b | 0 <= a < b < |q| ensures q[a] != q[b] {
      if b == |w.queue| { assert q[a] == w.queue[a] && w.queue[a] in w.queue; }
    }
  }

  // ---------- one stage ----------

  ghost predicate FromHandled(stages: seq<Stage>, i: nat, w: Work)
    requires i < |stages|
  {
    var from := stages[i].from;
    && (from.stage.Some? ==> from.stage.value in w.seen)
    && (from.stage.None? && from.image.Some? ==> BaseImage(from.image.value, stages[i].platform) in w.images)
  }

  ghost predicate RefHandled(stages: seq<Stage>, i: nat, ref: string, w: Work)
    requires i < |stages|
  {
    var m := Matching(stages[..i], ref);
    && (forall j :: j in m ==> j in w.seen)
    && (m == [] ==> BaseImage(ref, "") in w.images)
  }

  lemma HandledGrows(stages: seq<Stage>, i: nat, refs: seq<string>, n: nat, w: Work, w': Work)
    requires i < |stages| && n <= |refs| && Grown(w, w') && FromHandled(stages, i, w)
    requires forall k :: 0 <= k < n ==> RefHandled(stages, i, refs[k], w)
    ensures FromHandled(stages, i, w')
    ensures forall k :: 0 <= k < n ==> RefHandled(stages, i, refs[k], w')
  {
    hide Matching;
  }

  /** A stage is dealt with once its FROM and all its references are. */
  lemma AllHandled(stages: seq<Stage>, i: nat, refs: seq<string>, w: Work)
    requires i < |stages| && refs == FromRefs(stages[i].commands) && FromHandled(stages, i, w)
    requires forall k :: 0 <= k < |refs| ==> RefHandled(stages, i, refs[k], w)
    ensures Expanded(stages, w, i) && Collected(stages, w, i)
  {
    hide Matching;
    forall j | DependsOn(stages, i, j) ensures j in w.seen {
      if stages[i].from.stage != Some(j) {
        var ref :| ref in refs && j in Matching(stages[..i], ref);
        var k :| 0 <= k < |refs| && refs[k] == ref;
        assert RefHandled(stages, i, refs[k], w);
      }
    }
    forall img | UsesImage(stages, i, img) ensures img in w.images {
      if !(stages[i].from.stage.None? && stages[i].from.image == Some(img.ref) && img.platform == stages[i].platform) {
        var k :| 0 <= k < |refs| && refs[k] == img.ref;
        assert RefHandled(stages, i, refs[k], w);
      }
    }
  }

  /** The FROM of a stage: enqueue the stage it names, or add the image. */
  method ProcessFrom(stages: seq<Stage>, ghost roots: set<nat>, w: Work, i: nat) returns (r: Result<Work, Conflict>)
    requires WellFormed(stages) && Ok(stages, roots, w) && i < |stages| && Reachable(stages, roots, i)
    ensures r.Success? ==> Ok(stages, roots, r.value) && Grown(w, r.value) && FromHandled(stages, i, r.value)
    ensures r.Failure? ==> RealConflict(stages, roots, r.error)
  {
    hide Reachable, Ok, FromRefs, Matching, RealConflict;
    var stage := stages[i];
    if stage.from.stage.Some? {
      NextReachable(stages, roots, i, stage.from.stage.value);
      var w' := Enqueue(stages, roots, w, [stage.from.stage.value]);
      return Success(w');
    } else if stage.from.image.Some? {
      var img := BaseImage(stage.from.image.value, stage.platform);
      assert UsesImage(stages, i, img);
      r := AddImage(stages, roots, w, img);
    } else {
      return Success(w);
    }
  }

  /** A reference in a command: enqueue the stages it matches, or add the image. */
  method ProcessRef(stages: seq<Stage>, ghost roots: set<nat>, w: Work, i: nat, ref: string)
    returns (r: Result<Work, Conflict>)
    requires Ok(stages, roots, w) && i < |stages| && Reachable(stages, roots, i) && ref in FromRefs(stages[i].commands)
    ensures r.Success? ==> Ok(stages, roots, r.value) && Grown(w, r.value) && RefHandled(stages, i, ref, r.value)
    ensures r.Failure? ==> RealConflict(stages, roots, r.error)
  {
    hide Reachable, Ok, FromRefs, Matching, RealConflict;
    var matching, found := FindMatchingStages(stages[..i], ref);
    if found {
      forall j | j in matching ensures j < |stages| && Reachable(stages, roots, j) {
        assert DependsOn(stages, i, j);
        NextReachable(stages, roots, i, j);
      }
      var w' := Enqueue(stages, roots, w, matching);
      return Success(w');
    } else {
      assert UsesImage(stages, i, BaseImage(ref, ""));
      r := AddImage(stages, roots, w, BaseImage(ref, ""));
    }
  }

  /** The body of the worklist loop. */
  method ProcessStage(stages: seq<Stage>, ghost roots: set<nat>, w: Work, i: nat) returns (r: Result<Work, Conflict>)
    requires WellFormed(stages) && Ok(stages, roots, w) && i < |stages| && Reachable(stages, roots, i)
    ensures r.Success? ==>
              && Ok(stages, roots, r.value) && Grown(w, r.value)
              && Expanded(stages, r.value, i) && Collected(stages, r.value, i)
    ensures r.Failure? ==> RealConflict(stages, roots, r.error)
  {
    hide *;
    r := ProcessFrom(stages, roots, w, i);
    if r.Failure? {
      return;
    }
    var refs := GetFromRefsInCommands(stages[i]);
    var k := 0;
    while k < |refs|
      invariant 0 <= k <= |refs| && r.Success?
      invariant Ok(stages, roots, r.value) && Grown(w, r.value) && FromHandled(stages, i, r.value)
      invariant forall j :: 0 <= j < k ==> RefHandled(stages, i, refs[j], r.value)
    {
      var before := r.value;
      r := ProcessRef(stages, roots, before, i, refs[k]);
      if r.Failure? {
        return;
      }
      HandledGrows(stages, i, refs, k, before, r.value);
      GrownTransitive(w, before, r.value);
      k := k + 1;
    }
    AllHandled(stages, i, refs, r.value);
  }

  // ---------- the search ----------

  /** Every stage seen and no longer queued has been dealt with. */
  ghost predicate Processed(stages: seq<Stage>, w: Work) {
    forall i :: i in w.seen && i !in w.queue ==> Expanded(stages, w, i) && Collected(stages, w, i)
  }

  lemma ProcessedNext(stages: seq<Stage>, w: Work, popped: Work, w': Work)
    requires Processed(stages, w) && w.queue != [] && popped == w.(queue := w.queue[1..]) && Grown(popped, w')
    requires Expanded(stages, w', w.queue[0]) && Collected(stages, w', w.queue[0])
    ensures Processed(stages, w')
  {
    hide DependsOn, UsesImage;
    forall i | i in w'.seen && i !in w'.queue ensures Expanded(stages, w', i) && Collected(stages, w', i) {
      if i != w.queue[0] {
        assert i in w.seen && i !in popped.queue;
        assert w.queue == [w.queue[0]] + popped.queue;
        assert Expanded(stages, w, i) && Collected(stages, w, i);
      }
    }
  }

  lemma PopKeeps(stages: seq<Stage>, roots: set<nat>, w: Work)
    requires Ok(stages, roots, w) && w.queue != []
    ensures Ok(stages, roots, w.(queue := w.queue[1..]))
    ensures w.queue[0] < |stages| && Reachable(stages, roots, w.queue[0])
  {
    hide Reachable, UsedBy;
    var q := w.queue[1..];
    assert forall k :: 0 <= k < |q| ==> q[k] == w.queue[k + 1];
    assert w.queue[0] in w.queue && w.queue[0] in w.seen;
  }

  lemma SeenBound(stages: seq<Stage>, roots: set<nat>, w: Work)
    requires Ok(stages, roots, w)
    ensures |w.seen| <= |stages|
  {
    SubsetSize(w.seen, UpTo(|stages|));
  }

  lemma {:induction false} SubsetSize(a: set<nat>, b: set<nat>)
    requires a <= b
    ensures |a| <= |b|
  {
    if a != {} {
      var x :| x in a;
      SubsetSize(a - {x}, b - {x});
    }
  }

  /** The result holds each image used by a reachable stage, exactly once, with its only platform. */
  ghost predicate Exact(stages: seq<Stage>, roots: set<nat>, images: seq<BaseImage>) {
    && (forall img :: img in images <==> UsedBy(stages, roots, img))
    && DistinctRefs(images)
  }

  lemma SearchDone(stages: seq<Stage>, roots: set<nat>, w: Work)
    requires Ok(stages, roots, w) && Processed(stages, w) && w.queue == [] && roots <= w.seen
    ensures Exact(stages, roots, w.images)
  {
    hide DependsOn, UsesImage;
    assert Closed(stages, w.seen) by {
      forall i, j | i in w.seen && DependsOn(stages, i, j) ensures j in w.seen {
        assert Expanded(stages, w, i);
      }
    }
    forall img | UsedBy(stages, roots, img) ensures img in w.images {
      var i :| Reachable(stages, roots, i) && UsesImage(stages, i, img);
      var p :| Chain(stages, roots, p) && p[|p| - 1] == i;
      ClosedHolds(stages, roots, w.seen, p);
      assert Collected(stages, w, i);
    }
  }

  lemma ExactNoConflict(stages: seq<Stage>, roots: set<nat>, images: seq<BaseImage>)
    requires Exact(stages, roots, images)
    ensures !Conflicting(stages, roots)
  {
    hide UsedBy;
    forall a, b | UsedBy(stages, roots, a) && UsedBy(stages, roots, b) && a.ref == b.ref
      ensures a.platform == b.platform
    {
      var k :| 0 <= k < |images| && images[k] == a;
      var l :| 0 <= l < |images| && images[l] == b;
      assert k == l;
    }
  }

  /** `collectBaseImages`: exact on success, and an error if and only if two reachable uses of one
      reference have different platforms. */
  method CollectBaseImages(stages: seq<Stage>, targets: seq<nat>, skipUnused: bool)
    returns (r: Result<seq<BaseImage>, Conflict>)
    requires WellFormed(stages) && targets != [] && forall t :: t in targets ==> t < |stages|
    ensures r.Success? ==> Exact(stages, Roots(targets, skipUnused), r.value)
    ensures r.Failure? ==> RealConflict(stages, Roots(targets, skipUnused), r.error)
    ensures r.Failure? <==> Conflicting(stages, Roots(targets, skipUnused))
  {
    hide Ok, Processed, Expanded, Collected, Reachable, UsedBy, Exact, Conflicting, WellFormed, Chain, Closed;
    ghost var roots := Roots(targets, skipUnused);
    var w := Start(stages, targets, skipUnused);
    while w.queue != []
      invariant Ok(stages, roots, w) && Processed(stages, w) && roots <= w.seen
      decreases |stages| - |w.seen| + |w.queue|
    {
      SeenBound(stages, roots, w);
      PopKeeps(stages, roots, w);
      var popped := w.(queue := w.queue[1..]);
      var next := ProcessStage(stages, roots, popped, w.queue[0]);
      if next.Failure? {
        ConflictShown(stages, roots, next.error);
        return Failure(next.error);
      }
      ProcessedNext(stages, w, popped, next.value);
      SeenBound(stages, roots, next.value);
      w := next.value;
    }
    SearchDone(stages, roots, w);
    ExactNoConflict(stages, roots, w.images);
    return Success(w.images);
  }

  lemma ConflictShown(stages: seq<Stage>, roots: set<nat>, c: Conflict)
    requires RealConflict(stages, roots, c)
    ensures Conflicting(stages, roots)
  {
  }

  /** The stages of interest are enqueued first. */
  method Start(stages: seq<Stage>, targets: seq<nat>, skipUnused: bool) returns (w: Work)
    requires targets != [] && forall t :: t in targets ==> t < |stages|
    ensures var roots := Roots(targets, skipUnused); Ok(stages, roots, w) && roots <= w.seen
    ensures Processed(stages, w)
  {
    hide *;
    ghost var roots := Roots(targets, skipUnused);
    w := Work([], map[], [], {});
    NothingYet(stages, roots);
    if skipUnused {
      RootsAre(targets);
      forall t | t in targets ensures Reachable(stages, roots, t) { RootReachable(stages, roots, t); }
      w := EnqueueFirst(stages, roots, w, targets);
    } else {
      RootsAre(targets);
      var i := 0;
      while i < Max(targets) + 1
        invariant 0 <= i <= Max(targets) + 1
        invariant Ok(stages, roots, w) && AllQueued(w)
        invariant forall j: nat :: j < i ==> j in w.seen
      {
        RootReachable(stages, roots, i);
        w := EnqueueFirst(stages, roots, w, [i]);
        i := i + 1;
      }
    }
    AllQueuedProcessed(stages, w);
  }

  ghost predicate AllQueued(w: Work) {
    forall i :: i in w.seen ==> i in w.queue
  }

  lemma NothingYet(stages: seq<Stage>, roots: set<nat>)
    ensures var w := Work([], map[], [], {}); Ok(stages, roots, w) && AllQueued(w)
  {
  }

  lemma RootsAre(targets: seq<nat>)
    requires targets != []
    ensures forall i :: i in Roots(targets, true) <==> i in targets
    ensures forall i: nat :: i in Roots(targets, false) <==> i <= Max(targets)
  {
  }

  lemma AllQueuedProcessed(stages: seq<Stage>, w: Work)
    requires AllQueued(w)
    ensures Processed(stages, w)
  {
  }

  method EnqueueFirst(stages: seq<Stage>, ghost roots: set<nat>, w: Work, idxs: seq<nat>) returns (w': Work)
    requires Ok(stages, roots, w) && AllQueued(w)
    requires forall i :: i in idxs ==> i < |stages| && Reachable(stages, roots, i)
    ensures Ok(stages, roots, w') && AllQueued(w') && w.seen <= w'.seen && forall i :: i in idxs ==> i in w'.seen
  {
    hide Ok, Reachable;
    w' := Enqueue(stages, roots, w, idxs);
  }

  // ---------- the two settings of skip-unused-stages ----------

  /** With the setting off, the processed stages are exactly those up to the last target. */
  lemma AllStagesProcessed(stages: seq<Stage>, targets: seq<nat>, i: nat)
    requires WellFormed(stages) && targets != [] && forall t :: t in targets ==> t < |stages|
    ensures Reachable(stages, Roots(targets, false), i) <==> i <= Max(targets)
  {
    hide WellFormed, DependsOn, Max;
    var roots := Roots(targets, false);
    if i <= Max(targets) {
      RootReachable(stages, roots, i);
    }
    if Reachable(stages, roots, i) {
      var p :| Chain(stages, roots, p) && p[|p| - 1] == i;
      forall k, j | k in roots && DependsOn(stages, k, j) ensures j in roots { DependsBackwards(stages, k, j); }
      ClosedHolds(stages, roots, roots, p);
    }
  }

  lemma MoreRoots(stages: seq<Stage>, few: set<nat>, many: set<nat>, img: BaseImage)
    requires few <= many && UsedBy(stages, few, img)
    ensures UsedBy(stages, many, img)
  {
    hide UsesImage, DependsOn;
    var i :| Reachable(stages, few, i) && UsesImage(stages, i, img);
    var p :| Chain(stages, few, p) && p[|p| - 1] == i;
    assert Chain(stages, many, p);
    assert Reachable(stages, many, i);
  }

  /** Skipping unused stages never needs more: if both settings succeed its images are among the
      others, and whenever it finds a conflict so does the other setting. */
  lemma SkippingNeedsLess(stages: seq<Stage>, targets: seq<nat>, skipping: seq<BaseImage>, all: seq<BaseImage>)
    requires targets != []
    ensures Exact(stages, Roots(targets, true), skipping) && Exact(stages, Roots(targets, false), all) ==>
              forall img :: img in skipping ==> img in all
    ensures Conflicting(stages, Roots(targets, true)) ==> Conflicting(stages, Roots(targets, false))
  {
    hide UsedBy;
    var few, many := Roots(targets, true), Roots(targets, false);
    RootsAre(targets);
    forall img | UsedBy(stages, few, img) ensures UsedBy(stages, many, img) {
      MoreRoots(stages, few, many, img);
    }
    if Conflicting(stages, few) {
      var a, b :| UsedBy(stages, few, a) && UsedBy(stages, few, b) && a.ref == b.ref && a.platform != b.platform;
      assert UsedBy(stages, many, a) && UsedBy(stages, many, b);
    }
  }
}
