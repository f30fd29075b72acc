/** `pushImageDual`: pushing an image in two compressions behind one tag. */
module DualPush {
  import opened Wrappers
  import opened BuildWorld

  /** What the tags of the registry point to. */
  type Tags = map<string, Manifest>

  datatype Variant = Variant(tagSuffix: string, format: string)

  /** gzip first: old clients take the first acceptable manifest. */
  const VARIANTS: seq<Variant> := [Variant("gzip", "gzip"), Variant("zstd", "zstd:chunked")]

  /** The parameters of the push. The output reference is `repo:tag` with a non-empty tag; the
      suffix is random hexadecimal text. */
  datatype Target = Target(repo: string, tag: string, additionalTags: seq<string>, suffix: string,
                           indexName: string, writesManifest: bool)
  {
    function Output(): string { repo + ":" + tag }

    function Temporary(v: Variant): string { repo + ":" + tag + "-" + v.tagSuffix + "-" + suffix }

    function TemporaryGzip(): string { repo + ":" + tag + "-" + "gzip" + "-" + suffix }

    function TemporaryZstd(): string { repo + ":" + tag + "-" + "zstd" + "-" + suffix }

    predicate IsTemporary(ref: string) {
      ref == TemporaryGzip() || ref == TemporaryZstd()
    }

    function Additional(k: nat): string
      requires k < |additionalTags|
    { repo + ":" + additionalTags[k] }

    /** The steps of a push: without dual compression, one for each tag; with it, the suffix, two
        variants, creating and filling the index, perhaps writing it, and then one for each tag. */
    function SinglePushSteps(): nat { 1 + |additionalTags| }

    function DualPushSteps(): nat { 7 + (if writesManifest then 1 else 0) + 1 + |additionalTags| }

    /** The references that are to point to the index. */
    predicate IsDestination(ref: string) {
      ref == Output() || exists k :: 0 <= k < |additionalTags| && ref == Additional(k)
    }
  }

  /** The index of the two variants: gzip first, and the zstd entry marked. */
  function DualIndex(gzip: string, zstd: string): Manifest {
    Index([Entry(gzip, gzip == zstd), Entry(zstd, true)])
  }

  /** Annotating the zstd digest gives the index, in which only the zstd entry is marked if and only
      if the variants have distinct digests. */
  lemma OnlyZstdMarked(gzip: string, zstd: string)
    ensures var entries := Annotated([Entry(gzip, false), Entry(zstd, false)], zstd);
            && Index(entries) == DualIndex(gzip, zstd)
            && (entries == [Entry(gzip, false), Entry(zstd, true)] <==> gzip != zstd)
  {
    var entries := Annotated([Entry(gzip, false), Entry(zstd, false)], zstd);
    assert entries[0] == Entry(gzip, gzip == zstd);
  }

  /** A temporary tag is never the output tag. */
  lemma TemporaryIsNotOutput(t: Target)
    ensures !t.IsTemporary(t.Output())
  {
    assert |t.TemporaryGzip()| > |t.Output()| && |t.TemporaryZstd()| > |t.Output()|;
  }

  lemma FindUpdated(tags: Tags, ref: string, m: Manifest, other: string)
    ensures Find(tags[ref := m], ref) == Some(m)
    ensures other != ref ==> Find(tags[ref := m], other) == Find(tags, other)
  {
  }

  lemma TemporaryTagsDiffer(t: Target)
    ensures t.TemporaryGzip() != t.TemporaryZstd()
  {
    var p := t.repo + ":" + t.tag + "-";
    assert t.TemporaryGzip()[|p|] == 'g' && t.TemporaryZstd()[|p|] == 'z';
  }

  /** What a reference may point to at any moment of the push. */
  ghost predicate Allowed(t: Target, index: Manifest, gzip: Manifest, zstd: Manifest, before: Tags, now: Tags) {
    forall ref ::
      || Find(now, ref) == Find(before, ref)
      || (t.IsDestination(ref) && Find(now, ref) == Some(index))
      || (ref == t.TemporaryGzip() && Find(now, ref) == Some(gzip))
      || (ref == t.TemporaryZstd() && Find(now, ref) == Some(zstd))
  }

  ghost predicate AllowedSince(t: Target, index: Manifest, gzip: Manifest, zstd: Manifest, before: Tags,
                               history: seq<Tags>, from: nat) {
    forall k :: from <= k < |history| ==> Allowed(t, index, gzip, zstd, before, history[k])
  }

  /** Only tags in the given set have moved. */
  ghost predicate OnlyMoved(moves: string -> bool, before: Tags, now: Tags) {
    forall ref :: !moves(ref) ==> Find(now, ref) == Find(before, ref)
  }

  ghost predicate OnlyMovedSince(moves: string -> bool, before: Tags,
                                 history: seq<Tags>, from: nat) {
    forall k :: from <= k < |history| ==> OnlyMoved(moves, before, history[k])
  }

  lemma MovedOne(moves: string -> bool, before: Tags, now: Tags, ref: string, m: Manifest)
    requires moves(ref) && OnlyMoved(moves, before, now)
    ensures OnlyMoved(moves, before, now[ref := m])
  {
  }

  lemma NothingMoved(moves: string -> bool, before: Tags)
    ensures OnlyMoved(moves, before, before)
  {
  }

  lemma NoneYet(moves: string -> bool, before: Tags, history: seq<Tags>)
    ensures OnlyMovedSince(moves, before, history, |history|)
  {
  }

  lemma SafeSoFar(t: Target, index: Manifest, gzip: Manifest, zstd: Manifest, moves: string -> bool,
                                     before: Tags, was: Tags,
                                     history: seq<Tags>, now: Tags, from: nat, since: nat)
    requires AllowedSince(t, index, gzip, zstd, before, history, from) && Allowed(t, index, gzip, zstd, before, now)
    requires OnlyMovedSince(moves, was, history, since) && OnlyMoved(moves, was, now)
    ensures AllowedSince(t, index, gzip, zstd, before, history + [now], from)
    ensures OnlyMovedSince(moves, was, history + [now], since)
  {
    hide Allowed, OnlyMoved;
  }

  /** The only steps of the push that move a tag: a variant to its temporary tag, or the index to
      a destination. */
  lemma TemporaryAllowed(t: Target, index: Manifest, gzip: Manifest, zstd: Manifest, before: Tags, now: Tags,
                         ref: string, image: Manifest)
    requires (ref == t.TemporaryGzip() && image == gzip) || (ref == t.TemporaryZstd() && image == zstd)
    requires Allowed(t, index, gzip, zstd, before, now)
    ensures Allowed(t, index, gzip, zstd, before, now[ref := image])
  {
    var next := now[ref := image];
    forall other | other != ref ensures Find(next, other) == Find(now, other) {
    }
  }

  lemma DestinationAllowed(t: Target, index: Manifest, gzip: Manifest, zstd: Manifest, before: Tags,
                           now: Tags, dest: string)
    requires t.IsDestination(dest) && Allowed(t, index, gzip, zstd, before, now)
    ensures Allowed(t, index, gzip, zstd, before, now[dest := index])
  {
    var next := now[dest := index];
    forall ref | ref != dest ensures Find(next, ref) == Find(now, ref) {
    }
  }

  /** The output tag is always as before or at the finished index. */
  lemma OutputTagSafe(t: Target, index: Manifest, gzip: Manifest, zstd: Manifest, before: Tags, now: Tags)
    requires Allowed(t, index, gzip, zstd, before, now)
    ensures Find(now, t.Output()) == Find(before, t.Output()) || Find(now, t.Output()) == Some(index)
  {
    TemporaryIsNotOutput(t);
  }

  /** The build: its world and the result it reports. */
  class Pusher {
    const world: World
    var images: seq<string>

    constructor (world: World)
      ensures this.world == world && images == []
    {
      this.world := world;
      images := [];
    }

    /** The image compressed with gzip, the one compressed with zstd, and the index of both. */
    ghost function Gzip(): Manifest { Image(world.digestOf("gzip")) }

    ghost function Zstd(): Manifest { Image(world.digestOf("zstd:chunked")) }

    ghost function FinishedIndex(): Manifest {
      DualIndex(world.digestOf("gzip"), world.digestOf("zstd:chunked"))
    }

    /** The state of the tags and every state since `from` are allowed. */
    ghost predicate Safe(t: Target, before: Tags, from: nat)
      reads world`tags, world`history
    {
      && from <= |world.history|
      && Allowed(t, FinishedIndex(), Gzip(), Zstd(), before, world.tags)
      && AllowedSince(t, FinishedIndex(), Gzip(), Zstd(), before, world.history, from)
    }

    /** `pushDualVariants`: each variant goes to its own temporary tag, and no other tag moves. */
    method PushDualVariants(t: Target, ghost before: Tags, ghost from: nat)
      returns (digests: Option<seq<string>>)
      requires Safe(t, before, from)
      modifies world`clock, world`tags, world`history
      ensures Safe(t, before, from)
      ensures OnlyMoved(t.IsTemporary, old(world.tags), world.tags)
      ensures OnlyMovedSince(t.IsTemporary, old(world.tags), world.history, |old(world.history)|)
      ensures digests.Some? <==> Worked(world.replies, old(world.clock), old(world.clock) + 2)
      ensures digests.Some? ==>
                && digests.value == [world.digestOf("gzip"), world.digestOf("zstd:chunked")]
                && Find(world.tags, t.TemporaryGzip()) == Some(Gzip())
                && Find(world.tags, t.TemporaryZstd()) == Some(Zstd())
                && world.clock == old(world.clock) + 2
    {
      hide Allowed, OnlyMoved, AllowedSince, OnlyMovedSince, DualIndex, Find, Worked;
      var pushed: seq<string> := [];
      ghost var was, since := world.tags, |world.history|;
      NothingMoved(t.IsTemporary, was);
      NoneYet(t.IsTemporary, was, world.history);
      TemporaryTagsDiffer(t);
      WorkedStep(world.replies, world.clock, world.clock, world.clock + 2);
      var k := 0;
      while k < |VARIANTS|
        invariant 0 <= k <= |VARIANTS| == 2
        invariant k > 0 ==> Find(world.tags, t.TemporaryGzip()) == Some(Gzip())
        invariant k > 1 ==> Find(world.tags, t.TemporaryZstd()) == Some(Zstd())
        invariant pushed == [world.digestOf("gzip"), world.digestOf("zstd:chunked")][..k]
        invariant world.clock == old(world.clock) + k
        invariant Worked(world.replies, old(world.clock), old(world.clock) + k)
        invariant Safe(t, before, from)
        invariant OnlyMoved(t.IsTemporary, old(world.tags), world.tags)
        invariant |old(world.history)| <= |world.history|
        invariant OnlyMovedSince(t.IsTemporary, old(world.tags), world.history, |old(world.history)|)
      {
        ghost var image := if k == 0 then Gzip() else Zstd();
        WorkedStep(world.replies, old(world.clock), world.clock, old(world.clock) + 2);
        TemporaryAllowed(t, FinishedIndex(), Gzip(), Zstd(), before, world.tags, t.Temporary(VARIANTS[k]), image);
        FindUpdated(world.tags, t.Temporary(VARIANTS[k]), image, t.TemporaryGzip());
        MovedOne(t.IsTemporary, was, world.tags, t.Temporary(VARIANTS[k]), image);
        ghost var history := world.history;
        var digest := world.Push(t.Temporary(VARIANTS[k]), VARIANTS[k].format);
        SafeSoFar(t, FinishedIndex(), Gzip(), Zstd(), t.IsTemporary, before, was, history, world.tags, from, since);
        if digest.None? {
          return None;
        }
        pushed := pushed + [digest.value];
        k := k + 1;
      }
      return Some(pushed);
    }

    /** The steps of `createPerArchIndex` after the index exists. */
    method FillIndex(name: string, gzip: string, zstd: string) returns (ok: bool)
      requires name in world.local && world.local[name] == []
      modifies world`clock, world`local
      ensures ok ==> name in world.local && Index(world.local[name]) == DualIndex(gzip, zstd)
      ensures ok == Worked(world.replies, old(world.clock), old(world.clock) + 3)
      ensures ok ==> world.clock == old(world.clock) + 3
    {
      ok := world.ManifestAdd(name, gzip);
      if !ok {
        return;
      }
      ok := world.ManifestAdd(name, zstd);
      if !ok {
        return;
      }
      assert world.local[name] == [Entry(gzip, false), Entry(zstd, false)];
      ok := world.ManifestAnnotate(name, zstd);
    }

    /** `createPerArchIndex`: the local index is removed again if filling it fails. It is left behind
        if and only if creating it takes effect but reports failure. */
    method CreatePerArchIndex(name: string, gzip: string, zstd: string) returns (ok: bool)
      modifies world`clock, world`local, world`trace
      ensures ok == (name !in old(world.local) && Worked(world.replies, old(world.clock), old(world.clock) + 4))
      ensures ok ==> world.clock == old(world.clock) + 4 && world.replies(old(world.clock)).Works?
      ensures ok ==>
                && name in world.local && Index(world.local[name]) == DualIndex(gzip, zstd)
                && world.trace == old(world.trace) + [Acquired(LocalIndex(name), old(world.clock))]
      ensures !ok ==> Handled(old(world.trace), world.trace, name, world.replies,
                              LeavesIndex(world.replies, name, old(world.local), old(world.clock)))
    {
      ghost var was, step := world.trace, world.clock;
      WorkedJoin(world.replies, step, step + 1, step + 4);
      ok := world.ManifestCreate(name);
      if !ok {
        Appended(was, world.trace[|was|..]);
        HandledReleased(world.trace[|was|..], name, world.replies);
        return;
      }
      ok := FillIndex(name, gzip, zstd);
      if !ok {
        world.ManifestRm(name);
        assert world.trace == was + [Acquired(LocalIndex(name), step), ReleaseTried(LocalIndex(name))];
        Appended(was, [Acquired(LocalIndex(name), step), ReleaseTried(LocalIndex(name))]);
        HandledReleased(world.trace[|was|..], name, world.replies);
      }
    }

    /** The pushes of the finished index: the output tag first, then the additional tags; no other
        tag moves. */
    method PushIndex(t: Target, ghost before: Tags, ghost from: nat) returns (digest: Option<string>)
      requires Safe(t, before, from)
      requires t.indexName in world.local && Index(world.local[t.indexName]) == FinishedIndex()
      modifies world`clock, world`tags, world`history
      ensures Safe(t, before, from) && |old(world.history)| <= |world.history|
      ensures OnlyMoved(t.IsDestination, old(world.tags), world.tags)
      ensures digest.Some? ==>
                && digest.value == world.indexDigest(FinishedIndex().entries)
                && forall ref :: t.IsDestination(ref) ==> Find(world.tags, ref) == Some(FinishedIndex())
      ensures var last := old(world.clock) + 1 + |t.additionalTags|;
              digest.Some? == Worked(world.replies, old(world.clock), last) && (digest.Some? ==> world.clock == last)
    {
      hide DualIndex, OnlyMoved, Pointed, Find, Safe, Worked, FinishedIndex, Gzip, Zstd;
      ghost var was, first := world.tags, world.clock;
      NothingMoved(t.IsDestination, was);
      WorkedStep(world.replies, first, first, first + 1 + |t.additionalTags|);
      digest := PushTo(t, t.Output(), before, from, was);
      if digest.None? {
        return;
      }
      PointedFirst(t, was, FinishedIndex());
      var k := 0;
      while k < |t.additionalTags|
        invariant 0 <= k <= |t.additionalTags| && Safe(t, before, from) && |old(world.history)| <= |world.history|
        invariant OnlyMoved(t.IsDestination, was, world.tags)
        invariant world.clock == old(world.clock) + 1 + k && Worked(world.replies, old(world.clock), world.clock)
        invariant Pointed(t, k, world.tags, FinishedIndex())
      {
        assert t.IsDestination(t.Additional(k));
        PointedNext(t, k, world.tags, FinishedIndex());
        WorkedStep(world.replies, first, world.clock, first + 1 + |t.additionalTags|);
        var pushed := PushTo(t, t.Additional(k), before, from, was);
        if pushed.None? {
          return None;
        }
        k := k + 1;
      }
      PointedAll(t, world.tags, FinishedIndex());
    }

    /** One push of the index to a destination. */
    method PushTo(t: Target, dest: string, ghost before: Tags, ghost from: nat, ghost was: Tags)
      returns (digest: Option<string>)
      requires Safe(t, before, from) && t.IsDestination(dest) && OnlyMoved(t.IsDestination, was, world.tags)
      requires t.indexName in world.local && Index(world.local[t.indexName]) == FinishedIndex()
      modifies world`clock, world`tags, world`history
      ensures Safe(t, before, from) && OnlyMoved(t.IsDestination, was, world.tags)
      ensures |old(world.history)| <= |world.history|
      ensures world.clock == old(world.clock) + 1 && digest.Some? == world.replies(old(world.clock)).Works?
      ensures digest.Some? ==>
                && digest.value == world.indexDigest(FinishedIndex().entries)
                && world.tags == old(world.tags)[dest := FinishedIndex()]
    {
      hide Allowed, DualIndex, OnlyMoved;
      DestinationAllowed(t, FinishedIndex(), Gzip(), Zstd(), before, world.tags, dest);
      MovedOne(t.IsDestination, was, world.tags, dest, FinishedIndex());
      digest := world.ManifestPush(t.indexName, dest);
    }

    /** What a push reports: the two variants by digest. */
    ghost function Reported(t: Target): seq<string> {
      [t.repo + "@" + world.digestOf("gzip"), t.repo + "@" + world.digestOf("zstd:chunked")]
    }

    /** After success all destinations point to the index, whose digest is returned, and the variants
        are reported. */
    ghost predicate Published(t: Target, digest: Option<string>, tags: Tags, before: seq<string>, now: seq<string>) {
      if digest.Some? then
        && (forall ref :: t.IsDestination(ref) ==> Find(tags, ref) == Some(FinishedIndex()))
        && now == Reported(t) && digest.value == world.indexDigest(FinishedIndex().entries)
      else now == before
    }

    /** `pushImageDual`. Whichever step fails, the output tag was at all times as before or at the
        finished index, and every other tag as before, at its own variant if temporary, or at the
        index if a destination; on success every destination points to the index and the variants
        are reported. The local index is given exactly one removal attempt if it was created, unless
        its creation reported failure; unless it was created without a failure, no tag but the
        temporary ones ever moved. */
    method PushImageDual(t: Target) returns (digest: Option<string>)
      modifies world, this`images
      ensures |old(world.history)| <= |world.history| && old(world.trace) <= world.trace
      ensures forall k :: |old(world.history)| <= k < |world.history| ==>
                || Find(world.history[k], t.Output()) == Find(old(world.tags), t.Output())
                || Find(world.history[k], t.Output()) == Some(FinishedIndex())
      ensures AllowedSince(t, FinishedIndex(), Gzip(), Zstd(), old(world.tags), world.history, |old(world.history)|)
      ensures Allowed(t, FinishedIndex(), Gzip(), Zstd(), old(world.tags), world.tags)
      ensures digest.Some? ==>
                && (forall ref :: t.IsDestination(ref) ==> Find(world.tags, ref) == Some(FinishedIndex()))
                && images == Reported(t)
      ensures digest.None? ==> images == old(images)
      ensures digest.Some? == PushWorks(world.replies, t, old(world.local), old(world.clock))
      ensures digest.Some? ==>
                && world.clock == old(world.clock) + t.DualPushSteps() + 1
                && digest.value == world.indexDigest(FinishedIndex().entries)
      ensures var events := world.trace[|old(world.trace)|..];
              && IndexHandled(events, t.indexName, world.replies) && (digest.Some? ==> |events| == 2)
              && (AllReleased(events) <==>
                  !PushLeavesIndex(world.replies, t.indexName, old(world.local), old(world.clock)))
              && (|events| != 2 ==>
                    OnlyMovedSince(t.IsTemporary, old(world.tags), world.history, |old(world.history)|))
      ensures var gzip, zstd := world.digestOf("gzip"), world.digestOf("zstd:chunked");
              var index := Index([Entry(gzip, gzip == zstd), Entry(zstd, true)]);
              && (forall k :: |old(world.history)| <= k < |world.history| ==>
                    || Find(world.history[k], t.repo + ":" + t.tag) == Find(old(world.tags), t.repo + ":" + t.tag)
                    || Find(world.history[k], t.repo + ":" + t.tag) == Some(index))
              && (digest.Some? ==>
                    && Find(world.tags, t.repo + ":" + t.tag) == Some(index)
                    && (forall tag :: tag in t.additionalTags ==> Find(world.tags, t.repo + ":" + tag) == Some(index))
                    && images == [t.repo + "@" + gzip, t.repo + "@" + zstd])
    {
      hide Allowed, IndexHandled, AllReleased, OnlyMovedSince, PushWorks;
      digest := RunPush(t);
      OutputTagAlwaysSafe(t, FinishedIndex(), Gzip(), Zstd(), old(world.tags), world.history, |old(world.history)|);
      forall tag | tag in t.additionalTags ensures t.IsDestination(t.repo + ":" + tag) {
        var k :| 0 <= k < |t.additionalTags| && t.additionalTags[k] == tag;
        assert t.Additional(k) == t.repo + ":" + tag;
      }
    }

    method RunPush(t: Target) returns (digest: Option<string>)
      modifies world, this`images
      ensures |old(world.history)| <= |world.history|
      ensures AllowedSince(t, FinishedIndex(), Gzip(), Zstd(), old(world.tags), world.history, |old(world.history)|)
      ensures Allowed(t, FinishedIndex(), Gzip(), Zstd(), old(world.tags), world.tags)
      ensures Published(t, digest, world.tags, old(images), images)
      ensures digest.Some? == PushWorks(world.replies, t, old(world.local), old(world.clock))
      ensures digest.Some? ==> world.clock == old(world.clock) + t.DualPushSteps() + 1
      ensures Handled(old(world.trace), world.trace, t.indexName, world.replies,
                      PushLeavesIndex(world.replies, t.indexName, old(world.local), old(world.clock)))
      ensures |world.trace| != |old(world.trace)| + 2 ==>
                digest.None? && OnlyMovedSince(t.IsTemporary, old(world.tags), world.history, |old(world.history)|)
    {
      hide Allowed, AllowedSince, Handled, OnlyMoved, OnlyMovedSince, Find, Worked, DualIndex;
      PushStages(world.replies, t, world.clock);
      ghost var before, from, was := world.tags, |world.history|, world.trace;
      AllowedAtFirst(t, FinishedIndex(), Gzip(), Zstd(), before, world.history);
      NoneYet(t.IsTemporary, before, world.history);
      NothingHandled(was, t.indexName, world.replies);
      digest := None;
      var ok := world.Try();            // a random suffix
      if !ok {
        return;
      }
      var digests := PushDualVariants(t, before, from);
      if digests.None? {
        return;
      }
      digest := BundleAndPush(t, digests.value[0], digests.value[1], before, from);
    }

    /** The steps of `pushImageDual` from the creation of the local index on. */
    method BundleAndPush(t: Target, gzip: string, zstd: string, ghost before: Tags, ghost from: nat)
      returns (digest: Option<string>)
      requires Safe(t, before, from) && gzip == world.digestOf("gzip") && zstd == world.digestOf("zstd:chunked")
      modifies world, this`images
      ensures Safe(t, before, from) && |old(world.history)| <= |world.history|
      ensures Published(t, digest, world.tags, old(images), images)
      ensures var last := old(world.clock) + t.DualPushSteps() - 3;
              && digest.Some? == (t.indexName !in old(world.local) && Worked(world.replies, old(world.clock), last))
              && (digest.Some? ==> world.clock == last + 1)
      ensures Handled(old(world.trace), world.trace, t.indexName, world.replies,
                      LeavesIndex(world.replies, t.indexName, old(world.local), old(world.clock)))
      ensures |world.trace| != |old(world.trace)| + 2 ==> digest.None? && world.history == old(world.history)
    {
      hide Safe, Handled, Worked, Published, DualIndex;
      ghost var was, step := world.trace, world.clock;
      BundleStages(world.replies, t, step);
      digest := None;
      NotPublished(t, world.tags, images);
      var ok := CreatePerArchIndex(t.indexName, gzip, zstd);
      if !ok {
        return;
      }
      digest := PushBundle(t, gzip, zstd, before, from);
      world.ManifestRm(t.indexName);    // deferred
      CreatedAndRemoved(was, world.trace, t.indexName, step, world.replies);
    }

    lemma NotPublished(t: Target, tags: Tags, images: seq<string>)
      ensures Published(t, None, tags, images, images)
    {
    }

    /** The steps between the creation of the local index and its removal. */
    method PushBundle(t: Target, gzip: string, zstd: string, ghost before: Tags, ghost from: nat)
      returns (digest: Option<string>)
      requires Safe(t, before, from) && gzip == world.digestOf("gzip") && zstd == world.digestOf("zstd:chunked")
      requires t.indexName in world.local && Index(world.local[t.indexName]) == FinishedIndex()
      modifies world`clock, world`tags, world`history, this`images
      ensures Safe(t, before, from) && |old(world.history)| <= |world.history|
      ensures Published(t, digest, world.tags, old(images), images)
      ensures var tags := old(world.clock) + if t.writesManifest then 1 else 0;
              var last := tags + 1 + |t.additionalTags|;
              && digest.Some? == ((t.writesManifest ==> world.replies(old(world.clock)).Works?)
                                  && Worked(world.replies, tags, last))
              && (digest.Some? ==> world.clock == last)
    {
      hide Safe, Find, Worked, DualIndex, OnlyMoved;
      digest := None;
      var ok := true;
      if t.writesManifest {
        ok := world.Try();              // inspect the index and write the file
      }
      if ok {
        digest := PushIndex(t, before, from);
        if digest.Some? {
          images := [t.repo + "@" + gzip, t.repo + "@" + zstd];
        }
      }
    }

    /** `pushImage` without dual compression: the output tag, then the additional tags, which are
        compressed as the push defaults to. */
    method PushSingle(t: Target, format: string) returns (digest: Option<string>)
      modifies world`clock, world`tags, world`history
      ensures OnlyMoved(t.IsDestination, old(world.tags), world.tags) && |old(world.history)| <= |world.history|
      ensures digest.Some? == Worked(world.replies, old(world.clock), old(world.clock) + t.SinglePushSteps())
      ensures digest.Some? ==> world.clock == old(world.clock) + t.SinglePushSteps()
      ensures digest.Some? ==>
                && digest.value == world.digestOf(format)
                && (forall k :: 0 <= k < |t.additionalTags| ==>
                      Find(world.tags, t.Additional(k)) == Some(Image(world.digestOf(""))))
                && (t.tag !in t.additionalTags ==> Find(world.tags, t.Output()) == Some(Image(digest.value)))
    {
      hide OnlyMoved, SinglePushed, Find, Worked;
      WorkedStep(world.replies, world.clock, world.clock, world.clock + t.SinglePushSteps());
      ghost var was, first, later := world.tags, Image(world.digestOf(format)), Image(world.digestOf(""));
      NothingMoved(t.IsDestination, was);
      MovedOne(t.IsDestination, was, was, t.Output(), first);
      digest := world.Push(t.Output(), format);
      if digest.None? {
        return;
      }
      SinglePushedFirst(t, was, first, later);
      var k := 0;
      while k < |t.additionalTags|
        invariant 0 <= k <= |t.additionalTags| && |old(world.history)| <= |world.history|
        invariant world.clock == old(world.clock) + 1 + k && Worked(world.replies, old(world.clock), world.clock)
        invariant OnlyMoved(t.IsDestination, was, world.tags) && SinglePushed(t, k, world.tags, first, later)
      {
        assert t.IsDestination(t.Additional(k));
        MovedOne(t.IsDestination, was, world.tags, t.Additional(k), later);
        SinglePushedNext(t, k, world.tags, first, later);
        WorkedStep(world.replies, old(world.clock), world.clock, old(world.clock) + t.SinglePushSteps());
        var pushed := world.Push(t.Additional(k), "");
        if pushed.None? {
          return None;
        }
        k := k + 1;
      }
      SinglePushedAll(t, world.tags, first, later);
    }
  }

  /** The first `k` additional tags point to the later image, and the output tag, if it is none of
      the additional tags, to the first one. */
  ghost predicate SinglePushed(t: Target, k: nat, tags: Tags, first: Manifest, later: Manifest)
    requires k <= |t.additionalTags|
  {
    && (forall j :: 0 <= j < k ==> Find(tags, t.Additional(j)) == Some(later))
    && (t.tag !in t.additionalTags ==> Find(tags, t.Output()) == Some(first))
  }

  lemma SinglePushedFirst(t: Target, tags: Tags, first: Manifest, later: Manifest)
    ensures SinglePushed(t, 0, tags[t.Output() := first], first, later)
  {
  }

  lemma SinglePushedNext(t: Target, k: nat, tags: Tags, first: Manifest, later: Manifest)
    requires k < |t.additionalTags| && SinglePushed(t, k, tags, first, later)
    ensures SinglePushed(t, k + 1, tags[t.Additional(k) := later], first, later)
  {
    if t.Additional(k) == t.Output() { OtherTag(t, k); }
  }

  lemma SinglePushedAll(t: Target, tags: Tags, first: Manifest, later: Manifest)
    requires SinglePushed(t, |t.additionalTags|, tags, first, later)
    ensures forall k :: 0 <= k < |t.additionalTags| ==> Find(tags, t.Additional(k)) == Some(later)
    ensures t.tag !in t.additionalTags ==> Find(tags, t.Output()) == Some(first)
  {
  }

  lemma OtherTag(t: Target, k: nat)
    requires k < |t.additionalTags| && t.Additional(k) == t.Output()
    ensures t.additionalTags[k] == t.tag
  {
    var n := |t.repo + ":"|;
    assert t.Additional(k)[n..] == t.additionalTags[k] && t.Output()[n..] == t.tag;
  }

  /** The output tag and the first `k` additional tags point to the index. */
  ghost predicate Pointed(t: Target, k: nat, tags: Tags, index: Manifest)
    requires k <= |t.additionalTags|
  {
    && Find(tags, t.Output()) == Some(index)
    && forall j :: 0 <= j < k ==> Find(tags, t.Additional(j)) == Some(index)
  }

  lemma PointedFirst(t: Target, tags: Tags, index: Manifest)
    ensures Pointed(t, 0, tags[t.Output() := index], index)
  {
  }

  lemma PointedNext(t: Target, k: nat, tags: Tags, index: Manifest)
    requires k < |t.additionalTags| && Pointed(t, k, tags, index)
    ensures Pointed(t, k + 1, tags[t.Additional(k) := index], index)
  {
  }

  lemma PointedAll(t: Target, tags: Tags, index: Manifest)
    requires Pointed(t, |t.additionalTags|, tags, index)
    ensures forall ref :: t.IsDestination(ref) ==> Find(tags, ref) == Some(index)
  {
  }

  /** All steps of a dual push work, and the name of the local index is free. */
  predicate PushWorks(replies: nat -> Reply, t: Target, local: map<string, seq<Entry>>, step: nat) {
    t.indexName !in local && Worked(replies, step, step + t.DualPushSteps())
  }

  lemma PushStages(replies: nat -> Reply, t: Target, a: nat)
    ensures var last := a + t.DualPushSteps();
            && (Worked(replies, a + 1, a + 3) <==> replies(a + 1).Works? && replies(a + 2).Works?)
            && (Worked(replies, a, last) <==>
                replies(a).Works? && Worked(replies, a + 1, a + 3) && Worked(replies, a + 3, last))
  {
  }

  lemma BundleStages(replies: nat -> Reply, t: Target, a: nat)
    ensures var last := a + t.DualPushSteps() - 3;
            var tags := last - 1 - |t.additionalTags|;
            && (Worked(replies, a, a + 4) ==> replies(a).Works?)
            && tags == a + 4 + (if t.writesManifest then 1 else 0)
            && (Worked(replies, a, last) <==>
                && Worked(replies, a, a + 4) && (t.writesManifest ==> replies(a + 4).Works?)
                && Worked(replies, tags, last))
  {
    var last := a + t.DualPushSteps() - 3;
    var tags := last - 1 - |t.additionalTags|;
    WorkedJoin(replies, a, a + 4, last);
    WorkedJoin(replies, a + 4, tags, last);
  }

  // ---------- the local index ----------

  /** Creating the index at the given step takes effect but reports failure. */
  predicate LeavesIndex(replies: nat -> Reply, name: string, local: map<string, seq<Entry>>, step: nat) {
    name !in local && replies(step).FailsAfterEffect?
  }

  /** The same, for a whole push that starts at the given step. */
  predicate PushLeavesIndex(replies: nat -> Reply, name: string, local: map<string, seq<Entry>>, step: nat) {
    && replies(step).Works? && replies(step + 1).Works? && replies(step + 2).Works?
    && LeavesIndex(replies, name, local, step + 3)
  }

  /** What a push may do with the local index: nothing, create and remove it, or create it by a step
      that reports failure. */
  ghost predicate IndexHandled(events: seq<Event>, name: string, replies: nat -> Reply) {
    || events == []
    || (&& events[0].Acquired? && events[0].r == LocalIndex(name)
        && match replies(events[0].step)
           case Works => events[1..] == [ReleaseTried(LocalIndex(name))]
           case FailsAfterEffect => |events| == 1
           case Fails => false)
  }

  /** A push has added such events to the trace, and leaves the index behind or not. */
  ghost predicate Handled(was: seq<Event>, now: seq<Event>, name: string, replies: nat -> Reply, leaves: bool) {
    && was <= now && IndexHandled(now[|was|..], name, replies)
    && (AllReleased(now[|was|..]) <==> !leaves)
  }

  /** It is given a removal attempt exactly in the first two cases. */
  lemma HandledReleased(events: seq<Event>, name: string, replies: nat -> Reply)
    requires IndexHandled(events, name, replies)
    ensures AllReleased(events) <==> |events| != 1
    ensures AllReleased(events) <==> NoneLate(events, replies)
  {
    if events != [] && replies(events[0].step).Works? {
      assert events == [events[0]] + events[1..];
      assert events[1] == ReleaseTried(events[0].r);
    }
  }

  lemma Appended(was: seq<Event>, more: seq<Event>)
    ensures was <= was + more && (was + more)[|was|..] == more
  {
  }

  lemma NothingHandled(was: seq<Event>, name: string, replies: nat -> Reply)
    ensures IndexHandled(was[|was|..], name, replies) && AllReleased(was[|was|..]) && |was[|was|..]| == 0
    ensures Handled(was, was, name, replies, false)
  {
  }

  lemma CreatedAndRemoved(was: seq<Event>, now: seq<Event>, name: string, step: nat, replies: nat -> Reply)
    requires replies(step).Works?
    requires now == was + [Acquired(LocalIndex(name), step)] + [ReleaseTried(LocalIndex(name))]
    ensures Handled(was, now, name, replies, false) && |now| == |was| + 2
  {
    var pair := [Acquired(LocalIndex(name), step), ReleaseTried(LocalIndex(name))];
    assert now == was + pair;
    Appended(was, pair);
    HandledReleased(pair, name, replies);
  }

  lemma OutputTagAlwaysSafe(t: Target, index: Manifest, gzip: Manifest, zstd: Manifest, before: Tags,
                            history: seq<Tags>, from: nat)
    requires AllowedSince(t, index, gzip, zstd, before, history, from)
    ensures forall k :: from <= k < |history| ==>
              || Find(history[k], t.Output()) == Find(before, t.Output())
              || Find(history[k], t.Output()) == Some(index)
  {
    hide Allowed;
    forall k | from <= k < |history|
      ensures Find(history[k], t.Output()) == Find(before, t.Output()) || Find(history[k], t.Output()) == Some(index)
    {
      OutputTagSafe(t, index, gzip, zstd, before, history[k]);
    }
  }

  lemma AllowedAtFirst(t: Target, index: Manifest, gzip: Manifest, zstd: Manifest, before: Tags, history: seq<Tags>)
    ensures Allowed(t, index, gzip, zstd, before, before)
    ensures AllowedSince(t, index, gzip, zstd, before, history, |history|)
  {
  }
}
