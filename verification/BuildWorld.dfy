/** What a build acts on: the registry, local image storage and the resources it acquires. Every
    external step may fail, and a registry update or a program that reports failure may still have
    taken effect. */
module BuildWorld {
  import opened Wrappers

  /** An entry of an image index: the digest of the image and whether it is marked as zstd. */
  datatype Entry = Entry(digest: string, zstd: bool)

  datatype Manifest = Image(digest: string) | Index(entries: seq<Entry>)

  /** How an external step turns out. */
  datatype Reply = Works | Fails | FailsAfterEffect

  /** All the steps in the range work. */
  predicate Worked(replies: nat -> Reply, from: nat, to: nat) {
    forall n :: from <= n < to ==> replies(n).Works?
  }

  lemma WorkedJoin(replies: nat -> Reply, a: nat, b: nat, c: nat)
    requires a <= b <= c
    ensures Worked(replies, a, c) <==> Worked(replies, a, b) && Worked(replies, b, c)
  {
  }

  lemma WorkedStep(replies: nat -> Reply, a: nat, b: nat, c: nat)
    requires a <= b < c
    ensures Worked(replies, a, a)
    ensures Worked(replies, a, b + 1) <==> Worked(replies, a, b) && replies(b).Works?
    ensures !replies(b).Works? ==> !Worked(replies, a, c)
  {
  }

  datatype Resource =
    | TempWorkdir(id: nat)
    | PrefetchCopy(id: nat)
    | RhsmRegistration
    | WorkingContainer(id: nat)
    | LocalIndex(name: string)
    | ChangedDirectory

  /** Something was acquired by the given step, or its release was attempted. */
  datatype Event = Acquired(r: Resource, step: nat) | ReleaseTried(r: Resource)

  ghost predicate ReleasedAfter(events: seq<Event>, k: nat)
    requires k < |events|
  {
    exists l :: k < l < |events| && events[l] == ReleaseTried(events[k].r)
  }

  /** Every acquisition is followed by a release attempt. */
  ghost predicate AllReleased(events: seq<Event>) {
    forall k :: 0 <= k < |events| && events[k].Acquired? ==> ReleasedAfter(events, k)
  }

  /** The step took effect although it reported failure. */
  predicate IsLate(e: Event, replies: nat -> Reply) {
    e.Acquired? && replies(e.step).FailsAfterEffect?
  }

  ghost predicate NoneLate(events: seq<Event>, replies: nat -> Reply) {
    forall k :: 0 <= k < |events| ==> !IsLate(events[k], replies)
  }

  class World {
    /** The outcome of the n-th external step; the theorems hold for every such function. */
    const replies: nat -> Reply
    /** The digest of the image in a compression format, and of an index. */
    const digestOf: string -> string
    const indexDigest: seq<Entry> -> string

    var clock: nat
    var tags: map<string, Manifest>
    var local: map<string, seq<Entry>>
    /** Every state the tags have been in. */
    ghost var history: seq<map<string, Manifest>>
    /** What has been acquired and released, in order. */
    ghost var trace: seq<Event>

    constructor (replies: nat -> Reply, digestOf: string -> string, indexDigest: seq<Entry> -> string,
                 tags: map<string, Manifest>, local: map<string, seq<Entry>>)
      ensures this.tags == tags && this.local == local && history == [tags] && trace == [] && clock == 0
      ensures this.replies == replies && this.digestOf == digestOf && this.indexDigest == indexDigest
    {
      this.replies, this.digestOf, this.indexDigest := replies, digestOf, indexDigest;
      this.tags, this.local, clock, history, trace := tags, local, 0, [tags], [];
    }

    method Ask() returns (r: Reply)
      modifies this`clock
      ensures r == replies(old(clock)) && clock == old(clock) + 1
    {
      r := replies(clock);
      clock := clock + 1;
    }

    /** A step with no effect that matters here. */
    method Try() returns (ok: bool)
      modifies this`clock
      ensures clock == old(clock) + 1 && ok == replies(old(clock)).Works?
    {
      var r := Ask();
      ok := r.Works?;
    }

    /** The tag may have moved even if the registry reported an error. */
    method SetTag(ref: string, m: Manifest) returns (ok: bool)
      modifies this`clock, this`tags, this`history
      ensures clock == old(clock) + 1 && ok == replies(old(clock)).Works?
      ensures ok ==> tags == old(tags)[ref := m]
      ensures tags == old(tags) || tags == old(tags)[ref := m]
      ensures history == old(history) + [tags]
    {
      var r := Ask();
      if !r.Fails? {
        tags := tags[ref := m];
      }
      history := history + [tags];
      ok := r.Works?;
    }

    /** `buildah push` of the built image in a compression format. */
    method Push(dest: string, format: string) returns (digest: Option<string>)
      modifies this`clock, this`tags, this`history
      ensures clock == old(clock) + 1 && digest.Some? == replies(old(clock)).Works?
      ensures digest.Some? ==> digest.value == digestOf(format) && tags == old(tags)[dest := Image(digestOf(format))]
      ensures tags == old(tags) || tags == old(tags)[dest := Image(digestOf(format))]
      ensures history == old(history) + [tags]
    {
      var ok := SetTag(dest, Image(digestOf(format)));
      digest := if ok then Some(digestOf(format)) else None;
    }

    /** `buildah manifest push`: the whole index goes to the destination. */
    method ManifestPush(name: string, dest: string) returns (digest: Option<string>)
      modifies this`clock, this`tags, this`history
      ensures name !in local ==> digest.None? && tags == old(tags) && history == old(history)
      ensures name in local ==>
                && clock == old(clock) + 1 && digest.Some? == replies(old(clock)).Works?
                && (digest.Some? ==> digest.value == indexDigest(local[name]))
                && (digest.Some? ==> tags == old(tags)[dest := Index(local[name])])
                && (tags == old(tags) || tags == old(tags)[dest := Index(local[name])])
                && history == old(history) + [tags]
    {
      if name !in local {
        return None;
      }
      var ok := SetTag(dest, Index(local[name]));
      digest := if ok then Some(indexDigest(local[name])) else None;
    }

    /** `buildah manifest create`: fails on an existing name. */
    method ManifestCreate(name: string) returns (ok: bool)
      modifies this`clock, this`local, this`trace
      ensures clock == old(clock) + 1
      ensures name in old(local) ==> !ok && local == old(local) && trace == old(trace)
      ensures name !in old(local) ==>
                && ok == replies(old(clock)).Works?
                && if replies(old(clock)).Fails? then local == old(local) && trace == old(trace)
                   else && local == old(local)[name := []]
                        && trace == old(trace) + [Acquired(LocalIndex(name), old(clock))]
    {
      var step := clock;
      var r := Ask();
      if name in local {
        return false;
      }
      if !r.Fails? {
        local := local[name := []];
        trace := trace + [Acquired(LocalIndex(name), step)];
      }
      ok := r.Works?;
    }

    /** `buildah manifest add`: the image becomes the last entry. */
    method ManifestAdd(name: string, digest: string) returns (ok: bool)
      modifies this`clock, this`local
      ensures clock == old(clock) + 1 && ok == (replies(old(clock)).Works? && name in old(local))
      ensures ok ==> local == old(local)[name := old(local)[name] + [Entry(digest, false)]]
      ensures !ok ==> local == old(local)
    {
      ok := Try();
      if name !in local {
        ok := false;
      }
      if ok {
        local := local[name := local[name] + [Entry(digest, false)]];
      }
    }

    /** `buildah manifest annotate`: mark the entries with the digest. */
    method ManifestAnnotate(name: string, digest: string) returns (ok: bool)
      modifies this`clock, this`local
      ensures clock == old(clock) + 1 && ok == (replies(old(clock)).Works? && name in old(local))
      ensures ok ==> local == old(local)[name := Annotated(old(local)[name], digest)]
      ensures !ok ==> local == old(local)
    {
      ok := Try();
      if name !in local {
        ok := false;
      }
      if ok {
        local := local[name := Annotated(local[name], digest)];
      }
    }

    /** `buildah manifest rm`: a failure is only logged. */
    method ManifestRm(name: string)
      modifies this`clock, this`local, this`trace
      ensures clock == old(clock) + 1 && trace == old(trace) + [ReleaseTried(LocalIndex(name))]
      ensures local == old(local) || local == old(local) - {name}
    {
      var ok := Try();
      if ok {
        local := local - {name};
      }
      trace := trace + [ReleaseTried(LocalIndex(name))];
    }

    /** Acquire by a system call, which has no effect if it fails. */
    method Acquire(r: Resource) returns (ok: bool)
      modifies this`clock, this`trace
      ensures clock == old(clock) + 1 && ok == replies(old(clock)).Works?
      ensures trace == if ok then old(trace) + [Acquired(r, old(clock))] else old(trace)
    {
      ghost var step := clock;
      ok := Try();
      if ok {
        trace := trace + [Acquired(r, step)];
      }
    }

    /** Acquire by an external program, which may take effect and still report failure. */
    method Request(r: Resource) returns (ok: bool)
      modifies this`clock, this`trace
      ensures clock == old(clock) + 1 && ok == replies(old(clock)).Works?
      ensures trace == if replies(old(clock)).Fails? then old(trace) else old(trace) + [Acquired(r, old(clock))]
    {
      ghost var step := clock;
      var reply := Ask();
      if !reply.Fails? {
        trace := trace + [Acquired(r, step)];
      }
      ok := reply.Works?;
    }

    /** Try to release a resource; it counts as tried even if it fails. */
    method Release(r: Resource) returns (ok: bool)
      modifies this`clock, this`trace
      ensures clock == old(clock) + 1 && ok == replies(old(clock)).Works?
      ensures trace == old(trace) + [ReleaseTried(r)]
    {
      ok := Try();
      trace := trace + [ReleaseTried(r)];
    }
  }

  function Annotated(entries: seq<Entry>, digest: string): (r: seq<Entry>)
    ensures |r| == |entries|
    ensures forall k :: 0 <= k < |r| ==>
              r[k] == if entries[k].digest == digest then Entry(digest, true) else entries[k]
  {
    seq(|entries|, k requires 0 <= k < |entries| =>
      if entries[k].digest == digest then Entry(digest, true) else entries[k])
  }
}
