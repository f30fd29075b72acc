/** `run` and `cleanup`: whatever step fails, what was acquired is given a release attempt. */
module BuildRun {
  import opened Wrappers
  import opened BuildWorld
  import opened DualPush
  import opened BuildPlan

  // ---------- accounts ----------

  /** Every acquisition that was reported is followed by a release attempt, or is still recorded. */
  ghost predicate Covered(events: seq<Event>, replies: nat -> Reply, recorded: set<Resource>) {
    forall k :: 0 <= k < |events| && events[k].Acquired? && !IsLate(events[k], replies) ==>
      events[k].r in recorded || ReleasedAfter(events, k)
  }

  /** An acquisition that was reported as a failure is never released. */
  ghost predicate LateStay(events: seq<Event>, replies: nat -> Reply) {
    forall k :: 0 <= k < |events| && IsLate(events[k], replies) ==>
      MayBeLate(events[k].r) && !ReleasedAfter(events, k)
  }

  /** What external programs acquire; directories are made and changed by system calls. */
  predicate MayBeLate(r: Resource) {
    r.RhsmRegistration? || r.WorkingContainer? || r.LocalIndex?
  }

  ghost predicate NeverLate(events: seq<Event>, replies: nat -> Reply, r: Resource) {
    forall k :: 0 <= k < |events| && events[k].r == r ==> !IsLate(events[k], replies)
  }

  ghost function IndexEvents(events: seq<Event>): seq<Event> {
    if events == [] then []
    else
      var n := |events| - 1;
      IndexEvents(events[..n]) + if events[n].r.LocalIndex? then [events[n]] else []
  }

  ghost function WorkdirsMade(events: seq<Event>): nat {
    if events == [] then 0
    else
      var n := |events| - 1;
      WorkdirsMade(events[..n]) + if events[n].Acquired? && events[n].r.TempWorkdir? then 1 else 0
  }

  /** The account of a run so far: what is still recorded, the number of workdirs made, and what
      happened to local indexes. */
  ghost predicate Account(events: seq<Event>, replies: nat -> Reply, recorded: set<Resource>, workdirs: nat,
                          index: seq<Event>) {
    && Covered(events, replies, recorded) && LateStay(events, replies)
    && WorkdirsMade(events) == workdirs && IndexEvents(events) == index
  }

  lemma CountsNext(events: seq<Event>, e: Event)
    ensures IndexEvents(events + [e]) == IndexEvents(events) + if e.r.LocalIndex? then [e] else []
    ensures WorkdirsMade(events + [e]) == WorkdirsMade(events) + if e.Acquired? && e.r.TempWorkdir? then 1 else 0
  {
    assert (events + [e])[..|events|] == events;
  }

  lemma ReleasedNext(events: seq<Event>, e: Event, k: nat)
    requires k < |events|
    ensures ReleasedAfter(events + [e], k) <==> ReleasedAfter(events, k) || e == ReleaseTried(events[k].r)
  {
    var more := events + [e];
    if ReleasedAfter(events, k) {
      var l :| k < l < |events| && events[l] == ReleaseTried(events[k].r);
      assert more[l] == ReleaseTried(more[k].r);
    }
    if e == ReleaseTried(events[k].r) { assert more[|events|] == ReleaseTried(more[k].r); }
    if ReleasedAfter(more, k) {
      var l :| k < l < |more| && more[l] == ReleaseTried(more[k].r);
      assert l < |events| ==> events[l] == ReleaseTried(events[k].r);
    }
  }

  lemma CoveredAcquire(events: seq<Event>, replies: nat -> Reply, recorded: set<Resource>, e: Event)
    requires Covered(events, replies, recorded) && LateStay(events, replies) && e.Acquired?
    requires IsLate(e, replies) ==> MayBeLate(e.r)
    ensures Covered(events + [e], replies, if IsLate(e, replies) then recorded else recorded + {e.r})
    ensures LateStay(events + [e], replies)
  {
    hide ReleasedAfter, IsLate, MayBeLate;
    var more := events + [e];
    LastNotReleased(more);
    forall k | 0 <= k < |events| ensures more[k] == events[k] && ReleasedAfter(more, k) == ReleasedAfter(events, k) {
      ReleasedNext(events, e, k);
    }
  }

  lemma LastNotReleased(events: seq<Event>)
    requires events != []
    ensures !ReleasedAfter(events, |events| - 1)
  {
  }

  lemma CoveredRelease(events: seq<Event>, replies: nat -> Reply, recorded: set<Resource>, r: Resource)
    requires Covered(events, replies, recorded) && LateStay(events, replies) && NeverLate(events, replies, r)
    ensures Covered(events + [ReleaseTried(r)], replies, recorded - {r})
    ensures LateStay(events + [ReleaseTried(r)], replies)
  {
    hide ReleasedAfter, MayBeLate;
    var more := events + [ReleaseTried(r)];
    forall k | 0 <= k < |events|
      ensures more[k] == events[k]
      ensures ReleasedAfter(more, k) <==> ReleasedAfter(events, k) || r == events[k].r
    {
      ReleasedNext(events, ReleaseTried(r), k);
    }
  }

  lemma AccountAcquire(events: seq<Event>, replies: nat -> Reply, recorded: set<Resource>, workdirs: nat, e: Event)
    requires Account(events, replies, recorded, workdirs, []) && e.Acquired? && !e.r.LocalIndex?
    requires IsLate(e, replies) ==> MayBeLate(e.r)
    ensures Account(events + [e], replies, if IsLate(e, replies) then recorded else recorded + {e.r},
                    workdirs + if e.r.TempWorkdir? then 1 else 0, [])
  {
    hide Covered, LateStay, IndexEvents, WorkdirsMade;
    CountsNext(events, e);
    CoveredAcquire(events, replies, recorded, e);
  }

  lemma AccountRelease(events: seq<Event>, replies: nat -> Reply, recorded: set<Resource>, workdirs: nat,
                       index: seq<Event>, r: Resource)
    requires Account(events, replies, recorded, workdirs, index) && !r.LocalIndex? && NeverLate(events, replies, r)
    ensures Account(events + [ReleaseTried(r)], replies, recorded - {r}, workdirs, index)
  {
    hide Covered, LateStay, IndexEvents, WorkdirsMade, NeverLate;
    CountsNext(events, ReleaseTried(r));
    CoveredRelease(events, replies, recorded, r);
  }

  /** Releasing keeps what is known of late acquisitions. */
  lemma NeverLateNext(events: seq<Event>, replies: nat -> Reply, released: Resource, r: Resource)
    requires NeverLate(events, replies, r)
    ensures NeverLate(events + [ReleaseTried(released)], replies, r)
  {
  }

  lemma DirectoryNeverLate(events: seq<Event>, replies: nat -> Reply, r: Resource)
    requires LateStay(events, replies) && !MayBeLate(r)
    ensures NeverLate(events, replies, r)
  {
    hide ReleasedAfter;
  }

  lemma AccountIndex(events: seq<Event>, replies: nat -> Reply, recorded: set<Resource>, workdirs: nat,
                     more: seq<Event>, name: string)
    requires Account(events, replies, recorded, workdirs, []) && NoneLate(events, replies)
    requires LocalIndex(name) !in recorded && IndexHandled(more, name, replies)
    ensures Account(events + more, replies, recorded, workdirs, more)
  {
    hide Covered, LateStay, IndexEvents, WorkdirsMade;
    if more == [] {
      assert events + more == events;
    } else {
      var e, once := more[0], events + [more[0]];
      CountsNext(events, e);
      CoveredAcquire(events, replies, recorded, e);
      assert more == [e] + more[1..];
      if !IsLate(e, replies) {
        CountsNext(once, ReleaseTried(LocalIndex(name)));
        CoveredRelease(once, replies, recorded + {e.r}, LocalIndex(name));
        assert once + [ReleaseTried(LocalIndex(name))] == events + more;
        assert recorded + {e.r} - {e.r} == recorded;
      } else {
        assert once == events + more;
      }
    }
  }

  /** In a settled account, all acquisitions are released if and only if none of them was reported as
      a failure. */
  lemma SettledIff(events: seq<Event>, replies: nat -> Reply)
    requires Covered(events, replies, {}) && LateStay(events, replies)
    ensures AllReleased(events) <==> NoneLate(events, replies)
  {
    hide ReleasedAfter;
  }

  // ---------- the build ----------

  class Build {
    const world: World
    const params: Params
    const pusher: Pusher
    var tempWorkdir: Option<nat>
    var tempFilesOutsideWorkdir: seq<nat>
    var registeredWithRHSM: bool
    var containerfileCopied: bool

    constructor (world: World, params: Params)
      ensures this.world == world && this.params == params && fresh(pusher) && pusher.world == world
      ensures tempWorkdir == None && tempFilesOutsideWorkdir == [] && !registeredWithRHSM && !containerfileCopied
    {
      this.world, this.params := world, params;
      this.pusher := new Pusher(world);
      tempWorkdir, tempFilesOutsideWorkdir, registeredWithRHSM, containerfileCopied := None, [], false, false;
    }

    /** The resources that `cleanup` will find. */
    ghost function Recorded(): set<Resource>
      reads this
    {
      (if tempWorkdir.Some? then {TempWorkdir(tempWorkdir.value)} else {})
      + (set i | i in tempFilesOutsideWorkdir :: PrefetchCopy(i))
      + (if registeredWithRHSM then {RhsmRegistration} else {})
    }

    /** The account is in order: all that is held is recorded, at most one workdir was made, and
        something was acquired by a step that reported failure exactly if `late`. */
    ghost predicate InOrder(start: seq<Event>, index: seq<Event>, late: bool)
      reads this, world
    {
      && pusher.world == world
      && start <= world.trace
      && Account(world.trace[|start|..], world.replies, Recorded(), if tempWorkdir.Some? then 1 else 0, index)
      && (registeredWithRHSM ==> NeverLate(world.trace[|start|..], world.replies, RhsmRegistration))
      && (late <==> !NoneLate(world.trace[|start|..], world.replies))
    }

    /** Where the run stands. */
    ghost function Now(): Point
      reads this, world
    {
      Point(world.clock, tempWorkdir.Some?, containerfileCopied)
    }

    /** From one point the run gets to the other, if and only if all steps between them work. */
    ghost predicate Goes(ok: bool, before: Point, after: Point)
      reads this, world
    {
      ok == Worked(world.replies, before.step, after.step) && (ok ==> Now() == after)
    }

    lemma Tail(trace: seq<Event>, start: seq<Event>, more: seq<Event>)
      requires start <= trace
      ensures start <= trace + more && (trace + more)[|start|..] == trace[|start|..] + more
    {
    }

    /** Steps that acquire nothing, up to the first that fails. */
    method Steps(n: nat, ghost start: seq<Event>, ghost index: seq<Event>, ghost late: bool) returns (ok: bool)
      requires InOrder(start, index, late)
      modifies world`clock
      ensures InOrder(start, index, late) && Goes(ok, old(Now()), old(Now()).Then(n))
    {
      hide Account;
      ok := true;
      for i := 0 to n
        invariant ok && world.clock == old(world.clock) + i && Worked(world.replies, old(world.clock), world.clock)
      {
        ok := world.Try();
        if !ok {
          return;
        }
      }
    }

    method EnsureTempWorkdirExists(ghost start: seq<Event>) returns (ok: bool)
      requires InOrder(start, [], false)
      modifies this`tempWorkdir, world`clock, world`trace
      ensures InOrder(start, [], false) && (ok ==> tempWorkdir.Some?)
      ensures Goes(ok, old(Now()), old(Now()).Workdir())
    {
      hide Account;
      ok := true;
      if tempWorkdir.None? {
        var id := world.clock;
        ghost var was, recorded, e := world.trace, Recorded(), Acquired(TempWorkdir(id), id);
        ok := world.Acquire(TempWorkdir(id));
        if ok {
          tempWorkdir := Some(id);
          assert Recorded() == recorded + {TempWorkdir(id)};
          AccountAcquire(was[|start|..], world.replies, recorded, 0, e);
          Tail(was, start, [e]);
        }
      }
    }

    method EnsureContainerfileCopied(ghost start: seq<Event>) returns (ok: bool)
      requires InOrder(start, [], false)
      modifies this`tempWorkdir, this`containerfileCopied, world`clock, world`trace
      ensures InOrder(start, [], false)
      ensures ok ==> containerfileCopied && (old(containerfileCopied) || tempWorkdir.Some?)
      ensures Goes(ok, old(Now()), old(Now()).Copy())
    {
      hide Account;
      if containerfileCopied {
        return true;
      }
      ok := EnsureTempWorkdirExists(start);
      if ok {
        ok := world.Try();
        containerfileCopied := ok;
      }
    }

    /** `copyPrefetchDir`: the copy is recorded as soon as its directory exists. */
    method CopyPrefetchDir(ghost start: seq<Event>) returns (ok: bool)
      requires InOrder(start, [], false)
      modifies this`tempFilesOutsideWorkdir, world`clock, world`trace
      ensures InOrder(start, [], false) && Goes(ok, old(Now()), old(Now()).Then(2))
      ensures ok ==> |tempFilesOutsideWorkdir| == |old(tempFilesOutsideWorkdir)| + 1
    {
      hide Account;
      var id := world.clock;
      ghost var was, recorded, e := world.trace, Recorded(), Acquired(PrefetchCopy(id), id);
      ok := world.Acquire(PrefetchCopy(id));
      if !ok {
        return;
      }
      tempFilesOutsideWorkdir := tempFilesOutsideWorkdir + [id];
      assert Recorded() == recorded + {PrefetchCopy(id)};
      AccountAcquire(was[|start|..], world.replies, recorded, if tempWorkdir.Some? then 1 else 0, e);
      Tail(was, start, [e]);
      ok := world.Try();     // copy the files and fix their permissions
    }

    method IntegrateWithPrefetch(ghost start: seq<Event>) returns (ok: bool)
      requires InOrder(start, [], false)
      modifies this`tempWorkdir, this`tempFilesOutsideWorkdir, this`containerfileCopied, world`clock, world`trace
      ensures InOrder(start, [], false) && Goes(ok, old(Now()), AfterPrefetch(params, old(Now())))
    {
      hide Account, InOrder;
      ok := true;
      if !params.prefetch {
        return;
      }
      ok := CopyPrefetchDir(start);
      if ok && params.envSecrets {
        ok := EnsureTempWorkdirExists(start);
        if ok { ok := Steps(1, start, [], false); }   // write the secret files
      }
      if ok && params.injectsEnv {
        ok := EnsureContainerfileCopied(start);
        if ok { ok := Steps(1, start, [], false); }   // edit the copy
      }
    }

    method PrepareYumReposMount(ghost start: seq<Event>) returns (ok: bool)
      requires InOrder(start, [], false)
      modifies this`tempWorkdir, world`clock, world`trace
      ensures InOrder(start, [], false) && Goes(ok, old(Now()), AfterYum(params, old(Now())))
    {
      hide Account, InOrder;
      ok := true;
      if params.yumRepos {
        ok := EnsureTempWorkdirExists(start);
        if ok { ok := Steps(1, start, [], false); }   // merge the files
      }
    }

    /** `integrateWithRHSM`: a registration that reports failure is not recorded, whether it took
        effect or not. */
    method IntegrateWithRHSM(ghost start: seq<Event>) returns (ok: bool)
      requires InOrder(start, [], false) && !registeredWithRHSM
      modifies this`tempWorkdir, this`registeredWithRHSM, world`clock, world`trace
      ensures InOrder(start, [], LateRegistration(params, world.replies, old(Now())))
      ensures Goes(ok, old(Now()), AfterRhsm(params, old(Now())))
      ensures ok ==> registeredWithRHSM == (params.rhsm && params.preregister)
    {
      hide Account, InOrder;
      ok := true;
      if !params.rhsm {
        return;
      }
      if params.preregister {
        ok := Steps(1, start, [], false);             // read the activation key and the organization
        if !ok {
          return;
        }
        ok := Register(start);
        if !ok {
          return;
        }
      }
      ok := EnsureTempWorkdirExists(start);
      if ok { ok := Steps(1, start, [], false); }     // gather the files
    }

    method Register(ghost start: seq<Event>) returns (ok: bool)
      requires InOrder(start, [], false) && !registeredWithRHSM
      modifies this`registeredWithRHSM, world`clock, world`trace
      ensures InOrder(start, [], world.replies(old(world.clock)).FailsAfterEffect?)
      ensures registeredWithRHSM == ok && Goes(ok, old(Now()), old(Now()).Then(1))
    {
      hide Account;
      ghost var was, recorded, e := world.trace, Recorded(), Acquired(RhsmRegistration, world.clock);
      ghost var workdirs: nat := if tempWorkdir.Some? then 1 else 0;
      AccountAcquire(was[|start|..], world.replies, recorded, workdirs, e);
      Tail(was, start, [e]);
      LateNext(was[|start|..], world.replies, e);
      ok := world.Request(RhsmRegistration);
      if ok {
        registeredWithRHSM := true;
        assert Recorded() == recorded + {RhsmRegistration};
      }
    }

    method InjectBuildinfo(ghost start: seq<Event>) returns (ok: bool)
      requires InOrder(start, [], false)
      modifies this`tempWorkdir, this`containerfileCopied, world`clock, world`trace
      ensures InOrder(start, [], false) && Goes(ok, old(Now()), AfterBuildinfo(params, old(Now())))
    {
      hide Account, InOrder;
      if params.skipInjections || params.target {
        return true;
      }
      ok := EnsureTempWorkdirExists(start);
      if ok { ok := Steps(1, start, [], false); }     // determine the labels and write them
      if ok { ok := EnsureContainerfileCopied(start); }
      if ok { ok := Steps(1, start, [], false); }     // append to the copy
    }

    /** `buildImage` runs in the context directory and returns from it; failing to return fails it. */
    method BuildImage(ghost start: seq<Event>) returns (ok: bool)
      requires InOrder(start, [], false)
      modifies world`clock, world`trace
      ensures InOrder(start, [], false) && Goes(ok, old(Now()), old(Now()).Then(4))
    {
      hide Account;
      ok := world.Try();        // the current directory
      if !ok {
        return;
      }
      ghost var was, step := world.trace, world.clock;
      ok := world.Acquire(ChangedDirectory);
      if !ok {
        return;
      }
      Used(was, start, ChangedDirectory, step);
      ok := world.Try();        // build
      var returned := world.Release(ChangedDirectory);
      ok := ok && returned;
    }

    /** The image scan of `runSyftScans`; failing to remove the working container is only logged. */
    method ScanImage(ghost start: seq<Event>) returns (ok: bool)
      requires InOrder(start, [], false)
      modifies world`clock, world`trace
      ensures InOrder(start, [], world.replies(old(world.clock)).FailsAfterEffect?)
      ensures ok == Worked(world.replies, old(world.clock), old(world.clock) + 2)
      ensures ok ==> Now() == old(Now()).Then(3)
    {
      hide Account;
      ghost var was, step := world.trace, world.clock;
      var container := WorkingContainer(world.clock);
      AccountAcquire(was[|start|..], world.replies, Recorded(), if tempWorkdir.Some? then 1 else 0,
                     Acquired(container, step));
      Tail(was, start, [Acquired(container, step)]);
      LateNext(was[|start|..], world.replies, Acquired(container, step));
      ok := world.Request(container);
      if !ok {
        return;
      }
      Used(was, start, container, step);
      ok := world.Try();        // mount and scan
      var removed := world.Release(container);
    }

    /** Something acquired without a reported failure and given back keeps the account. */
    lemma Used(was: seq<Event>, start: seq<Event>, r: Resource, step: nat)
      requires start <= was && pusher.world == world && (r.ChangedDirectory? || r.WorkingContainer?)
      requires world.replies(step).Works? && NoneLate(was[|start|..], world.replies)
      requires Account(was[|start|..], world.replies, Recorded(), if tempWorkdir.Some? then 1 else 0, [])
      ensures var now := was + [Acquired(r, step)] + [ReleaseTried(r)];
              && start <= now && NoneLate(now[|start|..], world.replies)
              && Account(now[|start|..], world.replies, Recorded(), if tempWorkdir.Some? then 1 else 0, [])
    {
      hide Account;
      var e, events := Acquired(r, step), was[|start|..];
      var workdirs := if tempWorkdir.Some? then 1 else 0;
      AccountAcquire(events, world.replies, Recorded(), workdirs, e);
      AccountRelease(events + [e], world.replies, Recorded() + {r}, workdirs, [], r);
      Tail(was, start, [e]);
      Tail(was + [e], start, [ReleaseTried(r)]);
      assert Recorded() + {r} - {r} == Recorded();
    }

    method RunSyftScans(ghost start: seq<Event>) returns (ok: bool)
      requires InOrder(start, [], false)
      modifies world`clock, world`trace
      ensures var x, y := old(Now()), old(Now()).Then(if params.syftSource then 2 else 1);
              && InOrder(start, [], params.syftImage && Worked(world.replies, x.step, y.step)
                                    && world.replies(y.step).FailsAfterEffect?)
              && ok == Worked(world.replies, x.step, y.step + if params.syftImage then 2 else 0)
              && (ok ==> Now() == y.Then(if params.syftImage then 3 else 0))
    {
      hide Account, InOrder;
      ok := Steps(if params.syftSource then 2 else 1, start, [], false);   // the format, and the source scan
      if ok && params.syftImage {
        ok := ScanImage(start);
      }
    }

    /** `pushImage`: what happens to the local index is what the dual push does with it, and to the
        tags what the push at hand does with them. */
    method PushImage(ghost start: seq<Event>) returns (ok: bool, ghost index: seq<Event>)
      requires InOrder(start, [], false)
      modifies world, pusher
      ensures InOrder(start, index, params.dual &&
                PushLeavesIndex(world.replies, params.output.indexName, old(world.local), old(world.clock)))
      ensures ok && params.dual ==>
                !PushLeavesIndex(world.replies, params.output.indexName, old(world.local), old(world.clock))
      ensures params.push ==>
                && ok == PushSucceeds(params, world.replies, old(world.local), old(world.clock))
                && (ok ==> world.clock == AfterPush(params, old(world.clock)))
      ensures IndexHandled(index, params.output.indexName, world.replies) && (!params.dual ==> index == [])
      ensures |old(world.history)| <= |world.history|
      ensures TagsAsPromised(old(world.tags), world.tags, world.history[|old(world.history)|..], ok)
    {
      hide Account, Allowed, AllowedSince, IndexHandled, AllReleased, OnlyMoved, OnlyMovedSince, PushLeavesIndex;
      hide Worked, PushWorks;
      index := [];
      var digest;
      ghost var was, recorded, workdirs: nat := world.trace, Recorded(), if tempWorkdir.Some? then 1 else 0;
      if !params.dual {
        NothingHandled(was, params.output.indexName, world.replies);
        assert was[|was|..] == [];
        digest := pusher.PushSingle(params.output, params.compressionFormat);
        AdditionalOnes(params.output);
      } else {
        digest := pusher.PushImageDual(params.output);
        index := world.trace[|was|..];
        AccountIndex(was[|start|..], world.replies, recorded, workdirs, index, params.output.indexName);
        assert world.trace == was + index;
        Tail(was, start, index);
        PushLate(was[|start|..], index, params.output.indexName, world.replies);
      }
      ok := digest.Some?;
    }

    /** What a push promises about tags. With dual compression, the output tag was at all times as
        before or at the index of the gzip and the zstd image, and after success every destination
        points to that index. Otherwise only destinations moved, and after success the additional tags
        point to the image as compressed by default, and the output tag, if it is none of them, to the
        image in the given format. */
    ghost predicate TagsAsPromised(before: Tags, now: Tags, since: seq<Tags>, pushed: bool) {
      var t, digestOf := params.output, world.digestOf;
      var gzip, zstd := digestOf("gzip"), digestOf("zstd:chunked");
      var index := Index([Entry(gzip, gzip == zstd), Entry(zstd, true)]);
      var output := t.repo + ":" + t.tag;
      if params.dual then
        && (forall k :: 0 <= k < |since| ==>
              Find(since[k], output) == Find(before, output) || Find(since[k], output) == Some(index))
        && (pushed ==>
              && Find(now, output) == Some(index)
              && forall tag :: tag in t.additionalTags ==> Find(now, t.repo + ":" + tag) == Some(index))
      else
        && OnlyMoved(t.IsDestination, before, now)
        && (pushed ==>
              && (forall tag :: tag in t.additionalTags ==> Find(now, t.repo + ":" + tag) == Some(Image(digestOf(""))))
              && (t.tag !in t.additionalTags ==> Find(now, output) == Some(Image(digestOf(params.compressionFormat)))))
    }

    /** `cleanup`: everything recorded is given a release attempt. */
    method Cleanup(ghost start: seq<Event>, ghost index: seq<Event>, ghost late: bool)
      requires InOrder(start, index, late)
      modifies world`clock, world`trace
      ensures start <= world.trace
      ensures Account(world.trace[|start|..], world.replies, {}, if tempWorkdir.Some? then 1 else 0, index)
      ensures late <==> !NoneLate(world.trace[|start|..], world.replies)
    {
      hide Account, NeverLate, NoneLate;
      ghost var left := Recorded();
      if tempWorkdir.Some? {
        var r := TempWorkdir(tempWorkdir.value);
        GiveBack(start, index, late, left, r);
        left := left - {r};
      }
      var k := 0;
      while k < |tempFilesOutsideWorkdir|
        invariant 0 <= k <= |tempFilesOutsideWorkdir| && Settling(start, index, late, left)
        invariant left <= (set i | i in tempFilesOutsideWorkdir[k..] :: PrefetchCopy(i))
                          + (if registeredWithRHSM then {RhsmRegistration} else {})
      {
        var r := PrefetchCopy(tempFilesOutsideWorkdir[k]);
        assert tempFilesOutsideWorkdir[k..] == [tempFilesOutsideWorkdir[k]] + tempFilesOutsideWorkdir[k + 1..];
        GiveBack(start, index, late, left, r);
        left := left - {r};
        k := k + 1;
      }
      if registeredWithRHSM {
        GiveBack(start, index, late, left, RhsmRegistration);
        left := left - {RhsmRegistration};
      }
      assert left == {};
    }

    /** The account while `cleanup` works. */
    ghost predicate Settling(start: seq<Event>, index: seq<Event>, late: bool, left: set<Resource>)
      reads this, world
    {
      && start <= world.trace
      && Account(world.trace[|start|..], world.replies, left, if tempWorkdir.Some? then 1 else 0, index)
      && (registeredWithRHSM ==> NeverLate(world.trace[|start|..], world.replies, RhsmRegistration))
      && (late <==> !NoneLate(world.trace[|start|..], world.replies))
    }

    /** One release attempt of `cleanup`; a failure is only logged. */
    method GiveBack(ghost start: seq<Event>, ghost index: seq<Event>, ghost late: bool, ghost left: set<Resource>,
                    r: Resource)
      requires Settling(start, index, late, left)
      requires r.TempWorkdir? || r.PrefetchCopy? || (r.RhsmRegistration? && registeredWithRHSM)
      modifies world`clock, world`trace
      ensures Settling(start, index, late, left - {r})
    {
      hide NeverLate, NoneLate, Covered, LateStay, IndexEvents, WorkdirsMade;
      ghost var events := world.trace[|start|..];
      if !r.RhsmRegistration? { DirectoryNeverLate(events, world.replies, r); }
      AccountRelease(events, world.replies, left, if tempWorkdir.Some? then 1 else 0, index, r);
      Tail(world.trace, start, [ReleaseTried(r)]);
      LateNext(events, world.replies, ReleaseTried(r));
      if registeredWithRHSM { NeverLateNext(events, world.replies, r, RhsmRegistration); }
      var ok := world.Release(r);
    }

    /** The steps of `run` up to the integration with RHSM, in order. */
    method Prepare(ghost start: seq<Event>) returns (ok: bool)
      requires InOrder(start, [], false) && !registeredWithRHSM
      modifies this, world`clock, world`trace
      ensures InOrder(start, [], LeavesRegistration(params, world.replies, old(Now())))
      ensures Goes(ok, old(Now()), AfterPrepare(params, old(Now())))
    {
      hide Account, InOrder, Worked, AfterPrefetch, AfterYum, AfterRhsm, LateRegistration;
      PrepareSplit(params, world.replies, Now());
      // Validate the parameters, detect the buildah version, detect and parse the Containerfile,
      // process labels and annotations, and set the secret arguments.
      ok := Steps(6, start, [], false);
      if ok { ok := IntegrateWithPrefetch(start); }
      if ok { ok := PrepareYumReposMount(start); }
      if ok { ok := IntegrateWithRHSM(start); }
    }

    /** The steps that follow, up to the scans. */
    method BuildAndScan(ghost start: seq<Event>) returns (ok: bool)
      requires InOrder(start, [], false)
      modifies this, world`clock, world`trace
      ensures InOrder(start, [], LeavesContainer(params, world.replies, old(Now())))
      ensures ok == ScansWorked(params, world.replies, old(Now()))
      ensures ok ==> Now() == AfterScans(params, old(Now()))
    {
      hide Account, InOrder, Worked, AfterBuildinfo, AfterImage;
      ghost var x := Now();
      ImageSplit(params, world.replies, x);
      WorkedJoin(world.replies, x.step, AfterImage(params, x).step, BeforeScan(params, x).step);
      WorkedJoin(world.replies, x.step, AfterImage(params, x).step,
                 BeforeScan(params, x).step + if params.syftImage then 2 else 0);
      ok := Steps(2, start, [], false);               // pull the base images and verify their architectures
      if ok { ok := InjectBuildinfo(start); }
      if ok { ok := Steps(1, start, [], false); }     // disable the RHSM host integration
      if ok { ok := BuildImage(start); }
      if ok { ok := RunSyftScans(start); }
    }

    /** `run`: whichever steps fail, everything acquired during the run is given a release attempt
        afterwards, unless one of the three external programs takes effect but reports failure after
        all steps before it worked: then, and only then, what it acquired is left behind, and the run
        fails. At most one workdir is made, and a local index is created and removed once, or left
        behind, or not made at all. The tags are as the push promises. */
    method Run() returns (ok: bool)
      requires pusher.world == world
      requires tempWorkdir == None && tempFilesOutsideWorkdir == [] && !registeredWithRHSM
      modifies this, world, pusher
      ensures old(world.trace) <= world.trace && |old(world.history)| <= |world.history|
      ensures var events := world.trace[|old(world.trace)|..];
              && (AllReleased(events) <==> !LeavesBehind(params, world.replies, old(Now()), old(world.local)))
              && (AllReleased(events) <==> NoneLate(events, world.replies))
              && (ok ==> AllReleased(events))
              && WorkdirsMade(events) <= 1
              && IndexHandled(IndexEvents(events), params.output.indexName, world.replies)
      ensures TagsAsPromised(old(world.tags), world.tags, world.history[|old(world.history)|..], ok && params.push)
      ensures ok == Succeeds(params, world.replies, old(Now()), old(world.local))
    {
      hide Covered, LateStay, IndexEvents, WorkdirsMade, IndexHandled, AllReleased, LeavesBehind, Succeeds;
      hide TagsAsPromised;
      ghost var start, late := world.trace, LeavesBehind(params, world.replies, Now(), world.local);
      AccountEmpty(world.replies);
      assert world.trace[|start|..] == [] && Recorded() == {};
      ghost var index;
      ok, index := Work(start);
      Cleanup(start, index, late);     // deferred
      SettledIff(world.trace[|start|..], world.replies);
    }

    /** The steps of `run` before its deferred cleanup. */
    method Work(ghost start: seq<Event>) returns (ok: bool, ghost index: seq<Event>)
      requires InOrder(start, [], false) && !registeredWithRHSM
      modifies this, world, pusher
      ensures InOrder(start, index, LeavesBehind(params, world.replies, old(Now()), old(world.local)))
      ensures ok == Succeeds(params, world.replies, old(Now()), old(world.local))
      ensures ok ==> !LeavesBehind(params, world.replies, old(Now()), old(world.local))
      ensures IndexHandled(index, params.output.indexName, world.replies)
      ensures |old(world.history)| <= |world.history|
      ensures TagsAsPromised(old(world.tags), world.tags, world.history[|old(world.history)|..], ok && params.push)
    {
      hide Account, InOrder, IndexHandled, AllReleased, LeavesBehind, LeavesRegistration, LeavesContainer;
      hide PushLeavesIndex, ScansWorked, AfterPrepare, AfterScans, Worked, Find, OnlyMoved, PushWorks, FinalSteps;
      index := [];
      NothingHandled(start, params.output.indexName, world.replies);
      assert start[|start|..] == [];
      ghost var late := LeavesBehind(params, world.replies, Now(), world.local);
      LeavesByStage(params, world.replies, Now(), world.local);
      PastRegistration(params, world.replies, Now());
      PastContainer(params, world.replies, AfterPrepare(params, Now()));
      TagsUntouched(world.tags, world.history);
      ok := Prepare(start);
      if ok { ok := BuildAndScan(start); }
      if ok && params.push {
        ok, index := PushImage(start);
      }
      if ok {
        // Write the Containerfile as JSON and the resolved base images if asked to; print the results.
        ok := Steps(FinalSteps(params), start, index, late);
      }
    }

    lemma TagsUntouched(tags: Tags, history: seq<Tags>)
      ensures TagsAsPromised(tags, tags, history[|history|..], false)
    {
    }
  }

  lemma AdditionalOnes(t: Target)
    ensures forall tag :: tag in t.additionalTags ==>
              exists k :: 0 <= k < |t.additionalTags| && t.repo + ":" + tag == t.Additional(k)
  {
    forall tag | tag in t.additionalTags
      ensures exists k :: 0 <= k < |t.additionalTags| && t.repo + ":" + tag == t.Additional(k)
    {
      var k :| 0 <= k < |t.additionalTags| && t.additionalTags[k] == tag;
      assert t.repo + ":" + tag == t.Additional(k);
    }
  }

  /** Whether something was acquired late, after one more event. */
  lemma LateNext(events: seq<Event>, replies: nat -> Reply, e: Event)
    ensures NoneLate(events + [e], replies) <==> NoneLate(events, replies) && !IsLate(e, replies)
  {
    var more := events + [e];
    assert more[|events|] == e;
    assert forall k :: 0 <= k < |events| ==> more[k] == events[k];
  }

  /** A push acquires late exactly if it leaves the local index behind. */
  lemma PushLate(events: seq<Event>, index: seq<Event>, name: string, replies: nat -> Reply)
    requires NoneLate(events, replies) && IndexHandled(index, name, replies)
    ensures NoneLate(events + index, replies) <==> AllReleased(index)
    ensures |index| == 2 ==> AllReleased(index)
    ensures NeverLate(events + index, replies, RhsmRegistration)
  {
    HandledReleased(index, name, replies);
    if |index| == 2 { assert index == [index[0]] + index[1..]; }
    if index != [] {
      var all := events + index;
      assert all[|events|] == index[0];
      if |index| == 1 { assert index == [index[0]]; }
    }
  }

  lemma AccountEmpty(replies: nat -> Reply)
    ensures Account([], replies, {}, 0, [])
  {
  }

  // ---------- runs that leave something behind ----------

  /** A run in which only the given step fails, and that step takes effect. */
  method RunFailingAt(step: nat, params: Params) returns (b: Build, ok: bool)
    ensures b.params == params && fresh(b.world)
    ensures AllReleased(b.world.trace) <==> !LeavesBehind(params, FailingAt(step), Point(0, false, false), map[])
  {
    hide LeavesBehind, AllReleased, IndexHandled;
    var world := new World(FailingAt(step), _ => "", _ => "", map[], map[]);
    b := new Build(world, params);
    ok := b.Run();
    assert b.world.trace[0..] == b.world.trace;
  }

  function FailingAt(step: nat): nat -> Reply {
    n => if n == step then FailsAfterEffect else Works
  }

  /** Parameters with which the eighth step is the registration. */
  function Registering(output: Target): Params {
    Params(false, false, false, false, true, true, true, false, false, false, false, output, false, "", false, false)
  }

  /** Parameters with which the fifteenth step makes the working container. */
  function Scanning(output: Target): Params {
    Params(false, false, false, false, false, false, true, false, false, true, false, output, false, "", false, false)
  }

  /** Parameters with which the eighteenth step creates the local index. */
  function Pushing(output: Target): Params {
    Params(false, false, false, false, false, false, true, false, false, false, true, output, true, "", false, false)
  }

  lemma EachIsLeftBehind(output: Target)
    ensures LeavesBehind(Registering(output), FailingAt(7), Point(0, false, false), map[])
    ensures LeavesBehind(Scanning(output), FailingAt(14), Point(0, false, false), map[])
    ensures LeavesBehind(Pushing(output), FailingAt(17), Point(0, false, false), map[])
  {
  }

  /** Each of the three programs has a run in which what it acquired is never given back. */
  method LeftBehind(output: Target) returns (registration: Build, container: Build, index: Build)
    ensures !AllReleased(registration.world.trace)
    ensures !AllReleased(container.world.trace)
    ensures !AllReleased(index.world.trace)
  {
    hide LeavesBehind, AllReleased;
    EachIsLeftBehind(output);
    var ok;
    registration, ok := RunFailingAt(7, Registering(output));
    container, ok := RunFailingAt(14, Scanning(output));
    index, ok := RunFailingAt(17, Pushing(output));
  }
}
