/** Which steps a build takes. Every failing step but a logged release ends a run, so the number of
    each step follows from the parameters; hence the replies decide, before a run, what it leaves behind. */
module BuildPlan {
  import opened BuildWorld
  import opened DualPush

  /** What the parameters ask for and what the prefetch directory holds. */
  datatype Params = Params(
    prefetch: bool, envSecrets: bool, injectsEnv: bool, yumRepos: bool,
    rhsm: bool, preregister: bool,
    skipInjections: bool, target: bool,
    syftSource: bool, syftImage: bool,
    push: bool, output: Target, dual: bool, compressionFormat: string,
    containerfileJson: bool, resolvedBaseImages: bool)

  /** Where a run stands: the number of its next step, and whether it has made a temporary workdir
      and a copy of the Containerfile. */
  datatype Point = Point(step: nat, workdir: bool, copied: bool) {
    function Then(n: nat): Point {
      Point(step + n, workdir, copied)
    }

    function Workdir(): Point {
      if workdir then this else Point(step + 1, true, copied)
    }

    function Copy(): Point {
      if copied then this else Point(Workdir().step + 1, true, true)
    }
  }

  function AfterPrefetch(p: Params, x: Point): (r: Point)
    ensures x.step <= r.step
  {
    if !p.prefetch then x
    else
      var made := x.Then(2);
      var secrets := if p.envSecrets then made.Workdir().Then(1) else made;
      if p.injectsEnv then secrets.Copy().Then(1) else secrets
  }

  function AfterYum(p: Params, x: Point): (r: Point)
    ensures x.step <= r.step
  {
    if p.yumRepos then x.Workdir().Then(1) else x
  }

  function AfterRhsm(p: Params, x: Point): (r: Point)
    ensures x.step <= r.step
  {
    if !p.rhsm then x else x.Then(if p.preregister then 2 else 0).Workdir().Then(1)
  }

  function BeforeRhsm(p: Params, x: Point): Point {
    AfterYum(p, AfterPrefetch(p, x.Then(6)))
  }

  function AfterPrepare(p: Params, x: Point): Point {
    AfterRhsm(p, BeforeRhsm(p, x))
  }

  function AfterBuildinfo(p: Params, x: Point): (r: Point)
    ensures x.step <= r.step
  {
    if p.skipInjections || p.target then x else x.Workdir().Then(1).Copy().Then(1)
  }

  function AfterImage(p: Params, x: Point): (r: Point)
    ensures x.step <= r.step
  {
    AfterBuildinfo(p, x.Then(2)).Then(5)
  }

  function BeforeScan(p: Params, x: Point): Point {
    AfterImage(p, x).Then(if p.syftSource then 2 else 1)
  }

  function AfterScans(p: Params, x: Point): Point {
    BeforeScan(p, x).Then(if p.syftImage then 3 else 0)
  }

  /** The image is built and scanned; removing the working container, the last step, may have failed. */
  predicate ScansWorked(p: Params, replies: nat -> Reply, x: Point) {
    Worked(replies, x.step, BeforeScan(p, x).step + if p.syftImage then 2 else 0)
  }

  /** The step after the push, if there is one; removing the local index may have failed. */
  function AfterPush(p: Params, step: nat): nat {
    if !p.push then step
    else step + if p.dual then p.output.DualPushSteps() + 1 else p.output.SinglePushSteps()
  }

  predicate PushSucceeds(p: Params, replies: nat -> Reply, local: map<string, seq<Entry>>, step: nat) {
    p.push ==>
      if p.dual then PushWorks(replies, p.output, local, step)
      else Worked(replies, step, step + p.output.SinglePushSteps())
  }

  /** Writing the Containerfile as JSON and the resolved base images if asked to, and printing the results. */
  function FinalSteps(p: Params): nat {
    (if p.containerfileJson then 1 else 0) + (if p.resolvedBaseImages then 1 else 0) + 1
  }

  /** A run that starts here succeeds. */
  predicate Succeeds(p: Params, replies: nat -> Reply, x: Point, local: map<string, seq<Entry>>) {
    var y := AfterPrepare(p, x);
    var step := AfterScans(p, y).step;
    && Worked(replies, x.step, y.step) && ScansWorked(p, replies, y) && PushSucceeds(p, replies, local, step)
    && Worked(replies, AfterPush(p, step), AfterPush(p, step) + FinalSteps(p))
  }

  /** The stages up to the scans, one after the other. */
  lemma ImageSplit(p: Params, replies: nat -> Reply, x: Point)
    ensures var y, z := AfterBuildinfo(p, x.Then(2)), AfterImage(p, x);
            && x.step + 2 <= y.step && z == y.Then(1).Then(4)
            && (Worked(replies, x.step, z.step) <==>
                && Worked(replies, x.step, x.step + 2) && Worked(replies, x.step + 2, y.step)
                && Worked(replies, y.step, y.step + 1) && Worked(replies, y.step + 1, y.step + 5))
  {
    hide Worked, AfterBuildinfo;
    var y := AfterBuildinfo(p, x.Then(2));
    WorkedJoin(replies, x.step, x.step + 2, y.step + 5);
    WorkedJoin(replies, x.step + 2, y.step, y.step + 5);
    WorkedJoin(replies, y.step, y.step + 1, y.step + 5);
  }

  /** The stages of the preparations. */
  lemma PrepareSplit(p: Params, replies: nat -> Reply, x: Point)
    ensures var a := x.Then(6);
            var b := AfterPrefetch(p, a);
            var c := AfterYum(p, b);
            var d := AfterRhsm(p, c);
            && c == BeforeRhsm(p, x) && d == AfterPrepare(p, x) && x.step <= a.step <= b.step <= c.step <= d.step
            && (Worked(replies, x.step, c.step) <==>
                Worked(replies, x.step, a.step) && Worked(replies, a.step, b.step) && Worked(replies, b.step, c.step))
            && (Worked(replies, x.step, d.step) <==> Worked(replies, x.step, c.step) && Worked(replies, c.step, d.step))
  {
    hide Worked, AfterPrefetch, AfterYum, AfterRhsm;
    var a, c, d := x.Then(6), BeforeRhsm(p, x), AfterPrepare(p, x);
    var b := AfterPrefetch(p, a);
    WorkedJoin(replies, x.step, a.step, c.step);
    WorkedJoin(replies, a.step, b.step, c.step);
    WorkedJoin(replies, x.step, c.step, d.step);
  }

  /** With everything asked for, the preparations are sixteen steps, the build and the scans fourteen. */
  lemma AllTheSteps(p: Params, x: Point)
    requires p.prefetch && p.envSecrets && p.injectsEnv && p.yumRepos && p.rhsm && p.preregister
    requires !p.skipInjections && !p.target && p.syftSource && p.syftImage && !x.workdir && !x.copied
    ensures AfterPrepare(p, x) == Point(x.step + 16, true, true)
    ensures AfterScans(p, AfterPrepare(p, x)) == Point(x.step + 30, true, true)
  {
  }

  // ---------- what a run leaves behind ----------

  /** The registration that comes next takes effect but reports failure. */
  predicate LateRegistration(p: Params, replies: nat -> Reply, x: Point) {
    p.rhsm && p.preregister && replies(x.step).Works? && replies(x.step + 1).FailsAfterEffect?
  }

  predicate LeavesRegistration(p: Params, replies: nat -> Reply, x: Point) {
    Worked(replies, x.step, BeforeRhsm(p, x).step) && LateRegistration(p, replies, BeforeRhsm(p, x))
  }

  /** After the preparations: making the working container takes effect but reports failure. */
  predicate LeavesContainer(p: Params, replies: nat -> Reply, x: Point) {
    var y := BeforeScan(p, x);
    p.syftImage && Worked(replies, x.step, y.step) && replies(y.step).FailsAfterEffect?
  }

  /** After the preparations: creating the local index takes effect but reports failure. */
  predicate LeavesLocalIndex(p: Params, replies: nat -> Reply, x: Point, local: map<string, seq<Entry>>) {
    && p.push && p.dual && ScansWorked(p, replies, x)
    && PushLeavesIndex(replies, p.output.indexName, local, AfterScans(p, x).step)
  }

  /** A run that starts here leaves something behind: one of the three programs takes effect but
      reports failure, after all steps before it worked. */
  predicate LeavesBehind(p: Params, replies: nat -> Reply, x: Point, local: map<string, seq<Entry>>) {
    || LeavesRegistration(p, replies, x)
    || (&& Worked(replies, x.step, AfterPrepare(p, x).step)
        && var y := AfterPrepare(p, x);
           LeavesContainer(p, replies, y) || LeavesLocalIndex(p, replies, y, local))
  }

  /** If no step takes effect while reporting failure, nothing is left behind. */
  lemma HonestLeavesNothing(p: Params, replies: nat -> Reply, x: Point, local: map<string, seq<Entry>>)
    requires forall n: nat :: !replies(n).FailsAfterEffect?
    ensures !LeavesBehind(p, replies, x, local)
  {
    hide Worked;
  }

  /** A run that gets past a stage has left nothing behind in it, and one that does not get there
      leaves nothing behind later: so at most one thing is left behind. */
  lemma LeavesByStage(p: Params, replies: nat -> Reply, x: Point, local: map<string, seq<Entry>>)
    ensures var y := AfterPrepare(p, x);
            LeavesBehind(p, replies, x, local) <==>
            if !Worked(replies, x.step, y.step) then LeavesRegistration(p, replies, x)
            else if !ScansWorked(p, replies, y) then LeavesContainer(p, replies, y)
            else LeavesLocalIndex(p, replies, y, local)
  {
    hide Worked, AfterPrepare, LeavesRegistration, LeavesContainer, ScansWorked, PushLeavesIndex;
    PastRegistration(p, replies, x);
    PastContainer(p, replies, AfterPrepare(p, x));
  }

  lemma PastRegistration(p: Params, replies: nat -> Reply, x: Point)
    ensures Worked(replies, x.step, AfterPrepare(p, x).step) ==> !LeavesRegistration(p, replies, x)
  {
    hide AfterPrefetch, AfterYum;
    var z := BeforeRhsm(p, x);
    if LeavesRegistration(p, replies, x) { assert !replies(z.step + 1).Works?; }
  }

  lemma PastContainer(p: Params, replies: nat -> Reply, y: Point)
    ensures ScansWorked(p, replies, y) ==> !LeavesContainer(p, replies, y)
  {
    hide AfterImage;
    var s := BeforeScan(p, y);
    if LeavesContainer(p, replies, y) { assert !replies(s.step).Works?; }
  }
}
