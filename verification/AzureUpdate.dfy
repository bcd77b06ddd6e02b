/** The update run on Azure Container Apps (updater/azure_update.py): which releases the parts of
    the system are on, after any number of runs, each cut off anywhere. */
module AzureUpdate {
  import opened Wrappers
  import opened Versions

  // ----- retag_template

  datatype EnvVar = EnvVar(name: string, value: string)

  datatype Container = Container(image: string, env: seq<EnvVar>)

  /** image.rpartition(":") without the tag; "" where there is no colon. */
  function Repo(image: string): string {
    if ':' !in image then "" else if image[|image| - 1] == ':' then image[..|image| - 1] else Repo(image[..|image| - 1])
  }

  function WithoutAppVersion(env: seq<EnvVar>): seq<EnvVar> {
    if env == [] then []
    else if env[0].name == "APP_VERSION" then WithoutAppVersion(env[1..])
    else [env[0]] + WithoutAppVersion(env[1..])
  }

  function RetagContainer(c: Container, repos: set<string>, version: string): Container {
    Container(if Repo(c.image) in repos then Repo(c.image) + ":" + version else c.image, WithoutAppVersion(c.env))
  }

  /** The loop over one of the two container lists, in place. */
  method RetagContainers(containers: array<Container>, repos: set<string>, version: string)
    modifies containers
    ensures forall k | 0 <= k < containers.Length :: containers[k] == RetagContainer(old(containers[k]), repos, version)
  {
    for i := 0 to containers.Length
      invariant forall k | 0 <= k < i :: containers[k] == RetagContainer(old(containers[k]), repos, version)
      invariant forall k | i <= k < containers.Length :: containers[k] == old(containers[k])
    {
      var c := containers[i];
      var repo := Repo(c.image);
      if repo in repos {
        c := c.(image := repo + ":" + version);
      }
      if c.env != [] {
        c := c.(env := WithoutAppVersion(c.env));
      }
      containers[i] := c;
    }
  }

  /** The template of one resource; a list it does not have is empty. */
  class Template {
    var revisionSuffix: Option<string>
    const containers: array<Container>
    const initContainers: array<Container>

    ghost predicate Valid() {
      containers != initContainers
    }

    constructor (revisionSuffix: Option<string>, containers: array<Container>, initContainers: array<Container>)
      requires containers != initContainers
      ensures Valid() && this.revisionSuffix == revisionSuffix
      ensures this.containers == containers && this.initContainers == initContainers
    {
      this.revisionSuffix, this.containers, this.initContainers := revisionSuffix, containers, initContainers;
    }

    method Retag(repos: set<string>, version: string)
      requires Valid()
      modifies this, containers, initContainers
      ensures revisionSuffix == None
      ensures forall k | 0 <= k < containers.Length ::
                containers[k] == RetagContainer(old(containers[k]), repos, version)
      ensures forall k | 0 <= k < initContainers.Length ::
                initContainers[k] == RetagContainer(old(initContainers[k]), repos, version)
    {
      revisionSuffix := None;
      RetagContainers(containers, repos, version);
      RetagContainers(initContainers, repos, version);
    }
  }

  lemma {:induction false} RepoOfTagged(repo: string, version: string)
    requires ':' !in version
    ensures Repo(repo + ":" + version) == repo
  {
    var image := repo + ":" + version;
    assert image[|repo|] == ':';
    if version == "" {
      assert image[..|image| - 1] == repo;
    } else {
      assert image[..|image| - 1] == repo + ":" + version[..|version| - 1];
      assert version[|version| - 1] in version && image[|image| - 1] == version[|version| - 1];
      RepoOfTagged(repo, version[..|version| - 1]);
    }
  }

  lemma {:induction false} AppVersionIsGone(env: seq<EnvVar>)
    ensures forall e :: e in WithoutAppVersion(env) <==> e in env && e.name != "APP_VERSION"
    ensures WithoutAppVersion(WithoutAppVersion(env)) == WithoutAppVersion(env)
  {
    if env != [] {
      AppVersionIsGone(env[1..]);
      assert env == [env[0]] + env[1..];
      assert ([env[0]] + WithoutAppVersion(env[1..]))[1..] == WithoutAppVersion(env[1..]);
    }
  }

  /** An image of ours under any old tag gets the new one; every other image stays. */
  lemma RetagMovesOurs(c: Container, repo: string, oldTag: string, repos: set<string>, version: string)
    requires ':' !in oldTag && c.image == repo + ":" + oldTag
    ensures RetagContainer(c, repos, version).image == if repo in repos then repo + ":" + version else c.image
  {
    RepoOfTagged(repo, oldTag);
  }

  /** Of the variables exactly APP_VERSION goes, and the others keep their order. */
  lemma {:induction false} EnvConcat(a: seq<EnvVar>, b: seq<EnvVar>)
    ensures WithoutAppVersion(a + b) == WithoutAppVersion(a) + WithoutAppVersion(b)
  {
    if a == [] {
      assert a + b == b;
    } else {
      EnvConcat(a[1..], b);
      assert (a + b)[1..] == a[1..] + b;
    }
  }

  lemma EnvOne(e: EnvVar)
    ensures WithoutAppVersion([e]) == if e.name == "APP_VERSION" then [] else [e]
  {
    assert [e][1..] == [];
  }

  /** Our own images end on the version of the last retag, whatever came before; other images stay. */
  lemma LastRetagWins(c: Container, repos: set<string>, first: string, last: string)
    requires ':' !in first
    ensures RetagContainer(RetagContainer(c, repos, first), repos, last) == RetagContainer(c, repos, last)
    ensures Repo(c.image) !in repos ==> RetagContainer(c, repos, last).image == c.image
  {
    RepoOfTagged(Repo(c.image), first);
    AppVersionIsGone(c.env);
  }

  // ----- the run

  /** How many migrations a release ships: the revision its `upgrade head` ends on. */
  type Revisions = Version -> nat

  /** Releases never drop a migration. */
  ghost predicate Growing(revs: Revisions) {
    forall v, w | Less(v, w) :: revs(v) <= revs(w)
  }

  /** The revision the database is on, and the tags the parts run. */
  datatype System = System(schema: nat, migrateJob: Version, worker: Version, api: Version, updater: Version)

  predicate AtLeast(a: Version, b: Version) {
    !Less(a, b)
  }

  /** The schema is no older than any code that uses it, and the updater is moved last. */
  predicate Ordered(s: System, revs: Revisions) {
    && s.schema >= revs(s.worker) && s.schema >= revs(s.api)
    && AtLeast(s.worker, s.api) && AtLeast(s.api, s.updater)
  }

  datatype Stage = RetagMigrate | RunMigrate | RetagWorker | RetagApi | RetagUpdater

  const STAGES := [RetagMigrate, RunMigrate, RetagWorker, RetagApi, RetagUpdater]

  /** A release finds its way from any revision it ships; one it does not know fails the job. */
  function Do(s: System, stage: Stage, target: Version, revs: Revisions): Option<System> {
    match stage
    case RetagMigrate => Some(s.(migrateJob := target))
    case RunMigrate => if s.schema <= revs(s.migrateJob) then Some(s.(schema := revs(s.migrateJob))) else None
    case RetagWorker => Some(s.(worker := target))
    case RetagApi => Some(s.(api := target))
    case RetagUpdater => Some(s.(updater := target))
  }

  datatype Progress = Progress(system: System, failed: bool)

  /** The run after `done` stages, or after the one that failed; any other error ends it at `done`. */
  function Update(s: System, target: Version, done: nat, revs: Revisions): Progress
    requires done <= |STAGES|
  {
    if done == 0 then Progress(s, false)
    else
      var before := Update(s, target, done - 1, revs);
      if before.failed then before
      else
        match Do(before.system, STAGES[done - 1], target, revs)
        case Some(t) => Progress(t, false)
        case None => Progress(before.system, true)
  }

  /** A request and where its run ended. */
  datatype Request = Request(tag: string, rehearsal: bool, done: nat)

  function CheckRehearsal(requested: string, running: Option<string>): bool {
    ParseVersion(requested).Some? && Some(requested) == running
  }

  /** The check the run starts with; `running` is what the api's health endpoint reports. */
  predicate Accepted(r: Request, running: Option<string>) {
    if r.rehearsal then CheckRehearsal(r.tag, running) else CheckRequestedVersion(r.tag, running).None?
  }

  /** The api reports its own release, or cannot be reached. */
  predicate Reports(s: System, running: Option<string>) {
    running.None? || ParseVersion(running.value) == Some(s.api)
  }

  /** A refused run fails without a stage. */
  function Outcome(s: System, r: Request, running: Option<string>, revs: Revisions): Progress {
    if Accepted(r, running) && r.done <= |STAGES| then Update(s, ParseVersion(r.tag).value, r.done, revs)
    else Progress(s, true)
  }

  function Apply(s: System, r: Request, running: Option<string>, revs: Revisions): System {
    Outcome(s, r, running, revs).system
  }

  lemma AcceptedParses(r: Request, running: Option<string>)
    requires Accepted(r, running)
    ensures ParseVersion(r.tag).Some?
  {
  }

  lemma {:induction false} FailureStays(s: System, target: Version, i: nat, done: nat, revs: Revisions)
    requires i <= done <= |STAGES| && Update(s, target, i, revs).failed
    ensures Update(s, target, done, revs) == Update(s, target, i, revs)
    decreases done
  {
    if i < done {
      FailureStays(s, target, i, done - 1, revs);
    }
  }

  /** The resource group as the job changes it, stage by stage, until one fails or all are done. */
  class Deployment {
    var system: System

    constructor (system: System)
      ensures this.system == system
    {
      this.system := system;
    }

    method RunStages(target: Version, done: nat, revs: Revisions) returns (failed: bool)
      requires done <= |STAGES|
      modifies this
      ensures Progress(system, failed) == Update(old(system), target, done, revs)
    {
      failed := false;
      for i := 0 to done
        invariant Progress(system, false) == Update(old(system), target, i, revs)
      {
        match Do(system, STAGES[i], target, revs) {
          case Some(t) => system := t;
          case None =>
            FailureStays(old(system), target, i + 1, done, revs);
            return true;
        }
      }
    }

    method Run(r: Request, running: Option<string>, revs: Revisions) returns (failed: bool)
      requires r.done <= |STAGES|
      modifies this
      ensures !Accepted(r, running) ==> failed && system == old(system)
      ensures Progress(system, failed) == Outcome(old(system), r, running, revs)
    {
      if !Accepted(r, running) {
        return true;
      }
      AcceptedParses(r, running);
      failed := RunStages(ParseVersion(r.tag).value, r.done, revs);
    }
  }

  /** What the check tells about the target. */
  lemma AcceptedTarget(s: System, r: Request, running: Option<string>)
    ensures Reports(s, running) && Accepted(r, running) ==>
              && ParseVersion(r.tag).Some?
              && var target := ParseVersion(r.tag).value;
                 if r.rehearsal then target == s.api else Less(s.api, target)
  {
    if !r.rehearsal && Accepted(r, running) {
      ChecksAgree(r.tag, running);
      NewerMeans(r.tag, running.value);
    }
  }

  /** The parts a run has moved after `done` stages, unless its migrations could not run. */
  lemma UpdateUpTo(s: System, target: Version, done: nat, revs: Revisions)
    requires done <= 5
    ensures Update(s, target, done, revs) ==
            if done >= 2 && s.schema > revs(target) then Progress(s.(migrateJob := target), true)
            else Progress(System(
              if done >= 2 then revs(target) else s.schema,
              if done >= 1 then target else s.migrateJob,
              if done >= 3 then target else s.worker,
              if done >= 4 then target else s.api,
              if done >= 5 then target else s.updater), false)
  {
    assert Update(s, target, 0, revs) == Progress(s, false);
    assert done >= 1 ==> Update(s, target, 1, revs) == Progress(s.(migrateJob := target), false);
    if done >= 2 {
      var two := Update(s, target, 2, revs);
      if s.schema > revs(target) {
        assert two == Progress(s.(migrateJob := target), true);
        FailureStays(s, target, 2, done, revs);
      } else {
        var moved := s.(migrateJob := target, schema := revs(target));
        assert two == Progress(moved, false);
        LastStages(s, target, done, revs, moved);
      }
    }
  }

  lemma LastStages(s: System, target: Version, done: nat, revs: Revisions, moved: System)
    requires 2 <= done <= 5 && Update(s, target, 2, revs) == Progress(moved, false)
    ensures Update(s, target, done, revs) == Progress(moved.(
              worker := if done >= 3 then target else moved.worker,
              api := if done >= 4 then target else moved.api,
              updater := if done >= 5 then target else moved.updater), false)
  {
    if done >= 3 {
      assert Update(s, target, 3, revs) == Progress(moved.(worker := target), false);
    }
    if done >= 4 {
      assert Update(s, target, 4, revs) == Progress(moved.(worker := target, api := target), false);
    }
  }

  /** Wherever an accepted run stops, the order of the parts holds. */
  lemma RunKeepsOrder(s: System, r: Request, running: Option<string>, revs: Revisions)
    requires Ordered(s, revs) && Reports(s, running)
    ensures Ordered(Apply(s, r, running, revs), revs)
    ensures Apply(s, r, running, revs).schema >= s.schema && AtLeast(Apply(s, r, running, revs).api, s.api)
  {
    if Accepted(r, running) && r.done <= |STAGES| {
      AcceptedTarget(s, r, running);
      var target := ParseVersion(r.tag).value;
      UpdateUpTo(s, target, r.done, revs);
    }
  }

  ghost function After(s: System, rs: seq<Request>, reported: seq<Option<string>>, revs: Revisions): System
    requires |rs| == |reported|
  {
    if rs == [] then s
    else
      var n := |rs| - 1;
      Apply(After(s, rs[..n], reported[..n], revs), rs[n], reported[n], revs)
  }

  /** Every run asked the api that was running when it started. */
  ghost predicate Honest(s: System, rs: seq<Request>, reported: seq<Option<string>>, revs: Revisions)
    requires |rs| == |reported|
  {
    rs == [] ||
      var n := |rs| - 1;
      && Honest(s, rs[..n], reported[..n], revs)
      && Reports(After(s, rs[..n], reported[..n], revs), reported[n])
  }

  /** For any requests, in any order, each run stopping anywhere: the schema serves worker and api,
      and worker >= api >= updater, throughout; schema and api never go back. */
  lemma {:induction false} RunsKeepOrder(s: System, rs: seq<Request>, reported: seq<Option<string>>, revs: Revisions)
    requires Ordered(s, revs) && |rs| == |reported| && Honest(s, rs, reported, revs)
    ensures var t := After(s, rs, reported, revs);
            Ordered(t, revs) && t.schema >= s.schema && AtLeast(t.api, s.api)
  {
    if rs != [] {
      var n := |rs| - 1;
      RunsKeepOrder(s, rs[..n], reported[..n], revs);
      RunKeepsOrder(After(s, rs[..n], reported[..n], revs), rs[n], reported[n], revs);
    }
  }

  // ----- what the check does not cover: the parts that are ahead of the api

  /** A run moves the worker back exactly when it gets past the migrations with a target the worker
      was ahead of; in an ordered system the target then ships no migration less than the worker. */
  lemma WorkerMovesBackExactly(s: System, r: Request, running: Option<string>, revs: Revisions)
    requires Accepted(r, running) && r.done <= |STAGES|
    ensures ParseVersion(r.tag).Some?
    ensures var target := ParseVersion(r.tag).value;
            var reached := r.done >= 3 && s.schema <= revs(target);
            Less(Apply(s, r, running, revs).worker, s.worker) <==> reached && Less(target, s.worker)
    ensures Growing(revs) && Ordered(s, revs) && Less(Apply(s, r, running, revs).worker, s.worker) ==>
              s.schema == revs(ParseVersion(r.tag).value) == revs(s.worker)
  {
    UpdateUpTo(s, ParseVersion(r.tag).value, r.done, revs);
  }

  /** A rehearsal gets through and changes nothing exactly when every part was on the api's release
      already; in an ordered system it gets through exactly when the schema is. */
  lemma RehearsalChangesNothingExactly(s: System, r: Request, running: Option<string>, revs: Revisions)
    requires Reports(s, running) && r.rehearsal && Accepted(r, running) && r.done == |STAGES|
    ensures Outcome(s, r, running, revs) == Progress(s, false)
       <==> s.schema == revs(s.api) && s.migrateJob == s.worker == s.api == s.updater
    ensures Ordered(s, revs) ==> (!Outcome(s, r, running, revs).failed <==> s.schema == revs(s.api))
  {
    AcceptedTarget(s, r, running);
    UpdateUpTo(s, s.api, r.done, revs);
  }

  /** An update from one release to the next that stopped behind the worker, and then a rehearsal,
      which promises to change nothing: it takes the worker back exactly when the next release
      adds no migration, and otherwise fails, leaving the older migrate job behind. */
  lemma RehearsalMovesWorkerBack(current: Release, next: Release, revs: Revisions)
    requires Less(VersionOf(current), VersionOf(next)) && Growing(revs)
    ensures var v, w := VersionOf(current), VersionOf(next);
            var start, cut := System(revs(v), v, v, v, v), System(revs(w), w, w, v, v);
            var cutOff, rehearsal := Request(Tag(next), false, 3), Request(Tag(current), true, 5);
            var reported := Some(Tag(current));
            && Reports(start, reported) && Accepted(cutOff, reported) && Apply(start, cutOff, reported, revs) == cut
            && Reports(cut, reported) && Accepted(rehearsal, reported)
            && (Less(Apply(cut, rehearsal, reported, revs).worker, cut.worker) <==> revs(v) == revs(w))
            && Outcome(cut, rehearsal, reported, revs)
            == if revs(v) == revs(w) then Progress(start, false) else Progress(cut.(migrateJob := v), true)
  {
    var v, w := VersionOf(current), VersionOf(next);
    TagRoundTrip(current);
    TagRoundTrip(next);
    ChecksAgree(Tag(next), Some(Tag(current)));
    NewerMeans(Tag(next), Tag(current));
    UpdateUpTo(System(revs(v), v, v, v, v), w, 3, revs);
    UpdateUpTo(System(revs(w), w, w, v, v), v, 5, revs);
  }
}
