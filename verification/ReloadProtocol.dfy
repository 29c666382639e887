/**
 * One reload as a sequence of API calls, and what every call keeps when other reloads run in
 * between (infra/lambda/vkg-reload/index.py). The Lambda's own run is a run of this machine.
 */
module ReloadProtocol {
  import opened Text
  import opened ReloadCalls

  datatype Metric = ReloadTriggered | ReloadFailed

  /** `EntryVanished` is the error for a Cloud Map entry that exists when created but is not listed. */
  datatype Outcome = Triggered | Provisioned | Unchanged | Failed | Skipped | Raised | EntryVanished

  /** The outcomes that promise the service is on the target image. */
  predicate Settles(outcome: Outcome)
  {
    outcome == Triggered || outcome == Provisioned || outcome == Unchanged
  }

  /** The next API call of a reload. */
  datatype Pc =
    | ResolveImage
    | Describe
    | DescribeTaskDef(td: nat)
    | ResolveDigest
    | ReadDigests(target: string)
    | UpdatePlain
    | Register
    | UpdateWith(td: nat)
    | MakeEntry
    | ListEntries(from: nat)
    | RegisterNew(registry: nat)
    | MakeService(registry: nat, td: nat)
    | UpdateTaken(td: nat)
    | Done(outcome: Outcome)

  /** `configured`: the environment variables provisioning needs are set. */
  datatype Env = Env(prefix: string, configured: bool)

  /** What an invocation is asked: its namespace, its target image ("" when it cannot be resolved), its mode. */
  datatype Job = Job(ns: string, image: string, restartIfCurrent: bool)

  /** Where it is, the metrics it emitted, whether it made a mutating call, whether it found no service to update. */
  datatype State = State(pc: Pc, emitted: seq<Metric>, mutated: bool, provisioning: bool)

  /**
   * How one call comes back: its fault, the digest or digests a read reports, how much longer than one
   * entry a listing page is, and whether an update reports no deployments.
   */
  datatype Answer = Answer(fault: Fault, digest: string, digests: set<string>, page: nat, noDeployments: bool)

  function ServiceName(env: Env, ns: string): string { env.prefix + "-vkg-" + ns }

  function EntryName(ns: string): string { "vkg-" + ns }

  /** A reload that resolves its own image, and a sweep's that is handed one. */
  function Start(resolves: bool): State
  {
    State(if resolves then ResolveImage else Describe, [], false, false)
  }

  function Finish(s: State, outcome: Outcome, emitted: seq<Metric>): State
  {
    s.(pc := Done(outcome), emitted := s.emitted + emitted)
  }

  /** The image comparison, once the current image is known. */
  function Compare(job: Job, s: State, current: string): State
  {
    s.(pc := if current != job.image then Register else if job.restartIfCurrent then UpdatePlain else ResolveDigest)
  }

  /** What follows an update of a service that should exist. */
  function AfterUpdate(env: Env, s: State, reply: Reply<()>, noDeployments: bool): State
  {
    match reply
    case Ok(_) => if noDeployments then Finish(s, Raised, [ReloadFailed]) else Finish(s, Triggered, [ReloadTriggered])
    case Err(Other) => Finish(s, Raised, [ReloadFailed])
    case Err(NameTaken) => Finish(s, Raised, [ReloadFailed])
    case Err(_) => if env.configured then s.(pc := MakeEntry, provisioning := true) else Finish(s, Skipped, [])
  }

  predicate Reads(pc: Pc)
  {
    pc.ResolveImage? || pc.Describe? || pc.DescribeTaskDef? || pc.ResolveDigest? || pc.ReadDigests?
  }

  predicate Updates(pc: Pc)
  {
    pc.UpdatePlain? || pc.Register? || pc.UpdateWith?
  }

  function NextRead(env: Env, job: Job, c: Cloud, s: State, a: Answer): State
    requires Reads(s.pc)
  {
    var name := ServiceName(env, job.ns);
    match s.pc
    case ResolveImage =>
      if a.fault.Fine? && job.image != "" then s.(pc := Describe) else Finish(s, Failed, [ReloadFailed])
    case Describe =>
      if a.fault.Fine? && name in c.services then s.(pc := DescribeTaskDef(c.services[name].taskDef))
      else Compare(job, s, "")
    case DescribeTaskDef(td) =>
      Compare(job, s, if a.fault.Fine? && td < |c.taskDefs| then c.taskDefs[td] else "")
    case ResolveDigest => s.(pc := ReadDigests(a.digest))
    case ReadDigests(target) =>
      if target != "" && a.digests == {target} then Finish(s, Unchanged, []) else s.(pc := UpdatePlain)
  }

  function NextUpdate(env: Env, job: Job, c: Cloud, s: State, a: Answer): (Cloud, State)
    requires Updates(s.pc)
  {
    var name, did := ServiceName(env, job.ns), s.(mutated := true);
    match s.pc
    case UpdatePlain =>
      var (d, reply) := UpdateService(c, name, None, a.fault);
      (d, AfterUpdate(env, did, reply, a.noDeployments))
    case Register =>
      var (d, reply) := RegisterTaskDefinition(c, job.image, a.fault);
      (d, if reply.Ok? then did.(pc := UpdateWith(reply.value)) else Finish(did, Raised, [ReloadFailed]))
    case UpdateWith(td) =>
      var (d, reply) := UpdateService(c, name, Some(td), a.fault);
      (d, AfterUpdate(env, did, reply, a.noDeployments))
  }

  function NextPage(job: Job, c: Cloud, s: State, from: nat, a: Answer): State
  {
    if !a.fault.Fine? then Finish(s, Raised, [])
    else if from > |c.entries| then Finish(s, EntryVanished, [])
    else
      var until := PageEnd(c, from, a.page);
      var found := FindOnPage(c, EntryName(job.ns), from, until);
      if found.Some? then s.(pc := RegisterNew(found.value))
      else if until == |c.entries| then Finish(s, EntryVanished, [])
      else s.(pc := ListEntries(until))
  }

  function NextProvision(env: Env, job: Job, c: Cloud, s: State, a: Answer): (Cloud, State)
    requires !Reads(s.pc) && !Updates(s.pc) && !s.pc.Done?
  {
    var name, did := ServiceName(env, job.ns), s.(mutated := true);
    match s.pc
    case MakeEntry =>
      var (d, reply) := CreateEntry(c, EntryName(job.ns), a.fault);
      (d, match reply
          case Ok(entry) => did.(pc := RegisterNew(entry))
          case Err(NameTaken) => did.(pc := ListEntries(0))
          case Err(_) => Finish(did, Raised, []))
    case ListEntries(from) => (c, NextPage(job, c, s, from, a))
    case RegisterNew(registry) =>
      var (d, reply) := RegisterTaskDefinition(c, job.image, a.fault);
      (d, if reply.Ok? then did.(pc := MakeService(registry, reply.value)) else Finish(did, Failed, [ReloadFailed]))
    case MakeService(registry, td) =>
      var (d, reply) := CreateService(c, name, td, registry, a.fault);
      (d, match reply
          case Ok(_) => Finish(did, Provisioned, [ReloadTriggered])
          case Err(NameTaken) => did.(pc := UpdateTaken(td))
          case Err(_) => Finish(did, Raised, []))
    case UpdateTaken(td) =>
      var (d, reply) := UpdateService(c, name, Some(td), a.fault);
      (d, if reply.Ok? then Finish(did, Triggered, [ReloadTriggered]) else Finish(did, Raised, []))
  }

  /** One API call of a reload. */
  function Next(env: Env, job: Job, c: Cloud, s: State, a: Answer): (Cloud, State)
  {
    if s.pc.Done? then (c, s)
    else if Reads(s.pc) then (c, NextRead(env, job, c, s, a))
    else if Updates(s.pc) then NextUpdate(env, job, c, s, a)
    else NextProvision(env, job, c, s, a)
  }

  // ----- what every call keeps -----

  /** Entries have distinct names. */
  ghost predicate UniqueEntries(c: Cloud)
  {
    forall i, j :: 0 <= i < j < |c.entries| ==> c.entries[i] != c.entries[j]
  }

  ghost predicate EntryOf(c: Cloud, registry: nat, ns: string)
  {
    registry < |c.entries| && c.entries[registry] == EntryName(ns)
  }

  ghost predicate BoundAt(env: Env, c0: Cloud, c: Cloud, ns: string)
  {
    var name := ServiceName(env, ns);
    name in c.services ==>
      EntryOf(c, c.services[name].registry, ns) ||
      (name in c0.services && c.services[name].registry == c0.services[name].registry)
  }

  /** Every service of a namespace that is not bound as it was in `c0` is bound to that namespace's entry. */
  ghost predicate Bound(env: Env, c0: Cloud, c: Cloud)
  {
    forall ns :: BoundAt(env, c0, c, ns)
  }

  /** Every service's task definition is registered. */
  ghost predicate WellFormed(c: Cloud)
  {
    forall n :: n in c.services ==> c.services[n].taskDef < |c.taskDefs|
  }

  /** Task definitions and entries are only added; a service keeps its task definition or moves to `image`. */
  ghost predicate Evolves(c: Cloud, d: Cloud, image: string)
  {
    && (WellFormed(c) ==> WellFormed(d))
    && c.taskDefs <= d.taskDefs
    && c.entries <= d.entries
    && forall n :: n in c.services ==>
         n in d.services && (d.services[n].taskDef == c.services[n].taskDef || ImageOf(d, n) == image)
  }

  /** Only the service called `name` differs. */
  ghost predicate OnlyTouches(c: Cloud, d: Cloud, name: string)
  {
    forall n :: n != name ==> Get(c.services, n) == Get(d.services, n)
  }

  ghost predicate TaskDefOf(c: Cloud, td: nat, image: string)
  {
    td < |c.taskDefs| && c.taskDefs[td] == image
  }

  ghost predicate ListedFrom(c: Cloud, ns: string, from: nat)
  {
    exists i :: from <= i < |c.entries| && c.entries[i] == EntryName(ns)
  }

  /** What is true whenever a run is at a given call, whatever other runs did meanwhile. */
  ghost predicate Rooted(job: Job, c: Cloud, pc: Pc)
  {
    (pc.ResolveImage? || job.image != "" || pc == Done(Failed)) &&
    match pc
    case UpdateWith(td) => TaskDefOf(c, td, job.image)
    case ListEntries(from) => ListedFrom(c, job.ns, from)
    case RegisterNew(registry) => EntryOf(c, registry, job.ns)
    case MakeService(registry, td) => EntryOf(c, registry, job.ns) && TaskDefOf(c, td, job.image)
    case UpdateTaken(td) => TaskDefOf(c, td, job.image)
    case Done(outcome) => outcome != EntryVanished
    case _ => true
  }

  /** What is true besides, as long as the other runs for the namespace have the same target. */
  ghost predicate Targeted(env: Env, job: Job, c: Cloud, pc: Pc)
  {
    var name := ServiceName(env, job.ns);
    match pc
    case DescribeTaskDef(td) => name in c.services && (c.services[name].taskDef == td || OnTarget(c, name, job.image))
    case ResolveDigest => OnTarget(c, name, job.image)
    case ReadDigests(_) => OnTarget(c, name, job.image)
    case UpdatePlain => OnTarget(c, name, job.image)
    case Done(outcome) => Settles(outcome) ==> OnTarget(c, name, job.image)
    case _ => true
  }

  ghost predicate Placed(env: Env, job: Job, c: Cloud, pc: Pc)
  {
    Rooted(job, c, pc) && Targeted(env, job, c, pc)
  }

  /** What a run has reported and done so far, and what that says about its outcome. */
  ghost predicate Consistent(job: Job, s: State)
  {
    match s.pc
    case Done(Triggered) => s.emitted == [ReloadTriggered] && s.mutated
    case Done(Provisioned) => s.emitted == [ReloadTriggered] && s.mutated && s.provisioning
    case Done(Failed) => s.emitted == [ReloadFailed]
    case Done(Raised) => s.emitted == if s.provisioning then [] else [ReloadFailed]
    case Done(Unchanged) => s.emitted == [] && !s.mutated && !job.restartIfCurrent
    case Done(_) => s.emitted == []
    case _ =>
      && s.emitted == []
      && (Reads(s.pc) ==> !s.mutated)
      && (s.pc.ResolveDigest? || s.pc.ReadDigests? ==> !job.restartIfCurrent)
      && (s.provisioning <==> !Reads(s.pc) && !Updates(s.pc))
  }

  lemma UpdateEvolves(env: Env, job: Job, c: Cloud, s: State, a: Answer)
    requires Rooted(job, c, s.pc) && Updates(s.pc)
    ensures var d := NextUpdate(env, job, c, s, a).0;
            Evolves(c, d, job.image) && OnlyTouches(c, d, ServiceName(env, job.ns))
    ensures NextUpdate(env, job, c, s, a).1.mutated
  {
    hide ServiceName;
  }

  lemma ProvisionEvolves(env: Env, job: Job, c: Cloud, s: State, a: Answer)
    requires Rooted(job, c, s.pc) && !Reads(s.pc) && !Updates(s.pc) && !s.pc.Done?
    ensures var d := NextProvision(env, job, c, s, a).0;
            Evolves(c, d, job.image) && OnlyTouches(c, d, ServiceName(env, job.ns))
    ensures var (d, t) := NextProvision(env, job, c, s, a); !t.mutated ==> d == c
  {
    hide ServiceName, EntryName, NextPage, Evolves, OnlyTouches, Rooted;
    hide ReloadCalls.UpdateService, ReloadCalls.RegisterTaskDefinition, ReloadCalls.CreateEntry, ReloadCalls.CreateService;
    match s.pc
    case MakeEntry => EntryEvolves(c, EntryName(job.ns), a.fault, job.image, ServiceName(env, job.ns));
    case ListEntries(_) => NothingEvolves(c, job.image, ServiceName(env, job.ns));
    case RegisterNew(_) => RegisterEvolves(c, a.fault, job.image, ServiceName(env, job.ns));
    case MakeService(registry, td) => MakingIsRooted(job, c, registry, td); ServiceEvolves(c, ServiceName(env, job.ns), td, registry, a.fault, job.image);
    case UpdateTaken(td) => TakingIsRooted(job, c, td); MoveEvolves(c, ServiceName(env, job.ns), td, a.fault, job.image);
  }

  lemma NothingEvolves(c: Cloud, image: string, name: string)
    ensures Evolves(c, c, image) && OnlyTouches(c, c, name)
  {
  }

  lemma EntryEvolves(c: Cloud, entry: string, fault: Fault, image: string, name: string)
    ensures var d := CreateEntry(c, entry, fault).0; Evolves(c, d, image) && OnlyTouches(c, d, name)
  {
  }

  lemma RegisterEvolves(c: Cloud, fault: Fault, image: string, name: string)
    ensures var d := RegisterTaskDefinition(c, image, fault).0; Evolves(c, d, image) && OnlyTouches(c, d, name)
  {
  }

  lemma ServiceEvolves(c: Cloud, name: string, td: nat, registry: nat, fault: Fault, image: string)
    requires TaskDefOf(c, td, image)
    ensures var d := CreateService(c, name, td, registry, fault).0; Evolves(c, d, image) && OnlyTouches(c, d, name)
  {
  }

  lemma MoveEvolves(c: Cloud, name: string, td: nat, fault: Fault, image: string)
    requires TaskDefOf(c, td, image)
    ensures var d := UpdateService(c, name, Some(td), fault).0; Evolves(c, d, image) && OnlyTouches(c, d, name)
  {
  }

  lemma MakingIsRooted(job: Job, c: Cloud, registry: nat, td: nat)
    requires Rooted(job, c, MakeService(registry, td))
    ensures TaskDefOf(c, td, job.image)
  {
  }

  lemma TakingIsRooted(job: Job, c: Cloud, td: nat)
    requires Rooted(job, c, UpdateTaken(td))
    ensures TaskDefOf(c, td, job.image)
  {
  }

  /** One call evolves the cloud, touches no other service, and without a mutating call changes nothing. */
  lemma StepEvolves(env: Env, job: Job, c: Cloud, s: State, a: Answer)
    requires Rooted(job, c, s.pc)
    ensures var (d, t) := Next(env, job, c, s, a);
            && Evolves(c, d, job.image)
            && OnlyTouches(c, d, ServiceName(env, job.ns))
            && (!t.mutated ==> d == c)
  {
    hide NextRead, NextUpdate, NextProvision, ServiceName;
    if !s.pc.Done? && !Reads(s.pc) {
      if Updates(s.pc) { UpdateEvolves(env, job, c, s, a); } else { ProvisionEvolves(env, job, c, s, a); }
    }
  }

  lemma ReadPlaced(env: Env, job: Job, c: Cloud, s: State, a: Answer)
    requires Placed(env, job, c, s.pc) && Reads(s.pc)
    ensures Placed(env, job, c, NextRead(env, job, c, s, a).pc)
  {
  }

  lemma UpdatePlaced(env: Env, job: Job, c: Cloud, s: State, a: Answer)
    requires Placed(env, job, c, s.pc) && Updates(s.pc)
    ensures var (d, t) := NextUpdate(env, job, c, s, a); Placed(env, job, d, t.pc)
  {
    hide ServiceName;
  }

  lemma PagePlaced(env: Env, job: Job, c: Cloud, s: State, from: nat, a: Answer)
    requires Placed(env, job, c, s.pc) && s.pc == ListEntries(from)
    ensures Placed(env, job, c, NextPage(job, c, s, from, a).pc)
  {
    PageRooted(job, c, s, from, a);
  }

  lemma ProvisionPlaced(env: Env, job: Job, c: Cloud, s: State, a: Answer)
    requires Placed(env, job, c, s.pc) && !Reads(s.pc) && !Updates(s.pc) && !s.pc.Done?
    ensures var (d, t) := NextProvision(env, job, c, s, a); Placed(env, job, d, t.pc)
  {
    hide ServiceName, NextPage;
    if s.pc.ListEntries? { PagePlaced(env, job, c, s, s.pc.from, a); }
  }

  /** Whoever else is at work, the run stays where its next call makes sense. */
  lemma StepRooted(env: Env, job: Job, c: Cloud, s: State, a: Answer)
    requires Rooted(job, c, s.pc)
    ensures var (d, t) := Next(env, job, c, s, a); Rooted(job, d, t.pc)
  {
    hide NextUpdate, NextProvision, ServiceName, EntryName, Rooted;
    if s.pc.Done? {
    } else if Reads(s.pc) {
      ReadRooted(env, job, c, s, a);
    } else if Updates(s.pc) {
      UpdateRooted(env, job, c, s, a);
    } else {
      ProvisionRooted(env, job, c, s, a);
    }
  }

  lemma ReadRooted(env: Env, job: Job, c: Cloud, s: State, a: Answer)
    requires Rooted(job, c, s.pc) && Reads(s.pc)
    ensures Rooted(job, c, NextRead(env, job, c, s, a).pc)
  {
    hide ServiceName;
  }

  lemma UpdateRooted(env: Env, job: Job, c: Cloud, s: State, a: Answer)
    requires Rooted(job, c, s.pc) && Updates(s.pc)
    ensures var (d, t) := NextUpdate(env, job, c, s, a); Rooted(job, d, t.pc)
  {
    hide ServiceName;
  }

  lemma ProvisionRooted(env: Env, job: Job, c: Cloud, s: State, a: Answer)
    requires Rooted(job, c, s.pc) && !Reads(s.pc) && !Updates(s.pc) && !s.pc.Done?
    ensures var (d, t) := NextProvision(env, job, c, s, a); Rooted(job, d, t.pc)
  {
    hide ServiceName, NextPage;
    if s.pc.ListEntries? { PageRooted(job, c, s, s.pc.from, a); }
  }

  lemma PageRooted(job: Job, c: Cloud, s: State, from: nat, a: Answer)
    requires Rooted(job, c, s.pc) && s.pc == ListEntries(from)
    ensures Rooted(job, c, NextPage(job, c, s, from, a).pc)
    ensures var pc := NextPage(job, c, s, from, a).pc; pc.RegisterNew? || pc.ListEntries? || pc == Done(Raised)
  {
    var i :| from <= i < |c.entries| && c.entries[i] == EntryName(job.ns);
    var until := PageEnd(c, from, a.page);
    if i < until { assert c.entries[from..until][i - from] == EntryName(job.ns); }
  }

  /** And with one target for the namespace, what it has read of the service still holds. */
  lemma StepPlaced(env: Env, job: Job, c: Cloud, s: State, a: Answer)
    requires Placed(env, job, c, s.pc)
    ensures var (d, t) := Next(env, job, c, s, a); Placed(env, job, d, t.pc)
  {
    if s.pc.Done? {
    } else if Reads(s.pc) {
      ReadPlaced(env, job, c, s, a);
    } else if Updates(s.pc) {
      UpdatePlaced(env, job, c, s, a);
    } else {
      ProvisionPlaced(env, job, c, s, a);
    }
  }

  lemma ReadConsistent(env: Env, job: Job, c: Cloud, s: State, a: Answer)
    requires Consistent(job, s) && Reads(s.pc)
    ensures Consistent(job, NextRead(env, job, c, s, a))
  {
    hide ServiceName;
  }

  lemma UpdateConsistent(env: Env, job: Job, c: Cloud, s: State, a: Answer)
    requires Consistent(job, s) && Updates(s.pc)
    ensures Consistent(job, NextUpdate(env, job, c, s, a).1)
  {
    hide ServiceName, UpdateService, RegisterTaskDefinition;
  }

  lemma ProvisionConsistent(env: Env, job: Job, c: Cloud, s: State, a: Answer)
    requires Consistent(job, s) && !Reads(s.pc) && !Updates(s.pc) && !s.pc.Done?
    ensures Consistent(job, NextProvision(env, job, c, s, a).1)
  {
    hide ServiceName, EntryName, UpdateService, RegisterTaskDefinition, CreateEntry, CreateService;
  }

  /** What it reports keeps agreeing with what it did. */
  lemma StepConsistent(env: Env, job: Job, c: Cloud, s: State, a: Answer)
    requires Consistent(job, s)
    ensures Consistent(job, Next(env, job, c, s, a).1)
  {
    hide NextRead, NextUpdate, NextProvision, Consistent;
    if !s.pc.Done? {
      if Reads(s.pc) {
        ReadConsistent(env, job, c, s, a);
      } else if Updates(s.pc) {
        UpdateConsistent(env, job, c, s, a);
      } else {
        ProvisionConsistent(env, job, c, s, a);
      }
    }
  }

  lemma NamesDiffer(env: Env, ns: string, other: string)
    requires ServiceName(env, ns) == ServiceName(env, other)
    ensures ns == other
  {
    assert ServiceName(env, ns)[|env.prefix + "-vkg-"|..] == ns;
    assert ServiceName(env, other)[|env.prefix + "-vkg-"|..] == other;
  }

  lemma StepKeepsUnique(env: Env, job: Job, c: Cloud, s: State, a: Answer)
    requires UniqueEntries(c)
    ensures UniqueEntries(Next(env, job, c, s, a).0)
  {
  }

  lemma StepBindsOwn(env: Env, job: Job, c: Cloud, s: State, a: Answer)
    requires Rooted(job, c, s.pc)
    ensures var d, name := Next(env, job, c, s, a).0, ServiceName(env, job.ns);
            name in d.services ==>
              EntryOf(d, d.services[name].registry, job.ns) ||
              (name in c.services && d.services[name].registry == c.services[name].registry)
  {
  }

  /** A service that is created is bound to its namespace's entry. */
  lemma StepKeepsBound(env: Env, c0: Cloud, job: Job, c: Cloud, s: State, a: Answer)
    requires Rooted(job, c, s.pc) && Bound(env, c0, c)
    ensures Bound(env, c0, Next(env, job, c, s, a).0)
  {
    var d := Next(env, job, c, s, a).0;
    StepEvolves(env, job, c, s, a);
    StepBindsOwn(env, job, c, s, a);
    forall ns ensures BoundAt(env, c0, d, ns) {
      var name := ServiceName(env, ns);
      assert BoundAt(env, c0, c, ns);
      if name == ServiceName(env, job.ns) {
        NamesDiffer(env, ns, job.ns);
      } else {
        assert Get(c.services, name) == Get(d.services, name);
      }
    }
  }

  /** What is true of a run at its place stays true while others move the cloud on. */
  lemma RootedIsStable(job: Job, c: Cloud, d: Cloud, pc: Pc)
    requires Rooted(job, c, pc) && c.taskDefs <= d.taskDefs && c.entries <= d.entries
    ensures Rooted(job, d, pc)
  {
    match pc
    case ListEntries(from) =>
      var i :| from <= i < |c.entries| && c.entries[i] == EntryName(job.ns);
      assert d.entries[i] == c.entries[i];
    case _ =>
  }

  /** So does what it knows of the service, while others with the same target move it. */
  lemma PlacedIsStable(env: Env, job: Job, c: Cloud, d: Cloud, pc: Pc)
    requires Placed(env, job, c, pc) && Evolves(c, d, job.image)
    ensures Placed(env, job, d, pc)
  {
    RootedIsStable(job, c, d, pc);
  }

  /** And while others, with whatever target, do not touch the service at all. */
  lemma PlacedApart(env: Env, job: Job, c: Cloud, d: Cloud, pc: Pc)
    requires Placed(env, job, c, pc) && c.taskDefs <= d.taskDefs && c.entries <= d.entries
    requires Get(c.services, ServiceName(env, job.ns)) == Get(d.services, ServiceName(env, job.ns))
    ensures Placed(env, job, d, pc)
  {
    hide ServiceName;
    RootedIsStable(job, c, d, pc);
    var name := ServiceName(env, job.ns);
    assert name in c.services ==> name in d.services && c.services[name] == d.services[name];
  }
}
