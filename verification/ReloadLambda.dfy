/**
 * The reload Lambda itself: its methods call by call, against an account whose calls may fail in any
 * pattern (infra/lambda/vkg-reload/index.py). Each method is proved to be a run of the machine.
 */
module ReloadLambda {
  import opened Text
  import opened ReloadCalls
  import opened ReloadProtocol
  import opened ReloadInterleaving

  /** What ReportedDigests sees of one running task: nothing, or the digest of its first container ("" if none yet). */
  function DigestsOf(arns: seq<string>, reports: map<string, string>): set<string>
  {
    set t | t in arns && t in reports :: reports[t]
  }

  /** The digests of the reported tasks, or {} when one of them has none yet; a task that is not reported is passed over. */
  function RunningDigests(arns: seq<string>, reports: map<string, string>): set<string>
  {
    if "" in DigestsOf(arns, reports) then {} else DigestsOf(arns, reports)
  }

  /** The `@sha256:` digest an image URI is pinned with. */
  function PinnedDigest(image: string): Option<string>
  {
    if |image| >= 72 && image[|image| - 72..|image| - 64] == "@sha256:" &&
       forall i :: |image| - 64 <= i < |image| ==> '0' <= image[i] <= '9' || 'a' <= image[i] <= 'f'
    then Some(image[|image| - 71..])
    else None
  }

  predicate HexText(s: string)
  {
    forall i :: 0 <= i < |s| ==> 0x30 <= s[i] as int <= 0x39 || 0x61 <= s[i] as int <= 0x66
  }

  /** An image that ends in `@sha256:` and 64 lower-case hexadecimal digits is pinned to that digest. */
  lemma PinnedIs(front: string, hex: string)
    requires |hex| == 64 && HexText(hex)
    ensures PinnedDigest(front + "@sha256:" + hex) == Some("sha256:" + hex)
  {
    var mark := "@sha256:";
    var image := front + mark + hex;
    var n := |image|;
    assert image[n - 72..n - 64] == mark && image[n - 64..] == hex;
    assert image[n - 71..] == mark[1..] + hex && mark[1..] == "sha256:";
    forall i | n - 64 <= i < n ensures image[i] == hex[i - (n - 64)] {}
  }

  /** And no other image is pinned. */
  lemma PinnedEnds(image: string)
    requires PinnedDigest(image).Some?
    ensures exists front, hex :: image == front + "@sha256:" + hex && |hex| == 64 && HexText(hex)
  {
    var n := |image|;
    var front, mark, hex := image[..n - 72], image[n - 72..n - 64], image[n - 64..];
    assert image == front + mark + hex && mark == "@sha256:";
    assert HexText(hex);
  }

  function Tagged(metrics: seq<Metric>, ns: string): (r: seq<(Metric, string)>)
    ensures |r| == |metrics|
    ensures forall i :: 0 <= i < |r| ==> r[i] == (metrics[i], ns)
  {
    seq(|metrics|, i requires 0 <= i < |metrics| => (metrics[i], ns))
  }

  /** The account the Lambda runs in. Every call may be refused, or done with its reply lost. */
  class Account {
    var cloud: Cloud
    /** The tasks ListTasks names for a service, and the digests DescribeTasks reports. */
    var tasks: map<string, seq<string>>
    var reports: map<string, string>
    /** What the registry resolves tagged ECR image URIs to. */
    var tags: map<string, string>
    /** The SSM parameter that holds the image URI. */
    var parameter: string
    /** The pages ListServices returns, as service names. */
    var pages: seq<seq<string>>
    var metrics: seq<(Metric, string)>
    ghost var faults: nat
    ghost var lookups: nat

    ghost function TargetDigest(image: string): string
      reads `tags
    {
      match PinnedDigest(image)
      case Some(d) => d
      case None => if image in tags then tags[image] else ""
    }

    ghost function ServiceDigests(name: string): set<string>
      reads `tasks, `reports
    {
      RunningDigests(if name in tasks then tasks[name] else [], reports)
    }

    method Call() returns (fault: Fault)
      modifies `faults
      ensures faults == old(faults) + if fault.Fine? then 0 else 1
    {
      fault := *;
      faults := faults + if fault.Fine? then 0 else 1;
    }

    method EmitMetric(metric: Metric, ns: string)
      modifies `metrics
      ensures metrics == old(metrics) + [(metric, ns)]
    {
      metrics := metrics + [(metric, ns)];
    }

    /** A reply that lists no deployments makes the caller fail after the update, so it counts as a fault. */
    method UpdateService(name: string, td: Option<nat>) returns (reply: Reply<()>, noDeployments: bool, fault: Fault)
      modifies `cloud, `faults
      ensures (cloud, reply) == ReloadCalls.UpdateService(old(cloud), name, td, fault)
      ensures faults == old(faults) <==> fault.Fine? && !noDeployments
      ensures faults >= old(faults)
    {
      fault := Call();
      noDeployments := *;
      faults := faults + if noDeployments then 1 else 0;
      var after := ReloadCalls.UpdateService(cloud, name, td, fault);
      cloud, reply := after.0, after.1;
    }

    method RegisterTaskDefinition(image: string) returns (reply: Reply<nat>, fault: Fault)
      modifies `cloud, `faults
      ensures (cloud, reply) == ReloadCalls.RegisterTaskDefinition(old(cloud), image, fault)
      ensures faults == old(faults) + if fault.Fine? then 0 else 1
    {
      fault := Call();
      var after := ReloadCalls.RegisterTaskDefinition(cloud, image, fault);
      cloud, reply := after.0, after.1;
    }

    method CreateEntry(entry: string) returns (reply: Reply<nat>, fault: Fault)
      modifies `cloud, `faults
      ensures (cloud, reply) == ReloadCalls.CreateEntry(old(cloud), entry, fault)
      ensures faults == old(faults) + if fault.Fine? then 0 else 1
    {
      fault := Call();
      var after := ReloadCalls.CreateEntry(cloud, entry, fault);
      cloud, reply := after.0, after.1;
    }

    method CreateService(name: string, td: nat, registry: nat) returns (reply: Reply<()>, fault: Fault)
      modifies `cloud, `faults
      ensures (cloud, reply) == ReloadCalls.CreateService(old(cloud), name, td, registry, fault)
      ensures faults == old(faults) + if fault.Fine? then 0 else 1
    {
      fault := Call();
      var after := ReloadCalls.CreateService(cloud, name, td, registry, fault);
      cloud, reply := after.0, after.1;
    }

    /** Chunks of at most 100 tasks; any failure, and any reported task without a digest, makes the whole answer unknown. */
    method RunningImageDigests(name: string) returns (digests: set<string>)
      modifies `faults
      ensures faults >= old(faults)
      ensures faults == old(faults) ==> digests == ServiceDigests(name)
      ensures digests == {} || digests == ServiceDigests(name)
    {
      var fault := Call();
      if !fault.Fine? { return {}; }
      var arns := if name in tasks then tasks[name] else [];
      if arns == [] { return {}; }
      digests := {};
      var i := 0;
      while i < |arns|
        invariant 0 <= i <= |arns|
        invariant faults == old(faults)
        invariant digests == DigestsOf(arns[..i], reports) && "" !in digests
      {
        var until := if i + 100 < |arns| then i + 100 else |arns|;
        fault := Call();
        if !fault.Fine? { return {}; }
        for j := i to until
          invariant digests == DigestsOf(arns[..j], reports) && "" !in digests
          invariant faults == old(faults)
        {
          assert arns[..j + 1] == arns[..j] + [arns[j]];
          if arns[j] in reports {
            if reports[arns[j]] == "" {
              assert arns[j] in arns;
              assert "" in DigestsOf(arns, reports);
              return {};
            }
            digests := digests + {reports[arns[j]]};
          }
        }
        i := until;
      }
      assert arns[..|arns|] == arns;
    }

    /** The digest an image URI points at now, or "" when it cannot be resolved. */
    method ResolveImageDigest(image: string) returns (digest: string)
      modifies `faults, `lookups
      ensures faults >= old(faults)
      ensures faults == old(faults) ==> digest == TargetDigest(image)
      ensures digest == "" || digest == TargetDigest(image)
      ensures old(lookups) <= lookups <= old(lookups) + 1
    {
      var pinned := PinnedDigest(image);
      if pinned.Some? { return pinned.value; }
      if image !in tags { return ""; }
      lookups := lookups + 1;
      var fault := Call();
      digest := if fault.Fine? then tags[image] else "";
    }
  }

  // ----- a method's calls are a run of the machine -----

  /**
   * The run a method has made so far: the calls answered, the state `(c, s)` they lead to, and the
   * digests a faultless run would have been told.
   */
  datatype Log = Log(
    env: Env, job: Job, c0: Cloud, s0: State, answers: seq<Answer>, c: Cloud, s: State,
    digest: string, digests: set<string>)
  {
    ghost predicate Ok()
    {
      Replay(env, job, c0, s0, answers) == (c, s)
    }

    ghost predicate Clean()
    {
      Truthful(answers, digest, digests)
    }

    /** One more call; what it is told about digests matters only for the two calls that read them. */
    ghost function Then(fault: Fault): Log
    {
      On(Answer(fault, digest, digests, 0, false))
    }

    ghost function On(a: Answer): Log
    {
      var (d, t) := Next(env, job, c, s, a);
      this.(answers := answers + [a], c := d, s := t)
    }

    lemma OnKeeps(a: Answer)
      requires Ok()
      ensures On(a).Ok()
      ensures On(a).Clean() <==> Clean() && Faithful(a, digest, digests)
    {
      ReplayConcat(env, job, c0, s0, answers, [a]);
      ReplayOne(env, job, c, s, a);
      var more := answers + [a];
      if Truthful(more, digest, digests) {
        forall i | 0 <= i < |answers| ensures Faithful(answers[i], digest, digests) { assert more[i] == answers[i]; }
        assert more[|answers|] == a;
      }
    }

    ghost predicate SameRun(log: Log)
    {
      env == log.env && job == log.job && c0 == log.c0 && s0 == log.s0 && digest == log.digest && digests == log.digests
    }

    /** The log is up to date with the account. */
    ghost predicate Tracks(acct: Account)
      reads acct`cloud, acct`tags, acct`tasks, acct`reports
    {
      && Ok() && c == acct.cloud
      && digest == acct.TargetDigest(job.image)
      && digests == acct.ServiceDigests(ServiceName(env, job.ns))
    }
  }

  /** The current image of the service, or "" when it cannot be read; reading errors are swallowed. */
  method GetCurrentServiceImage(acct: Account, env: Env, job: Job, ghost log: Log) returns (current: string, ghost next: Log)
    requires log.Tracks(acct) && log.env == env && log.job == job && log.s.pc == Describe
    modifies acct`faults
    ensures next.Tracks(acct) && next.SameRun(log) && next.s == Compare(job, log.s, current)
    ensures acct.faults >= old(acct.faults)
    ensures acct.faults == old(acct.faults) && log.Clean() ==> next.Clean()
    ensures current == "" || OnTarget(acct.cloud, ServiceName(env, job.ns), current)
  {
    var name := ServiceName(env, job.ns);
    var fault := acct.Call();
    next := log.Then(fault);
    log.OnKeeps(next.answers[|log.answers|]);
    if !fault.Fine? || name !in acct.cloud.services { return "", next; }
    var td := acct.cloud.services[name].taskDef;
    fault := acct.Call();
    ghost var described := next;
    next := described.Then(fault);
    described.OnKeeps(next.answers[|described.answers|]);
    current := if fault.Fine? && td < |acct.cloud.taskDefs| then acct.cloud.taskDefs[td] else "";
  }

  predicate HasEntry(c: Cloud, registry: nat, entry: string)
  {
    registry < |c.entries| && c.entries[registry] == entry
  }

  /** Create the namespace's Cloud Map entry, or look it up page by page. None is an exception. */
  method EnsureCloudMap(acct: Account, env: Env, job: Job, ghost log: Log)
    returns (registry: Option<nat>, vanished: bool, ghost next: Log)
    requires log.Tracks(acct) && log.env == env && log.job == job && log.s.pc == MakeEntry
    modifies acct`cloud, acct`faults
    ensures Logged(acct, log, next)
    ensures next.s == match registry
                      case Some(r) => log.s.(pc := RegisterNew(r), mutated := true)
                      case None => Finish(log.s.(mutated := true), if vanished then EntryVanished else Raised, [])
    ensures registry.Some? ==> HasEntry(acct.cloud, registry.value, "vkg-" + job.ns)
    ensures acct.faults >= old(acct.faults)
    ensures acct.faults == old(acct.faults) && log.Clean() ==> next.Clean()
  {
    hide Replay, Truthful, Account.TargetDigest, Account.ServiceDigests, NextRead, NextUpdate;
    vanished := false;
    var reply, fault := acct.CreateEntry(EntryName(job.ns));
    next := log.Then(fault);
    log.OnKeeps(next.answers[|log.answers|]);
    if reply.Ok? { return Some(reply.value), false, next; }
    if reply.error != NameTaken { return None, false, next; }
    registry, vanished, next := FindEntry(acct, env, job, next);
  }

  /** Look the namespace's entry up, page by page. */
  method FindEntry(acct: Account, env: Env, job: Job, ghost log: Log)
    returns (registry: Option<nat>, vanished: bool, ghost next: Log)
    requires log.Tracks(acct) && log.env == env && log.job == job
    requires log.s.pc == ListEntries(0) && log.s.mutated && acct.cloud.entries != []
    modifies acct`faults
    ensures Logged(acct, log, next)
    ensures next.s == match registry
                      case Some(r) => log.s.(pc := RegisterNew(r))
                      case None => Finish(log.s, if vanished then EntryVanished else Raised, [])
    ensures registry.Some? ==> HasEntry(acct.cloud, registry.value, "vkg-" + job.ns)
  {
    hide Replay, Truthful, Account.TargetDigest, Account.ServiceDigests, NextRead, NextUpdate;
    next := log;
    var from := 0;
    while from < |acct.cloud.entries|
      invariant 0 <= from <= |acct.cloud.entries|
      invariant next.Tracks(acct) && next.SameRun(log)
      invariant next.s == if from < |acct.cloud.entries| then log.s.(pc := ListEntries(from))
                          else Finish(log.s, EntryVanished, [])
      invariant acct.faults >= old(acct.faults)
      invariant acct.faults == old(acct.faults) && log.Clean() ==> next.Clean()
    {
      var extra: nat := *;
      var fault := acct.Call();
      ghost var before := next;
      next := before.On(Answer(fault, before.digest, before.digests, extra, false));
      before.OnKeeps(next.answers[|before.answers|]);
      if !fault.Fine? { return None, false, next; }
      var until := PageEnd(acct.cloud, from, extra);
      var found := FindOnPage(acct.cloud, EntryName(job.ns), from, until);
      if found.Some? { return found, false, next; }
      from := until;
    }
    return None, true, next;
  }

  /** What every logged call promises besides its own effect. */
  twostate predicate Logged(acct: Account, log: Log, next: Log)
    reads acct
  {
    && next.Tracks(acct) && next.SameRun(log)
    && acct.faults >= old(acct.faults)
    && (acct.faults == old(acct.faults) && log.Clean() ==> next.Clean())
  }

  method LoggedRegister(acct: Account, job: Job, ghost log: Log) returns (reply: Reply<nat>, ghost next: Log)
    requires log.Tracks(acct) && log.job == job && (log.s.pc == Register || log.s.pc.RegisterNew?)
    modifies acct`cloud, acct`faults
    ensures Logged(acct, log, next)
    ensures var did := log.s.(mutated := true);
            next.s == match log.s.pc
                      case RegisterNew(registry) =>
                        if reply.Ok? then did.(pc := MakeService(registry, reply.value)) else Finish(did, Failed, [ReloadFailed])
                      case _ => if reply.Ok? then did.(pc := UpdateWith(reply.value)) else Finish(did, Raised, [ReloadFailed])
    ensures acct.cloud.entries == old(acct.cloud.entries)
  {
    var fault;
    reply, fault := acct.RegisterTaskDefinition(job.image);
    next := log.Then(fault);
    log.OnKeeps(next.answers[|log.answers|]);
  }

  method LoggedUpdate(acct: Account, env: Env, job: Job, td: Option<nat>, ghost log: Log)
    returns (reply: Reply<()>, noDeployments: bool, ghost next: Log)
    requires log.Tracks(acct) && log.env == env && log.job == job
    requires match td case None => log.s.pc == UpdatePlain case Some(n) => log.s.pc == UpdateWith(n) || log.s.pc == UpdateTaken(n)
    modifies acct`cloud, acct`faults
    ensures Logged(acct, log, next)
    ensures var did := log.s.(mutated := true);
            next.s == if !log.s.pc.UpdateTaken? then AfterUpdate(env, did, reply, noDeployments)
                      else if reply.Ok? then Finish(did, Triggered, [ReloadTriggered]) else Finish(did, Raised, [])
  {
    var fault;
    reply, noDeployments, fault := acct.UpdateService(ServiceName(env, job.ns), td);
    next := log.On(Answer(fault, log.digest, log.digests, 0, noDeployments));
    log.OnKeeps(next.answers[|log.answers|]);
  }

  method LoggedCreate(acct: Account, env: Env, job: Job, registry: nat, td: nat, ghost log: Log)
    returns (reply: Reply<()>, ghost next: Log)
    requires log.Tracks(acct) && log.env == env && log.job == job && log.s.pc == MakeService(registry, td)
    modifies acct`cloud, acct`faults
    ensures Logged(acct, log, next)
    ensures var did := log.s.(mutated := true);
            next.s == match reply
                      case Ok(_) => Finish(did, Provisioned, [ReloadTriggered])
                      case Err(NameTaken) => did.(pc := UpdateTaken(td))
                      case Err(_) => Finish(did, Raised, [])
    ensures acct.cloud.entries == old(acct.cloud.entries)
    ensures reply.Ok? ==> RegisteredAt(acct.cloud, env.prefix + "-vkg-" + job.ns, td, registry)
  {
    var fault;
    reply, fault := acct.CreateService(ServiceName(env, job.ns), td, registry);
    next := log.Then(fault);
    log.OnKeeps(next.answers[|log.answers|]);
  }

  /** The service is active, with this task definition and this registry. */
  predicate RegisteredAt(c: Cloud, name: string, td: nat, registry: nat)
  {
    name in c.services && c.services[name] == Service(td, registry, true)
  }

  /** Create the service, or take over the one somebody else created meanwhile. */
  method CreateOrTakeOver(acct: Account, env: Env, job: Job, registry: nat, td: nat, ghost log: Log)
    returns (outcome: Outcome, ghost next: Log)
    requires log.Tracks(acct) && log.env == env && log.job == job && log.s.emitted == []
    requires log.s.pc == MakeService(registry, td)
    modifies acct`cloud, acct`faults, acct`metrics
    ensures Logged(acct, log, next) && next.s.pc == Done(outcome) && outcome != Unchanged
    ensures outcome == Provisioned ==>
              acct.cloud.entries == old(acct.cloud.entries) && RegisteredAt(acct.cloud, env.prefix + "-vkg-" + job.ns, td, registry)
    ensures acct.metrics == old(acct.metrics) + Tagged(next.s.emitted, job.ns)
  {
    hide Log.Tracks, Log.Clean, Account.TargetDigest, Account.ServiceDigests;
    var created;
    created, next := LoggedCreate(acct, env, job, registry, td, log);
    if created.Ok? {
      acct.EmitMetric(ReloadTriggered, job.ns);
      return Provisioned, next;
    }
    if created.error != NameTaken { return Raised, next; }
    var updated, noDeployments;
    updated, noDeployments, next := LoggedUpdate(acct, env, job, Some(td), next);
    if updated.Err? { return Raised, next; }
    acct.EmitMetric(ReloadTriggered, job.ns);
    return Triggered, next;
  }

  /** Create the Cloud Map entry, a task definition and the service. */
  method ProvisionAndDeploy(acct: Account, env: Env, job: Job, ghost log: Log) returns (outcome: Outcome, ghost next: Log)
    requires log.Tracks(acct) && log.env == env && log.job == job && log.s.emitted == []
    requires log.s.pc == if env.configured then MakeEntry else Done(Skipped)
    modifies acct`cloud, acct`faults, acct`metrics
    ensures Logged(acct, log, next) && next.s.pc == Done(outcome) && outcome != Unchanged
    ensures outcome == Provisioned ==> RegisteredUnder(acct.cloud, env.prefix + "-vkg-" + job.ns, "vkg-" + job.ns)
    ensures acct.metrics == old(acct.metrics) + Tagged(next.s.emitted, job.ns)
  {
    hide Log.Tracks, Log.Clean, Account.TargetDigest, Account.ServiceDigests;
    if !env.configured { return Skipped, log; }
    var registry, vanished;
    registry, vanished, next := EnsureCloudMap(acct, env, job, log);
    if registry.None? { return if vanished then EntryVanished else Raised, next; }
    var registered;
    registered, next := LoggedRegister(acct, job, next);
    if registered.Err? {
      acct.EmitMetric(ReloadFailed, job.ns);
      return Failed, next;
    }
    outcome, next := CreateOrTakeOver(acct, env, job, registry.value, registered.value, next);
  }

  /** Every cached digest is the right one, or a failed lookup's "". */
  ghost predicate CacheSound(acct: Account, cache: map<string, string>)
    reads acct`tags
  {
    forall k :: k in cache ==> cache[k] == "" || cache[k] == acct.TargetDigest(k)
  }

  ghost predicate CacheRight(acct: Account, cache: map<string, string>)
    reads acct`tags
  {
    forall k :: k in cache ==> cache[k] == acct.TargetDigest(k)
  }

  /** The digest the image resolves to: from the cache, or looked up once and cached, failures included. */
  method CachedDigest(acct: Account, image: string, cache: map<string, string>, caching: bool)
    returns (target: string, cache': map<string, string>)
    requires CacheSound(acct, cache)
    modifies acct`faults, acct`lookups
    ensures CacheSound(acct, cache')
    ensures target == "" || target == acct.TargetDigest(image)
    ensures acct.faults >= old(acct.faults)
    ensures acct.faults == old(acct.faults) && CacheRight(acct, cache) ==>
              target == acct.TargetDigest(image) && CacheRight(acct, cache')
    ensures caching ==> image in cache' && acct.lookups <= old(acct.lookups) + if image in cache then 0 else 1
    ensures forall k :: k in cache ==> k in cache'
  {
    cache' := cache;
    if image in cache {
      target := cache[image];
    } else {
      target := acct.ResolveImageDigest(image);
      if caching {
        cache' := cache[image := target];
      }
    }
  }

  /** Whether the sweep may leave the service alone: its tasks are known to run what the image resolves to. */
  method RunsTarget(acct: Account, env: Env, job: Job, cache: map<string, string>, caching: bool, ghost log: Log)
    returns (current: bool, cache': map<string, string>, ghost next: Log)
    requires log.Tracks(acct) && log.env == env && log.job == job && log.s.pc == ResolveDigest && CacheSound(acct, cache)
    modifies acct`faults, acct`lookups
    ensures next.Tracks(acct) && next.SameRun(log) && CacheSound(acct, cache')
    ensures next.s == if current then Finish(log.s, Unchanged, []) else log.s.(pc := UpdatePlain)
    ensures current ==> Current(acct.TargetDigest(job.image), acct.ServiceDigests(ServiceName(env, job.ns)))
    ensures acct.faults >= old(acct.faults)
    ensures acct.faults == old(acct.faults) && CacheRight(acct, cache) ==>
              CacheRight(acct, cache') && (log.Clean() ==> next.Clean())
    ensures caching ==> job.image in cache' && acct.lookups <= old(acct.lookups) + if job.image in cache then 0 else 1
    ensures forall k :: k in cache ==> k in cache'
  {
    hide Replay, Truthful, Account.TargetDigest, Account.ServiceDigests, NextUpdate, NextProvision;
    var target;
    target, cache' := CachedDigest(acct, job.image, cache, caching);
    ghost var asked := log.On(Answer(Fine, target, log.digests, 0, false));
    log.OnKeeps(asked.answers[|log.answers|]);
    var digests := acct.RunningImageDigests(ServiceName(env, job.ns));
    next := asked.On(Answer(Fine, target, digests, 0, false));
    asked.OnKeeps(next.answers[|asked.answers|]);
    current := target != "" && digests != {} && digests == {target};
  }

  /** Update an existing service, provision a missing one. */
  method UpdateOrProvision(acct: Account, env: Env, job: Job, td: Option<nat>, ghost log: Log)
    returns (outcome: Outcome, ghost next: Log)
    requires log.Tracks(acct) && log.env == env && log.job == job && log.s.emitted == []
    requires match td case None => log.s.pc == UpdatePlain case Some(n) => log.s.pc == UpdateWith(n)
    modifies acct`cloud, acct`faults, acct`metrics
    ensures Logged(acct, log, next) && next.s.pc == Done(outcome) && outcome != Unchanged
    ensures acct.metrics == old(acct.metrics) + Tagged(next.s.emitted, job.ns)
  {
    hide Log.Tracks, Log.Clean, Account.TargetDigest, Account.ServiceDigests;
    var reply, noDeployments;
    reply, noDeployments, next := LoggedUpdate(acct, env, job, td, log);
    if reply.Err? && (reply.error == NotFound || reply.error == NotActive) {
      outcome, next := ProvisionAndDeploy(acct, env, job, next);
    } else if reply.Err? || noDeployments {
      acct.EmitMetric(ReloadFailed, job.ns);
      outcome := Raised;
    } else {
      acct.EmitMetric(ReloadTriggered, job.ns);
      outcome := Triggered;
    }
  }

  /** Restart the service, on a new revision of its task definition when that names another image. */
  method Restart(acct: Account, env: Env, job: Job, currentImage: string, ghost log: Log)
    returns (outcome: Outcome, ghost next: Log)
    requires log.Tracks(acct) && log.env == env && log.job == job && log.s.emitted == []
    requires log.s.pc == if currentImage == job.image then UpdatePlain else Register
    modifies acct`cloud, acct`faults, acct`metrics
    ensures Logged(acct, log, next) && next.s.pc == Done(outcome) && outcome != Unchanged
    ensures acct.metrics == old(acct.metrics) + Tagged(next.s.emitted, job.ns)
  {
    hide Log.Tracks, Log.Clean, Account.TargetDigest, Account.ServiceDigests;
    if currentImage == job.image {
      outcome, next := UpdateOrProvision(acct, env, job, None, log);
    } else {
      var registered;
      registered, next := LoggedRegister(acct, job, log);
      if registered.Err? {
        acct.EmitMetric(ReloadFailed, job.ns);
        return Raised, next;
      }
      outcome, next := UpdateOrProvision(acct, env, job, Some(registered.value), next);
    }
  }

  /** Reconcile one namespace's service to the image, known to be nonempty. */
  method Reconcile(
      acct: Account, env: Env, job: Job, cache: map<string, string>, caching: bool, ghost log: Log)
    returns (outcome: Outcome, cache': map<string, string>, ghost next: Log)
    requires log.Tracks(acct) && log.env == env && log.job == job && CacheSound(acct, cache)
    requires log.s.pc == Describe && log.s.emitted == []
    modifies acct`cloud, acct`faults, acct`lookups, acct`metrics
    ensures next.Tracks(acct) && next.SameRun(log) && next.s.pc == Done(outcome) && CacheSound(acct, cache')
    ensures acct.metrics == old(acct.metrics) + Tagged(next.s.emitted, job.ns)
    ensures outcome == Unchanged ==> Current(acct.TargetDigest(job.image), acct.ServiceDigests(ServiceName(env, job.ns)))
    ensures acct.faults >= old(acct.faults)
    ensures acct.faults == old(acct.faults) && CacheRight(acct, cache) ==>
              CacheRight(acct, cache') && (log.Clean() ==> next.Clean())
    ensures caching ==>
              acct.lookups <= old(acct.lookups) + if job.image in cache' && job.image !in cache then 1 else 0
    ensures forall k :: k in cache ==> k in cache'
  {
    hide Log.Tracks, Log.Clean, Account.TargetDigest, Account.ServiceDigests;
    cache' := cache;
    var currentImage;
    currentImage, next := GetCurrentServiceImage(acct, env, job, log);
    if currentImage == job.image && !job.restartIfCurrent {
      var current;
      current, cache', next := RunsTarget(acct, env, job, cache', caching, next);
      if current { return Unchanged, cache', next; }
    }
    outcome, next := Restart(acct, env, job, currentImage, next);
  }

  /** What a finished run says about the account, whichever calls failed. */
  lemma Finished(log: Log, outcome: Outcome)
    requires log.Ok() && log.s.pc == Done(outcome)
    requires log.s0 == Start(true) || (log.s0 == Start(false) && log.job.image != "")
    ensures var name := ServiceName(log.env, log.job.ns);
            && outcome != EntryVanished
            && (Settles(outcome) ==> OnTarget(log.c, name, log.job.image))
            && Evolves(log.c0, log.c, log.job.image) && OnlyTouches(log.c0, log.c, name)
            && (outcome == Unchanged ==> log.c == log.c0 && !log.job.restartIfCurrent)
    ensures log.s.emitted == match outcome
                             case Triggered => [ReloadTriggered]
                             case Provisioned => [ReloadTriggered]
                             case Failed => [ReloadFailed]
                             case Raised => if log.s.provisioning then [] else [ReloadFailed]
                             case _ => []
    ensures Active(log.env, log.c0, log.job.ns) ==> !log.s.provisioning
    ensures log.Clean() ==> outcome == Fate(log.env, log.job, log.c0, log.s0.pc, log.digest, log.digests)
  {
    ReplayKeeps(log.env, log.job, log.c0, log.s0, log.answers);
    ReplayEvolves(log.env, log.job, log.c0, log.s0, log.answers);
    if Active(log.env, log.c0, log.job.ns) {
      NeverProvisions(log.env, log.job, log.c0, log.s0, log.answers);
    }
    if log.Clean() {
      ReplayFate(log.env, log.job, log.c0, log.s0, log.answers, log.digest, log.digests);
    }
  }

  /**
   * Reconcile a single namespace. The target image is the one handed over, or else the SSM parameter's.
   * Whatever fails: at most one metric, and it agrees with the outcome; only the namespace's own
   * service is touched; `unchanged` means nothing was written and the running digest is the target's.
   */
  method ReloadOne(
      acct: Account, env: Env, ns: string, given: Option<string>, restartIfCurrent: bool,
      cache: map<string, string>, caching: bool)
    returns (outcome: Outcome, cache': map<string, string>, ghost image: string)
    requires CacheSound(acct, cache)
    modifies acct`cloud, acct`faults, acct`lookups, acct`metrics
    ensures given == Some("") ==> outcome == Failed && acct.cloud == old(acct.cloud)
    ensures image == if given.Some? then given.value else acct.parameter
    ensures outcome == Triggered || outcome == Provisioned ==> acct.metrics == old(acct.metrics) + [(ReloadTriggered, ns)]
    ensures outcome == Failed ==> acct.metrics == old(acct.metrics) + [(ReloadFailed, ns)]
    ensures outcome == Unchanged || outcome == Skipped ==> acct.metrics == old(acct.metrics)
    ensures outcome == Raised ==>
              acct.metrics == old(acct.metrics) + [(ReloadFailed, ns)] ||
              (!old(Active(env, acct.cloud, ns)) && acct.metrics == old(acct.metrics))
    ensures outcome != EntryVanished
    ensures Settles(outcome) ==> OnTarget(acct.cloud, ServiceName(env, ns), image)
    ensures outcome == Unchanged ==>
              acct.cloud == old(acct.cloud) && !restartIfCurrent &&
              Current(acct.TargetDigest(image), acct.ServiceDigests(ServiceName(env, ns)))
    ensures Evolves(old(acct.cloud), acct.cloud, image) && OnlyTouches(old(acct.cloud), acct.cloud, ServiceName(env, ns))
    ensures acct.faults >= old(acct.faults)
    ensures acct.faults == old(acct.faults) && CacheRight(acct, cache) && given != Some("") ==>
              CacheRight(acct, cache') &&
              outcome == Fate(env, Job(ns, image, restartIfCurrent), old(acct.cloud), Start(given.None?).pc,
                              acct.TargetDigest(image), acct.ServiceDigests(ServiceName(env, ns)))
    ensures CacheSound(acct, cache')
    ensures caching ==> acct.lookups <= old(acct.lookups) + if image in cache' && image !in cache then 1 else 0
    ensures forall k :: k in cache ==> k in cache'
  {
    image := if given.Some? then given.value else acct.parameter;
    if given == Some("") {
      acct.EmitMetric(ReloadFailed, ns);
      return Failed, cache, image;
    }
    ghost var s0 := Start(given.None?);
    ghost var log := Log(env, Job(ns, image, restartIfCurrent), acct.cloud, s0, [], acct.cloud, s0,
                         acct.TargetDigest(image), acct.ServiceDigests(ServiceName(env, ns)));
    hide Replay, Next, Truthful, Account.TargetDigest, Account.ServiceDigests;
    Begun(log);
    outcome, cache', log := RunReload(acct, env, ns, given, restartIfCurrent, cache, caching, log);
    Finished(log, outcome);
  }

  /** The reload as a run of the machine: resolve the image if none is given, then reconcile. */
  method RunReload(
      acct: Account, env: Env, ns: string, given: Option<string>, restartIfCurrent: bool,
      cache: map<string, string>, caching: bool, ghost log: Log)
    returns (outcome: Outcome, cache': map<string, string>, ghost next: Log)
    requires log.Tracks(acct) && log.env == env && CacheSound(acct, cache)
    requires log.job == Job(ns, if given.Some? then given.value else acct.parameter, restartIfCurrent)
    requires log.s == Start(given.None?) && given != Some("")
    modifies acct`cloud, acct`faults, acct`lookups, acct`metrics
    ensures next.Tracks(acct) && next.SameRun(log) && next.s.pc == Done(outcome) && CacheSound(acct, cache')
    ensures acct.metrics == old(acct.metrics) + Tagged(next.s.emitted, ns)
    ensures outcome == Unchanged ==> Current(acct.TargetDigest(log.job.image), acct.ServiceDigests(ServiceName(env, ns)))
    ensures acct.faults >= old(acct.faults)
    ensures acct.faults == old(acct.faults) && CacheRight(acct, cache) ==>
              CacheRight(acct, cache') && (log.Clean() ==> next.Clean())
    ensures caching ==>
              acct.lookups <= old(acct.lookups) + if log.job.image in cache' && log.job.image !in cache then 1 else 0
    ensures forall k :: k in cache ==> k in cache'
  {
    hide Log.Tracks, Log.Clean, Account.TargetDigest, Account.ServiceDigests;
    cache', next := cache, log;
    var image;
    if given.Some? {
      image := given.value;
    } else {
      image, next := LoggedResolve(acct, log);
      if image == "" {
        acct.EmitMetric(ReloadFailed, ns);
        return Failed, cache', next;
      }
    }
    outcome, cache', next := Reconcile(acct, env, Job(ns, image, restartIfCurrent), cache', caching, next);
  }

  lemma Begun(log: Log)
    requires log.answers == [] && log.c == log.c0 && log.s == log.s0
    ensures log.Ok() && log.Clean()
  {
  }

  /** The image URI from SSM, "" when it is not set or cannot be read. */
  method LoggedResolve(acct: Account, ghost log: Log) returns (image: string, ghost next: Log)
    requires log.Tracks(acct) && log.s.pc == ResolveImage && log.job.image == acct.parameter
    modifies acct`faults
    ensures Logged(acct, log, next)
    ensures image == "" || image == acct.parameter
    ensures next.s == if image == "" then Finish(log.s, Failed, [ReloadFailed]) else log.s.(pc := Describe)
  {
    var fault := acct.Call();
    next := log.Then(fault);
    log.OnKeeps(next.answers[|log.answers|]);
    image := if fault.Fine? then acct.parameter else "";
  }
}
