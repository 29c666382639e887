/** Whole runs of the reload machine: one alone, and any number interleaved (infra/lambda/vkg-reload/index.py). */
module ReloadInterleaving {
  import opened Text
  import opened ReloadCalls
  import opened ReloadProtocol

  // ----- one run alone -----

  function Replay(env: Env, job: Job, c: Cloud, s: State, answers: seq<Answer>): (Cloud, State)
    decreases |answers|
  {
    if answers == [] then (c, s)
    else
      var (d, t) := Next(env, job, c, s, answers[0]);
      Replay(env, job, d, t, answers[1..])
  }

  lemma {:induction false} ReplayConcat(env: Env, job: Job, c: Cloud, s: State, a: seq<Answer>, b: seq<Answer>)
    ensures Replay(env, job, c, s, a + b) ==
            var (d, t) := Replay(env, job, c, s, a); Replay(env, job, d, t, b)
    decreases |a|
  {
    if a == [] {
      assert a + b == b;
    } else {
      var (d, t) := Next(env, job, c, s, a[0]);
      assert (a + b)[1..] == a[1..] + b;
      ReplayConcat(env, job, d, t, a[1..], b);
    }
  }

  lemma ReplayOne(env: Env, job: Job, c: Cloud, s: State, a: Answer)
    ensures Replay(env, job, c, s, [a]) == Next(env, job, c, s, a)
  {
    assert [a][1..] == [];
  }

  /** A run alone keeps its place and its reports, and leaves every other service as it was. */
  lemma {:induction false} ReplayKeeps(env: Env, job: Job, c: Cloud, s: State, answers: seq<Answer>)
    requires Placed(env, job, c, s.pc) && Consistent(job, s)
    ensures var (d, t) := Replay(env, job, c, s, answers);
            && Placed(env, job, d, t.pc) && Consistent(job, t)
            && OnlyTouches(c, d, ServiceName(env, job.ns))
            && (!t.mutated ==> d == c)
    decreases |answers|
  {
    if answers != [] {
      var (d, t) := Next(env, job, c, s, answers[0]);
      StepEvolves(env, job, c, s, answers[0]);
      StepPlaced(env, job, c, s, answers[0]);
      StepConsistent(env, job, c, s, answers[0]);
      ReplayKeeps(env, job, d, t, answers[1..]);
      MutatedStays(env, job, d, t, answers[1..]);
    }
  }

  lemma {:induction false} MutatedStays(env: Env, job: Job, c: Cloud, s: State, answers: seq<Answer>)
    ensures s.mutated ==> Replay(env, job, c, s, answers).1.mutated
    decreases |answers|
  {
    if answers != [] {
      var (d, t) := Next(env, job, c, s, answers[0]);
      MutatedStays(env, job, d, t, answers[1..]);
    }
  }

  // ----- what a run does when nothing goes wrong -----

  /** No call fails, and every read of a digest reports these. */
  ghost predicate Truthful(answers: seq<Answer>, digest: string, digests: set<string>)
  {
    forall i :: 0 <= i < |answers| ==> Faithful(answers[i], digest, digests)
  }

  predicate Faithful(a: Answer, digest: string, digests: set<string>)
  {
    a.fault.Fine? && !a.noDeployments && a.digest == digest && a.digests == digests
  }

  /** The running tasks are known to carry exactly the digest the image resolves to. */
  predicate Current(digest: string, digests: set<string>)
  {
    digest != "" && digests == {digest}
  }

  function UpdateFate(env: Env, job: Job, c: Cloud): Outcome
  {
    if Active(env, c, job.ns) then Triggered else if env.configured then Provisioned else Skipped
  }

  /** What becomes of a run at a given call if nothing goes wrong from there on. */
  function Fate(env: Env, job: Job, c: Cloud, pc: Pc, digest: string, digests: set<string>): Outcome
  {
    match pc
    case Done(outcome) => outcome
    case ResolveImage => if job.image == "" then Failed else SweepFate(env, job, c, digest, digests)
    case Describe => SweepFate(env, job, c, digest, digests)
    case DescribeTaskDef(_) => SweepFate(env, job, c, digest, digests)
    case ResolveDigest => SweepFate(env, job, c, digest, digests)
    case ReadDigests(_) => SweepFate(env, job, c, digest, digests)
    case UpdatePlain => UpdateFate(env, job, c)
    case Register => UpdateFate(env, job, c)
    case UpdateWith(_) => UpdateFate(env, job, c)
    case _ => Provisioned
  }

  /** Left alone exactly when restarting is not asked for, the image is the target and the running digest is known current. */
  function SweepFate(env: Env, job: Job, c: Cloud, digest: string, digests: set<string>): Outcome
  {
    if !job.restartIfCurrent && ImageOf(c, ServiceName(env, job.ns)) == job.image && Current(digest, digests)
    then Unchanged
    else UpdateFate(env, job, c)
  }

  /** Where a run alone can be: what it has read still holds, because nobody else writes. */
  ghost predicate Alone(env: Env, job: Job, c: Cloud, pc: Pc, digest: string)
  {
    var name := ServiceName(env, job.ns);
    match pc
    case DescribeTaskDef(td) => name in c.services && c.services[name].taskDef == td
    case ResolveDigest => !job.restartIfCurrent
    case ReadDigests(target) => !job.restartIfCurrent && target == digest
    case MakeEntry => !Active(env, c, job.ns)
    case ListEntries(_) => !Active(env, c, job.ns)
    case RegisterNew(_) => !Active(env, c, job.ns)
    case MakeService(_, _) => !Active(env, c, job.ns)
    case UpdateTaken(_) => false
    case _ => true
  }

  lemma ReadFate(env: Env, job: Job, c: Cloud, s: State, a: Answer)
    requires Placed(env, job, c, s.pc) && Alone(env, job, c, s.pc, a.digest) && Reads(s.pc)
    requires Faithful(a, a.digest, a.digests)
    ensures var t := NextRead(env, job, c, s, a);
            Alone(env, job, c, t.pc, a.digest) &&
            Fate(env, job, c, t.pc, a.digest, a.digests) == Fate(env, job, c, s.pc, a.digest, a.digests)
  {
    hide ServiceName, UpdateFate;
  }

  lemma UpdateStepFate(env: Env, job: Job, c: Cloud, s: State, a: Answer)
    requires Placed(env, job, c, s.pc) && Alone(env, job, c, s.pc, a.digest) && Updates(s.pc)
    requires Faithful(a, a.digest, a.digests)
    ensures var (d, t) := NextUpdate(env, job, c, s, a);
            Alone(env, job, d, t.pc, a.digest) &&
            Fate(env, job, d, t.pc, a.digest, a.digests) == Fate(env, job, c, s.pc, a.digest, a.digests)
  {
    hide ServiceName, SweepFate;
  }

  lemma ProvisionFate(env: Env, job: Job, c: Cloud, s: State, a: Answer)
    requires Placed(env, job, c, s.pc) && Alone(env, job, c, s.pc, a.digest)
    requires !Reads(s.pc) && !Updates(s.pc) && !s.pc.Done? && Faithful(a, a.digest, a.digests)
    ensures var (d, t) := NextProvision(env, job, c, s, a);
            Alone(env, job, d, t.pc, a.digest) &&
            Fate(env, job, d, t.pc, a.digest, a.digests) == Fate(env, job, c, s.pc, a.digest, a.digests)
  {
    hide ServiceName, SweepFate, UpdateFate;
    if s.pc.ListEntries? { PagePlaced(env, job, c, s, s.pc.from, a); }
  }

  lemma StepFate(env: Env, job: Job, c: Cloud, s: State, a: Answer)
    requires Placed(env, job, c, s.pc) && Alone(env, job, c, s.pc, a.digest)
    requires Faithful(a, a.digest, a.digests)
    ensures var (d, t) := Next(env, job, c, s, a);
            Alone(env, job, d, t.pc, a.digest) &&
            Fate(env, job, d, t.pc, a.digest, a.digests) == Fate(env, job, c, s.pc, a.digest, a.digests)
  {
    hide NextRead, NextUpdate, NextProvision, Placed, Fate, Alone;
    if !s.pc.Done? {
      if Reads(s.pc) {
        ReadFate(env, job, c, s, a);
      } else if Updates(s.pc) {
        UpdateStepFate(env, job, c, s, a);
      } else {
        ProvisionFate(env, job, c, s, a);
      }
    }
  }

  /** A run that meets no fault ends as its fate says: the machine refines the one-line rule of the sweep. */
  lemma {:induction false} ReplayFate(
      env: Env, job: Job, c: Cloud, s: State, answers: seq<Answer>, digest: string, digests: set<string>)
    requires Placed(env, job, c, s.pc) && Alone(env, job, c, s.pc, digest)
    requires Truthful(answers, digest, digests)
    ensures var (d, t) := Replay(env, job, c, s, answers);
            Fate(env, job, d, t.pc, digest, digests) == Fate(env, job, c, s.pc, digest, digests)
    decreases |answers|
  {
    if answers != [] {
      var (d, t) := Next(env, job, c, s, answers[0]);
      assert Faithful(answers[0], digest, digests);
      StepPlaced(env, job, c, s, answers[0]);
      StepFate(env, job, c, s, answers[0]);
      forall i | 0 <= i < |answers[1..]| ensures Faithful(answers[1..][i], digest, digests) {
        assert answers[1..][i] == answers[i + 1];
      }
      ReplayFate(env, job, d, t, answers[1..], digest, digests);
    }
  }

  lemma {:induction false} ReplayEvolves(env: Env, job: Job, c: Cloud, s: State, answers: seq<Answer>)
    requires Placed(env, job, c, s.pc)
    ensures Evolves(c, Replay(env, job, c, s, answers).0, job.image)
    decreases |answers|
  {
    if answers != [] {
      var (d, t) := Next(env, job, c, s, answers[0]);
      StepEvolves(env, job, c, s, answers[0]);
      StepPlaced(env, job, c, s, answers[0]);
      ReplayEvolves(env, job, d, t, answers[1..]);
      EvolvesTransitive(c, d, Replay(env, job, d, t, answers[1..]).0, job.image);
    }
  }

  lemma EvolvesTransitive(c: Cloud, d: Cloud, e: Cloud, image: string)
    requires Evolves(c, d, image) && Evolves(d, e, image)
    ensures image != "" ==> Evolves(c, e, image)
  {
  }

  // ----- when a raised reload has been reported -----

  predicate Active(env: Env, c: Cloud, ns: string)
  {
    var name := ServiceName(env, ns);
    name in c.services && c.services[name].active
  }

  /** Whatever goes wrong, a reload that ends by raising has emitted `ReloadFailed`. */
  ghost predicate RaisesAreReported(env: Env, job: Job, c: Cloud)
  {
    forall answers ::
      var s := Replay(env, job, c, Start(true), answers).1;
      s.pc == Done(Raised) ==> s.emitted == [ReloadFailed]
  }

  lemma {:induction false} NeverProvisions(env: Env, job: Job, c: Cloud, s: State, answers: seq<Answer>)
    requires Active(env, c, job.ns) || !env.configured
    requires Consistent(job, s) && !s.provisioning
    ensures !Replay(env, job, c, s, answers).1.provisioning
    ensures Consistent(job, Replay(env, job, c, s, answers).1)
    decreases |answers|
  {
    if answers != [] {
      var (d, t) := Next(env, job, c, s, answers[0]);
      StepConsistent(env, job, c, s, answers[0]);
      NeverProvisions(env, job, d, t, answers[1..]);
    }
  }

  /** No service to update, then a refused call while provisioning: the exception leaves no metric behind. */
  lemma SilentFailure(env: Env, job: Job, c: Cloud) returns (answers: seq<Answer>)
    requires env.configured && !Active(env, c, job.ns) && job.image != ""
    ensures var s := Replay(env, job, c, Start(true), answers).1; s.pc == Done(Raised) && s.emitted == []
  {
    hide Next;
    var fine := Answer(Fine, "", {}, 0, false);
    var refused := Answer(Refused, "", {}, 0, false);
    SilentCalls(env, job, c, fine, refused);
    // Image resolved, current image unreadable, a revision registered, no service to update, no Cloud Map entry.
    answers := [fine] + ([refused] + ([fine] + ([fine] + [refused])));
    ReplayCons(env, job, c, Start(true), fine, [refused] + ([fine] + ([fine] + [refused])));
    var (c1, s1) := Next(env, job, c, Start(true), fine);
    ReplayCons(env, job, c1, s1, refused, [fine] + ([fine] + [refused]));
    var (c2, s2) := Next(env, job, c1, s1, refused);
    ReplayCons(env, job, c2, s2, fine, [fine] + [refused]);
    var (c3, s3) := Next(env, job, c2, s2, fine);
    ReplayCons(env, job, c3, s3, fine, [refused]);
    var (c4, s4) := Next(env, job, c3, s3, fine);
    ReplayOne(env, job, c4, s4, refused);
  }

  lemma ReplayCons(env: Env, job: Job, c: Cloud, s: State, a: Answer, rest: seq<Answer>)
    ensures Replay(env, job, c, s, [a] + rest) == var (d, t) := Next(env, job, c, s, a); Replay(env, job, d, t, rest)
  {
    ReplayConcat(env, job, c, s, [a], rest);
    ReplayOne(env, job, c, s, a);
  }

  lemma SilentCalls(env: Env, job: Job, c: Cloud, fine: Answer, refused: Answer)
    requires env.configured && !Active(env, c, job.ns) && job.image != ""
    requires fine == Answer(Fine, "", {}, 0, false) && refused == Answer(Refused, "", {}, 0, false)
    ensures var (c1, s1) := Next(env, job, c, Start(true), fine);
            var (c2, s2) := Next(env, job, c1, s1, refused);
            var (c3, s3) := Next(env, job, c2, s2, fine);
            var (c4, s4) := Next(env, job, c3, s3, fine);
            var (_, s5) := Next(env, job, c4, s4, refused);
            s5.pc == Done(Raised) && s5.emitted == []
  {
    hide ServiceName, EntryName;
    var (c1, s1) := Next(env, job, c, Start(true), fine);
    var (c2, s2) := Next(env, job, c1, s1, refused);
    assert s2.pc == Register;
    var (c3, s3) := Next(env, job, c2, s2, fine);
    var (c4, s4) := Next(env, job, c3, s3, fine);
    assert s4.pc == MakeEntry;
  }

  lemma {:induction false} DoneReplay(env: Env, job: Job, c: Cloud, s: State, answers: seq<Answer>)
    requires s.pc.Done?
    ensures Replay(env, job, c, s, answers) == (c, s)
    decreases |answers|
  {
    if answers != [] { DoneReplay(env, job, c, s, answers[1..]); }
  }

  /**
   * The handler promises that an unexpected error is re-raised after `ReloadFailed` is emitted. That holds
   * exactly when there is no image to go for, or an active service to update, or provisioning is not configured.
   */
  lemma RaisesAreReportedIff(env: Env, job: Job, c: Cloud)
    ensures RaisesAreReported(env, job, c) <==> job.image == "" || Active(env, c, job.ns) || !env.configured
  {
    if job.image == "" {
      forall answers ensures Replay(env, job, c, Start(true), answers).1.pc != Done(Raised) {
        if answers != [] {
          var (d, t) := Next(env, job, c, Start(true), answers[0]);
          DoneReplay(env, job, d, t, answers[1..]);
        }
      }
    } else if Active(env, c, job.ns) || !env.configured {
      forall answers ensures var s := Replay(env, job, c, Start(true), answers).1;
                             s.pc == Done(Raised) ==> s.emitted == [ReloadFailed] {
        NeverProvisions(env, job, c, Start(true), answers);
      }
    } else {
      var answers := SilentFailure(env, job, c);
      assert !RaisesAreReported(env, job, c);
    }
  }

  // ----- any number of runs, call by call -----

  datatype World = World(cloud: Cloud, states: seq<State>)

  /** `schedule` says, call by call, whose call it is and how it comes back. */
  function Execute(env: Env, jobs: seq<Job>, w: World, schedule: seq<(nat, Answer)>): (r: World)
    requires |w.states| == |jobs|
    ensures |r.states| == |jobs|
    decreases |schedule|
  {
    if schedule == [] then w
    else Execute(env, jobs, Step(env, jobs, w, schedule[0].0, schedule[0].1), schedule[1..])
  }

  function Step(env: Env, jobs: seq<Job>, w: World, i: nat, a: Answer): (r: World)
    requires |w.states| == |jobs|
    ensures |r.states| == |jobs|
  {
    if i < |jobs| then
      var (d, t) := Next(env, jobs[i], w.cloud, w.states[i], a);
      World(d, w.states[i := t])
    else w
  }

  lemma {:induction false} ExecuteConcat(env: Env, jobs: seq<Job>, w: World, a: seq<(nat, Answer)>, b: seq<(nat, Answer)>)
    requires |w.states| == |jobs|
    ensures Execute(env, jobs, w, a + b) == Execute(env, jobs, Execute(env, jobs, w, a), b)
    decreases |a|
  {
    if a == [] {
      assert a + b == b;
    } else {
      assert (a + b)[1..] == a[1..] + b;
      ExecuteConcat(env, jobs, Step(env, jobs, w, a[0].0, a[0].1), a[1..], b);
    }
  }

  /** What holds of every run, whatever the targets. */
  ghost predicate Inv(env: Env, c0: Cloud, jobs: seq<Job>, w: World)
  {
    && |w.states| == |jobs|
    && (forall i :: 0 <= i < |jobs| ==> Rooted(jobs[i], w.cloud, w.states[i].pc) && Consistent(jobs[i], w.states[i]))
    && Bound(env, c0, w.cloud)
    && UniqueEntries(w.cloud)
  }

  /** The reloads of one namespace go for one image; those of other namespaces go for whatever they like. */
  ghost predicate OneTarget(jobs: seq<Job>, ns: string, image: string)
  {
    forall i :: 0 <= i < |jobs| && jobs[i].ns == ns ==> jobs[i].image == image
  }

  /** What the runs of this namespace have read of its service still holds. */
  ghost predicate Held(env: Env, jobs: seq<Job>, w: World, ns: string)
  {
    |w.states| == |jobs| &&
    forall i :: 0 <= i < |jobs| && jobs[i].ns == ns ==> Placed(env, jobs[i], w.cloud, w.states[i].pc)
  }

  lemma StepInv(env: Env, c0: Cloud, jobs: seq<Job>, w: World, i: nat, a: Answer)
    requires Inv(env, c0, jobs, w)
    ensures Inv(env, c0, jobs, Step(env, jobs, w, i, a))
  {
    hide Rooted, Consistent, Bound, UniqueEntries, Next;
    if i < |jobs| {
      var v := Step(env, jobs, w, i, a);
      StepEvolves(env, jobs[i], w.cloud, w.states[i], a);
      StepRooted(env, jobs[i], w.cloud, w.states[i], a);
      StepConsistent(env, jobs[i], w.cloud, w.states[i], a);
      StepKeepsBound(env, c0, jobs[i], w.cloud, w.states[i], a);
      StepKeepsUnique(env, jobs[i], w.cloud, w.states[i], a);
      forall j | 0 <= j < |jobs| ensures Rooted(jobs[j], v.cloud, v.states[j].pc) && Consistent(jobs[j], v.states[j]) {
        if j != i { RootedIsStable(jobs[j], w.cloud, v.cloud, w.states[j].pc); }
      }
    }
  }

  lemma StepHeld(env: Env, c0: Cloud, jobs: seq<Job>, w: World, i: nat, a: Answer, ns: string, image: string)
    requires Inv(env, c0, jobs, w) && Held(env, jobs, w, ns) && OneTarget(jobs, ns, image)
    ensures Held(env, jobs, Step(env, jobs, w, i, a), ns)
  {
    hide Placed, Rooted, Consistent, Bound, UniqueEntries, Next;
    if i < |jobs| {
      var v := Step(env, jobs, w, i, a);
      StepEvolves(env, jobs[i], w.cloud, w.states[i], a);
      forall j | 0 <= j < |jobs| && jobs[j].ns == ns ensures Placed(env, jobs[j], v.cloud, v.states[j].pc) {
        if j == i {
          StepPlaced(env, jobs[i], w.cloud, w.states[i], a);
        } else if jobs[i].ns == ns {
          PlacedIsStable(env, jobs[j], w.cloud, v.cloud, w.states[j].pc);
        } else {
          if ServiceName(env, ns) == ServiceName(env, jobs[i].ns) { NamesDiffer(env, ns, jobs[i].ns); }
          PlacedApart(env, jobs[j], w.cloud, v.cloud, w.states[j].pc);
        }
      }
    }
  }

  lemma {:induction false} ExecuteInv(env: Env, c0: Cloud, jobs: seq<Job>, w: World, schedule: seq<(nat, Answer)>)
    requires Inv(env, c0, jobs, w)
    ensures Inv(env, c0, jobs, Execute(env, jobs, w, schedule))
    decreases |schedule|
  {
    if schedule != [] {
      StepInv(env, c0, jobs, w, schedule[0].0, schedule[0].1);
      ExecuteInv(env, c0, jobs, Step(env, jobs, w, schedule[0].0, schedule[0].1), schedule[1..]);
    }
  }

  lemma {:induction false} ExecuteHeld(
      env: Env, c0: Cloud, jobs: seq<Job>, w: World, schedule: seq<(nat, Answer)>, ns: string, image: string)
    requires Inv(env, c0, jobs, w) && Held(env, jobs, w, ns) && OneTarget(jobs, ns, image)
    ensures Held(env, jobs, Execute(env, jobs, w, schedule), ns)
    decreases |schedule|
  {
    hide Rooted, Placed, Consistent, Bound, OneTarget, Step;
    if schedule != [] {
      StepInv(env, c0, jobs, w, schedule[0].0, schedule[0].1);
      StepHeld(env, c0, jobs, w, schedule[0].0, schedule[0].1, ns, image);
      ExecuteHeld(env, c0, jobs, Step(env, jobs, w, schedule[0].0, schedule[0].1), schedule[1..], ns, image);
    }
  }

  lemma {:induction false} DoneStays(env: Env, jobs: seq<Job>, w: World, schedule: seq<(nat, Answer)>, i: nat)
    requires |w.states| == |jobs| && i < |jobs| && w.states[i].pc.Done?
    ensures Execute(env, jobs, w, schedule).states[i] == w.states[i]
    decreases |schedule|
  {
    if schedule != [] {
      DoneStays(env, jobs, Step(env, jobs, w, schedule[0].0, schedule[0].1), schedule[1..], i);
    }
  }

  /** Each reload before its first call; those that do not resolve the image were handed it by a sweep. */
  ghost predicate Fresh(jobs: seq<Job>, c0: Cloud, w: World)
  {
    && w.cloud == c0 && |w.states| == |jobs|
    && forall i :: 0 <= i < |jobs| ==>
         w.states[i] == Start(true) || (w.states[i] == Start(false) && jobs[i].image != "")
  }

  lemma FreshInv(env: Env, c0: Cloud, jobs: seq<Job>, w: World, ns: string)
    requires Fresh(jobs, c0, w) && UniqueEntries(c0)
    ensures Inv(env, c0, jobs, w) && Held(env, jobs, w, ns)
  {
  }

  /**
   * Any number of reloads, interleaved call by call under any faults. Whatever their targets: every service
   * created is bound to the one Cloud Map entry of its namespace, the entry is never missed, and outcomes
   * and metrics agree. If the reloads of a namespace have one target image, and one of them has returned
   * `reload_triggered`, `provisioned` or `unchanged`, its service is on that image then and in every later state.
   */
  lemma InterleavedReloadsAreSafe(
      env: Env, c0: Cloud, jobs: seq<Job>, w0: World, now: seq<(nat, Answer)>, later: seq<(nat, Answer)>, i: nat)
    requires Fresh(jobs, c0, w0) && UniqueEntries(c0) && i < |jobs|
    ensures var w := Execute(env, jobs, w0, now);
            var v := Execute(env, jobs, w0, now + later);
            && Bound(env, c0, v.cloud) && UniqueEntries(v.cloud)
            && Consistent(jobs[i], v.states[i]) && v.states[i].pc != Done(EntryVanished)
            && (w.states[i].pc.Done? ==> v.states[i] == w.states[i])
            && (OneTarget(jobs, jobs[i].ns, jobs[i].image) && w.states[i].pc.Done? && Settles(w.states[i].pc.outcome) ==>
                  OnTarget(v.cloud, ServiceName(env, jobs[i].ns), jobs[i].image))
  {
    hide Bound, UniqueEntries, Consistent, Step, Fresh;
    var ns, image := jobs[i].ns, jobs[i].image;
    FreshInv(env, c0, jobs, w0, ns);
    var w := Execute(env, jobs, w0, now);
    ExecuteInv(env, c0, jobs, w0, now);
    ExecuteInv(env, c0, jobs, w, later);
    ExecuteConcat(env, jobs, w0, now, later);
    var v := Execute(env, jobs, w, later);
    if w.states[i].pc.Done? { DoneStays(env, jobs, w, later, i); }
    assert Rooted(jobs[i], v.cloud, v.states[i].pc);
    if OneTarget(jobs, ns, image) {
      ExecuteHeld(env, c0, jobs, w0, now, ns, image);
      ExecuteHeld(env, c0, jobs, w, later, ns, image);
      assert Placed(env, jobs[i], v.cloud, v.states[i].pc);
    }
  }

  /** The service of this name was created, or created anew, since `c0`. */
  predicate Created(c0: Cloud, c: Cloud, name: string)
  {
    name in c.services && !(name in c0.services && c0.services[name].registry == c.services[name].registry)
  }

  /**
   * The names written out: whatever is scheduled, a service created for a namespace is registered under the
   * Cloud Map entry `vkg-` with that namespace, and the services of two namespaces under two entries.
   */
  lemma CreatedServicesApart(
      env: Env, c0: Cloud, jobs: seq<Job>, w0: World, schedule: seq<(nat, Answer)>, a: string, b: string)
    requires Fresh(jobs, c0, w0) && UniqueEntries(c0)
    ensures var v := Execute(env, jobs, w0, schedule).cloud;
            var (m, n) := (env.prefix + "-vkg-" + a, env.prefix + "-vkg-" + b);
            && (Created(c0, v, m) ==> RegisteredUnder(v, m, "vkg-" + a))
            && (Created(c0, v, m) && Created(c0, v, n) && a != b ==> v.services[m].registry != v.services[n].registry)
  {
    hide Rooted, Consistent, Execute, Fresh;
    FreshInv(env, c0, jobs, w0, a);
    ExecuteInv(env, c0, jobs, w0, schedule);
    var v := Execute(env, jobs, w0, schedule).cloud;
    assert BoundAt(env, c0, v, a) && BoundAt(env, c0, v, b);
    assert ("vkg-" + a)[4..] == a && ("vkg-" + b)[4..] == b;
  }

  predicate RegisteredUnder(c: Cloud, name: string, entry: string)
  {
    name in c.services && c.services[name].registry < |c.entries| && c.entries[c.services[name].registry] == entry
  }

  lemma StepTouchesOwn(env: Env, job: Job, c: Cloud, s: State, a: Answer)
    ensures OnlyTouches(c, Next(env, job, c, s, a).0, ServiceName(env, job.ns))
  {
  }

  /** Calls made for other namespaces, with whatever targets, leave a namespace's service exactly as it was. */
  lemma {:induction false} OtherNamespacesUntouched(
      env: Env, jobs: seq<Job>, w: World, schedule: seq<(nat, Answer)>, ns: string)
    requires |w.states| == |jobs|
    requires forall k :: 0 <= k < |schedule| && schedule[k].0 < |jobs| ==> jobs[schedule[k].0].ns != ns
    ensures Get(Execute(env, jobs, w, schedule).cloud.services, ServiceName(env, ns)) ==
            Get(w.cloud.services, ServiceName(env, ns))
    decreases |schedule|
  {
    if schedule != [] {
      var (i, a) := schedule[0];
      var v := Step(env, jobs, w, i, a);
      if i < |jobs| {
        StepTouchesOwn(env, jobs[i], w.cloud, w.states[i], a);
        if ServiceName(env, ns) == ServiceName(env, jobs[i].ns) { NamesDiffer(env, ns, jobs[i].ns); }
      }
      OtherNamespacesUntouched(env, jobs, v, schedule[1..], ns);
    }
  }

  /** No call fails, both reloads report success, and the service ends on the older image. */
  ghost predicate Undoes(env: Env, c: Cloud, ns: string, newer: string, older: string, schedule: seq<(nat, Answer)>)
  {
    var w := Execute(env, [Job(ns, newer, true), Job(ns, older, true)], World(c, [Start(true), Start(true)]), schedule);
    && (forall k :: 0 <= k < |schedule| ==> schedule[k].1 == NOTHING_WRONG)
    && w.states[0].pc == Done(Triggered) && w.states[1].pc == Done(Triggered)
    && OnTarget(w.cloud, ServiceName(env, ns), older)
  }

  /**
   * With two targets for a namespace the later update wins: two publishes resolve the image, one before and
   * one after it moves, and the reload that read the older image undoes the newer one.
   */
  lemma StaleTargetWins(env: Env, c: Cloud, ns: string, newer: string, older: string)
    requires Active(env, c, ns) && newer != "" && older != ""
    ensures exists schedule :: Undoes(env, c, ns, newer, older, schedule)
  {
    hide Execute, Step, Active, OnTarget;
    var jobs := [Job(ns, newer, true), Job(ns, older, true)];
    var w0 := World(c, [Start(true), Start(true)]);
    var first, second := Four(0), Four(1);
    BothResolve(env, jobs, c);
    var w1 := World(c, [Start(false), Start(false)]);
    var schedule := BOTH_RESOLVE + (first + second);
    ExecuteConcat(env, jobs, w0, BOTH_RESOLVE, first + second);
    ExecuteConcat(env, jobs, w1, first, second);
    var w2 := ReloadFinishes(env, jobs, w1, 0);
    var w3 := ReloadFinishes(env, jobs, w2, 1);
    assert Undoes(env, c, ns, newer, older, schedule);
  }

  const BOTH_RESOLVE: seq<(nat, Answer)> := [(1, NOTHING_WRONG), (0, NOTHING_WRONG)]

  lemma BothResolve(env: Env, jobs: seq<Job>, c: Cloud)
    requires |jobs| == 2 && jobs[0].image != "" && jobs[1].image != ""
    ensures Execute(env, jobs, World(c, [Start(true), Start(true)]), BOTH_RESOLVE) == World(c, [Start(false), Start(false)])
  {
    var w0 := World(c, [Start(true), Start(true)]);
    var w1 := Step(env, jobs, w0, 1, NOTHING_WRONG);
    assert w1 == World(c, [Start(true), Start(false)]);
    var rest: seq<(nat, Answer)> := BOTH_RESOLVE[1..];
    assert rest == [(0, NOTHING_WRONG)] && |rest[1..]| == 0;
    assert Step(env, jobs, w1, 0, NOTHING_WRONG) == World(c, [Start(false), Start(false)]);
    assert Execute(env, jobs, w1, rest) == World(c, [Start(false), Start(false)]);
  }

  const NOTHING_WRONG := Answer(Fine, "", {}, 0, false)

  function Four(i: nat): (r: seq<(nat, Answer)>)
    ensures forall k :: 0 <= k < |r| ==> r[k] == (i, NOTHING_WRONG)
  {
    [(i, NOTHING_WRONG), (i, NOTHING_WRONG), (i, NOTHING_WRONG), (i, NOTHING_WRONG)]
  }

  /** Four calls are enough for a run with its image resolved and its service there, if nothing goes wrong. */
  lemma ReloadFinishes(env: Env, jobs: seq<Job>, w: World, i: nat) returns (v: World)
    requires |w.states| == |jobs| && i < |jobs| && w.states[i] == Start(false)
    requires Active(env, w.cloud, jobs[i].ns) && jobs[i].image != "" && jobs[i].restartIfCurrent
    ensures v == Execute(env, jobs, w, Four(i))
    ensures v.states == w.states[i := v.states[i]] && v.states[i].pc == Done(Triggered)
    ensures Active(env, v.cloud, jobs[i].ns) && OnTarget(v.cloud, ServiceName(env, jobs[i].ns), jobs[i].image)
  {
    hide ServiceName;
    var job := jobs[i];
    var (c1, s1) := Next(env, job, w.cloud, w.states[i], NOTHING_WRONG);
    var (c2, s2) := Next(env, job, c1, s1, NOTHING_WRONG);
    var (c3, s3) := Next(env, job, c2, s2, NOTHING_WRONG);
    var (c4, s4) := Next(env, job, c3, s3, NOTHING_WRONG);
    assert s1.pc.DescribeTaskDef? && (s2.pc == UpdatePlain || s2.pc == Register);
    assert s4.pc == Done(Triggered);
    v := World(c4, w.states[i := s4]);
    FourSteps(env, jobs, w, i);
  }

  lemma FourSteps(env: Env, jobs: seq<Job>, w: World, i: nat)
    requires |w.states| == |jobs| && i < |jobs|
    ensures var (c1, s1) := Next(env, jobs[i], w.cloud, w.states[i], NOTHING_WRONG);
            var (c2, s2) := Next(env, jobs[i], c1, s1, NOTHING_WRONG);
            var (c3, s3) := Next(env, jobs[i], c2, s2, NOTHING_WRONG);
            var (c4, s4) := Next(env, jobs[i], c3, s3, NOTHING_WRONG);
            Execute(env, jobs, w, Four(i)) == World(c4, w.states[i := s4])
  {
    hide Next;
    var f := Four(i);
    var w1 := Step(env, jobs, w, i, NOTHING_WRONG);
    var w2 := Step(env, jobs, w1, i, NOTHING_WRONG);
    var w3 := Step(env, jobs, w2, i, NOTHING_WRONG);
    var w4 := Step(env, jobs, w3, i, NOTHING_WRONG);
    var f1: seq<(nat, Answer)>, f2: seq<(nat, Answer)>, f3: seq<(nat, Answer)> := f[1..], f[2..], f[3..];
    assert f1[1..] == f2 && f2[1..] == f3;
    assert Execute(env, jobs, w3, f3) == w4;
    assert Execute(env, jobs, w2, f2) == w4;
    assert Execute(env, jobs, w1, f1) == w4;
    assert w4.states == w.states[i := w4.states[i]];
  }
}
