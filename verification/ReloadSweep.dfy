/** The sweep over every listed service (infra/lambda/vkg-reload/index.py). */
module ReloadSweep {
  import opened Text
  import opened ReloadCalls
  import opened ReloadProtocol
  import opened ReloadInterleaving
  import opened ReloadLambda

  function Marker(prefix: string): string { prefix + "-vkg-" }

  /** `arn.split("/")[-1]`. */
  function LastSegment(arn: string): string
  {
    var parts := Plain('/').Split(arn, 0);
    parts[|parts| - 1]
  }

  function Flatten(pages: seq<seq<string>>): seq<string>
  {
    if pages == [] then [] else Flatten(pages[..|pages| - 1]) + pages[|pages| - 1]
  }

  /** The namespaces of the listed services that are named like ours, in listing order. */
  function Namespaces(prefix: string, arns: seq<string>): seq<string>
  {
    if arns == [] then []
    else
      var before, name := Namespaces(prefix, arns[..|arns| - 1]), LastSegment(arns[|arns| - 1]);
      if Marker(prefix) <= name then before + [name[|Marker(prefix)|..]] else before
  }

  lemma NamespacesSnoc(prefix: string, arns: seq<string>, arn: string)
    ensures Namespaces(prefix, arns + [arn]) ==
            Namespaces(prefix, arns) +
            if Marker(prefix) <= LastSegment(arn) then [LastSegment(arn)[|Marker(prefix)|..]] else []
  {
    assert (arns + [arn])[..|arns|] == arns;
  }

  /**
   * Every name the listing yields rebuilds the service it came from, and no service of ours is missed.
   */
  lemma {:induction false} NamespacesRebuildServices(env: Env, arns: seq<string>, ns: string)
    ensures ns in Namespaces(env.prefix, arns) <==> exists arn :: arn in arns && LastSegment(arn) == ServiceName(env, ns)
    decreases |arns|
  {
    if arns != [] {
      var before, arn := arns[..|arns| - 1], arns[|arns| - 1];
      assert arns == before + [arn];
      NamespacesRebuildServices(env, before, ns);
      NamespacesSnoc(env.prefix, before, arn);
      var name, marker := LastSegment(arn), Marker(env.prefix);
      assert ServiceName(env, ns) == marker + ns;
      if marker <= name { assert name == marker + name[|marker|..]; }
      assert name == marker + ns <==> marker <= name && name[|marker|..] == ns;
      assert forall x :: x in arns <==> x in before || x == arn;
    }
  }

  predicate EndsWith(s: string, end: string)
  {
    |s| >= |end| && s[|s| - |end|..] == end
  }

  /** What follows the last slash is the text itself when it has none. */
  lemma LastSegmentIff(arn: string, name: string)
    requires '/' !in name
    ensures LastSegment(arn) == name <==> arn == name || EndsWith(arn, "/" + name)
  {
    hide Scanner.Split;
    var parts := Plain('/').Split(arn, 0);
    Plain('/').SplitJoins(arn, 0);
    PlainSplitOfJoin([name], '/');
    assert Join([name], "/") == name;
    if EndsWith(arn, "/" + name) {
      var front := arn[..|arn| - |name| - 1];
      assert arn == front + "/" + name;
      PlainSplitAt(front, name, '/');
    }
    if LastSegment(arn) == name {
      if |parts| == 1 {
        assert parts == [name];
      } else {
        var front := parts[..|parts| - 1];
        assert parts == front + [name];
        JoinConcat(front, [name], "/");
        assert arn == Join(front, "/") + "/" + name;
        assert arn[|Join(front, "/")|..] == "/" + name;
      }
    }
  }

  /**
   * The names written out, for a namespace and a prefix without a slash: the namespace is listed exactly when
   * an ARN is, or ends after a slash in, the prefix, `-vkg-` and the namespace.
   */
  lemma ListedIff(env: Env, arns: seq<string>, ns: string)
    requires '/' !in env.prefix && '/' !in ns
    ensures ns in Namespaces(env.prefix, arns) <==>
            exists arn :: arn in arns && NamesService(arn, env.prefix + "-vkg-" + ns)
  {
    hide LastSegment, Namespaces;
    var name := env.prefix + "-vkg-" + ns;
    assert ServiceName(env, ns) == name && '/' !in name;
    NamespacesRebuildServices(env, arns, ns);
    forall arn | arn in arns ensures LastSegment(arn) == name <==> NamesService(arn, name) {
      LastSegmentIff(arn, name);
    }
  }

  predicate NamesService(arn: string, name: string)
  {
    arn == name || EndsWith(arn, "/" + name)
  }

  /** None is an exception from one of the page requests. */
  method ListVkgNamespaces(acct: Account, prefix: string) returns (namespaces: Option<seq<string>>)
    modifies acct`faults
    ensures namespaces.Some? ==> namespaces.value == Namespaces(prefix, Flatten(acct.pages))
    ensures acct.faults >= old(acct.faults)
    ensures acct.faults == old(acct.faults) ==> namespaces.Some?
  {
    hide LastSegment;
    var marker := Marker(prefix);
    var found: seq<string> := [];
    for p := 0 to |acct.pages|
      invariant acct.faults == old(acct.faults)
      invariant found == Namespaces(prefix, Flatten(acct.pages[..p]))
    {
      var fault := acct.Call();
      if !fault.Fine? { return None; }
      var page := acct.pages[p];
      ghost var earlier := Flatten(acct.pages[..p]);
      assert acct.pages[..p + 1][..p] == acct.pages[..p];
      assert earlier + page[..0] == earlier;
      for a := 0 to |page|
        invariant acct.faults == old(acct.faults)
        invariant found == Namespaces(prefix, earlier + page[..a])
      {
        var name := LastSegment(page[a]);
        NamespacesSnoc(prefix, earlier + page[..a], page[a]);
        assert earlier + page[..a + 1] == (earlier + page[..a]) + [page[a]];
        if marker <= name {
          found := found + [name[|marker|..]];
        }
      }
      assert page[..|page|] == page;
    }
    assert acct.pages[..|acct.pages|] == acct.pages;
    return Some(found);
  }

  /** How a sweep ends. A reload that raised is listed with its outcome; the sweep goes on. */
  datatype SweepResult =
    | SweepFailed
    | SweepComplete(triggered: nat, leftAlone: nat, results: seq<(string, Outcome)>)

  predicate Restarted(o: Outcome) { o == Triggered || o == Provisioned }

  function CountRestarted(results: seq<(string, Outcome)>): nat
  {
    if results == [] then 0
    else CountRestarted(results[..|results| - 1]) + if Restarted(results[|results| - 1].1) then 1 else 0
  }

  function CountUnchanged(results: seq<(string, Outcome)>): nat
  {
    if results == [] then 0
    else CountUnchanged(results[..|results| - 1]) + if results[|results| - 1].1 == Unchanged then 1 else 0
  }

  function CountTriggered(metrics: seq<(Metric, string)>): nat
  {
    if metrics == [] then 0
    else CountTriggered(metrics[..|metrics| - 1]) + if metrics[|metrics| - 1].0 == ReloadTriggered then 1 else 0
  }

  lemma {:induction false} AllUnchanged(results: seq<(string, Outcome)>)
    requires forall i :: 0 <= i < |results| ==> results[i].1 == Unchanged
    ensures CountUnchanged(results) == |results| && CountRestarted(results) == 0
  {
    if results != [] { AllUnchanged(results[..|results| - 1]); }
  }

  ghost predicate DistinctNames(namespaces: seq<string>)
  {
    forall i, j :: 0 <= i < j < |namespaces| ==> namespaces[i] != namespaces[j]
  }

  /** What the sweep does with one namespace when nothing fails, read off the account it starts from. */
  ghost function FateIn(acct: Account, env: Env, c: Cloud, ns: string, image: string): Outcome
    reads acct`tags, acct`tasks, acct`reports
  {
    SweepFate(env, Job(ns, image, false), c, acct.TargetDigest(image), acct.ServiceDigests(ServiceName(env, ns)))
  }

  /** A service nobody touched has the same fate as before. */
  lemma FateStable(env: Env, job: Job, c: Cloud, d: Cloud, digest: string, digests: set<string>)
    requires WellFormed(c) && c.taskDefs <= d.taskDefs
    requires Get(c.services, ServiceName(env, job.ns)) == Get(d.services, ServiceName(env, job.ns))
    ensures SweepFate(env, job, c, digest, digests) == SweepFate(env, job, d, digest, digests)
  {
    var name := ServiceName(env, job.ns);
    assert (name in c.services) == (name in d.services);
  }

  /** Results are in listing order, and those that promise the target image keep their promise. */
  ghost predicate Promised(env: Env, c: Cloud, namespaces: seq<string>, results: seq<(string, Outcome)>, image: string)
  {
    |results| <= |namespaces| &&
    forall i :: 0 <= i < |results| ==>
      results[i].0 == namespaces[i] && results[i].1 != EntryVanished &&
      (Settles(results[i].1) ==> OnTarget(c, ServiceName(env, namespaces[i]), image))
  }

  lemma PromisedOn(
      env: Env, c: Cloud, d: Cloud, namespaces: seq<string>, results: seq<(string, Outcome)>, outcome: Outcome, image: string)
    requires Promised(env, c, namespaces, results, image) && |results| < |namespaces|
    requires Evolves(c, d, image) && image != "" && outcome != EntryVanished
    requires Settles(outcome) ==> OnTarget(d, ServiceName(env, namespaces[|results|]), image)
    ensures Promised(env, d, namespaces, results + [(namespaces[|results|], outcome)], image)
  {
  }

  /** While every service was left alone, nothing was written and nothing reported. */
  ghost predicate Quiet(
      results: seq<(string, Outcome)>, c0: Cloud, c: Cloud, before: seq<(Metric, string)>, metrics: seq<(Metric, string)>)
  {
    (forall i :: 0 <= i < |results| ==> results[i].1 == Unchanged) ==> c == c0 && metrics == before
  }

  lemma QuietOn(results: seq<(string, Outcome)>, last: (string, Outcome), c0: Cloud, c: Cloud, d: Cloud,
                before: seq<(Metric, string)>, m: seq<(Metric, string)>, n: seq<(Metric, string)>)
    requires Quiet(results, c0, c, before, m)
    requires last.1 == Unchanged ==> d == c && n == m
    ensures Quiet(results + [last], c0, d, before, n)
  {
    var more := results + [last];
    if forall i :: 0 <= i < |more| ==> more[i].1 == Unchanged {
      forall i | 0 <= i < |results| ensures results[i].1 == Unchanged { assert more[i] == results[i]; }
      assert more[|results|] == last;
    }
  }

  lemma CountOn(results: seq<(string, Outcome)>, ns: string, outcome: Outcome, m: seq<(Metric, string)>, n: seq<(Metric, string)>)
    requires n == if Restarted(outcome) then m + [(ReloadTriggered, ns)]
                  else if n == m then m else m + [(ReloadFailed, ns)]
    ensures CountRestarted(results + [(ns, outcome)]) - CountRestarted(results) == CountTriggered(n) - CountTriggered(m)
  {
    assert (results + [(ns, outcome)])[..|results|] == results;
    if n != m { assert n[..|n| - 1] == m; }
  }

  /** Each result is the namespace's fate in the account the sweep started from. */
  ghost predicate Fated(
      acct: Account, env: Env, c0: Cloud, namespaces: seq<string>, results: seq<(string, Outcome)>, image: string)
    reads acct`tags, acct`tasks, acct`reports
  {
    |results| <= |namespaces| &&
    forall i :: 0 <= i < |results| ==> results[i].1 == FateIn(acct, env, c0, namespaces[i], image)
  }

  /** Whatever failed, a service is reported left alone only if its running tasks are known to run the target. */
  ghost predicate Justified(acct: Account, env: Env, namespaces: seq<string>, results: seq<(string, Outcome)>, image: string)
    reads acct`tags, acct`tasks, acct`reports
  {
    |results| <= |namespaces| &&
    forall i :: 0 <= i < |results| && results[i].1 == Unchanged ==>
      Current(acct.TargetDigest(image), acct.ServiceDigests(ServiceName(env, namespaces[i])))
  }

  /** The service is of no namespace reloaded so far, or only of such as were left alone. */
  ghost predicate LeftOut(env: Env, namespaces: seq<string>, results: seq<(string, Outcome)>, name: string)
    requires |results| <= |namespaces|
  {
    forall i :: 0 <= i < |results| && ServiceName(env, namespaces[i]) == name ==> results[i].1 == Unchanged
  }

  /** Services of other namespaces, or of namespaces left alone, are exactly as they were. */
  ghost predicate Spared(env: Env, c0: Cloud, c: Cloud, namespaces: seq<string>, results: seq<(string, Outcome)>)
  {
    |results| <= |namespaces| &&
    forall name :: LeftOut(env, namespaces, results, name) ==> Get(c.services, name) == Get(c0.services, name)
  }

  lemma SparedOn(
      env: Env, c0: Cloud, c: Cloud, d: Cloud, namespaces: seq<string>, results: seq<(string, Outcome)>, last: (string, Outcome))
    requires |results| < |namespaces| && Spared(env, c0, c, namespaces, results)
    requires OnlyTouches(c, d, ServiceName(env, namespaces[|results|]))
    requires last.1 == Unchanged ==> d == c
    ensures Spared(env, c0, d, namespaces, results + [last])
  {
    var more := results + [last];
    forall name | LeftOut(env, namespaces, more, name) ensures Get(d.services, name) == Get(c0.services, name) {
      forall i | 0 <= i < |results| && ServiceName(env, namespaces[i]) == name ensures results[i].1 == Unchanged {
        assert more[i] == results[i];
      }
      assert LeftOut(env, namespaces, results, name);
      if ServiceName(env, namespaces[|results|]) == name { assert more[|results|].1 == Unchanged; }
    }
  }

  lemma EvolvesReflexive(c: Cloud, image: string)
    ensures Evolves(c, c, image)
  {
  }

  /** The loop of the sweep: one result per namespace, in order. */
  method SweepAll(acct: Account, env: Env, image: string, namespaces: seq<string>) returns (results: seq<(string, Outcome)>)
    requires image != ""
    modifies acct`cloud, acct`faults, acct`lookups, acct`metrics
    ensures |results| == |namespaces| && Promised(env, acct.cloud, namespaces, results, image)
    ensures CountTriggered(acct.metrics) - CountTriggered(old(acct.metrics)) == CountRestarted(results)
    ensures Quiet(results, old(acct.cloud), acct.cloud, old(acct.metrics), acct.metrics)
    ensures Evolves(old(acct.cloud), acct.cloud, image)
    ensures Justified(acct, env, namespaces, results, image)
    ensures Spared(env, old(acct.cloud), acct.cloud, namespaces, results)
    ensures acct.lookups <= old(acct.lookups) + 1
    ensures acct.faults >= old(acct.faults)
    ensures acct.faults == old(acct.faults) && DistinctNames(namespaces) && WellFormed(old(acct.cloud)) ==>
              Fated(acct, env, old(acct.cloud), namespaces, results, image)
  {
    hide Evolves, OnlyTouches, Account.TargetDigest, Account.ServiceDigests, SweepFate, ServiceName;
    results := [];
    EvolvesReflexive(acct.cloud, image);
    var cache: map<string, string> := map[];
    for i := 0 to |namespaces|
      invariant |results| == i && CacheSound(acct, cache) && acct.faults >= old(acct.faults)
      invariant acct.lookups <= old(acct.lookups) + if image in cache then 1 else 0
      invariant Promised(env, acct.cloud, namespaces, results, image)
      invariant CountTriggered(acct.metrics) - CountTriggered(old(acct.metrics)) == CountRestarted(results)
      invariant Quiet(results, old(acct.cloud), acct.cloud, old(acct.metrics), acct.metrics)
      invariant Evolves(old(acct.cloud), acct.cloud, image)
      invariant Justified(acct, env, namespaces, results, image)
      invariant Spared(env, old(acct.cloud), acct.cloud, namespaces, results)
      invariant DistinctNames(namespaces) ==> Untouched(env, old(acct.cloud), acct.cloud, namespaces, i)
      invariant acct.faults == old(acct.faults) ==> CacheRight(acct, cache)
      invariant acct.faults == old(acct.faults) && DistinctNames(namespaces) && WellFormed(old(acct.cloud)) ==>
                  Fated(acct, env, old(acct.cloud), namespaces, results, image)
    {
      results, cache := SweepOne(acct, env, image, namespaces, results, cache, old(acct.cloud), old(acct.metrics));
    }
  }

  /** One round of the loop: a reload that may raise, and its result. */
  method SweepOne(
      acct: Account, env: Env, image: string, namespaces: seq<string>, results: seq<(string, Outcome)>,
      cache: map<string, string>, ghost c0: Cloud, ghost m0: seq<(Metric, string)>)
    returns (results': seq<(string, Outcome)>, cache': map<string, string>)
    requires image != "" && |results| < |namespaces| && CacheSound(acct, cache)
    requires Promised(env, acct.cloud, namespaces, results, image)
    requires Quiet(results, c0, acct.cloud, m0, acct.metrics) && Evolves(c0, acct.cloud, image)
    requires Justified(acct, env, namespaces, results, image) && Spared(env, c0, acct.cloud, namespaces, results)
    requires DistinctNames(namespaces) ==> Untouched(env, c0, acct.cloud, namespaces, |results|)
    modifies acct`cloud, acct`faults, acct`lookups, acct`metrics
    ensures |results'| == |results| + 1 && CacheSound(acct, cache')
    ensures Promised(env, acct.cloud, namespaces, results', image)
    ensures CountTriggered(acct.metrics) - CountTriggered(old(acct.metrics)) == CountRestarted(results') - CountRestarted(results)
    ensures Quiet(results', c0, acct.cloud, m0, acct.metrics)
    ensures Evolves(c0, acct.cloud, image)
    ensures Justified(acct, env, namespaces, results', image) && Spared(env, c0, acct.cloud, namespaces, results')
    ensures DistinctNames(namespaces) ==> Untouched(env, c0, acct.cloud, namespaces, |results'|)
    ensures acct.faults >= old(acct.faults)
    ensures acct.lookups <= old(acct.lookups) + if image in cache' && image !in cache then 1 else 0
    ensures forall k :: k in cache ==> k in cache'
    ensures acct.faults == old(acct.faults) && CacheRight(acct, cache) ==> CacheRight(acct, cache')
    ensures (acct.faults == old(acct.faults) && CacheRight(acct, cache) && DistinctNames(namespaces) && WellFormed(c0) &&
             Fated(acct, env, c0, namespaces, results, image))
            ==> Fated(acct, env, c0, namespaces, results', image)
  {
    hide Evolves, OnlyTouches, Account.TargetDigest, Account.ServiceDigests, SweepFate, Spared, Quiet, ServiceName, CacheSound, CacheRight;
    var ns := namespaces[|results|];
    var outcome;
    ghost var target, c, m := image, acct.cloud, acct.metrics;
    outcome, cache', target := ReloadOne(acct, env, ns, Some(image), false, cache, true);
    results' := results + [(ns, outcome)];
    PromisedOn(env, c, acct.cloud, namespaces, results, outcome, image);
    CountOn(results, ns, outcome, m, acct.metrics);
    EvolvesTransitive(c0, c, acct.cloud, image);
    SparedOn(env, c0, c, acct.cloud, namespaces, results, (ns, outcome));
    QuietOn(results, (ns, outcome), c0, c, acct.cloud, m0, m, acct.metrics);
    if DistinctNames(namespaces) {
      UntouchedOn(env, c0, c, acct.cloud, namespaces, |results|, image);
      if WellFormed(c0) {
        FateStable(env, Job(ns, image, false), c0, c, acct.TargetDigest(image), acct.ServiceDigests(ServiceName(env, ns)));
      }
    }
  }

  /** Task definitions were only added, and the services of the namespaces from position `i` on are as they were. */
  ghost predicate Untouched(env: Env, c0: Cloud, c: Cloud, namespaces: seq<string>, i: nat)
  {
    c0.taskDefs <= c.taskDefs &&
    forall j :: i <= j < |namespaces| ==>
      Get(c.services, ServiceName(env, namespaces[j])) == Get(c0.services, ServiceName(env, namespaces[j]))
  }

  lemma UntouchedOn(env: Env, c0: Cloud, c: Cloud, d: Cloud, namespaces: seq<string>, i: nat, image: string)
    requires i < |namespaces| && DistinctNames(namespaces) && Untouched(env, c0, c, namespaces, i)
    requires OnlyTouches(c, d, ServiceName(env, namespaces[i])) && Evolves(c, d, image)
    ensures Untouched(env, c0, d, namespaces, i + 1)
  {
    forall j | i + 1 <= j < |namespaces|
      ensures Get(d.services, ServiceName(env, namespaces[j])) == Get(c0.services, ServiceName(env, namespaces[j]))
    {
      if ServiceName(env, namespaces[j]) == ServiceName(env, namespaces[i]) {
        NamesDiffer(env, namespaces[j], namespaces[i]);
      }
    }
  }

  /** What a sweep that ended this way means for the account. */
  twostate predicate SweepKept(acct: Account, env: Env, r: SweepResult)
    reads acct
  {
    && acct.faults >= old(acct.faults)
    && acct.lookups <= old(acct.lookups) + 1
    && (acct.faults == old(acct.faults) && acct.parameter != "" ==> r.SweepComplete?)
    && match r
       case SweepFailed => acct.metrics == old(acct.metrics) + [(ReloadFailed, "sweep")] && acct.cloud == old(acct.cloud)
       case SweepComplete(triggered, leftAlone, results) =>
         var names := Namespaces(env.prefix, Flatten(acct.pages));
         && |results| == |names| && Promised(env, acct.cloud, names, results, acct.parameter)
         && triggered == CountRestarted(results)
         && triggered == CountTriggered(acct.metrics) - CountTriggered(old(acct.metrics))
         && leftAlone == CountUnchanged(results)
         && Evolves(old(acct.cloud), acct.cloud, acct.parameter)
         && Quiet(results, old(acct.cloud), acct.cloud, old(acct.metrics), acct.metrics)
         && Justified(acct, env, names, results, acct.parameter)
         && Spared(env, old(acct.cloud), acct.cloud, names, results)
         && (acct.faults == old(acct.faults) && DistinctNames(names) && WellFormed(old(acct.cloud)) ==>
               Fated(acct, env, old(acct.cloud), names, results, acct.parameter))
  }

  /**
   * The sweep. Once the services are listed it completes whatever single reloads do, with one result per
   * listed namespace in listing order, and counts exactly the restarts that were reported.
   */
  method Sweep(acct: Account, env: Env) returns (r: SweepResult)
    modifies acct`cloud, acct`faults, acct`lookups, acct`metrics
    ensures SweepKept(acct, env, r)
  {
    hide LastSegment, Evolves, Account.TargetDigest, Account.ServiceDigests, SweepFate, Spared, Justified;
    var fault := acct.Call();
    var image := if fault.Fine? then acct.parameter else "";
    if image == "" {
      acct.EmitMetric(ReloadFailed, "sweep");
      return SweepFailed;
    }
    var namespaces := ListVkgNamespaces(acct, env.prefix);
    if namespaces.None? {
      acct.EmitMetric(ReloadFailed, "sweep");
      return SweepFailed;
    }
    var results := SweepAll(acct, env, image, namespaces.value);
    var triggered, leftAlone := 0, 0;
    for i := 0 to |results|
      invariant triggered == CountRestarted(results[..i]) && leftAlone == CountUnchanged(results[..i])
      invariant acct.faults >= old(acct.faults)
    {
      assert results[..i + 1][..i] == results[..i];
      if results[i].1 == Triggered || results[i].1 == Provisioned { triggered := triggered + 1; }
      if results[i].1 == Unchanged { leftAlone := leftAlone + 1; }
    }
    assert results[..|results|] == results;
    return SweepComplete(triggered, leftAlone, results);
  }

  // ----- the entry point -----

  datatype Response = Ignored | Reloaded(outcome: Outcome) | Swept(result: SweepResult)

  predicate ValidCore(core: string)
  {
    1 <= |core| <= 128 && Alphanumeric(core[0]) &&
    forall i :: 0 <= i < |core| ==> Alphanumeric(core[i]) || core[i] in {'_', '-'}
  }

  /** `re.match` with a pattern that ends in `$`, which also lets one final line feed pass. */
  predicate ValidNamespace(ns: string)
  {
    ValidCore(if ns != "" && ns[|ns| - 1] == '\n' then ns[..|ns| - 1] else ns)
  }

  /** The metric an outcome calls for. */
  function Reported(outcome: Outcome, ns: string): seq<(Metric, string)>
  {
    if Restarted(outcome) then [(ReloadTriggered, ns)]
    else if outcome == Failed || outcome == Raised then [(ReloadFailed, ns)]
    else []
  }

  /** One of the characters of a namespace: a letter or digit of ASCII, or after the first an underscore or a hyphen. */
  predicate NamespaceCharacter(c: char, first: bool)
  {
    var n := c as int;
    0x30 <= n <= 0x39 || 0x41 <= n <= 0x5A || 0x61 <= n <= 0x7A || (!first && (n == 0x5F || n == 0x2D))
  }

  /** The pattern, character by character, and what the `$` at its end lets pass: one line feed after a valid namespace. */
  lemma ValidNamespaceIff(ns: string)
    requires '\n' !in ns
    ensures ValidNamespace(ns) <==>
            0 < |ns| <= 128 && forall i :: 0 <= i < |ns| ==> NamespaceCharacter(ns[i], i == 0)
    ensures ValidNamespace(ns + "\n") <==> ValidNamespace(ns)
    ensures !ValidNamespace(ns + "\n\n")
    ensures ValidNamespace(ns) ==> '/' !in ns
  {
    ValidCoreIff(ns);
    ValidCoreIff(ns + "\n");
    assert ns != "" ==> ns[|ns| - 1] in ns;
    assert (ns + "\n")[..|ns|] == ns && (ns + "\n")[|ns|] == '\n';
    assert (ns + "\n\n")[..|ns| + 1] == ns + "\n";
  }

  lemma ValidCoreIff(core: string)
    ensures ValidCore(core) <==> 0 < |core| <= 128 && forall i :: 0 <= i < |core| ==> NamespaceCharacter(core[i], i == 0)
  {
    forall i | 0 <= i < |core|
      ensures NamespaceCharacter(core[i], i == 0) <==> Alphanumeric(core[i]) || (i > 0 && core[i] in {'_', '-'})
    {
      assert core[i] == '_' <==> core[i] as int == 0x5F;
      assert core[i] == '-' <==> core[i] as int == 0x2D;
    }
  }

  /** A sweep, or a reload of one namespace that always restarts it; a bad namespace is ignored. */
  method Handler(acct: Account, env: Env, sweep: bool, ns: string) returns (r: Response)
    modifies acct`cloud, acct`faults, acct`lookups, acct`metrics
    ensures r.Swept? <==> sweep
    ensures r.Swept? ==> SweepKept(acct, env, r.result)
    ensures r.Ignored? <==> !sweep && (ns == "unknown" || !ValidNamespace(ns))
    ensures r.Ignored? ==> acct.cloud == old(acct.cloud) && acct.metrics == old(acct.metrics) && acct.faults == old(acct.faults)
    ensures r.Reloaded? ==>
              && OnlyTouches(old(acct.cloud), acct.cloud, ServiceName(env, ns))
              && r.outcome != Unchanged && r.outcome != EntryVanished
              && (Settles(r.outcome) ==> OnTarget(acct.cloud, ServiceName(env, ns), acct.parameter))
              && (acct.metrics == old(acct.metrics) + Reported(r.outcome, ns) ||
                  (r.outcome == Raised && !old(Active(env, acct.cloud, ns)) && acct.metrics == old(acct.metrics)))
  {
    if sweep {
      var result := Sweep(acct, env);
      return Swept(result);
    }
    if ns == "unknown" || !ValidNamespace(ns) { return Ignored; }
    var outcome, cache;
    ghost var image;
    outcome, cache, image := ReloadOne(acct, env, ns, None, true, map[], false);
    return Reloaded(outcome);
  }

  // ----- convergence -----

  /** Every listed service is active, or can be provisioned anew. */
  ghost predicate Listed(acct: Account, env: Env, names: seq<string>)
    reads acct`cloud
  {
    forall i :: 0 <= i < |names| ==> Active(env, acct.cloud, names[i]) || env.configured
  }

  /** After the rollouts have settled, every task of every listed service runs the digest. */
  ghost predicate Settled(env: Env, names: seq<string>, tasks: map<string, seq<string>>, reports: map<string, string>, digest: string)
  {
    forall i :: 0 <= i < |names| ==>
      var name := ServiceName(env, names[i]);
      RunningDigests(if name in tasks then tasks[name] else [], reports) == {digest}
  }

  /** A faultless sweep leaves on the target image every service that is active or that it may provision. */
  lemma FirstSweepSettles(
      acct: Account, env: Env, c0: Cloud, c: Cloud, names: seq<string>, results: seq<(string, Outcome)>, image: string)
    requires |results| == |names| && Promised(env, c, names, results, image)
    requires Fated(acct, env, c0, names, results, image)
    requires forall i :: 0 <= i < |names| ==> Active(env, c0, names[i]) || env.configured
    ensures forall i :: 0 <= i < |names| ==> OnTarget(c, ServiceName(env, names[i]), image)
  {
    forall i | 0 <= i < |names| ensures OnTarget(c, ServiceName(env, names[i]), image) {
      assert results[i].1 == FateIn(acct, env, c0, names[i], image);
    }
  }

  /** A faultless sweep leaves alone every service that is on the target image and runs its digest. */
  lemma SettledIsLeftAlone(
      acct: Account, env: Env, c: Cloud, names: seq<string>, results: seq<(string, Outcome)>, image: string)
    requires |results| == |names| && Fated(acct, env, c, names, results, image)
    requires forall i :: 0 <= i < |names| ==> OnTarget(c, ServiceName(env, names[i]), image)
    requires acct.TargetDigest(image) != "" && Settled(env, names, acct.tasks, acct.reports, acct.TargetDigest(image))
    ensures forall i :: 0 <= i < |results| ==> results[i].1 == Unchanged
    ensures CountUnchanged(results) == |results| && CountRestarted(results) == 0
  {
    forall i | 0 <= i < |results| ensures results[i].1 == Unchanged {
      assert results[i].1 == FateIn(acct, env, c, names[i], image);
      assert acct.ServiceDigests(ServiceName(env, names[i])) == {acct.TargetDigest(image)};
    }
    AllUnchanged(results);
  }

  /**
   * Convergence. Between two sweeps in which no call fails the rollouts settle and the tag does not
   * move: the second sweep writes nothing, reports nothing and leaves every service alone.
   */
  method SweepSettleSweep(acct: Account, env: Env, tasks: map<string, seq<string>>, reports: map<string, string>)
    returns (first: SweepResult, second: SweepResult, ghost settledCloud: Cloud, ghost settledMetrics: seq<(Metric, string)>)
    requires acct.parameter != "" && acct.TargetDigest(acct.parameter) != ""
    requires var names := Namespaces(env.prefix, Flatten(acct.pages));
             && DistinctNames(names) && Listed(acct, env, names) && WellFormed(acct.cloud)
             && Settled(env, names, tasks, reports, acct.TargetDigest(acct.parameter))
    modifies acct
    ensures acct.faults == old(acct.faults) ==>
              && first.SweepComplete? && second.SweepComplete?
              && second.leftAlone == |second.results| && second.triggered == 0
              && acct.cloud == settledCloud && acct.metrics == settledMetrics
  {
    hide Namespaces, SweepFate, OnTarget, Active, Flatten, DistinctNames, Settled, Account.TargetDigest, Account.ServiceDigests;
    ghost var image, names := acct.parameter, Namespaces(env.prefix, Flatten(acct.pages));
    first := Sweep(acct, env);
    if acct.faults == old(acct.faults) {
      FirstSweepSettles(acct, env, old(acct.cloud), acct.cloud, names, first.results, image);
    }
    ghost var digest := acct.TargetDigest(image);
    acct.tasks, acct.reports := tasks, reports;
    settledCloud, settledMetrics := acct.cloud, acct.metrics;
    assert acct.TargetDigest(image) == digest;
    second := Sweep(acct, env);
    if acct.faults == old(acct.faults) {
      SettledIsLeftAlone(acct, env, settledCloud, names, second.results, image);
    }
  }
}
