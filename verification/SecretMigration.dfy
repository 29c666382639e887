/** Runs of the tag migration: collect, classify, apply, exit status (scripts/tag_credential_secrets.py). */
module SecretMigration {
  import opened Text
  import opened Ordering
  import opened SecretTags

  /** One credential-holding source: its namespace, its name and the ARN of its secret. */
  datatype Row = Row(namespaceId: string, name: string, arn: string)

  type Tags = map<string, Option<string>>

  /** The secrets of the account, by ARN, with the value of the namespace tag if there is one. */
  class SecretStore {
    var tags: Tags
    /** How many calls have failed for a reason other than that there is no such secret to describe. */
    var failures: nat

    /** None is a failed DescribeSecret; a secret that does not exist always fails. */
    method DescribeSecret(arn: string) returns (described: Option<Option<string>>)
      modifies this`failures
      ensures if failures == old(failures) then described == Get(tags, arn) else described.None? && failures == old(failures) + 1
    {
      var fails: bool := *;
      described := if fails then None else Get(tags, arn);
      failures := failures + if fails then 1 else 0;
    }

    /** A failed write may have been carried out all the same. */
    method TagResource(arn: string, value: string) returns (ok: bool)
      modifies this
      ensures ok ==> arn in old(tags) && tags == old(tags)[arn := Some(value)]
      ensures !ok ==> tags == old(tags) || (arn in old(tags) && tags == old(tags)[arn := Some(value)])
      ensures failures == old(failures) + if ok then 0 else 1
    {
      var reaches: bool, replies: bool := *, *;
      if reaches && arn in tags {
        tags := tags[arn := Some(value)];
        ok := replies;
      } else {
        ok := false;
      }
      failures := failures + if ok then 0 else 1;
    }
  }

  /** One credential secret and the sources that point at it. */
  class SecretRef {
    const arn: string
    var namespaces: set<string>
    var sources: seq<(string, string)>
    var status: Status
    var newValue: string

    constructor (arn: string)
      ensures this.arn == arn && namespaces == {} && sources == [] && status == Unset && newValue == ""
    {
      this.arn := arn;
      namespaces, sources, status, newValue := {}, [], Unset, "";
    }
  }

  function NamespacesOf(rows: seq<Row>, arn: string): set<string>
  {
    set r | r in rows && r.arn == arn :: r.namespaceId
  }

  /** The sources that point at the secret, in listing order. */
  function SourcesOf(rows: seq<Row>, arn: string): seq<(string, string)>
  {
    if rows == [] then []
    else
      var row := rows[|rows| - 1];
      SourcesOf(rows[..|rows| - 1], arn) + if row.arn == arn then [(row.namespaceId, row.name)] else []
  }

  lemma SourcesSnoc(rows: seq<Row>, row: Row, a: string)
    ensures SourcesOf(rows + [row], a) == SourcesOf(rows, a) + if row.arn == a then [(row.namespaceId, row.name)] else []
  {
    assert (rows + [row])[..|rows|] == rows;
  }

  lemma {:induction false} NoSources(rows: seq<Row>, arn: string)
    requires forall r :: r in rows ==> r.arn != arn
    ensures SourcesOf(rows, arn) == []
  {
    if rows != [] { NoSources(rows[..|rows| - 1], arn); }
  }

  /** Which namespaces each secret's tag has to list. */
  function Wanted(rows: seq<Row>): (w: map<string, set<string>>)
    ensures forall a :: a in w <==> exists r :: r in rows && r.arn == a
    ensures forall a :: a in w ==> w[a] == NamespacesOf(rows, a)
  {
    map r | r in rows :: r.arn := NamespacesOf(rows, r.arn)
  }

  /** The refs are one object per ARN, in a listing without repetition. */
  ghost predicate Table(order: seq<string>, refs: map<string, SecretRef>)
  {
    && (forall i, j :: 0 <= i < j < |order| ==> order[i] != order[j])
    && (forall a :: a in order <==> a in refs)
    && (forall a :: a in refs ==> refs[a].arn == a)
  }

  ghost predicate Unjudged(ref: SecretRef)
    reads ref
  {
    ref.status == Unset && ref.newValue == ""
  }

  ghost predicate Collected(rows: seq<Row>, order: seq<string>, refs: map<string, SecretRef>)
    reads refs.Values
  {
    && Table(order, refs)
    && refs.Keys == Wanted(rows).Keys
    && forall a :: a in refs ==> CollectedAt(rows, a, refs[a])
  }

  ghost predicate CollectedAt(rows: seq<Row>, a: string, ref: SecretRef)
    reads ref
  {
    Unjudged(ref) && ref.namespaces == NamespacesOf(rows, a) && ref.sources == SourcesOf(rows, a)
  }

  /** The refs are exactly the objects in the table. */
  lemma DistinctObjects(order: seq<string>, refs: map<string, SecretRef>, i: nat, j: nat)
    requires Table(order, refs) && i < |order| && j < |order| && i != j
    ensures refs[order[i]] != refs[order[j]]
  {
    assert order[i] in refs && order[j] in refs;
  }

  /** `refs.setdefault(arn, SecretRef(arn=arn))`. */
  method SetDefault(rows: seq<Row>, arn: string, order: seq<string>, refs: map<string, SecretRef>)
    returns (order': seq<string>, refs': map<string, SecretRef>)
    requires Collected(rows, order, refs)
    ensures Table(order', refs') && arn in refs' && refs'.Keys == refs.Keys + {arn}
    ensures forall a :: a in refs' ==> CollectedAt(rows, a, refs'[a])
    ensures forall a :: a in refs' ==> fresh(refs'[a]) || (a in refs && refs'[a] == refs[a])
  {
    order', refs' := order, refs;
    if arn !in refs {
      var ref := new SecretRef(arn);
      assert NamespacesOf(rows, arn) == {};
      NoSources(rows, arn);
      order', refs' := order + [arn], refs[arn := ref];
    }
  }

  /** One source of a secret. */
  method AddSource(ref: SecretRef, rows: seq<Row>, row: Row)
    requires CollectedAt(rows, row.arn, ref)
    modifies ref`namespaces, ref`sources
    ensures CollectedAt(rows + [row], row.arn, ref)
  {
    hide NamespacesOf, SourcesOf;
    ref.namespaces := ref.namespaces + {row.namespaceId};
    ref.sources := ref.sources + [(row.namespaceId, row.name)];
    NamespacesSnoc(rows, row, row.arn);
    SourcesSnoc(rows, row, row.arn);
  }

  /** The other secrets need nothing. */
  lemma OthersCollected(ref: SecretRef, rows: seq<Row>, row: Row, a: string)
    requires CollectedAt(rows, a, ref) && a != row.arn
    ensures CollectedAt(rows + [row], a, ref)
  {
    hide NamespacesOf, SourcesOf;
    NamespacesSnoc(rows, row, a);
    SourcesSnoc(rows, row, a);
  }

  /** One row of the source listing. */
  method AddRow(rows: seq<Row>, row: Row, order: seq<string>, refs: map<string, SecretRef>)
    returns (order': seq<string>, refs': map<string, SecretRef>)
    requires Collected(rows, order, refs)
    modifies set a | a in refs :: refs[a]
    ensures Collected(rows + [row], order', refs')
    ensures forall a :: a in refs' ==> fresh(refs'[a]) || (a in refs && refs'[a] == refs[a])
  {
    hide NamespacesOf, SourcesOf, Wanted, CollectedAt;
    order', refs' := SetDefault(rows, row.arn, order, refs);
    WantedSnoc(rows, row);
    forall a | a in refs' && a != row.arn ensures refs'[a] != refs'[row.arn] && CollectedAt(rows + [row], a, refs'[a]) {
      OthersCollected(refs'[a], rows, row, a);
    }
    AddSource(refs'[row.arn], rows, row);
  }

  method Collect(rows: seq<Row>) returns (order: seq<string>, refs: map<string, SecretRef>)
    ensures Collected(rows, order, refs)
    ensures forall a :: a in refs ==> fresh(refs[a])
  {
    hide Collected;
    order, refs := [], map[];
    assert rows[..0] == [];
    NothingCollected();
    for i := 0 to |rows|
      invariant Collected(rows[..i], order, refs)
      invariant forall a :: a in refs ==> fresh(refs[a])
    {
      assert rows[..i + 1] == rows[..i] + [rows[i]];
      order, refs := AddRow(rows[..i], rows[i], order, refs);
    }
    assert rows[..|rows|] == rows;
  }

  lemma NothingCollected()
    ensures Collected([], [], map[])
  {
  }

  lemma WantedSnoc(rows: seq<Row>, row: Row)
    ensures Wanted(rows + [row]).Keys == Wanted(rows).Keys + {row.arn}
  {
    forall a | a in Wanted(rows) ensures a in Wanted(rows + [row]) {
      var r :| r in rows && r.arn == a;
      assert r in rows + [row];
    }
    assert row in rows + [row];
  }

  lemma NamespacesSnoc(rows: seq<Row>, row: Row, a: string)
    ensures NamespacesOf(rows + [row], a) ==
            if a == row.arn then NamespacesOf(rows, a) + {row.namespaceId} else NamespacesOf(rows, a)
  {
    forall n | n in NamespacesOf(rows, a) ensures n in NamespacesOf(rows + [row], a) {
      var r :| r in rows && r.arn == a && r.namespaceId == n;
      assert r in rows + [row];
    }
    assert row in rows + [row];
  }

  /** The status is the verdict on what was described, which is what the store holds or a failure. */
  ghost predicate JudgedAs(arn: string, namespaces: set<string>, status: Status, newValue: string, tags: Tags, deployment: string)
  {
    exists described: Option<Option<string>> ::
      (described.None? || (arn in tags && described == Some(tags[arn]))) &&
      (status, newValue) == Verdict(arn, namespaces, deployment, described)
  }

  ghost predicate Judged(ref: SecretRef, tags: Tags, deployment: string)
    reads ref
  {
    JudgedAs(ref.arn, ref.namespaces, ref.status, ref.newValue, tags, deployment)
  }

  /** The status is the verdict on what the store holds. */
  ghost predicate JudgedExactly(ref: SecretRef, tags: Tags, deployment: string)
    reads ref
  {
    (ref.status, ref.newValue) == Verdict(ref.arn, ref.namespaces, deployment, Get(tags, ref.arn))
  }

  /** One secret of the classification loop. No tag is written. */
  method ClassifyOne(ref: SecretRef, store: SecretStore, deployment: string)
    requires Unjudged(ref)
    modifies ref`status, ref`newValue, store`failures
    ensures Judged(ref, store.tags, deployment)
    ensures store.failures >= old(store.failures)
    ensures store.failures == old(store.failures) ==> JudgedExactly(ref, store.tags, deployment)
  {
    hide ParseTag, Sorted;
    var account := AccountOf(ref.arn);
    ghost var unseen: Option<Option<string>> := None;
    if account != "" && account != deployment {
      ref.status := CrossAccount;
      assert (ref.status, ref.newValue) == Verdict(ref.arn, ref.namespaces, deployment, unseen);
      return;
    }
    if account == "" {
      ref.status := Unreadable;
      assert (ref.status, ref.newValue) == Verdict(ref.arn, ref.namespaces, deployment, unseen);
      return;
    }
    var described := store.DescribeSecret(ref.arn);
    if described.None? {
      ref.status := Unreadable;
      assert (ref.status, ref.newValue) == Verdict(ref.arn, ref.namespaces, deployment, described);
      return;
    }
    var raw := described.value;
    var existing: seq<string> := [];
    if raw.Some? {
      var parsed := ParseTag(raw.value);
      if parsed.None? {
        ref.status := Malformed;
        assert (ref.status, ref.newValue) == Verdict(ref.arn, ref.namespaces, deployment, described);
        return;
      }
      existing := parsed.value;
    }
    var missing := Missing(ref.namespaces, existing);
    if missing == [] {
      ref.status := Fine;
    } else {
      var value := Join(existing + missing, " ");
      if |value| > TAG_VALUE_MAX {
        ref.status := OverCapacity;
      } else {
        ref.status, ref.newValue := NeedsTag, value;
      }
    }
    assert (ref.status, ref.newValue) == Verdict(ref.arn, ref.namespaces, deployment, described);
  }

  method Classify(order: seq<string>, refs: map<string, SecretRef>, store: SecretStore, deployment: string)
    requires Table(order, refs) && forall a :: a in refs ==> Unjudged(refs[a])
    modifies set a | a in refs :: refs[a], store`failures
    ensures forall a :: a in refs ==> Judged(refs[a], store.tags, deployment)
    ensures forall a :: a in refs ==> refs[a].namespaces == old(refs[a].namespaces)
    ensures store.failures >= old(store.failures)
    ensures store.failures == old(store.failures) ==> forall a :: a in refs ==> JudgedExactly(refs[a], store.tags, deployment)
  {
    hide Judged, Unjudged, JudgedExactly;
    for i := 0 to |order|
      invariant forall j :: 0 <= j < i ==> Judged(refs[order[j]], store.tags, deployment)
      invariant store.failures >= old(store.failures)
      invariant store.failures == old(store.failures) ==> forall j :: 0 <= j < i ==> JudgedExactly(refs[order[j]], store.tags, deployment)
      invariant forall j :: i <= j < |order| ==> Unjudged(refs[order[j]])
      invariant forall a :: a in refs ==> refs[a].namespaces == old(refs[a].namespaces)
    {
      assert order[i] in refs;
      forall j | 0 <= j < |order| && j != i ensures refs[order[j]] != refs[order[i]] { DistinctObjects(order, refs, i, j); }
      ClassifyOne(refs[order[i]], store, deployment);
    }
  }

  /** What the apply loop did with one secret. */
  ghost predicate Applied(status: Status, newValue: string, before: Option<Option<string>>, status': Status, after: Option<Option<string>>)
  {
    if status != NeedsTag then status' == status && after == before
    else
      (status' == Fine && after == Some(Some(newValue))) ||
      (status' == Unreadable && (after == before || after == Some(Some(newValue))))
  }

  /** One secret of the apply loop; nothing but its own tag and status changes. */
  method ApplyOne(ref: SecretRef, store: SecretStore) returns (ok: bool)
    modifies ref`status, store
    ensures Applied(old(ref.status), ref.newValue, old(Get(store.tags, ref.arn)), ref.status, Get(store.tags, ref.arn))
    ensures forall a :: a != ref.arn ==> Get(store.tags, a) == old(Get(store.tags, a))
    ensures old(ref.status) == NeedsTag ==> ref.status == if ok then Fine else Unreadable
    ensures old(ref.status) != NeedsTag ==> ok && ref.status == old(ref.status)
    ensures store.failures == old(store.failures) + if ok then 0 else 1
  {
    ok := true;
    if ref.status == NeedsTag {
      ok := store.TagResource(ref.arn, ref.newValue);
      ref.status := if ok then Fine else Unreadable;
    }
  }

  /** The status and the new value of each secret, by ARN. */
  type Judgements = map<string, (Status, string)>

  ghost function JudgementsOf(refs: map<string, SecretRef>): (r: Judgements)
    reads refs.Values
    ensures r.Keys == refs.Keys
  {
    map a | a in refs :: (refs[a].status, refs[a].newValue)
  }

  /** The loop has been through these secrets and touched nothing else. */
  ghost predicate Through(done: set<string>, was: Judgements, now: Judgements, tags: Tags, tags': Tags)
  {
    && was.Keys == now.Keys
    && (forall a :: a !in done ==> Get(now, a) == Get(was, a) && Get(tags', a) == Get(tags, a))
    && forall a :: a in was && a in done ==>
         Applied(was[a].0, was[a].1, Get(tags, a), now[a].0, Get(tags', a)) && now[a].1 == was[a].1
  }

  /** Those of the secrets that were due for tagging and then had this status. */
  ghost function Became(done: set<string>, was: Judgements, now: Judgements, status: Status): set<string>
  {
    set a | a in done && a in was && a in now && was[a].0 == NeedsTag && now[a].0 == status
  }

  ghost predicate Tallied(done: set<string>, was: Judgements, now: Judgements, tagged: nat, failed: nat)
  {
    tagged == |Became(done, was, now, Fine)| && failed == |Became(done, was, now, Unreadable)|
  }

  /** One turn of the loop, on the secret with this ARN. */
  ghost predicate Turn(arn: string, was: Judgements, now: Judgements, tags: Tags, tags': Tags, due: bool, ok: bool)
  {
    && arn in was
    && due == (was[arn].0 == NeedsTag)
    && now == was[arn := (if due then if ok then Fine else Unreadable else was[arn].0, was[arn].1)]
    && Applied(was[arn].0, was[arn].1, Get(tags, arn), now[arn].0, Get(tags', arn))
    && forall a :: a != arn ==> Get(tags', a) == Get(tags, a)
  }

  method ApplyNext(ref: SecretRef, refs: map<string, SecretRef>, store: SecretStore) returns (due: bool, ok: bool)
    requires ref.arn in refs && refs[ref.arn] == ref && forall a :: a in refs ==> refs[a].arn == a
    modifies ref`status, store
    ensures Turn(ref.arn, old(JudgementsOf(refs)), JudgementsOf(refs), old(store.tags), store.tags, due, ok)
    ensures (due || ok) && store.failures == old(store.failures) + if ok then 0 else 1
  {
    hide Applied;
    due := ref.status == NeedsTag;
    ok := ApplyOne(ref, store);
  }

  /** Writes every tag that is due; the counts are of the secrets tagged and of those that failed. */
  method Apply(order: seq<string>, refs: map<string, SecretRef>, store: SecretStore) returns (tagged: nat, failed: nat)
    requires Table(order, refs)
    modifies set a | a in refs :: refs[a], store
    ensures Through(refs.Keys, old(JudgementsOf(refs)), JudgementsOf(refs), old(store.tags), store.tags)
    ensures Tallied(refs.Keys, old(JudgementsOf(refs)), JudgementsOf(refs), tagged, failed)
    ensures store.failures == old(store.failures) + failed
  {
    hide Through, Tallied, Turn, Became, Table;
    tagged, failed := 0, 0;
    ghost var done: set<string>, was := {}, JudgementsOf(refs);
    NoneDone(was, store.tags);
    for i := 0 to |order|
      invariant forall a :: a in done <==> a in order[..i]
      invariant Through(done, was, JudgementsOf(refs), old(store.tags), store.tags)
      invariant Tallied(done, was, JudgementsOf(refs), tagged, failed)
      invariant store.failures == old(store.failures) + failed
    {
      hide JudgementsOf;
      ghost var arn, now, tags := order[i], JudgementsOf(refs), store.tags;
      NextInTable(order, refs, i);
      var due, ok := ApplyNext(refs[order[i]], refs, store);
      OneMoreThrough(done, arn, was, now, JudgementsOf(refs), old(store.tags), tags, store.tags, due, ok);
      OneMoreTallied(done, arn, was, now, JudgementsOf(refs), old(store.tags), tags, store.tags, due, ok, tagged, failed);
      if due && ok { tagged := tagged + 1; }
      if due && !ok { failed := failed + 1; }
      done := done + {arn};
    }
    WholeTable(order, refs, done);
  }

  lemma NextInTable(order: seq<string>, refs: map<string, SecretRef>, i: nat)
    requires Table(order, refs) && i < |order|
    ensures order[i] in refs && order[i] !in order[..i]
    ensures forall a :: a in refs ==> refs[a].arn == a
    ensures forall a :: a in order[..i + 1] <==> a in order[..i] || a == order[i]
  {
    assert order[..i + 1] == order[..i] + [order[i]];
  }

  lemma WholeTable(order: seq<string>, refs: map<string, SecretRef>, done: set<string>)
    requires Table(order, refs) && forall a :: a in done <==> a in order[..|order|]
    ensures done == refs.Keys
  {
    assert order[..|order|] == order;
  }

  lemma NoneDone(was: Judgements, tags: Tags)
    ensures Through({}, was, was, tags, tags) && Tallied({}, was, was, 0, 0)
  {
    assert Became({}, was, was, Fine) == {} && Became({}, was, was, Unreadable) == {};
  }

  lemma OneMoreTallied(
      done: set<string>, arn: string, was: Judgements, now: Judgements, later: Judgements,
      tags: Tags, tags': Tags, tags'': Tags, due: bool, ok: bool, tagged: nat, failed: nat)
    requires Through(done, was, now, tags, tags') && Turn(arn, now, later, tags', tags'', due, ok) && arn !in done
    requires Tallied(done, was, now, tagged, failed)
    ensures Tallied(done + {arn}, was, later, tagged + if due && ok then 1 else 0, failed + if due && !ok then 1 else 0)
  {
    hide Applied, Became;
    assert Get(now, arn) == Get(was, arn);
    assert arn in was && was[arn] == now[arn] && arn in later;
    assert due == (was[arn].0 == NeedsTag) && (due ==> later[arn].0 == if ok then Fine else Unreadable);
    assert forall a :: a != arn ==> Get(later, a) == Get(now, a);
    hide Through, Turn;
    OneMoreBecame(done, arn, was, now, later, Fine);
    OneMoreBecame(done, arn, was, now, later, Unreadable);
  }

  lemma OneMoreThrough(
      done: set<string>, arn: string, was: Judgements, now: Judgements, later: Judgements,
      tags: Tags, tags': Tags, tags'': Tags, due: bool, ok: bool)
    requires Through(done, was, now, tags, tags') && Turn(arn, now, later, tags', tags'', due, ok) && arn !in done
    ensures Through(done + {arn}, was, later, tags, tags'')
  {
    hide Applied;
    assert Get(now, arn) == Get(was, arn) && Get(tags', arn) == Get(tags, arn);
    forall a | a in was && a in done + {arn}
      ensures Applied(was[a].0, was[a].1, Get(tags, a), later[a].0, Get(tags'', a)) && later[a].1 == was[a].1
    {
    }
    forall a | a !in done + {arn} ensures Get(later, a) == Get(was, a) && Get(tags'', a) == Get(tags, a) {
      assert Get(now, a) == Get(was, a);
    }
  }

  /** Whether or not the next secret gets this status, the others keep theirs. */
  lemma OneMoreBecame(done: set<string>, arn: string, was: Judgements, now: Judgements, later: Judgements, status: Status)
    requires arn !in done && arn in was && arn in later
    requires forall a :: a != arn ==> Get(later, a) == Get(now, a)
    ensures |Became(done + {arn}, was, later, status)| ==
            |Became(done, was, now, status)| + if was[arn].0 == NeedsTag && later[arn].0 == status then 1 else 0
  {
    var fewer, more := Became(done, was, now, status), Became(done + {arn}, was, later, status);
    forall a | a != arn ensures a in more <==> a in fewer {
      assert Get(later, a) == Get(now, a);
    }
    hide Became;
    if arn in more {
      assert more == fewer + {arn};
    } else {
      assert more == fewer;
    }
  }

  // ----- whole runs -----

  /** A run leaves every tag as it was, or writes the value its classification called for. */
  ghost predicate Step(before: Tags, after: Tags, wanted: map<string, set<string>>, deployment: string)
  {
    && after.Keys == before.Keys
    && forall a :: a in before ==>
         after[a] == before[a] ||
         (a in wanted && Verdict(a, wanted[a], deployment, Some(before[a])).0 == NeedsTag &&
          after[a] == Some(Verdict(a, wanted[a], deployment, Some(before[a])).1))
  }

  /** The secret is somebody else's, or its tag lists every namespace that was wanted. */
  ghost predicate Listed(a: string, namespaces: set<string>, deployment: string, before: Tags, after: Tags)
  {
    (AccountOf(a) != "" && AccountOf(a) != deployment) ||
    (a in before && a in after &&
      ((after[a] == before[a] && Judge(namespaces, after[a]).0 == Fine) ||
       (Judge(namespaces, before[a]).0 == NeedsTag && after[a] == Some(Judge(namespaces, before[a]).1))))
  }

  ghost predicate StepAt(a: string, namespaces: set<string>, deployment: string, before: Option<Option<string>>, after: Option<Option<string>>)
  {
    after == before ||
    (before.Some? && Verdict(a, namespaces, deployment, before).0 == NeedsTag &&
     after == Some(Some(Verdict(a, namespaces, deployment, before).1)))
  }

  /** Classified and then applied, a secret has made one step; if its status is not blocking, its tag is in order. */
  lemma JudgedThenApplied(
      a: string, namespaces: set<string>, deployment: string, before: Tags, after: Tags,
      status: Status, newValue: string, status': Status)
    requires JudgedAs(a, namespaces, status, newValue, before, deployment)
    requires Applied(status, newValue, Get(before, a), status', Get(after, a))
    ensures StepAt(a, namespaces, deployment, Get(before, a), Get(after, a))
    ensures !Blocking(status') ==> Listed(a, namespaces, deployment, before, after)
  {
    hide Judge, AccountOf;
    var described: Option<Option<string>> :|
      (described.None? || (a in before && described == Some(before[a]))) &&
      (status, newValue) == Verdict(a, namespaces, deployment, described);
    JudgeNeverUnset(namespaces, if described.Some? then described.value else None);
  }

  lemma JudgeNeverUnset(namespaces: set<string>, tag: Option<string>)
    ensures Judge(namespaces, tag).0 in {Malformed, Fine, OverCapacity, NeedsTag}
  {
  }

  lemma StepsMakeRun(before: Tags, after: Tags, wanted: map<string, set<string>>, deployment: string)
    requires forall a :: if a in wanted then StepAt(a, wanted[a], deployment, Get(before, a), Get(after, a))
                         else Get(after, a) == Get(before, a)
    ensures Step(before, after, wanted, deployment)
  {
    hide Verdict;
    forall a ensures a in after <==> a in before { assert Get(after, a).Some? <==> Get(before, a).Some?; }
    forall a | a in before
      ensures after[a] == before[a] ||
              (a in wanted && Verdict(a, wanted[a], deployment, Some(before[a])).0 == NeedsTag &&
               after[a] == Some(Verdict(a, wanted[a], deployment, Some(before[a])).1))
    {
      assert Get(before, a) == Some(before[a]) && Get(after, a) == Some(after[a]);
    }
  }

  /** 1 when a secret is left that needs a human. */
  method ExitStatus(order: seq<string>, refs: map<string, SecretRef>) returns (exit: int)
    requires Table(order, refs)
    ensures exit == if exists a :: a in refs && Blocking(refs[a].status) then 1 else 0
  {
    exit := 0;
    for i := 0 to |order|
      invariant exit == if exists j :: 0 <= j < i && Blocking(refs[order[j]].status) then 1 else 0
    {
      assert order[i] in refs;
      if Blocking(refs[order[i]].status) { exit := 1; }
    }
  }

  /** What a run in which no call fails makes of one secret: its status and its tag. */
  ghost predicate Faultless(
      a: string, namespaces: set<string>, deployment: string, apply: bool, before: Option<Option<string>>,
      status: Status, after: Option<Option<string>>)
  {
    var (due, value) := Verdict(a, namespaces, deployment, before);
    if apply && due == NeedsTag then status == Fine && after == Some(Some(value))
    else status == due && after == before
  }

  lemma FaultlessTurn(
      a: string, namespaces: set<string>, deployment: string, apply: bool, before: Option<Option<string>>,
      status: Status, newValue: string, status': Status, after: Option<Option<string>>)
    requires (status, newValue) == Verdict(a, namespaces, deployment, before)
    requires if apply then Applied(status, newValue, before, status', after) && (status == NeedsTag ==> status' != Unreadable)
             else status' == status && after == before
    ensures Faultless(a, namespaces, deployment, apply, before, status', after)
  {
    hide Verdict;
  }

  lemma NothingFailed(all: set<string>, was: Judgements, now: Judgements, tagged: nat)
    requires Tallied(all, was, now, tagged, 0)
    ensures forall a :: a in all && a in was && a in now && was[a].0 == NeedsTag ==> now[a].0 != Unreadable
  {
    forall a | a in all && a in was && a in now && was[a].0 == NeedsTag ensures now[a].0 != Unreadable {
      assert a !in Became(all, was, now, Unreadable);
    }
  }

  /** The classification, told by what it found. */
  method ClassifyCollected(
      rows: seq<Row>, order: seq<string>, refs: map<string, SecretRef>, store: SecretStore, deployment: string)
    returns (ghost judged: Judgements)
    requires Collected(rows, order, refs)
    modifies set a | a in refs :: refs[a], store`failures
    ensures judged == JudgementsOf(refs)
    ensures forall a :: a in refs ==> JudgedAs(a, Wanted(rows)[a], judged[a].0, judged[a].1, store.tags, deployment)
    ensures store.failures >= old(store.failures)
    ensures store.failures == old(store.failures) ==>
              forall a :: a in refs ==> judged[a] == Verdict(a, Wanted(rows)[a], deployment, Get(store.tags, a))
  {
    hide Judged, JudgedAs, JudgedExactly, Wanted, Unjudged, Verdict;
    assert forall a :: a in refs ==> refs[a].namespaces == Wanted(rows)[a] by { WantedAre(rows); }
    Classify(order, refs, store, deployment);
    judged := JudgementsOf(refs);
    forall a | a in refs
      ensures JudgedAs(a, Wanted(rows)[a], judged[a].0, judged[a].1, store.tags, deployment)
      ensures store.failures == old(store.failures) ==> judged[a] == Verdict(a, Wanted(rows)[a], deployment, Get(store.tags, a))
    {
      JudgedMeans(refs[a], store.tags, deployment);
    }
  }

  lemma JudgedMeans(ref: SecretRef, tags: Tags, deployment: string)
    ensures Judged(ref, tags, deployment) ==> JudgedAs(ref.arn, ref.namespaces, ref.status, ref.newValue, tags, deployment)
    ensures JudgedExactly(ref, tags, deployment) ==>
              (ref.status, ref.newValue) == Verdict(ref.arn, ref.namespaces, deployment, Get(tags, ref.arn))
  {
    hide Verdict;
  }

  /** Classify, then apply if asked to. */
  method ClassifyAndApply(
      rows: seq<Row>, order: seq<string>, refs: map<string, SecretRef>, store: SecretStore, deployment: string, apply: bool)
    requires Collected(rows, order, refs)
    modifies set a | a in refs :: refs[a], store
    ensures !apply ==> store.tags == old(store.tags)
    ensures forall a :: a !in refs ==> Get(store.tags, a) == old(Get(store.tags, a))
    ensures apply ==> forall a :: a in refs ==>
              StepAt(a, Wanted(rows)[a], deployment, old(Get(store.tags, a)), Get(store.tags, a)) &&
              (!Blocking(refs[a].status) ==> Listed(a, Wanted(rows)[a], deployment, old(store.tags), store.tags))
    ensures store.failures == old(store.failures) ==> forall a :: a in refs ==>
              Faultless(a, Wanted(rows)[a], deployment, apply, old(Get(store.tags, a)), refs[a].status, Get(store.tags, a))
  {
    hide JudgedAs, Applied, Listed, StepAt, Wanted, Unjudged, Faultless, Verdict, Through, Tallied, Blocking;
    ghost var tags := store.tags;
    ghost var judged := ClassifyCollected(rows, order, refs, store, deployment);
    ghost var exact := store.failures == old(store.failures);
    if apply {
      var tagged, failed := Apply(order, refs, store);
      ApplyMeans(refs.Keys, judged, JudgementsOf(refs), tags, store.tags, tagged, failed);
    }
    forall a | a in refs
      ensures apply ==> StepAt(a, Wanted(rows)[a], deployment, Get(tags, a), Get(store.tags, a))
      ensures apply && !Blocking(refs[a].status) ==> Listed(a, Wanted(rows)[a], deployment, tags, store.tags)
      ensures store.failures == old(store.failures) ==>
                Faultless(a, Wanted(rows)[a], deployment, apply, Get(tags, a), refs[a].status, Get(store.tags, a))
    {
      assert JudgementsOf(refs)[a].0 == refs[a].status;
      if apply {
        JudgedThenApplied(a, Wanted(rows)[a], deployment, tags, store.tags, judged[a].0, judged[a].1, refs[a].status);
      }
      if store.failures == old(store.failures) {
        FaultlessTurn(a, Wanted(rows)[a], deployment, apply, Get(tags, a), judged[a].0, judged[a].1, refs[a].status, Get(store.tags, a));
      }
    }
  }

  lemma ApplyMeans(all: set<string>, was: Judgements, now: Judgements, tags: Tags, tags': Tags, tagged: nat, failed: nat)
    requires Through(all, was, now, tags, tags') && Tallied(all, was, now, tagged, failed) && all == was.Keys
    ensures now.Keys == was.Keys
    ensures forall a :: a in was ==> Applied(was[a].0, was[a].1, Get(tags, a), now[a].0, Get(tags', a))
    ensures forall a :: a !in was ==> Get(tags', a) == Get(tags, a)
    ensures failed == 0 ==> forall a :: a in was && was[a].0 == NeedsTag ==> now[a].0 != Unreadable
  {
    hide Applied;
    if failed == 0 { NothingFailed(all, was, now, tagged); }
  }

  lemma WantedAre(rows: seq<Row>)
    ensures forall a :: a in Wanted(rows) ==> Wanted(rows)[a] == NamespacesOf(rows, a)
  {
  }

  /** One run of the script; without a deployment account it gives up before anything else. */
  method Migrate(rows: seq<Row>, store: SecretStore, deployment: Option<string>, apply: bool) returns (exit: int)
    modifies store
    ensures deployment.None? || !apply ==> store.tags == old(store.tags)
    ensures deployment.None? <==> exit == 2
    ensures deployment.Some? ==> Step(old(store.tags), store.tags, Wanted(rows), deployment.value)
    ensures exit == 0 && apply ==>
              forall a :: a in Wanted(rows) ==>
                Listed(a, Wanted(rows)[a], deployment.value, old(store.tags), store.tags)
    ensures 0 <= exit <= 2
    ensures deployment.Some? && store.failures == old(store.failures) ==>
              && store.tags == (if apply then Migrated(old(store.tags), Wanted(rows), deployment.value) else old(store.tags))
              && exit == if NeedsHuman(old(store.tags), Wanted(rows), deployment.value) then 1 else 0
  {
    hide Listed, StepAt, Wanted, Step, Faultless, Migrated, NeedsHuman, Blocking;
    if deployment.None? { return 2; }
    var order, refs := Collect(rows);
    ClassifyAndApply(rows, order, refs, store, deployment.value, apply);
    exit := ExitStatus(order, refs);
    if apply {
      StepsMakeRun(old(store.tags), store.tags, Wanted(rows), deployment.value);
    } else {
      NoStep(store.tags, Wanted(rows), deployment.value);
    }
    if store.failures == old(store.failures) {
      ghost var statuses := map a | a in refs :: refs[a].status;
      FaultlessRun(old(store.tags), store.tags, Wanted(rows), deployment.value, apply, statuses);
    }
  }

  /** The tags after a run with --apply in which no call fails. */
  function Migrated(before: Tags, wanted: map<string, set<string>>, deployment: string): Tags
  {
    map a | a in before ::
      if a in wanted && Verdict(a, wanted[a], deployment, Some(before[a])).0 == NeedsTag
      then Some(Verdict(a, wanted[a], deployment, Some(before[a])).1) else before[a]
  }

  /** Some secret cannot be put in order by the script. */
  ghost predicate NeedsHuman(before: Tags, wanted: map<string, set<string>>, deployment: string)
  {
    exists a :: a in wanted && Blocking(Verdict(a, wanted[a], deployment, Get(before, a)).0)
  }

  /**
   * Written out: a secret without an account in its ARN, or one of the deployment's own that does not exist,
   * whose tag does not parse, or whose tag with what is missing would exceed 256 characters.
   */
  lemma NeedsHumanIff(before: Tags, wanted: map<string, set<string>>, deployment: string)
    ensures NeedsHuman(before, wanted, deployment) <==>
            exists a :: a in wanted && (AccountOf(a) == "" || (AccountOf(a) == deployment && Stuck(wanted[a], Get(before, a))))
  {
    hide AccountOf;
    forall a | a in wanted
      ensures Blocking(Verdict(a, wanted[a], deployment, Get(before, a)).0) <==>
              AccountOf(a) == "" || (AccountOf(a) == deployment && Stuck(wanted[a], Get(before, a)))
    {
    }
  }

  predicate Stuck(namespaces: set<string>, tag: Option<Option<string>>)
  {
    tag.None? ||
    var parsed := if tag.value.None? then Some([]) else ParseTag(tag.value.value);
    parsed.None? ||
    (Missing(namespaces, parsed.value) != [] && |Join(Union(namespaces, parsed.value), " ")| > 256)
  }

  lemma FaultlessRun(
      before: Tags, after: Tags, wanted: map<string, set<string>>, deployment: string, apply: bool, statuses: map<string, Status>)
    requires statuses.Keys == wanted.Keys
    requires forall a :: a in wanted ==> Faultless(a, wanted[a], deployment, apply, Get(before, a), statuses[a], Get(after, a))
    requires forall a :: a !in wanted ==> Get(after, a) == Get(before, a)
    requires !apply ==> after == before
    ensures apply ==> after == Migrated(before, wanted, deployment)
    ensures (exists a :: a in statuses && Blocking(statuses[a])) <==> NeedsHuman(before, wanted, deployment)
  {
    hide Judge, AccountOf;
    forall a ensures a in after <==> a in before {
      assert Get(after, a).Some? <==> a in after;
      assert Get(before, a).Some? <==> a in before;
    }
    forall a | a in wanted
      ensures Blocking(statuses[a]) <==> Blocking(Verdict(a, wanted[a], deployment, Get(before, a)).0)
    {
      assert Faultless(a, wanted[a], deployment, apply, Get(before, a), statuses[a], Get(after, a));
    }
    if exists a :: a in statuses && Blocking(statuses[a]) {
      var a :| a in statuses && Blocking(statuses[a]);
      assert Blocking(Verdict(a, wanted[a], deployment, Get(before, a)).0);
    }
    if NeedsHuman(before, wanted, deployment) {
      var a :| a in wanted && Blocking(Verdict(a, wanted[a], deployment, Get(before, a)).0);
      assert Blocking(statuses[a]);
    }
    if apply {
      forall a | a in before ensures after[a] == Migrated(before, wanted, deployment)[a] {
        assert Get(before, a) == Some(before[a]) && Get(after, a) == Some(after[a]);
        if a in wanted {
          assert Faultless(a, wanted[a], deployment, apply, Get(before, a), statuses[a], Get(after, a));
        }
      }
    }
  }

  lemma NoStep(tags: Tags, wanted: map<string, set<string>>, deployment: string)
    ensures Step(tags, tags, wanted, deployment)
  {
  }

  // ----- any number of runs -----

  /** A history of the tags, run by run, each run with the sources of its day and any failed calls. */
  ghost predicate History(states: seq<Tags>, wanted: seq<map<string, set<string>>>, deployment: string)
  {
    |states| == |wanted| + 1 &&
    forall i :: 0 <= i < |wanted| ==> Step(states[i], states[i + 1], wanted[i], deployment)
  }

  /** Every namespace the sources name is a namespace id. */
  ghost predicate AllIds(wanted: map<string, set<string>>)
  {
    forall a, n :: a in wanted && n in wanted[a] ==> IsNamespaceId(n)
  }

  /** The entries a tag lists; none when there is no tag. */
  function Entries(tag: Option<string>): Option<seq<string>>
  {
    if tag.None? then Some([]) else ParseTag(tag.value)
  }

  /** The tag still parses and has all the old entries, in their places; if it changed, it is within the limit. */
  ghost predicate Grown(before: Option<string>, after: Option<string>)
  {
    Entries(before).Some? ==>
      Entries(after).Some? && Entries(before).value <= Entries(after).value &&
      (after == before || (after.Some? && |after.value| <= TAG_VALUE_MAX && |Entries(after).value| <= 6))
  }

  ghost predicate OffLimits(a: string, tag: Option<string>, deployment: string)
  {
    Entries(tag).None? || (AccountOf(a) != deployment)
  }

  /** A changed tag has grown, entries, order and size, exactly when every text that was missing from it parses. */
  lemma StepGrowsIff(before: Tags, after: Tags, wanted: map<string, set<string>>, deployment: string, a: string)
    requires Step(before, after, wanted, deployment) && a in before && after[a] != before[a]
    ensures a in wanted && Entries(before[a]).Some? && after[a].Some?
    ensures Grown(before[a], after[a]) <==> AllParse(Missing(wanted[a], Entries(before[a]).value))
  {
    hide Judge, ParseTag, IsNamespaceId, AllParse, Missing;
    NeedsTagJudged(a, wanted[a], deployment, before[a]);
    WrittenValue(wanted[a], before[a]);
  }

  /** When the sources name ids it always has. */
  lemma StepGrows(before: Tags, after: Tags, wanted: map<string, set<string>>, deployment: string, a: string)
    requires Step(before, after, wanted, deployment) && a in before && AllIds(wanted)
    ensures Grown(before[a], after[a])
  {
    hide Judge, ParseTag, IsNamespaceId, AllParse, Missing;
    if after[a] == before[a] {
      NotGrown(before[a]);
    } else {
      StepGrowsIff(before, after, wanted, deployment, a);
      IdsParse(wanted[a], Entries(before[a]).value);
    }
  }

  lemma NeedsTagJudged(a: string, namespaces: set<string>, deployment: string, tag: Option<string>)
    requires Verdict(a, namespaces, deployment, Some(tag)).0 == NeedsTag
    ensures Verdict(a, namespaces, deployment, Some(tag)) == Judge(namespaces, tag)
    ensures AccountOf(a) == deployment && Entries(tag).Some?
  {
  }

  lemma GrownTransitive(a: Option<string>, b: Option<string>, c: Option<string>)
    requires Grown(a, b) && Grown(b, c)
    ensures Grown(a, c)
  {
    hide ParseTag;
  }

  /** What the run wrote to the tag, if anything, can be read: the texts it added all parse. */
  ghost predicate WroteReadably(before: Tags, after: Tags, wanted: map<string, set<string>>, a: string)
  {
    a in before && a in after && after[a] != before[a] ==>
      a in wanted && Entries(before[a]).Some? && AllParse(Missing(wanted[a], Entries(before[a]).value))
  }

  ghost predicate AllReadable(states: seq<Tags>, wanted: seq<map<string, set<string>>>, a: string)
    requires |states| == |wanted| + 1
  {
    forall i :: 0 <= i < |wanted| ==> WroteReadably(states[i], states[i + 1], wanted[i], a)
  }

  /**
   * Over any history a tag that could be read has grown, never losing or moving an entry and never outgrowing
   * the limit, exactly when every run that changed it added only texts that parse. One that did not is final.
   */
  lemma {:induction false} TagsGrowIff(
      states: seq<Tags>, wanted: seq<map<string, set<string>>>, deployment: string, a: string)
    requires History(states, wanted, deployment) && a in states[0] && Entries(states[0][a]).Some?
    ensures a in states[|wanted|]
    ensures Grown(states[0][a], states[|wanted|][a]) <==> AllReadable(states, wanted, a)
    ensures Entries(states[|wanted|][a]).Some? <==> AllReadable(states, wanted, a)
    decreases |wanted|
  {
    hide Step, Grown, AllReadable, WroteReadably, Entries;
    if wanted == [] {
      NotGrown(states[0][a]);
      NothingWritten(states, wanted, a);
    } else {
      var n := |wanted| - 1;
      assert Step(states[n], states[n + 1], wanted[n], deployment);
      EarlierHistory(states, wanted, deployment);
      TagsGrowIff(states[..n + 1], wanted[..n], deployment, a);
      SameSecrets(states[n], states[n + 1], wanted[n], deployment);
      ReadableSnoc(states, wanted, a);
      LastStep(states[0][a], states[n], states[n + 1], wanted[n], deployment, a);
    }
  }

  lemma NothingWritten(states: seq<Tags>, wanted: seq<map<string, set<string>>>, a: string)
    requires |states| == 1 && wanted == []
    ensures AllReadable(states, wanted, a)
  {
  }

  lemma ReadableSnoc(states: seq<Tags>, wanted: seq<map<string, set<string>>>, a: string)
    requires |states| == |wanted| + 1 && wanted != []
    ensures var n := |wanted| - 1;
            AllReadable(states, wanted, a) <==>
            AllReadable(states[..n + 1], wanted[..n], a) && WroteReadably(states[n], states[n + 1], wanted[n], a)
  {
    hide WroteReadably;
    var n := |wanted| - 1;
    forall i | 0 <= i < n
      ensures WroteReadably(states[..n + 1][i], states[..n + 1][i + 1], wanted[..n][i], a) <==>
              WroteReadably(states[i], states[i + 1], wanted[i], a)
    {
    }
    if AllReadable(states[..n + 1], wanted[..n], a) && WroteReadably(states[n], states[n + 1], wanted[n], a) {
      forall i | 0 <= i < |wanted| ensures WroteReadably(states[i], states[i + 1], wanted[i], a) {
        if i < n { assert WroteReadably(states[..n + 1][i], states[..n + 1][i + 1], wanted[..n][i], a); }
      }
    }
  }

  /** One more run on a tag that has grown so far, or on one that can no longer be read and so is not touched. */
  lemma LastStep(
      first: Option<string>, before: Tags, after: Tags, wanted: map<string, set<string>>, deployment: string, a: string)
    requires Step(before, after, wanted, deployment) && a in before && a in after && Entries(first).Some?
    requires Grown(first, before[a]) <==> Entries(before[a]).Some?
    ensures var readable := Entries(before[a]).Some? && WroteReadably(before, after, wanted, a);
            (Grown(first, after[a]) <==> readable) && (Entries(after[a]).Some? <==> readable)
  {
    hide Step, Entries, AllParse, Missing;
    if after[a] != before[a] {
      StepGrowsIff(before, after, wanted, deployment, a);
      WrittenTagParsesIff(before, after, wanted, deployment, a);
      if Entries(after[a]).Some? { GrownTransitive(first, before[a], after[a]); }
    }
  }

  /** When the sources name ids: a readable tag stays readable, never loses or moves an entry, and never outgrows the limit. */
  lemma TagsOnlyGrow(states: seq<Tags>, wanted: seq<map<string, set<string>>>, deployment: string, a: string)
    requires History(states, wanted, deployment) && a in states[0]
    requires forall i :: 0 <= i < |wanted| ==> AllIds(wanted[i])
    ensures a in states[|wanted|] && Grown(states[0][a], states[|wanted|][a])
  {
    hide Step, Entries, AllIds, AccountOf;
    if Entries(states[0][a]).None? {
      OffLimitsNeverWritten(states, wanted, deployment, a);
    } else {
      forall i | 0 <= i < |wanted| ensures WroteReadably(states[i], states[i + 1], wanted[i], a) {
        assert Step(states[i], states[i + 1], wanted[i], deployment);
        if a in states[i] && a in states[i + 1] && states[i + 1][a] != states[i][a] {
          StepGrowsIff(states[i], states[i + 1], wanted[i], deployment, a);
          IdsParseIn(wanted[i], a, Entries(states[i][a]).value);
        }
      }
      TagsGrowIff(states, wanted, deployment, a);
    }
  }

  lemma IdsParseIn(wanted: map<string, set<string>>, a: string, existing: seq<string>)
    requires AllIds(wanted) && a in wanted
    ensures AllParse(Missing(wanted[a], existing))
  {
    hide IsNamespaceId, AllParse, Missing;
    IdsParse(wanted[a], existing);
  }

  lemma NotGrown(tag: Option<string>)
    ensures Grown(tag, tag)
  {
  }

  lemma SameSecrets(before: Tags, after: Tags, wanted: map<string, set<string>>, deployment: string)
    requires Step(before, after, wanted, deployment)
    ensures before.Keys == after.Keys
  {
  }

  lemma EarlierHistory(states: seq<Tags>, wanted: seq<map<string, set<string>>>, deployment: string)
    requires History(states, wanted, deployment) && wanted != []
    ensures History(states[..|wanted|], wanted[..|wanted| - 1], deployment)
  {
    hide Step;
    var n := |wanted| - 1;
    forall i | 0 <= i < n ensures Step(states[..n + 1][i], states[..n + 1][i + 1], wanted[..n][i], deployment) {
      assert Step(states[i], states[i + 1], wanted[i], deployment);
    }
  }

  /** Over any history a tag that does not parse, and a tag in another account, is never written. */
  lemma {:induction false} OffLimitsNeverWritten(
      states: seq<Tags>, wanted: seq<map<string, set<string>>>, deployment: string, a: string)
    requires History(states, wanted, deployment) && a in states[0] && OffLimits(a, states[0][a], deployment)
    ensures a in states[|wanted|] && states[|wanted|][a] == states[0][a]
    decreases |wanted|
  {
    hide Step, AccountOf, ParseTag;
    if wanted != [] {
      var n := |wanted| - 1;
      assert Step(states[n], states[n + 1], wanted[n], deployment);
      EarlierHistory(states, wanted, deployment);
      OffLimitsNeverWritten(states[..n + 1], wanted[..n], deployment, a);
      SameSecrets(states[n], states[n + 1], wanted[n], deployment);
      OffLimitsStep(states[n], states[n + 1], wanted[n], deployment, a);
    }
  }

  lemma OffLimitsStep(before: Tags, after: Tags, wanted: map<string, set<string>>, deployment: string, a: string)
    requires Step(before, after, wanted, deployment) && a in before && OffLimits(a, before[a], deployment)
    ensures after[a] == before[a]
  {
    hide Judge, ParseTag, AccountOf;
    if a in wanted && Verdict(a, wanted[a], deployment, Some(before[a])).0 == NeedsTag {
      NeedsTagJudged(a, wanted[a], deployment, before[a]);
    }
  }

  /** The secret is ours and a second write to it follows the first. */
  predicate RepeatsAt(a: string, before: Tags, wanted: map<string, set<string>>, deployment: string)
  {
    a in wanted && a in before && AccountOf(a) != "" && AccountOf(a) == deployment && Repeats(wanted[a], before[a])
  }

  /**
   * After a run that leaves every tag listing what was wanted, another run over the same sources writes
   * nothing, whatever calls fail in it, unless some secret repeats.
   */
  lemma SecondRunWritesNothing(before: Tags, mid: Tags, after: Tags, wanted: map<string, set<string>>, deployment: string)
    requires forall a :: !RepeatsAt(a, before, wanted, deployment)
    requires Step(before, mid, wanted, deployment) && Step(mid, after, wanted, deployment)
    requires forall a :: a in wanted ==> Listed(a, wanted[a], deployment, before, mid)
    ensures after == mid
  {
    hide Judge, AccountOf, Repeats;
    forall a | a in mid ensures after[a] == mid[a] {
      if a in wanted && Verdict(a, wanted[a], deployment, Some(mid[a])).0 == NeedsTag {
        NeedsTagJudged(a, wanted[a], deployment, mid[a]);
        assert Listed(a, wanted[a], deployment, before, mid) && !RepeatsAt(a, before, wanted, deployment);
        if Judge(wanted[a], before[a]).0 == NeedsTag { RepeatsIff(wanted[a], before[a]); }
      }
    }
  }

  /** A secret of ours that the sources name. */
  predicate Ours(a: string, wanted: map<string, set<string>>, deployment: string)
  {
    a in wanted && AccountOf(a) != "" && AccountOf(a) == deployment
  }

  /**
   * The script calls itself idempotent: once migrated, everything is reported `ok`. It is so exactly when every
   * secret is the deployment's own and the texts it wrote into tags, with the others of the same secrets, are
   * all ids. Of the deployment's own secrets it is so exactly under the second condition.
   */
  lemma SecondRunReportsOkIff(before: Tags, mid: Tags, wanted: map<string, set<string>>, deployment: string)
    requires Step(before, mid, wanted, deployment)
    requires forall a :: a in wanted ==> Listed(a, wanted[a], deployment, before, mid)
    ensures OwnAreOk(mid, wanted, deployment) <==> WroteIds(before, wanted, deployment)
    ensures AllAreOk(mid, wanted, deployment) <==>
            (forall a :: a in wanted ==> Ours(a, wanted, deployment)) && WroteIds(before, wanted, deployment)
  {
    hide Judge, AccountOf, IsNamespaceId, Step;
    forall a | Ours(a, wanted, deployment)
      ensures a in mid && a in before
      ensures Judge(wanted[a], mid[a]).0 == Fine <==>
              (Judge(wanted[a], before[a]).0 == NeedsTag ==> forall n :: n in wanted[a] ==> IsNamespaceId(n))
    {
      assert Listed(a, wanted[a], deployment, before, mid);
      if Judge(wanted[a], before[a]).0 == NeedsTag { SettledIff(wanted[a], before[a]); }
    }
    assert OwnAreOk(mid, wanted, deployment) <==> WroteIds(before, wanted, deployment);
    forall a | a in wanted && !Ours(a, wanted, deployment)
      ensures Verdict(a, wanted[a], deployment, Get(mid, a)).0 != Fine
    {
    }
  }

  /** What a second run in which no call fails reports of a secret. */
  ghost predicate IsOk(a: string, mid: Tags, wanted: map<string, set<string>>, deployment: string)
    requires a in wanted
  {
    Verdict(a, wanted[a], deployment, Get(mid, a)).0 == Fine
  }

  ghost predicate AllAreOk(mid: Tags, wanted: map<string, set<string>>, deployment: string)
  {
    forall a :: a in wanted ==> IsOk(a, mid, wanted, deployment)
  }

  ghost predicate OwnAreOk(mid: Tags, wanted: map<string, set<string>>, deployment: string)
  {
    forall a :: Ours(a, wanted, deployment) ==> IsOk(a, mid, wanted, deployment)
  }

  /** Every secret of ours that was due for a tag is wanted by ids only. */
  ghost predicate WroteIds(before: Tags, wanted: map<string, set<string>>, deployment: string)
  {
    forall a :: Ours(a, wanted, deployment) && a in before && Judge(wanted[a], before[a]).0 == NeedsTag ==>
      forall n :: n in wanted[a] ==> IsNamespaceId(n)
  }

  /** When the sources name ids, none repeats. */
  lemma IdsNeverRepeat(before: Tags, wanted: map<string, set<string>>, deployment: string)
    requires AllIds(wanted)
    ensures forall a :: !RepeatsAt(a, before, wanted, deployment)
  {
    hide Repeats, IsNamespaceId, AccountOf;
    forall a ensures !RepeatsAt(a, before, wanted, deployment) {
      if a in wanted && a in before { IdsSettle(wanted[a], before[a]); }
    }
  }

  /** The exact condition for a repeated run of the script, no call failing, to have nothing left to write. */
  lemma SecondRunWritesIff(before: Tags, wanted: map<string, set<string>>, deployment: string)
    ensures var mid := Migrated(before, wanted, deployment);
            Migrated(mid, wanted, deployment) == mid <==> forall a :: !RepeatsAt(a, before, wanted, deployment)
  {
    hide Judge, AccountOf, Repeats, Migrated;
    var mid := Migrated(before, wanted, deployment);
    var after := Migrated(mid, wanted, deployment);
    SameKeys(before, wanted, deployment);
    SameKeys(mid, wanted, deployment);
    forall a | a in before ensures after[a] == mid[a] <==> !RepeatsAt(a, before, wanted, deployment) {
      SecondWrite(a, before, wanted, deployment);
    }
  }

  lemma SameKeys(before: Tags, wanted: map<string, set<string>>, deployment: string)
    ensures Migrated(before, wanted, deployment).Keys == before.Keys
  {
  }

  lemma SecondWrite(a: string, before: Tags, wanted: map<string, set<string>>, deployment: string)
    requires a in before
    ensures var mid := Migrated(before, wanted, deployment);
            Migrated(mid, wanted, deployment)[a] == mid[a] <==> !RepeatsAt(a, before, wanted, deployment)
  {
    hide Judge, AccountOf, Repeats;
    if a in wanted && AccountOf(a) != "" && AccountOf(a) == deployment {
      assert Verdict(a, wanted[a], deployment, Some(before[a])) == Judge(wanted[a], before[a]);
      if Judge(wanted[a], before[a]).0 == NeedsTag {
        RepeatsIff(wanted[a], before[a]);
        var value := Judge(wanted[a], before[a]).1;
        assert Verdict(a, wanted[a], deployment, Some(Some(value))) == Judge(wanted[a], Some(value));
      } else {
        DueOnly(wanted[a], before[a]);
      }
    }
  }

  lemma DueOnly(namespaces: set<string>, tag: Option<string>)
    ensures Repeats(namespaces, tag) ==> Judge(namespaces, tag).0 == NeedsTag
  {
  }

  /**
   * When the sources do not name ids: the written tag parses exactly when each missing namespace text
   * does, so one bad entry makes the tag malformed and takes every namespace on it down.
   */
  lemma WrittenTagParsesIff(before: Tags, after: Tags, wanted: map<string, set<string>>, deployment: string, a: string)
    requires Step(before, after, wanted, deployment) && a in before && after[a] != before[a]
    ensures Entries(before[a]).Some? && after[a].Some?
    ensures Entries(after[a]).Some? <==> AllParse(Missing(wanted[a], Entries(before[a]).value))
  {
    hide Judge, AccountOf, ParseTag;
    NeedsTagJudged(a, wanted[a], deployment, before[a]);
    WrittenValue(wanted[a], before[a]);
  }

  /** So a single text that is no id, and fits, makes a run write a tag nobody can read. */
  lemma UnreadableTagWritten(arn: string, text: string, deployment: string)
    requires AccountOf(arn) == deployment != "" && |text| <= TAG_VALUE_MAX && ParseTag(text).None?
    ensures var before, after := map[arn := None], map[arn := Some(text)];
            && Migrated(before, map[arn := {text}], deployment) == after
            && Step(before, after, map[arn := {text}], deployment)
            && Entries(before[arn]).Some? && Entries(after[arn]).None?
  {
    hide Judge, AccountOf, ParseTag;
    FirstWrite(text);
  }

  /** And two ids taken for one make every run add them once more, while there is room. */
  lemma RepeatedRun(arn: string, a: string, b: string, deployment: string)
    requires AccountOf(arn) == deployment != "" && IsNamespaceId(a) && IsNamespaceId(b)
    ensures var wanted := map[arn := {a + " " + b}];
            var mid := Migrated(map[arn := None], wanted, deployment);
            Migrated(mid, wanted, deployment) != mid
  {
    hide Repeats, AccountOf, Migrated, IsNamespaceId;
    var before: Tags := map[arn := None];
    var wanted := map[arn := {a + " " + b}];
    TwoInOneRepeats(a, b);
    assert RepeatsAt(arn, before, wanted, deployment);
    SecondRunWritesIff(before, wanted, deployment);
  }
}
