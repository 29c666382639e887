/**
 * Which datasource a table reference is routed to (packages/vkg/translate-server.py).
 *
 * `LoadTableRouting` folds the table mappings into a dictionary; `ResolveRouting` reads it for the
 * references of one query. A bare name several tables share must be published as ambiguous.
 */
module TableRouting {
  import opened Text
  import opened Ordering
  import SqlNames

  /** One logical table of one triples map; an absent annotation is "". */
  datatype Mapping = Mapping(tableName: string, datasourceId: string, sourceSchema: string) {

    /** Tables with no name or with neither annotation never enter the routing. */
    predicate Registers() {
      tableName != "" && (datasourceId != "" || sourceSchema != "")
    }

    function Parts(): (r: seq<string>)
      ensures r != []
    {
      var raw := SqlNames.DOTS.Split(tableName, 0);
      seq(|raw|, i requires 0 <= i < |raw| => SqlNames.Unquoted(raw[i]))
    }

    function Ref(): string { Join(Parts(), ".") }

    function Bare(): string { Parts()[|Parts()| - 1] }

    function URef(): string { Upper(Ref()) }

    function UBare(): string { Upper(Bare()) }

    function Entry(): Entry { Route(datasourceId, sourceSchema) }

    /** The keys this mapping assigns. */
    predicate Writes(k: string) {
      Registers() && (k == Ref() || k == URef() || k == Bare() || k == UBare())
    }

    /** The upper-case keys this mapping assigns. */
    predicate Touches(k: string) {
      Registers() && (k == URef() || k == UBare())
    }
  }

  datatype Entry =
    | Route(datasourceId: string, sourceSchema: string)
    | Ambiguous(candidates: string)

  /** The qualified names, upper-cased, of the registered tables that answer to the bare name `b`. */
  function Owners(ms: seq<Mapping>, b: string): set<string>
  {
    set m | m in ms && m.Registers() && m.UBare() == b :: m.URef()
  }

  function Marker(owners: set<string>): Entry
  {
    Ambiguous(Join(Sorted(owners), ","))
  }

  /** What `m` assigns to key `k` when the mappings `seen`, `m` included, have been read. */
  function Assigned(seen: seq<Mapping>, m: Mapping, k: string): Entry
  {
    if (k == m.Bare() || k == m.UBare()) && |Owners(seen, m.UBare())| > 1
    then Marker(Owners(seen, m.UBare()))
    else m.Entry()
  }

  /** The dictionary after reading `ms` in this order: the last mapping that assigned the key decides. */
  function Published(ms: seq<Mapping>, k: string): Option<Entry>
  {
    if ms == [] then None
    else
      var m := ms[|ms| - 1];
      if m.Writes(k) then Some(Assigned(ms, m, k)) else Published(ms[..|ms| - 1], k)
  }

  lemma OwnersSnoc(ms: seq<Mapping>, m: Mapping, b: string)
    ensures Owners(ms + [m], b) ==
            if m.Registers() && m.UBare() == b then Owners(ms, b) + {m.URef()} else Owners(ms, b)
  {
    var more := Owners(ms + [m], b);
    forall u | u in Owners(ms, b) ensures u in more {
      var x :| x in ms && x.Registers() && x.UBare() == b && x.URef() == u;
      assert x in ms + [m];
    }
    assert m in ms + [m];
  }

  ghost predicate Indexes(bareOwners: map<string, set<string>>, seen: seq<Mapping>)
  {
    forall b :: (if b in bareOwners then bareOwners[b] else {}) == Owners(seen, b)
  }

  ghost predicate Holds(routing: map<string, Entry>, seen: seq<Mapping>)
  {
    forall k :: Get(routing, k) == Published(seen, k)
  }

  lemma IndexStep(bareOwners: map<string, set<string>>, before: seq<Mapping>, m: Mapping, owners: set<string>)
    requires Indexes(bareOwners, before) && m.Registers()
    requires owners == (if m.UBare() in bareOwners then bareOwners[m.UBare()] else {}) + {m.URef()}
    ensures owners == Owners(before + [m], m.UBare())
    ensures Indexes(bareOwners[m.UBare() := owners], before + [m])
  {
    forall b ensures Owners(before + [m], b) ==
                     if m.UBare() == b then Owners(before, b) + {m.URef()} else Owners(before, b)
    {
      OwnersSnoc(before, m, b);
    }
  }

  lemma PublishedSnoc(before: seq<Mapping>, m: Mapping, k: string)
    ensures Published(before + [m], k) ==
            if m.Writes(k) then Some(Assigned(before + [m], m, k)) else Published(before, k)
  {
    var seen := before + [m];
    assert seen[..|seen| - 1] == before && seen[|seen| - 1] == m;
  }

  /** The four assignments one mapping makes, in the order the loader makes them. */
  function FourWrites(routing: map<string, Entry>, ref: string, bare: string, entry: Entry, bareValue: Entry)
    : (r: map<string, Entry>)
    ensures forall k :: Get(r, k) == if k == bare || k == Upper(bare) then Some(bareValue)
                                     else if k == ref || k == Upper(ref) then Some(entry)
                                     else Get(routing, k)
  {
    routing[ref := entry][Upper(ref) := entry][bare := bareValue][Upper(bare) := bareValue]
  }

  lemma RoutingStep(routing: map<string, Entry>, before: seq<Mapping>, m: Mapping, owners: set<string>, bareValue: Entry)
    requires Holds(routing, before) && m.Registers()
    requires owners == Owners(before + [m], m.UBare())
    requires bareValue == if |owners| > 1 then Marker(owners) else m.Entry()
    ensures Holds(FourWrites(routing, m.Ref(), m.Bare(), m.Entry(), bareValue), before + [m])
  {
    forall k
      ensures Get(FourWrites(routing, m.Ref(), m.Bare(), m.Entry(), bareValue), k) == Published(before + [m], k)
    {
      PublishedSnoc(before, m, k);
      assert Get(routing, k) == Published(before, k);
    }
  }

  lemma SkipStep(bareOwners: map<string, set<string>>, routing: map<string, Entry>, before: seq<Mapping>, m: Mapping)
    requires Indexes(bareOwners, before) && Holds(routing, before) && !m.Registers()
    ensures Indexes(bareOwners, before + [m]) && Holds(routing, before + [m])
  {
    var seen := before + [m];
    assert seen[..|seen| - 1] == before;
    forall b ensures Owners(seen, b) == Owners(before, b) { OwnersSnoc(before, m, b); }
    forall k ensures Published(seen, k) == Published(before, k) {}
  }

  /** One turn of the loader's loop. */
  method ReadMapping(bareOwners: map<string, set<string>>, routing: map<string, Entry>, ghost before: seq<Mapping>, m: Mapping)
    returns (bareOwners': map<string, set<string>>, routing': map<string, Entry>)
    requires Indexes(bareOwners, before) && Holds(routing, before)
    ensures Indexes(bareOwners', before + [m]) && Holds(routing', before + [m])
  {
    hide Holds, Indexes, Owners, Published, Sorted, Upper, Join, SqlNames.Unquoted, Mapping.Parts;
    if m.tableName != "" && (m.datasourceId != "" || m.sourceSchema != "") {
      var parts := m.Parts();
      var bare := parts[|parts| - 1];
      var ref := Join(parts, ".");
      var entry := Route(m.datasourceId, m.sourceSchema);
      routing' := routing[ref := entry][Upper(ref) := entry];
      var owners := (if Upper(bare) in bareOwners then bareOwners[Upper(bare)] else {}) + {Upper(ref)};
      IndexStep(bareOwners, before, m, owners);
      bareOwners' := bareOwners[Upper(bare) := owners];
      if |owners| > 1 {
        var marker := Ambiguous(Join(Sorted(owners), ","));
        routing' := routing'[bare := marker][Upper(bare) := marker];
        RoutingStep(routing, before, m, owners, marker);
      } else {
        routing' := routing'[bare := entry][Upper(bare) := entry];
        RoutingStep(routing, before, m, owners, entry);
      }
    } else {
      bareOwners', routing' := bareOwners, routing;
      SkipStep(bareOwners, routing, before, m);
    }
  }

  /** The loader's loop over the mapping tables. */
  method LoadTableRouting(mappings: seq<Mapping>) returns (routing: map<string, Entry>)
    ensures Holds(routing, mappings)
  {
    routing := map[];
    var bareOwners: map<string, set<string>> := map[];
    var i := 0;
    while i < |mappings|
      invariant 0 <= i <= |mappings|
      invariant Indexes(bareOwners, mappings[..i])
      invariant Holds(routing, mappings[..i])
    {
      assert mappings[..i + 1] == mappings[..i] + [mappings[i]];
      bareOwners, routing := ReadMapping(bareOwners, routing, mappings[..i], mappings[i]);
      i := i + 1;
    }
    assert mappings[..i] == mappings;
  }

  // ----- the closed form on upper-case keys -----

  /** The value of key `k` once all of `ms` is read, if `m` is the last of `ms` to assign it. */
  function Final(ms: seq<Mapping>, m: Mapping, k: string): Entry
  {
    if k == m.UBare() && |Owners(ms, k)| > 1 then Marker(Owners(ms, k)) else m.Entry()
  }

  function LastTouching(ms: seq<Mapping>, k: string): (r: Option<Mapping>)
    ensures r.None? <==> forall m :: m in ms ==> !m.Touches(k)
    ensures r.Some? ==> r.value in ms && r.value.Touches(k)
  {
    if ms == [] then None
    else
      var m, before := ms[|ms| - 1], ms[..|ms| - 1];
      assert ms == before + [m];
      if m.Touches(k) then Some(m) else LastTouching(before, k)
  }

  lemma WritesUpper(m: Mapping, k: string)
    requires Upper(k) == k
    ensures m.Writes(k) <==> m.Touches(k)
    ensures m.Registers() ==> (k == m.Bare() || k == m.UBare() <==> k == m.UBare())
  {
  }

  /** Key by key, the dictionary holds the final value of the last mapping that touches the key. */
  lemma {:induction false} PublishedClosedForm(ms: seq<Mapping>, k: string)
    requires Upper(k) == k
    ensures Published(ms, k) == match LastTouching(ms, k)
                                case None => None
                                case Some(m) => Some(Final(ms, m, k))
  {
    if ms != [] {
      var m, before := ms[|ms| - 1], ms[..|ms| - 1];
      assert ms == before + [m];
      WritesUpper(m, k);
      OwnersSnoc(before, m, k);
      if !m.Touches(k) {
        PublishedClosedForm(before, k);
      }
    }
  }

  // ----- order independence -----

  ghost predicate OrderFree(ms: seq<Mapping>)
  {
    forall p: seq<Mapping>, k :: multiset(p) == multiset(ms) && Upper(k) == k ==> Published(p, k) == Published(ms, k)
  }

  /** Any two mappings that touch the key would leave the same value in it. */
  ghost predicate SameFinalAt(ms: seq<Mapping>, k: string)
  {
    forall m, n :: m in ms && n in ms && m.Touches(k) && n.Touches(k) ==> Final(ms, m, k) == Final(ms, n, k)
  }

  /** A bare name that several tables share is not the qualified name of a table with another bare name. */
  ghost predicate SharedApart(ms: seq<Mapping>, k: string)
  {
    forall n :: n in ms && n.Registers() && n.URef() == k ==> n.UBare() == k
  }

  /** The tables that touch the key have the same annotations. */
  ghost predicate SameEntry(ms: seq<Mapping>, k: string)
  {
    forall m, n :: m in ms && n in ms && m.Touches(k) && n.Touches(k) ==> m.Entry() == n.Entry()
  }

  /** What a reader of the mapping file can check: a shared bare name stands apart, and elsewhere annotations agree. */
  ghost predicate AgreeAt(ms: seq<Mapping>, k: string)
  {
    if |Owners(ms, k)| > 1 then SharedApart(ms, k) else SameEntry(ms, k)
  }

  ghost predicate Agree(ms: seq<Mapping>)
  {
    forall k :: AgreeAt(ms, k)
  }

  lemma AgreeAtIff(ms: seq<Mapping>, k: string)
    ensures SameFinalAt(ms, k) <==> AgreeAt(ms, k)
  {
    hide Mapping.URef, Mapping.UBare, Mapping.Registers, Sorted, Upper;
    if |Owners(ms, k)| > 1 {
      var u :| u in Owners(ms, k);
      var m :| m in ms && m.Registers() && m.UBare() == k && m.URef() == u;
      assert m.Touches(k) && Final(ms, m, k).Ambiguous?;
      if SameFinalAt(ms, k) {
        forall n | n in ms && n.Registers() && n.URef() == k ensures n.UBare() == k {
          assert n.Touches(k);
          assert Final(ms, n, k) == Final(ms, m, k);
        }
      }
    } else {
      assert forall n :: n in ms ==> Final(ms, n, k) == n.Entry();
    }
  }

  lemma SameMembers(p: seq<Mapping>, ms: seq<Mapping>)
    requires multiset(p) == multiset(ms)
    ensures forall m :: m in p <==> m in ms
    ensures forall b :: Owners(p, b) == Owners(ms, b)
  {
    forall m ensures m in p <==> m in ms {
      assert m in p <==> m in multiset(p);
      assert m in ms <==> m in multiset(ms);
    }
  }

  lemma MovedLast(ms: seq<Mapping>, m: Mapping, k: string) returns (p: seq<Mapping>)
    requires m in ms && m.Touches(k)
    ensures multiset(p) == multiset(ms)
    ensures Upper(k) == k && Published(p, k) == Some(Final(ms, m, k))
  {
    var i :| 0 <= i < |ms| && ms[i] == m;
    p := ms[..i] + ms[i + 1..] + [m];
    assert ms == ms[..i] + [m] + ms[i + 1..];
    SameMembers(p, ms);
    UpperIdempotent(m.Ref());
    UpperIdempotent(m.Bare());
    PublishedClosedForm(p, k);
  }

  /** At one key: whichever mapping comes last, the value is the same. */
  lemma OrderFreeAt(ms: seq<Mapping>, p: seq<Mapping>, k: string)
    requires SameFinalAt(ms, k) && multiset(p) == multiset(ms) && Upper(k) == k
    ensures Published(p, k) == Published(ms, k)
  {
    SameMembers(p, ms);
    PublishedClosedForm(p, k);
    PublishedClosedForm(ms, k);
    var x, y := LastTouching(p, k), LastTouching(ms, k);
    if x.Some? && y.Some? {
      assert Final(ms, x.value, k) == Final(ms, y.value, k);
      assert Final(p, x.value, k) == Final(ms, x.value, k);
    }
  }

  lemma OrderFreeAgrees(ms: seq<Mapping>, m: Mapping, n: Mapping, k: string)
    requires OrderFree(ms) && m in ms && n in ms && m.Touches(k) && n.Touches(k)
    ensures Final(ms, m, k) == Final(ms, n, k)
  {
    var p := MovedLast(ms, m, k);
    var q := MovedLast(ms, n, k);
    assert Published(p, k) == Published(ms, k) == Published(q, k);
  }

  /**
   * The exact condition for the loader's result not to depend on the order the graph yields mappings in,
   * said of the mappings alone.
   */
  lemma OrderFreeIff(ms: seq<Mapping>)
    ensures OrderFree(ms) <==> Agree(ms)
  {
    if Agree(ms) {
      forall p: seq<Mapping>, k | multiset(p) == multiset(ms) && Upper(k) == k
        ensures Published(p, k) == Published(ms, k)
      {
        AgreeAtIff(ms, k);
        OrderFreeAt(ms, p, k);
      }
    }
    if OrderFree(ms) {
      forall k ensures AgreeAt(ms, k) {
        forall m, n | m in ms && n in ms && m.Touches(k) && n.Touches(k) ensures Final(ms, m, k) == Final(ms, n, k) {
          OrderFreeAgrees(ms, m, n, k);
        }
        AgreeAtIff(ms, k);
      }
    }
  }

  // ----- names the design is meant for -----

  /** Bare names without a dot: no quoted identifier hides one. */
  ghost predicate DotFree(ms: seq<Mapping>)
  {
    forall m :: m in ms && m.Registers() ==> '.' !in m.Bare()
  }

  /** No two registered tables have the same qualified name up to case. */
  ghost predicate DistinctRefs(ms: seq<Mapping>)
  {
    forall m, n :: m in ms && n in ms && m.Registers() && n.Registers() && m.URef() == n.URef() ==> m == n
  }

  lemma UpperDot(s: string)
    ensures '.' in Upper(s) <==> '.' in s
  {
    forall i | 0 <= i < |s| ensures Upper(s)[i] == '.' <==> s[i] == '.' {}
  }

  lemma {:induction false} JoinDots(parts: seq<string>)
    requires parts != []
    ensures '.' !in Join(parts, ".") ==> |parts| == 1 && Join(parts, ".") == parts[0]
  {
    if |parts| > 1 {
      var s := parts[0] + "." + Join(parts[1..], ".");
      assert s[|parts[0]|] == '.';
    }
  }

  /** A dotted key can only be a qualified name, an undotted key only a bare name. */
  lemma KeyKind(m: Mapping, k: string)
    requires m.Touches(k) && ('.' !in m.Bare() || '.' !in k)
    ensures if '.' in k then k == m.URef() && k != m.UBare() else k == m.UBare()
  {
    UpperDot(m.Bare());
    UpperDot(m.Ref());
    JoinDots(m.Parts());
  }

  /** Tables that touch a key in one way and have distinct qualified names would all leave the same in it. */
  lemma OneWayAgrees(ms: seq<Mapping>, k: string)
    requires OneWay(ms, k) && DistinctRefs(ms)
    ensures SameFinalAt(ms, k)
  {
    hide Sorted, Upper;
    forall m, n | m in ms && n in ms && m.Touches(k) && n.Touches(k) ensures Final(ms, m, k) == Final(ms, n, k) {
      if m.UBare() == k && |Owners(ms, k)| <= 1 {
        AtMostOne(Owners(ms, k), m.URef(), n.URef());
      }
    }
  }

  lemma AgreeWhenClean(ms: seq<Mapping>)
    requires DotFree(ms) && DistinctRefs(ms)
    ensures Agree(ms)
  {
    forall k ensures AgreeAt(ms, k) {
      CleanIsOneWay(ms, k);
      OneWayAgrees(ms, k);
      AgreeAtIff(ms, k);
    }
  }

  /** The design's own case: dot-free bare names and refs distinct up to case make the order irrelevant. */
  lemma OrderFreeWhenClean(ms: seq<Mapping>)
    requires DotFree(ms) && DistinctRefs(ms)
    ensures OrderFree(ms)
  {
    AgreeWhenClean(ms);
    OrderFreeIff(ms);
  }

  lemma AtMostOne(s: set<string>, a: string, b: string)
    requires |s| <= 1 && a in s && b in s
    ensures a == b
  {
    var rest := s - {a};
    assert |rest| == |s| - 1;
    assert rest == {};
  }

  // ----- one answer, or none -----

  /** The registered tables, by qualified upper-case name, that the upper-case key `k` may mean. */
  function Answers(ms: seq<Mapping>, k: string): set<string>
  {
    set m | m in ms && m.Touches(k) :: m.URef()
  }

  /** The tables that touch the key all do so by their bare name, or none of them does. */
  ghost predicate OneWay(ms: seq<Mapping>, k: string)
  {
    (forall m :: m in ms && m.Touches(k) ==> m.UBare() == k) || (forall m :: m in ms && m.Touches(k) ==> m.UBare() != k)
  }

  /** It is so for a key without a dot, and for every key when no bare name has a dot. */
  lemma CleanIsOneWay(ms: seq<Mapping>, k: string)
    requires DotFree(ms) || '.' !in k
    ensures OneWay(ms, k)
    ensures '.' !in k ==> Answers(ms, k) == Owners(ms, k)
  {
    forall m | m in ms && m.Touches(k) ensures m.UBare() == k <==> '.' !in k {
      KeyKind(m, k);
    }
  }

  /**
   * Never a guess: a key is published as a datasource route exactly when one table answers to it,
   * as ambiguous, listing all of them, exactly when several do, and not at all when none does.
   */
  lemma PublishedNeverGuesses(ms: seq<Mapping>, k: string)
    requires OneWay(ms, k) && Upper(k) == k
    ensures match Published(ms, k)
            case None => Answers(ms, k) == {}
            case Some(Ambiguous(c)) => |Answers(ms, k)| > 1 && c == Join(Sorted(Answers(ms, k)), ",")
            case Some(Route(d, s)) => exists m :: m in ms && m.Touches(k) && Answers(ms, k) == {m.URef()} &&
                                              m.Entry() == Route(d, s)
  {
    hide Mapping.URef, Mapping.UBare, Mapping.Registers, Sorted, Upper;
    PublishedClosedForm(ms, k);
    var last := LastTouching(ms, k);
    if last.Some? {
      var m := last.value;
      assert m.URef() in Answers(ms, k);
      if m.UBare() == k {
        assert Answers(ms, k) == Owners(ms, k);
        if |Owners(ms, k)| <= 1 {
          forall u | u in Owners(ms, k) ensures u == m.URef() { AtMostOne(Owners(ms, k), u, m.URef()); }
        }
      } else {
        assert Answers(ms, k) <= {k};
      }
    }
  }

  /** The route is the entry of every table touching the key, and they all have one name. */
  ghost predicate Answered(ms: seq<Mapping>, k: string, e: Entry)
  {
    Sure(ms, k, e) && exists m :: m in ms && m.Touches(k) && Answers(ms, k) == {m.URef()}
  }

  /** The route is the entry of every table touching the key: no choice was made. */
  ghost predicate Sure(ms: seq<Mapping>, k: string, e: Entry)
  {
    forall x :: x in ms && x.Touches(k) ==> x.Entry() == e
  }

  /** With refs distinct up to case, a published route has one answer exactly when the key is touched in one way. */
  lemma OneAnswerIff(ms: seq<Mapping>, k: string)
    requires DistinctRefs(ms) && Upper(k) == k
    requires Published(ms, k).Some? && Published(ms, k).value.Route?
    ensures Answered(ms, k, Published(ms, k).value) <==> OneWay(ms, k)
  {
    hide Sorted, Upper;
    if OneWay(ms, k) {
      PublishedNeverGuesses(ms, k);
      var m :| m in ms && m.Touches(k) && Answers(ms, k) == {m.URef()} && m.Entry() == Published(ms, k).value;
      forall n | n in ms && n.Touches(k) ensures n == m { assert n.URef() in Answers(ms, k); }
    }
    if Answered(ms, k, Published(ms, k).value) {
      var m :| m in ms && m.Touches(k) && Answers(ms, k) == {m.URef()};
      forall n | n in ms && n.Touches(k) ensures n == m { assert n.URef() in Answers(ms, k); }
    }
  }

  /** One name answers to the key, with one pair of annotations, or the tables all share it as a bare name. */
  ghost predicate GuessFree(ms: seq<Mapping>, k: string)
  {
    (|Answers(ms, k)| <= 1 && SameEntry(ms, k)) || (|Owners(ms, k)| > 1 && SharedApart(ms, k))
  }

  /** The annotations of the tables touching the key agree, or they all share it as a bare name. */
  ghost predicate ChoiceFree(ms: seq<Mapping>, k: string)
  {
    SameEntry(ms, k) || (|Owners(ms, k)| > 1 && SharedApart(ms, k))
  }

  ghost predicate RoutesTo(published: Option<Entry>, e: Entry)
  {
    published == Some(e) && e.Route?
  }

  /** No order of the mappings makes the key a route unless one table answers to it, with these annotations. */
  ghost predicate NeverGuessed(ms: seq<Mapping>, k: string)
  {
    forall p: seq<Mapping>, e :: multiset(p) == multiset(ms) && RoutesTo(Published(p, k), e) ==> Answered(ms, k, e)
  }

  /** No order of the mappings makes the key a route that some table answering to it does not have. */
  ghost predicate NeverChosen(ms: seq<Mapping>, k: string)
  {
    forall p: seq<Mapping>, e :: multiset(p) == multiset(ms) && RoutesTo(Published(p, k), e) ==> Sure(ms, k, e)
  }

  /** The routes some order publishes are the entries of the tables that would leave theirs if they came last. */
  lemma RoutesAre(ms: seq<Mapping>, p: seq<Mapping>, k: string, e: Entry) returns (m: Mapping)
    requires multiset(p) == multiset(ms) && Upper(k) == k && RoutesTo(Published(p, k), e)
    ensures m in ms && m.Touches(k) && Final(ms, m, k) == e == m.Entry()
  {
    hide Sorted, Upper;
    SameMembers(p, ms);
    PublishedClosedForm(p, k);
    m := LastTouching(p, k).value;
  }

  lemma RouteComes(ms: seq<Mapping>, m: Mapping, k: string) returns (p: seq<Mapping>)
    requires m in ms && m.Touches(k) && Final(ms, m, k).Route? && Upper(k) == k
    ensures multiset(p) == multiset(ms) && RoutesTo(Published(p, k), m.Entry())
  {
    p := MovedLast(ms, m, k);
  }

  /** For any mappings at all, names repeated or not: the exact condition for no route to be a choice among annotations. */
  lemma NeverChosenIff(ms: seq<Mapping>, k: string)
    requires Upper(k) == k
    ensures NeverChosen(ms, k) <==> ChoiceFree(ms, k)
  {
    hide Sorted, Upper, Published, Mapping.Touches;
    if ChoiceFree(ms, k) {
      forall p: seq<Mapping>, e | multiset(p) == multiset(ms) && RoutesTo(Published(p, k), e) ensures Sure(ms, k, e) {
        var m := RoutesAre(ms, p, k, e);
        if !SameEntry(ms, k) { SharedLeavesNoRoute(ms, m, k); }
      }
    }
    if NeverChosen(ms, k) && !(|Owners(ms, k)| > 1 && SharedApart(ms, k)) {
      if exists x :: x in ms && x.Touches(k) {
        var m := RouteToCome(ms, k);
        var p := RouteComes(ms, m, k);
        assert Sure(ms, k, m.Entry());
      }
    }
  }

  /** For any mappings at all: the exact condition for the loader never to guess at a key. */
  lemma NeverGuessedIff(ms: seq<Mapping>, k: string)
    requires Upper(k) == k
    ensures NeverGuessed(ms, k) <==> GuessFree(ms, k)
  {
    hide Sorted, Upper, Published, Mapping.Touches;
    if GuessFree(ms, k) {
      forall p: seq<Mapping>, e | multiset(p) == multiset(ms) && RoutesTo(Published(p, k), e) ensures Answered(ms, k, e) {
        var m := RoutesAre(ms, p, k, e);
        if |Owners(ms, k)| > 1 && SharedApart(ms, k) {
          SharedLeavesNoRoute(ms, m, k);
        } else {
          OnlyAnswer(ms, m, k);
        }
      }
    }
    if NeverGuessed(ms, k) && !(|Owners(ms, k)| > 1 && SharedApart(ms, k)) {
      if exists x :: x in ms && x.Touches(k) {
        var m := RouteToCome(ms, k);
        var p := RouteComes(ms, m, k);
        assert Answered(ms, k, m.Entry());
      } else {
        assert Answers(ms, k) == {};
      }
    }
  }

  lemma OnlyAnswer(ms: seq<Mapping>, m: Mapping, k: string)
    requires m in ms && m.Touches(k) && |Answers(ms, k)| <= 1
    ensures Answers(ms, k) == {m.URef()}
  {
    assert m.URef() in Answers(ms, k);
    forall u | u in Answers(ms, k) ensures u == m.URef() { AtMostOne(Answers(ms, k), u, m.URef()); }
  }

  lemma SharedLeavesNoRoute(ms: seq<Mapping>, m: Mapping, k: string)
    requires |Owners(ms, k)| > 1 && SharedApart(ms, k) && m in ms && m.Touches(k)
    ensures Final(ms, m, k).Ambiguous?
  {
    hide Sorted, Upper;
  }

  /** If tables answer and do not all share the key, one of them would leave its own entry there. */
  lemma RouteToCome(ms: seq<Mapping>, k: string) returns (m: Mapping)
    requires !(|Owners(ms, k)| > 1 && SharedApart(ms, k)) && exists x :: x in ms && x.Touches(k)
    ensures m in ms && m.Touches(k) && Final(ms, m, k).Route?
  {
    hide Sorted, Upper;
    if |Owners(ms, k)| > 1 {
      m :| m in ms && m.Registers() && m.URef() == k && m.UBare() != k;
    } else {
      m :| m in ms && m.Touches(k);
    }
  }

  /** A bare key several tables share is published as the marker that lists exactly them, sorted. */
  lemma SharedIsMarked(ms: seq<Mapping>, k: string)
    requires Upper(k) == k && '.' !in k && |Owners(ms, k)| > 1
    ensures Published(ms, k) == Some(Marker(Owners(ms, k)))
  {
    PublishedClosedForm(ms, k);
    var u :| u in Owners(ms, k);
    var m :| m in ms && m.Registers() && m.UBare() == k && m.URef() == u;
    assert m.Touches(k);
    KeyKind(LastTouching(ms, k).value, k);
  }

  // ----- one more mapping -----

  /**
   * A table with a new qualified name, wherever the graph yields it, never moves a key that is touched in
   * one way from one datasource to another: the key stays, or is the new table's bare name and becomes
   * ambiguous. A route stays exactly when the key is not the new table's bare name.
   */
  lemma NewMapping(ms: seq<Mapping>, m: Mapping, p: seq<Mapping>, k: string)
    requires OneWay(ms + [m], k) && DistinctRefs(ms + [m])
    requires m.Registers() && forall n :: n in ms && n.Registers() ==> n.URef() != m.URef()
    requires multiset(p) == multiset(ms + [m]) && Upper(k) == k
    requires Published(ms, k).Some?
    ensures Published(p, k) == Published(ms, k) ||
            (k == m.UBare() && Published(p, k).Some? && Published(p, k).value.Ambiguous?)
    ensures Published(ms, k).value.Route? ==> (Published(p, k) == Published(ms, k) <==> m.UBare() != k)
  {
    hide Sorted, Upper;
    var more := ms + [m];
    OneWayAgrees(more, k);
    OrderFreeAt(more, p, k);
    PublishedSnoc(ms, m, k);
    WritesUpper(m, k);
    PublishedClosedForm(ms, k);
    var n := LastTouching(ms, k).value;
    assert n in more && m in more;
    if m.Touches(k) {
      OwnersSnoc(ms, m, k);
      assert n.UBare() == k ==> n.URef() in Owners(ms, k);
      if m.UBare() == k { TwoMembers(Owners(more, k), m.URef(), n.URef()); }
    }
  }

  /** Whatever else it holds, the key has the given value or is refused. */
  ghost predicate StaysOrRefused(published: Option<Entry>, e: Entry)
  {
    published == Some(e) || (published.Some? && published.value.Ambiguous?)
  }

  /** Coming last, the table would leave the key with the given route, or refuse it. */
  ghost predicate Keeps(ms: seq<Mapping>, x: Mapping, k: string, e: Entry)
  {
    (x.UBare() == k && |Owners(ms, k)| > 1) || x.Entry() == e
  }

  ghost predicate AllKeep(ms: seq<Mapping>, k: string, e: Entry)
  {
    forall x :: x in ms && x.Touches(k) ==> Keeps(ms, x, k, e)
  }

  ghost predicate AlwaysStays(ms: seq<Mapping>, k: string, e: Entry)
  {
    forall p: seq<Mapping> :: multiset(p) == multiset(ms) ==> StaysOrRefused(Published(p, k), e)
  }

  lemma AlwaysStaysIff(ms: seq<Mapping>, k: string, e: Entry)
    requires Upper(k) == k && e.Route? && exists x :: x in ms && x.Touches(k)
    ensures AlwaysStays(ms, k, e) <==> AllKeep(ms, k, e)
  {
    hide Mapping.Touches, Mapping.UBare, Owners, Sorted, Upper, Published;
    if AlwaysStays(ms, k, e) {
      forall x | x in ms && x.Touches(k) ensures Keeps(ms, x, k, e) {
        var p := MovedLast(ms, x, k);
        assert StaysOrRefused(Published(p, k), e);
      }
    }
    if AllKeep(ms, k, e) {
      forall p: seq<Mapping> | multiset(p) == multiset(ms) ensures StaysOrRefused(Published(p, k), e) {
        SameMembers(p, ms);
        PublishedClosedForm(p, k);
        var last := LastTouching(p, k);
        assert last.Some?;
        assert Keeps(ms, last.value, k, e);
      }
    }
  }

  /**
   * For any mappings at all: one more never moves a route, in no order, exactly when every table that then
   * touches the key shares it as a bare name or has the annotations of the route.
   */
  lemma NewMappingIff(ms: seq<Mapping>, m: Mapping, k: string, e: Entry)
    requires Upper(k) == k && Published(ms, k) == Some(e) && e.Route?
    ensures AlwaysStays(ms + [m], k, e) <==> AllKeep(ms + [m], k, e)
  {
    PublishedClosedForm(ms, k);
    var n := LastTouching(ms, k).value;
    assert n in ms + [m];
    AlwaysStaysIff(ms + [m], k, e);
  }

  lemma TwoMembers(s: set<string>, a: string, b: string)
    requires a in s && b in s && a != b
    ensures |s| > 1
  {
    if |s| <= 1 { AtMostOne(s, a, b); }
  }

  // ----- quoted table names -----

  /** A table name written with every segment quoted is read back segment by segment. */
  lemma QuotedNameParts(m: Mapping, segments: seq<string>)
    requires segments != [] && forall i :: 0 <= i < |segments| ==> '"' !in segments[i]
    requires m.tableName == Join(SqlNames.QuotedAll(segments), ".")
    ensures m.Parts() == segments
  {
    SqlNames.QuoteJoinSplit(segments);
    forall i | 0 <= i < |segments| ensures SqlNames.Unquoted(SqlNames.Quoted(segments[i])) == segments[i] {
      SqlNames.UnquoteQuoted(segments[i]);
    }
  }

  /** And one written without quotes. */
  lemma BareNameParts(m: Mapping, segments: seq<string>)
    requires segments != [] && forall i :: 0 <= i < |segments| ==> '"' !in segments[i] && '.' !in segments[i]
    requires m.tableName == Join(segments, ".")
    ensures m.Parts() == segments && m.Ref() == m.tableName
  {
    SqlNames.BareJoinSplit(segments);
  }

  lemma LastWins(m: Mapping, n: Mapping, k: string)
    requires m.Touches(k) && n.Touches(k) && |Owners([m, n], k)| <= 1
    ensures Published([m, n], k) == Some(n.Entry())
  {
    UpperIdempotent(m.Ref());
    UpperIdempotent(m.Bare());
    PublishedClosedForm([m, n], k);
  }

  lemma QuotedDotNames(x: string, a: string, b: string, m: Mapping, n: Mapping)
    requires '"' !in x && '"' !in a && '"' !in b && '.' !in b
    requires m.tableName == Join(SqlNames.QuotedAll([x, a + "." + b]), ".")
    requires n.tableName == Join(SqlNames.QuotedAll([a, b]), ".")
    ensures m.UBare() == n.URef() == Upper(a + "." + b)
    ensures m.URef() != n.URef() && n.UBare() != n.URef()
  {
    var ab := a + "." + b;
    QuotedNameParts(m, [x, ab]);
    QuotedNameParts(n, [a, b]);
    JoinTwo(a, b);
    JoinTwo(x, ab);
    assert |m.URef()| > |ab|;
    UpperDot(b);
    UpperDot(ab);
    assert ab[|a|] == '.';
  }

  lemma OneOwner(ms: seq<Mapping>, m: Mapping, k: string)
    requires forall x :: x in ms ==> x == m || x.UBare() != k
    ensures |Owners(ms, k)| <= 1
  {
    assert Owners(ms, k) <= {m.URef()};
    assert |{m.URef()} - Owners(ms, k)| + |Owners(ms, k)| == 1;
  }

  /**
   * What the loader does with a dot inside a quoted identifier: it does guess. The bare name of
   * `"x"."a.b"` is the qualified name of `"a"."b"`, and a reference `a.b` routes to whichever of
   * the two tables the graph yields last, although their qualified names differ.
   */
  lemma QuotedDotGuesses(x: string, a: string, b: string, m: Mapping, n: Mapping)
    requires '"' !in x && '"' !in a && '"' !in b && '.' !in b
    requires m.tableName == Join(SqlNames.QuotedAll([x, a + "." + b]), ".")
    requires n.tableName == Join(SqlNames.QuotedAll([a, b]), ".")
    requires m.Registers() && n.Registers() && n.Entry() != m.Entry()
    ensures m.URef() != n.URef() && !Agree([m, n])
    ensures Published([m, n], Upper(a + "." + b)) == Some(n.Entry())
    ensures Published([n, m], Upper(a + "." + b)) == Some(m.Entry())
  {
    var k := Upper(a + "." + b);
    QuotedDotNames(x, a, b, m, n);
    OneOwner([m, n], m, k);
    OneOwner([n, m], m, k);
    LastWins(m, n, k);
    LastWins(n, m, k);
    var both := [m, n];
    assert m in both && n in both && Final(both, m, k) != Final(both, n, k);
    AgreeAtIff(both, k);
  }

  /**
   * Two mappings of one name with other annotations: the name goes to whichever the graph yields last, the
   * bare name too, and nothing is ambiguous about it, because ambiguity is counted by qualified name.
   */
  lemma SameNameGuesses(m: Mapping, n: Mapping, k: string)
    requires m.Registers() && n.Registers() && m.URef() == n.URef() && m.Entry() != n.Entry()
    requires k == m.URef() || (k == m.UBare() && m.UBare() == n.UBare())
    ensures Published([m, n], k) == Some(n.Entry()) && Published([n, m], k) == Some(m.Entry())
    ensures !ChoiceFree([m, n], k) && !GuessFree([m, n], k) && !Agree([m, n])
  {
    var both := [m, n];
    SameNameOwners(m, n, k);
    LastWins(m, n, k);
    LastWins(n, m, k);
    assert m in both && n in both && Final(both, m, k) != Final(both, n, k);
    AgreeAtIff(both, k);
    assert m.Touches(k) && n.Touches(k);
  }

  lemma SameNameOwners(m: Mapping, n: Mapping, k: string)
    requires m.URef() == n.URef()
    ensures |Owners([m, n], k)| <= 1 && |Owners([n, m], k)| <= 1
  {
    AtMostOf(Owners([m, n], k), m.URef());
    AtMostOf(Owners([n, m], k), m.URef());
  }

  lemma AtMostOf(s: set<string>, a: string)
    requires s <= {a}
    ensures |s| <= 1
  {
    assert |{a} - s| + |s| == 1;
  }

  lemma JoinTwo(a: string, b: string)
    ensures Join([a, b], ".") == a + "." + b
  {
    assert [a, b][1..] == [b];
  }
}
