/** Reading the routing dictionary for the table references of one query (packages/vkg/translate-server.py). */
module RouteResolution {
  import opened Text
  import opened Ordering
  import opened TableRouting
  import SqlNames

  /** `ref.rsplit(".", 1)[-1]`. */
  function AfterLastDot(ref: string): (r: string)
    ensures '.' !in r
    ensures '.' !in ref ==> r == ref
  {
    if ref == "" || ref[|ref| - 1] == '.' then ""
    else AfterLastDot(ref[..|ref| - 1]) + [ref[|ref| - 1]]
  }

  function BareKey(ref: string): string
  {
    Upper(AfterLastDot(ref))
  }

  /** The key a reference is read under: its own, or else its last segment's. */
  function KeyFor(table: map<string, Entry>, ref: string): string
  {
    if Upper(ref) in table then Upper(ref) else BareKey(ref)
  }

  function Lookup(table: map<string, Entry>, ref: string): Option<Entry>
  {
    Get(table, KeyFor(table, ref))
  }

  function CandidateEntry(table: map<string, Entry>, candidate: string): Option<Entry>
  {
    if candidate in table then Some(table[candidate]) else Get(table, Upper(candidate))
  }

  predicate Routable(e: Option<Entry>)
  {
    e.Some? && e.value.Route? && e.value.datasourceId != ""
  }

  /** The candidates of an ambiguity marker that have a datasource, added unless already there. */
  function AddSiblings(table: map<string, Entry>, acc: map<string, Entry>, names: seq<string>): map<string, Entry>
  {
    if names == [] then acc
    else
      var done := AddSiblings(table, acc, names[..|names| - 1]);
      var candidate := Trim(names[|names| - 1]);
      if Routable(CandidateEntry(table, candidate)) && candidate !in done
      then done[candidate := CandidateEntry(table, candidate).value]
      else done
  }

  function SiblingNames(table: map<string, Entry>, ref: string): seq<string>
  {
    var marker := Get(table, BareKey(ref));
    if '.' in ref && marker.Some? && marker.value.Ambiguous? then Plain(',').Split(marker.value.candidates, 0) else []
  }

  function ResolveOne(table: map<string, Entry>, acc: map<string, Entry>, ref: string): map<string, Entry>
  {
    var own := Lookup(table, ref);
    AddSiblings(table, if own.Some? then acc[ref := own.value] else acc, SiblingNames(table, ref))
  }

  function ResolveAll(table: map<string, Entry>, refs: seq<string>): map<string, Entry>
  {
    if refs == [] then map[]
    else ResolveOne(table, ResolveAll(table, refs[..|refs| - 1]), refs[|refs| - 1])
  }

  /** The resolver's inner loop over the candidates of a marker. */
  method BringSiblings(table: map<string, Entry>, acc: map<string, Entry>, names: seq<string>)
    returns (routing: map<string, Entry>)
    ensures routing == AddSiblings(table, acc, names)
  {
    hide Upper, Trim;
    routing := acc;
    for j := 0 to |names|
      invariant routing == AddSiblings(table, acc, names[..j])
    {
      assert names[..j + 1][..j] == names[..j];
      var candidate := Trim(names[j]);
      var entry := if candidate in table then Some(table[candidate]) else Get(table, Upper(candidate));
      if entry.Some? && entry.value.Route? && entry.value.datasourceId != "" && candidate !in routing {
        routing := routing[candidate := entry.value];
      }
    }
    assert names[..|names|] == names;
  }

  /** The resolver's loop over references. */
  method ResolveRouting(table: map<string, Entry>, refs: seq<string>) returns (routing: map<string, Entry>)
    ensures routing == ResolveAll(table, refs)
  {
    hide Upper, AfterLastDot, AddSiblings, Scanner.Split;
    routing := map[];
    if table == map[] {
      EmptyTable(refs);
      return;
    }
    for i := 0 to |refs|
      invariant routing == ResolveAll(table, refs[..i])
    {
      var ref := refs[i];
      assert refs[..i + 1][..i] == refs[..i];
      var tableUpper := Upper(ref);
      if tableUpper in table {
        routing := routing[ref := table[tableUpper]];
      } else {
        var bareTable := Upper(AfterLastDot(ref));
        if bareTable in table {
          routing := routing[ref := table[bareTable]];
        }
      }
      NoSiblings(table, routing);
      if '.' !in ref {
        continue;
      }
      var bareUpper := Upper(AfterLastDot(ref));
      if bareUpper in table && table[bareUpper].Ambiguous? {
        routing := BringSiblings(table, routing, Plain(',').Split(table[bareUpper].candidates, 0));
      }
    }
    assert refs[..|refs|] == refs;
  }

  lemma NoSiblings(table: map<string, Entry>, acc: map<string, Entry>)
    ensures AddSiblings(table, acc, []) == acc
  {
  }

  lemma {:induction false} EmptyTable(refs: seq<string>)
    ensures ResolveAll(map[], refs) == map[]
  {
    if refs != [] { EmptyTable(refs[..|refs| - 1]); }
  }

  lemma {:induction false} SiblingsClosedForm(table: map<string, Entry>, acc: map<string, Entry>, names: seq<string>, k: string)
    ensures Get(AddSiblings(table, acc, names), k) ==
            if k in acc then Some(acc[k])
            else if Lists(names, k) && Routable(CandidateEntry(table, k))
            then CandidateEntry(table, k)
            else None
  {
    if names != [] {
      var fewer, last := names[..|names| - 1], names[|names| - 1];
      SiblingsClosedForm(table, acc, fewer, k);
      ListsSnoc(fewer, last, k);
      assert names == fewer + [last];
    }
  }

  lemma ListsSnoc(names: seq<string>, last: string, k: string)
    ensures Lists(names + [last], k) <==> Lists(names, k) || Trim(last) == k
  {
    var more := names + [last];
    if Lists(names, k) {
      var i :| 0 <= i < |names| && Trim(names[i]) == k;
      assert Trim(more[i]) == k;
    }
    if Trim(last) == k { assert Trim(more[|names|]) == k; }
  }

  // ----- resolution against a loaded dictionary -----

  /** `k` is one of the names once each is trimmed. */
  predicate Lists(names: seq<string>, k: string)
  {
    exists i :: 0 <= i < |names| && Trim(names[i]) == k
  }

  /** The names a marker's text is read back as. */
  function Candidates(owners: set<string>): seq<string>
  {
    Plain(',').Split(Join(Sorted(owners), ","), 0)
  }

  /** A name that survives being written into a comma-joined marker and trimmed out of it again. */
  predicate Listable(name: string)
  {
    ',' !in name && Trimmed(name)
  }

  /** Reading a marker back loses exactly the owners with a comma in their name or blanks around it. */
  lemma MarkerListsIff(owners: set<string>, k: string)
    requires k in owners
    ensures Lists(Candidates(owners), k) <==> Listable(k)
  {
    hide Trim, Trimmed, Sorted;
    var sorted, names := Sorted(owners), Candidates(owners);
    if Listable(k) {
      var i :| 0 <= i < |sorted| && sorted[i] == k;
      PlainHas(sorted, ',', i);
      var j :| 0 <= j < |names| && names[j] == k;
      TrimOfTrimmed(k);
      assert Trim(names[j]) == k;
    }
    if Lists(names, k) { ListedIsListable(owners, k); }
  }

  lemma TrimIsTrimmed(s: string)
    ensures Trimmed(Trim(s))
  {
    StripIsStripped(s, IsSpace);
  }

  /** A marker of names fit for it splits back into exactly these names. */
  lemma MarkerSplits(owners: set<string>, k: string)
    requires owners != {} && forall u :: u in owners ==> Listable(u)
    ensures Lists(Candidates(owners), k) <==> k in owners
  {
    hide Trim, Trimmed, Sorted;
    var sorted, names := Sorted(owners), Candidates(owners);
    forall i | 0 <= i < |sorted| ensures Listable(sorted[i]) { assert sorted[i] in owners; }
    PlainSplitOfJoin(sorted, ',');
    if Lists(names, k) {
      var i :| 0 <= i < |names| && Trim(names[i]) == k;
      TrimOfTrimmed(sorted[i]);
    }
    if k in owners { MarkerListsIff(owners, k); }
  }

  /** Whatever a marker is read back as is in upper case, as its owners are. */
  lemma CandidatesAreUpper(owners: set<string>, k: string)
    requires forall u :: u in owners ==> Upper(u) == u
    requires Lists(Candidates(owners), k)
    ensures Upper(k) == k
  {
    hide Upper, Trim, Sorted, Candidates;
    var sorted, names := Sorted(owners), Candidates(owners);
    var keep := c => UpperChar(c) == c;
    forall i | 0 <= i < |sorted| ensures Only(sorted[i], keep) { UpperIff(sorted[i]); }
    JoinOnly(sorted, ",", keep);
    CandidatesJoin(owners);
    JoinedOnly(names, ",", keep);
    var i :| 0 <= i < |names| && Trim(names[i]) == k;
    TrimOnly(names[i], keep);
    UpperIff(k);
  }

  lemma CandidatesJoin(owners: set<string>)
    ensures Join(Candidates(owners), ",") == Join(Sorted(owners), ",")
  {
    Plain(',').SplitJoins(Join(Sorted(owners), ","), 0);
  }

  /** `ref` is qualified, several tables share its bare name, and their marker lists `k`. */
  predicate SiblingOf(ms: seq<Mapping>, ref: string, k: string)
  {
    '.' in ref && |Owners(ms, BareKey(ref))| > 1 && Lists(Candidates(Owners(ms, BareKey(ref))), k)
  }

  predicate Brought(ms: seq<Mapping>, refs: seq<string>, k: string)
  {
    exists i :: 0 <= i < |refs| && SiblingOf(ms, refs[i], k)
  }

  lemma BareKeyIsBare(ref: string)
    ensures '.' !in BareKey(ref) && Upper(BareKey(ref)) == BareKey(ref)
  {
    UpperDot(AfterLastDot(ref));
    UpperIdempotent(AfterLastDot(ref));
  }

  lemma SiblingNamesAre(ms: seq<Mapping>, table: map<string, Entry>, ref: string, k: string)
    requires Holds(table, ms)
    ensures Lists(SiblingNames(table, ref), k) <==> SiblingOf(ms, ref, k)
  {
    if '.' in ref {
      var b := BareKey(ref);
      BareKeyIsBare(ref);
      assert Get(table, b) == Published(ms, b);
      CleanIsOneWay(ms, b);
      PublishedNeverGuesses(ms, b);
    }
  }

  lemma OwnerKey(ms: seq<Mapping>, b: string, u: string)
    requires u in Owners(ms, b)
    ensures Upper(u) == u
  {
    var m :| m in ms && m.Registers() && m.UBare() == b && m.URef() == u;
    UpperIdempotent(m.Ref());
  }

  lemma SiblingKey(ms: seq<Mapping>, ref: string, k: string)
    requires SiblingOf(ms, ref, k)
    ensures Upper(k) == k
  {
    var owners := Owners(ms, BareKey(ref));
    forall u | u in owners ensures Upper(u) == u { OwnerKey(ms, BareKey(ref), u); }
    CandidatesAreUpper(owners, k);
  }

  /**
   * The whole answer, key by key: a reference that is found carries what it found; otherwise a
   * key is present only as a candidate of a marker, with a datasource; nothing else is in the answer.
   */
  lemma {:induction false} ResolveClosedForm(ms: seq<Mapping>, table: map<string, Entry>, refs: seq<string>, k: string)
    requires Holds(table, ms)
    ensures Get(ResolveAll(table, refs), k) ==
            if k in refs && Lookup(table, k).Some? then Lookup(table, k)
            else if Brought(ms, refs, k) && Routable(Get(table, k)) then Get(table, k)
            else None
    decreases |refs|
  {
    hide Upper, AfterLastDot, AddSiblings, SiblingNames, SiblingOf;
    if refs != [] {
      var before, ref := refs[..|refs| - 1], refs[|refs| - 1];
      assert refs == before + [ref];
      ResolveClosedForm(ms, table, before, k);
      var acc := ResolveAll(table, before);
      var own := Lookup(table, ref);
      SiblingsClosedForm(table, if own.Some? then acc[ref := own.value] else acc, SiblingNames(table, ref), k);
      SiblingNamesAre(ms, table, ref, k);
      BroughtSnoc(ms, before, ref, k);
      if SiblingOf(ms, ref, k) { SiblingKey(ms, ref, k); }
    }
  }

  lemma BroughtSnoc(ms: seq<Mapping>, before: seq<string>, ref: string, k: string)
    ensures Brought(ms, before + [ref], k) <==> Brought(ms, before, k) || SiblingOf(ms, ref, k)
  {
    var refs := before + [ref];
    if Brought(ms, before, k) {
      var i :| 0 <= i < |before| && SiblingOf(ms, before[i], k);
      assert SiblingOf(ms, refs[i], k);
    }
    if SiblingOf(ms, ref, k) {
      assert SiblingOf(ms, refs[|before|], k);
    }
  }

  /**
   * No guessing, end to end: whatever key of the answer carries a route, exactly one registered
   * table answers to the key it was read under, and the route is that table's own.
   */
  lemma RoutedHasOneAnswer(ms: seq<Mapping>, table: map<string, Entry>, refs: seq<string>, k: string)
    requires Holds(table, ms) && OneWay(ms, KeyFor(table, k))
    requires var r := Get(ResolveAll(table, refs), k); r.Some? && r.value.Route?
    ensures exists m :: m in ms && m.Registers() && Answers(ms, KeyFor(table, k)) == {m.URef()} &&
                        Get(ResolveAll(table, refs), k) == Some(m.Entry())
  {
    ResolveClosedForm(ms, table, refs, k);
    if !(k in refs && Lookup(table, k).Some?) {
      var i :| 0 <= i < |refs| && SiblingOf(ms, refs[i], k);
      SiblingKey(ms, refs[i], k);
    }
    UpperIdempotent(k);
    BareKeyIsBare(k);
    assert Get(table, KeyFor(table, k)) == Published(ms, KeyFor(table, k));
    PublishedNeverGuesses(ms, KeyFor(table, k));
  }

  /** A bare reference several tables answer to always comes back as the marker that lists them all. */
  lemma SharedBareIsRefused(ms: seq<Mapping>, table: map<string, Entry>, refs: seq<string>, ref: string)
    requires Holds(table, ms)
    requires ref in refs && '.' !in ref && |Owners(ms, Upper(ref))| > 1
    ensures Get(ResolveAll(table, refs), ref) == Some(Marker(Owners(ms, Upper(ref))))
  {
    ResolveClosedForm(ms, table, refs, ref);
    var k := Upper(ref);
    UpperIdempotent(ref);
    UpperDot(ref);
    assert Get(table, k) == Published(ms, k);
    SharedIsMarked(ms, k);
  }

  /**
   * A qualified reference on a shared name brings in a table of that name that has a datasource, if the
   * table's own name survives the marker and is a key that holds the table's entry.
   */
  lemma QualifiedBringsOwners(ms: seq<Mapping>, table: map<string, Entry>, refs: seq<string>, ref: string, m: Mapping)
    requires Holds(table, ms)
    requires ref in refs && '.' in ref && |Owners(ms, BareKey(ref))| > 1
    requires m in ms && m.Registers() && m.UBare() == BareKey(ref) && m.datasourceId != ""
    requires Listable(m.URef()) && HasOwnKey(ms, m)
    ensures Get(ResolveAll(table, refs), m.URef()) == Some(m.Entry())
  {
    hide Upper, ResolveAll, Trim, Trimmed, AfterLastDot;
    var k := m.URef();
    OwnEntry(ms, table, m);
    var i :| 0 <= i < |refs| && refs[i] == ref;
    MarkerListsIff(Owners(ms, BareKey(ref)), k);
    assert SiblingOf(ms, refs[i], k);
    ResolveClosedForm(ms, table, refs, k);
    if k in refs { assert Upper(k) == k && KeyFor(table, k) == k; }
  }

  /** Its qualified name is not shared as a bare name, and whatever else touches that key has the same annotations. */
  ghost predicate HasOwnKey(ms: seq<Mapping>, m: Mapping)
  {
    |Owners(ms, m.URef())| <= 1 && SameEntry(ms, m.URef())
  }

  lemma OwnEntry(ms: seq<Mapping>, table: map<string, Entry>, m: Mapping)
    requires Holds(table, ms) && m in ms && m.Registers() && HasOwnKey(ms, m)
    ensures Upper(m.URef()) == m.URef() && Get(table, m.URef()) == Some(m.Entry())
  {
    var k := m.URef();
    UpperIdempotent(m.Ref());
    hide Upper;
    assert Get(table, k) == Published(ms, k);
    PublishedClosedForm(ms, k);
    assert m.Touches(k);
  }

  /** It has if refs are distinct up to case and no bare name shadows it. */
  lemma UnshadowedHasOwnKey(ms: seq<Mapping>, m: Mapping)
    requires DistinctRefs(ms) && m in ms && m.Registers() && Owners(ms, m.URef()) == {}
    ensures HasOwnKey(ms, m)
  {
    hide Upper;
    var k := m.URef();
    forall n | n in ms && n.Touches(k) ensures n == m { assert n.URef() !in Owners(ms, k); }
  }

  /** Whatever order the graph yields the mappings in, the answer carries the table's own entry under its name. */
  ghost predicate AlwaysSurfaces(ms: seq<Mapping>, refs: seq<string>, m: Mapping)
  {
    forall p: seq<Mapping>, table :: multiset(p) == multiset(ms) && Holds(table, p) ==> Surfaces(table, refs, m)
  }

  ghost predicate Surfaces(table: map<string, Entry>, refs: seq<string>, m: Mapping)
  {
    Get(ResolveAll(table, refs), m.URef()) == Some(m.Entry())
  }

  /**
   * The resolver means to surface every sibling with a datasource. For any mappings at all it does so, in
   * every order of them, exactly for the tables whose qualified name has no comma and no blank at its ends,
   * is not shared as a bare name, and is a key on which the annotations agree.
   */
  lemma SiblingSurfacesIff(ms: seq<Mapping>, refs: seq<string>, ref: string, m: Mapping)
    requires ref in refs && '.' in ref && |Owners(ms, BareKey(ref))| > 1
    requires m in ms && m.Registers() && m.UBare() == BareKey(ref) && m.datasourceId != ""
    requires m.URef() !in refs
    ensures AlwaysSurfaces(ms, refs, m) <==> Listable(m.URef()) && HasOwnKey(ms, m)
  {
    hide Upper, AfterLastDot, ResolveAll, Holds, Listable, Published, Owners;
    if Listable(m.URef()) && HasOwnKey(ms, m) {
      forall p: seq<Mapping>, table | multiset(p) == multiset(ms) && Holds(table, p) ensures Surfaces(table, refs, m) {
        SameMembers(p, ms);
        QualifiedBringsOwners(p, table, refs, ref, m);
      }
    }
    if AlwaysSurfaces(ms, refs, m) {
      var table := TableExists(ms);
      assert Surfaces(table, refs, m);
      SurfacedIs(ms, table, refs, m);
      SurfacedHasOwnKey(ms, refs, m);
    }
  }

  /** What surfaces without being asked for is listed by a marker, and published under its name. */
  lemma SurfacedIs(p: seq<Mapping>, table: map<string, Entry>, refs: seq<string>, m: Mapping)
    requires Holds(table, p) && Surfaces(table, refs, m) && m.URef() !in refs
    ensures Listable(m.URef()) && Published(p, m.URef()) == Some(m.Entry())
  {
    var k := m.URef();
    ResolveClosedForm(p, table, refs, k);
    var i :| 0 <= i < |refs| && SiblingOf(p, refs[i], k);
    ListedIsListable(Owners(p, BareKey(refs[i])), k);
    assert Get(table, k) == Published(p, k);
  }

  lemma SurfacedHasOwnKey(ms: seq<Mapping>, refs: seq<string>, m: Mapping)
    requires AlwaysSurfaces(ms, refs, m) && m.URef() !in refs && m in ms && m.Registers()
    ensures HasOwnKey(ms, m)
  {
    var k := m.URef();
    UpperIdempotent(m.Ref());
    hide Upper, Sorted, ResolveAll, Listable, Published, Mapping.Touches, Holds;
    forall x | x in ms && x.Touches(k) ensures Final(ms, x, k) == m.Entry() {
      var p := MovedLast(ms, x, k);
      var table := TableExists(p);
      assert Surfaces(table, refs, m);
      SurfacedIs(p, table, refs, m);
    }
    OwnersTouch(ms, k);
  }

  lemma OwnersTouch(ms: seq<Mapping>, k: string)
    ensures Owners(ms, k) != {} ==> exists x :: x in ms && x.Touches(k) && x.UBare() == k
  {
    hide Upper;
    if Owners(ms, k) != {} {
      var u :| u in Owners(ms, k);
      var x :| x in ms && x.Registers() && x.UBare() == k && x.URef() == u;
      assert x.Touches(k);
    }
  }

  /** In one given order, with refs distinct up to case, for a table no bare name shadows: only its spelling matters. */
  lemma UnshadowedSurfacesIff(ms: seq<Mapping>, table: map<string, Entry>, refs: seq<string>, ref: string, m: Mapping)
    requires Holds(table, ms) && DistinctRefs(ms)
    requires ref in refs && '.' in ref && |Owners(ms, BareKey(ref))| > 1
    requires m in ms && m.Registers() && m.UBare() == BareKey(ref) && Owners(ms, m.URef()) == {} && m.datasourceId != ""
    requires m.URef() !in refs
    ensures m.URef() in ResolveAll(table, refs) <==> Listable(m.URef())
  {
    hide Upper, AfterLastDot, ResolveAll, Listable;
    var k := m.URef();
    if Listable(k) {
      UnshadowedHasOwnKey(ms, m);
      QualifiedBringsOwners(ms, table, refs, ref, m);
    }
    if k in ResolveAll(table, refs) {
      ResolveClosedForm(ms, table, refs, k);
      var i :| 0 <= i < |refs| && SiblingOf(ms, refs[i], k);
      ListedIsListable(Owners(ms, BareKey(refs[i])), k);
    }
  }

  /**
   * A table that is registered without a schema and shares its name never surfaces, in any order, unless it is
   * itself asked for: its only key holds the marker.
   */
  lemma UnqualifiedNeverSurfaces(ms: seq<Mapping>, table: map<string, Entry>, refs: seq<string>, ref: string, m: Mapping)
    requires Holds(table, ms) && |Owners(ms, BareKey(ref))| > 1
    requires m.URef() == m.UBare() == BareKey(ref) && m.URef() !in refs
    ensures m.URef() !in ResolveAll(table, refs)
  {
    hide Upper, ResolveAll;
    var k := m.URef();
    BareKeyIsBare(ref);
    SharedIsMarked(ms, k);
    assert Get(table, k) == Published(ms, k);
    ResolveClosedForm(ms, table, refs, k);
  }

  /** For one: `"a"` and `"s"."a"` are tables, `s.a` is asked for, and `a` is missing from the answer. */
  lemma UnqualifiedSiblingMissing(a: string, s: string, m: Mapping, n: Mapping, ms: seq<Mapping>, table: map<string, Entry>)
    requires '"' !in a && '"' !in s && '.' !in a
    requires m.tableName == Join(SqlNames.QuotedAll([a]), ".") && n.tableName == Join(SqlNames.QuotedAll([s, a]), ".")
    requires m.Registers() && n.Registers() && m in ms && n in ms && Holds(table, ms)
    ensures m.URef() == Upper(a) && n.URef() == Upper(s + "." + a) && m.UBare() == n.UBare()
    ensures Upper(a) !in ResolveAll(table, [s + "." + a])
  {
    var ref := s + "." + a;
    QuotedNameParts(m, [a]);
    QuotedNameParts(n, [s, a]);
    JoinTwo(s, a);
    AfterDot(s, a);
    assert |n.URef()| > |m.URef()|;
    TwoMembers(Owners(ms, Upper(a)), m.URef(), n.URef());
    assert |Upper(a)| < |ref|;
    UnqualifiedNeverSurfaces(ms, table, [ref], ref, m);
  }

  lemma {:induction false} AfterDot(s: string, a: string)
    requires '.' !in a
    ensures AfterLastDot(s + "." + a) == a
    decreases |a|
  {
    var ref := s + "." + a;
    if a == "" {
      assert ref[|ref| - 1] == '.';
    } else {
      var fewer, last := a[..|a| - 1], a[|a| - 1];
      assert a == fewer + [last];
      assert last in a && ref[|ref| - 1] == last && ref[..|ref| - 1] == s + "." + fewer;
      AfterDot(s, fewer);
    }
  }

  lemma ListedIsListable(owners: set<string>, k: string)
    requires Lists(Candidates(owners), k)
    ensures Listable(k)
  {
    hide Trim, Trimmed, Sorted;
    var names := Candidates(owners);
    var i :| 0 <= i < |names| && Trim(names[i]) == k;
    PlainPieces(Join(Sorted(owners), ","), ',');
    TrimOnly(names[i], c => c != ',');
    TrimIsTrimmed(names[i]);
  }

  /**
   * Registering one more table never re-routes a reference: bare ones stay or are refused, for any names;
   * a registered qualified one, touched in one way, stays as long as it is not the new table's bare name,
   * and only then if it was routed.
   */
  lemma NewMappingNeverReroutes(
      ms: seq<Mapping>, m: Mapping, p: seq<Mapping>, table: map<string, Entry>, bigger: map<string, Entry>, ref: string)
    requires DistinctRefs(ms + [m])
    requires m.Registers() && forall n :: n in ms && n.Registers() ==> n.URef() != m.URef()
    requires multiset(p) == multiset(ms + [m]) && Holds(table, ms) && Holds(bigger, p)
    ensures '.' !in ref && Lookup(table, ref).Some? ==>
              Lookup(bigger, ref) == Lookup(table, ref) ||
              (Lookup(bigger, ref).Some? && Lookup(bigger, ref).value.Ambiguous?)
    ensures Upper(ref) in table && OneWay(ms + [m], Upper(ref)) && m.UBare() != Upper(ref) ==>
              Lookup(bigger, ref) == Lookup(table, ref)
    ensures Upper(ref) in table && OneWay(ms + [m], Upper(ref)) && table[Upper(ref)].Route? ==>
              (Lookup(bigger, ref) == Lookup(table, ref) <==> m.UBare() != Upper(ref))
  {
    hide Upper, AfterLastDot;
    var k := Upper(ref);
    UpperIdempotent(ref);
    UpperDot(ref);
    if '.' !in ref { CleanIsOneWay(ms + [m], k); }
    assert Get(table, k) == Published(ms, k) && Get(bigger, k) == Published(p, k);
    if '.' !in ref { OwnKey(ref); }
    if k in table && OneWay(ms + [m], k) { NewMapping(ms, m, p, k); }
  }

  /** A reference without a dot is read under the same key either way. */
  lemma OwnKey(ref: string)
    requires '.' !in ref
    ensures BareKey(ref) == Upper(ref)
  {
  }

  // ----- never a guess, in no order of the mappings -----

  /** The key a reference is read under, said of the mappings: its own if some table answers to it. */
  ghost function KeyIn(ms: seq<Mapping>, ref: string): string
  {
    if exists m :: m in ms && m.Touches(Upper(ref)) then Upper(ref) else BareKey(ref)
  }

  lemma KeyForIsKeyIn(ms: seq<Mapping>, p: seq<Mapping>, table: map<string, Entry>, ref: string)
    requires multiset(p) == multiset(ms) && Holds(table, p)
    ensures KeyFor(table, ref) == KeyIn(ms, ref) && Upper(KeyIn(ms, ref)) == KeyIn(ms, ref)
    ensures Lookup(table, ref) == Published(p, KeyIn(ms, ref))
  {
    hide AfterLastDot;
    UpperIdempotent(ref);
    BareKeyIsBare(ref);
    SameMembers(p, ms);
    assert Get(table, Upper(ref)) == Published(p, Upper(ref));
    assert Get(table, BareKey(ref)) == Published(p, BareKey(ref));
    PublishedClosedForm(p, Upper(ref));
  }

  /** Some dictionary is what the loader makes of the mappings. */
  lemma {:induction false} TableExists(ms: seq<Mapping>) returns (table: map<string, Entry>)
    ensures Holds(table, ms)
  {
    table := map[];
    if ms != [] {
      var before, m := ms[..|ms| - 1], ms[|ms| - 1];
      assert ms == before + [m];
      var smaller := TableExists(before);
      if m.Registers() {
        var owners := Owners(ms, m.UBare());
        var value := if |owners| > 1 then Marker(owners) else m.Entry();
        table := FourWrites(smaller, m.Ref(), m.Bare(), m.Entry(), value);
        RoutingStep(smaller, before, m, owners, value);
      } else {
        table := smaller;
        forall k ensures Get(table, k) == Published(ms, k) { PublishedSnoc(before, m, k); }
      }
    }
  }

  ghost predicate RoutedAs(table: map<string, Entry>, refs: seq<string>, k: string, e: Entry)
  {
    RoutesTo(Get(ResolveAll(table, refs), k), e)
  }

  /** Whatever order the graph yields the mappings in, and whatever is asked for: the route of `k` is its one answer's. */
  ghost predicate NeverMisrouted(ms: seq<Mapping>, k: string)
  {
    forall p: seq<Mapping>, table, refs, e :: multiset(p) == multiset(ms) && Holds(table, p) && RoutedAs(table, refs, k, e) ==>
      Answered(ms, KeyIn(ms, k), e)
  }

  /** Likewise: the route of `k` is that of every table answering to the key it is read under. */
  ghost predicate NeverRoutedByChoice(ms: seq<Mapping>, k: string)
  {
    forall p: seq<Mapping>, table, refs, e :: multiset(p) == multiset(ms) && Holds(table, p) && RoutedAs(table, refs, k, e) ==>
      Sure(ms, KeyIn(ms, k), e)
  }

  /** The routes a reference can get are the routes its key can be published as. */
  lemma RoutedIsPublished(ms: seq<Mapping>, p: seq<Mapping>, table: map<string, Entry>, refs: seq<string>, k: string, e: Entry)
    requires multiset(p) == multiset(ms) && Holds(table, p) && RoutedAs(table, refs, k, e)
    ensures RoutesTo(Published(p, KeyIn(ms, k)), e)
  {
    hide KeyIn, ResolveAll, Published;
    ReadUnderKey(ms, p, table, refs, k);
  }

  lemma PublishedIsRouted(ms: seq<Mapping>, p: seq<Mapping>, k: string, e: Entry) returns (table: map<string, Entry>)
    requires multiset(p) == multiset(ms) && RoutesTo(Published(p, KeyIn(ms, k)), e)
    ensures Holds(table, p) && RoutedAs(table, [k], k, e)
  {
    hide KeyIn, ResolveAll, Published;
    table := TableExists(p);
    KeyForIsKeyIn(ms, p, table, k);
    AskedAlone(p, table, k);
  }

  lemma KeyInIsUpper(ms: seq<Mapping>, k: string)
    ensures Upper(KeyIn(ms, k)) == KeyIn(ms, k)
  {
    hide AfterLastDot;
    UpperIdempotent(k);
    BareKeyIsBare(k);
  }

  /**
   * For any mappings at all, end to end: a reference is never routed by a guess exactly when one name answers
   * to the key it is read under, with one pair of annotations, or all that answer share it as a bare name.
   */
  lemma NeverMisroutedIff(ms: seq<Mapping>, k: string)
    ensures NeverMisrouted(ms, k) <==> GuessFree(ms, KeyIn(ms, k))
  {
    hide KeyIn, Holds, GuessFree, Answered, RoutedAs, RoutesTo, Published;
    var key := KeyIn(ms, k);
    KeyInIsUpper(ms, k);
    NeverGuessedIff(ms, key);
    if NeverGuessed(ms, key) {
      forall p: seq<Mapping>, table, refs, e | multiset(p) == multiset(ms) && Holds(table, p) && RoutedAs(table, refs, k, e)
        ensures Answered(ms, key, e)
      {
        RoutedIsPublished(ms, p, table, refs, k, e);
      }
    }
    if NeverMisrouted(ms, k) {
      forall p: seq<Mapping>, e | multiset(p) == multiset(ms) && RoutesTo(Published(p, key), e) ensures Answered(ms, key, e) {
        var table := PublishedIsRouted(ms, p, k, e);
      }
    }
  }

  /** And never by a choice among annotations exactly when these agree, or all that answer share the key. */
  lemma NeverRoutedByChoiceIff(ms: seq<Mapping>, k: string)
    ensures NeverRoutedByChoice(ms, k) <==> ChoiceFree(ms, KeyIn(ms, k))
  {
    hide KeyIn, Holds, ChoiceFree, Sure, RoutedAs, RoutesTo, Published;
    var key := KeyIn(ms, k);
    KeyInIsUpper(ms, k);
    NeverChosenIff(ms, key);
    if NeverChosen(ms, key) {
      forall p: seq<Mapping>, table, refs, e | multiset(p) == multiset(ms) && Holds(table, p) && RoutedAs(table, refs, k, e)
        ensures Sure(ms, key, e)
      {
        RoutedIsPublished(ms, p, table, refs, k, e);
      }
    }
    if NeverRoutedByChoice(ms, k) {
      forall p: seq<Mapping>, e | multiset(p) == multiset(ms) && RoutesTo(Published(p, key), e) ensures Sure(ms, key, e) {
        var table := PublishedIsRouted(ms, p, k, e);
      }
    }
  }

  /** Whatever is asked for, a routed key carries what its own key was published as. */
  lemma ReadUnderKey(ms: seq<Mapping>, p: seq<Mapping>, table: map<string, Entry>, refs: seq<string>, k: string)
    requires multiset(p) == multiset(ms) && Holds(table, p)
    ensures Get(ResolveAll(table, refs), k).Some? ==> Get(ResolveAll(table, refs), k) == Published(p, KeyIn(ms, k))
  {
    hide Upper, AfterLastDot, ResolveAll, KeyIn;
    ResolveClosedForm(p, table, refs, k);
    KeyForIsKeyIn(ms, p, table, k);
    if Get(ResolveAll(table, refs), k).Some? && !(k in refs && Lookup(table, k).Some?) {
      var i :| 0 <= i < |refs| && SiblingOf(p, refs[i], k);
      SiblingKey(p, refs[i], k);
    }
  }

  /** In one given order, with refs distinct up to case: a route is its one answer's exactly when its key is touched in one way. */
  lemma RoutedHasOneAnswerIff(ms: seq<Mapping>, table: map<string, Entry>, refs: seq<string>, k: string)
    requires Holds(table, ms) && DistinctRefs(ms)
    requires var r := Get(ResolveAll(table, refs), k); r.Some? && r.value.Route?
    ensures Answered(ms, KeyFor(table, k), Get(ResolveAll(table, refs), k).value) <==> OneWay(ms, KeyFor(table, k))
  {
    hide ResolveAll, Answered, OneWay, DistinctRefs, Published, KeyIn;
    KeyForIsKeyIn(ms, ms, table, k);
    ReadUnderKey(ms, ms, table, refs, k);
    OneAnswerIff(ms, KeyFor(table, k));
  }

  lemma AskedAlone(p: seq<Mapping>, table: map<string, Entry>, k: string)
    requires Holds(table, p) && Lookup(table, k).Some?
    ensures Get(ResolveAll(table, [k]), k) == Lookup(table, k)
  {
    ResolveClosedForm(p, table, [k], k);
  }

  // ----- letter case -----

  lemma {:induction false} AfterLastDotUpper(ref: string)
    ensures AfterLastDot(Upper(ref)) == Upper(AfterLastDot(ref))
  {
    hide Upper, UpperChar;
    var n := |ref| - 1;
    if ref != "" {
      LastUpper(ref);
      if ref[n] != '.' {
        AfterLastDotUpper(ref[..n]);
        UpperSnoc(AfterLastDot(ref[..n]), ref[n]);
      }
    }
  }

  lemma LastUpper(ref: string)
    requires ref != ""
    ensures var n := |ref| - 1;
            Upper(ref)[n] == UpperChar(ref[n]) && (UpperChar(ref[n]) == '.' <==> ref[n] == '.') && Upper(ref)[..n] == Upper(ref[..n])
  {
  }

  lemma UpperSnoc(s: string, c: char)
    ensures Upper(s + [c]) == Upper(s) + [UpperChar(c)]
  {
  }

  /** References that are the same letter by letter but for case find the same entry, in any dictionary. */
  lemma LookupIgnoresCase(table: map<string, Entry>, a: string, b: string)
    requires SameUpToCase(a, b)
    ensures Lookup(table, a) == Lookup(table, b)
  {
    UpperSpells(a, b);
    AfterLastDotUpper(a);
    AfterLastDotUpper(b);
  }

  /** A reference equal but for case to a registered table's dotted name is read under that table's key, which is there. */
  lemma RegisteredIsRead(ms: seq<Mapping>, table: map<string, Entry>, m: Mapping, ref: string)
    requires Holds(table, ms) && m in ms && m.Registers() && SameUpToCase(ref, m.Ref())
    ensures KeyFor(table, ref) == m.URef() && m.URef() in table && SameUpToCase(m.URef(), ref)
  {
    UpperSpells(ref, m.Ref());
    UpperSpells(ref, ref);
    UpperIdempotent(m.Ref());
    PublishedClosedForm(ms, m.URef());
    assert m.Touches(m.URef());
    assert Get(table, m.URef()) == Published(ms, m.URef());
  }

  /**
   * For one table, its name written without quotes: a reference equal to the name but for case comes back
   * with the table's datasource and schema, and nothing else does.
   */
  lemma OneTableResolves(m: Mapping, segments: seq<string>, table: map<string, Entry>, ref: string)
    requires segments != [] && forall i :: 0 <= i < |segments| ==> '"' !in segments[i] && '.' !in segments[i]
    requires m.tableName == Join(segments, ".") && m.Registers() && Holds(table, [m])
    requires SameUpToCase(ref, m.tableName)
    ensures ResolveAll(table, [ref]) == map[ref := Route(m.datasourceId, m.sourceSchema)]
  {
    hide Upper, AfterLastDot, ResolveAll, SameUpToCase, Mapping.Touches;
    var ms := [m];
    BareNameParts(m, segments);
    RegisteredIsRead(ms, table, m, ref);
    OneMappingEntry(m, table);
    var answer := ResolveAll(table, [ref]);
    forall k ensures Get(answer, k) == if k == ref then Some(m.Entry()) else None {
      ResolveClosedForm(ms, table, [ref], k);
      OneOwner(ms, m, BareKey(ref));
      OneOwnerBringsNothing(m, ref, k);
    }
    assert forall k :: k in answer <==> Get(answer, k).Some?;
  }

  lemma OneMappingEntry(m: Mapping, table: map<string, Entry>)
    requires m.Registers() && Holds(table, [m])
    ensures Get(table, m.URef()) == Some(m.Entry())
  {
    var ms, k := [m], m.URef();
    UpperIdempotent(m.Ref());
    assert Get(table, k) == Published(ms, k);
    PublishedClosedForm(ms, k);
    OneOwner(ms, m, k);
    assert m in ms && m.Touches(k);
  }

  lemma OneOwnerBringsNothing(m: Mapping, ref: string, k: string)
    ensures !Brought([m], [ref], k)
  {
    OneOwner([m], m, BareKey(ref));
  }

  /** A key that no table with a datasource touches is never brought in as a sibling. */
  lemma NoDatasourceNeverSurfaces(ms: seq<Mapping>, table: map<string, Entry>, refs: seq<string>, k: string)
    requires Holds(table, ms) && Upper(k) == k && k !in refs
    requires forall m :: m in ms && m.Touches(k) ==> m.datasourceId == ""
    ensures k !in ResolveAll(table, refs)
  {
    hide Upper, ResolveAll;
    ResolveClosedForm(ms, table, refs, k);
    assert Get(table, k) == Published(ms, k);
    PublishedClosedForm(ms, k);
  }
}
