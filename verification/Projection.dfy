/**
 * The projection header Ontop prints above its SQL (packages/vkg/translate-server.py): which SQL
 * alias holds each SPARQL variable. A result is given for every variable or not at all.
 */
module Projection {
  import opened Text

  /** Cut at commas; the state is the parenthesis depth, which may go below 0. */
  const COMMAS := Scanner(',', (depth: int, c: char) => if c == '(' then depth + 1 else if c == ')' then depth - 1 else depth)

  /** `[p.strip() for p in parts if p.strip()]`. */
  function Kept(parts: seq<string>): (r: seq<string>)
    ensures forall p :: p in r ==> p != ""
  {
    if parts == [] then []
    else
      var before := Kept(parts[..|parts| - 1]);
      var p := Trim(parts[|parts| - 1]);
      if p == "" then before else before + [p]
  }

  method KeepTrimmed(parts: seq<string>) returns (r: seq<string>)
    ensures r == Kept(parts)
  {
    r := [];
    for i := 0 to |parts|
      invariant r == Kept(parts[..i])
    {
      assert parts[..i + 1][..i] == parts[..i];
      var p := Trim(parts[i]);
      if p != "" {
        r := r + [p];
      }
    }
    assert parts[..|parts|] == parts;
  }

  /** The comma scanner; `Text.Scanner.SplitIff` says what `COMMAS.Split` is. */
  method SplitTopLevel(text: string) returns (r: seq<string>)
    ensures r == Kept(COMMAS.Split(text, 0))
  {
    var parts: seq<string> := [];
    var depth := 0;
    var current := "";
    OntoNothing(COMMAS.Split(text, 0));
    assert text[0..] == text;
    for i := 0 to |text|
      invariant COMMAS.Split(text, 0) == parts + OntoFirst(current, COMMAS.Split(text[i..], depth))
    {
      var ch := text[i];
      COMMAS.SplitStep(text, depth, i, current);
      OntoNothing(COMMAS.Split(text[i + 1..], 0));
      if ch == '(' {
        depth := depth + 1;
      } else if ch == ')' {
        depth := depth - 1;
      }
      if ch == ',' && depth == 0 {
        parts := parts + [current];
        current := "";
      } else {
        current := current + [ch];
      }
    }
    assert text[|text|..] == "" && current + "" == current;
    parts := parts + [current];
    r := KeepTrimmed(parts);
  }

  function Depth(s: string): int
  {
    if s == "" then 0 else (if s[0] == '(' then 1 else if s[0] == ')' then -1 else 0) + Depth(s[1..])
  }

  /** One definition: as many `)` as `(`, and no comma where the two are level. */
  ghost predicate OneTerm(s: string)
  {
    Depth(s) == 0 && forall i :: 0 <= i < |s| && s[i] == ',' ==> Depth(s[..i]) != 0
  }

  lemma {:induction false} DepthState(s: string, st: int)
    ensures COMMAS.After(s, st) == st + Depth(s)
    decreases |s|
  {
    if s != "" { DepthState(s[1..], COMMAS.step(st, s[0])); }
  }

  lemma OneTermUncut(s: string)
    ensures OneTerm(s) <==> COMMAS.Uncut(s, 0) && COMMAS.After(s, 0) == 0
  {
    COMMAS.UncutIff(s, 0);
    DepthState(s, 0);
    forall i | 0 <= i < |s| ensures COMMAS.After(s[..i], 0) == Depth(s[..i]) { DepthState(s[..i], 0); }
  }

  // ----- printing a list and reading it back -----

  /** The pieces of `", ".join(items)` as a comma scanner sees them. */
  function Spaced(items: seq<string>): (r: seq<string>)
    ensures |r| == |items|
    ensures forall i :: 0 <= i < |r| ==> r[i] == if i == 0 then items[i] else " " + items[i]
  {
    seq(|items|, i requires 0 <= i < |items| => if i == 0 then items[i] else " " + items[i])
  }

  lemma {:induction false} JoinSpaced(items: seq<string>)
    ensures Join(items, ", ") == Join(Spaced(items), ",")
  {
    if |items| <= 1 {
      assert Spaced(items) == items;
    } else {
      hide Spaced;
      var rest := items[1..];
      JoinSpaced(rest);
      assert Spaced(items)[1..] == [" " + Spaced(rest)[0]] + Spaced(rest)[1..];
      JoinPrepend(" ", Spaced(rest), ",");
      assert items[0] + ", " + Join(rest, ", ") == items[0] + "," + (" " + Join(rest, ", "));
    }
  }

  predicate Printable(item: string)
  {
    item != "" && Trimmed(item)
  }

  lemma KeptSnoc(parts: seq<string>, last: string)
    ensures Kept(parts + [last]) == Kept(parts) + if Trim(last) == "" then [] else [Trim(last)]
  {
    assert (parts + [last])[..|parts|] == parts;
  }

  lemma TrimSpaced(item: string)
    requires Printable(item)
    ensures Trim(item) == item && Trim(" " + item) == item
  {
    hide StripLeft, StripRight;
    StripPadded("", item, "", IsSpace);
    StripPadded(" ", item, "", IsSpace);
    assert "" + item + "" == item && " " + item + "" == " " + item;
  }

  lemma NothingKept()
    ensures Kept([]) == []
  {
  }

  lemma {:induction false} KeptSpaced(items: seq<string>)
    requires forall i :: 0 <= i < |items| ==> Printable(items[i])
    ensures Kept(Spaced(items)) == items
  {
    hide Trim, Trimmed, Kept, Spaced;
    if items == [] {
      assert Kept([]) == [] by { NothingKept(); }
    } else {
      var fewer, last := items[..|items| - 1], items[|items| - 1];
      KeptSpaced(fewer);
      TrimSpaced(last);
      KeptSnoc(Spaced(fewer), Spaced(items)[|items| - 1]);
      assert Spaced(items) == Spaced(fewer) + [Spaced(items)[|items| - 1]];
      assert items == fewer + [last];
    }
  }

  lemma SpacedUncut(item: string)
    requires OneTerm(item)
    ensures COMMAS.Uncut(item, 0) && COMMAS.After(item, 0) == 0
    ensures COMMAS.Uncut(" " + item, 0) && COMMAS.After(" " + item, 0) == 0
  {
    OneTermUncut(item);
    var spaced := " " + item;
    assert spaced[0] == ' ' && spaced[1..] == item;
    assert !COMMAS.Cuts(0, ' ') && COMMAS.step(0, ' ') == 0;
  }

  /** Printing definitions with ", " between them and splitting at top-level commas loses nothing. */
  lemma SplitUndoesPrint(items: seq<string>)
    requires items != []
    requires forall i :: 0 <= i < |items| ==> Printable(items[i]) && OneTerm(items[i])
    ensures Kept(COMMAS.Split(Join(items, ", "), 0)) == items
  {
    JoinSpaced(items);
    var pieces := Spaced(items);
    forall i | 0 <= i < |pieces| ensures COMMAS.Uncut(pieces[i], 0) && COMMAS.After(pieces[i], 0) == 0 {
      SpacedUncut(items[i]);
    }
    COMMAS.WellCutFrom(pieces);
    COMMAS.SplitOfWellCut(pieces, 0);
    KeptSpaced(items);
  }

  /** The same for a list split at every comma. */
  lemma PlainUndoesPrint(items: seq<string>)
    requires items != []
    requires forall i :: 0 <= i < |items| ==> Printable(items[i]) && ',' !in items[i]
    ensures Kept(Plain(',').Split(Join(items, ", "), 0)) == items
  {
    hide Kept, Join, Scanner.Split, Trimmed;
    JoinSpaced(items);
    PlainSplitOfJoin(Spaced(items), ',');
    KeptSpaced(items);
  }

  // ----- which alias a term mentions -----

  /** The regex `\b` between positions `j - 1` and `j`, for any choice of word characters. */
  predicate Boundary(s: string, j: nat, isWord: char -> bool)
    requires j <= |s|
  {
    (j > 0 && isWord(s[j - 1])) != (j < |s| && isWord(s[j]))
  }

  predicate MentionedAt(alias: string, s: string, i: nat, isWord: char -> bool)
  {
    i + |alias| <= |s| && s[i..i + |alias|] == alias && Boundary(s, i, isWord) && Boundary(s, i + |alias|, isWord)
  }

  /** `re.search(rf"\b{re.escape(alias)}\b", s)`. */
  predicate Mentions(alias: string, s: string, isWord: char -> bool)
  {
    exists i :: 0 <= i <= |s| && MentionedAt(alias, s, i, isWord)
  }

  /** A match that starts after a cut point with a non-word character on one side is a match in the rest. */
  lemma MentionShift(alias: string, s: string, n: nat, isWord: char -> bool)
    requires alias != "" && forall i :: 0 <= i < |alias| ==> isWord(alias[i])
    requires 0 < n <= |s| && (n < |s| && isWord(s[n]) ==> !isWord(s[n - 1]))
    ensures Mentions(alias, s[n..], isWord) <==> exists i :: n <= i <= |s| && MentionedAt(alias, s, i, isWord)
  {
    var t := s[n..];
    forall i | n <= i <= |s| ensures MentionedAt(alias, s, i, isWord) <==> MentionedAt(alias, t, i - n, isWord) {
      if i + |alias| <= |s| {
        assert s[i..i + |alias|] == t[i - n..i - n + |alias|];
        if s[i..i + |alias|] == alias {
          assert s[i] == alias[0];
          assert Boundary(s, i, isWord) == Boundary(t, i - n, isWord);
          assert Boundary(s, i + |alias|, isWord) == Boundary(t, i - n + |alias|, isWord);
        }
      }
    }
    if Mentions(alias, t, isWord) {
      var j :| 0 <= j <= |t| && MentionedAt(alias, t, j, isWord);
      assert MentionedAt(alias, s, j + n, isWord);
    }
  }

  lemma MentionedFirst(alias: string, s: string, i: nat, isWord: char -> bool)
    requires alias != "" && forall k :: 0 <= k < |alias| ==> isWord(alias[k])
    requires s != "" && isWord(s[0]) && i < RunLength(s, isWord)
    ensures MentionedAt(alias, s, i, isWord) <==> i == 0 && alias == s[..RunLength(s, isWord)]
  {
    var n := RunLength(s, isWord);
    if MentionedAt(alias, s, i, isWord) {
      assert i == 0;
      assert alias == s[0..|alias|];
      forall k | 0 <= k < |alias| ensures isWord(s[k]) { assert s[k] == alias[k]; }
      assert isWord(s[|alias| - 1]);
      assert |alias| == n;
    }
    if i == 0 && alias == s[..n] { assert s[0..n] == s[..n]; }
  }

  /** For an alias made of word characters, the boundary search finds it exactly when it is a whole word of the text. */
  lemma {:induction false} MentionsIsWord(alias: string, s: string, isWord: char -> bool)
    requires alias != "" && forall i :: 0 <= i < |alias| ==> isWord(alias[i])
    ensures Mentions(alias, s, isWord) <==> alias in Words(s, isWord)
    decreases |s|
  {
    if s == "" {
    } else if !isWord(s[0]) {
      MentionsIsWord(alias, s[1..], isWord);
      MentionShift(alias, s, 1, isWord);
      assert !MentionedAt(alias, s, 0, isWord) by {
        if |alias| <= |s| { assert s[0..|alias|][0] == s[0]; }
      }
    } else {
      var n := RunLength(s, isWord);
      MentionsIsWord(alias, s[n..], isWord);
      MentionShift(alias, s, n, isWord);
      forall i | 0 <= i < n
        ensures MentionedAt(alias, s, i, isWord) <==> i == 0 && alias == s[..n]
      {
        MentionedFirst(alias, s, i, isWord);
      }
      if alias == s[..n] { assert MentionedAt(alias, s, 0, isWord); }
    }
  }

  // ----- the header -----

  datatype Header = Header(selectVars: seq<string>, varToColumn: map<string, string>)

  function Referenced(aliases: set<string>, expr: string, isWord: char -> bool): set<string>
  {
    set a | a in aliases && Mentions(a, expr, isWord)
  }

  /** The definition is for `v` and its expression mentions `alias` and no other alias. */
  predicate Defines(definition: string, v: string, alias: string, aliases: set<string>, isWord: char -> bool)
  {
    var n := UpTo(definition, '/');
    n < |definition| && Trim(definition[..n]) == v && Referenced(aliases, definition[n + 1..], isWord) == {alias}
  }

  /** The alias the last deciding definition gives `v`. */
  function ColumnOf(definitions: seq<string>, v: string, aliases: set<string>, isWord: char -> bool): (r: Option<string>)
    ensures r.Some? ==> exists d :: d in definitions && Defines(d, v, r.value, aliases, isWord)
    ensures r.Some? ==> r.value in aliases
    ensures r.None? ==> forall d, a :: d in definitions ==> !Defines(d, v, a, aliases, isWord)
  {
    if definitions == [] then None
    else
      var before, d := definitions[..|definitions| - 1], definitions[|definitions| - 1];
      assert definitions == before + [d];
      var n := UpTo(d, '/');
      if n < |d| && Trim(d[..n]) == v && |Referenced(aliases, d[n + 1..], isWord)| == 1
      then
        Single(Referenced(aliases, d[n + 1..], isWord));
        var a := Sole(Referenced(aliases, d[n + 1..], isWord));
        assert Defines(d, v, a, aliases, isWord);
        Some(a)
      else ColumnOf(before, v, aliases, isWord)
  }

  lemma Single(s: set<string>)
    requires |s| == 1
    ensures exists a :: s == {a}
  {
    var a :| a in s;
    assert |s - {a}| == 0;
    assert s == {a};
  }

  function Sole(s: set<string>): (a: string)
    requires exists a :: s == {a}
    ensures s == {a}
  {
    assert forall a, b :: s == {a} && s == {b} ==> a == b by {
      forall a, b | s == {a} && s == {b} ensures a == b { assert a in s; }
    }
    var a :| a in s && s == {a};
    a
  }

  ghost predicate AllColumns(vars: seq<string>, aliases: set<string>, definitions: seq<string>, isWord: char -> bool)
  {
    forall v :: v in vars ==> ColumnOf(definitions, v, aliases, isWord).Some?
  }

  ghost function Columns(vars: seq<string>, aliases: set<string>, definitions: seq<string>, isWord: char -> bool)
    : (r: map<string, string>)
    requires AllColumns(vars, aliases, definitions, isWord)
    ensures r.Keys == Members(vars)
    ensures forall v :: v in r ==> ColumnOf(definitions, v, aliases, isWord) == Some(r[v])
  {
    map v | v in vars :: ColumnOf(definitions, v, aliases, isWord).value
  }

  /** All of the variables or nothing. */
  ghost function Parsed(vars: seq<string>, aliases: set<string>, definitions: seq<string>, isWord: char -> bool)
    : Option<Header>
  {
    if vars != [] && aliases != {} && Distinct(vars) && AllColumns(vars, aliases, definitions, isWord)
    then Some(Header(vars, Columns(vars, aliases, definitions, isWord)))
    else None
  }

  function Members(items: seq<string>): set<string>
  {
    set a | a in items
  }

  predicate Distinct(items: seq<string>)
  {
    forall i, j :: 0 <= i < j < |items| ==> items[i] != items[j]
  }

  function Aliases(text: string): set<string>
  {
    Members(Kept(Plain(',').Split(text, 0)))
  }

  /** The header, from what its three patterns captured. */
  ghost function ParsedHeader(ans: Option<string>, native: Option<string>, construct: Option<string>, isWord: char -> bool)
    : Option<Header>
  {
    if ans.Some? && native.Some? && construct.Some?
    then Parsed(Kept(Plain(',').Split(ans.value, 0)), Aliases(native.value), Kept(COMMAS.Split(construct.value, 0)), isWord)
    else None
  }

  ghost predicate ColumnsSoFar(
      columns: map<string, string>, definitions: seq<string>, vars: seq<string>, aliases: set<string>, isWord: char -> bool)
  {
    forall v :: Get(columns, v) == if v in vars then ColumnOf(definitions, v, aliases, isWord) else None
  }

  /** The parser, pattern by pattern, giving up at the first thing that is missing. */
  method ParseProjectionHeader(
      ans: Option<string>, native: Option<string>, construct: Option<string>, isWord: char -> bool)
    returns (r: Option<Header>)
    ensures r == ParsedHeader(ans, native, construct, isWord)
  {
    hide Trim, UpTo, Kept, Scanner.Split, Mentions, Distinct;
    if ans.None? { return None; }
    var varNames := KeepTrimmed(Plain(',').Split(ans.value, 0));
    if varNames == [] { return None; }
    if native.None? { return None; }
    var names := KeepTrimmed(Plain(',').Split(native.value, 0));
    var aliases := Members(names);
    if aliases == {} { return None; }
    if construct.None? { return None; }
    var definitions := SplitTopLevel(construct.value);
    var varToColumn: map<string, string> := map[];
    for i := 0 to |definitions|
      invariant ColumnsSoFar(varToColumn, definitions[..i], varNames, aliases, isWord)
    {
      var definition := definitions[i];
      assert definitions[..i + 1][..i] == definitions[..i];
      var n := UpTo(definition, '/');
      if n == |definition| { continue; }
      var name := Trim(definition[..n]);
      if name !in varNames { continue; }
      var referenced := Referenced(aliases, definition[n + 1..], isWord);
      if |referenced| == 1 {
        Single(referenced);
        varToColumn := varToColumn[name := Sole(referenced)];
      }
    }
    assert definitions[..|definitions|] == definitions;
    MappedCount(varToColumn, varNames);
    if |varToColumn| != |varNames| {
      MissingOne(varToColumn, definitions, varNames, aliases, isWord);
      return None;
    }
    r := Some(Header(varNames, varToColumn));
    AllMapped(varToColumn, definitions, varNames, aliases, isWord);
  }

  lemma DistinctCons(x: string, rest: seq<string>)
    ensures Distinct([x] + rest) <==> x !in rest && Distinct(rest)
  {
    var items := [x] + rest;
    if x in rest {
      var j :| 0 <= j < |rest| && rest[j] == x;
      assert items[j + 1] == items[0];
    } else {
      if Distinct(items) {
        forall i, j | 0 <= i < j < |rest| ensures rest[i] != rest[j] {
          assert items[i + 1] != items[j + 1];
        }
      }
    }
  }

  lemma {:induction false} CountMembers(items: seq<string>)
    ensures |Members(items)| <= |items|
    ensures |Members(items)| == |items| <==> Distinct(items)
  {
    if items != [] {
      var rest, x := items[1..], items[0];
      CountMembers(rest);
      assert items == [x] + rest;
      DistinctCons(x, rest);
      assert Members(items) == Members(rest) + {x};
      if x in rest {
        assert Members(items) == Members(rest);
      }
    }
  }

  /** Variables and mapped names are equal in number exactly when the variables are distinct and all mapped. */
  lemma MappedCount(columns: map<string, string>, vars: seq<string>)
    requires forall v :: v in columns ==> v in vars
    ensures |columns| == |vars| <==>
            Distinct(vars) && forall v :: v in vars ==> v in columns
  {
    CountMembers(vars);
    var members := Members(vars);
    assert columns.Keys <= members;
    assert |members - columns.Keys| + |columns.Keys| == |members|;
    if |columns| == |vars| {
      assert members - columns.Keys == {};
      forall v | v in vars ensures v in columns { assert v in members; }
    }
    if forall v :: v in vars ==> v in columns {
      assert columns.Keys == members;
    }
  }

  lemma MissingOne(
      columns: map<string, string>, definitions: seq<string>, vars: seq<string>, aliases: set<string>, isWord: char -> bool)
    requires ColumnsSoFar(columns, definitions, vars, aliases, isWord) && |columns| != |vars|
    ensures Parsed(vars, aliases, definitions, isWord).None?
  {
    assert forall v :: v in columns ==> Get(columns, v).Some?;
    MappedCount(columns, vars);
    if AllColumns(vars, aliases, definitions, isWord) {
      forall v | v in vars ensures v in columns { assert Get(columns, v).Some?; }
    }
  }

  lemma AllMapped(
      columns: map<string, string>, definitions: seq<string>, vars: seq<string>, aliases: set<string>, isWord: char -> bool)
    requires ColumnsSoFar(columns, definitions, vars, aliases, isWord) && |columns| == |vars|
    requires vars != [] && aliases != {}
    ensures Parsed(vars, aliases, definitions, isWord) == Some(Header(vars, columns))
  {
    assert forall v :: v in columns ==> Get(columns, v).Some?;
    MappedCount(columns, vars);
    forall v | v in vars ensures ColumnOf(definitions, v, aliases, isWord) == Some(columns[v]) {
      assert Get(columns, v).Some?;
    }
    SameColumns(columns, definitions, vars, aliases, isWord);
  }

  lemma SameColumns(
      columns: map<string, string>, definitions: seq<string>, vars: seq<string>, aliases: set<string>, isWord: char -> bool)
    requires forall v :: v in columns <==> v in vars
    requires forall v :: v in vars ==> ColumnOf(definitions, v, aliases, isWord) == Some(columns[v])
    ensures AllColumns(vars, aliases, definitions, isWord) && Columns(vars, aliases, definitions, isWord) == columns
  {
    var r := Columns(vars, aliases, definitions, isWord);
    assert r.Keys == columns.Keys;
    forall v | v in r ensures r[v] == columns[v] {
      assert Some(r[v]) == Some(columns[v]);
    }
  }

  /** What a result means: distinct variables, each mapped to the only alias one of its definitions mentions. */
  lemma HeaderIsFaithful(ans: Option<string>, native: Option<string>, construct: Option<string>, isWord: char -> bool)
    requires ParsedHeader(ans, native, construct, isWord).Some?
    ensures var h := ParsedHeader(ans, native, construct, isWord).value;
            && Distinct(h.selectVars)
            && (forall v :: v in h.varToColumn <==> v in h.selectVars)
            && forall v :: v in h.selectVars ==>
                 h.varToColumn[v] in Aliases(native.value) &&
                 exists d :: d in Kept(COMMAS.Split(construct.value, 0)) &&
                             Defines(d, v, h.varToColumn[v], Aliases(native.value), isWord)
  {
  }

  /** Names printed with ", " between them are read back as the aliases. */
  lemma PrintedAliases(names: seq<string>)
    requires names != [] && forall i :: 0 <= i < |names| ==> Printable(names[i]) && ',' !in names[i]
    ensures Aliases(Join(names, ", ")) == Members(names)
  {
    PlainUndoesPrint(names);
  }

  /** The alias is made of word characters. */
  predicate IsWordText(alias: string, isWord: char -> bool)
  {
    alias != "" && forall i :: 0 <= i < |alias| ==> isWord(alias[i])
  }

  /** The words of the text that are aliases are this one and no other. */
  ghost predicate OnlyWord(text: string, alias: string, aliases: set<string>, isWord: char -> bool)
  {
    forall a :: a in aliases && a in Words(text, isWord) <==> a == alias
  }

  /** For word aliases, what an expression references is those among its words. */
  lemma ReferencedAreWords(aliases: set<string>, text: string, alias: string, isWord: char -> bool)
    requires forall a :: a in aliases ==> IsWordText(a, isWord)
    ensures Referenced(aliases, text, isWord) == {alias} <==> OnlyWord(text, alias, aliases, isWord)
  {
    hide Mentions, Words;
    forall a | a in aliases ensures Mentions(a, text, isWord) <==> a in Words(text, isWord) {
      MentionsIsWord(a, text, isWord);
    }
    var r := Referenced(aliases, text, isWord);
    assert forall a :: a in r <==> a in aliases && a in Words(text, isWord);
    if OnlyWord(text, alias, aliases, isWord) {
      assert forall a :: a in r <==> a == alias;
    }
  }

  /** The definition is the variable, a slash and a term with this alias, and no other, among its words. */
  ghost predicate NamesOnly(definition: string, v: string, alias: string, aliases: set<string>, isWord: char -> bool)
  {
    exists name, term :: definition == name + "/" + term && '/' !in name && Trim(name) == v && OnlyWord(term, alias, aliases, isWord)
  }

  /** For word aliases, said with the words of the text: each variable has the only alias among the words of one of its definitions. */
  lemma HeaderNamesWords(ans: Option<string>, native: Option<string>, construct: Option<string>, isWord: char -> bool)
    requires ParsedHeader(ans, native, construct, isWord).Some?
    requires forall a :: a in Aliases(native.value) ==> IsWordText(a, isWord)
    ensures var h := ParsedHeader(ans, native, construct, isWord).value;
            forall v :: v in h.selectVars ==>
              v in h.varToColumn && h.varToColumn[v] in Aliases(native.value) &&
              exists d :: d in Kept(COMMAS.Split(construct.value, 0)) &&
                          NamesOnly(d, v, h.varToColumn[v], Aliases(native.value), isWord)
  {
    hide Kept, Scanner.Split, Words, NamesOnly, Parsed, Defines;
    HeaderIsFaithful(ans, native, construct, isWord);
    assert native.Some? && construct.Some?;
    hide ParsedHeader;
    var h := ParsedHeader(ans, native, construct, isWord).value;
    forall v | v in h.selectVars
      ensures exists d :: d in Kept(COMMAS.Split(construct.value, 0)) &&
                          NamesOnly(d, v, h.varToColumn[v], Aliases(native.value), isWord)
    {
      var d :| d in Kept(COMMAS.Split(construct.value, 0)) && Defines(d, v, h.varToColumn[v], Aliases(native.value), isWord);
      DefinesNames(d, v, h.varToColumn[v], Aliases(native.value), isWord);
    }
  }

  lemma DefinesNames(d: string, v: string, alias: string, aliases: set<string>, isWord: char -> bool)
    requires Defines(d, v, alias, aliases, isWord) && forall a :: a in aliases ==> IsWordText(a, isWord)
    ensures NamesOnly(d, v, alias, aliases, isWord)
  {
    hide Words, Referenced, Trim, UpTo;
    var n := UpTo(d, '/');
    assert d == d[..n] + "/" + d[n + 1..];
    ReferencedAreWords(aliases, d[n + 1..], alias, isWord);
  }

  /** The order of the NATIVE list does not matter: the whole header is parsed alike. */
  lemma NativeOrderIrrelevant(
      names: seq<string>, permuted: seq<string>, ans: Option<string>, construct: Option<string>, isWord: char -> bool)
    requires names != [] && multiset(names) == multiset(permuted)
    requires forall i :: 0 <= i < |names| ==> Printable(names[i]) && ',' !in names[i]
    ensures ParsedHeader(ans, Some(Join(names, ", ")), construct, isWord) ==
            ParsedHeader(ans, Some(Join(permuted, ", ")), construct, isWord)
  {
    hide Parsed, Kept, Join, Printable;
    forall a ensures a in permuted <==> a in names {
      assert a in permuted <==> a in multiset(permuted);
      assert a in names <==> a in multiset(names);
    }
    forall i | 0 <= i < |permuted| ensures Printable(permuted[i]) && ',' !in permuted[i] {
      assert permuted[i] in names;
    }
    assert |permuted| == |multiset(permuted)| == |names|;
    PrintedAliases(names);
    PrintedAliases(permuted);
    assert Members(names) == Members(permuted);
  }

  function Definitions(vars: seq<string>, terms: seq<string>): (r: seq<string>)
    requires |vars| == |terms|
    ensures |r| == |vars| && forall i :: 0 <= i < |r| ==> r[i] == vars[i] + "/" + terms[i]
  {
    seq(|vars|, i requires 0 <= i < |vars| => vars[i] + "/" + terms[i])
  }

  /** The variable at each position, mapped to the column at the same position. */
  function Assignment(vars: seq<string>, columns: seq<string>): (r: map<string, string>)
    requires |vars| == |columns| && Distinct(vars)
    ensures forall v :: v in r <==> v in vars
    ensures forall i :: 0 <= i < |vars| ==> r[vars[i]] == columns[i]
  {
    map i: int | 0 <= i < |vars| :: vars[i] := columns[i]
  }

  lemma SlashAfterName(v: string, term: string)
    requires '/' !in v
    ensures UpTo(v + "/" + term, '/') == |v|
  {
    assert v + "/" + term == v + ("/" + term);
    UpToOf(v, "/" + term, '/');
  }

  /**
   * A header whose definitions reference one alias each reads back as printed, whatever the SQL column
   * order: variables in order, each with its own column.
   */
  lemma ReferencedHeaderReadsBack(
      vars: seq<string>, terms: seq<string>, columns: seq<string>, names: seq<string>, isWord: char -> bool)
    requires vars != [] && names != [] && |vars| == |terms| == |columns|
    requires Distinct(vars)
    requires forall i :: 0 <= i < |vars| ==> Printable(vars[i]) && ',' !in vars[i] && '/' !in vars[i]
    requires forall i :: 0 <= i < |names| ==> Printable(names[i]) && ',' !in names[i]
    requires forall i :: 0 <= i < |vars| ==>
               Printable(vars[i] + "/" + terms[i]) && OneTerm(vars[i] + "/" + terms[i]) &&
               Referenced(Members(names), terms[i], isWord) == {columns[i]}
    ensures ParsedHeader(
              Some(Join(vars, ", ")), Some(Join(names, ", ")), Some(Join(Definitions(vars, terms), ", ")), isWord)
            == Some(Header(vars, Assignment(vars, columns)))
  {
    hide Kept, Join, Scanner.Split, Trimmed, OneTerm, Referenced, ColumnOf;
    var ds := Definitions(vars, terms);
    PlainUndoesPrint(vars);
    PrintedAliases(names);
    SplitUndoesPrint(ds);
    var aliases := Members(names);
    assert names[0] in aliases;
    var columnOf := Assignment(vars, columns);
    forall v | v in vars ensures ColumnOf(ds, v, aliases, isWord) == Some(columnOf[v]) {
      var i :| 0 <= i < |vars| && vars[i] == v;
      PrintedColumn(vars, terms, columns, aliases, isWord, i);
    }
    SameColumns(columnOf, ds, vars, aliases, isWord);
  }

  /**
   * Said with the words of the text, for word aliases: a printed header whose terms have one alias each among
   * their words, and any other words, reads back as printed.
   */
  lemma PrintedHeaderReadsBack(
      vars: seq<string>, terms: seq<string>, columns: seq<string>, names: seq<string>, isWord: char -> bool)
    requires vars != [] && names != [] && |vars| == |terms| == |columns|
    requires Distinct(vars)
    requires forall i :: 0 <= i < |vars| ==> Printable(vars[i]) && ',' !in vars[i] && '/' !in vars[i]
    requires forall i :: 0 <= i < |names| ==> Printable(names[i]) && ',' !in names[i] && IsWordText(names[i], isWord)
    requires forall i :: 0 <= i < |vars| ==> Printable(vars[i] + "/" + terms[i]) && OneTerm(vars[i] + "/" + terms[i])
    requires forall i :: 0 <= i < |vars| ==> OnlyWord(terms[i], columns[i], Members(names), isWord)
    ensures ParsedHeader(
              Some(Join(vars, ", ")), Some(Join(names, ", ")), Some(Join(Definitions(vars, terms), ", ")), isWord)
            == Some(Header(vars, Assignment(vars, columns)))
  {
    hide Printable, OneTerm, Words, Referenced, Join, ParsedHeader, OnlyWord;
    forall i | 0 <= i < |vars| ensures Referenced(Members(names), terms[i], isWord) == {columns[i]} {
      ReferencedAreWords(Members(names), terms[i], columns[i], isWord);
    }
    ReferencedHeaderReadsBack(vars, terms, columns, names, isWord);
  }

  lemma PrintedColumn(
      vars: seq<string>, terms: seq<string>, columns: seq<string>, aliases: set<string>, isWord: char -> bool, i: nat)
    requires |vars| == |terms| == |columns| && i < |vars|
    requires Distinct(vars)
    requires forall i :: 0 <= i < |vars| ==> Printable(vars[i]) && '/' !in vars[i]
    requires Referenced(aliases, terms[i], isWord) == {columns[i]}
    ensures ColumnOf(Definitions(vars, terms), vars[i], aliases, isWord) == Some(columns[i])
  {
    hide UpTo, Trim, Trimmed, Referenced;
    var ds := Definitions(vars, terms);
    forall j | 0 <= j < |vars|
      ensures var d := ds[j]; UpTo(d, '/') < |d| && Trim(d[..UpTo(d, '/')]) == vars[j] && d[UpTo(d, '/') + 1..] == terms[j]
    {
      SlashAfterName(vars[j], terms[j]);
      assert ds[j][..|vars[j]|] == vars[j];
      TrimOfTrimmed(vars[j]);
    }
    assert Defines(ds[i], vars[i], columns[i], aliases, isWord);
    var c := ColumnOf(ds, vars[i], aliases, isWord);
    assert ds[i] in ds;
    assert c.Some?;
    var d :| d in ds && Defines(d, vars[i], c.value, aliases, isWord);
    var j :| 0 <= j < |ds| && ds[j] == d;
    assert i == j;
    assert {c.value} == {columns[i]};
    assert c.value in {columns[i]};
  }
}
