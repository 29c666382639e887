/** The SSM references of a synthesized assembly and the exit status of the gate (infra/scripts/ssm_refs_check.py). */
module SsmGate {
  import opened Text
  import opened Ordering
  import opened SsmNames

  /** A template value. A scalar is a number, a boolean or null, as Python prints it. */
  datatype Json =
    | Str(text: string)
    | Scalar(text: string)
    | Arr(items: seq<Json>)
    | Obj(fields: seq<Field>)

  datatype Field = Field(key: string, value: Json)

  function Find(fields: seq<Field>, key: string): (r: Option<Json>)
    ensures r.Some? ==> exists i :: 0 <= i < |fields| && fields[i].key == key && fields[i].value == r.value
  {
    if fields == [] then None
    else if fields[0].key == key then Some(fields[0].value)
    else Find(fields[1..], key)
  }

  // ----- dynamic references in a text -----

  const OPEN := "{{resolve:ssm:"
  const OPEN_SECURE := "{{resolve:ssm-secure:"

  /** How far the characters a referenced name may hold go: tokens, and anything but `}` or an unclosed `${`. */
  function BodyLength(s: string): (n: nat)
    ensures n <= |s|
    decreases |s|
  {
    if s == "" || s[0] == '}' then 0
    else if Opens(s) then
      var k := TokenLength(s);
      if k == 0 then 0 else k + BodyLength(s[k..])
    else 1 + BodyLength(s[1..])
  }

  function OpenLength(s: string): (n: nat)
    ensures n <= |s|
  {
    if OPEN <= s then |OPEN| else if OPEN_SECURE <= s then |OPEN_SECURE| else 0
  }

  /** The length of the reference that starts at the front of the text, 0 when none does. */
  function ReferenceLength(s: string): (n: nat)
    ensures n <= |s| && (n > 0 ==> n >= OpenLength(s) + 2)
  {
    var o := OpenLength(s);
    var n := BodyLength(s[o..]);
    if o > 0 && n > 0 && "}}" <= s[o + n..] then o + n + 2 else 0
  }

  /** The names of the references in a text, left to right, as the pattern's `findall` yields them. */
  function Dynamic(s: string): seq<string>
    decreases |s|
  {
    if s == "" then []
    else
      var n := ReferenceLength(s);
      if n > 0 then [s[OpenLength(s)..n - 2]] + Dynamic(s[n..]) else Dynamic(s[1..])
  }

  /** A name that can be written into a reference. */
  predicate Writable(name: string)
  {
    name != "" && BodyLength(name) == |name|
  }

  /** What a name may hold: any closed token ... */
  lemma BodyTakesToken(x: string, s: string)
    requires '}' !in x
    ensures BodyLength("${" + x + "}" + s) == |x| + 3 + BodyLength(s)
  {
    hide TokenLength;
    var t := "${" + x + "}" + s;
    TokenAtFront(x, s);
    assert t[0] == '$' && t[1] == '{' && t[|x| + 3..] == s;
  }

  /** ... and any character but `}` and a dollar sign that opens a token. */
  lemma BodyTakesCharacter(c: char, s: string)
    requires c != '}' && !Opens([c] + s)
    ensures BodyLength([c] + s) == 1 + BodyLength(s)
  {
    assert ([c] + s)[1..] == s && ([c] + s)[0] == c;
  }

  lemma BodyEnds(s: string)
    ensures BodyLength("") == 0 && BodyLength("}" + s) == 0
  {
    assert ("}" + s)[0] == '}';
  }

  /** In particular every plain name can be written. */
  lemma {:induction false} PlainIsWritable(name: string)
    requires name != "" && '}' !in name && '$' !in name
    ensures Writable(name)
  {
    var rest := name[1..];
    assert name == [name[0]] + rest && name[0] in name;
    BodyTakesCharacter(name[0], rest);
    BodyEnds("");
    if rest != "" { PlainIsWritable(rest); }
  }

  lemma {:induction false} UpToExtends(a: string, b: string, c: char)
    requires UpTo(a, c) < |a|
    ensures UpTo(a + b, c) == UpTo(a, c)
  {
    assert (a + b)[0] == a[0];
    if a[0] != c {
      assert (a + b)[1..] == a[1..] + b;
      UpToExtends(a[1..], b, c);
    }
  }

  lemma {:induction false} BodyStopsAtBrace(name: string, rest: string)
    requires BodyLength(name) == |name| && rest != "" && rest[0] == '}'
    ensures BodyLength(name + rest) == |name|
    decreases |name|
  {
    hide UpTo;
    var s := name + rest;
    if name == "" {
      assert s == rest;
    } else {
      assert s[0] == name[0];
      if Opens(name) {
        assert Opens(s) && s[2..] == name[2..] + rest;
        UpToExtends(name[2..], rest, '}');
        var k := TokenLength(name);
        assert s[k..] == name[k..] + rest;
        BodyStopsAtBrace(name[k..], rest);
      } else {
        assert !Opens(s) by { if |name| > 1 { assert s[1] == name[1]; } else { assert s[1] == '}'; } }
        assert s[1..] == name[1..] + rest;
        BodyStopsAtBrace(name[1..], rest);
      }
    }
  }

  /** No reference begins before the written one is reached. */
  ghost predicate NoneBefore(before: string, reference: string)
  {
    forall i :: 0 <= i < |before| ==> ReferenceLength((before + reference)[i..]) == 0
  }

  /** A reference written into a text is found, whatever the text around it, unless another one begins before it. */
  lemma {:induction false} WrittenReferenceIsFound(before: string, name: string, after: string)
    requires Writable(name) && NoneBefore(before, OPEN + name + "}}" + after)
    ensures Dynamic(before + (OPEN + name + "}}" + after)) == [name] + Dynamic(after)
    decreases |before|
  {
    hide ReferenceLength, BodyLength;
    var reference := OPEN + name + "}}" + after;
    var s := before + reference;
    if before == "" {
      assert s == reference;
      ReferenceAtFront(name, after);
    } else {
      assert s[0..] == s && ReferenceLength(s) == 0;
      assert s[1..] == before[1..] + reference;
      forall i | 0 <= i < |before[1..]| ensures ReferenceLength((before[1..] + reference)[i..]) == 0 {
        assert (before[1..] + reference)[i..] == s[i + 1..];
        assert ReferenceLength(s[i + 1..]) == 0;
      }
      WrittenReferenceIsFound(before[1..], name, after);
    }
  }

  /** None does when no `{{resolve:` opening stands before it, as in JSON text with braces of its own. */
  lemma NoOpeningBefore(before: string, reference: string)
    requires forall i :: 0 <= i < |before| ==> OpenLength((before + reference)[i..]) == 0
    ensures NoneBefore(before, reference)
  {
    forall i | 0 <= i < |before| ensures ReferenceLength((before + reference)[i..]) == 0 {
      assert OpenLength((before + reference)[i..]) == 0;
    }
  }

  lemma ReferenceAtFront(name: string, after: string)
    requires Writable(name)
    ensures Dynamic(OPEN + name + "}}" + after) == [name] + Dynamic(after)
  {
    hide BodyLength, Dynamic;
    var s, rest := OPEN + name + "}}" + after, "}}" + after;
    assert s == OPEN + (name + rest);
    BodyStopsAtBrace(name, rest);
    assert rest[0] == '}' && rest[..2] == "}}";
    OpensWith(name + rest);
    assert s[|OPEN|..] == name + rest;
    assert s[|OPEN| + |name|..] == rest;
    assert ReferenceLength(s) == |OPEN| + |name| + 2;
    assert s[|OPEN|..|OPEN| + |name|] == name;
    assert s[|OPEN| + |name| + 2..] == after;
    DynamicStep(s);
  }

  lemma OpensWith(rest: string)
    ensures OpenLength(OPEN + rest) == |OPEN|
  {
    assert (OPEN + rest)[..|OPEN|] == OPEN;
  }

  lemma DynamicStep(s: string)
    requires ReferenceLength(s) > 0
    ensures Dynamic(s) == [s[OpenLength(s)..ReferenceLength(s) - 2]] + Dynamic(s[ReferenceLength(s)..])
  {
    hide ReferenceLength, OpenLength;
  }

  /** The secure form is found as well, wherever it is written. */
  lemma {:induction false} SecureReferenceIsFound(before: string, name: string, after: string)
    requires Writable(name) && NoneBefore(before, "{{resolve:ssm-secure:" + name + "}}" + after)
    ensures Dynamic(before + ("{{resolve:ssm-secure:" + name + "}}" + after)) == [name] + Dynamic(after)
    decreases |before|
  {
    hide ReferenceLength, BodyLength;
    var reference := OPEN_SECURE + name + "}}" + after;
    var s := before + reference;
    if before == "" {
      assert s == reference;
      SecureAtFront(name, after);
    } else {
      assert s[0..] == s && ReferenceLength(s) == 0;
      assert s[1..] == before[1..] + reference;
      forall i | 0 <= i < |before[1..]| ensures ReferenceLength((before[1..] + reference)[i..]) == 0 {
        assert (before[1..] + reference)[i..] == s[i + 1..];
        assert ReferenceLength(s[i + 1..]) == 0;
      }
      SecureReferenceIsFound(before[1..], name, after);
    }
  }

  lemma SecureAtFront(name: string, after: string)
    requires Writable(name)
    ensures Dynamic(OPEN_SECURE + name + "}}" + after) == [name] + Dynamic(after)
  {
    hide BodyLength, Dynamic;
    var s, rest := OPEN_SECURE + name + "}}" + after, "}}" + after;
    assert s == OPEN_SECURE + (name + rest);
    BodyStopsAtBrace(name, rest);
    assert rest[0] == '}' && rest[..2] == "}}";
    OpensSecurely(name + rest);
    assert s[|OPEN_SECURE|..] == name + rest;
    assert s[|OPEN_SECURE| + |name|..] == rest;
    assert ReferenceLength(s) == |OPEN_SECURE| + |name| + 2;
    assert s[|OPEN_SECURE|..|OPEN_SECURE| + |name|] == name;
    assert s[|OPEN_SECURE| + |name| + 2..] == after;
    DynamicStep(s);
  }

  lemma OpensSecurely(rest: string)
    ensures OpenLength(OPEN_SECURE + rest) == |OPEN_SECURE|
  {
    assert (OPEN_SECURE + rest)[..|OPEN_SECURE|] == OPEN_SECURE;
    assert (OPEN_SECURE + rest)[13] == OPEN_SECURE[13] == '-' && OPEN[13] == ':';
  }

  /** The reference, written out, stands in the text. */
  predicate StandsIn(name: string, s: string)
  {
    exists i :: 0 <= i <= |s| && StandsAt(name, s, i)
  }

  predicate StandsAt(name: string, s: string, i: nat)
    requires i <= |s|
  {
    "{{resolve:ssm:" + name + "}}" <= s[i..] || "{{resolve:ssm-secure:" + name + "}}" <= s[i..]
  }

  /** Nothing else is found: every name read off a text stands in it as a reference. */
  lemma {:induction false} FoundReferencesStand(s: string, name: string)
    requires name in Dynamic(s)
    ensures name != "" && StandsIn(name, s)
    decreases |s|
  {
    hide ReferenceLength, OpenLength;
    var n := ReferenceLength(s);
    if n > 0 { FrontStands(s); }
    if !(n > 0 && name == s[OpenLength(s)..n - 2]) {
      var k := if n > 0 then n else 1;
      FoundReferencesStand(s[k..], name);
      StandsLater(s, name, k);
    }
  }

  lemma FrontStands(s: string)
    requires ReferenceLength(s) > 0
    ensures var name := s[OpenLength(s)..ReferenceLength(s) - 2]; name != "" && StandsIn(name, s)
  {
    hide BodyLength;
    var o, n := OpenLength(s), ReferenceLength(s);
    var name := s[o..n - 2];
    assert "}}" <= s[n - 2..];
    assert s[..n] == s[..o] + name + "}}";
    assert s[0..] == s && StandsAt(name, s, 0);
  }

  lemma StandsLater(s: string, name: string, k: nat)
    requires k <= |s| && StandsIn(name, s[k..])
    ensures StandsIn(name, s)
  {
    var i :| 0 <= i <= |s[k..]| && StandsAt(name, s[k..], i);
    assert s[k..][i..] == s[k + i..];
    assert StandsAt(name, s, k + i);
  }

  // ----- the references a property value reads -----

  /** The `${Name}` variables of a Fn::Sub text. */
  function Variables(s: string): set<string>
    decreases |s|
  {
    if s == "" then {}
    else
      var n := TokenLength(s);
      if n > 3 && (forall i :: 2 <= i < n - 1 ==> Alphanumeric(s[i])) then {s[2..n - 1]} + Variables(s[n..])
      else Variables(s[1..])
  }

  predicate IsVariable(name: string)
  {
    name != "" && forall i :: 0 <= i < |name| ==> Alphanumeric(name[i])
  }

  predicate VariableAt(name: string, s: string, i: nat)
    requires i <= |s|
  {
    "${" + name + "}" <= s[i..]
  }

  /** A variable is read off a Fn::Sub text exactly when `${name}` stands in it, the name of letters and digits. */
  lemma {:induction false} VariablesIff(s: string, name: string)
    ensures name in Variables(s) <==> IsVariable(name) && HasVariable(name, s)
    decreases |s|
  {
    hide TokenLength, VariableAt, HasVariable, Alphanumeric;
    if s == "" {
      NoVariable(name);
    } else {
      var k := FirstLength(s);
      VariablesIff(s[k..], name);
      VariableStep(s, name);
    }
  }

  predicate HasVariable(name: string, s: string)
  {
    exists i :: 0 <= i <= |s| && VariableAt(name, s, i)
  }

  /** How much of the text one step of the search takes: a token of letters and digits, or one character. */
  function FirstLength(s: string): (k: nat)
    requires s != ""
    ensures 0 < k <= |s|
  {
    var n := TokenLength(s);
    if n > 3 && (forall i :: 2 <= i < n - 1 ==> Alphanumeric(s[i])) then n else 1
  }

  lemma NoVariable(name: string)
    ensures !HasVariable(name, "")
  {
    assert forall i :: 0 <= i <= |""| ==> ""[i..] == "";
  }

  /** The variables of a text are those of the rest and, if the step took a token, its own. */
  lemma VariableStep(s: string, name: string)
    requires s != ""
    ensures IsVariable(name) ==>
              (HasVariable(name, s) <==> HasVariable(name, s[FirstLength(s)..]) || VariableAt(name, s, 0))
    ensures FirstLength(s) > 1 ==>
              IsVariable(s[2..FirstLength(s) - 1]) && (IsVariable(name) ==> (VariableAt(name, s, 0) <==> name == s[2..FirstLength(s) - 1]))
    ensures FirstLength(s) == 1 && IsVariable(name) ==> !VariableAt(name, s, 0)
  {
    hide TokenLength;
    var k := FirstLength(s);
    if IsVariable(name) {
      NoneInside(s, name, k);
      forall i | 0 <= i <= |s| - k ensures VariableAt(name, s[k..], i) <==> VariableAt(name, s, i + k) {
        assert s[k..][i..] == s[i + k..];
      }
      if HasVariable(name, s) {
        var i :| 0 <= i <= |s| && VariableAt(name, s, i);
        assert i > 0 ==> i >= k;
        if i >= k { assert VariableAt(name, s[k..], i - k); }
      }
      if HasVariable(name, s[k..]) {
        var i :| 0 <= i <= |s| - k && VariableAt(name, s[k..], i);
        assert VariableAt(name, s, i + k);
      }
    }
    if k > 1 { TokenNames(s, name); }
  }

  /** A token of letters and digits at the front is one variable, its own. */
  lemma TokenNames(s: string, name: string)
    requires var n := TokenLength(s); n > 3 && forall i :: 2 <= i < n - 1 ==> Alphanumeric(s[i])
    ensures var own := s[2..TokenLength(s) - 1];
            IsVariable(own) && VariableAt(own, s, 0) && (IsVariable(name) && VariableAt(name, s, 0) ==> name == own)
  {
    var n := TokenLength(s);
    var own := s[2..n - 1];
    assert s[0..] == s && s == "${" + own + "}" + s[n..];
    if IsVariable(name) && VariableAt(name, s, 0) {
      var t := "${" + name + "}";
      assert s == t + s[|t|..] && s[2..] == name + ("}" + s[|t|..]);
      assert '}' !in name;
      UpToOf(name, "}" + s[|t|..], '}');
    }
  }

  /** No variable begins inside such a token, and none at a place where no such token begins. */
  lemma NoneInside(s: string, name: string, k: nat)
    requires s != "" && IsVariable(name)
    requires var n := TokenLength(s);
             k == if n > 3 && (forall i :: 2 <= i < n - 1 ==> Alphanumeric(s[i])) then n else 1
    ensures k <= |s|
    ensures forall i :: 0 < i < k ==> !VariableAt(name, s, i)
    ensures k == 1 ==> !VariableAt(name, s, 0)
  {
    forall i | 0 < i < k ensures !VariableAt(name, s, i) {
      assert s[i..][0] == s[i] != '$';
    }
    if k == 1 && VariableAt(name, s, 0) {
      var t := "${" + name + "}";
      assert s[0..] == s && s == t + s[|t|..] && s[2..] == name + ("}" + s[|t|..]);
      assert '}' !in name;
      UpToOf(name, "}" + s[|t|..], '}');
      assert TokenLength(s) == |name| + 3;
      forall j | 2 <= j < |name| + 2 ensures Alphanumeric(s[j]) { assert s[j] == name[j - 2]; }
      assert false;
    }
  }

  function Names(found: seq<string>): set<string>
  {
    set n | n in found
  }

  /** A literal piece of a Fn::Join, or the stand-in for one that is not. */
  function PieceTexts(pieces: seq<Json>): seq<string>
  {
    seq(|pieces|, i requires 0 <= i < |pieces| => if pieces[i].Str? then pieces[i].text else "${?}")
  }

  /** References spread over the pieces of a Fn::Join. */
  function JoinedReferences(join: Json): set<string>
  {
    if join.Arr? && |join.items| == 2 && join.items[1].Arr? && (join.items[0].Str? || join.items[0].Scalar?)
    then Names(Dynamic(Join(PieceTexts(join.items[1].items), join.items[0].text)))
    else {}
  }

  /** `value` is `{"Ref": name}` for the name of an SSM parameter. */
  predicate RefersTo(fields: seq<Field>, parameters: map<string, string>)
  {
    |fields| == 1 && fields[0].key == "Ref" && fields[0].value.Str? && fields[0].value.text in parameters
  }

  /** The parameters a Fn::Sub text names, except through its own variable map. */
  function SubstitutedParameters(sub: Json, parameters: map<string, string>): set<string>
  {
    match sub
    case Str(text) => set n | n in Variables(text) && n in parameters :: parameters[n]
    case Arr(items) =>
      if items != [] && items[0].Str? then
        set n | n in Variables(items[0].text) && n in parameters && !(n in LocalNames(items)) :: parameters[n]
      else {}
    case _ => {}
  }

  function LocalNames(items: seq<Json>): set<string>
  {
    if |items| > 1 && items[1].Obj? then set f | f in items[1].fields :: f.key else {}
  }

  /** Through a Fn::Sub text, alone or first of a list, a parameter is read when `${id}` stands in the text and the list's map has no such key. */
  lemma SubstitutedIff(text: string, local: seq<Field>, parameters: map<string, string>, q: string)
    ensures q in SubstitutedParameters(Str(text), parameters) <==>
            exists id :: id in parameters && parameters[id] == q && id in Variables(text)
    ensures q in SubstitutedParameters(Arr([Str(text)]), parameters) <==>
            exists id :: id in parameters && parameters[id] == q && id in Variables(text)
    ensures q in SubstitutedParameters(Arr([Str(text), Obj(local)]), parameters) <==>
            exists id :: id in parameters && parameters[id] == q && id in Variables(text) &&
                         forall i :: 0 <= i < |local| ==> local[i].key != id
  {
    hide Variables;
    var items := [Str(text), Obj(local)];
    forall id ensures id in LocalNames(items) <==> exists i :: 0 <= i < |local| && local[i].key == id {}
  }

  /** Through a Fn::Join the text is searched that the pieces make, each that is no text standing in as `${?}`. */
  lemma JoinedIff(separator: string, pieces: seq<Json>, q: string)
    ensures q in JoinedReferences(Arr([Str(separator), Arr(pieces)])) <==>
            exists texts: seq<string> :: |texts| == |pieces| && q in Dynamic(Join(texts, separator)) &&
              forall i :: 0 <= i < |pieces| ==> texts[i] == if pieces[i].Str? then pieces[i].text else "${?}"
  {
    hide Dynamic;
    var texts := PieceTexts(pieces);
    forall other: seq<string> | |other| == |pieces| &&
        forall i :: 0 <= i < |pieces| ==> other[i] == if pieces[i].Str? then pieces[i].text else "${?}"
      ensures other == texts
    {
    }
  }

  /** The reference a template builds around a token: its name is the stand-in, so its owner is unknown. */
  lemma BuiltReferenceIsUnknown(built: Json)
    requires !built.Str?
    ensures JoinedReferences(Arr([Str(""), Arr([Str("{{resolve:ssm:"), built, Str("}}")])])) == {"${?}"}
    ensures Ownership("${?}") == Unknown
  {
    hide Dynamic;
    var pieces := [Str("{{resolve:ssm:"), built, Str("}}")];
    var texts := PieceTexts(pieces);
    assert texts == ["{{resolve:ssm:", "${?}", "}}"];
    assert texts[1..] == ["${?}", "}}"] && texts[1..][1..] == ["}}"];
    assert Join(["}}"], "") == "}}" && Join(["${?}", "}}"], "") == "${?}" + "" + Join(["}}"], "");
    assert Join(texts, "") == "{{resolve:ssm:" + "" + Join(["${?}", "}}"], "");
    assert "{{resolve:ssm:" + "" + ("${?}" + "" + "}}") == OPEN + "${?}" + "}}" + "";
    StandInIsWritable();
    ReferenceAtFront("${?}", "");
    assert Dynamic("") == [] by { NothingDynamic(); }
    assert [] + ["${?}"] == ["${?}"];
  }

  lemma NothingDynamic()
    ensures Dynamic("") == []
  {
  }

  lemma StandInIsWritable()
    ensures Writable("${?}") && Ownership("${?}") == Unknown
  {
    var t := "${?}";
    assert "${" + "?" + "}" + "" == t;
    TokenAtFront("?", "");
    assert t[4..] == "";
    assert LiteralLength(t) == 0;
    assert t[0] == '$' && "arn:"[0] == 'a' && UNRESOLVED[0] == '<';
  }

  /** Every SSM parameter name the value reads. */
  function Sources(v: Json, parameters: map<string, string>): set<string>
    decreases v, 0
  {
    match v
    case Str(text) => Names(Dynamic(text))
    case Scalar(_) => {}
    case Arr(items) => SourcesOfItems(items, parameters)
    case Obj(fields) =>
      if RefersTo(fields, parameters) then {parameters[fields[0].value.text]}
      else
        var join, sub := Find(fields, "Fn::Join"), Find(fields, "Fn::Sub");
        (if join.Some? then JoinedReferences(join.value) else {}) +
        (if sub.Some? then SubstitutedParameters(sub.value, parameters) else {}) +
        SourcesOfFields(fields, parameters)
  }

  function SourcesOfItems(items: seq<Json>, parameters: map<string, string>): set<string>
    decreases items, 1
  {
    if items == [] then {} else Sources(items[0], parameters) + SourcesOfItems(items[1..], parameters)
  }

  function SourcesOfFields(fields: seq<Field>, parameters: map<string, string>): set<string>
    decreases fields, 1
  {
    if fields == [] then {} else Sources(fields[0].value, parameters) + SourcesOfFields(fields[1..], parameters)
  }

  /** `part` is the value or nested in it. */
  predicate Within(part: Json, v: Json)
    decreases v
  {
    part == v ||
    match v
    case Arr(items) => exists i :: 0 <= i < |items| && Within(part, items[i])
    case Obj(fields) => exists i :: 0 <= i < |fields| && Within(part, fields[i].value)
    case _ => false
  }

  lemma {:induction false} ItemSources(items: seq<Json>, parameters: map<string, string>, i: nat)
    requires i < |items|
    ensures Sources(items[i], parameters) <= SourcesOfItems(items, parameters)
  {
    if i > 0 { ItemSources(items[1..], parameters, i - 1); }
  }

  lemma {:induction false} FieldSources(fields: seq<Field>, parameters: map<string, string>, i: nat)
    requires i < |fields|
    ensures Sources(fields[i].value, parameters) <= SourcesOfFields(fields, parameters)
  {
    if i > 0 { FieldSources(fields[1..], parameters, i - 1); }
  }

  /** Nothing read anywhere inside a value is missed at the value: no nesting hides a reference. */
  lemma {:induction false} NestedSourcesCount(part: Json, v: Json, parameters: map<string, string>)
    requires Within(part, v)
    requires forall id :: id in parameters ==> Dynamic(id) == []
    ensures Sources(part, parameters) <= Sources(v, parameters)
    decreases v
  {
    if part != v {
      match v
      case Arr(items) =>
        var i :| 0 <= i < |items| && Within(part, items[i]);
        NestedSourcesCount(part, items[i], parameters);
        ItemSources(items, parameters, i);
      case Obj(fields) =>
        var i :| 0 <= i < |fields| && Within(part, fields[i].value);
        NestedSourcesCount(part, fields[i].value, parameters);
        FieldSources(fields, parameters, i);
    }
  }

  /** What makes the reader raise: a Ref to something that is no text, or a Fn::Sub without its text. */
  predicate RaisesHere(fields: seq<Field>)
  {
    (|fields| == 1 && fields[0].key == "Ref" && (fields[0].value.Arr? || fields[0].value.Obj?)) ||
    var sub := Find(fields, "Fn::Sub");
    sub.Some? && !(sub.value.Str? || (sub.value.Arr? && sub.value.items != [] && sub.value.items[0].Str?))
  }

  predicate Raises(v: Json, parameters: map<string, string>)
    decreases v
  {
    match v
    case Arr(items) => exists i :: 0 <= i < |items| && Raises(items[i], parameters)
    case Obj(fields) =>
      !RefersTo(fields, parameters) &&
      (RaisesHere(fields) || exists i :: 0 <= i < |fields| && Raises(fields[i].value, parameters))
    case _ => false
  }

  /** The reader with its exceptions: None when it raises before all names are collected. */
  function TrySources(v: Json, parameters: map<string, string>): Option<set<string>>
    decreases v, 0
  {
    match v
    case Str(text) => Some(Names(Dynamic(text)))
    case Scalar(_) => Some({})
    case Arr(items) => TryItems(items, parameters)
    case Obj(fields) =>
      var isRef := |fields| == 1 && fields[0].key == "Ref";
      if isRef && (fields[0].value.Arr? || fields[0].value.Obj?) then None
      else if isRef && fields[0].value.Str? && fields[0].value.text in parameters then Some({parameters[fields[0].value.text]})
      else
        var join, sub := Find(fields, "Fn::Join"), Find(fields, "Fn::Sub");
        var joined := if join.Some? then JoinedReferences(join.value) else {};
        match (if sub.Some? then TrySubstituted(sub.value, parameters) else Some({}))
        case None => None
        case Some(substituted) =>
          match TryFields(fields, parameters)
          case None => None
          case Some(nested) => Some(joined + substituted + nested)
  }

  /** Reading a Fn::Sub raises without a text to search, alone or first in its list. */
  function TrySubstituted(sub: Json, parameters: map<string, string>): Option<set<string>>
  {
    var text := if sub.Arr? && sub.items != [] then sub.items[0] else sub;
    if text.Str? then Some(SubstitutedParameters(sub, parameters)) else None
  }

  function TryItems(items: seq<Json>, parameters: map<string, string>): Option<set<string>>
    decreases items, 1
  {
    if items == [] then Some({})
    else
      match TrySources(items[0], parameters)
      case None => None
      case Some(first) =>
        match TryItems(items[1..], parameters)
        case None => None
        case Some(rest) => Some(first + rest)
  }

  function TryFields(fields: seq<Field>, parameters: map<string, string>): Option<set<string>>
    decreases fields, 1
  {
    if fields == [] then Some({})
    else
      match TrySources(fields[0].value, parameters)
      case None => None
      case Some(first) =>
        match TryFields(fields[1..], parameters)
        case None => None
        case Some(rest) => Some(first + rest)
  }

  /** The reader raises exactly on the values said to; otherwise it finds every name. */
  lemma {:induction false} ReadsAllOrRaises(v: Json, parameters: map<string, string>)
    ensures TrySources(v, parameters) == if Raises(v, parameters) then None else Some(Sources(v, parameters))
    decreases v, 0
  {
    hide Dynamic, JoinedReferences, SubstitutedParameters;
    match v
    case Str(_) =>
    case Scalar(_) =>
    case Arr(items) => ItemsReadOrRaise(items, parameters);
    case Obj(fields) =>
      if !RefersTo(fields, parameters) { FieldsReadOrRaise(fields, parameters); }
  }

  lemma {:induction false} ItemsReadOrRaise(items: seq<Json>, parameters: map<string, string>)
    ensures TryItems(items, parameters) ==
            if exists i :: 0 <= i < |items| && Raises(items[i], parameters) then None else Some(SourcesOfItems(items, parameters))
    decreases items, 1
  {
    hide Raises, Sources, TrySources;
    if items != [] {
      ReadsAllOrRaises(items[0], parameters);
      ItemsReadOrRaise(items[1..], parameters);
      assert forall i :: 0 <= i < |items[1..]| ==> items[1..][i] == items[i + 1];
      if exists i :: 0 < i < |items| && Raises(items[i], parameters) {
        var i :| 0 < i < |items| && Raises(items[i], parameters);
        assert Raises(items[1..][i - 1], parameters);
      }
    }
  }

  lemma {:induction false} FieldsReadOrRaise(fields: seq<Field>, parameters: map<string, string>)
    ensures TryFields(fields, parameters) ==
            if exists i :: 0 <= i < |fields| && Raises(fields[i].value, parameters) then None
            else Some(SourcesOfFields(fields, parameters))
    decreases fields, 1
  {
    hide Raises, Sources, TrySources;
    if fields != [] {
      ReadsAllOrRaises(fields[0].value, parameters);
      FieldsReadOrRaise(fields[1..], parameters);
      assert forall i :: 0 <= i < |fields[1..]| ==> fields[1..][i] == fields[i + 1];
      if exists i :: 0 < i < |fields| && Raises(fields[i].value, parameters) {
        var i :| 0 < i < |fields| && Raises(fields[i].value, parameters);
        assert Raises(fields[1..][i - 1].value, parameters);
      }
    }
  }

  // ----- templates -----

  datatype Parameter = Parameter(name: string, kind: string, default: Option<Json>)

  datatype Resource = Resource(name: string, kind: string, properties: seq<Field>)

  datatype Template = Template(parameters: seq<Parameter>, resources: seq<Resource>)

  const SSM_PARAMETER_TYPE := "AWS::SSM::Parameter::Value<"

  function ParameterName(p: Parameter): string
  {
    if p.default.Some? && p.default.value.Str? && p.default.value.text != "" then p.default.value.text
    else UNRESOLVED + p.name + ">"
  }

  /** The template's SSM parameters by logical id; later ones win, as in a dictionary. */
  function SsmParameters(ps: seq<Parameter>): map<string, string>
  {
    if ps == [] then map[]
    else
      var before, p := SsmParameters(ps[..|ps| - 1]), ps[|ps| - 1];
      if SSM_PARAMETER_TYPE <= p.kind then before[p.name := ParameterName(p)] else before
  }

  ghost predicate DistinctIds(ps: seq<Parameter>)
  {
    forall i, j :: 0 <= i < j < |ps| ==> ps[i].name != ps[j].name
  }

  /** The name a parameter stands for: its nonempty text default, or the mark of an unresolved one. */
  predicate NamedBy(p: Parameter, name: string)
  {
    if p.default.Some? && p.default.value.Str? && p.default.value.text != "" then name == p.default.value.text
    else name == "<unresolved:" + p.name + ">"
  }

  /** The SSM parameters of a template are exactly those whose type is an SSM parameter value, each under its own id. */
  lemma {:induction false} SsmParametersIff(ps: seq<Parameter>, id: string, name: string)
    requires DistinctIds(ps)
    ensures Get(SsmParameters(ps), id) == Some(name) <==>
            exists p :: p in ps && p.name == id && "AWS::SSM::Parameter::Value<" <= p.kind && NamedBy(p, name)
  {
    if ps != [] {
      var before, p := ps[..|ps| - 1], ps[|ps| - 1];
      assert ps == before + [p];
      SsmParametersIff(before, id, name);
      assert forall q :: q in ps <==> q in before || q == p;
      forall q | q in before ensures q.name != p.name {
        var i :| 0 <= i < |before| && before[i] == q;
        assert ps[i] == q;
      }
      assert NamedBy(p, name) <==> ParameterName(p) == name;
      if Get(SsmParameters(before), id).Some? { SsmParametersIff(before, id, SsmParameters(before)[id]); }
    }
  }

  const EVERY := "*"

  const REPLACING := map[
    "AWS::EC2::Instance" :=
      {"ImageId", "AvailabilityZone", "SubnetId", "KeyName", "PrivateIpAddress", "PlacementGroupName", "Tenancy"},
    "AWS::AutoScaling::LaunchConfiguration" := {EVERY},
    "AWS::EC2::Volume" := {"AvailabilityZone", "SnapshotId"},
    "AWS::Lambda::Permission" := {EVERY},
    "AWS::ECS::TaskDefinition" := {EVERY}]

  const IN_PLACE := map[
    "AWS::BedrockAgentCore::Runtime" := {"AuthorizerConfiguration", "EnvironmentVariables"},
    "AWS::IAM::ManagedPolicy" := {"PolicyDocument"},
    "AWS::ApiGateway::RestApi" := {"Body"},
    "AWS::CloudFront::ResponseHeadersPolicy" := {"ResponseHeadersPolicyConfig"},
    "AWS::IAM::Policy" := {"PolicyDocument"},
    "AWS::Lambda::Function" := {"Environment"},
    "AWS::OpenSearchServerless::AccessPolicy" := {"Policy"},
    "AWS::StepFunctions::StateMachine" := {"DefinitionString"},
    "Custom::AWS" := {"Create", "Update"},
    "Custom::CDKBucketDeployment" := {"SourceMarkers"}]

  predicate ListedIn(table: map<string, set<string>>, kind: string, prop: string)
  {
    kind in table && (EVERY in table[kind] || prop in table[kind])
  }

  datatype Verdict = Ok | Replaces | Refuse | Unlisted

  function PropertyVerdict(kind: string, prop: string, isPublic: bool): Verdict
  {
    if ListedIn(REPLACING, kind, prop) then (if isPublic then Refuse else Replaces)
    else if ListedIn(IN_PLACE, kind, prop) then Ok
    else Unlisted
  }

  function ReferenceVerdict(kind: string, prop: string, parameter: string): Verdict
  {
    if Ownership(parameter) == Unknown then Unlisted
    else PropertyVerdict(kind, prop, Ownership(parameter) == Public)
  }

  /**
   * A reference stops the deploy exactly when its owner is unknown, or it is public on a property listed as
   * replacing, or the property is listed neither as replacing nor as updating in place.
   */
  lemma BlocksIff(kind: string, prop: string, q: string)
    ensures Blocks(ReferenceVerdict(kind, prop, q)) <==>
            Ownership(q) == Unknown || (Ownership(q) == Public && ListedIn(REPLACING, kind, prop)) ||
            (!ListedIn(REPLACING, kind, prop) && !ListedIn(IN_PLACE, kind, prop))
  {
    hide Ownership, ListedIn;
  }

  /** The properties listed as replacing, written out. */
  lemma ReplacingIff(kind: string, prop: string)
    ensures ListedIn(REPLACING, kind, prop) <==>
            || kind in {"AWS::AutoScaling::LaunchConfiguration", "AWS::Lambda::Permission", "AWS::ECS::TaskDefinition"}
            || (kind == "AWS::EC2::Volume" && prop in {"AvailabilityZone", "SnapshotId"})
            || (kind == "AWS::EC2::Instance" &&
                prop in {"ImageId", "AvailabilityZone", "SubnetId", "KeyName", "PrivateIpAddress", "PlacementGroupName", "Tenancy"})
  {
  }

  /** The properties listed as updating in place, written out. */
  lemma InPlaceIff(kind: string, prop: string)
    ensures ListedIn(IN_PLACE, kind, prop) <==>
            || (kind == "AWS::BedrockAgentCore::Runtime" && prop in {"AuthorizerConfiguration", "EnvironmentVariables"})
            || (kind in {"AWS::IAM::ManagedPolicy", "AWS::IAM::Policy"} && prop == "PolicyDocument")
            || (kind == "AWS::ApiGateway::RestApi" && prop == "Body")
            || (kind == "AWS::CloudFront::ResponseHeadersPolicy" && prop == "ResponseHeadersPolicyConfig")
            || (kind == "AWS::Lambda::Function" && prop == "Environment")
            || (kind == "AWS::OpenSearchServerless::AccessPolicy" && prop == "Policy")
            || (kind == "AWS::StepFunctions::StateMachine" && prop == "DefinitionString")
            || (kind == "Custom::AWS" && prop in {"Create", "Update"})
            || (kind == "Custom::CDKBucketDeployment" && prop == "SourceMarkers")
  {
  }

  predicate Blocks(v: Verdict) { v == Refuse || v == Unlisted }

  /** A reference the deploy must not go on with. */
  predicate Refused(kind: string, prop: Field, parameters: map<string, string>)
  {
    exists q :: q in Sources(prop.value, parameters) && Blocks(ReferenceVerdict(kind, prop.key, q))
  }

  predicate TemplateRefused(t: Template)
  {
    exists r, p :: r in t.resources && p in r.properties && Refused(r.kind, p, SsmParameters(t.parameters))
  }

  predicate TemplateRaises(t: Template)
  {
    exists r, p :: r in t.resources && p in r.properties && Raises(p.value, SsmParameters(t.parameters))
  }

  /** How many of the references are refused; None when reading the property raises. */
  method CountRefused(kind: string, prop: Field, parameters: map<string, string>) returns (refused: Option<nat>)
    ensures refused.None? <==> Raises(prop.value, parameters)
    ensures refused.Some? ==> (refused.value > 0 <==> Refused(kind, prop, parameters))
  {
    hide Raises, Sources, TrySources, ReferenceVerdict;
    ReadsAllOrRaises(prop.value, parameters);
    var sources := TrySources(prop.value, parameters);
    if sources.None? { return None; }
    var found := Sorted(sources.value);
    var count := 0;
    for i := 0 to |found|
      invariant count > 0 <==> exists j :: 0 <= j < i && Blocks(ReferenceVerdict(kind, prop.key, found[j]))
    {
      if Blocks(ReferenceVerdict(kind, prop.key, found[i])) {
        count := count + 1;
      }
    }
    return Some(count);
  }

  /** The refused references of one template; None when reading it raises. */
  method CheckTemplate(t: Template) returns (refused: Option<nat>)
    ensures refused.None? <==> TemplateRaises(t)
    ensures refused.Some? ==> (refused.value > 0 <==> TemplateRefused(t))
  {
    hide Raises, Refused, SsmParameters;
    var parameters := SsmParameters(t.parameters);
    var count := 0;
    for i := 0 to |t.resources|
      invariant forall r, p :: r in t.resources[..i] && p in r.properties ==> !Raises(p.value, parameters)
      invariant count > 0 <==> exists r, p :: r in t.resources[..i] && p in r.properties && Refused(r.kind, p, parameters)
    {
      var r := t.resources[i];
      assert t.resources[..i + 1] == t.resources[..i] + [r];
      ghost var before := count;
      for j := 0 to |r.properties|
        invariant forall p :: p in r.properties[..j] ==> !Raises(p.value, parameters)
        invariant count >= before
        invariant count > before <==> exists p :: p in r.properties[..j] && Refused(r.kind, p, parameters)
      {
        var p := r.properties[j];
        assert r.properties[..j + 1] == r.properties[..j] + [p];
        var n := CountRefused(r.kind, p, parameters);
        if n.None? {
          assert r in t.resources && p in r.properties;
          return None;
        }
        count := count + n.value;
      }
      assert r.properties[..|r.properties|] == r.properties;
    }
    assert t.resources[..|t.resources|] == t.resources;
    return Some(count);
  }

  const NOTHING_TO_CHECK := 2
  const CRASHED := 1
  const REFUSED := 5

  ghost function ExitOf(templates: seq<Template>): int
  {
    if templates == [] then 2
    else if exists t :: t in templates && TemplateRaises(t) then 1
    else if exists t :: t in templates && TemplateRefused(t) then 5
    else 0
  }

  /** The gate's exit status. An exception ends the interpreter with status 1. */
  method Gate(templates: seq<Template>) returns (exit: int)
    ensures exit == ExitOf(templates)
    ensures exit == 0 <==> Passes(templates)
  {
    hide TemplateRaises, TemplateRefused;
    if templates == [] { return NOTHING_TO_CHECK; }
    var refused := 0;
    for i := 0 to |templates|
      invariant forall t :: t in templates[..i] ==> !TemplateRaises(t)
      invariant refused > 0 <==> exists t :: t in templates[..i] && TemplateRefused(t)
    {
      assert templates[..i + 1] == templates[..i] + [templates[i]];
      var n := CheckTemplate(templates[i]);
      if n.None? {
        assert templates[i] in templates;
        return CRASHED;
      }
      refused := refused + n.value;
    }
    assert templates[..|templates|] == templates;
    return if refused > 0 then REFUSED else 0;
  }

  /** The parameter is an SSM parameter value whose default begins with the public prefix. */
  predicate IsPublicValue(p: Parameter)
  {
    && "AWS::SSM::Parameter::Value<" <= p.kind
    && p.default.Some? && p.default.value.Str? && "/aws/service/" <= p.default.value.text
  }

  /**
   * What the gate is for, said on the template: a Ref to a parameter with a public default, anywhere inside a
   * property listed as replacing, makes an assembly that can be read exit with 5.
   */
  lemma PublicRefIsRefused(templates: seq<Template>, t: Template, p: Parameter, r: Resource, prop: Field)
    requires t in templates && forall x :: x in templates ==> !TemplateRaises(x)
    requires DistinctIds(t.parameters) && forall x :: x in t.parameters ==> '{' !in x.name
    requires p in t.parameters && IsPublicValue(p)
    requires r in t.resources && prop in r.properties && ListedIn(REPLACING, r.kind, prop.key)
    requires Within(Obj([Field.Field("Ref", Str(p.name))]), prop.value)
    ensures ExitOf(templates) == 5
  {
    hide Raises, Dynamic, Ownership, ListedIn, SsmParameters;
    var parameters, q := SsmParameters(t.parameters), p.default.value.text;
    SsmParametersIff(t.parameters, p.name, q);
    assert p.name in parameters && parameters[p.name] == q by { assert NamedBy(p, q); }
    forall id | id in parameters ensures Dynamic(id) == [] {
      IdIsListed(t.parameters, id);
      NoReferenceIn(id);
    }
    RefIsRead(p.name, parameters);
    NestedSourcesCount(Obj([Field.Field("Ref", Str(p.name))]), prop.value, parameters);
    PublicIsPublic(q);
    assert Blocks(ReferenceVerdict(r.kind, prop.key, q));
    assert Refused(r.kind, prop, parameters);
    assert TemplateRefused(t);
  }

  lemma RefIsRead(id: string, parameters: map<string, string>)
    requires id in parameters
    ensures parameters[id] in Sources(Obj([Field.Field("Ref", Str(id))]), parameters)
  {
  }

  lemma {:induction false} IdIsListed(ps: seq<Parameter>, id: string)
    requires id in SsmParameters(ps)
    ensures exists p :: p in ps && p.name == id
  {
    var before, p := ps[..|ps| - 1], ps[|ps| - 1];
    assert ps == before + [p];
    if id != p.name { IdIsListed(before, id); }
  }

  lemma {:induction false} NoReferenceIn(s: string)
    requires '{' !in s
    ensures Dynamic(s) == []
  {
    if s != "" {
      assert s[0] in s && OPEN[0] == '{' && OPEN_SECURE[0] == '{';
      NoReferenceIn(s[1..]);
    }
  }

  lemma PublicIsPublic(q: string)
    requires "/aws/service/" <= q
    ensures Ownership(q) == Public
  {
    hide Matched, LiteralLength;
    var rest := q[|PUBLIC|..];
    assert q == PUBLIC + rest && q[0] == '/' && UNRESOLVED[0] == '<';
    NoArn(q);
    LiteralBegins(PUBLIC, rest);
    assert Literal(q) == PUBLIC + Literal(rest);
    assert (PUBLIC + Literal(rest))[..1] == "/";
  }

  /** The assembly passes: there is something to check, all of it can be read, none of it is refused. */
  predicate Passes(templates: seq<Template>)
  {
    templates != [] && forall t :: t in templates ==> !TemplateRaises(t) && !TemplateRefused(t)
  }

  /**
   * Safety of a passing assembly. Take any reference anywhere inside any property, and any text its
   * name may resolve to: if that is a public parameter, the property is listed as updating in place
   * and not as replacing.
   */
  lemma PassingIsSafe(
      templates: seq<Template>, t: Template, r: Resource, p: Field, part: Json, q: string, f: string)
    requires Passes(templates) && t in templates && r in t.resources && p in r.properties
    requires forall id :: id in SsmParameters(t.parameters) ==> Dynamic(id) == []
    requires Within(part, p.value) && q in Sources(part, SsmParameters(t.parameters))
    requires Resolves(NamePart(q), f) && IsPublic(f)
    ensures ListedIn(IN_PLACE, r.kind, p.key) && !ListedIn(REPLACING, r.kind, p.key)
  {
    var parameters := SsmParameters(t.parameters);
    NestedSourcesCount(part, p.value, parameters);
    assert !TemplateRefused(t);
    assert !Refused(r.kind, p, parameters);
    assert !Blocks(ReferenceVerdict(r.kind, p.key, q));
    if Ownership(q) == Own { OwnIsNeverPublic(q, f); }
  }

  /**
   * The same for the parameter as a whole, in whichever form it is written or resolves to: a passing
   * assembly can only be fooled by a name whose literal start may begin a public parameter's ARN.
   */
  lemma PassingIsSafeUnlessArnStarts(
      templates: seq<Template>, t: Template, r: Resource, p: Field, part: Json, q: string, f: string)
    requires Passes(templates) && t in templates && r in t.resources && p in r.properties
    requires forall id :: id in SsmParameters(t.parameters) ==> Dynamic(id) == []
    requires Within(part, p.value) && q in Sources(part, SsmParameters(t.parameters))
    requires !MayTurnPublic(q)
    requires Resolves(q, f) && PublicParameter(f)
    ensures ListedIn(IN_PLACE, r.kind, p.key) && !ListedIn(REPLACING, r.kind, p.key)
  {
    hide MayTurnPublic, Resolves, PublicParameter;
    var parameters := SsmParameters(t.parameters);
    NestedSourcesCount(part, p.value, parameters);
    assert !TemplateRefused(t);
    assert !Refused(r.kind, p, parameters);
    assert !Blocks(ReferenceVerdict(r.kind, p.key, q));
    if Ownership(q) == Own { OwnCanTurnPublicIff(q); }
  }
}
