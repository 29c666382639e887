/** The namespace tag on credential secrets and its migration (scripts/tag_credential_secrets.py). */
module SecretTags {
  import opened Text
  import opened Ordering

  // ----- the tag value -----

  predicate Hex(c: char)
  {
    '0' <= c <= '9' || 'a' <= c <= 'f'
  }

  /** A version 4 UUID in lower case, 8-4-4-4-12. */
  predicate IsNamespaceId(s: string)
  {
    && |s| == 36
    && (forall i :: 0 <= i < 36 ==> if i in {8, 13, 18, 23} then s[i] == '-' else Hex(s[i]))
    && s[14] == '4' && s[19] in {'8', '9', 'a', 'b'}
  }

  /** Digits and the letters a to f. */
  predicate HexDigits(s: string)
  {
    forall i :: 0 <= i < |s| ==> 0x30 <= s[i] as int <= 0x39 || 0x61 <= s[i] as int <= 0x66
  }

  predicate InGroups(s: string, a: string, b: string, c: string, d: string, e: string)
  {
    && s == a + "-" + b + "-4" + c + "-" + d + "-" + e
    && |a| == 8 && |b| == 4 && |c| == 3 && |d| == 4 && |e| == 12
    && HexDigits(a + b + c + d + e) && d[0] in "89ab"
  }

  /** The format in groups: eight, four, three after a 4, four beginning with 8, 9, a or b, and twelve. */
  lemma IdIff(s: string)
    ensures IsNamespaceId(s) <==> exists a, b, c, d, e :: InGroups(s, a, b, c, d, e)
  {
    if IsNamespaceId(s) { IdInGroups(s); }
    forall a, b, c, d, e | InGroups(s, a, b, c, d, e) ensures IsNamespaceId(s) { GroupsAreId(s, a, b, c, d, e); }
  }

  lemma IdInGroups(s: string)
    requires IsNamespaceId(s)
    ensures exists a, b, c, d, e :: InGroups(s, a, b, c, d, e)
  {
    var a, b, c, d, e := s[..8], s[9..13], s[15..18], s[19..23], s[24..];
    assert s[13..15] == "-4" && s[8..9] == "-" && s[18..19] == "-" && s[23..24] == "-";
    assert s == a + s[8..9] + b + s[13..15] + c + s[18..19] + d + s[23..24] + e;
    var digits := a + b + c + d + e;
    assert forall i :: 0 <= i < 8 ==> digits[i] == s[i];
    assert forall i :: 8 <= i < 12 ==> digits[i] == s[i + 1];
    assert forall i :: 12 <= i < 15 ==> digits[i] == s[i + 3];
    assert forall i :: 15 <= i < 19 ==> digits[i] == s[i + 4];
    assert forall i :: 19 <= i < 31 ==> digits[i] == s[i + 5];
    assert "89ab"[0] == '8' && "89ab"[1] == '9' && "89ab"[2] == 'a' && "89ab"[3] == 'b';
    assert InGroups(s, a, b, c, d, e);
  }

  lemma GroupsAreId(s: string, a: string, b: string, c: string, d: string, e: string)
    requires InGroups(s, a, b, c, d, e)
    ensures IsNamespaceId(s)
  {
    var digits := a + b + c + d + e;
    forall i | 0 <= i < 36 ensures if i in {8, 13, 18, 23} then s[i] == '-' else Hex(s[i]) {
      if i == 14 {
        assert s[i] == '4';
      } else if i !in {8, 13, 18, 23} {
        var j := if i < 8 then i else if i < 13 then i - 1 else if i < 18 then i - 3 else if i < 23 then i - 4 else i - 5;
        assert s[i] == digits[j];
      }
    }
    assert s[14] == '4' && s[19] == d[0];
  }

  /** `parse_namespace_tag`: split at whitespace, every entry an id, and the value is its own canonical form. */
  function ParseTag(value: string): (r: Option<seq<string>>)
  {
    var ids := Words(value, c => !IsSpace(c));
    if ids != [] && (forall i :: 0 <= i < |ids| ==> IsNamespaceId(ids[i])) && value == Join(ids, " ")
    then Some(ids)
    else None
  }

  lemma IdHasNoSpace(id: string)
    requires IsNamespaceId(id)
    ensures id != "" && ' ' !in id && forall i :: 0 <= i < |id| ==> !IsSpace(id[i])
  {
    forall i | 0 <= i < |id| ensures !IsSpace(id[i]) && id[i] != ' ' {
      assert id[i] == '-' || Hex(id[i]);
    }
  }

  predicate Ids(ids: seq<string>)
  {
    forall i :: 0 <= i < |ids| ==> IsNamespaceId(ids[i])
  }

  lemma {:induction false} WordsOfIds(ids: seq<string>)
    requires Ids(ids)
    ensures Words(Join(ids, " "), c => !IsSpace(c)) == ids
  {
    hide IsNamespaceId;
    var notSpace := (c: char) => !IsSpace(c);
    if ids != [] {
      var rest := ids[1..];
      assert Ids(rest);
      IdHasNoSpace(ids[0]);
      WordsOfIds(rest);
      if rest == [] {
        assert ids[0] + "" == ids[0];
        FirstWord(ids[0], "", notSpace);
        assert ids == [ids[0]];
      } else {
        FirstWord(ids[0], " " + Join(rest, " "), notSpace);
        assert ids[0] + " " + Join(rest, " ") == ids[0] + (" " + Join(rest, " "));
        SkipSpace(Join(rest, " "), notSpace);
        assert ids == [ids[0]] + rest;
      }
    }
  }

  lemma {:induction false} RunOf(word: string, after: string, isWord: char -> bool)
    requires forall i :: 0 <= i < |word| ==> isWord(word[i])
    requires after == "" || !isWord(after[0])
    ensures RunLength(word + after, isWord) == |word|
  {
    if word == "" {
      assert word + after == after;
    } else {
      assert (word + after)[0] == word[0] && (word + after)[1..] == word[1..] + after;
      RunOf(word[1..], after, isWord);
    }
  }

  lemma FirstWord(word: string, after: string, isWord: char -> bool)
    requires word != "" && forall i :: 0 <= i < |word| ==> isWord(word[i])
    requires after == "" || !isWord(after[0])
    ensures Words(word + after, isWord) == [word] + Words(after, isWord)
  {
    RunOf(word, after, isWord);
    assert (word + after)[..|word|] == word && (word + after)[|word|..] == after;
    assert (word + after)[0] == word[0];
  }

  lemma SkipSpace(rest: string, isWord: char -> bool)
    requires !isWord(' ')
    ensures Words(" " + rest, isWord) == Words(rest, isWord)
  {
    assert (" " + rest)[1..] == rest;
  }

  /** A value parses exactly when it is one or more ids with single spaces between them. */
  lemma ParseIff(value: string, ids: seq<string>)
    ensures ParseTag(value) == Some(ids) <==> ids != [] && Ids(ids) && value == Join(ids, " ")
  {
    if ids != [] && Ids(ids) && value == Join(ids, " ") { WordsOfIds(ids); }
  }

  /** Each id costs 37 characters but the last. */
  lemma {:induction false} TagLength(ids: seq<string>)
    requires Ids(ids) && ids != []
    ensures |Join(ids, " ")| == 37 * |ids| - 1
  {
    hide IsNamespaceId;
    assert |ids[0]| == 36 by { assert IsNamespaceId(ids[0]); IdLength(ids[0]); }
    if |ids| > 1 {
      assert Ids(ids[1..]);
      TagLength(ids[1..]);
    }
  }

  lemma IdLength(id: string)
    requires IsNamespaceId(id)
    ensures |id| == 36
  {
  }

  /** Said with the plain split at spaces: every piece is an id. */
  lemma ParsesBySpaces(value: string)
    ensures ParseTag(value).Some? <==> Ids(Plain(' ').Split(value, 0))
    ensures ParseTag(value).Some? ==> ParseTag(value).value == Plain(' ').Split(value, 0)
  {
    hide IsNamespaceId, Words;
    var pieces := Plain(' ').Split(value, 0);
    Plain(' ').SplitJoins(value, 0);
    if Ids(pieces) { ParseIff(value, pieces); }
    if ParseTag(value).Some? {
      var ids := ParseTag(value).value;
      ParseIff(value, ids);
      forall i | 0 <= i < |ids| ensures ' ' !in ids[i] { IdHasNoSpace(ids[i]); }
      PlainSplitOfJoin(ids, ' ');
    }
  }

  // ----- the IAM conditions -----

  /** `StringLike`: `*` stands for any text, `?` for any one character. */
  predicate Like(pattern: string, text: string)
    decreases |pattern|
  {
    if pattern == "" then text == ""
    else if pattern[0] == '*' then exists j :: 0 <= j <= |text| && Like(pattern[1..], text[j..])
    else text != "" && (pattern[0] == '?' || pattern[0] == text[0]) && Like(pattern[1..], text[1..])
  }

  predicate IsLiteral(s: string) { '*' !in s && '?' !in s }

  /** An entry as the only one, the first, the last, or one in the middle. */
  function ConditionPatterns(id: string): seq<string>
  {
    [id, id + " *", "* " + id, "* " + id + " *"]
  }

  predicate MatchesCondition(id: string, value: string)
  {
    exists i :: 0 <= i < |ConditionPatterns(id)| && Like(ConditionPatterns(id)[i], value)
  }

  lemma {:induction false} LikeLiteral(s: string, rest: string, text: string)
    requires IsLiteral(s)
    ensures Like(s + rest, text) <==> s <= text && Like(rest, text[|s|..])
  {
    if s == "" {
      assert s + rest == rest && text[0..] == text;
    } else {
      assert s[0] in s && (s + rest)[1..] == s[1..] + rest;
      if text != "" {
        LikeLiteral(s[1..], rest, text[1..]);
        if s <= text { assert text[1..][|s| - 1..] == text[|s|..]; }
        assert s <= text <==> s[0] == text[0] && s[1..] <= text[1..];
      }
    }
  }

  lemma LikeAll(text: string)
    ensures Like("*", text)
  {
    assert Like("*"[1..], text[|text|..]);
  }

  lemma LikeStar(rest: string, text: string)
    ensures Like("*" + rest, text) <==> exists j :: 0 <= j <= |text| && Like(rest, text[j..])
  {
    assert ("*" + rest)[1..] == rest;
  }

  /** The four patterns, said with the text around the entry. */
  predicate Around(id: string, value: string)
  {
    value == id || id + " " <= value ||
    exists j :: 0 <= j <= |value| && (value[j..] == " " + id || " " + id + " " <= value[j..])
  }

  lemma MatchesAround(id: string, value: string)
    requires IsLiteral(id)
    ensures MatchesCondition(id, value) <==> Around(id, value)
  {
    hide Like;
    var ps := ConditionPatterns(id);
    LikeWhole(id, value);
    LikeStart(id + " ", value);
    assert (id + " ") + "*" == id + " *";
    LikeStar(" " + id, value);
    LikeStar(" " + id + " *", value);
    assert "*" + (" " + id) == "* " + id && "*" + (" " + id + " *") == "* " + id + " *";
    forall j | 0 <= j <= |value|
      ensures Like(" " + id, value[j..]) <==> value[j..] == " " + id
      ensures Like(" " + id + " *", value[j..]) <==> " " + id + " " <= value[j..]
    {
      LikeWhole(" " + id, value[j..]);
      LikeStart(" " + id + " ", value[j..]);
      assert (" " + id + " ") + "*" == " " + id + " *";
    }
    assert ps[0] == id && ps[1] == id + " *" && ps[2] == "* " + id && ps[3] == "* " + id + " *";
    assert MatchesCondition(id, value) <==> Like(ps[0], value) || Like(ps[1], value) || Like(ps[2], value) || Like(ps[3], value);
  }

  lemma LikeWhole(s: string, text: string)
    requires IsLiteral(s)
    ensures Like(s, text) <==> text == s
  {
    LikeLiteral(s, "", text);
    assert s + "" == s;
    if s <= text && text[|s|..] == "" { assert text == s + text[|s|..]; }
  }

  lemma LikeStart(s: string, text: string)
    requires IsLiteral(s)
    ensures Like(s + "*", text) <==> s <= text
  {
    LikeLiteral(s, "*", text);
    if s <= text { LikeAll(text[|s|..]); }
  }

  /** What stands between spaces or ends, and has none, is a piece between spaces. */
  lemma AroundIsEntry(id: string, value: string)
    requires ' ' !in id
    ensures Around(id, value) <==> id in Plain(' ').Split(value, 0)
  {
    hide Scanner.Split;
    var pieces := Plain(' ').Split(value, 0);
    Plain(' ').SplitJoins(value, 0);
    if value == id { EntryAlone(id); }
    if id + " " <= value {
      EntryBefore(id, value[|id| + 1..]);
      assert value == id + " " + value[|id| + 1..];
    }
    forall j | 0 <= j <= |value| && (value[j..] == " " + id || " " + id + " " <= value[j..]) ensures id in pieces {
      EntryAfter(id, value, j);
    }
    if id in pieces {
      var i :| 0 <= i < |pieces| && pieces[i] == id;
      EntryStands(pieces, i);
    }
  }

  lemma EntryAlone(id: string)
    requires ' ' !in id
    ensures Plain(' ').Split(id, 0) == [id]
  {
    PlainSplitOfJoin([id], ' ');
    assert Join([id], " ") == id;
  }

  lemma EntryAfter(id: string, value: string, j: nat)
    requires ' ' !in id && j <= |value| && (value[j..] == " " + id || " " + id + " " <= value[j..])
    ensures id in Plain(' ').Split(value, 0)
  {
    hide Scanner.Split;
    var tail := value[j..][1..];
    assert value == value[..j] + " " + tail;
    PlainSplitAt(value[..j], tail, ' ');
    if value[j..] == " " + id {
      assert tail == id;
      EntryAlone(id);
    } else {
      assert tail == id + " " + tail[|id| + 1..];
      EntryBefore(id, tail[|id| + 1..]);
    }
  }

  lemma EntryBefore(id: string, rest: string)
    requires ' ' !in id
    ensures id in Plain(' ').Split(id + " " + rest, 0)
  {
    PlainSplitAt(id, rest, ' ');
    EntryAlone(id);
  }

  lemma EntryStands(pieces: seq<string>, i: nat)
    requires i < |pieces|
    ensures Around(pieces[i], Join(pieces, " "))
  {
    hide Join;
    var id, value := pieces[i], Join(pieces, " ");
    var before, after := pieces[..i], pieces[i..];
    var tail := Join(after, " ");
    assert pieces == before + after;
    FirstStands(after);
    if before == [] {
      assert pieces == after;
    } else {
      JoinConcat(before, after, " ");
      var j := |Join(before, " ")|;
      assert value[j..] == " " + tail;
      if tail != id { assert " " + id + " " <= value[j..]; }
    }
  }

  lemma FirstStands(pieces: seq<string>)
    requires pieces != []
    ensures Join(pieces, " ") == pieces[0] || pieces[0] + " " <= Join(pieces, " ")
  {
  }

  /**
   * The conditions match a value for a namespace exactly when the namespace is a piece between its spaces;
   * of a value that parses, when it is one of the entries.
   */
  lemma ConditionsReadEntries(id: string, value: string)
    requires IsNamespaceId(id)
    ensures MatchesCondition(id, value) <==> id in Plain(' ').Split(value, 0)
    ensures ParseTag(value).Some? ==> (MatchesCondition(id, value) <==> id in ParseTag(value).value)
  {
    hide ParseTag, MatchesCondition, Around, Scanner.Split;
    IdIsLiteral(id);
    IdHasNoSpace(id);
    MatchesAround(id, value);
    AroundIsEntry(id, value);
    ParsesBySpaces(value);
  }

  lemma IdIsLiteral(id: string)
    requires IsNamespaceId(id)
    ensures IsLiteral(id)
  {
  }

  // ----- what the union of entries is worth -----

  predicate AllParse(texts: seq<string>)
  {
    forall i :: 0 <= i < |texts| ==> ParseTag(texts[i]).Some?
  }

  /**
   * What the migration writes parses exactly when every text it joins does. For a namespace id that
   * means: when it is an id. The sources table is not checked for that.
   */
  lemma {:induction false} UnionParsesIff(texts: seq<string>)
    requires texts != []
    ensures ParseTag(Join(texts, " ")).Some? <==> AllParse(texts)
  {
    hide ParseTag;
    if |texts| == 1 {
      assert texts == [texts[0]];
    } else {
      var rest := texts[1..];
      UnionParsesIff(rest);
      PlainSplitAt(texts[0], Join(rest, " "), ' ');
      var pa, pb := Plain(' ').Split(texts[0], 0), Plain(' ').Split(Join(rest, " "), 0);
      ParsesBySpaces(texts[0]);
      ParsesBySpaces(Join(rest, " "));
      ParsesBySpaces(Join(texts, " "));
      IdsConcat(pa, pb);
      assert AllParse(texts) <==> ParseTag(texts[0]).Some? && AllParse(rest) by {
        assert forall i :: 0 <= i < |rest| ==> rest[i] == texts[i + 1];
        if AllParse(rest) && ParseTag(texts[0]).Some? {
          forall i | 0 <= i < |texts| ensures ParseTag(texts[i]).Some? {
            if i > 0 { assert texts[i] == rest[i - 1]; }
          }
        }
      }
    }
  }

  lemma IdsConcat(a: seq<string>, b: seq<string>)
    ensures Ids(a + b) <==> Ids(a) && Ids(b)
  {
    hide IsNamespaceId;
    if Ids(a + b) {
      forall i | 0 <= i < |a| ensures IsNamespaceId(a[i]) { assert (a + b)[i] == a[i]; }
      forall i | 0 <= i < |b| ensures IsNamespaceId(b[i]) { assert (a + b)[|a| + i] == b[i]; }
    }
  }

  lemma IdParses(id: string)
    requires IsNamespaceId(id)
    ensures ParseTag(id) == Some([id])
  {
    ParseIff(id, [id]);
  }

  // ----- classification -----

  const TAG_VALUE_MAX := 256

  datatype Status = Unset | CrossAccount | Unreadable | Malformed | Fine | OverCapacity | NeedsTag

  /** `arn.split(":")[4]`, or "" for an ARN that is too short. */
  function AccountOf(arn: string): string
  {
    var parts := Plain(':').Split(arn, 0);
    if |parts| > 5 then parts[4] else ""
  }

  /** The account is what stands between the fourth and the fifth colon, if there is a fifth. */
  lemma AccountIs(a: string, b: string, c: string, d: string, account: string, rest: string)
    requires ':' !in a && ':' !in b && ':' !in c && ':' !in d && ':' !in account
    ensures AccountOf(a + ":" + b + ":" + c + ":" + d + ":" + account + ":" + rest) == account
    ensures AccountOf(a + ":" + b + ":" + c + ":" + d + ":" + account) == ""
  {
    hide Scanner.Split;
    var front := a + ":" + b + ":" + c + ":" + d;
    var p := Plain(':');
    Piece(a); Piece(b); Piece(c); Piece(d); Piece(account);
    PlainSplitAt(a, b, ':');
    PlainSplitAt(a + ":" + b, c, ':');
    PlainSplitAt(a + ":" + b + ":" + c, d, ':');
    assert p.Split(front, 0) == [a, b, c, d];
    PlainSplitAt(front, account, ':');
    PlainSplitAt(front + ":" + account, rest, ':');
    assert p.Split(front + ":" + account + ":" + rest, 0) == [a, b, c, d, account] + p.Split(rest, 0);
  }

  lemma Piece(s: string)
    requires ':' !in s
    ensures Plain(':').Split(s, 0) == [s]
  {
    PlainSplitOfJoin([s], ':');
    assert Join([s], ":") == s;
  }

  function Missing(namespaces: set<string>, existing: seq<string>): seq<string>
  {
    Sorted(namespaces - set id | id in existing)
  }

  /** The entries already there, in their order, then the missing ones sorted. */
  function Union(namespaces: set<string>, existing: seq<string>): seq<string>
  {
    existing + Missing(namespaces, existing)
  }

  /** What a described tag calls for: its status and, when it needs tagging, the value to write. */
  function Judge(namespaces: set<string>, tag: Option<string>): (Status, string)
  {
    var parsed := if tag.None? then Some([]) else ParseTag(tag.value);
    if parsed.None? then (Malformed, "")
    else if Missing(namespaces, parsed.value) == [] then (Fine, "")
    else
      var value := Join(Union(namespaces, parsed.value), " ");
      if |value| > TAG_VALUE_MAX then (OverCapacity, "") else (NeedsTag, value)
  }

  /** None for `described` is a failed DescribeSecret. */
  function Verdict(arn: string, namespaces: set<string>, deployment: string, described: Option<Option<string>>): (Status, string)
  {
    if AccountOf(arn) != "" && AccountOf(arn) != deployment then (CrossAccount, "")
    else if AccountOf(arn) == "" || described.None? then (Unreadable, "")
    else Judge(namespaces, described.value)
  }

  predicate Blocking(s: Status) { s == Malformed || s == OverCapacity || s == Unreadable }

  /**
   * A value that is to be written fits. It parses exactly when every missing text does; then it keeps every
   * entry in place and has room for six. If the namespaces are ids it lists just the entries and the missing ones.
   */
  lemma WrittenValue(namespaces: set<string>, tag: Option<string>)
    requires Judge(namespaces, tag).0 == NeedsTag
    ensures var value := Judge(namespaces, tag).1;
            var existing := if tag.None? then [] else ParseTag(tag.value).value;
            && |value| <= TAG_VALUE_MAX
            && (ParseTag(value).Some? <==> AllParse(Missing(namespaces, existing)))
            && (ParseTag(value).Some? ==> existing <= ParseTag(value).value && |ParseTag(value).value| <= 6)
            && ((forall n :: n in namespaces ==> IsNamespaceId(n)) ==>
                  ParseTag(value) == Some(Union(namespaces, existing)))
  {
    hide ParseTag, IsNamespaceId, Sorted, Missing, AllParse;
    var value := Judge(namespaces, tag).1;
    var existing := if tag.None? then [] else ParseTag(tag.value).value;
    var missing := Missing(namespaces, existing);
    if tag.Some? { ParseIff(tag.value, existing); }
    IdsAllParse(existing);
    UnionParsesIff(existing + missing);
    AllParseConcat(existing, missing);
    if ParseTag(value).Some? {
      KeepsEntries(existing, missing);
      ParseIff(value, ParseTag(value).value);
      TagLength(ParseTag(value).value);
    }
    if forall n :: n in namespaces ==> IsNamespaceId(n) {
      MissingAreMembers(namespaces, existing);
      assert Ids(missing);
      IdsConcat(existing, missing);
      ParseIff(value, existing + missing);
    }
  }

  lemma IdsAllParse(ids: seq<string>)
    requires Ids(ids)
    ensures AllParse(ids)
  {
    hide ParseTag, IsNamespaceId;
    forall i | 0 <= i < |ids| ensures ParseTag(ids[i]).Some? { IdParses(ids[i]); }
  }

  /** The ids that come first are the first that are read back. */
  lemma KeepsEntries(ids: seq<string>, rest: seq<string>)
    requires Ids(ids) && rest != [] && ParseTag(Join(ids + rest, " ")).Some?
    ensures ids <= ParseTag(Join(ids + rest, " ")).value
  {
    hide ParseTag, IsNamespaceId;
    ParsesBySpaces(Join(ids + rest, " "));
    if ids != [] {
      JoinConcat(ids, rest, " ");
      PlainSplitAt(Join(ids, " "), Join(rest, " "), ' ');
      forall i | 0 <= i < |ids| ensures ' ' !in ids[i] { IdHasNoSpace(ids[i]); }
      PlainSplitOfJoin(ids, ' ');
    }
  }

  /** Missing namespaces that are ids parse. */
  lemma IdsParse(namespaces: set<string>, existing: seq<string>)
    requires forall n :: n in namespaces ==> IsNamespaceId(n)
    ensures AllParse(Missing(namespaces, existing))
  {
    hide IsNamespaceId;
    MissingAreMembers(namespaces, existing);
    IdsAllParse(Missing(namespaces, existing));
  }

  lemma MissingAreMembers(namespaces: set<string>, existing: seq<string>)
    ensures forall i :: 0 <= i < |Missing(namespaces, existing)| ==> Missing(namespaces, existing)[i] in namespaces
    ensures forall n :: n in namespaces ==> n in Union(namespaces, existing)
  {
    var missing := Missing(namespaces, existing);
    forall i | 0 <= i < |missing| ensures missing[i] in namespaces { assert missing[i] in missing; }
    forall n | n in namespaces ensures n in Union(namespaces, existing) {
      if n !in existing { assert n in missing; }
    }
  }

  lemma AllParseConcat(a: seq<string>, b: seq<string>)
    requires AllParse(a)
    ensures AllParse(a + b) <==> AllParse(b)
  {
    hide ParseTag;
    if AllParse(a + b) {
      forall i | 0 <= i < |b| ensures ParseTag(b[i]).Some? { assert (a + b)[|a| + i] == b[i]; }
    }
  }

  // ----- whether a written value settles the matter -----

  /** The texts among the namespaces that are no ids. */
  function Stray(namespaces: set<string>): seq<string>
  {
    Sorted(set n | n in namespaces && !IsNamespaceId(n))
  }

  function Existing(tag: Option<string>): seq<string>
  {
    var parsed := if tag.None? then Some([]) else ParseTag(tag.value);
    if parsed.None? then [] else parsed.value
  }

  /** The tag is due, the value written parses, some text is no id, and there is room to add it once more. */
  predicate Repeats(namespaces: set<string>, tag: Option<string>)
  {
    && Judge(namespaces, tag).0 == NeedsTag
    && AllParse(Missing(namespaces, Existing(tag)))
    && Stray(namespaces) != []
    && |Judge(namespaces, tag).1| + 1 + |Join(Stray(namespaces), " ")| <= TAG_VALUE_MAX
  }

  /** In a parsed value the namespaces found are exactly those that are ids. */
  lemma FoundIffId(namespaces: set<string>, existing: seq<string>, ids: seq<string>, n: string)
    requires ParseTag(Join(Union(namespaces, existing), " ")) == Some(ids) && n in namespaces
    ensures n in ids <==> IsNamespaceId(n)
  {
    hide ParseTag, IsNamespaceId, Missing, Words;
    var union := Union(namespaces, existing);
    ParsesBySpaces(Join(union, " "));
    ParseIff(Join(union, " "), ids);
    if IsNamespaceId(n) {
      MissingAreMembers(namespaces, existing);
      var i :| 0 <= i < |union| && union[i] == n;
      IdHasNoSpace(n);
      PlainHas(union, ' ', i);
    }
  }

  lemma MissingIsStray(namespaces: set<string>, existing: seq<string>, ids: seq<string>)
    requires ParseTag(Join(Union(namespaces, existing), " ")) == Some(ids)
    ensures Missing(namespaces, ids) == Stray(namespaces)
  {
    hide ParseTag, IsNamespaceId;
    forall n | n in namespaces ensures n in ids <==> IsNamespaceId(n) { FoundIffId(namespaces, existing, ids, n); }
    assert namespaces - (set id | id in ids) == set n | n in namespaces && !IsNamespaceId(n);
  }

  /** Judged again after the write, the tag is due once more exactly when it repeats; then it grows. */
  lemma RepeatsIff(namespaces: set<string>, tag: Option<string>)
    requires Judge(namespaces, tag).0 == NeedsTag
    ensures var value := Judge(namespaces, tag).1;
            && (Judge(namespaces, Some(value)).0 == NeedsTag <==> Repeats(namespaces, tag))
            && (Repeats(namespaces, tag) ==> |Judge(namespaces, Some(value)).1| > |value|)
  {
    hide ParseTag, IsNamespaceId, Missing, Stray, AllParse;
    var value := Judge(namespaces, tag).1;
    WrittenValue(namespaces, tag);
    if ParseTag(value).Some? {
      var ids := ParseTag(value).value;
      ParseIff(value, ids);
      MissingIsStray(namespaces, Existing(tag), ids);
      if Stray(namespaces) != [] { JoinConcat(ids, Stray(namespaces), " "); }
    }
  }

  /** Judged again after the write, the tag is in order exactly when all the namespaces are ids. */
  lemma SettledIff(namespaces: set<string>, tag: Option<string>)
    requires Judge(namespaces, tag).0 == NeedsTag
    ensures Judge(namespaces, Some(Judge(namespaces, tag).1)).0 == Fine <==> forall n :: n in namespaces ==> IsNamespaceId(n)
  {
    hide ParseTag, IsNamespaceId, Missing, Stray, AllParse;
    var value := Judge(namespaces, tag).1;
    WrittenValue(namespaces, tag);
    NoStray(namespaces);
    if ParseTag(value).Some? {
      MissingIsStray(namespaces, Existing(tag), ParseTag(value).value);
    }
  }

  lemma NoStray(namespaces: set<string>)
    ensures Stray(namespaces) == [] <==> forall n :: n in namespaces ==> IsNamespaceId(n)
  {
    hide IsNamespaceId;
    var stray := set n | n in namespaces && !IsNamespaceId(n);
    assert Stray(namespaces) == [] <==> stray == {};
    assert forall n :: n in namespaces && !IsNamespaceId(n) <==> n in stray;
  }

  /** Ids never repeat. */
  lemma IdsSettle(namespaces: set<string>, tag: Option<string>)
    requires forall n :: n in namespaces ==> IsNamespaceId(n)
    ensures !Repeats(namespaces, tag)
  {
    hide IsNamespaceId, Judge;
    assert (set n | n in namespaces && !IsNamespaceId(n)) == {};
  }

  /** One that does: two ids with a space between them, taken for the id of one namespace. */
  lemma TwoInOneRepeats(a: string, b: string)
    requires IsNamespaceId(a) && IsNamespaceId(b)
    ensures Repeats({a + " " + b}, None)
  {
    hide IsNamespaceId, ParseTag;
    var text := a + " " + b;
    var ids := [a, b];
    assert ids[1..] == [b] && Join(ids, " ") == a + " " + b;
    IdLength(a);
    IdLength(b);
    ParseIff(text, ids);
    IsNoId(a, b);
    hide Judge, Stray, Missing;
    FirstWrite(text);
    StrayOne(text);
    assert AllParse([text]);
  }

  /** An untagged secret of one namespace is due to be tagged with the text of that namespace, whatever it is. */
  lemma FirstWrite(text: string)
    requires |text| <= TAG_VALUE_MAX
    ensures Missing({text}, []) == [text] && Judge({text}, None) == (NeedsTag, text)
  {
    assert {text} - (set id | id in []) == {text};
    OneSorted(text);
    assert [] + [text] == [text];
  }

  /** The limit written out: one text is written up to 256 characters and is over capacity beyond. */
  lemma RoomForText(text: string)
    ensures Judge({text}, None).0 == if |text| <= 256 then NeedsTag else OverCapacity
  {
    assert {text} - (set id | id in []) == {text};
    OneSorted(text);
    assert [] + [text] == [text];
  }

  /** And of ids: an untagged secret can be tagged with one to six of them. */
  lemma RoomForIds(namespaces: set<string>)
    requires forall n :: n in namespaces ==> IsNamespaceId(n)
    ensures Judge(namespaces, None).0 ==
            if |namespaces| == 0 then Fine else if |namespaces| <= 6 then NeedsTag else OverCapacity
  {
    hide IsNamespaceId;
    var missing := Missing(namespaces, []);
    assert namespaces - (set id | id in []) == namespaces;
    assert [] + missing == missing && |missing| == |namespaces|;
    MissingAreMembers(namespaces, []);
    assert Ids(missing);
    if missing != [] { TagLength(missing); }
  }

  lemma StrayOne(text: string)
    requires !IsNamespaceId(text)
    ensures Stray({text}) == [text]
  {
    assert (set n | n in {text} && !IsNamespaceId(n)) == {text};
    OneSorted(text);
  }

  lemma IsNoId(a: string, b: string)
    requires IsNamespaceId(a)
    ensures !IsNamespaceId(a + " " + b)
  {
    IdLength(a);
    assert |a + " " + b| > 36;
    if IsNamespaceId(a + " " + b) { IdLength(a + " " + b); }
  }

  lemma OneSorted(s: string)
    ensures Sorted({s}) == [s]
  {
    var r := Sorted({s});
    assert |r| == 1 && r[0] in r;
  }
}
