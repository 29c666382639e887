/**
 * Principal keys (libs/ts-shared/src/authnz.ts): percent-encoding in three passes, which must stay
 * byte-identical to the one-pass encoding of libs/common/src/coa_common/principal_keys.py.
 * In most of it trimming and lower-casing is a parameter, `fold`, on whose effect nothing depends; the last
 * section compares the trimming of the two languages, which is not the same.
 */
module PrincipalKeys {
  import opened Text

  // ----- UTF-8 and hexadecimal -----

  /** The UTF-8 bytes of one character. */
  function Utf8(c: char): (r: seq<int>)
    ensures forall i :: 0 <= i < |r| ==> 0 <= r[i] < 256
    ensures |r| > 1 ==> forall i :: 0 <= i < |r| ==> r[i] >= 128
    ensures |r| == 1 <==> c as int < 128
  {
    var n := c as int;
    if n < 0x80 then [n]
    else if n < 0x800 then [0xC0 + n / 64, 0x80 + n % 64]
    else if n < 0x10000 then [0xE0 + n / 4096, 0x80 + n / 64 % 64, 0x80 + n % 64]
    else [0xF0 + n / 262144, 0x80 + n / 4096 % 64, 0x80 + n / 64 % 64, 0x80 + n % 64]
  }

  function Utf8All(s: string): seq<int>
  {
    if s == "" then [] else Utf8(s[0]) + Utf8All(s[1..])
  }

  function HexDigit(d: int): char
    requires 0 <= d < 16
  {
    if d < 10 then (d + 48) as char else (d + 55) as char
  }

  function Percent(b: int): string
    requires 0 <= b < 256
  {
    ['%', HexDigit(b / 16), HexDigit(b % 16)]
  }

  function PercentAll(bytes: seq<int>): string
    requires forall i :: 0 <= i < |bytes| ==> 0 <= bytes[i] < 256
  {
    if bytes == [] then "" else Percent(bytes[0]) + PercentAll(bytes[1..])
  }

  // ----- the three passes -----

  predicate Mark(c: char) { c in {'!', '\'', '(', ')', '*'} }

  /** What `encodeURIComponent` leaves alone. */
  predicate Unescaped(c: char)
  {
    Alphanumeric(c) || c in {'-', '_', '.', '~'} || Mark(c)
  }

  function EncodeChar(c: char): string
  {
    if Unescaped(c) then [c] else PercentAll(Utf8(c))
  }

  function EncodeURIComponent(s: string): string
  {
    if s == "" then "" else EncodeChar(s[0]) + EncodeURIComponent(s[1..])
  }

  /** `.replace(/[!'()*]/g, ...)`. */
  function ReplaceMarks(s: string): string
  {
    if s == "" then ""
    else (if Mark(s[0]) then Percent(s[0] as int) else [s[0]]) + ReplaceMarks(s[1..])
  }

  /** `.replace(/%40/g, "@")`, leftmost first. */
  function ReplaceAt(s: string): string
  {
    if s == "" then ""
    else if "%40" <= s then "@" + ReplaceAt(s[3..])
    else [s[0]] + ReplaceAt(s[1..])
  }

  function Normalized(value: string, fold: string -> string): string
  {
    if '@' in value then fold(value) else value
  }

  function SanitizePrincipalKey(value: string, fold: string -> string): string
  {
    ReplaceAt(ReplaceMarks(EncodeURIComponent(Normalized(value, fold))))
  }

  // ----- the one pass -----

  /** `urllib.parse.quote(value, safe="@.")`: unreserved characters of section 2.3 of RFC 3986, and `@`. */
  predicate Safe(c: char)
  {
    Alphanumeric(c) || c in {'-', '_', '.', '~', '@'}
  }

  function QuoteChar(c: char): string
  {
    if Safe(c) then [c] else PercentAll(Utf8(c))
  }

  function Quote(s: string): string
  {
    if s == "" then "" else QuoteChar(s[0]) + Quote(s[1..])
  }

  lemma {:induction false} MarksConcat(a: string, b: string)
    ensures ReplaceMarks(a + b) == ReplaceMarks(a) + ReplaceMarks(b)
  {
    if a == "" {
      assert a + b == b;
    } else {
      assert (a + b)[0] == a[0] && (a + b)[1..] == a[1..] + b;
      MarksConcat(a[1..], b);
    }
  }

  lemma NoMarkFirst(c: char, rest: string)
    requires !Mark(c)
    ensures ReplaceMarks([c] + rest) == [c] + ReplaceMarks(rest)
  {
    assert ([c] + rest)[1..] == rest;
  }

  lemma OneByteHasNoMarks(b: int)
    requires 0 <= b < 256
    ensures ReplaceMarks(Percent(b)) == Percent(b)
  {
    var x, y := HexDigit(b / 16), HexDigit(b % 16);
    NoMarkFirst('%', [x] + ([y] + ""));
    NoMarkFirst(x, [y] + "");
    NoMarkFirst(y, "");
    assert Percent(b) == ['%'] + ([x] + ([y] + ""));
  }

  lemma {:induction false} PercentHasNoMarks(bytes: seq<int>)
    requires forall i :: 0 <= i < |bytes| ==> 0 <= bytes[i] < 256
    ensures ReplaceMarks(PercentAll(bytes)) == PercentAll(bytes)
  {
    if bytes != [] {
      var p := Percent(bytes[0]);
      PercentHasNoMarks(bytes[1..]);
      MarksConcat(p, PercentAll(bytes[1..]));
      OneByteHasNoMarks(bytes[0]);
    }
  }

  /** An encoded byte other than `@`'s can neither be nor overlap a `%40`. */
  lemma EncodedByteStays(b: int, rest: string)
    requires 0 <= b < 256 && b != 0x40
    ensures ReplaceAt(Percent(b) + rest) == Percent(b) + ReplaceAt(rest)
  {
    var x, y := HexDigit(b / 16), HexDigit(b % 16);
    var s := ['%'] + ([x] + ([y] + rest));
    assert Percent(b) + rest == s;
    assert s[1] == x && s[2] == y;
    assert x == '4' && y == '0' ==> b == 0x40;
    NotAtFirst(s);
    NotAtFirst([x] + ([y] + rest));
    NotAtFirst([y] + rest);
    assert s[1..] == [x] + ([y] + rest);
    assert ([x] + ([y] + rest))[1..] == [y] + rest;
    assert ([y] + rest)[1..] == rest;
    assert ['%'] + ([x] + ([y] + ReplaceAt(rest))) == Percent(b) + ReplaceAt(rest);
  }

  lemma NotAtFirst(s: string)
    requires s != "" && (|s| < 3 || s[0] != '%' || s[1] != '4' || s[2] != '0')
    ensures ReplaceAt(s) == [s[0]] + ReplaceAt(s[1..])
  {
    assert "%40"[0] == '%' && "%40"[1] == '4' && "%40"[2] == '0';
  }

  lemma {:induction false} EncodedBytesStay(bytes: seq<int>, rest: string)
    requires forall i :: 0 <= i < |bytes| ==> 0 <= bytes[i] < 256 && bytes[i] != 0x40
    ensures ReplaceAt(PercentAll(bytes) + rest) == PercentAll(bytes) + ReplaceAt(rest)
  {
    if bytes == [] {
      assert PercentAll(bytes) + rest == rest;
    } else {
      assert PercentAll(bytes) + rest == Percent(bytes[0]) + (PercentAll(bytes[1..]) + rest);
      EncodedByteStays(bytes[0], PercentAll(bytes[1..]) + rest);
      EncodedBytesStay(bytes[1..], rest);
    }
  }

  /** What the last two passes make of one encoded character. */
  lemma CharacterPasses(c: char, rest: string)
    ensures ReplaceAt(ReplaceMarks(EncodeChar(c)) + rest) == QuoteChar(c) + ReplaceAt(rest)
  {
    if Mark(c) {
      assert Utf8(c) == [c as int];
      assert PercentAll([c as int]) == Percent(c as int) by { assert [c as int][1..] == []; }
      assert [c][1..] == "";
      EncodedBytesStay([c as int], rest);
    } else if Unescaped(c) {
      assert [c][1..] == "" && ReplaceMarks([c]) == [c];
      assert ([c] + rest)[0] == c && ([c] + rest)[1..] == rest;
    } else {
      PercentHasNoMarks(Utf8(c));
      if c == '@' {
        assert Utf8(c) == [0x40];
        assert PercentAll([0x40]) == "%40" by { assert [0x40][1..] == []; }
        assert ("%40" + rest)[..3] == "%40" && ("%40" + rest)[3..] == rest;
      } else {
        assert forall i :: 0 <= i < |Utf8(c)| ==> Utf8(c)[i] != 0x40 by {
          if |Utf8(c)| == 1 { assert Utf8(c)[0] == c as int; }
        }
        EncodedBytesStay(Utf8(c), rest);
      }
    }
  }

  /** The three passes of the TypeScript encoder are the one pass of the Python encoder. */
  lemma {:induction false} ThreePassesAreOne(s: string)
    ensures ReplaceAt(ReplaceMarks(EncodeURIComponent(s))) == Quote(s)
  {
    if s != "" {
      ThreePassesAreOne(s[1..]);
      MarksConcat(EncodeChar(s[0]), EncodeURIComponent(s[1..]));
      CharacterPasses(s[0], ReplaceMarks(EncodeURIComponent(s[1..])));
    }
  }

  // ----- decoding -----

  function HexValue(c: char): Option<int>
  {
    if '0' <= c <= '9' then Some(c as int - 48)
    else if 'A' <= c <= 'F' then Some(c as int - 55)
    else None
  }

  /** Percent-decoding to bytes. */
  function Bytes(key: string): Option<seq<int>>
    decreases |key|
  {
    if key == "" then Some([])
    else if key[0] == '%' then
      if |key| < 3 || HexValue(key[1]).None? || HexValue(key[2]).None? then None
      else match Bytes(key[3..])
        case Some(rest) => Some([16 * HexValue(key[1]).value + HexValue(key[2]).value] + rest)
        case None => None
    else match Bytes(key[1..])
      case Some(rest) => Some([key[0] as int] + rest)
      case None => None
  }

  predicate Scalar(n: int) { 0 <= n < 0xD800 || 0xE000 <= n < 0x11_0000 }

  /** The code point the first bytes encode, and how many they are. */
  function FirstPoint(b: seq<int>): (int, nat)
    requires b != []
  {
    if b[0] < 0x80 then (b[0], 1)
    else if b[0] < 0xE0 && |b| > 1 then ((b[0] - 0xC0) * 64 + (b[1] - 0x80), 2)
    else if b[0] < 0xF0 && |b| > 2 then ((b[0] - 0xE0) * 4096 + (b[1] - 0x80) * 64 + (b[2] - 0x80), 3)
    else if |b| > 3 then ((b[0] - 0xF0) * 262144 + (b[1] - 0x80) * 4096 + (b[2] - 0x80) * 64 + (b[3] - 0x80), 4)
    else (-1, 1)
  }

  function Characters(b: seq<int>): Option<string>
    decreases |b|
  {
    if b == [] then Some("")
    else
      var (n, used) := FirstPoint(b);
      if !Scalar(n) then None
      else match Characters(b[used..])
        case Some(rest) => Some([n as char] + rest)
        case None => None
  }

  function Decode(key: string): Option<string>
  {
    match Bytes(key)
    case Some(b) => Characters(b)
    case None => None
  }

  lemma PercentReads(b: int, rest: string)
    requires 0 <= b < 256
    ensures Bytes(Percent(b) + rest) == match Bytes(rest) case Some(r) => Some([b] + r) case None => None
  {
    var s := Percent(b) + rest;
    assert s[3..] == rest && s[1] == HexDigit(b / 16) && s[2] == HexDigit(b % 16);
    assert HexValue(HexDigit(b / 16)) == Some(b / 16) && HexValue(HexDigit(b % 16)) == Some(b % 16);
  }

  lemma {:induction false} PercentsRead(bytes: seq<int>, rest: string)
    requires forall i :: 0 <= i < |bytes| ==> 0 <= bytes[i] < 256
    ensures Bytes(PercentAll(bytes) + rest) == match Bytes(rest) case Some(r) => Some(bytes + r) case None => None
  {
    if bytes == [] {
      assert PercentAll(bytes) + rest == rest;
      assert forall r: seq<int> :: [] + r == r;
    } else {
      assert PercentAll(bytes) + rest == Percent(bytes[0]) + (PercentAll(bytes[1..]) + rest);
      PercentReads(bytes[0], PercentAll(bytes[1..]) + rest);
      PercentsRead(bytes[1..], rest);
      assert forall r: seq<int> :: [bytes[0]] + (bytes[1..] + r) == bytes + r;
    }
  }

  lemma {:induction false} QuoteReads(s: string)
    ensures Bytes(Quote(s)) == Some(Utf8All(s))
  {
    if s != "" {
      QuoteReads(s[1..]);
      var rest := Quote(s[1..]);
      if Safe(s[0]) {
        assert ([s[0]] + rest)[0] == s[0] && ([s[0]] + rest)[1..] == rest;
        assert Utf8(s[0]) == [s[0] as int];
      } else {
        PercentsRead(Utf8(s[0]), rest);
      }
    }
  }

  lemma PointReads(c: char, rest: seq<int>)
    ensures FirstPoint(Utf8(c) + rest) == (c as int, |Utf8(c)|)
  {
    var n := c as int;
    assert n == n / 64 * 64 + n % 64;
    assert n / 64 == n / 4096 * 64 + n / 64 % 64;
    assert n / 4096 == n / 262144 * 64 + n / 4096 % 64;
  }

  lemma {:induction false} Utf8Reads(s: string)
    ensures Characters(Utf8All(s)) == Some(s)
  {
    if s != "" {
      Utf8Reads(s[1..]);
      PointReads(s[0], Utf8All(s[1..]));
      assert Utf8All(s)[|Utf8(s[0])|..] == Utf8All(s[1..]);
      assert s == [s[0]] + s[1..];
    }
  }

  /** Decoding a key gives back the normalised principal, whatever characters it holds. */
  lemma KeyDecodes(value: string, fold: string -> string)
    ensures Decode(SanitizePrincipalKey(value, fold)) == Some(Normalized(value, fold))
  {
    ThreePassesAreOne(Normalized(value, fold));
    QuoteReads(Normalized(value, fold));
    Utf8Reads(Normalized(value, fold));
  }

  /** Two principals share a key exactly when they are the same once normalised. */
  lemma SameKeyIff(a: string, b: string, fold: string -> string)
    ensures SanitizePrincipalKey(a, fold) == SanitizePrincipalKey(b, fold) <==> Normalized(a, fold) == Normalized(b, fold)
  {
    KeyDecodes(a, fold);
    KeyDecodes(b, fold);
  }

  /** The characters a key keeps, by code point: digits, letters, `-`, `.`, `_`, `~` and `@`. Every other one is encoded. */
  lemma KeptIff(c: char)
    ensures Quote([c]) == [c] <==>
            var n := c as int;
            0x30 <= n <= 0x39 || 0x41 <= n <= 0x5A || 0x61 <= n <= 0x7A || n in {0x2D, 0x2E, 0x5F, 0x7E, 0x40}
  {
    assert [c][1..] == [] && QuoteChar(c) + "" == QuoteChar(c);
    assert Quote([c]) == QuoteChar(c);
    assert Safe(c) <==> var n := c as int;
                        0x30 <= n <= 0x39 || 0x41 <= n <= 0x5A || 0x61 <= n <= 0x7A || n in {0x2D, 0x2E, 0x5F, 0x7E, 0x40};
    if !Safe(c) {
      var b := Utf8(c);
      assert PercentAll(b) == Percent(b[0]) + PercentAll(b[1..]);
      assert |PercentAll(b)| >= 3;
    }
  }

  // ----- the composite keys -----

  /** A key is made of safe characters and percent signs only. */
  lemma {:induction false} KeyCharacters(s: string)
    ensures forall c :: c in Quote(s) ==> Safe(c) || c == '%'
  {
    if s != "" {
      KeyCharacters(s[1..]);
      if !Safe(s[0]) { PercentCharacters(Utf8(s[0])); }
      assert forall c :: c in Quote(s) ==> c in QuoteChar(s[0]) || c in Quote(s[1..]);
    }
  }

  lemma {:induction false} PercentCharacters(bytes: seq<int>)
    requires forall i :: 0 <= i < |bytes| ==> 0 <= bytes[i] < 256
    ensures forall c :: c in PercentAll(bytes) ==> Safe(c) || c == '%'
  {
    if bytes != [] {
      PercentCharacters(bytes[1..]);
      assert forall c :: c in PercentAll(bytes) ==> c in Percent(bytes[0]) || c in PercentAll(bytes[1..]);
    }
  }

  datatype PrincipalType = User | Agent | Group

  function TypeName(t: PrincipalType): (r: string)
    ensures ':' !in r
  {
    match t case User => "User" case Agent => "Agent" case Group => "Group"
  }

  /** `<kind>::<id>#ROLE#<role>`. */
  function RoleKey(kind: string, id: string, role: string): string
  {
    kind + "::" + id + "#ROLE#" + role
  }

  function PrincipalRoleKey(t: PrincipalType, principal: string, role: string, fold: string -> string): string
  {
    RoleKey(TypeName(t), SanitizePrincipalKey(principal, fold), role)
  }

  /** The three parts, read off at the first colon and the first hash after it. */
  function Parts(key: string): (string, string, string)
  {
    var k := UpTo(key, ':');
    var rest := if k + 2 <= |key| then key[k + 2..] else "";
    var i := UpTo(rest, '#');
    (key[..k], rest[..i], if i + 6 <= |rest| then rest[i + 6..] else "")
  }

  /** A role key reads back, for any role text, if the kind has no colon and the id no hash. */
  lemma RoleKeyReads(kind: string, id: string, role: string)
    requires ':' !in kind && '#' !in id
    ensures Parts(RoleKey(kind, id, role)) == (kind, id, role)
  {
    hide UpTo;
    var key := RoleKey(kind, id, role);
    var after := "::" + id + "#ROLE#" + role;
    assert key == kind + after;
    UpToOf(kind, after, ':');
    var rest, tail := id + ("#ROLE#" + role), "#ROLE#" + role;
    assert key[|kind| + 2..] == rest;
    UpToOf(id, tail, '#');
    assert rest[|id| + 6..] == role;
  }

  /** No two grants share a role key unless type, normalised principal and role all agree. */
  lemma RoleKeysAreUnique(
      t: PrincipalType, a: string, r: string, u: PrincipalType, b: string, q: string, fold: string -> string)
    ensures PrincipalRoleKey(t, a, r, fold) == PrincipalRoleKey(u, b, q, fold) <==>
            t == u && Normalized(a, fold) == Normalized(b, fold) && r == q
  {
    NoHash(a, fold);
    NoHash(b, fold);
    RoleKeyReads(TypeName(t), SanitizePrincipalKey(a, fold), r);
    RoleKeyReads(TypeName(u), SanitizePrincipalKey(b, fold), q);
    SameKeyIff(a, b, fold);
    assert TypeName(t)[0] == TypeName(u)[0] <==> t == u;
  }

  /** The role keys written out. */
  lemma RoleKeyTexts(principal: string, role: string, fold: string -> string)
    ensures var key := SanitizePrincipalKey(principal, fold);
            && PrincipalRoleKey(User, principal, role, fold) == "User::" + key + "#ROLE#" + role
            && PrincipalRoleKey(Agent, principal, role, fold) == "Agent::" + key + "#ROLE#" + role
            && PrincipalRoleKey(Group, principal, role, fold) == "Group::" + key + "#ROLE#" + role
  {
    hide SanitizePrincipalKey;
    var key := SanitizePrincipalKey(principal, fold);
    assert "User::" == "User" + "::" && "Agent::" == "Agent" + "::" && "Group::" == "Group" + "::";
  }

  lemma NoHash(a: string, fold: string -> string)
    ensures '#' !in SanitizePrincipalKey(a, fold) && ':' !in SanitizePrincipalKey(a, fold)
  {
    ThreePassesAreOne(Normalized(a, fold));
    KeyCharacters(Normalized(a, fold));
    assert !Safe('#') && !Safe(':');
  }

  // ----- the two trims -----

  /** What `String.prototype.trim` removes; `Text.IsSpace` is what `str.strip` removes. */
  predicate JsSpace(c: char)
  {
    var n := c as int;
    9 <= n <= 13 || n in {0x20, 0xA0, 0x1680, 0x2028, 0x2029, 0x202F, 0x205F, 0x3000, 0xFEFF} || 0x2000 <= n <= 0x200A
  }

  function JsTrim(s: string): string
  {
    Strip(s, JsSpace)
  }

  predicate BothSpace(c: char) { IsSpace(c) && JsSpace(c) }

  /** U+001C to U+001F and U+0085, which only Python removes, and U+FEFF, which only JavaScript does. */
  predicate Odd(c: char) { IsSpace(c) != JsSpace(c) }

  lemma OddAre(c: char)
    ensures Odd(c) <==> 0x1C <= c as int <= 0x1F || c as int in {0x85, 0xFEFF}
  {
  }

  /** Without what both languages remove, the text has none of the odd characters at its ends. */
  predicate TrimsAlike(s: string)
  {
    var core := Strip(s, BothSpace);
    core != "" ==> !Odd(core[0]) && !Odd(core[|core| - 1])
  }

  /** Lower-casing leaves the odd characters at the ends alone, brings none there and makes no text empty. */
  ghost predicate KeepsOddEnds(lower: string -> string)
  {
    forall s :: (lower(s) == "" <==> s == "") && (s != "" ==> KeepsOdd(s[0], lower(s)[0]) && KeepsOdd(s[|s| - 1], lower(s)[|lower(s)| - 1]))
  }

  predicate KeepsOdd(c: char, d: char) { Odd(c) || Odd(d) ==> c == d }

  /** Both trims see only what is left when the common blanks are gone. */
  lemma TrimsOfCore(s: string)
    ensures var core := Strip(s, BothSpace); Trim(s) == Trim(core) && JsTrim(s) == JsTrim(core)
  {
    var left, right := StripPads(s, BothSpace);
    StripAround(left, Strip(s, BothSpace), right, IsSpace);
    StripAround(left, Strip(s, BothSpace), right, JsSpace);
  }

  lemma AlikeTrims(s: string)
    requires TrimsAlike(s)
    ensures Trim(s) == JsTrim(s)
  {
    var core := Strip(s, BothSpace);
    TrimsOfCore(s);
    StripIsStripped(s, BothSpace);
    StripPadded("", core, "", IsSpace);
    StripPadded("", core, "", JsSpace);
    assert "" + core + "" == core;
  }

  /** An odd character at an end is kept by one trim and not by the other, and lower-casing does not hide it. */
  lemma UnlikeTrims(s: string, lower: string -> string)
    requires KeepsOddEnds(lower) && !TrimsAlike(s)
    ensures lower(Trim(s)) != lower(JsTrim(s))
  {
    hide KeepsOddEnds, Strip;
    var core := Strip(s, BothSpace);
    TrimsOfCore(s);
    var py, js := Trim(core), JsTrim(core);
    StripIsStripped(core, IsSpace);
    StripIsStripped(core, JsSpace);
    StripKeepsEnds(core, IsSpace);
    StripKeepsEnds(core, JsSpace);
    EndsKept(py, lower);
    EndsKept(js, lower);
  }

  lemma EndsKept(s: string, lower: string -> string)
    requires KeepsOddEnds(lower)
    ensures lower(s) == "" <==> s == ""
    ensures s != "" ==> KeepsOdd(s[0], lower(s)[0]) && KeepsOdd(s[|s| - 1], lower(s)[|lower(s)| - 1])
  {
  }

  function PythonKey(value: string, lower: string -> string): string
  {
    Quote(if '@' in value then lower(Trim(value)) else value)
  }

  function TypeScriptKey(value: string, lower: string -> string): string
  {
    SanitizePrincipalKey(value, s => lower(JsTrim(s)))
  }

  lemma QuoteIsInjective(a: string, b: string)
    requires Quote(a) == Quote(b)
    ensures a == b
  {
    QuoteReads(a);
    QuoteReads(b);
    Utf8Reads(a);
    Utf8Reads(b);
  }

  /**
   * The two encoders must write the same key, byte for byte. They do so exactly when the principal is no
   * email address, or does not begin or end with an odd character once the common blanks are removed.
   */
  lemma SameBytesIff(value: string, lower: string -> string)
    requires KeepsOddEnds(lower)
    ensures PythonKey(value, lower) == TypeScriptKey(value, lower) <==> '@' !in value || TrimsAlike(value)
  {
    hide Quote, KeepsOddEnds, TrimsAlike, Trim, JsTrim;
    ThreePassesAreOne(Normalized(value, s => lower(JsTrim(s))));
    if '@' in value {
      if TrimsAlike(value) {
        AlikeTrims(value);
      } else {
        UnlikeTrims(value, lower);
        if Quote(lower(Trim(value))) == Quote(lower(JsTrim(value))) {
          QuoteIsInjective(lower(Trim(value)), lower(JsTrim(value)));
        }
      }
    }
  }

  /** An address followed by U+0085 gets two keys, so a grant written under one is not found under the other. */
  lemma NextLineSplitsKeys(lower: string -> string)
    requires KeepsOddEnds(lower)
    ensures PythonKey("a@b\U{0085}", lower) != TypeScriptKey("a@b\U{0085}", lower)
  {
    hide KeepsOddEnds, PythonKey, TypeScriptKey;
    var s := "a@b\U{0085}";
    assert Stripped(s, BothSpace);
    StripPadded("", s, "", BothSpace);
    assert "" + s + "" == s && s[1] == '@' && s[3] == '\U{0085}';
    SameBytesIff(s, lower);
  }
}
