/** Strings and the one scanner all of the splitting code is an instance of. */
module Text {
  datatype Option<+T> = None | Some(value: T)

  function Get<T>(m: map<string, T>, k: string): Option<T>
  {
    if k in m then Some(m[k]) else None
  }

  /** Python's `sep.join(parts)`. */
  function Join(parts: seq<string>, sep: string): string
  {
    if parts == [] then ""
    else if |parts| == 1 then parts[0]
    else parts[0] + sep + Join(parts[1..], sep)
  }

  lemma {:induction false} JoinPrepend(text: string, parts: seq<string>, sep: string)
    requires parts != []
    ensures Join([text + parts[0]] + parts[1..], sep) == text + Join(parts, sep)
  {
    var longer := [text + parts[0]] + parts[1..];
    if |parts| == 1 {
      assert longer == [text + parts[0]];
    } else {
      assert longer[1..] == parts[1..];
      assert Join(longer, sep) == (text + parts[0]) + sep + Join(parts[1..], sep);
      assert Join(parts, sep) == parts[0] + sep + Join(parts[1..], sep);
      assert (text + parts[0]) + sep + Join(parts[1..], sep) == text + (parts[0] + sep + Join(parts[1..], sep));
    }
  }

  lemma {:induction false} JoinConcat(a: seq<string>, b: seq<string>, sep: string)
    requires a != [] && b != []
    ensures Join(a + b, sep) == Join(a, sep) + sep + Join(b, sep)
  {
    assert (a + b)[0] == a[0] && (a + b)[1..] == a[1..] + b;
    if |a| == 1 {
      assert a[1..] + b == b;
    } else {
      JoinConcat(a[1..], b, sep);
      assert a[0] + sep + (Join(a[1..], sep) + sep + Join(b, sep)) ==
             (a[0] + sep + Join(a[1..], sep)) + sep + Join(b, sep);
    }
  }

  /** `text` put in front of the first of `parts`. */
  function OntoFirst(text: string, parts: seq<string>): (r: seq<string>)
    requires parts != []
    ensures |r| == |parts|
  {
    [text + parts[0]] + parts[1..]
  }

  lemma OntoNothing(parts: seq<string>)
    requires parts != []
    ensures OntoFirst("", parts) == parts
  {
    assert "" + parts[0] == parts[0];
  }

  /**
   * A left-to-right scanner that cuts a text at every `sep` it meets in state 0.
   * `step` says how every character that is not a cut changes the state.
   */
  datatype Scanner = Scanner(sep: char, step: (int, char) -> int) {

    predicate Cuts(st: int, c: char) {
      c == sep && st == 0
    }

    /** The pieces of `s` when the scan begins in state `st`. */
    function Split(s: string, st: int): (parts: seq<string>)
      ensures parts != []
    {
      if s == "" then [""]
      else if Cuts(st, s[0]) then [""] + Split(s[1..], 0)
      else OntoFirst([s[0]], Split(s[1..], step(st, s[0])))
    }

    /** The state after a stretch that is not cut. */
    function After(s: string, st: int): int
    {
      if s == "" then st else After(s[1..], step(st, s[0]))
    }

    /** Scanning `s` from state `st` makes no cut. */
    predicate Uncut(s: string, st: int)
    {
      s == "" || (!Cuts(st, s[0]) && Uncut(s[1..], step(st, s[0])))
    }

    /** A list of pieces each of which is uncut and, unless it is the last, brings the scan back to state 0. */
    predicate WellCut(parts: seq<string>, st: int)
    {
      parts != [] && Uncut(parts[0], st) &&
      (|parts| > 1 ==> After(parts[0], st) == 0 && WellCut(parts[1..], 0))
    }

    lemma {:induction false} SplitJoins(s: string, st: int)
      ensures Join(Split(s, st), [sep]) == s
      decreases |s|
    {
      if s != "" {
        assert s == [s[0]] + s[1..];
        if Cuts(st, s[0]) {
          SplitJoins(s[1..], 0);
          assert ([""] + Split(s[1..], 0))[1..] == Split(s[1..], 0);
          assert Join(Split(s, st), [sep]) == "" + [sep] + s[1..];
        } else {
          var rest := Split(s[1..], step(st, s[0]));
          SplitJoins(s[1..], step(st, s[0]));
          JoinPrepend([s[0]], rest, [sep]);
        }
      }
    }

    lemma {:induction false} SplitIsWellCut(s: string, st: int)
      ensures WellCut(Split(s, st), st)
      decreases |s|
    {
      if s != "" {
        if Cuts(st, s[0]) {
          SplitIsWellCut(s[1..], 0);
          assert ([""] + Split(s[1..], 0))[1..] == Split(s[1..], 0);
        } else {
          var rest := Split(s[1..], step(st, s[0]));
          SplitIsWellCut(s[1..], step(st, s[0]));
          var parts := Split(s, st);
          assert parts[1..] == rest[1..];
          assert parts[0][1..] == rest[0];
        }
      }
    }

    lemma {:induction false} SplitOfWellCut(parts: seq<string>, st: int)
      requires WellCut(parts, st)
      ensures Split(Join(parts, [sep]), st) == parts
      decreases |parts|, if parts == [] then 0 else |parts[0]|
    {
      var s := Join(parts, [sep]);
      if parts[0] == "" {
        if |parts| > 1 {
          SplitOfWellCut(parts[1..], 0);
          assert s == [sep] + Join(parts[1..], [sep]);
          assert s[1..] == Join(parts[1..], [sep]);
          assert parts == [""] + parts[1..];
        } else {
          assert parts == [""];
        }
      } else {
        var c := parts[0][0];
        var fewer := [parts[0][1..]] + parts[1..];
        assert fewer[1..] == parts[1..];
        assert parts[0] == [c] + parts[0][1..];
        assert parts == OntoFirst([c], fewer);
        JoinPrepend([c], fewer, [sep]);
        assert s[0] == c && s[1..] == Join(fewer, [sep]);
        SplitOfWellCut(fewer, step(st, c));
      }
    }

    /** Splitting is characterised: it is the one way to cut a text into uncut pieces. */
    lemma SplitIff(s: string, parts: seq<string>)
      ensures parts == Split(s, 0) <==> Join(parts, [sep]) == s && WellCut(parts, 0)
    {
      SplitJoins(s, 0);
      SplitIsWellCut(s, 0);
      if Join(parts, [sep]) == s && WellCut(parts, 0) {
        SplitOfWellCut(parts, 0);
      }
    }

    /** What one more character does to a scan in progress. */
    lemma SplitStep(s: string, st: int, i: nat, buf: string)
      requires i < |s|
      ensures Cuts(st, s[i]) ==> OntoFirst(buf, Split(s[i..], st)) == [buf] + Split(s[i + 1..], 0)
      ensures !Cuts(st, s[i]) ==>
                OntoFirst(buf, Split(s[i..], st)) == OntoFirst(buf + [s[i]], Split(s[i + 1..], step(st, s[i])))
    {
      assert s[i..][1..] == s[i + 1..];
      if Cuts(st, s[i]) {
        assert buf + "" == buf;
      } else {
        var rest := Split(s[i + 1..], step(st, s[i]));
        assert buf + ([s[i]] + rest[0]) == (buf + [s[i]]) + rest[0];
        assert OntoFirst([s[i]], rest)[1..] == rest[1..];
      }
    }

    lemma {:induction false} UncutConcat(a: string, b: string, st: int)
      ensures After(a + b, st) == After(b, After(a, st))
      ensures Uncut(a + b, st) <==> Uncut(a, st) && Uncut(b, After(a, st))
      decreases |a|
    {
      if a == "" {
        assert a + b == b;
      } else {
        assert (a + b)[0] == a[0] && (a + b)[1..] == a[1..] + b;
        UncutConcat(a[1..], b, step(st, a[0]));
      }
    }

    /** Uncut, said without the scan: every separator is met in a state other than 0. */
    lemma {:induction false} UncutIff(s: string, st: int)
      ensures Uncut(s, st) <==> forall i :: 0 <= i < |s| && s[i] == sep ==> After(s[..i], st) != 0
      decreases |s|
    {
      if s != "" {
        var next := step(st, s[0]);
        UncutIff(s[1..], next);
        assert s[..0] == "";
        forall i | 0 < i < |s| ensures After(s[..i], st) == After(s[1..][..i - 1], next) {
          assert s[..i][1..] == s[1..][..i - 1];
        }
        if Uncut(s[1..], next) {
          forall i | 0 < i < |s| && s[i] == sep ensures After(s[..i], st) != 0 {
            assert s[1..][i - 1] == sep;
          }
        }
        if forall i :: 0 <= i < |s| && s[i] == sep ==> After(s[..i], st) != 0 {
          forall i | 0 <= i < |s[1..]| && s[1..][i] == sep ensures After(s[1..][..i], next) != 0 {
            assert s[i + 1] == sep;
          }
        }
      }
    }

    /** A list is well cut from state 0 when every piece is uncut and every piece returns to state 0. */
    lemma {:induction false} WellCutFrom(parts: seq<string>)
      requires parts != []
      requires forall i :: 0 <= i < |parts| ==> Uncut(parts[i], 0) && After(parts[i], 0) == 0
      ensures WellCut(parts, 0)
    {
      if |parts| > 1 {
        WellCutFrom(parts[1..]);
      }
    }
  }

  /** Python's `text.split(sep)` for a one-character separator: every occurrence cuts. */
  function Plain(sep: char): Scanner
  {
    Scanner(sep, (st, c) => st)
  }

  lemma {:induction false} PlainUncut(s: string, sep: char)
    ensures Plain(sep).After(s, 0) == 0
    ensures Plain(sep).Uncut(s, 0) <==> sep !in s
  {
    if s != "" {
      PlainUncut(s[1..], sep);
      assert s == [s[0]] + s[1..];
    }
  }

  /** Splitting at every `sep` undoes joining pieces that do not contain it. */
  lemma PlainSplitOfJoin(parts: seq<string>, sep: char)
    requires parts != []
    requires forall i :: 0 <= i < |parts| ==> sep !in parts[i]
    ensures Plain(sep).Split(Join(parts, [sep]), 0) == parts
  {
    forall i | 0 <= i < |parts|
      ensures Plain(sep).Uncut(parts[i], 0) && Plain(sep).After(parts[i], 0) == 0
    {
      PlainUncut(parts[i], sep);
    }
    Plain(sep).WellCutFrom(parts);
    Plain(sep).SplitOfWellCut(parts, 0);
  }

  lemma {:induction false} WellCutPiece(parts: seq<string>, sep: char, i: nat)
    requires Plain(sep).WellCut(parts, 0) && i < |parts|
    ensures sep !in parts[i]
  {
    PlainUncut(parts[0], sep);
    if i > 0 { WellCutPiece(parts[1..], sep, i - 1); }
  }

  lemma PlainPieces(s: string, sep: char)
    ensures forall i :: 0 <= i < |Plain(sep).Split(s, 0)| ==> sep !in Plain(sep).Split(s, 0)[i]
  {
    var parts := Plain(sep).Split(s, 0);
    Plain(sep).SplitIsWellCut(s, 0);
    forall i | 0 <= i < |parts| ensures sep !in parts[i] {
      WellCutPiece(parts, sep, i);
    }
  }

  /** Splitting distributes over a separator. */
  lemma PlainSplitAt(a: string, b: string, sep: char)
    ensures Plain(sep).Split(a + [sep] + b, 0) == Plain(sep).Split(a, 0) + Plain(sep).Split(b, 0)
  {
    var pa, pb := Plain(sep).Split(a, 0), Plain(sep).Split(b, 0);
    Plain(sep).SplitJoins(a, 0);
    Plain(sep).SplitJoins(b, 0);
    JoinConcat(pa, pb, [sep]);
    PlainPieces(a, sep);
    PlainPieces(b, sep);
    PlainSplitOfJoin(pa + pb, sep);
  }

  /** A joined text without the separator is one of the pieces, whatever it was joined with. */
  lemma {:induction false} PlainHas(parts: seq<string>, sep: char, i: nat)
    requires i < |parts| && sep !in parts[i]
    ensures parts[i] in Plain(sep).Split(Join(parts, [sep]), 0)
  {
    if |parts| == 1 {
      PlainSplitOfJoin(parts, sep);
    } else {
      PlainSplitAt(parts[0], Join(parts[1..], [sep]), sep);
      if i == 0 {
        PlainSplitOfJoin([parts[0]], sep);
        assert Join([parts[0]], [sep]) == parts[0];
        assert parts[0] in [parts[0]];
      } else {
        PlainHas(parts[1..], sep, i - 1);
      }
    }
  }

  // ----- characters that pass through -----

  ghost predicate Only(s: string, keep: char -> bool)
  {
    forall c :: c in s ==> keep(c)
  }

  lemma {:induction false} JoinOnly(parts: seq<string>, sep: string, keep: char -> bool)
    requires Only(sep, keep) && forall i :: 0 <= i < |parts| ==> Only(parts[i], keep)
    ensures Only(Join(parts, sep), keep)
  {
    if |parts| > 1 { JoinOnly(parts[1..], sep, keep); }
  }

  lemma {:induction false} JoinedOnly(parts: seq<string>, sep: string, keep: char -> bool)
    requires Only(Join(parts, sep), keep)
    ensures forall i :: 0 <= i < |parts| ==> Only(parts[i], keep)
  {
    if |parts| > 1 {
      var whole := Join(parts, sep);
      forall c | c in parts[0] ensures keep(c) { assert c in whole; }
      forall c | c in Join(parts[1..], sep) ensures keep(c) { assert c in whole; }
      JoinedOnly(parts[1..], sep, keep);
    }
  }

  lemma {:induction false} StripLeftOnly(s: string, drop: char -> bool, keep: char -> bool)
    requires Only(s, keep)
    ensures Only(StripLeft(s, drop), keep)
  {
    if s != "" && drop(s[0]) { StripLeftOnly(s[1..], drop, keep); }
  }

  lemma {:induction false} StripRightOnly(s: string, drop: char -> bool, keep: char -> bool)
    requires Only(s, keep)
    ensures Only(StripRight(s, drop), keep)
  {
    if s != "" && drop(s[|s| - 1]) { StripRightOnly(s[..|s| - 1], drop, keep); }
  }

  lemma TrimOnly(s: string, keep: char -> bool)
    requires Only(s, keep)
    ensures Only(Trim(s), keep)
  {
    StripLeftOnly(s, IsSpace, keep);
    StripRightOnly(StripLeft(s, IsSpace), IsSpace, keep);
  }

  // ----- searching -----

  /** How many characters come before the first `c`, or all of them. */
  function UpTo(s: string, c: char): (n: nat)
    ensures n <= |s| && c !in s[..n] && (n < |s| ==> s[n] == c)
  {
    if s == "" || s[0] == c then 0
    else
      var n := UpTo(s[1..], c);
      assert s[..n + 1] == [s[0]] + s[1..][..n];
      n + 1
  }

  lemma {:induction false} UpToOf(a: string, b: string, c: char)
    requires c !in a && (b == "" || b[0] == c)
    ensures UpTo(a + b, c) == |a|
  {
    if a == "" {
      assert a + b == b;
    } else {
      assert (a + b)[0] == a[0] && a[0] in a;
      assert (a + b)[1..] == a[1..] + b;
      UpToOf(a[1..], b, c);
    }
  }

  predicate Alphanumeric(c: char)
  {
    'A' <= c <= 'Z' || 'a' <= c <= 'z' || '0' <= c <= '9'
  }

  function RunLength(s: string, isWord: char -> bool): (n: nat)
    ensures n <= |s| && (forall i :: 0 <= i < n ==> isWord(s[i])) && (n < |s| ==> !isWord(s[n]))
  {
    if s == "" || !isWord(s[0]) then 0 else 1 + RunLength(s[1..], isWord)
  }

  /** The maximal runs of word characters, left to right. */
  function Words(s: string, isWord: char -> bool): seq<string>
    decreases |s|
  {
    if s == "" then []
    else if !isWord(s[0]) then Words(s[1..], isWord)
    else
      var n := RunLength(s, isWord);
      [s[..n]] + Words(s[n..], isWord)
  }

  // ----- trimming -----

  function StripLeft(s: string, drop: char -> bool): string
  {
    if s != "" && drop(s[0]) then StripLeft(s[1..], drop) else s
  }

  function StripRight(s: string, drop: char -> bool): string
  {
    if s != "" && drop(s[|s| - 1]) then StripRight(s[..|s| - 1], drop) else s
  }

  /** Python's `s.strip(chars)`. */
  function Strip(s: string, drop: char -> bool): string
  {
    StripRight(StripLeft(s, drop), drop)
  }

  predicate Stripped(s: string, drop: char -> bool)
  {
    s != "" ==> !drop(s[0]) && !drop(s[|s| - 1])
  }

  /** Stripping removes exactly a padding: any text is padding, its stripped form, padding. */
  lemma {:induction false} StripPadded(left: string, core: string, right: string, drop: char -> bool)
    requires Stripped(core, drop)
    requires forall c :: c in left || c in right ==> drop(c)
    ensures Strip(left + core + right, drop) == core
  {
    if left != "" {
      assert (left + core + right)[1..] == left[1..] + core + right;
      assert left[0] in left;
      StripPadded(left[1..], core, right, drop);
    } else if core == "" {
      assert left + core + right == right;
      StripLeftAll(right, drop);
    } else {
      assert left + core + right == core + right;
      assert StripLeft(core + right, drop) == core + right;
      StripRightPadded(core, right, drop);
    }
  }

  lemma {:induction false} StripLeftAll(s: string, drop: char -> bool)
    requires forall c :: c in s ==> drop(c)
    ensures StripLeft(s, drop) == ""
  {
    if s != "" {
      assert s[0] in s;
      StripLeftAll(s[1..], drop);
    }
  }

  lemma {:induction false} StripRightPadded(core: string, right: string, drop: char -> bool)
    requires core != "" && Stripped(core, drop)
    requires forall c :: c in right ==> drop(c)
    ensures StripRight(core + right, drop) == core
  {
    if right == "" {
      assert core + right == core;
    } else {
      var s := core + right;
      assert s[..|s| - 1] == core + right[..|right| - 1];
      assert s[|s| - 1] == right[|right| - 1] && right[|right| - 1] in right;
      StripRightPadded(core, right[..|right| - 1], drop);
    }
  }

  lemma {:induction false} StripRightPrefix(s: string, drop: char -> bool)
    ensures StripRight(s, drop) <= s
    ensures StripRight(s, drop) != "" ==> !drop(StripRight(s, drop)[|StripRight(s, drop)| - 1])
  {
    if s != "" && drop(s[|s| - 1]) {
      StripRightPrefix(s[..|s| - 1], drop);
    }
  }

  lemma {:induction false} StripIsStripped(s: string, drop: char -> bool)
    ensures Stripped(Strip(s, drop), drop)
    decreases |s|
  {
    if s != "" && drop(s[0]) {
      StripIsStripped(s[1..], drop);
    } else {
      StripRightPrefix(s, drop);
    }
  }

  /** Stripping takes a padding off each end and nothing else. */
  lemma {:induction false} StripLeftPads(s: string, drop: char -> bool) returns (left: string)
    ensures s == left + StripLeft(s, drop) && Only(left, drop)
    ensures StripLeft(s, drop) != "" ==> !drop(StripLeft(s, drop)[0])
  {
    left := "";
    if s != "" && drop(s[0]) {
      left := StripLeftPads(s[1..], drop);
      left := [s[0]] + left;
      assert s == [s[0]] + s[1..];
    }
  }

  lemma {:induction false} StripRightPads(s: string, drop: char -> bool) returns (right: string)
    ensures s == StripRight(s, drop) + right && Only(right, drop)
  {
    right := "";
    if s != "" && drop(s[|s| - 1]) {
      right := StripRightPads(s[..|s| - 1], drop);
      right := right + [s[|s| - 1]];
      assert s == s[..|s| - 1] + [s[|s| - 1]];
    }
  }

  lemma StripPads(s: string, drop: char -> bool) returns (left: string, right: string)
    ensures s == left + Strip(s, drop) + right && Only(left, drop) && Only(right, drop)
    ensures Stripped(Strip(s, drop), drop)
  {
    left := StripLeftPads(s, drop);
    right := StripRightPads(StripLeft(s, drop), drop);
    assert left + (Strip(s, drop) + right) == left + Strip(s, drop) + right;
    StripIsStripped(s, drop);
  }

  /** More padding makes no difference. */
  lemma StripAround(left: string, core: string, right: string, drop: char -> bool)
    requires Only(left, drop) && Only(right, drop)
    ensures Strip(left + core + right, drop) == Strip(core, drop)
  {
    var l, r := StripPads(core, drop);
    var c := Strip(core, drop);
    assert left + core + right == (left + l) + c + (r + right);
    StripPadded(left + l, c, r + right, drop);
  }

  /** An end that is not to be dropped stays the end. */
  lemma StripKeepsEnds(s: string, drop: char -> bool)
    requires s != ""
    ensures !drop(s[0]) ==> Strip(s, drop) != "" && Strip(s, drop)[0] == s[0]
    ensures !drop(s[|s| - 1]) ==> Strip(s, drop) != "" && Strip(s, drop)[|Strip(s, drop)| - 1] == s[|s| - 1]
  {
    var left, right := StripPads(s, drop);
    var c := Strip(s, drop);
    var n, r := |s| - 1, |right| - 1;
    assert left != "" ==> s[0] == left[0] && left[0] in left;
    assert left == "" ==> s == c + right;
    assert left == "" && c == "" ==> s[0] == right[0] && right[0] in right;
    assert right != "" ==> s[n] == right[r] && right[r] in right;
    assert right == "" ==> s == left + c;
    assert right == "" && c == "" ==> s[n] == left[n] && left[n] in left;
  }

  /** The characters `str.isspace` accepts, which `str.strip()` removes. */
  predicate IsSpace(c: char)
  {
    var n := c as int;
    9 <= n <= 13 || 28 <= n <= 32 || n in {0x85, 0xA0, 0x1680, 0x2028, 0x2029, 0x202F, 0x205F, 0x3000} ||
    0x2000 <= n <= 0x200A
  }

  function Trim(s: string): string
  {
    Strip(s, IsSpace)
  }

  predicate Trimmed(s: string)
  {
    Stripped(s, IsSpace)
  }

  lemma TrimOfTrimmed(s: string)
    requires Trimmed(s)
    ensures Trim(s) == s
  {
    StripPadded("", s, "", IsSpace);
    assert "" + s + "" == s;
  }

  // ----- upper case -----

  function UpperChar(c: char): char
  {
    if 'a' <= c <= 'z' then ((c as int) - 32) as char else c
  }

  function Upper(s: string): (r: string)
    ensures |r| == |s|
    ensures forall i :: 0 <= i < |s| ==> r[i] == UpperChar(s[i])
  {
    seq(|s|, i requires 0 <= i < |s| => UpperChar(s[i]))
  }

  /** The same letter but for its case, among A-Z and a-z, or the same character. */
  predicate SameLetter(c: char, d: char)
  {
    var m, n := c as int, d as int;
    m == n || (0x41 <= m <= 0x5A && n == m + 0x20) || (0x41 <= n <= 0x5A && m == n + 0x20)
  }

  predicate SameUpToCase(a: string, b: string)
  {
    |a| == |b| && forall i :: 0 <= i < |a| ==> SameLetter(a[i], b[i])
  }

  /** Upper case spells the text with no letter from a to z in it, and identifies exactly what differs in case only. */
  lemma UpperSpells(a: string, b: string)
    ensures SameUpToCase(a, Upper(a)) && forall i :: 0 <= i < |a| ==> !(0x61 <= Upper(a)[i] as int <= 0x7A)
    ensures Upper(a) == Upper(b) <==> SameUpToCase(a, b)
  {
    if Upper(a) == Upper(b) {
      assert |a| == |Upper(a)| == |b|;
      forall i | 0 <= i < |a| ensures SameLetter(a[i], b[i]) { assert Upper(a)[i] == Upper(b)[i]; }
    }
    if SameUpToCase(a, b) {
      forall i | 0 <= i < |a| ensures Upper(a)[i] == Upper(b)[i] { assert SameLetter(a[i], b[i]); }
    }
  }

  /** A text is its own upper case when every character is. */
  lemma UpperIff(s: string)
    ensures Upper(s) == s <==> Only(s, c => UpperChar(c) == c)
  {
    var keep := c => UpperChar(c) == c;
    if Upper(s) == s {
      forall c | c in s ensures keep(c) {
        var i :| 0 <= i < |s| && s[i] == c;
        assert Upper(s)[i] == UpperChar(s[i]);
      }
    }
    if Only(s, keep) {
      forall i | 0 <= i < |s| ensures Upper(s)[i] == s[i] {
        assert s[i] in s && keep(s[i]);
      }
    }
  }

  lemma UpperIdempotent(s: string)
    ensures Upper(Upper(s)) == Upper(s)
  {
  }
}
