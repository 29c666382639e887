/** Code point ranges for a Unicode category, and their two renderings (scripts/generate_unicode_category_tables.py). */
module UnicodeRanges {
  import opened Text

  type Range = (nat, nat)

  predicate Inside(x: int, r: Range) { r.0 <= x <= r.1 }

  predicate Covers(ranges: seq<Range>, x: int)
  {
    exists i :: 0 <= i < |ranges| && Inside(x, ranges[i])
  }

  /** Nonempty ranges in ascending order with a gap between any two. */
  predicate Canonical(ranges: seq<Range>)
  {
    && (forall i :: 0 <= i < |ranges| ==> ranges[i].0 <= ranges[i].1)
    && (forall i, j :: 0 <= i < j < |ranges| ==> ranges[i].1 + 1 < ranges[j].0)
  }

  ghost predicate Describes(ranges: seq<Range>, holds: int -> bool, until: int)
  {
    Canonical(ranges) && forall x :: Covers(ranges, x) <==> 0 <= x < until && holds(x)
  }

  lemma CoversSnoc(ranges: seq<Range>, r: Range, x: int)
    ensures Covers(ranges + [r], x) <==> Covers(ranges, x) || Inside(x, r)
  {
    var more := ranges + [r];
    if Covers(ranges, x) {
      var i :| 0 <= i < |ranges| && Inside(x, ranges[i]);
      assert Inside(x, more[i]);
    }
    if Inside(x, r) { assert Inside(x, more[|ranges|]); }
  }

  /** Closing an open range that holds everywhere from its start to the end of what has been read. */
  lemma CloseRange(ranges: seq<Range>, holds: int -> bool, start: nat, until: int)
    requires Describes(ranges, holds, start) && start < until
    requires forall x :: start <= x < until ==> holds(x)
    requires start == 0 || !holds(start - 1)
    ensures Describes(ranges + [(start, until - 1)], holds, until)
  {
    var more := ranges + [(start, until - 1)];
    forall x ensures Covers(more, x) <==> 0 <= x < until && holds(x) {
      CoversSnoc(ranges, (start, until - 1), x);
    }
    forall i | 0 <= i < |ranges| ensures ranges[i].1 + 1 < start {
      assert Inside(ranges[i].1, ranges[i]);
      assert Covers(ranges, ranges[i].1);
    }
  }

  lemma NothingRead(holds: int -> bool)
    ensures Describes([], holds, 0)
  {
  }

  lemma PassPoint(ranges: seq<Range>, holds: int -> bool, point: int)
    requires Describes(ranges, holds, point) && !holds(point)
    ensures Describes(ranges, holds, point + 1)
  {
  }

  /** Run-length encoding of the points up to `max` where the predicate holds. */
  method RangesFor(holds: int -> bool, max: nat) returns (ranges: seq<Range>)
    ensures Describes(ranges, holds, max + 1)
  {
    hide Describes;
    ranges := [];
    NothingRead(holds);
    var rangeStart: Option<nat> := None;
    var previous := -1;
    for codePoint := 0 to max + 1
      invariant match rangeStart
                case None => Describes(ranges, holds, codePoint) && (codePoint == 0 || !holds(codePoint - 1))
                case Some(s) =>
                  s < codePoint && previous == codePoint - 1 && Describes(ranges, holds, s) &&
                  (s == 0 || !holds(s - 1)) && forall x :: s <= x < codePoint ==> holds(x)
    {
      if holds(codePoint) {
        if rangeStart.None? {
          rangeStart := Some(codePoint);
        }
        previous := codePoint;
      } else if rangeStart.Some? {
        CloseRange(ranges, holds, rangeStart.value, codePoint);
        ranges := ranges + [(rangeStart.value, previous)];
        rangeStart := None;
        PassPoint(ranges, holds, codePoint);
      } else {
        PassPoint(ranges, holds, codePoint);
      }
    }
    if rangeStart.Some? {
      CloseRange(ranges, holds, rangeStart.value, max + 1);
      ranges := ranges + [(rangeStart.value, previous)];
    }
  }

  lemma CoversTail(ranges: seq<Range>, x: int)
    requires ranges != [] && Canonical(ranges)
    ensures Covers(ranges[1..], x) <==> Covers(ranges, x) && x > ranges[0].1
  {
    if Covers(ranges[1..], x) {
      var i :| 0 <= i < |ranges[1..]| && Inside(x, ranges[1..][i]);
      assert Inside(x, ranges[i + 1]);
    }
    if Covers(ranges, x) && x > ranges[0].1 {
      var i :| 0 <= i < |ranges| && Inside(x, ranges[i]);
      assert ranges[1..][i - 1] == ranges[i];
    }
  }

  /** The first range is determined by what the list covers. */
  lemma FirstRange(a: seq<Range>, b: seq<Range>)
    requires Canonical(a) && Canonical(b) && a != [] && b != []
    requires forall x :: Covers(a, x) <==> Covers(b, x)
    ensures a[0] == b[0]
  {
    assert Inside(a[0].0, a[0]) && Inside(b[0].0, b[0]);
    assert Covers(a, a[0].0) && Covers(b, b[0].0);
    NothingBefore(a, b[0].0);
    NothingBefore(b, a[0].0);
    var least := if a[0].1 < b[0].1 then a[0].1 + 1 else b[0].1 + 1;
    if a[0].1 != b[0].1 {
      if a[0].1 < b[0].1 {
        assert Inside(least, b[0]);
        NothingJustAfter(a);
      } else {
        assert Inside(least, a[0]);
        NothingJustAfter(b);
      }
    }
  }

  lemma NothingBefore(ranges: seq<Range>, x: int)
    requires Canonical(ranges) && Covers(ranges, x)
    ensures x >= ranges[0].0
  {
  }

  lemma NothingJustAfter(ranges: seq<Range>)
    requires Canonical(ranges) && ranges != []
    ensures !Covers(ranges, ranges[0].1 + 1)
  {
  }

  /** There is only one canonical list for a set of code points: the generated table is the table. */
  lemma {:induction false} CanonicalIsUnique(a: seq<Range>, b: seq<Range>)
    requires Canonical(a) && Canonical(b)
    requires forall x :: Covers(a, x) <==> Covers(b, x)
    ensures a == b
  {
    if a == [] || b == [] {
      if a != [] { assert Inside(a[0].0, a[0]); assert Covers(a, a[0].0); }
      if b != [] { assert Inside(b[0].0, b[0]); assert Covers(b, b[0].0); }
    } else {
      FirstRange(a, b);
      forall x ensures Covers(a[1..], x) <==> Covers(b[1..], x) {
        CoversTail(a, x);
        CoversTail(b, x);
      }
      CanonicalIsUnique(a[1..], b[1..]);
      assert a == [a[0]] + a[1..] && b == [b[0]] + b[1..];
    }
  }

  // ----- rendering -----

  datatype Style = Python | TypeScript {
    function Open(): string { match this case Python => "    (0x" case TypeScript => "  [0x" }
    function Close(): char { match this case Python => ')' case TypeScript => ']' }
    function Before(): string { match this case Python => "" case TypeScript => "export const " }
    function After(): string
    {
      match this
      case Python => ": tuple[tuple[int, int], ...] = ("
      case TypeScript => ": ReadonlyArray<" + "readonly [number, number]> = ["
    }
    function First(name: string): string { Before() + name + After() }
    function Last(): string { match this case Python => ")" case TypeScript => "];" }
    function Letter(): int { match this case Python => 'A' as int case TypeScript => 'a' as int }
  }

  function Digit(d: int, style: Style): char
    requires 0 <= d < 16
  {
    if d < 10 then (d + 48) as char else (d - 10 + style.Letter()) as char
  }

  /** `{n:X}` or `{n:x}`. */
  function Hex(n: nat, style: Style): string
  {
    if n < 16 then [Digit(n, style)] else Hex(n / 16, style) + [Digit(n % 16, style)]
  }

  /** The digits of the two spellings. */
  lemma DigitTexts(d: int)
    requires 0 <= d < 16
    ensures Digit(d, Python) == "0123456789ABCDEF"[d] && Digit(d, TypeScript) == "0123456789abcdef"[d]
  {
  }

  function DigitValue(c: char): Option<nat>
  {
    if '0' <= c <= '9' then Some(c as int - 48)
    else if 'A' <= c <= 'F' then Some(c as int - 55)
    else if 'a' <= c <= 'f' then Some(c as int - 87)
    else None
  }

  function ReadHex(s: string): nat
  {
    if s == "" then 0
    else
      var d := DigitValue(s[|s| - 1]);
      16 * ReadHex(s[..|s| - 1]) + if d.Some? then d.value else 0
  }

  lemma {:induction false} HexReads(n: nat, style: Style)
    ensures ReadHex(Hex(n, style)) == n
    ensures forall i :: 0 <= i < |Hex(n, style)| ==> DigitValue(Hex(n, style)[i]).Some?
  {
    if n < 16 {
      assert [Digit(n, style)][..0] == "";
    } else {
      HexReads(n / 16, style);
      var s := Hex(n, style);
      assert s[..|s| - 1] == Hex(n / 16, style);
    }
  }

  function Line(r: Range, style: Style): string
  {
    style.Open() + Hex(r.0, style) + ", 0x" + Hex(r.1, style) + [style.Close(), ',']
  }

  function Lines(ranges: seq<Range>, style: Style): (r: seq<string>)
    ensures |r| == |ranges| && forall i :: 0 <= i < |r| ==> r[i] == Line(ranges[i], style)
  {
    seq(|ranges|, i requires 0 <= i < |ranges| => Line(ranges[i], style))
  }

  /** The lines of the table, joined. */
  function Render(name: string, ranges: seq<Range>, style: Style): string
  {
    Join([style.First(name)] + Lines(ranges, style) + [style.Last()], "\n")
  }

  /** The lines written out, as the two languages read them. */
  lemma LineTexts(r: Range)
    ensures Line(r, Python) == "    (0x" + Hex(r.0, Python) + ", 0x" + Hex(r.1, Python) + "),"
    ensures Line(r, TypeScript) == "  [0x" + Hex(r.0, TypeScript) + ", 0x" + Hex(r.1, TypeScript) + "],"
  {
    assert [')', ','] == "),"  && [']', ','] == "],";
  }

  /** And the tables: a declaration, a line for each range, and the closing bracket. */
  lemma TableTexts(name: string, ranges: seq<Range>)
    ensures Render(name, ranges, Python) ==
            Join([name + ": tuple[tuple[int, int], ...] = ("] + Lines(ranges, Python) + [")"], "\n")
    ensures Render(name, ranges, TypeScript) ==
            Join(["export const " + name + ": ReadonlyArray<readonly [number, number]> = ["] + Lines(ranges, TypeScript) + ["];"], "\n")
  {
    assert "" + name == name;
    assert ": ReadonlyArray<readonly [number, number]> = [" == ": ReadonlyArray<" + "readonly [number, number]> = [";
    assert "export const " + name + ": ReadonlyArray<readonly [number, number]> = [" == TypeScript.First(name);
    assert name + ": tuple[tuple[int, int], ...] = (" == Python.First(name);
  }

  function ReadLine(line: string, style: Style): Range
  {
    var s := if |style.Open()| <= |line| then line[|style.Open()|..] else "";
    var i := UpTo(s, ',');
    var t := if i + 4 <= |s| then s[i + 4..] else "";
    (ReadHex(s[..i]), ReadHex(t[..UpTo(t, style.Close())]))
  }

  function ReadLines(lines: seq<string>, style: Style): (r: seq<Range>)
    ensures |r| == |lines| && forall i :: 0 <= i < |r| ==> r[i] == ReadLine(lines[i], style)
  {
    seq(|lines|, i requires 0 <= i < |lines| => ReadLine(lines[i], style))
  }

  /** All lines but the first and the last. */
  function ReadTable(text: string, style: Style): seq<Range>
  {
    var lines := Plain('\n').Split(text, 0);
    if |lines| < 2 then [] else ReadLines(lines[1..|lines| - 1], style)
  }

  lemma DigitsOnly(s: string, c: char)
    requires forall i :: 0 <= i < |s| ==> DigitValue(s[i]).Some?
    requires DigitValue(c).None?
    ensures c !in s
  {
  }

  lemma HexIsClean(n: nat, style: Style)
    ensures ',' !in Hex(n, style) && '\n' !in Hex(n, style) && style.Close() !in Hex(n, style)
  {
    HexReads(n, style);
    DigitsOnly(Hex(n, style), ',');
    DigitsOnly(Hex(n, style), '\n');
    DigitsOnly(Hex(n, style), style.Close());
  }

  lemma SecondStarts(a: string, b: string, close: string)
    ensures var s := a + (", 0x" + b + close); s[..|a|] == a && |a| + 4 <= |s| && s[|a| + 4..] == b + close
    ensures (b + close)[..|b|] == b
  {
    assert a + (", 0x" + b + close) == (a + ", 0x") + (b + close) && |a + ", 0x"| == |a| + 4;
  }

  lemma LineReads(r: Range, style: Style)
    ensures ReadLine(Line(r, style), style) == r
  {
    hide Hex, ReadHex, UpTo, Style.Open, Style.Close;
    var a, b, close := Hex(r.0, style), Hex(r.1, style), [style.Close(), ','];
    HexReads(r.0, style);
    HexReads(r.1, style);
    HexIsClean(r.0, style);
    HexIsClean(r.1, style);
    var middle := ", 0x";
    var line, rest := Line(r, style), middle + b + close;
    assert line == style.Open() + (a + rest);
    assert line[|style.Open()|..] == a + rest;
    UpToOf(a, rest, ',');
    SecondStarts(a, b, close);
    UpToOf(b, close, style.Close());
  }

  lemma FramesHaveNoBreak(style: Style)
    ensures '\n' !in style.Open() && '\n' !in style.Last() && style.Close() != '\n'
  {
  }

  lemma BeforeHasNoBreak(style: Style)
    ensures '\n' !in style.Before()
  {
  }

  lemma AfterHasNoBreak(style: Style)
    ensures '\n' !in style.After()
  {
    if style == TypeScript {
      assert '\n' !in ": ReadonlyArray<" && '\n' !in "readonly [number, number]> = [";
    }
  }

  lemma FirstHasNoBreak(name: string, style: Style)
    requires '\n' !in name
    ensures '\n' !in style.First(name)
  {
    hide Style.Before, Style.After;
    BeforeHasNoBreak(style);
    AfterHasNoBreak(style);
  }

  lemma LineHasNoBreak(r: Range, style: Style)
    ensures '\n' !in Line(r, style)
  {
    hide Hex, Style.Open, Style.Close;
    HexIsClean(r.0, style);
    HexIsClean(r.1, style);
    FramesHaveNoBreak(style);
  }

  /** Either rendering reads back to the ranges it was made from. */
  lemma RenderedReadsBack(name: string, ranges: seq<Range>, style: Style)
    requires '\n' !in name
    ensures ReadTable(Render(name, ranges, style), style) == ranges
  {
    hide Line, ReadLine, Style.First, Style.Last, Join, Scanner.Split;
    var lines := [style.First(name)] + Lines(ranges, style) + [style.Last()];
    FirstHasNoBreak(name, style);
    FramesHaveNoBreak(style);
    forall i | 0 <= i < |ranges| ensures '\n' !in Line(ranges[i], style) { LineHasNoBreak(ranges[i], style); }
    PlainSplitOfJoin(lines, '\n');
    assert lines[1..|lines| - 1] == Lines(ranges, style);
    forall i | 0 <= i < |ranges| ensures ReadLine(Lines(ranges, style)[i], style) == ranges[i] {
      LineReads(ranges[i], style);
    }
  }
}
