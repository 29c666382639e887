/** Splitting a possibly schema-qualified SQL identifier (packages/vkg/translate-server.py). */
module SqlNames {
  import opened Text

  /** Cut at dots; the state is 1 inside double quotes and 0 outside. */
  const DOTS := Scanner('.', (st: int, c: char) => Toggle(st, c))

  function Quotes(s: string): nat
  {
    if s == "" then 0 else (if s[0] == '"' then 1 else 0) + Quotes(s[1..])
  }

  /** Every dot of the piece has an odd number of quotes before it: it sits inside a quoted stretch. */
  ghost predicate DotsQuoted(s: string)
  {
    forall i :: 0 <= i < |s| && s[i] == '.' ==> Quotes(s[..i]) % 2 == 1
  }

  /** The pieces of a split name: no piece has an unquoted dot, and only the last may leave a quote open. */
  ghost predicate IdentifierParts(parts: seq<string>)
  {
    && parts != []
    && (forall i :: 0 <= i < |parts| ==> DotsQuoted(parts[i]))
    && (forall i :: 0 <= i < |parts| - 1 ==> Quotes(parts[i]) % 2 == 0)
  }

  function Toggle(st: int, c: char): int
  {
    if c == '"' then 1 - st else st
  }

  lemma {:induction false} QuoteState(s: string, st: int)
    requires st == 0 || st == 1
    ensures DOTS.After(s, st) == (st + Quotes(s)) % 2
    decreases |s|
  {
    if s != "" { QuoteState(s[1..], Toggle(st, s[0])); }
  }

  lemma UncutIsDotsQuoted(s: string)
    ensures DOTS.Uncut(s, 0) <==> DotsQuoted(s)
  {
    DOTS.UncutIff(s, 0);
    forall i | 0 <= i < |s| ensures DOTS.After(s[..i], 0) == Quotes(s[..i]) % 2 { QuoteState(s[..i], 0); }
  }

  lemma {:induction false} WellCutIsIdentifierParts(parts: seq<string>)
    ensures DOTS.WellCut(parts, 0) <==> IdentifierParts(parts)
  {
    if parts != [] {
      QuoteState(parts[0], 0);
      UncutIsDotsQuoted(parts[0]);
      if |parts| > 1 {
        WellCutIsIdentifierParts(parts[1..]);
        assert forall i :: 1 <= i < |parts| ==> parts[i] == parts[1..][i - 1];
        assert forall i :: 0 <= i < |parts[1..]| ==> parts[1..][i] == parts[i + 1];
      }
    }
  }

  /** What is still to come of a split: the buffered text goes in front of the next piece. */
  ghost function Pending(name: string, i: nat, buf: string, inQuotes: bool): seq<string>
    requires i <= |name|
  {
    OntoFirst(buf, DOTS.Split(name[i..], if inQuotes then 1 else 0))
  }

  lemma PendingStep(name: string, i: nat, buf: string, inQuotes: bool)
    requires i < |name|
    ensures Pending(name, i, buf, inQuotes) ==
            if name[i] == '.' && !inQuotes then [buf] + Pending(name, i + 1, "", false)
            else Pending(name, i + 1, buf + [name[i]], if name[i] == '"' then !inQuotes else inQuotes)
  {
    DOTS.SplitStep(name, if inQuotes then 1 else 0, i, buf);
    OntoNothing(DOTS.Split(name[i + 1..], 0));
  }

  lemma PendingEnds(name: string, buf: string, inQuotes: bool)
    ensures Pending(name, 0, "", false) == DOTS.Split(name, 0)
    ensures Pending(name, |name|, buf, inQuotes) == [buf]
  {
    OntoNothing(DOTS.Split(name, 0));
    assert name[0..] == name && name[|name|..] == "" && buf + "" == buf;
  }

  /** The split is specified without scanning: no other list joins back to the name with every dot in quotes. */
  lemma SplitIsUnique(name: string, parts: seq<string>)
    ensures parts == DOTS.Split(name, 0) <==> Join(parts, ".") == name && IdentifierParts(parts)
  {
    DOTS.SplitIff(name, parts);
    WellCutIsIdentifierParts(parts);
  }

  /**
   * The hand-written loop, with its escape branch for a doubled quote. It returns the one list of
   * pieces that joins back to `name` and has dots only inside quotes.
   */
  method SplitSqlQualified(name: string) returns (parts: seq<string>)
    ensures parts == DOTS.Split(name, 0)
    ensures Join(parts, ".") == name && IdentifierParts(parts)
  {
    parts := [];
    var buf := "";
    var inQuotes := false;
    var i := 0;
    PendingEnds(name, buf, inQuotes);
    while i < |name|
      invariant 0 <= i <= |name|
      invariant DOTS.Split(name, 0) == parts + Pending(name, i, buf, inQuotes)
    {
      var ch := name[i];
      PendingStep(name, i, buf, inQuotes);
      if ch == '"' {
        if inQuotes && i + 1 < |name| && name[i + 1] == '"' {
          PendingStep(name, i + 1, buf + [ch], false);
          assert buf + [ch] + [name[i + 1]] == buf + "\"\"";
          buf := buf + "\"\"";
          i := i + 2;
          continue;
        }
        inQuotes := !inQuotes;
        buf := buf + [ch];
      } else if ch == '.' && !inQuotes {
        parts := parts + [buf];
        buf := "";
      } else {
        buf := buf + [ch];
      }
      i := i + 1;
    }
    PendingEnds(name, buf, inQuotes);
    parts := parts + [buf];
    SplitIsUnique(name, parts);
  }

  // ----- quoting and splitting -----

  function DoubleQuotes(s: string): string
  {
    if s == "" then "" else (if s[0] == '"' then "\"\"" else [s[0]]) + DoubleQuotes(s[1..])
  }

  /** A SQL delimited identifier for an arbitrary name. */
  function Quoted(segment: string): string
  {
    "\"" + DoubleQuotes(segment) + "\""
  }

  function QuotedAll(segments: seq<string>): (r: seq<string>)
    ensures |r| == |segments|
    ensures forall i :: 0 <= i < |r| ==> r[i] == Quoted(segments[i])
  {
    seq(|segments|, i requires 0 <= i < |segments| => Quoted(segments[i]))
  }

  lemma {:induction false} DoubledStaysInside(s: string)
    ensures DOTS.Uncut(DoubleQuotes(s), 1) && DOTS.After(DoubleQuotes(s), 1) == 1
  {
    if s != "" {
      DoubledStaysInside(s[1..]);
      var head := if s[0] == '"' then "\"\"" else [s[0]];
      assert head[1..] == if s[0] == '"' then "\"" else "";
      if s[0] == '"' { assert head[1..][1..] == ""; }
      DOTS.UncutConcat(head, DoubleQuotes(s[1..]), 1);
    }
  }

  lemma QuotedIsUncut(segment: string)
    ensures DOTS.Uncut(Quoted(segment), 0) && DOTS.After(Quoted(segment), 0) == 0
  {
    var open, inner, close := "\"", DoubleQuotes(segment), "\"";
    DoubledStaysInside(segment);
    assert open[1..] == "";
    DOTS.UncutConcat(open, inner, 0);
    DOTS.UncutConcat(open + inner, close, 0);
  }

  /** Quoting arbitrary segments, dots and quotes included, then dot-joining loses nothing. */
  lemma QuoteJoinSplit(segments: seq<string>)
    requires segments != []
    ensures DOTS.Split(Join(QuotedAll(segments), "."), 0) == QuotedAll(segments)
  {
    var parts := QuotedAll(segments);
    forall i | 0 <= i < |parts|
      ensures DOTS.Uncut(parts[i], 0) && DOTS.After(parts[i], 0) == 0
    {
      QuotedIsUncut(segments[i]);
    }
    DOTS.WellCutFrom(parts);
    DOTS.SplitOfWellCut(parts, 0);
  }

  /** `p.strip('"')`. */
  function Unquoted(part: string): string
  {
    Strip(part, c => c == '"')
  }

  /** Stripping takes off the quotes at both ends, however many, and nothing else. */
  lemma UnquotedOf(left: string, core: string, right: string)
    requires (forall c :: c in left || c in right ==> c == '"')
    requires core != "" ==> core[0] != '"' && core[|core| - 1] != '"'
    ensures Unquoted(left + core + right) == core
  {
    StripPadded(left, core, right, c => c == '"');
  }

  /** A segment written without quotes and dots is uncut and leaves no quote open. */
  lemma {:induction false} BareIsUncut(segment: string)
    requires '"' !in segment && '.' !in segment
    ensures DOTS.Uncut(segment, 0) && DOTS.After(segment, 0) == 0
  {
    if segment != "" {
      assert segment[0] in segment;
      BareIsUncut(segment[1..]);
    }
  }

  /** Segments written without quotes are split as written, and stripping leaves them alone. */
  lemma BareJoinSplit(segments: seq<string>)
    requires segments != [] && forall i :: 0 <= i < |segments| ==> '"' !in segments[i] && '.' !in segments[i]
    ensures DOTS.Split(Join(segments, "."), 0) == segments
    ensures forall i :: 0 <= i < |segments| ==> Unquoted(segments[i]) == segments[i]
  {
    forall i | 0 <= i < |segments|
      ensures DOTS.Uncut(segments[i], 0) && DOTS.After(segments[i], 0) == 0 && Unquoted(segments[i]) == segments[i]
    {
      BareIsUncut(segments[i]);
      UnquotedOf("", segments[i], "");
      assert "" + segments[i] + "" == segments[i];
    }
    DOTS.WellCutFrom(segments);
    DOTS.SplitOfWellCut(segments, 0);
  }

  lemma {:induction false} NothingToDouble(s: string)
    requires '"' !in s
    ensures DoubleQuotes(s) == s
  {
    if s != "" {
      assert s == [s[0]] + s[1..];
      NothingToDouble(s[1..]);
    }
  }

  lemma {:induction false} DoubledGrows(s: string)
    ensures |DoubleQuotes(s)| >= |s| && ('"' in s ==> |DoubleQuotes(s)| > |s|)
    ensures s != "" ==> DoubleQuotes(s) != "" && DoubleQuotes(s)[0] == s[0]
    ensures s != "" ==> DoubleQuotes(s)[|DoubleQuotes(s)| - 1] == s[|s| - 1]
  {
    if s != "" {
      DoubledGrows(s[1..]);
      assert s == [s[0]] + s[1..];
    }
  }

  /** Stripping recovers a quoted segment exactly when there is no quote in it. */
  lemma UnquoteQuoted(segment: string)
    ensures Unquoted(Quoted(segment)) == segment <==> '"' !in segment
  {
    var drop := c => c == '"';
    if '"' !in segment {
      NothingToDouble(segment);
      StripPadded("\"", segment, "\"", drop);
    } else if Unquoted(Quoted(segment)) == segment {
      StripIsStripped(Quoted(segment), drop);
      DoubledGrows(segment);
      StripPadded("\"", DoubleQuotes(segment), "\"", drop);
      assert false;
    }
  }
}
