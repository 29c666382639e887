/** SSM parameter names with `${...}` tokens in them, and who owns what they name (infra/scripts/ssm_refs_check.py). */
module SsmNames {
  import opened Text

  const PUBLIC := "/aws/service/"

  /** Whether a `${` starts at the front of the text. */
  predicate Opens(s: string)
  {
    |s| >= 2 && s[0] == '$' && s[1] == '{'
  }

  /** The length of the token at the front of the text, through its first `}`; 0 when there is none. */
  function TokenLength(s: string): (n: nat)
    ensures n <= |s| && (n > 0 ==> n > 2)
  {
    if Opens(s) && UpTo(s[2..], '}') < |s| - 2 then 3 + UpTo(s[2..], '}') else 0
  }

  /** `name.split("${", 1)[0]`: the length of the literal start. */
  function LiteralLength(s: string): (n: nat)
    ensures n <= |s| && (n < |s| ==> Opens(s[n..]))
  {
    if s == "" || Opens(s) then 0
    else
      assert s[1..][LiteralLength(s[1..])..] == s[1 + LiteralLength(s[1..])..];
      1 + LiteralLength(s[1..])
  }

  function Literal(s: string): string { s[..LiteralLength(s)] }

  predicate HasToken(s: string) { LiteralLength(s) < |s| }

  /** The first `${` of the name is closed, as in every name the reference pattern captures. */
  predicate Closed(s: string)
  {
    HasToken(s) ==> TokenLength(s[LiteralLength(s)..]) > 0
  }

  /** A leading slash is the same parameter as none. */
  function Slashed(s: string): string
  {
    if "/" <= s then s else "/" + s
  }

  predicate IsPublic(name: string) { PUBLIC <= Slashed(name) }

  /** `f` is `name` with every closed token replaced by some text, any text. */
  ghost predicate Resolves(name: string, f: string)
    decreases |name|
  {
    var n := LiteralLength(name);
    var k := TokenLength(name[n..]);
    if k == 0 then f == name
    else name[..n] <= f && exists j :: n <= j <= |f| && Resolves(name[n + k..], f[j..])
  }

  /** All tokens replaced by nothing. */
  function Blanked(name: string): string
    decreases |name|
  {
    var n := LiteralLength(name);
    var k := TokenLength(name[n..]);
    if k == 0 then name else name[..n] + Blanked(name[n + k..])
  }

  /** The first token replaced by `x`, the others by nothing. */
  function Filled(name: string, x: string): string
    requires HasToken(name) && Closed(name)
  {
    var n := LiteralLength(name);
    name[..n] + x + Blanked(name[n + TokenLength(name[n..])..])
  }

  lemma ResolvesStep(name: string, f: string, j: nat)
    requires HasToken(name) && Closed(name) && Literal(name) <= f && LiteralLength(name) <= j <= |f|
    requires Resolves(name[LiteralLength(name) + TokenLength(name[LiteralLength(name)..])..], f[j..])
    ensures Resolves(name, f)
  {
    hide LiteralLength, TokenLength;
  }

  lemma NoToken(name: string)
    requires TokenLength(name[LiteralLength(name)..]) == 0
    ensures Blanked(name) == name && Resolves(name, name)
  {
    hide LiteralLength, TokenLength;
  }

  lemma BlankedStep(name: string)
    requires HasToken(name) && Closed(name)
    ensures Blanked(name) == Literal(name) + Blanked(name[LiteralLength(name) + TokenLength(name[LiteralLength(name)..])..])
  {
    hide LiteralLength, TokenLength;
  }

  lemma {:induction false} BlankedResolves(name: string)
    ensures Resolves(name, Blanked(name))
    decreases |name|
  {
    hide LiteralLength, TokenLength, Resolves, Blanked;
    var n := LiteralLength(name);
    var k := TokenLength(name[n..]);
    if k == 0 {
      NoToken(name);
    } else {
      var rest := name[n + k..];
      BlankedResolves(rest);
      BlankedStep(name);
      assert Blanked(name)[n..] == Blanked(rest);
      ResolvesStep(name, Blanked(name), n);
    }
  }

  lemma FilledResolves(name: string, x: string)
    requires HasToken(name) && Closed(name)
    ensures Resolves(name, Filled(name, x)) && Literal(name) + x <= Filled(name, x)
  {
    hide LiteralLength, TokenLength, Resolves, Blanked;
    var n := LiteralLength(name);
    var k := TokenLength(name[n..]);
    BlankedResolves(name[n + k..]);
    assert Filled(name, x)[n + |x|..] == Blanked(name[n + k..]);
    ResolvesStep(name, Filled(name, x), n + |x|);
  }

  lemma ResolvedStartsLiterally(name: string, f: string)
    requires Resolves(name, f)
    ensures Literal(name) <= f
    ensures !HasToken(name) ==> f == name
  {
  }

  /** How the literal start of a name stands to the public prefix. */
  predicate Beyond(literal: string) { PUBLIC <= Slashed(literal) }

  predicate Before(literal: string) { Slashed(literal) <= PUBLIC && Slashed(literal) != PUBLIC }

  lemma SlashedExtends(literal: string, f: string)
    requires literal != "" && literal <= f
    ensures Slashed(literal) <= Slashed(f)
  {
    assert literal[0] == f[0];
  }

  lemma SlashedAppend(literal: string, x: string)
    requires literal != ""
    ensures Slashed(literal + x) == Slashed(literal) + x
  {
    assert (literal + x)[0] == literal[0];
    if !("/" <= literal) { assert "/" + (literal + x) == ("/" + literal) + x; }
  }

  /** Going on from a prefix with the rest of the text makes up the text. */
  lemma MadeUp(path: string, text: string, t: string)
    requires path <= text
    ensures text <= path + (text[|path|..] + t)
  {
    assert path + (text[|path|..] + t) == text + t;
  }

  /** Two ways to go on from a literal start that is still short of the public prefix. */
  lemma TwoWays(literal: string, t: string)
    requires literal != "" && Before(literal)
    ensures IsPublic(literal + (PUBLIC[|Slashed(literal)|..] + t)) && !IsPublic(literal + ("!" + t))
  {
    var path := Slashed(literal);
    SlashedAppend(literal, PUBLIC[|path|..] + t);
    MadeUp(path, PUBLIC, t);
    SlashedAppend(literal, "!" + t);
    assert (path + ("!" + t))[|path|] == '!';
    NoMarkInPublic(|path|);
  }

  lemma NoMarkInPublic(i: nat)
    requires i < |PUBLIC|
    ensures PUBLIC[i] != '!'
  {
  }

  lemma BothWays(name: string)
    requires HasToken(name) && Closed(name) && Literal(name) != "" && Before(Literal(name))
    ensures exists f :: Resolves(name, f) && IsPublic(f)
    ensures exists f :: Resolves(name, f) && !IsPublic(f)
  {
    hide Resolves, Filled, Slashed, Literal, IsPublic;
    var literal, rest := Literal(name), PUBLIC[|Slashed(Literal(name))|..];
    FilledResolves(name, rest);
    FilledResolves(name, "!");
    var t, u := Filled(name, rest)[|literal + rest|..], Filled(name, "!")[|literal + "!"|..];
    assert Filled(name, rest) == literal + (rest + t) && Filled(name, "!") == literal + ("!" + u);
    TwoWays(literal, t);
    TwoWays(literal, u);
  }

  /** Of two prefixes of a text one is a prefix of the other. */
  lemma Prefixes(a: string, b: string, whole: string)
    requires a <= whole && b <= whole
    ensures a <= b || b <= a
  {
    if |a| <= |b| { assert b[..|a|] == whole[..|a|] == a; } else { assert a[..|b|] == whole[..|b|] == b; }
  }

  lemma PrefixOfPrefix(a: string, b: string, whole: string)
    requires a <= b && b <= whole
    ensures a <= whole
  {
    assert whole[..|a|] == b[..|a|];
  }

  lemma AllOrNone(name: string, f: string)
    requires Literal(name) != "" && Resolves(name, f) && (!HasToken(name) || !Before(Literal(name)))
    ensures IsPublic(f) <==> Beyond(Literal(name))
  {
    hide Slashed, Resolves;
    ResolvedStartsLiterally(name, f);
    SlashedExtends(Literal(name), f);
    var path, whole := Slashed(Literal(name)), Slashed(f);
    if HasToken(name) {
      if IsPublic(f) { Prefixes(path, PUBLIC, whole); }
      if Beyond(Literal(name)) { PrefixOfPrefix(PUBLIC, path, whole); }
    } else {
      assert Literal(name) == name;
    }
  }

  // ----- the ARN form -----

  datatype Piece = Lit(text: string) | Field

  /** `^arn:F:ssm:F:F:parameter`, F being any one field. */
  const ARN: seq<Piece> := [Lit("arn:"), Field, Lit(":ssm:"), Field, Lit(":"), Field, Lit(":parameter")]

  /** A field of the gate's pattern: tokens, colons inside them included, and characters other than `:` and `$`. */
  function FieldLength(s: string): (n: nat)
    ensures n <= |s|
    decreases |s|
  {
    if s == "" || s[0] == ':' then 0
    else if s[0] == '$' then
      var k := TokenLength(s);
      if k == 0 then 0 else k + FieldLength(s[k..])
    else 1 + FieldLength(s[1..])
  }

  /** The fields and what follows the pattern. No field can give back characters: only `:` may follow one. */
  function Matched(s: string, pieces: seq<Piece>): Option<(seq<string>, string)>
  {
    if pieces == [] then Some(([], s))
    else match pieces[0]
      case Lit(x) => if x <= s then Matched(s[|x|..], pieces[1..]) else None
      case Field =>
        var n := FieldLength(s);
        match Matched(s[n..], pieces[1..])
        case Some((fields, rest)) => Some(([s[..n]] + fields, rest))
        case None => None
  }

  /** The public names written out: with the leading slash or without. */
  lemma PublicIff(name: string)
    ensures IsPublic(name) <==> "/aws/service/" <= name || "aws/service/" <= name
  {
    var bare := "aws/service/";
    assert bare[0] == 'a' && PUBLIC[0] == '/' && PUBLIC == "/" + bare;
    if "/" <= name {
      DifferentStart(bare, name);
    } else {
      if bare <= name { assert "/" + name == PUBLIC + name[|bare|..]; }
      if PUBLIC <= "/" + name { SlashOff(bare, name); }
      assert PUBLIC <= name ==> "/" <= name;
    }
  }

  lemma DifferentStart(a: string, b: string)
    requires a != "" && b != "" && a[0] != b[0]
    ensures !(a <= b)
  {
  }

  lemma SlashOff(a: string, b: string)
    requires "/" + a <= "/" + b
    ensures a <= b
  {
    assert ("/" + a)[1..] == a && ("/" + b)[1..] == b;
    assert ("/" + b)[..|a| + 1] == "/" + a;
    assert b[..|a|] == a;
  }

  datatype Owner = Public | Own | Unknown

  function NamePart(parameter: string): string
  {
    match Matched(parameter, ARN)
    case Some((_, rest)) => rest
    case None => parameter
  }

  /** The ARN account is the deploying account or none, or there is no ARN. */
  predicate OwnAccount(parameter: string)
  {
    match Matched(parameter, ARN)
    case Some((fields, _)) => |fields| > 2 && (fields[2] == "" || fields[2] == "${AWS::AccountId}")
    case None => true
  }

  const UNRESOLVED := "<unresolved:"

  /** The gate's verdict, branch by branch. */
  function Ownership(parameter: string): Owner
  {
    if UNRESOLVED <= parameter then Unknown
    else
      var name := NamePart(parameter);
      var literal := Literal(name);
      if literal == "" then Unknown
      else
        var path := Slashed(literal);
        if PUBLIC <= path then Public
        else if HasToken(name) && path <= PUBLIC then Unknown
        else if !OwnAccount(parameter) then Unknown
        else Own
  }

  /**
   * The verdict is exact for every later substitution of the tokens: `public` when every resolved
   * name is public, `own` when none is, and unknown for want of the token's value when some are and some are not.
   */
  lemma OwnershipIsExact(parameter: string)
    requires !(UNRESOLVED <= parameter) && Literal(NamePart(parameter)) != "" && Closed(NamePart(parameter))
    ensures var name := NamePart(parameter);
            && (Ownership(parameter) == Public <==> forall f :: Resolves(name, f) ==> IsPublic(f))
            && (Ownership(parameter) == Own <==> OwnAccount(parameter) && forall f :: Resolves(name, f) ==> !IsPublic(f))
            && (Ownership(parameter) == Unknown <==>
                  ((exists f :: Resolves(name, f) && IsPublic(f)) && (exists f :: Resolves(name, f) && !IsPublic(f))) ||
                  (!OwnAccount(parameter) && forall f :: Resolves(name, f) ==> !IsPublic(f)))
  {
    var name := NamePart(parameter);
    BlankedResolves(name);
    if HasToken(name) && Before(Literal(name)) {
      BothWays(name);
    } else {
      forall f | Resolves(name, f) ensures IsPublic(f) <==> Beyond(Literal(name)) { AllOrNone(name, f); }
    }
  }

  /** An `own` verdict is safe even for a name whose first `${` is never closed. */
  lemma OwnIsNeverPublic(parameter: string, f: string)
    requires Ownership(parameter) == Own && Resolves(NamePart(parameter), f)
    ensures !IsPublic(f)
  {
    AllOrNone(NamePart(parameter), f);
  }

  // ----- what the verdict overlooks -----

  /** The ARN pattern on a resolved name: no tokens are left, so a field is whatever comes before the next colon. */
  function PlainMatched(s: string, pieces: seq<Piece>): Option<string>
  {
    if pieces == [] then Some(s)
    else match pieces[0]
      case Lit(x) => if x <= s then PlainMatched(s[|x|..], pieces[1..]) else None
      case Field => PlainMatched(s[UpTo(s, ':')..], pieces[1..])
  }

  /** A resolved parameter, in either form, is one whose value AWS moves. */
  predicate PublicParameter(f: string)
  {
    match PlainMatched(f, ARN)
    case Some(rest) => rest != "" && IsPublic(rest)
    case None => IsPublic(f)
  }

  /** The literal text does not contradict the piece it begins with. */
  predicate Fits(literal: string, piece: Piece)
  {
    piece.Field? || literal <= piece.text || piece.text <= literal
  }

  /** What of the literal text is left after the piece. */
  function Left(literal: string, piece: Piece): string
  {
    match piece
    case Lit(x) => if |literal| <= |x| then "" else literal[|x|..]
    case Field => literal[UpTo(literal, ':')..]
  }

  /** What the literal text lacks to make up the piece. */
  function Gap(literal: string, piece: Piece): string
  {
    match piece
    case Lit(x) => if |literal| <= |x| then x[|literal|..] else ""
    case Field => ""
  }

  /** The literal text can still be the beginning of the ARN of a public parameter. */
  predicate MayStartPublicArn(literal: string, pieces: seq<Piece>)
    decreases |pieces|
  {
    if literal == "" then true
    else if pieces == [] then Beyond(literal) || Before(literal)
    else Fits(literal, pieces[0]) && MayStartPublicArn(Left(literal, pieces[0]), pieces[1..])
  }

  /** Every field is followed by a literal that begins with a colon. */
  predicate Delimited(pieces: seq<Piece>)
  {
    pieces == [] ||
    ((pieces[0].Field? ==> |pieces| > 1 && pieces[1].Lit? && ":" <= pieces[1].text) && Delimited(pieces[1..]))
  }

  /** Text that completes the literal to the ARN of a public parameter. */
  function Completion(literal: string, pieces: seq<Piece>): string
    requires MayStartPublicArn(literal, pieces)
    decreases |pieces|
  {
    if pieces == [] then
      if literal == "" then PUBLIC
      else if Beyond(literal) then ""
      else PUBLIC[|Slashed(literal)|..]
    else Gap(literal, pieces[0]) + Completion(Left(literal, pieces[0]), pieces[1..])
  }

  /** The plain pattern takes one piece: the literal text, what it lacks, and goes on with what is left. */
  lemma PieceMatched(literal: string, rest: string, pieces: seq<Piece>)
    requires pieces != [] && Fits(literal, pieces[0])
    requires pieces[0].Field? ==> ":" <= Left(literal, pieces[0]) + rest
    ensures PlainMatched(literal + Gap(literal, pieces[0]) + rest, pieces) ==
            PlainMatched(Left(literal, pieces[0]) + rest, pieces[1..])
  {
    var whole, after := literal + Gap(literal, pieces[0]) + rest, Left(literal, pieces[0]) + rest;
    match pieces[0]
    case Lit(x) =>
      assert whole == x + after;
      assert whole[|x|..] == after;
    case Field =>
      var field := literal[..UpTo(literal, ':')];
      assert whole == field + after;
      UpToOf(field, after, ':');
      assert whole[|field|..] == after;
  }

  lemma LastCompletes(literal: string, t: string)
    requires literal == "" || Beyond(literal) || Before(literal)
    ensures var r := literal + Completion(literal, []) + t; r != "" && IsPublic(r)
  {
    var x := Completion(literal, []);
    assert literal + x + t == literal + (x + t);
    if literal == "" {
      assert PUBLIC + t == "" + (PUBLIC + t);
      assert (PUBLIC + t)[..1] == "/";
    } else {
      SlashedAppend(literal, x + t);
      if Before(literal) && !Beyond(literal) { MadeUp(Slashed(literal), PUBLIC, t); }
    }
  }

  lemma {:induction false} CompletionCompletes(literal: string, pieces: seq<Piece>, t: string)
    requires MayStartPublicArn(literal, pieces) && Delimited(pieces)
    ensures var r := PlainMatched(literal + Completion(literal, pieces) + t, pieces);
            r.Some? && r.value != "" && IsPublic(r.value)
    decreases |pieces|
  {
    hide PlainMatched, UpTo, Fits, Left, Gap, Beyond, Before, IsPublic;
    if pieces == [] {
      LastCompletes(literal, t);
      NothingMatched(literal + Completion(literal, pieces) + t);
    } else {
      var left, gap := Left(literal, pieces[0]), Gap(literal, pieces[0]);
      EmptyFits(pieces[0]);
      assert MayStartPublicArn(left, pieces[1..]);
      var rest := Completion(left, pieces[1..]) + t;
      CompletionCompletes(left, pieces[1..], t);
      assert left + Completion(left, pieces[1..]) + t == left + rest;
      assert literal + Completion(literal, pieces) + t == literal + gap + rest;
      if pieces[0].Field? { ColonFirst(literal, pieces, t); }
      PieceMatched(literal, rest, pieces);
    }
  }

  lemma EmptyFits(piece: Piece)
    ensures Fits("", piece) && Left("", piece) == ""
  {
  }

  lemma ColonFirst(literal: string, pieces: seq<Piece>, t: string)
    requires |pieces| > 1 && MayStartPublicArn(Left(literal, pieces[0]), pieces[1..])
    requires pieces[0].Field? && pieces[1].Lit? && ":" <= pieces[1].text
    ensures ":" <= Left(literal, pieces[0]) + (Completion(Left(literal, pieces[0]), pieces[1..]) + t)
  {
    var left := Left(literal, pieces[0]);
    var after := left + (Completion(left, pieces[1..]) + t);
    if left == "" {
      assert pieces[1..][0] == pieces[1];
      assert Gap("", pieces[1]) == pieces[1].text[0..];
    }
    assert after[0] == ':';
    assert after[..1] == ":";
  }

  lemma NothingMatched(s: string)
    ensures PlainMatched(s, []) == Some(s)
  {
  }

  lemma {:induction false} CompletedMayStart(literal: string, pieces: seq<Piece>, f: string)
    requires literal <= f && PlainMatched(f, pieces).Some?
    requires PlainMatched(f, pieces).value != "" && IsPublic(PlainMatched(f, pieces).value)
    ensures MayStartPublicArn(literal, pieces)
    decreases |pieces|
  {
    hide Slashed, IsPublic, Beyond, Before, Fits, Left, UpTo, PlainMatched;
    if literal != "" {
      if pieces == [] {
        NothingMatched(f);
        PublicExtends(literal, f);
      } else {
        var rest := PieceTaken(literal, f, pieces);
        CompletedMayStart(Left(literal, pieces[0]), pieces[1..], rest);
      }
    }
  }

  /** What the plain pattern takes off a text, it takes off its literal start. */
  lemma PieceTaken(literal: string, f: string, pieces: seq<Piece>) returns (rest: string)
    requires literal <= f && pieces != [] && PlainMatched(f, pieces).Some?
    ensures Fits(literal, pieces[0]) && Left(literal, pieces[0]) <= rest
    ensures PlainMatched(f, pieces) == PlainMatched(rest, pieces[1..])
  {
    match pieces[0]
    case Lit(x) =>
      rest := f[|x|..];
      Prefixes(literal, x, f);
    case Field =>
      rest := f[UpTo(f, ':')..];
      var n := UpTo(literal, ':');
      if n < |literal| {
        assert f == literal[..n] + f[n..] && f[n] == literal[n];
        UpToOf(literal[..n], f[n..], ':');
      }
  }

  /** The literal start of a public name is short of the public prefix or beyond it. */
  lemma PublicExtends(literal: string, f: string)
    requires literal != "" && literal <= f && IsPublic(f)
    ensures Beyond(literal) || Before(literal)
  {
    SlashedExtends(literal, f);
    Prefixes(Slashed(literal), PUBLIC, Slashed(f));
  }

  /** What a caller can check of a name to know whether some substitution makes it a public parameter. */
  predicate MayTurnPublic(parameter: string)
  {
    if HasToken(parameter) && Closed(parameter) then MayStartPublicArn(Literal(parameter), ARN)
    else PublicParameter(parameter)
  }

  /**
   * The gate's promise is that an `own` parameter never becomes a public one. It is kept, in ARN form or
   * not, exactly when the literal start of the name cannot begin a public parameter's ARN; a name without
   * a closed token stays what it is.
   */
  lemma OwnCanTurnPublicIff(parameter: string)
    requires Ownership(parameter) == Own
    ensures (exists f :: Resolves(parameter, f) && PublicParameter(f)) <==> MayTurnPublic(parameter)
  {
    hide MayStartPublicArn, Resolves, Completion, Literal, LiteralLength, TokenLength, PublicParameter, Ownership;
    if HasToken(parameter) && Closed(parameter) {
      if MayStartPublicArn(Literal(parameter), ARN) {
        CompletedToPublic(parameter);
      }
      if exists f :: Resolves(parameter, f) && PublicParameter(f) {
        var f :| Resolves(parameter, f) && PublicParameter(f);
        OwnMayStart(parameter, f);
      }
    } else {
      StaysAsItIs(parameter);
    }
  }

  /** Without a closed token at the front there is nothing to substitute. */
  lemma StaysAsItIs(parameter: string)
    requires !HasToken(parameter) || !Closed(parameter)
    ensures forall f :: Resolves(parameter, f) <==> f == parameter
  {
    hide LiteralLength, Opens;
    var n := LiteralLength(parameter);
    if n == |parameter| { assert parameter[n..] == ""; assert TokenLength("") == 0 by { NothingOpens(); } }
  }

  lemma NothingOpens()
    ensures TokenLength("") == 0
  {
  }

  /** A name that resolves to a public parameter does so as an ARN, and its literal start is the start of one. */
  lemma OwnMayStart(parameter: string, f: string)
    requires Ownership(parameter) == Own && Resolves(parameter, f) && PublicParameter(f)
    ensures MayStartPublicArn(Literal(parameter), ARN)
  {
    hide MayStartPublicArn, Resolves, Literal, LiteralLength, TokenLength, Ownership, PlainMatched, IsPublic;
    ResolvedStartsLiterally(parameter, f);
    if PlainMatched(f, ARN).None? {
      if Matched(parameter, ARN).None? {
        OwnIsNeverPublic(parameter, f);
      } else {
        ArnStartsLiterally(parameter);
        ArnIsNoPath(f);
      }
    }
    CompletedMayStart(Literal(parameter), ARN, f);
  }

  lemma ArnStartsLiterally(parameter: string)
    requires Matched(parameter, ARN).Some?
    ensures "arn:" <= Literal(parameter)
  {
    hide TokenLength, FieldLength, LiteralLength;
    assert "arn:" <= parameter;
    LiteralBegins("arn:", parameter[4..]);
    assert parameter == "arn:" + parameter[4..];
  }

  /** Text without a dollar sign in front lengthens the literal start. */
  lemma {:induction false} LiteralGoesOn(a: string, b: string)
    requires '$' !in a
    ensures LiteralLength(a + b) == |a| + LiteralLength(b)
  {
    if a == "" {
      assert a + b == b;
    } else {
      assert a[0] in a && (a + b)[1..] == a[1..] + b;
      LiteralGoesOn(a[1..], b);
    }
  }

  lemma LiteralBegins(a: string, b: string)
    requires '$' !in a
    ensures Literal(a + b) == a + Literal(b)
  {
    hide LiteralLength;
    LiteralGoesOn(a, b);
    assert (a + b)[..|a| + LiteralLength(b)] == a + b[..LiteralLength(b)];
  }

  lemma ArnIsNoPath(f: string)
    requires "arn:" <= f
    ensures !IsPublic(f)
  {
    assert f[0] == 'a' && Slashed(f) == "/" + f && Slashed(f)[1] == 'a' && Slashed(f)[2] == 'r';
    assert PUBLIC[2] == 'w';
  }

  lemma CompletedToPublic(parameter: string)
    requires HasToken(parameter) && Closed(parameter) && MayStartPublicArn(Literal(parameter), ARN)
    ensures exists f :: Resolves(parameter, f) && PublicParameter(f)
  {
    hide MayStartPublicArn, Resolves, Completion, LiteralLength, TokenLength, PlainMatched;
    var x := Completion(Literal(parameter), ARN);
    var f := Filled(parameter, x);
    FilledResolves(parameter, x);
    ArnIsDelimited();
    var t := f[|Literal(parameter) + x|..];
    CompletionCompletes(Literal(parameter), ARN, t);
    assert f == Literal(parameter) + x + t;
  }

  lemma ArnIsDelimited()
    ensures Delimited(ARN)
  {
    assert ARN[1..] == [Field, Lit(":ssm:"), Field, Lit(":"), Field, Lit(":parameter")];
    assert ARN[1..][1..] == [Lit(":ssm:"), Field, Lit(":"), Field, Lit(":parameter")];
    assert ARN[1..][1..][1..] == [Field, Lit(":"), Field, Lit(":parameter")];
    assert ARN[1..][1..][1..][1..] == [Lit(":"), Field, Lit(":parameter")];
    assert ARN[1..][1..][1..][1..][1..] == [Field, Lit(":parameter")];
    assert ARN[1..][1..][1..][1..][1..][1..] == [Lit(":parameter")];
  }

  /** For one: a Fn::Sub name `ar${X}` is reported as the app's own, and `X` can make it a public parameter's ARN. */
  lemma OwnTurnsPublic()
    ensures Ownership("ar${X}") == Own
    ensures exists f :: Resolves("ar${X}", f) && PublicParameter(f)
  {
    ArIsOwn();
    assert Fits("ar", ARN[0]) && Left("ar", ARN[0]) == "";
    hide Ownership, Resolves, PublicParameter, Literal, HasToken, Closed;
    OwnCanTurnPublicIff("ar${X}");
  }

  lemma ArIsOwn()
    ensures Ownership("ar${X}") == Own && Literal("ar${X}") == "ar" && HasToken("ar${X}") && Closed("ar${X}")
  {
    hide TokenLength;
    var p, token := "ar${X}", "${X}";
    assert p == "ar" + token && token + "" == token && "${" + "X" + "}" == token && p[2..] == token;
    TokenAtFront("X", "");
    LiteralGoesOn("ar", token);
    LiteralBegins("ar", token);
    assert LiteralLength(token) == 0;
    assert p[2] == '$' && "arn:"[2] == 'n' && Matched(p, ARN).None?;
    assert p[0] == 'a' && UNRESOLVED[0] == '<';
    assert Slashed("ar") == "/ar" && "/ar"[2] == 'r' && PUBLIC[2] == 'w';
  }

  /** An ARN field as the gate's pattern takes it: all of the text before the next colon, and not more. */
  ghost predicate IsField(field: string)
  {
    forall s :: FieldLength(field + (":" + s)) == |field|
  }

  lemma {:induction false} PlainField(field: string, s: string)
    requires ':' !in field && '$' !in field
    ensures FieldLength(field + (":" + s)) == |field|
  {
    if field == "" {
      assert field + (":" + s) == ":" + s;
    } else {
      assert field[0] in field && (field + (":" + s))[1..] == field[1..] + (":" + s);
      PlainField(field[1..], s);
    }
  }

  lemma TokenField(x: string, s: string)
    requires '}' !in x
    ensures TokenLength("${" + x + "}" + s) == |x| + 3
    ensures FieldLength("${" + x + "}" + (":" + s)) == |x| + 3
  {
    TokenAtFront(x, s);
    TokenAtFront(x, ":" + s);
    var t := "${" + x + "}" + (":" + s);
    assert t[0] == '$' && t[|x| + 3..] == ":" + s;
    assert FieldLength(":" + s) == 0;
  }

  lemma TokenAtFront(x: string, s: string)
    requires '}' !in x
    ensures TokenLength("${" + x + "}" + s) == |x| + 3
  {
    var t := "${" + x + "}" + s;
    assert t[0] == '$' && t[1] == '{' && t[2..] == x + ("}" + s);
    UpToOf(x, "}" + s, '}');
  }

  lemma MatchedLit(x: string, s: string, pieces: seq<Piece>)
    requires pieces != [] && pieces[0] == Lit(x)
    ensures Matched(x + s, pieces) == Matched(s, pieces[1..])
  {
    assert (x + s)[|x|..] == s;
  }

  lemma MatchedField(field: string, s: string, pieces: seq<Piece>)
    requires pieces != [] && pieces[0] == Field && FieldLength(field + s) == |field|
    ensures Matched(field + s, pieces) ==
            match Matched(s, pieces[1..]) case Some((fields, rest)) => Some(([field] + fields, rest)) case None => None
  {
    assert (field + s)[|field|..] == s && (field + s)[..|field|] == field;
  }

  function Arn(partition: string, region: string, account: string, name: string): string
  {
    "arn:" + (partition + (":ssm:" + (region + (":" + (account + (":parameter" + name))))))
  }

  /** The pattern reads an ARN back into its three fields and the name. */
  lemma ArnMatched(partition: string, region: string, account: string, name: string)
    requires IsField(partition) && IsField(region) && IsField(account)
    ensures Matched(Arn(partition, region, account, name), ARN) == Some(([partition, region, account], name))
  {
    hide Matched, FieldLength, IsField;
    var s5 := ":parameter" + name;
    var s3 := ":" + (account + s5);
    var s1 := ":ssm:" + (region + s3);
    MatchedLit("arn:", partition + s1, ARN);
    FieldBefore(partition, s1);
    MatchedField(partition, s1, ARN[1..]);
    MatchedLit(":ssm:", region + s3, ARN[2..]);
    FieldBefore(region, s3);
    MatchedField(region, s3, ARN[3..]);
    MatchedLit(":", account + s5, ARN[4..]);
    FieldBefore(account, s5);
    MatchedField(account, s5, ARN[5..]);
    MatchedLit(":parameter", name, ARN[6..]);
    NothingLeft(name);
    ArnPieces();
    assert [account] + [] == [account] && [region] + [account] == [region, account];
    assert [partition] + [region, account] == [partition, region, account];
  }

  /** Of an ARN whose name is not public, the account decides: none or the deploying one is own, any other unknown. */
  lemma AccountDecides(partition: string, region: string, account: string, name: string)
    requires IsField(partition) && IsField(region) && IsField(account)
    requires Literal(name) != "" && !Beyond(Literal(name)) && (HasToken(name) ==> !Before(Literal(name)))
    ensures Ownership(Arn(partition, region, account, name)) ==
            if account == "" || account == "${AWS::AccountId}" then Own else Unknown
  {
    hide Matched, IsField, Literal, HasToken;
    var p := Arn(partition, region, account, name);
    ArnMatched(partition, region, account, name);
    assert p[0] == 'a' && UNRESOLVED[0] == '<';
  }

  /** A parameter without a usable default is never known. */
  lemma UnresolvedIsUnknown(id: string)
    ensures Ownership("<unresolved:" + id + ">") == Unknown
  {
    assert "<unresolved:" + id + ">" == UNRESOLVED + (id + ">");
  }

  /** Nothing else is taken for an ARN of a parameter. */
  lemma MatchedIsArn(s: string)
    requires Matched(s, ARN).Some?
    ensures var (fields, name) := Matched(s, ARN).value;
            |fields| == 3 && s == Arn(fields[0], fields[1], fields[2], name)
  {
    hide Matched, FieldLength;
    ArnPieces();
    TakesLit("arn:", s, ARN);
    var s1 := s[4..];
    TakesField(s1, ARN[1..]);
    var s2 := s1[FieldLength(s1)..];
    TakesLit(":ssm:", s2, ARN[2..]);
    var s3 := s2[5..];
    TakesField(s3, ARN[3..]);
    var s4 := s3[FieldLength(s3)..];
    TakesLit(":", s4, ARN[4..]);
    var s5 := s4[1..];
    TakesField(s5, ARN[5..]);
    var s6 := s5[FieldLength(s5)..];
    TakesLit(":parameter", s6, ARN[6..]);
    NothingLeft(s6[10..]);
  }

  /** A text that does not begin with an a is no ARN. */
  lemma NoArn(s: string)
    requires s == "" || s[0] != 'a'
    ensures Matched(s, ARN).None?
  {
    hide FieldLength;
    assert "arn:"[0] == 'a';
  }

  lemma TakesLit(x: string, s: string, pieces: seq<Piece>)
    requires pieces != [] && pieces[0] == Lit(x) && Matched(s, pieces).Some?
    ensures x <= s && s == x + s[|x|..] && Matched(s, pieces) == Matched(s[|x|..], pieces[1..])
  {
  }

  lemma TakesField(s: string, pieces: seq<Piece>)
    requires pieces != [] && pieces[0] == Field && Matched(s, pieces).Some?
    ensures var n := FieldLength(s);
            s == s[..n] + s[n..] && Matched(s[n..], pieces[1..]).Some? &&
            Matched(s, pieces).value == ([s[..n]] + Matched(s[n..], pieces[1..]).value.0, Matched(s[n..], pieces[1..]).value.1)
  {
  }

  /** A dollar sign that opens no closed token ends a field, and so does a colon. */
  lemma FieldStops(s: string)
    requires s != "" && (s[0] == ':' || (s[0] == '$' && TokenLength(s) == 0))
    ensures FieldLength(s) == 0
  {
  }

  lemma FieldBefore(field: string, s: string)
    requires IsField(field) && ":" <= s
    ensures FieldLength(field + s) == |field|
  {
    assert s == ":" + s[1..];
  }

  lemma NothingLeft(s: string)
    ensures Matched(s, []) == Some(([], s))
  {
  }

  lemma ArnPieces()
    ensures ARN[1..][1..] == ARN[2..] && ARN[2..][1..] == ARN[3..] && ARN[3..][1..] == ARN[4..]
    ensures ARN[4..][1..] == ARN[5..] && ARN[5..][1..] == ARN[6..] && ARN[6..][1..] == []
  {
  }

  lemma TokenArn(x: string, region: string, name: string)
    requires '}' !in x && ':' !in region && '$' !in region
    ensures var p := Arn("${" + x + "}", region, "", name);
            Matched(p, ARN) == Some((["${" + x + "}", region, ""], name)) &&
            HasToken(p) && Closed(p) && Literal(p) == "arn:"
  {
    hide Matched, FieldLength, TokenLength, LiteralLength, Literal, HasToken, Closed;
    var token := "${" + x + "}";
    forall s ensures FieldLength(token + (":" + s)) == |token| { TokenField(x, s); }
    forall s ensures FieldLength(region + (":" + s)) == |region| { PlainField(region, s); }
    forall s ensures FieldLength("" + (":" + s)) == 0 { PlainField("", s); }
    ArnMatched(token, region, "", name);
    TokenArnLiteral(x, ":ssm:" + (region + (":" + ("" + (":parameter" + name)))));
  }

  lemma TokenArnLiteral(x: string, rest: string)
    requires '}' !in x
    ensures var p := "arn:" + ("${" + x + "}" + rest); HasToken(p) && Closed(p) && Literal(p) == "arn:"
  {
    hide TokenLength;
    var token := "${" + x + "}";
    TokenAtFront(x, rest);
    LiteralGoesOn("arn:", token + rest);
    LiteralBegins("arn:", token + rest);
    assert LiteralLength(token + rest) == 0 && Literal(token + rest) == "";
    assert ("arn:" + (token + rest))[4..] == token + rest;
  }

  /**
   * And in ARN form: every own name after `arn:${x}:ssm:` is reported as the app's own, and the token, which
   * like any other may hold colons, can bring the whole ARN of a public parameter with it.
   */
  lemma OwnArnTurnsPublic(x: string, region: string, name: string)
    requires '}' !in x && ':' !in region && '$' !in region
    requires Literal(name) != "" && !Beyond(Literal(name)) && (HasToken(name) ==> !Before(Literal(name)))
    ensures var p := Arn("${" + x + "}", region, "", name);
            Ownership(p) == Own && exists f :: Resolves(p, f) && PublicParameter(f)
  {
    hide Matched, FieldLength, TokenLength, PublicParameter, Resolves, Literal, HasToken, Closed;
    var p := Arn("${" + x + "}", region, "", name);
    TokenArn(x, region, name);
    assert p[0] != UNRESOLVED[0];
    assert Ownership(p) == Own;
    assert Fits("arn:", ARN[0]) && Left("arn:", ARN[0]) == "";
    OwnCanTurnPublicIff(p);
  }
}
