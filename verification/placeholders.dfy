/** Placeholder discovery in default-language text (`{name}` tokens) and the
    formatting stage that turns each `{tag}` into a positional `%i$s`. */
module Placeholders {
  import opened Wrappers
  import opened Text

  /** `\s` of a Java regex without the Unicode flag. */
  predicate IsRegexSpace(c: char) {
    c == ' ' || c == '\t' || c == '\n' || c == '\U{000B}' || c == '\U{000C}' || c == '\r'
  }

  /** A character of the class `[^\s{}]`. */
  predicate IsNameChar(c: char) {
    !IsRegexSpace(c) && c != '{' && c != '}'
  }

  predicate IsName(n: string) {
    |n| > 0 && forall i :: 0 <= i < |n| ==> IsNameChar(n[i])
  }

  /** The end of the longest run of name characters starting at `from`. */
  function RunEnd(s: string, from: nat): (r: nat)
    requires from <= |s|
    ensures from <= r <= |s|
    ensures forall k :: from <= k < r ==> IsNameChar(s[k])
    ensures r < |s| ==> !IsNameChar(s[r])
    decreases |s| - from
  {
    if from < |s| && IsNameChar(s[from]) then RunEnd(s, from + 1) else from
  }

  /** The end (exclusive) of a `{name}` match of `[{]([^\s{}]+)}` starting at
      `p`. The greedy run cannot give back characters usefully, because a
      shorter run would be followed by a name character, not `}`. */
  function MatchAt(s: string, p: nat): (r: Option<nat>)
    requires p < |s|
    ensures r.Some? ==> p + 3 <= r.value <= |s| && s[p] == '{' && s[r.value - 1] == '}'
    ensures r.Some? ==> IsName(s[p + 1..r.value - 1])
  {
    if s[p] != '{' then None
    else
      var e := RunEnd(s, p + 1);
      if e > p + 1 && e < |s| && s[e] == '}' then Some(e + 1) else None
  }

  /** A match found by the scan: where it starts and the name inside. */
  datatype Token = Token(start: nat, name: string)

  /** The successive matches of the scanner from position `p`: after a match
      the search resumes at its end, otherwise one character further on. */
  function Scan(s: string, p: nat): (r: seq<Token>)
    requires p <= |s|
    ensures forall t :: t in r ==> p <= t.start <= |s|
    decreases |s| - p
  {
    if p == |s| then []
    else match MatchAt(s, p)
      case Some(e) => [Token(p, s[p + 1..e - 1])] + Scan(s, e)
      case None => Scan(s, p + 1)
  }

  /** Every token found is a `{name}` occurrence at its start. */
  lemma {:induction false} ScanSound(s: string, p: nat)
    requires p <= |s|
    ensures forall t :: t in Scan(s, p) ==> OccursAt(s, "{" + t.name + "}", t.start) && IsName(t.name)
    decreases |s| - p
  {
    if p < |s| {
      match MatchAt(s, p)
      case Some(e) =>
        ScanSound(s, e);
        var n := s[p + 1..e - 1];
        assert s[p..p + |"{" + n + "}"|] == "{" + n + "}";
      case None =>
        ScanSound(s, p + 1);
    }
  }

  /** The token is directly preceded by `$T` or `$MC`, so it is part of a
      reference and not a placeholder. */
  predicate AfterReference(s: string, start: nat)
    requires start <= |s|
  {
    (start >= 2 && s[start - 2..start] == "$T") || (start >= 3 && s[start - 3..start] == "$MC")
  }

  function Names(s: string, toks: seq<Token>): (r: seq<string>)
    requires forall t :: t in toks ==> t.start <= |s|
    ensures |r| <= |toks|
  {
    if toks == [] then []
    else if AfterReference(s, toks[0].start) then Names(s, toks[1..])
    else [toks[0].name] + Names(s, toks[1..])
  }

  /** The placeholder names of `s`, in order of appearance, repeats kept. */
  function FindPlaceholders(s: string): (r: seq<string>)
    ensures forall n :: n in r ==> IsName(n) && Contains(s, "{" + n + "}")
  {
    var toks := Scan(s, 0);
    ScanSound(s, 0);
    NamesSound(s, toks);
    Names(s, toks)
  }

  lemma {:induction false} NamesSound(s: string, toks: seq<Token>)
    requires forall t :: t in toks ==> OccursAt(s, "{" + t.name + "}", t.start) && IsName(t.name)
    ensures forall t :: t in toks ==> t.start <= |s|
    ensures forall n :: n in Names(s, toks) ==> IsName(n) && Contains(s, "{" + n + "}")
  {
    if toks != [] {
      NamesSound(s, toks[1..]);
      var t := toks[0];
      assert t.start <= |s|;
      IndexOfWitness(s, "{" + t.name + "}", t.start);
    }
  }

  /** `checkPlaceholders`: the names found are appended to the list as they
      are; a name already in the list is added again. */
  function CheckPlaceholders(list: seq<string>, s: string): (r: seq<string>)
    ensures |r| == |list| + |FindPlaceholders(s)|
    ensures r[..|list|] == list
    ensures forall n :: n in r[|list|..] ==> IsName(n) && Contains(s, "{" + n + "}")
  {
    var found := FindPlaceholders(s);
    assert (list + found)[|list|..] == found;
    list + found
  }

  // ----- Templates: text built from literal pieces and `{name}` tags -----

  datatype Piece = Lit(text: string) | Tag(name: string)

  function PieceText(p: Piece): string {
    match p
    case Lit(t) => t
    case Tag(n) => "{" + n + "}"
  }

  function Render(ps: seq<Piece>): string {
    if ps == [] then "" else PieceText(ps[0]) + Render(ps[1..])
  }

  function TagNames(ps: seq<Piece>): seq<string> {
    if ps == [] then []
    else if ps[0].Tag? then [ps[0].name] + TagNames(ps[1..])
    else TagNames(ps[1..])
  }

  /** Literal pieces open no brace and the text has no `$` at all, so nothing
      in it can look like a reference. */
  predicate PlainTemplate(ps: seq<Piece>) {
    forall i :: 0 <= i < |ps| ==>
      match ps[i]
      case Lit(t) => '{' !in t && '$' !in t
      case Tag(n) => IsName(n) && '$' !in n
  }

  lemma {:induction false} RenderNoDollar(ps: seq<Piece>)
    requires PlainTemplate(ps)
    ensures '$' !in Render(ps)
  {
    if ps != [] {
      assert PlainTemplate(ps[1..]) by {
        forall i | 0 <= i < |ps[1..]| ensures ps[1..][i] == ps[i + 1] {}
      }
      RenderNoDollar(ps[1..]);
      match ps[0]
      case Lit(t) =>
      case Tag(n) =>
        assert '$' !in n;
        assert '$' !in PieceText(ps[0]);
    }
  }

  lemma {:induction false} ScanSkipsLiteral(s: string, p: nat, t: string)
    requires p + |t| <= |s| && s[p..p + |t|] == t && '{' !in t
    ensures Scan(s, p) == Scan(s, p + |t|)
    decreases |t|
  {
    if |t| > 0 {
      SliceHeadTail(s, p, t);
      ScanSkipsChar(s, p);
      ScanSkipsLiteral(s, p + 1, t[1..]);
    }
  }

  lemma SliceHeadTail(s: string, p: nat, t: string)
    requires |t| > 0 && p + |t| <= |s| && s[p..p + |t|] == t
    ensures s[p] == t[0] && s[p + 1..p + |t|] == t[1..]
  {
    assert s[p] == s[p..p + |t|][0];
  }

  /** A character other than `{` starts no match. */
  lemma ScanSkipsChar(s: string, p: nat)
    requires p < |s| && s[p] != '{'
    ensures Scan(s, p) == Scan(s, p + 1)
  {
  }


  lemma ScanTakesTag(s: string, p: nat, n: string)
    requires IsName(n) && p + |n| + 2 <= |s| && s[p..p + |n| + 2] == "{" + n + "}"
    ensures Scan(s, p) == [Token(p, n)] + Scan(s, p + |n| + 2)
  {
    MatchTag(s, p, n);
    var e := p + |n| + 2;
    assert e - 1 == p + |n| + 1;
    assert s[p + 1..e - 1] == n;
  }

  lemma ScanTagNames(s: string, p: nat, n: string, e: nat, tail: seq<string>)
    requires IsName(n) && e == p + |n| + 2 && e <= |s| && s[p..e] == "{" + n + "}"
    requires TokenNames(Scan(s, e)) == tail
    ensures TokenNames(Scan(s, p)) == [n] + tail
  {
    ScanTakesTag(s, p, n);
    TokenNamesCons(Token(p, n), Scan(s, e));
  }

  lemma TokenNamesCons(x: Token, rest: seq<Token>)
    ensures TokenNames([x] + rest) == [x.name] + TokenNames(rest)
  {
    assert ([x] + rest)[1..] == rest;
  }

  lemma SliceConcat(s: string, p: nat, x: string, y: string)
    requires p <= |s| && s[p..] == x + y
    ensures p + |x| <= |s| && s[p..p + |x|] == x && s[p + |x|..] == y
  {
    assert s[p..][..|x|] == x;
    assert s[p..][|x|..] == y;
  }

  lemma PlainTail(ps: seq<Piece>)
    requires ps != [] && PlainTemplate(ps)
    ensures PlainTemplate(ps[1..])
  {
    forall i | 0 <= i < |ps[1..]| ensures ps[1..][i] == ps[i + 1] {}
  }

  lemma MatchTag(s: string, p: nat, n: string)
    requires IsName(n) && p + |n| + 2 <= |s| && s[p..p + |n| + 2] == "{" + n + "}"
    ensures MatchAt(s, p) == Some(p + |n| + 2)
    ensures s[p + 1..p + |n| + 1] == n
  {
    var tok := "{" + n + "}";
    var w := s[p..p + |n| + 2];
    assert w == tok;
    MiddleSlice("{", n, "}");
    SliceOfSlice(s, p, p + |n| + 2, 1, 1 + |n|);
    assert s[p] == w[0] == '{';
    assert s[p + 1 + |n|] == w[1 + |n|] == '}';
    var e := RunEnd(s, p + 1);
    assert e == p + 1 + |n|;
  }

  function TokenNames(toks: seq<Token>): seq<string> {
    if toks == [] then [] else [toks[0].name] + TokenNames(toks[1..])
  }

  /** Scanning the rendering of a plain template finds its tags in order. */
  lemma {:induction false} ScanRender(s: string, p: nat, ps: seq<Piece>)
    requires PlainTemplate(ps)
    requires p <= |s| && s[p..] == Render(ps)
    ensures TokenNames(Scan(s, p)) == TagNames(ps)
    decreases |ps|
  {
    if ps == [] {
      assert p == |s|;
    } else {
      var x := PieceText(ps[0]);
      SliceConcat(s, p, x, Render(ps[1..]));
      PlainTail(ps);
      ScanRender(s, p + |x|, ps[1..]);
      ScanRenderStep(s, p, ps);
    }
  }

  /** The first piece of a plain template: a literal adds no token, a tag
      adds its name. */
  lemma ScanRenderStep(s: string, p: nat, ps: seq<Piece>)
    requires ps != [] && PlainTemplate(ps)
    requires p + |PieceText(ps[0])| <= |s| && s[p..p + |PieceText(ps[0])|] == PieceText(ps[0])
    requires TokenNames(Scan(s, p + |PieceText(ps[0])|)) == TagNames(ps[1..])
    ensures TokenNames(Scan(s, p)) == TagNames(ps)
  {
    assert match ps[0]
      case Lit(t) => '{' !in t && '$' !in t
      case Tag(n) => IsName(n) && '$' !in n;
    match ps[0]
    case Lit(t) =>
      ScanLiteralStep(s, p, ps, t);
    case Tag(n) =>
      ScanTagStep(s, p, ps, n);
  }

  lemma ScanLiteralStep(s: string, p: nat, ps: seq<Piece>, t: string)
    requires ps != [] && ps[0] == Lit(t) && '{' !in t && '$' !in t
    requires p + |t| <= |s| && s[p..p + |t|] == t
    requires TokenNames(Scan(s, p + |t|)) == TagNames(ps[1..])
    ensures TokenNames(Scan(s, p)) == TagNames(ps)
  {
    ScanSkipsLiteral(s, p, t);
  }

  lemma ScanTagStep(s: string, p: nat, ps: seq<Piece>, n: string)
    requires ps != [] && ps[0] == Tag(n) && IsName(n)
    requires p + |n| + 2 <= |s| && s[p..p + |n| + 2] == "{" + n + "}"
    requires TokenNames(Scan(s, p + |n| + 2)) == TagNames(ps[1..])
    ensures TokenNames(Scan(s, p)) == TagNames(ps)
  {
    ScanTagNames(s, p, n, p + |n| + 2, TagNames(ps[1..]));
  }

  lemma {:induction false} NamesWithoutDollar(s: string, toks: seq<Token>)
    requires '$' !in s
    requires forall t :: t in toks ==> t.start <= |s|
    ensures Names(s, toks) == TokenNames(toks)
  {
    if toks != [] {
      assert toks[0] in toks;
      NotAfterReference(s, toks[0].start);
      NamesWithoutDollar(s, toks[1..]);
    }
  }

  lemma NotAfterReference(s: string, start: nat)
    requires '$' !in s && start <= |s|
    ensures !AfterReference(s, start)
  {
    if start >= 2 {
      assert s[start - 2] in s;
      assert s[start - 2..start][0] != "$T"[0];
    }
    if start >= 3 {
      assert s[start - 3] in s;
      assert s[start - 3..start][0] != "$MC"[0];
    }
  }

  /** The scan finds exactly the tags of a plain template, in order and with
      repeats: the discovery half of the template round trip. */
  lemma FindPlaceholdersOfTemplate(ps: seq<Piece>)
    requires PlainTemplate(ps)
    ensures FindPlaceholders(Render(ps)) == TagNames(ps)
  {
    var s := Render(ps);
    RenderNoDollar(ps);
    ScanRender(s, 0, ps);
    NamesWithoutDollar(s, Scan(s, 0));
  }

  /** A token right after `$T` or after `$MC` is a reference, not a
      placeholder. */
  lemma ReferencesAreNotPlaceholders()
    ensures FindPlaceholders("$T{a}") == []
    ensures FindPlaceholders("$MC{b}") == []
  {
    var s := "$T{a}";
    ScanTranslationReference();
    assert s[0..2] == "$T";
    assert AfterReference(s, 2);
    var m := "$MC{b}";
    ScanGameReference();
    assert m[0..3] == "$MC";
    assert AfterReference(m, 3);
  }

  lemma ScanTranslationReference()
    ensures Scan("$T{a}", 0) == [Token(2, "a")]
  {
    var s := "$T{a}";
    assert MatchAt(s, 0).None? && MatchAt(s, 1).None?;
    assert MatchAt(s, 2) == Some(5) by {
      assert s[4] == '}' && s[3] == 'a';
      assert RunEnd(s, 4) == 4;
      assert RunEnd(s, 3) == 4;
    }
    assert s[3..4] == "a";
    assert Scan(s, 5) == [];
    assert Scan(s, 2) == [Token(2, "a")];
    assert Scan(s, 0) == Scan(s, 1) == Scan(s, 2);
  }

  lemma ScanGameReference()
    ensures Scan("$MC{b}", 0) == [Token(3, "b")]
  {
    var m := "$MC{b}";
    assert MatchAt(m, 0).None? && MatchAt(m, 1).None? && MatchAt(m, 2).None?;
    assert MatchAt(m, 3) == Some(6) by {
      assert m[5] == '}' && m[4] == 'b';
      assert RunEnd(m, 5) == 5;
      assert RunEnd(m, 4) == 5;
    }
    assert m[4..5] == "b";
    assert Scan(m, 6) == [];
    assert Scan(m, 3) == [Token(3, "b")];
    assert Scan(m, 0) == Scan(m, 1) == Scan(m, 2) == Scan(m, 3);
  }

  // ----- Formatting: `{tag}` becomes `%i$s` -----

  /** The positional marker for the `i`-th placeholder (1-based). */
  function Marker(i: nat): (r: string)
    ensures '{' !in r && '$' in r
  {
    assert ("%" + NatToString(i) + "$s")[|NatToString(i)| + 1] == '$';
    "%" + NatToString(i) + "$s"
  }

  /** The formatting loop from the `i`-th placeholder on: each `{tag}` in
      turn is replaced everywhere by its marker. */
  function FormatFrom(s: string, tags: seq<string>, i: nat): string
    requires i <= |tags|
    decreases |tags| - i
  {
    if i == |tags| then s
    else FormatFrom(ReplaceAll(s, "{" + tags[i] + "}", Marker(i + 1)), tags, i + 1)
  }

  /** `replacePlaceholderTags` on one string. */
  function FormatPlaceholders(s: string, tags: seq<string>): (r: string)
    ensures tags == [] ==> r == s
  {
    FormatFrom(s, tags, 0)
  }

  /** Tags as their markers: a tag of the first `i` placeholders becomes its
      marker text, other tags stay. */
  function Partial(ps: seq<Piece>, tags: seq<string>, i: nat): (r: seq<Piece>)
    requires i <= |tags|
    ensures |r| == |ps|
  {
    if ps == [] then []
    else
      [Formatted(ps[0], tags, i)] + Partial(ps[1..], tags, i)
  }

  /** One piece after the first `i` placeholders are formatted. */
  function Formatted(p: Piece, tags: seq<string>, i: nat): Piece
    requires i <= |tags|
  {
    if p.Tag? && p.name in tags[..i] then Lit(Marker(FirstIndex(tags, p.name) + 1)) else p
  }

  function FirstIndex(tags: seq<string>, n: string): (r: nat)
    requires n in tags
    ensures r < |tags| && tags[r] == n
    ensures forall j :: 0 <= j < r ==> tags[j] != n
  {
    if tags[0] == n then 0 else 1 + FirstIndex(tags[1..], n)
  }

  /** Literal pieces open no brace; tags are names. */
  predicate BraceFree(ps: seq<Piece>) {
    forall i :: 0 <= i < |ps| ==>
      match ps[i]
      case Lit(t) => '{' !in t
      case Tag(n) => IsName(n)
  }

  /** A `{t}` can only start at the opening brace of a `{t}` tag. */
  lemma OtherTagNoMatch(n: string, t: string, b: string)
    requires IsName(n) && IsName(t) && n != t
    ensures |"{" + n + "}" + b| < |"{" + t + "}"| || ("{" + n + "}" + b)[..|"{" + t + "}"|] != "{" + t + "}"
  {
    var x := "{" + n + "}" + b;
    var tg := "{" + t + "}";
    if |x| >= |tg| {
      if |t| == |n| {
        assert x[..|tg|][1..1 + |n|] == n;
        assert tg[1..1 + |t|] == t;
      } else if |t| < |n| {
        assert x[..|tg|][|t| + 1] == n[|t|] != '}';
        assert tg[|t| + 1] == '}';
      } else {
        assert x[..|tg|][|n| + 1] == '}';
        assert tg[|n| + 1] == t[|n|] != '}';
      }
    }
  }

  /** Replacing `{t}` in a brace-free rendering rewrites exactly the `t`
      tags. */
  lemma {:induction false} ReplaceTagInRender(ps: seq<Piece>, t: string, r: string)
    requires BraceFree(ps) && IsName(t) && '{' !in r
    ensures ReplaceAll(Render(ps), "{" + t + "}", r) == Render(ReplaceTag(ps, t, r))
    decreases |ps|
  {
    if ps != [] {
      assert BraceFree(ps[1..]) by {
        forall i | 0 <= i < |ps[1..]| ensures ps[1..][i] == ps[i + 1] {}
      }
      ReplaceTagInRender(ps[1..], t, r);
      var q := if ps[0] == Tag(t) then Lit(r) else ps[0];
      assert ReplaceTag(ps, t, r) == [q] + ReplaceTag(ps[1..], t, r);
      assert Render(ReplaceTag(ps, t, r)) == PieceText(q) + Render(ReplaceTag(ps[1..], t, r));
      ReplacePiece(ps[0], Render(ps[1..]), t, r);
    }
  }

  /** One piece in front of the rest: `replace` rewrites it only if it is a
      `{t}` tag, and then carries on with the rest. */
  lemma ReplacePiece(p: Piece, rest: string, t: string, r: string)
    requires IsName(t) && '{' !in r
    requires p.Lit? ==> '{' !in p.text
    requires p.Tag? ==> IsName(p.name)
    ensures ReplaceAll(PieceText(p) + rest, "{" + t + "}", r)
         == PieceText(if p == Tag(t) then Lit(r) else p) + ReplaceAll(rest, "{" + t + "}", r)
  {
    var tg := "{" + t + "}";
    match p
    case Lit(x) =>
      ReplaceAllSkips(x, rest, tg, r);
    case Tag(n) =>
      if n == t {
        ReplaceAllHit(rest, tg, r);
      } else {
        OtherTagPasses(n, t, rest, r);
      }
  }

  lemma OtherTagPasses(n: string, t: string, rest: string, r: string)
    requires IsName(n) && IsName(t) && n != t
    ensures ReplaceAll("{" + n + "}" + rest, "{" + t + "}", r) == "{" + n + "}" + ReplaceAll(rest, "{" + t + "}", r)
  {
    var tg := "{" + t + "}";
    OtherTagNoMatch(n, t, rest);
    TagSplit(n, rest, ReplaceAll(rest, tg, r));
    ReplaceAllMiss("{" + n + "}" + rest, tg, r);
    NameThenCloseBraceFree(n);
    ReplaceAllSkips(n + "}", rest, tg, r);
  }

  /** A tag followed by more text is `{` followed by the name, `}` and that text. */
  lemma TagSplit(n: string, rest: string, x: string)
    ensures ("{" + n + "}" + rest)[0] == '{'
    ensures ("{" + n + "}" + rest)[1..] == (n + "}") + rest
    ensures ['{'] + ((n + "}") + x) == "{" + n + "}" + x
  {
  }

  lemma NameThenCloseBraceFree(n: string)
    requires IsName(n)
    ensures '{' !in n + "}"
  {
    assert forall k :: 0 <= k < |n| ==> n[k] != '{';
  }

  function ReplaceTag(ps: seq<Piece>, t: string, r: string): (q: seq<Piece>)
    ensures |q| == |ps|
  {
    if ps == [] then []
    else [if ps[0] == Tag(t) then Lit(r) else ps[0]] + ReplaceTag(ps[1..], t, r)
  }

  lemma {:induction false} PartialStep(ps: seq<Piece>, tags: seq<string>, i: nat)
    requires i < |tags|
    ensures ReplaceTag(Partial(ps, tags, i), tags[i], Marker(i + 1)) == Partial(ps, tags, i + 1)
    decreases |ps|
  {
    if ps != [] {
      PartialStep(ps[1..], tags, i);
      FormattedStep(ps[0], tags, i);
    }
  }

  lemma FormattedStep(p: Piece, tags: seq<string>, i: nat)
    requires i < |tags|
    ensures (if Formatted(p, tags, i) == Tag(tags[i]) then Lit(Marker(i + 1)) else Formatted(p, tags, i))
            == Formatted(p, tags, i + 1)
  {
    assert tags[..i + 1] == tags[..i] + [tags[i]];
    if p.Tag? && p.name == tags[i] && p.name !in tags[..i] {
      assert FirstIndex(tags, p.name) == i;
    }
  }

  lemma {:induction false} PartialBraceFree(ps: seq<Piece>, tags: seq<string>, i: nat)
    requires i <= |tags| && BraceFree(ps)
    ensures BraceFree(Partial(ps, tags, i))
    decreases |ps|
  {
    if ps != [] {
      assert BraceFree(ps[1..]) by {
        forall k | 0 <= k < |ps[1..]| ensures ps[1..][k] == ps[k + 1] {}
      }
      PartialBraceFree(ps[1..], tags, i);
      var r := Partial(ps, tags, i);
      forall k | 0 <= k < |r| ensures match r[k] case Lit(t) => '{' !in t case Tag(n) => IsName(n) {
        if k > 0 { assert r[k] == Partial(ps[1..], tags, i)[k - 1]; }
      }
    }
  }

  lemma {:induction false} FormatFromRender(ps: seq<Piece>, tags: seq<string>, i: nat)
    requires i <= |tags| && BraceFree(ps)
    requires forall k :: 0 <= k < |tags| ==> IsName(tags[k])
    ensures FormatFrom(Render(Partial(ps, tags, i)), tags, i) == Render(Partial(ps, tags, |tags|))
    decreases |tags| - i
  {
    if i < |tags| {
      PartialBraceFree(ps, tags, i);
      ReplaceTagInRender(Partial(ps, tags, i), tags[i], Marker(i + 1));
      PartialStep(ps, tags, i);
      FormatFromRender(ps, tags, i + 1);
    }
  }

  lemma {:induction false} PartialNone(ps: seq<Piece>, tags: seq<string>)
    ensures Partial(ps, tags, 0) == ps
    decreases |ps|
  {
    if ps != [] {
      PartialNone(ps[1..], tags);
    }
  }

  /** Formatting a rendered template turns every tag into the marker of its
      first position in the list, and touches nothing else; a name listed
      twice keeps the marker of its first listing. */
  lemma FormatTemplate(ps: seq<Piece>, tags: seq<string>)
    requires BraceFree(ps)
    requires forall k :: 0 <= k < |tags| ==> IsName(tags[k])
    ensures FormatPlaceholders(Render(ps), tags) == Render(Partial(ps, tags, |tags|))
  {
    PartialNone(ps, tags);
    FormatFromRender(ps, tags, 0);
  }

  /** Discovery followed by formatting: a message whose default text is a
      plain template comes out with `%1$s`, `%2$s`, … in place of its tags,
      numbered by where each name first occurs in the discovered list. */
  lemma DiscoverThenFormat(ps: seq<Piece>)
    requires PlainTemplate(ps)
    ensures FormatPlaceholders(Render(ps), FindPlaceholders(Render(ps))) == Render(Partial(ps, TagNames(ps), |TagNames(ps)|))
  {
    FindPlaceholdersOfTemplate(ps);
    PlainIsBraceFree(ps);
    TagNamesAreNames(ps);
    FormatTemplate(ps, TagNames(ps));
  }

  lemma PlainIsBraceFree(ps: seq<Piece>)
    requires PlainTemplate(ps)
    ensures BraceFree(ps)
  {
  }

  lemma {:induction false} TagNamesAreNames(ps: seq<Piece>)
    requires BraceFree(ps)
    ensures forall k :: 0 <= k < |TagNames(ps)| ==> IsName(TagNames(ps)[k])
    decreases |ps|
  {
    if ps != [] {
      assert BraceFree(ps[1..]) by {
        forall k | 0 <= k < |ps[1..]| ensures ps[1..][k] == ps[k + 1] {}
      }
      TagNamesAreNames(ps[1..]);
    }
  }

  /** The greeting example: "Hi {name}" declares one placeholder and formats
      to "Hi %1$s". */
  lemma GreetingExample()
    ensures FindPlaceholders("Hi {name}") == ["name"]
    ensures FormatPlaceholders("Hi {name}", ["name"]) == "Hi %1$s"
  {
    var ps := [Lit("Hi "), Tag("name")];
    GreetingRender(ps);
    GreetingPlain(ps);
    FindPlaceholdersOfTemplate(ps);
    FormatTemplate(ps, ["name"]);
    GreetingPartial(ps);
  }

  lemma GreetingRender(ps: seq<Piece>)
    requires ps == [Lit("Hi "), Tag("name")]
    ensures Render(ps) == "Hi {name}"
    ensures TagNames(ps) == ["name"]
  {
    assert ps[1..][1..] == [];
    assert Render(ps[1..]) == "{name}";
    assert TagNames(ps[1..]) == ["name"];
  }

  lemma GreetingPlain(ps: seq<Piece>)
    requires ps == [Lit("Hi "), Tag("name")]
    ensures PlainTemplate(ps) && BraceFree(ps)
  {
    assert IsName("name");
  }

  lemma GreetingPartial(ps: seq<Piece>)
    requires ps == [Lit("Hi "), Tag("name")]
    ensures Render(Partial(ps, ["name"], 1)) == "Hi %1$s"
  {
    var tags := ["name"];
    assert tags[..1] == tags;
    assert FirstIndex(tags, "name") == 0;
    assert ps[1..][1..] == [];
    assert Partial(ps[1..], tags, 1) == [Lit(Marker(1))];
    assert Partial(ps, tags, 1) == [Lit("Hi "), Lit(Marker(1))];
    assert NatToString(1) == "1";
    assert Marker(1) == "%1$s";
    var q := [Lit("Hi "), Lit(Marker(1))];
    assert q[1..][1..] == [];
    assert Render(q[1..]) == "%1$s";
  }
}
