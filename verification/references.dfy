/** Cross-references inside a message, `$T{key}` and `$MC{code}`: the
    scanner for the lazy patterns `[$]T[{](.*?)}` and `[$]MC[{](.*?)}`, the
    splice that puts each resolved text in place of its reference, and the
    splice as the result builder performs it. */
module References {
  import opened Wrappers
  import opened Text
  import StringUtils

  /** The two reference openers. */
  const TranslationOpen: string := "$T{"
  const GameOpen: string := "$MC{"

  /** An opener starts with `$` and holds no `}` and no line terminator. */
  predicate ValidOpen(open: string) {
    |open| >= 1 && open[0] == '$' &&
    forall i :: 0 <= i < |open| ==> open[i] != '}' && !StringUtils.IsLineTerminator(open[i])
  }

  /** A match: the span `[start, end)` and the text between the opener and
      the closing brace. */
  datatype Ref = Ref(start: nat, end: nat, name: string)

  /** The match of `open(.*?)}` starting exactly at `p`, if any: the first
      `}` after the opener closes it, and no line terminator may come first. */
  function RefAt(s: string, open: string, p: nat): (r: Option<Ref>)
    requires p <= |s|
    ensures r.Some? ==> r.value.start == p && p + |open| < r.value.end <= |s|
    ensures r.Some? ==> r.value.end == p + |open| + |r.value.name| + 1
    ensures r.Some? ==> s[p..r.value.end] == open + r.value.name + "}"
    ensures r.Some? ==> '}' !in r.value.name
    ensures p + |open| > |s| || s[p..p + |open|] != open ==> r.None?
  {
    if p + |open| <= |s| && s[p..p + |open|] == open then
      match StringUtils.LazyClose(s, '}', p + |open|)
      case Some(e) =>
        var name := s[p + |open|..e];
        assert s[p..e + 1] == s[p..p + |open|] + name + [s[e]];
        Some(Ref(p, e + 1, name))
      case None => None
    else None
  }

  /** The spans are in order, do not overlap, and lie in `[pos, n)`. */
  predicate Ordered(refs: seq<Ref>, pos: nat, n: nat) {
    refs == [] ||
    (pos <= refs[0].start < refs[0].end <= n && Ordered(refs[1..], refs[0].end, n))
  }

  /** The successive matches from `p`: after a match the search resumes at
      its end, otherwise one character further on. */
  function Refs(s: string, open: string, p: nat): (r: seq<Ref>)
    requires p <= |s|
    ensures Ordered(r, p, |s|)
    decreases |s| - p
  {
    if p == |s| then []
    else match RefAt(s, open, p)
      case Some(x) => [x] + Refs(s, open, x.end)
      case None => Refs(s, open, p + 1)
  }

  /** Every span found is a match of the pattern. */
  lemma {:induction false} RefsAreMatches(s: string, open: string, p: nat)
    requires p <= |s|
    ensures forall x :: x in Refs(s, open, p) ==>
      p <= x.start < x.end <= |s| && s[x.start..x.end] == open + x.name + "}"
    decreases |s| - p
  {
    if p < |s| {
      match RefAt(s, open, p)
      case Some(y) => RefsAreMatches(s, open, y.end);
      case None => RefsAreMatches(s, open, p + 1);
    }
  }

  /** Text without the opener has no match. */
  lemma NoOpenerNoRefs(s: string, open: string)
    requires !Contains(s, open)
    ensures Refs(s, open, 0) == []
  {
    var r := Refs(s, open, 0);
    if r != [] {
      RefsAreMatches(s, open, 0);
      assert r[0] in r;
      var x := r[0];
      assert s[x.start..x.end][..|open|] == open;
      assert s[x.start..x.start + |open|] == open;
      IndexOfWitness(s, open, x.start);
    }
  }

  lemma {:induction false} OrderedInBounds(refs: seq<Ref>, pos: nat, n: nat)
    requires Ordered(refs, pos, n)
    ensures forall x :: x in refs ==> pos <= x.start < x.end <= n
    decreases |refs|
  {
    if refs != [] {
      OrderedInBounds(refs[1..], refs[0].end, n);
    }
  }

  lemma {:induction false} OrderedWeaken(refs: seq<Ref>, pos: nat, pos': nat, n: nat)
    requires pos' <= pos && Ordered(refs, pos, n)
    ensures Ordered(refs, pos', n)
  {
  }

  /** The text with each reference whose resolution is `Some` replaced by
      it, and everything else kept: the evident intent of the splice. */
  function Fill(s: string, refs: seq<Ref>, outs: seq<Option<string>>, pos: nat): (r: string)
    requires pos <= |s| && Ordered(refs, pos, |s|) && |outs| == |refs|
    decreases |refs|
  {
    if refs == [] then s[pos..]
    else
      s[pos..refs[0].start] +
      (if outs[0].Some? then outs[0].value else s[refs[0].start..refs[0].end]) +
      Fill(s, refs[1..], outs[1..], refs[0].end)
  }

  /** `StringBuilder.replace(start, end, text)`: fails when the start lies
      past the builder's length; an end past the length is cut to it. */
  function BuilderReplace(b: string, start: nat, end: nat, text: string): (r: Option<string>)
    requires start <= end
    ensures r.None? <==> start > |b|
    ensures r.Some? && end <= |b| ==> r.value == b[..start] + text + b[end..]
    ensures r.Some? && end > |b| ==> r.value == b[..start] + text
  {
    if start > |b| then None
    else if end > |b| then Some(b[..start] + text)
    else Some(b[..start] + text + b[end..])
  }

  /** The splice as the result builder performs it: for each reference to
      replace, the position is the first occurrence of the matched text in
      the ORIGINAL string `s`, but it is applied to the builder `b`, which
      earlier replacements may already have lengthened or shortened. */
  function SpliceAsWritten(b: string, s: string, refs: seq<Ref>, outs: seq<Option<string>>): (r: Option<string>)
    requires |outs| == |refs|
    requires forall x :: x in refs ==> x.start <= x.end <= |s|
    ensures (forall i :: 0 <= i < |outs| ==> outs[i].None?) ==> r == Some(b)
    ensures r.None? ==> exists i :: 0 <= i < |outs| && outs[i].Some?
    decreases |refs|
  {
    if refs == [] then Some(b)
    else if outs[0].None? then SpliceAsWritten(b, s, refs[1..], outs[1..])
    else
      var group := s[refs[0].start..refs[0].end];
      match IndexOf(s, group)
      case None => SpliceAsWritten(b, s, refs[1..], outs[1..])
      case Some(i) =>
        match BuilderReplace(b, i, i + |group|, outs[0].value)
        case None => None
        case Some(b') => SpliceAsWritten(b', s, refs[1..], outs[1..])
  }

  // ----- Properties of the intended splice -----

  /** With nothing to replace the text is unchanged. */
  lemma {:induction false} FillNothing(s: string, refs: seq<Ref>, outs: seq<Option<string>>, pos: nat)
    requires pos <= |s| && Ordered(refs, pos, |s|) && |outs| == |refs|
    requires forall i :: 0 <= i < |outs| ==> outs[i].None?
    ensures Fill(s, refs, outs, pos) == s[pos..]
    decreases |refs|
  {
    if refs != [] {
      FillNothing(s, refs[1..], outs[1..], refs[0].end);
      assert s[pos..refs[0].start] + s[refs[0].start..refs[0].end] + s[refs[0].end..] == s[pos..];
    }
  }

  /** When only the `i`-th reference is replaced, the result is the text
      with that one span replaced. */
  lemma {:induction false} FillOnly(s: string, refs: seq<Ref>, outs: seq<Option<string>>, pos: nat, i: nat)
    requires pos <= |s| && Ordered(refs, pos, |s|) && |outs| == |refs|
    requires i < |refs| && outs[i].Some?
    requires forall j :: 0 <= j < |outs| && j != i ==> outs[j].None?
    ensures pos <= refs[i].start <= refs[i].end <= |s|
    ensures Fill(s, refs, outs, pos) == s[pos..refs[i].start] + outs[i].value + s[refs[i].end..]
    decreases |refs|
  {
    NoneAfterFirst(outs, i);
    FillStep(s, refs, outs, pos);
    var tail := Fill(s, refs[1..], outs[1..], refs[0].end);
    if i == 0 {
      FillNothing(s, refs[1..], outs[1..], refs[0].end);
      assert tail == s[refs[0].end..];
    } else {
      assert refs[1..][i - 1] == refs[i] && outs[1..][i - 1] == outs[i];
      FillOnly(s, refs[1..], outs[1..], refs[0].end, i - 1);
      assert tail == s[refs[0].end..refs[i].start] + outs[i].value + s[refs[i].end..];
      SliceJoin(s, pos, refs[0].start, refs[0].end, refs[i].start);
    }
  }

  /** One step of `Fill`: the text before the first span, its replacement
      or the span itself, then the rest. */
  lemma FillStep(s: string, refs: seq<Ref>, outs: seq<Option<string>>, pos: nat)
    requires pos <= |s| && Ordered(refs, pos, |s|) && |outs| == |refs| && refs != []
    ensures pos <= refs[0].start < refs[0].end <= |s| && Ordered(refs[1..], refs[0].end, |s|)
    ensures Fill(s, refs, outs, pos)
         == s[pos..refs[0].start] + (if outs[0].Some? then outs[0].value else s[refs[0].start..refs[0].end])
            + Fill(s, refs[1..], outs[1..], refs[0].end)
  {
  }

  /** The resolutions after the first keep every `None` but the `i`-th. */
  lemma NoneAfterFirst(outs: seq<Option<string>>, i: nat)
    requires i < |outs| && forall j :: 0 <= j < |outs| && j != i ==> outs[j].None?
    ensures i > 0 ==> outs[0].None?
    ensures i == 0 ==> forall j :: 0 <= j < |outs[1..]| ==> outs[1..][j].None?
    ensures i > 0 ==> forall j :: 0 <= j < |outs[1..]| && j != i - 1 ==> outs[1..][j].None?
  {
    forall j | 0 <= j < |outs[1..]| ensures outs[1..][j] == outs[j + 1] {}
  }

  /** As written, references that are all skipped leave the builder alone. */
  lemma {:induction false} AsWrittenSkips(b: string, s: string, refs: seq<Ref>, outs: seq<Option<string>>)
    requires |outs| == |refs| && forall x :: x in refs ==> x.start <= x.end <= |s|
    requires forall j :: 0 <= j < |outs| ==> outs[j].None?
    ensures SpliceAsWritten(b, s, refs, outs) == Some(b)
    decreases |refs|
  {
    if refs != [] {
      AsWrittenSkips(b, s, refs[1..], outs[1..]);
    }
  }

  /** The first occurrence of `t` is at `i`. */
  lemma {:induction false} IndexOfIs(s: string, t: string, i: nat)
    requires OccursAt(s, t, i)
    requires forall j: nat :: j < i ==> !OccursAt(s, t, j)
    ensures IndexOf(s, t) == Some(i)
  {
    IndexOfWitness(s, t, i);
  }

  /** With a single reference to replace, whose text does not occur earlier,
      the builder's splice agrees with the intended one. */
  lemma {:induction false} AsWrittenAgreesOnOne(s: string, refs: seq<Ref>, outs: seq<Option<string>>, i: nat)
    requires Ordered(refs, 0, |s|) && |outs| == |refs|
    requires forall x :: x in refs ==> x.start <= x.end <= |s|
    requires i < |refs| && outs[i].Some?
    requires forall j :: 0 <= j < |outs| && j != i ==> outs[j].None?
    requires IndexOf(s, s[refs[i].start..refs[i].end]) == Some(refs[i].start)
    ensures SpliceAsWritten(s, s, refs, outs) == Some(Fill(s, refs, outs, 0))
  {
    FillOnly(s, refs, outs, 0, i);
    AsWrittenStep(s, s, refs, outs, i);
  }

  lemma {:induction false} AsWrittenStep(b: string, s: string, refs: seq<Ref>, outs: seq<Option<string>>, i: nat)
    requires |outs| == |refs| && forall x :: x in refs ==> x.start <= x.end <= |s|
    requires i < |refs| && outs[i].Some?
    requires forall j :: 0 <= j < |outs| && j != i ==> outs[j].None?
    requires IndexOf(s, s[refs[i].start..refs[i].end]) == Some(refs[i].start)
    requires b == s
    ensures refs[i].end <= |s|
    ensures SpliceAsWritten(b, s, refs, outs) == Some(s[..refs[i].start] + outs[i].value + s[refs[i].end..])
    decreases |refs|
  {
    assert refs[i] in refs;
    if i == 0 {
      var x := refs[0];
      assert |s[x.start..x.end]| == x.end - x.start;
      var b' := s[..x.start] + outs[0].value + s[x.end..];
      assert BuilderReplace(b, x.start, x.end, outs[0].value) == Some(b');
      AsWrittenSkips(b', s, refs[1..], outs[1..]);
    } else {
      AsWrittenStep(b, s, refs[1..], outs[1..], i - 1);
    }
  }

  // ----- The defect, on a concrete message -----

  /** `"$T{a} $T{b}"` holds two references. */
  lemma {:induction false} TwoReferences()
    ensures Refs("$T{a} $T{b}", TranslationOpen, 0) == [Ref(0, 5, "a"), Ref(6, 11, "b")]
  {
    var s := "$T{a} $T{b}";
    assert StringUtils.LazyClose(s, '}', 3) == Some(4);
    assert s[0..3] == TranslationOpen && s[3..4] == "a";
    assert RefAt(s, TranslationOpen, 0) == Some(Ref(0, 5, "a"));
    assert StringUtils.LazyClose(s, '}', 9) == Some(10);
    assert s[6..9] == TranslationOpen && s[9..10] == "b";
    assert RefAt(s, TranslationOpen, 6) == Some(Ref(6, 11, "b"));
    assert s[5..8][0] == ' ';
    assert RefAt(s, TranslationOpen, 5) == None;
    assert Refs(s, TranslationOpen, 11) == [];
    assert Refs(s, TranslationOpen, 6) == [Ref(6, 11, "b")];
    assert Refs(s, TranslationOpen, 5) == Refs(s, TranslationOpen, 6);
  }

  const Sample: string := "$T{a} $T{b}"
  const SampleRefs: seq<Ref> := [Ref(0, 5, "a"), Ref(6, 11, "b")]
  const SampleOuts: seq<Option<string>> := [Some("xx"), Some("B")]

  /** The text of each reference of the sample occurs first at its own
      match. */
  lemma {:induction false} SampleIndexes()
    ensures IndexOf(Sample, "$T{a}") == Some(0)
    ensures IndexOf(Sample, "$T{b}") == Some(6)
  {
    var s := Sample;
    assert s[0..5] == "$T{a}";
    IndexOfIs(s, "$T{a}", 0);
    assert s[6..6 + |"$T{b}"|] == "$T{b}";
    forall j: nat | j < 6 ensures !OccursAt(s, "$T{b}", j) {
      if j + 5 <= |s| {
        assert s[j..j + 5][3] == s[j + 3];
      }
    }
    IndexOfIs(s, "$T{b}", 6);
  }

  /** The builder after the first splice of the sample. */
  lemma {:induction false} SampleFirstSplice()
    ensures SpliceAsWritten(Sample, Sample, SampleRefs, SampleOuts)
         == SpliceAsWritten("xx $T{b}", Sample, [Ref(6, 11, "b")], [Some("B")])
  {
    var s, refs, outs := Sample, SampleRefs, SampleOuts;
    SampleIndexes();
    assert s[refs[0].start..refs[0].end] == "$T{a}";
    assert s[..0] + "xx" + s[5..] == "xx $T{b}";
    assert BuilderReplace(s, 0, 0 + |"$T{a}"|, "xx") == Some("xx $T{b}");
    assert refs[1..] == [Ref(6, 11, "b")] && outs[1..] == [Some("B")];
  }

  /** The second splice of the sample lands at index 6 of the builder. */
  lemma {:induction false} SampleSecondSplice()
    ensures SpliceAsWritten("xx $T{b}", Sample, [Ref(6, 11, "b")], [Some("B")]) == Some("xx $T{B")
  {
    var b1, refs1, outs1 := "xx $T{b}", [Ref(6, 11, "b")], [Some("B")];
    SampleIndexes();
    assert Sample[6..11] == "$T{b}";
    assert b1[..6] == "xx $T{";
    assert |b1| == 8 && 6 + |"$T{b}"| == 11;
    assert BuilderReplace(b1, 6, 11, "B") == Some(b1[..6] + "B");
    assert b1[..6] + "B" == "xx $T{B";
    assert refs1[1..] == [] && outs1[1..] == [];
  }

  /** The builder's result on the sample. */
  lemma {:induction false} SampleAsWritten()
    ensures SpliceAsWritten(Sample, Sample, SampleRefs, SampleOuts) == Some("xx $T{B")
  {
    SampleFirstSplice();
    SampleSecondSplice();
  }

  /** The intended result on the sample. */
  lemma {:induction false} SampleFilled()
    ensures Ordered(SampleRefs, 0, |Sample|)
    ensures Fill(Sample, SampleRefs, SampleOuts, 0) == "xx B"
  {
    var s, refs, outs := Sample, SampleRefs, SampleOuts;
    var refs1, outs1 := refs[1..], outs[1..];
    assert refs1 == [Ref(6, 11, "b")] && outs1 == [Some("B")];
    assert s[5..6] == " " && s[11..] == "" && s[0..0] == "";
    assert Fill(s, refs1[1..], outs1[1..], 11) == "";
    assert Fill(s, refs1, outs1, 5) == " B";
    assert Fill(s, refs, outs, 0) == "" + "xx" + " B";
  }

  /** Replacing `a` by `"xx"` and `b` by `"B"` in `"$T{a} $T{b}"`: the
      builder applies the second splice at index 6 of the original, which in
      the lengthened builder falls inside the reference, giving `"xx $T{B"`;
      the intended result is `"xx B"`. */
  lemma {:induction false} SpliceCounterexample()
    ensures Refs(Sample, TranslationOpen, 0) == SampleRefs
    ensures SpliceAsWritten(Sample, Sample, SampleRefs, SampleOuts) == Some("xx $T{B")
    ensures Fill(Sample, SampleRefs, SampleOuts, 0) == "xx B"
  {
    TwoReferences();
    SampleAsWritten();
    SampleFilled();
  }

  // ----- Templates: text built from literal parts and references -----

  datatype Part = Text(text: string) | Reference(name: string)

  function PartText(open: string, p: Part): string {
    match p
    case Text(t) => t
    case Reference(n) => open + n + "}"
  }

  function RenderParts(open: string, ps: seq<Part>): string {
    if ps == [] then "" else PartText(open, ps[0]) + RenderParts(open, ps[1..])
  }

  /** Text parts hold no `$`; a reference's name holds no `}` and no line
      terminator, so it closes at its own brace. */
  predicate PlainParts(ps: seq<Part>) {
    forall i :: 0 <= i < |ps| ==>
      match ps[i]
      case Text(t) => '$' !in t
      case Reference(n) => '}' !in n && forall k :: 0 <= k < |n| ==> !StringUtils.IsLineTerminator(n[k])
  }

  /** The spans of the references of a template rendered from `pos`. */
  function PartRefs(open: string, ps: seq<Part>, pos: nat): seq<Ref> {
    if ps == [] then []
    else
      var w := |PartText(open, ps[0])|;
      if ps[0].Reference? then [Ref(pos, pos + w, ps[0].name)] + PartRefs(open, ps[1..], pos + w)
      else PartRefs(open, ps[1..], pos + w)
  }

  function CountRefs(ps: seq<Part>): nat {
    if ps == [] then 0 else (if ps[0].Reference? then 1 else 0) + CountRefs(ps[1..])
  }

  lemma CountRefsStep(ps: seq<Part>)
    requires ps != []
    ensures CountRefs(ps) == (if ps[0].Reference? then 1 else 0) + CountRefs(ps[1..])
  {
  }

  /** The template with each reference whose resolution is `Some` turned
      into that text. */
  function Substitute(ps: seq<Part>, outs: seq<Option<string>>): seq<Part>
    requires |outs| == CountRefs(ps)
  {
    if ps == [] then []
    else if ps[0].Reference? then
      (if outs[0].Some? then [Text(outs[0].value)] else [ps[0]]) + Substitute(ps[1..], outs[1..])
    else [ps[0]] + Substitute(ps[1..], outs)
  }

  lemma {:induction false} PlainPartsTail(ps: seq<Part>)
    requires ps != [] && PlainParts(ps)
    ensures PlainParts(ps[1..])
  {
    forall i | 0 <= i < |ps[1..]| ensures ps[1..][i] == ps[i + 1] {}
  }

  lemma {:induction false} SliceSplit(s: string, p: nat, x: string, y: string)
    requires p <= |s| && s[p..] == x + y
    ensures p + |x| <= |s| && s[p..p + |x|] == x && s[p + |x|..] == y
  {
    assert s[p..][..|x|] == x;
    assert s[p..][|x|..] == y;
  }

  lemma {:induction false} RefsSkipText(s: string, open: string, p: nat, t: string)
    requires ValidOpen(open)
    requires p + |t| <= |s| && s[p..p + |t|] == t && '$' !in t
    ensures Refs(s, open, p) == Refs(s, open, p + |t|)
    decreases |t|
  {
    if |t| > 0 {
      assert s[p] == t[0];
      if p + |open| <= |s| {
        assert s[p..p + |open|][0] == s[p];
      }
      assert RefAt(s, open, p).None?;
      assert s[p + 1..p + |t|] == t[1..];
      RefsSkipText(s, open, p + 1, t[1..]);
    }
  }

  lemma {:induction false} CloseAfterName(s: string, from: nat, n: string)
    requires from + |n| < |s| && s[from..from + |n|] == n && s[from + |n|] == '}'
    requires '}' !in n && forall k :: 0 <= k < |n| ==> !StringUtils.IsLineTerminator(n[k])
    ensures StringUtils.LazyClose(s, '}', from) == Some(from + |n|)
    decreases |n|
  {
    if |n| > 0 {
      assert s[from] == n[0];
      assert s[from + 1..from + 1 + |n[1..]|] == n[1..];
      CloseAfterName(s, from + 1, n[1..]);
    }
  }

  /** The three parts of a reference's text: opener, name and `}`. */
  lemma ReferenceParts(s: string, open: string, p: nat, n: string)
    requires p + |open| + |n| + 1 <= |s| && s[p..p + |open| + |n| + 1] == open + n + "}"
    ensures s[p..p + |open|] == open
    ensures s[p + |open|..p + |open| + |n|] == n
    ensures s[p + |open| + |n|] == '}'
  {
    var e := p + |open| + |n| + 1;
    SliceOfSlice(s, p, e, 0, |open|);
    assert (open + n + "}")[0..|open|] == open;
    SliceOfSlice(s, p, e, |open|, |open| + |n|);
    MiddleSlice(open, n, "}");
    assert s[p + |open| + |n|] == s[p..e][|open| + |n|];
  }

  lemma RefAtReference(s: string, open: string, p: nat, n: string)
    requires '}' !in n && forall k :: 0 <= k < |n| ==> !StringUtils.IsLineTerminator(n[k])
    requires p + |open| + |n| + 1 <= |s| && s[p..p + |open| + |n| + 1] == open + n + "}"
    ensures RefAt(s, open, p) == Some(Ref(p, p + |open| + |n| + 1, n))
  {
    ReferenceParts(s, open, p, n);
    CloseAfterName(s, p + |open|, n);
  }

  lemma {:induction false} RefsTakeReference(s: string, open: string, p: nat, n: string)
    requires ValidOpen(open)
    requires '}' !in n && forall k :: 0 <= k < |n| ==> !StringUtils.IsLineTerminator(n[k])
    requires p + |open| + |n| + 1 <= |s| && s[p..p + |open| + |n| + 1] == open + n + "}"
    ensures Refs(s, open, p) == [Ref(p, p + |open| + |n| + 1, n)] + Refs(s, open, p + |open| + |n| + 1)
  {
    RefAtReference(s, open, p, n);
  }

  lemma {:induction false} RefsOfRender(s: string, open: string, p: nat, ps: seq<Part>)
    requires ValidOpen(open) && PlainParts(ps)
    requires p <= |s| && s[p..] == RenderParts(open, ps)
    ensures Refs(s, open, p) == PartRefs(open, ps, p)
    decreases |ps|
  {
    if ps == [] {
      assert p == |s|;
    } else {
      var x := PartText(open, ps[0]);
      SliceSplit(s, p, x, RenderParts(open, ps[1..]));
      PlainPartsTail(ps);
      RefsOfRender(s, open, p + |x|, ps[1..]);
      match ps[0]
      case Text(t) =>
        RefsSkipText(s, open, p, t);
      case Reference(n) =>
        assert |x| == |open| + |n| + 1;
        RefsTakeReference(s, open, p, n);
    }
  }

  lemma {:induction false} PartRefsOrdered(open: string, ps: seq<Part>, pos: nat, n: nat)
    requires pos + |RenderParts(open, ps)| <= n
    requires |open| >= 1
    ensures Ordered(PartRefs(open, ps, pos), pos, n)
    ensures |PartRefs(open, ps, pos)| == CountRefs(ps)
    decreases |ps|
  {
    if ps != [] {
      var w := |PartText(open, ps[0])|;
      PartRefsOrdered(open, ps[1..], pos + w, n);
      if ps[0].Reference? {
        assert w >= 1;
      } else {
        OrderedWeaken(PartRefs(open, ps[1..], pos + w), pos + w, pos, n);
      }
    }
  }

  /** Filling the rendering of a template is rendering the template with the
      resolved references substituted. */
  lemma {:induction false} FillRender(s: string, open: string, p: nat, ps: seq<Part>, outs: seq<Option<string>>)
    requires |open| >= 1
    requires p <= |s| && s[p..] == RenderParts(open, ps)
    requires |outs| == CountRefs(ps)
    ensures Ordered(PartRefs(open, ps, p), p, |s|) && |PartRefs(open, ps, p)| == |outs|
    ensures Fill(s, PartRefs(open, ps, p), outs, p) == RenderParts(open, Substitute(ps, outs))
    decreases |ps|
  {
    PartRefsOrdered(open, ps, p, |s|);
    if ps == [] {
      assert p == |s|;
    } else {
      var x := PartText(open, ps[0]);
      SliceSplit(s, p, x, RenderParts(open, ps[1..]));
      CountRefsStep(ps);
      var rest := if ps[0].Reference? then outs[1..] else outs;
      FillRender(s, open, p + |x|, ps[1..], rest);
      if ps[0].Reference? {
        FillRenderReference(s, open, p, ps, outs);
      } else {
        FillRenderText(s, open, p, ps, outs);
      }
    }
  }

  /** The step of `FillRender` for a leading reference, given the rest. */
  lemma {:induction false} FillRenderReference(s: string, open: string, p: nat, ps: seq<Part>, outs: seq<Option<string>>)
    requires |open| >= 1 && ps != [] && ps[0].Reference?
    requires |outs| == CountRefs(ps)
    requires p + |PartText(open, ps[0])| <= |s|
    requires s[p..p + |PartText(open, ps[0])|] == PartText(open, ps[0])
    requires Ordered(PartRefs(open, ps, p), p, |s|) && |PartRefs(open, ps, p)| == |outs|
    requires Ordered(PartRefs(open, ps[1..], p + |PartText(open, ps[0])|), p + |PartText(open, ps[0])|, |s|)
    requires |PartRefs(open, ps[1..], p + |PartText(open, ps[0])|)| == |outs| - 1
    requires Fill(s, PartRefs(open, ps[1..], p + |PartText(open, ps[0])|), outs[1..], p + |PartText(open, ps[0])|)
          == RenderParts(open, Substitute(ps[1..], outs[1..]))
    ensures Fill(s, PartRefs(open, ps, p), outs, p) == RenderParts(open, Substitute(ps, outs))
  {
    var x := PartText(open, ps[0]);
    var rest := PartRefs(open, ps[1..], p + |x|);
    var refs := PartRefs(open, ps, p);
    assert refs == [Ref(p, p + |x|, ps[0].name)] + rest;
    assert refs[1..] == rest;
    var sub := Substitute(ps, outs);
    var head := if outs[0].Some? then Text(outs[0].value) else ps[0];
    assert sub == [head] + Substitute(ps[1..], outs[1..]);
    assert sub[1..] == Substitute(ps[1..], outs[1..]);
    assert s[p..p] == "";
    var mid := if outs[0].Some? then outs[0].value else s[p..p + |x|];
    assert PartText(open, head) == mid;
    assert Fill(s, refs, outs, p) == s[p..p] + mid + Fill(s, refs[1..], outs[1..], p + |x|);
    assert RenderParts(open, sub) == PartText(open, sub[0]) + RenderParts(open, sub[1..]);
    assert sub[0] == head;
    assert Fill(s, refs[1..], outs[1..], p + |x|) == RenderParts(open, sub[1..]);
    assert s[p..p] + mid == mid;
  }

  /** The step of `FillRender` for a leading text part, given the rest. */
  lemma {:induction false} FillRenderText(s: string, open: string, p: nat, ps: seq<Part>, outs: seq<Option<string>>)
    requires |open| >= 1 && ps != [] && ps[0].Text?
    requires |outs| == CountRefs(ps)
    requires p + |PartText(open, ps[0])| <= |s|
    requires s[p..p + |PartText(open, ps[0])|] == PartText(open, ps[0])
    requires Ordered(PartRefs(open, ps[1..], p + |PartText(open, ps[0])|), p + |PartText(open, ps[0])|, |s|)
    requires |PartRefs(open, ps[1..], p + |PartText(open, ps[0])|)| == |outs|
    requires Fill(s, PartRefs(open, ps[1..], p + |PartText(open, ps[0])|), outs, p + |PartText(open, ps[0])|)
          == RenderParts(open, Substitute(ps[1..], outs))
    ensures Ordered(PartRefs(open, ps, p), p, |s|)
    ensures Fill(s, PartRefs(open, ps, p), outs, p) == RenderParts(open, Substitute(ps, outs))
  {
    var x := PartText(open, ps[0]);
    PartRefsText(open, ps, p);
    RenderSubstituteText(open, ps, outs);
    FillPrefix(s, PartRefs(open, ps[1..], p + |x|), outs, p, x, RenderParts(open, Substitute(ps[1..], outs)));
  }

  /** Known text in front of the first reference is copied before the rest. */
  lemma FillPrefix(s: string, refs: seq<Ref>, outs: seq<Option<string>>, p: nat, x: string, tail: string)
    requires p + |x| <= |s| && s[p..p + |x|] == x
    requires Ordered(refs, p + |x|, |s|) && |outs| == |refs|
    requires Fill(s, refs, outs, p + |x|) == tail
    ensures Ordered(refs, p, |s|)
    ensures Fill(s, refs, outs, p) == x + tail
  {
    FillSkipText(s, refs, outs, p, p + |x|);
  }

  /** A leading text part holds no reference. */
  lemma PartRefsText(open: string, ps: seq<Part>, p: nat)
    requires ps != [] && ps[0].Text?
    ensures PartRefs(open, ps, p) == PartRefs(open, ps[1..], p + |PartText(open, ps[0])|)
  {
  }

  /** A leading text part is kept by the substitution. */
  lemma RenderSubstituteText(open: string, ps: seq<Part>, outs: seq<Option<string>>)
    requires ps != [] && ps[0].Text? && |outs| == CountRefs(ps)
    ensures |outs| == CountRefs(ps[1..])
    ensures RenderParts(open, Substitute(ps, outs)) == PartText(open, ps[0]) + RenderParts(open, Substitute(ps[1..], outs))
  {
    var sub := Substitute(ps, outs);
    assert sub == [ps[0]] + Substitute(ps[1..], outs);
    assert sub[1..] == Substitute(ps[1..], outs);
  }

  /** Text before the first reference is copied as it is. */
  lemma {:induction false} FillSkipText(s: string, refs: seq<Ref>, outs: seq<Option<string>>, p: nat, q: nat)
    requires p <= q <= |s| && Ordered(refs, q, |s|) && |outs| == |refs|
    ensures Ordered(refs, p, |s|)
    ensures Fill(s, refs, outs, p) == s[p..q] + Fill(s, refs, outs, q)
  {
    OrderedWeaken(refs, q, p, |s|);
    if refs != [] {
      FillStep(s, refs, outs, p);
      FillStep(s, refs, outs, q);
      SliceTwo(s, p, q, refs[0].start);
      var mid := if outs[0].Some? then outs[0].value else s[refs[0].start..refs[0].end];
      var tail := Fill(s, refs[1..], outs[1..], refs[0].end);
      assert s[p..q] + s[q..refs[0].start] + mid + tail == s[p..q] + (s[q..refs[0].start] + mid + tail);
    } else {
      SliceTwo(s, p, q, |s|);
      assert s[q..] == s[q..|s|] && s[p..] == s[p..|s|];
    }
  }

  /** The template round trip of the intended splice: on the rendering of a
      plain template, the references found are the template's, and filling
      them renders the template with the resolved texts in their places. */
  lemma {:induction false} SpliceTemplate(open: string, ps: seq<Part>, outs: seq<Option<string>>)
    requires ValidOpen(open) && PlainParts(ps) && |outs| == CountRefs(ps)
    ensures Refs(RenderParts(open, ps), open, 0) == PartRefs(open, ps, 0)
    ensures |Refs(RenderParts(open, ps), open, 0)| == |outs|
    ensures Fill(RenderParts(open, ps), Refs(RenderParts(open, ps), open, 0), outs, 0)
         == RenderParts(open, Substitute(ps, outs))
  {
    var s := RenderParts(open, ps);
    RefsOfRender(s, open, 0, ps);
    FillRender(s, open, 0, ps, outs);
  }
}
