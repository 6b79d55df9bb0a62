/** List joining, delimited-substring extraction and element-wise replacement
    (the `StringUtils` helpers). Colour formatting is not modelled here. */
module StringUtils {
  import opened Wrappers
  import opened Text

  /** The four list separators and the text each one inserts. */
  datatype Separator = NEW_LINE | COMMA | NEW_LINE_TEXT | LISTED {
    function Format(): string {
      match this
      case NEW_LINE => "\n"
      case COMMA => ", "
      case NEW_LINE_TEXT => "\\n"
      case LISTED => "\n§r- "
    }
  }

  /** Reference reading of a join where every element, the first included,
      is preceded by the separator. */
  function Prefixed(parts: seq<string>, sep: string): string
  {
    if parts == [] then "" else sep + parts[0] + Prefixed(parts[1..], sep)
  }

  /** What `getStringFromList` computes, read off its two modes. */
  function FromList(parts: seq<string>, sep: Separator, firstDifferent: bool): string
  {
    if firstDifferent then Join(parts, sep.Format()) else Prefixed(parts, sep.Format())
  }

  lemma {:induction false} JoinSnoc(parts: seq<string>, x: string, sep: string)
    requires parts != []
    ensures Join(parts + [x], sep) == Join(parts, sep) + sep + x
    decreases |parts|
  {
    if |parts| == 1 {
      assert parts + [x] == [parts[0], x];
    } else {
      assert (parts + [x])[1..] == parts[1..] + [x];
      JoinSnoc(parts[1..], x, sep);
    }
  }

  lemma {:induction false} PrefixedSnoc(parts: seq<string>, x: string, sep: string)
    ensures Prefixed(parts + [x], sep) == Prefixed(parts, sep) + sep + x
    decreases |parts|
  {
    if parts == [] {
      assert [] + [x] == [x];
    } else {
      assert (parts + [x])[1..] == parts[1..] + [x];
      PrefixedSnoc(parts[1..], x, sep);
    }
  }

  /** `getStringFromList(list, separator, firstDifferent)`: the accumulating
      loop of the source. With `firstDifferent` the separator sits only between
      consecutive elements; without it every element is preceded by one. */
  method GetStringFromList(parts: seq<string>, sep: Separator, firstDifferent: bool) returns (r: string)
    ensures firstDifferent ==> r == Join(parts, sep.Format())
    ensures !firstDifferent ==> r == Prefixed(parts, sep.Format())
    ensures parts == [] ==> r == ""
  {
    r := "";
    var first := true;
    var i := 0;
    while i < |parts|
      invariant 0 <= i <= |parts|
      invariant first <==> i == 0
      invariant firstDifferent ==> r == Join(parts[..i], sep.Format())
      invariant !firstDifferent ==> r == Prefixed(parts[..i], sep.Format())
    {
      var a := parts[i];
      r := r + (if !first || !firstDifferent then sep.Format() else "") + a;
      assert parts[..i + 1] == parts[..i] + [a];
      if firstDifferent {
        if i == 0 {
          assert parts[..1] == [a];
        } else {
          JoinSnoc(parts[..i], a, sep.Format());
        }
      } else {
        PrefixedSnoc(parts[..i], a, sep.Format());
      }
      first := false;
      i := i + 1;
    }
    assert parts[..i] == parts;
  }

  /** The two-argument overload delegates with `firstDifferent = true`. */
  method GetStringFromListDefault(parts: seq<string>, sep: Separator) returns (r: string)
    ensures r == FromList(parts, sep, true)
    ensures |parts| == 1 ==> r == parts[0]
  {
    r := GetStringFromList(parts, sep, true);
  }

  /** Without `firstDifferent` the result is the separator followed by the
      ordinary join: the two modes differ exactly by one leading separator. */
  lemma {:induction false} PrefixedIsSepThenJoin(parts: seq<string>, sep: string)
    requires parts != []
    ensures Prefixed(parts, sep) == sep + Join(parts, sep)
    decreases |parts|
  {
    if |parts| > 1 {
      PrefixedIsSepThenJoin(parts[1..], sep);
    }
  }

  /** Length of a join: the elements plus one separator per gap. */
  function TotalLength(parts: seq<string>): nat {
    if parts == [] then 0 else |parts[0]| + TotalLength(parts[1..])
  }

  lemma {:induction false} JoinLength(parts: seq<string>, sep: string)
    requires parts != []
    ensures |Join(parts, sep)| == TotalLength(parts) + (|parts| - 1) * |sep|
    decreases |parts|
  {
    if |parts| > 1 {
      JoinLength(parts[1..], sep);
    }
  }

  /** Characters Java's regex syntax treats specially outside a class. */
  predicate IsRegexMeta(c: char) {
    c in "\\^$.|?*+()[]{}"
  }

  /** `.` in a Java regex matches anything but these line terminators. */
  predicate IsLineTerminator(c: char) {
    c == '\n' || c == '\r' || c == '\U{0085}' || c == '\U{2028}' || c == '\U{2029}'
  }

  /** The first index `j >= from` with `s[j] == c`, provided no line terminator
      comes before it: the end of a lazy `(.*?)c` match started at `from`. */
  function LazyClose(s: string, c: char, from: nat): (r: Option<nat>)
    decreases |s| - from
    ensures r.Some? ==> from <= r.value < |s| && s[r.value] == c
    ensures r.Some? ==> forall k :: from <= k < r.value ==> s[k] != c && !IsLineTerminator(s[k])
    ensures r.None? && !IsLineTerminator(c) ==>
      forall k :: from <= k < |s| && s[k] == c ==> exists t :: from <= t < k && IsLineTerminator(s[t])
  {
    if from >= |s| then None
    else if s[from] == c then Some(from)
    else if IsLineTerminator(s[from]) then None
    else LazyClose(s, c, from + 1)
  }

  /** `getStringInside(s, c)` scanning from position `p`: the first match of
      the pattern `c(.*?)c`, or "" when there is none. */
  function InsideFrom(s: string, c: char, p: nat): (r: string)
    decreases |s| - p
  {
    if p >= |s| then ""
    else if s[p] == c && LazyClose(s, c, p + 1).Some? then s[p + 1..LazyClose(s, c, p + 1).value]
    else InsideFrom(s, c, p + 1)
  }

  function GetStringInside(s: string, c: char): (r: string)
    requires !IsRegexMeta(c)
    ensures c !in r
  {
    InsideFromNoDelimiter(s, c, 0);
    InsideFrom(s, c, 0)
  }

  lemma {:induction false} InsideFromNoDelimiter(s: string, c: char, p: nat)
    ensures c !in InsideFrom(s, c, p)
    decreases |s| - p
  {
    if p < |s| && !(s[p] == c && LazyClose(s, c, p + 1).Some?) {
      InsideFromNoDelimiter(s, c, p + 1);
    }
  }

  /** On text without line terminators, `getStringInside` is exactly the text
      between the first two occurrences of `c`, and "" with fewer than two. */
  lemma {:induction false} InsideIsBetweenFirstTwo(s: string, c: char, i: nat, j: nat)
    requires !IsLineTerminator(c)
    requires forall k :: 0 <= k < |s| ==> !IsLineTerminator(s[k])
    requires i < j < |s| && s[i] == c && s[j] == c
    requires forall k :: 0 <= k < j && k != i ==> s[k] != c
    ensures InsideFrom(s, c, 0) == s[i + 1..j]
  {
    InsideSkipsTo(s, c, 0, i);
    var close := LazyClose(s, c, i + 1);
    assert close.Some? && close.value == j;
  }

  lemma {:induction false} InsideSkipsTo(s: string, c: char, p: nat, i: nat)
    requires p <= i < |s|
    requires forall k :: p <= k < i ==> s[k] != c
    ensures InsideFrom(s, c, p) == InsideFrom(s, c, i)
    decreases i - p
  {
    if p < i {
      InsideSkipsTo(s, c, p + 1, i);
    }
  }

  lemma {:induction false} InsideEmptyWithoutPair(s: string, c: char, p: nat)
    requires forall k, l :: p <= k < l < |s| ==> !(s[k] == c && s[l] == c)
    ensures InsideFrom(s, c, p) == ""
    decreases |s| - p
  {
    if p < |s| {
      if s[p] == c && LazyClose(s, c, p + 1).Some? {
        assert false;
      }
      InsideEmptyWithoutPair(s, c, p + 1);
    }
  }

  /** `replaceAll(list, regex, replacement)` with a literal target: a new
      list of the same length, each element rewritten on its own. */
  method ReplaceInList(parts: seq<string>, target: string, repl: string) returns (r: seq<string>)
    requires |target| > 0
    ensures |r| == |parts|
    ensures forall i :: 0 <= i < |parts| ==> r[i] == ReplaceAll(parts[i], target, repl)
    ensures forall i :: 0 <= i < |parts| && !Contains(parts[i], target) ==> r[i] == parts[i]
  {
    r := [];
    var i := 0;
    while i < |parts|
      invariant 0 <= i <= |parts|
      invariant |r| == i
      invariant forall k :: 0 <= k < i ==> r[k] == ReplaceAll(parts[k], target, repl)
    {
      r := r + [ReplaceAll(parts[i], target, repl)];
      i := i + 1;
    }
  }
}
