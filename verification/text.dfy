/** The handful of java.lang.String operations the translation code relies on,
    stated over `seq<char>`. Case mapping covers ASCII letters only. */
module Text {
  import opened Wrappers

  predicate IsUpperAscii(c: char) {
    'A' <= c <= 'Z'
  }

  function LowerChar(c: char): (r: char)
    ensures !IsUpperAscii(r)
    ensures !IsUpperAscii(c) ==> r == c
  {
    if IsUpperAscii(c) then (c as int + 32) as char else c
  }

  /** `String.toLowerCase()`, restricted to ASCII letters. */
  function Lower(s: string): (r: string)
    ensures |r| == |s|
    ensures forall i :: 0 <= i < |s| ==> r[i] == LowerChar(s[i])
  {
    if s == [] then [] else [LowerChar(s[0])] + Lower(s[1..])
  }

  predicate IsLower(s: string) {
    forall i :: 0 <= i < |s| ==> !IsUpperAscii(s[i])
  }

  lemma LowerIsLower(s: string)
    ensures IsLower(Lower(s))
  {
  }

  lemma LowerOfLower(s: string)
    requires IsLower(s)
    ensures Lower(s) == s
  {
  }

  lemma LowerTwice(s: string)
    ensures Lower(Lower(s)) == Lower(s)
  {
    LowerIsLower(s);
    LowerOfLower(Lower(s));
  }

  lemma LowerConcat(a: string, b: string)
    ensures Lower(a + b) == Lower(a) + Lower(b)
  {
  }

  predicate IsLowerAscii(c: char) {
    'a' <= c <= 'z'
  }

  function UpperChar(c: char): (r: char)
    ensures !IsLowerAscii(r)
    ensures !IsLowerAscii(c) ==> r == c
  {
    if IsLowerAscii(c) then (c as int - 32) as char else c
  }

  /** `String.toUpperCase()`, restricted to ASCII letters. */
  function Upper(s: string): (r: string)
    ensures |r| == |s|
    ensures forall i :: 0 <= i < |s| ==> r[i] == UpperChar(s[i])
  {
    if s == [] then [] else [UpperChar(s[0])] + Upper(s[1..])
  }

  /** Text without lower-case letters is its own upper-case form. */
  lemma UpperOfUpper(s: string)
    requires forall i :: 0 <= i < |s| ==> !IsLowerAscii(s[i])
    ensures Upper(s) == s
  {
  }

  /** Upper-casing forgets an earlier lower-casing. */
  lemma UpperOfLower(s: string)
    ensures Upper(Lower(s)) == Upper(s)
  {
    assert forall i :: 0 <= i < |s| ==> UpperChar(LowerChar(s[i])) == UpperChar(s[i]);
  }

  /** `String.equalsIgnoreCase`, ASCII letters only. */
  predicate EqualsIgnoreCase(a: string, b: string) {
    Lower(a) == Lower(b)
  }

  predicate StartsWith(s: string, p: string) {
    |p| <= |s| && s[..|p|] == p
  }

  predicate EndsWith(s: string, p: string) {
    |p| <= |s| && s[|s| - |p|..] == p
  }

  predicate OccursAt(s: string, t: string, i: nat) {
    i + |t| <= |s| && s[i..i + |t|] == t
  }

  predicate Contains(s: string, t: string) {
    exists i: nat | i <= |s| :: OccursAt(s, t, i)
  }

  /** `String.indexOf(t, from)`: the first occurrence at or after `from`. */
  function IndexOfFrom(s: string, t: string, from: nat): (r: Option<nat>)
    decreases |s| - from
    ensures r.Some? ==> from <= r.value && OccursAt(s, t, r.value)
    ensures r.Some? ==> forall j: nat :: from <= j < r.value ==> !OccursAt(s, t, j)
    ensures r.None? ==> forall j: nat :: from <= j ==> !OccursAt(s, t, j)
  {
    if from + |t| > |s| then None
    else if s[from..from + |t|] == t then Some(from)
    else IndexOfFrom(s, t, from + 1)
  }

  function IndexOf(s: string, t: string): (r: Option<nat>)
    ensures r.Some? <==> Contains(s, t)
    ensures r.Some? ==> OccursAt(s, t, r.value)
    ensures r.Some? ==> forall j: nat :: j < r.value ==> !OccursAt(s, t, j)
  {
    IndexOfFrom(s, t, 0)
  }

  lemma IndexOfWitness(s: string, t: string, i: nat)
    requires OccursAt(s, t, i)
    ensures Contains(s, t)
  {
  }

  /** `String.replace(target, replacement)`: every non-overlapping occurrence,
      scanning left to right. */
  function ReplaceAll(s: string, target: string, repl: string): (r: string)
    requires |target| > 0
    decreases |s|
    ensures !Contains(s, target) ==> r == s
  {
    if |s| < |target| then s
    else if s[..|target|] == target then
      assert OccursAt(s, target, 0);
      repl + ReplaceAll(s[|target|..], target, repl)
    else
      ReplaceAllTail(s, target, repl)
  }

  function ReplaceAllTail(s: string, target: string, repl: string): (r: string)
    requires |target| > 0 && |s| > 0
    decreases |s|, 0
    ensures !Contains(s, target) ==> r == s
  {
    var rest := ReplaceAll(s[1..], target, repl);
    assert !Contains(s, target) ==> !Contains(s[1..], target) by {
      if Contains(s[1..], target) {
        var i: nat :| i <= |s[1..]| && OccursAt(s[1..], target, i);
        assert s[i + 1..i + 1 + |target|] == s[1..][i..i + |target|];
        assert OccursAt(s, target, i + 1);
      }
    }
    [s[0]] + rest
  }

  lemma MiddleSlice(a: string, b: string, c: string)
    ensures (a + b + c)[|a|..|a| + |b|] == b
  {
    var w := a + b + c;
    forall k | 0 <= k < |b| ensures w[|a|..|a| + |b|][k] == b[k] {
      assert w[|a| + k] == b[k];
    }
  }

  lemma SliceOfSlice(s: string, p: nat, q: nat, i: nat, j: nat)
    requires p <= q <= |s| && i <= j <= q - p
    ensures s[p..q][i..j] == s[p + i..p + j]
  {
    forall k | 0 <= k < j - i ensures s[p..q][i..j][k] == s[p + i..p + j][k] {
      assert s[p..q][i + k] == s[p + i + k];
    }
  }

  /** Two adjacent slices make up the slice that spans them. */
  lemma SliceTwo(s: string, a: nat, b: nat, c: nat)
    requires a <= b <= c <= |s|
    ensures s[a..b] + s[b..c] == s[a..c]
  {
  }

  /** Three adjacent slices make up the slice that spans them. */
  lemma SliceJoin(s: string, a: nat, b: nat, c: nat, d: nat)
    requires a <= b <= c <= d <= |s|
    ensures s[a..b] + s[b..c] + s[c..d] == s[a..d]
  {
    assert s[a..b] + s[b..c] == s[a..c];
    assert s[a..c] + s[c..d] == s[a..d];
  }

  /** Text that cannot start an occurrence passes through `replace` as is. */
  lemma {:induction false} ReplaceAllSkips(a: string, b: string, target: string, repl: string)
    requires |target| > 0 && target[0] !in a
    ensures ReplaceAll(a + b, target, repl) == a + ReplaceAll(b, target, repl)
    decreases |a|
  {
    if a != [] {
      var s := a + b;
      if |s| < |target| {
        assert ReplaceAll(b, target, repl) == b;
      } else {
        assert s[..|target|][0] == a[0];
        assert s[1..] == a[1..] + b;
        ReplaceAllSkips(a[1..], b, target, repl);
        assert [a[0]] + a[1..] == a;
      }
    } else {
      assert a + b == b;
    }
  }

  /** Text that does not start with the target keeps its first character. */
  lemma ReplaceAllMiss(s: string, target: string, repl: string)
    requires |target| > 0 && |s| > 0
    requires |s| < |target| || s[..|target|] != target
    ensures ReplaceAll(s, target, repl) == [s[0]] + ReplaceAll(s[1..], target, repl)
  {
    if |s| < |target| {
      assert ReplaceAll(s[1..], target, repl) == s[1..];
      assert s == [s[0]] + s[1..];
    }
  }

  /** An occurrence at the front is replaced, then the scan resumes after it. */
  lemma ReplaceAllHit(b: string, target: string, repl: string)
    requires |target| > 0
    ensures ReplaceAll(target + b, target, repl) == repl + ReplaceAll(b, target, repl)
  {
    var s := target + b;
    assert s[..|target|] == target;
    assert s[|target|..] == b;
  }

  /** `String.replaceFirst` with a literal pattern and a literal replacement. */
  function ReplaceFirst(s: string, target: string, repl: string): (r: string)
    ensures IndexOf(s, target).None? ==> r == s
    ensures IndexOf(s, target).Some? ==>
      var i := IndexOf(s, target).value;
      r == s[..i] + repl + s[i + |target|..]
  {
    match IndexOf(s, target)
    case None => s
    case Some(i) => s[..i] + repl + s[i + |target|..]
  }

  /** The replacement text `Matcher.appendReplacement` produces for a
      pattern without groups that matched `matched`: `\` takes the next
      character literally, `$0` (with any further zeros) stands for the
      match, and a trailing `\` or `$`, a `$` before anything but a digit
      (a named group included) or a group number above zero throws. */
  function Replacement(repl: string, matched: string): (r: Option<string>)
    ensures IsLiteralReplacement(repl) ==> r == Some(repl)
    decreases |repl|
  {
    if repl == [] then Some([])
    else if repl[0] == '\\' then
      if |repl| == 1 then None
      else
        var rest :- Replacement(repl[2..], matched);
        Some([repl[1]] + rest)
    else if repl[0] == '$' then
      if |repl| == 1 || repl[1] != '0' then None
      else
        var rest :- Replacement(DropZeros(repl[2..]), matched);
        Some(matched + rest)
    else
      var rest :- Replacement(repl[1..], matched);
      assert IsLiteralReplacement(repl) ==> IsLiteralReplacement(repl[1..]);
      assert [repl[0]] + repl[1..] == repl;
      Some([repl[0]] + rest)
  }

  /** Lower-casing neither adds nor removes `\` and `$`. */
  lemma LowerKeepsReplacement(s: string)
    ensures IsLiteralReplacement(Lower(s)) <==> IsLiteralReplacement(s)
  {
    if '$' in s {
      var i :| 0 <= i < |s| && s[i] == '$';
      assert Lower(s)[i] == '$';
    }
    if '\\' in s {
      var i :| 0 <= i < |s| && s[i] == '\\';
      assert Lower(s)[i] == '\\';
    }
    if '$' in Lower(s) {
      var i :| 0 <= i < |s| && Lower(s)[i] == '$';
      assert s[i] == '$';
    }
    if '\\' in Lower(s) {
      var i :| 0 <= i < |s| && Lower(s)[i] == '\\';
      assert s[i] == '\\';
    }
  }

  /** A replacement without escapes or group references. */
  predicate IsLiteralReplacement(s: string) {
    '$' !in s && '\\' !in s
  }

  /** The digits after `$0` that still read as group 0. */
  function DropZeros(s: string): (r: string)
    ensures |r| <= |s| && (r == [] || r[0] != '0')
    ensures r == s[|s| - |r|..]
  {
    if s != [] && s[0] == '0' then DropZeros(s[1..]) else s
  }

  /** A dollar before a letter, a lone trailing dollar or backslash and a
      group other than 0 throw. */
  lemma ReplacementThrows()
    ensures Replacement("a$b", "%f") == None
    ensures Replacement("a$", "%f") == None
    ensures Replacement("$1", "%f") == None
    ensures Replacement("a\\", "%f") == None
  {
    assert "a$b"[0] == 'a' && "a$b"[1..] == "$b";
    assert "a$"[0] == 'a' && "a$"[1..] == "$";
    assert "a\\"[0] == 'a' && "a\\"[1..] == "\\";
  }

  /** `$0` is the match, and a zero after it is still part of the group
      number. */
  lemma ReplacementGroupZero()
    ensures Replacement("x$0", "%f") == Some("x%f")
    ensures Replacement("$00", "%f") == Some("%f")
  {
    assert Replacement([], "%f") == Some([]);
    ReplacementGroup([], "%f");
    assert "$0" == ['$', '0'] + [];
    assert DropZeros([]) == [];
    assert "%f" + [] == "%f";
    assert Replacement("$0", "%f") == Some("%f");
    ReplacementPlain('x', "$0", "%f");
    assert ['x'] + "%f" == "x%f";
    assert "x$0" == ['x'] + "$0";
    assert DropZeros("0") == [];
    ReplacementGroup("0", "%f");
    assert "$00" == ['$', '0'] + "0";
  }

  /** A backslash takes the next character literally. */
  lemma ReplacementBackslash()
    ensures Replacement("a\\b", "%f") == Some("ab")
  {
    assert Replacement([], "%f") == Some([]);
    ReplacementEscape('b', [], "%f");
    assert "\\b" == ['\\', 'b'] + [];
    assert ['b'] + [] == "b";
    assert Replacement("\\b", "%f") == Some("b");
    ReplacementPlain('a', "\\b", "%f");
    assert ['a'] + "b" == "ab";
    assert "a\\b" == ['a'] + "\\b";
  }

  lemma ReplacementPlain(c: char, rest: string, m: string)
    requires c != '\\' && c != '$'
    ensures Replacement([c] + rest, m) ==
      if Replacement(rest, m).Some? then Some([c] + Replacement(rest, m).value) else None
  {
    assert ([c] + rest)[1..] == rest;
  }

  lemma ReplacementEscape(c: char, rest: string, m: string)
    ensures Replacement(['\\', c] + rest, m) ==
      if Replacement(rest, m).Some? then Some([c] + Replacement(rest, m).value) else None
  {
    assert (['\\', c] + rest)[2..] == rest;
  }

  lemma ReplacementGroup(rest: string, m: string)
    ensures Replacement(['$', '0'] + rest, m) ==
      if Replacement(DropZeros(rest), m).Some? then Some(m + Replacement(DropZeros(rest), m).value) else None
  {
    assert (['$', '0'] + rest)[2..] == rest;
  }

  /** `String.replaceFirst` with a pattern of ordinary characters and a
      replacement read as `Matcher.appendReplacement` reads it: nothing
      changes (and the replacement is not read) when the pattern does not
      occur; None where the replacement throws. */
  function ReplaceFirstRegex(s: string, target: string, repl: string): (r: Option<string>)
    ensures IndexOf(s, target).None? ==> r == Some(s)
    ensures IndexOf(s, target).Some? ==> (r.Some? <==> Replacement(repl, target).Some?)
    ensures r.Some? && IndexOf(s, target).Some? ==> r.value == ReplaceFirst(s, target, Replacement(repl, target).value)
    ensures IsLiteralReplacement(repl) ==> r == Some(ReplaceFirst(s, target, repl))
  {
    match IndexOf(s, target)
    case None => Some(s)
    case Some(i) =>
      var x :- Replacement(repl, target);
      Some(s[..i] + x + s[i + |target|..])
  }

  /** The text before the first occurrence of `c` (all of `s` if there is none). */
  function Before(s: string, c: char): (r: string)
    ensures c !in r
    ensures StartsWith(s, r)
    ensures r == s || (|r| < |s| && s[|r|] == c)
  {
    if s == [] then []
    else if s[0] == c then []
    else [s[0]] + Before(s[1..], c)
  }

  /** The text after the first occurrence of `c`; empty when `c` does not occur. */
  function After(s: string, c: char): (r: string)
    ensures c in s ==> s == Before(s, c) + [c] + r
    ensures c in s ==> |r| < |s|
    ensures c !in s ==> r == []
  {
    if s == [] then []
    else if s[0] == c then s[1..]
    else After(s[1..], c)
  }

  /** All `c`-separated pieces of `s`, empty ones included. */
  function Pieces(s: string, c: char): (r: seq<string>)
    ensures |r| >= 1
    ensures r[0] == Before(s, c)
    ensures c !in s ==> r == [s]
    decreases |s|
  {
    if c in s then [Before(s, c)] + Pieces(After(s, c), c) else [s]
  }

  function DropTrailingEmpty(parts: seq<string>): (r: seq<string>)
    ensures |r| <= |parts| && r == parts[..|r|]
    ensures r == [] || r[|r| - 1] != []
    ensures forall i :: |r| <= i < |parts| ==> parts[i] == []
  {
    if parts == [] then []
    else if parts[|parts| - 1] == [] then DropTrailingEmpty(parts[..|parts| - 1])
    else parts
  }

  /** `String.split` on a single literal character with no limit: when the
      separator occurs, trailing empty pieces are removed. */
  function Split(s: string, c: char): (r: seq<string>)
    ensures c !in s ==> r == [s]
    ensures |r| > 0 ==> r[0] == Before(s, c)
  {
    if c !in s then [s] else DropTrailingEmpty(Pieces(s, c))
  }

  /** A split gives no piece at all exactly when the separator occurs and
      the text holds nothing else. */
  lemma SplitEmpty(s: string, c: char)
    ensures Split(s, c) == [] <==> c in s && !NotOnly(s, c)
  {
    if c in s {
      PiecesEmpty(s, c);
      DropTrailingKeepsAny(Pieces(s, c));
    }
  }

  /** Dropping trailing empty pieces leaves one exactly when some piece is
      not empty. */
  lemma DropTrailingKeepsAny(parts: seq<string>)
    ensures DropTrailingEmpty(parts) != [] <==> AnyNonEmpty(parts)
  {
    var r := DropTrailingEmpty(parts);
    if r != [] {
      assert parts[|r| - 1] == r[|r| - 1];
    }
    if AnyNonEmpty(parts) {
      var k :| 0 <= k < |parts| && parts[k] != [];
      assert k < |r|;
    }
  }

  /** The second piece of a split exists when something other than the
      separator follows its first occurrence, and runs to the next one. */
  lemma SplitSecond(s: string, c: char)
    requires c in s
    ensures |Split(s, c)| >= 2 <==> NotOnly(After(s, c), c)
    ensures |Split(s, c)| >= 2 ==> Split(s, c)[1] == Before(After(s, c), c)
  {
    var a := After(s, c);
    assert Pieces(s, c) == [Before(s, c)] + Pieces(a, c);
    PiecesEmpty(a, c);
    DropTrailingKeepsSecond(Pieces(s, c));
    LaterNonEmptyShift(Before(s, c), Pieces(a, c));
  }

  /** Some piece after the first is not empty. */
  predicate LaterNonEmpty(parts: seq<string>) {
    exists k :: 1 <= k < |parts| && parts[k] != []
  }

  /** A piece after a leading one is not empty iff one of the rest is not. */
  lemma LaterNonEmptyShift(b: string, ps: seq<string>)
    ensures LaterNonEmpty([b] + ps) <==> AnyNonEmpty(ps)
  {
    var parts := [b] + ps;
    if LaterNonEmpty(parts) {
      var k :| 1 <= k < |parts| && parts[k] != [];
      assert ps[k - 1] == parts[k];
    }
    if AnyNonEmpty(ps) {
      var k :| 0 <= k < |ps| && ps[k] != [];
      assert parts[k + 1] == ps[k];
    }
  }

  /** Dropping trailing empty pieces leaves at least two exactly when a
      piece after the first is not empty. */
  lemma DropTrailingKeepsSecond(parts: seq<string>)
    ensures |DropTrailingEmpty(parts)| >= 2 <==> LaterNonEmpty(parts)
    ensures |DropTrailingEmpty(parts)| >= 2 ==> DropTrailingEmpty(parts)[1] == parts[1]
  {
    var r := DropTrailingEmpty(parts);
    if exists k :: 1 <= k < |parts| && parts[k] != [] {
      var k :| 1 <= k < |parts| && parts[k] != [];
      assert k < |r|;
    }
    if |r| >= 2 {
      assert r[|r| - 1] == parts[|r| - 1];
    }
  }

  /** Some piece is not empty exactly when the text is not only separators. */
  lemma PiecesEmpty(s: string, c: char)
    ensures NotOnly(s, c) <==> AnyNonEmpty(Pieces(s, c))
  {
    if NotOnly(s, c) {
      NotOnlyGivesPiece(s, c);
    }
    if AnyNonEmpty(Pieces(s, c)) {
      PieceGivesNotOnly(s, c);
    }
  }

  predicate NotOnly(s: string, c: char) {
    exists i :: 0 <= i < |s| && s[i] != c
  }

  predicate AnyNonEmpty(ps: seq<string>) {
    exists k :: 0 <= k < |ps| && ps[k] != []
  }

  lemma {:induction false} NotOnlyGivesPiece(s: string, c: char)
    requires NotOnly(s, c)
    ensures AnyNonEmpty(Pieces(s, c))
    decreases |s|
  {
    var i :| 0 <= i < |s| && s[i] != c;
    if c !in s {
      assert Pieces(s, c)[0] == s;
    } else {
      var a := After(s, c);
      var b := Before(s, c);
      var ps := Pieces(s, c);
      assert ps[0] == b;
      if b == [] {
        SeparatorFirst(s, c, i);
        NotOnlyGivesPiece(a, c);
        var k :| 0 <= k < |Pieces(a, c)| && Pieces(a, c)[k] != [];
        assert ps[k + 1] == Pieces(a, c)[k];
      }
    }
  }

  /** When the text starts with the separator, what follows it keeps every
      other character. */
  lemma SeparatorFirst(s: string, c: char, i: int)
    requires c in s && Before(s, c) == [] && 0 <= i < |s| && s[i] != c
    ensures NotOnly(After(s, c), c)
  {
    assert s == [c] + After(s, c);
    assert After(s, c)[i - 1] == s[i];
  }

  lemma {:induction false} PieceGivesNotOnly(s: string, c: char)
    requires AnyNonEmpty(Pieces(s, c))
    ensures NotOnly(s, c)
    decreases |s|
  {
    if c !in s {
      assert Pieces(s, c) == [s];
      assert s != [] && s[0] != c;
    } else {
      var a := After(s, c);
      var b := Before(s, c);
      assert s == b + [c] + a;
      var ps := Pieces(s, c);
      assert ps == [b] + Pieces(a, c);
      var k :| 0 <= k < |ps| && ps[k] != [];
      if k == 0 {
        assert s[0] == b[0] != c;
      } else {
        assert Pieces(a, c)[k - 1] != [];
        PieceGivesNotOnly(a, c);
        var i :| 0 <= i < |a| && a[i] != c;
        assert s[|b| + 1 + i] == a[i];
      }
    }
  }

  /** `Character.isWhitespace`. */
  predicate IsJavaWhitespace(c: char) {
    c == ' ' || c == '\t' || c == '\n' || c == '\U{000B}' || c == '\U{000C}' || c == '\r'
    || ('\U{001C}' <= c <= '\U{001F}')
    || c == '\U{1680}' || ('\U{2000}' <= c <= '\U{2006}') || ('\U{2008}' <= c <= '\U{200A}')
    || c == '\U{2028}' || c == '\U{2029}' || c == '\U{205F}' || c == '\U{3000}'
  }

  /** `String.isBlank`. */
  predicate IsBlank(s: string) {
    forall i :: 0 <= i < |s| ==> IsJavaWhitespace(s[i])
  }

  function DigitChar(d: nat): (c: char)
    requires d < 10
    ensures '0' <= c <= '9'
  {
    ('0' as int + d) as char
  }

  /** `Integer.toString` for non-negative values. */
  function NatToString(n: nat): (r: string)
    ensures |r| >= 1
    ensures forall i :: 0 <= i < |r| ==> '0' <= r[i] <= '9'
  {
    if n < 10 then [DigitChar(n)] else NatToString(n / 10) + [DigitChar(n % 10)]
  }

  function IntToString(n: int): (r: string)
    ensures n >= 0 ==> r == NatToString(n)
    ensures n < 0 ==> r == "-" + NatToString(-n)
  {
    if n >= 0 then NatToString(n) else "-" + NatToString(-n)
  }

  function Join(parts: seq<string>, sep: string): (r: string)
  {
    if parts == [] then ""
    else if |parts| == 1 then parts[0]
    else parts[0] + sep + Join(parts[1..], sep)
  }
}
