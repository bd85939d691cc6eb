/**
 * The Python `str` operations the pipeline is built from, over `seq<char>`:
 * whitespace stripping, case mapping, the ASCII fold's `encode('ascii', 'ignore')`,
 * prefix/suffix/substring tests, `replace(p, "")`, `join`, decimal rendering of
 * counts and the code-point order Python uses to compare strings.
 */
module Text {

  // ---------------------------------------------------------------------------
  // Character classes

  /** Python's `str.isspace()` for one character (ASCII and Unicode white space). */
  predicate IsSpace(c: char) {
    var n := c as int;
    n == 32 || 9 <= n <= 13 || 28 <= n <= 31 || n == 0x85 || n == 0xA0 || n == 0x1680
    || 0x2000 <= n <= 0x200A || n == 0x2028 || n == 0x2029 || n == 0x202F || n == 0x205F
    || n == 0x3000
  }

  predicate IsDigit(c: char) {
    '0' <= c <= '9'
  }

  predicate IsAsciiChar(c: char) {
    c as int < 128
  }

  predicate IsAscii(s: string) {
    forall i :: 0 <= i < |s| ==> IsAsciiChar(s[i])
  }

  // ---------------------------------------------------------------------------
  // Case mapping

  /**
   * `str.lower()` on one character. The model maps the ASCII capitals and the
   * Latin-1 capitals (U+00C0..U+00DE except U+00D7); every other character is
   * left as it is.
   */
  function LowerChar(c: char): (d: char)
    ensures IsAsciiChar(d) <==> IsAsciiChar(c)
    ensures 'A' <= c <= 'Z' ==> d as int == c as int + 32
    ensures !('A' <= c <= 'Z') && IsAsciiChar(c) ==> d == c
  {
    var n := c as int;
    if 65 <= n <= 90 || (192 <= n <= 222 && n != 215) then (n + 32) as char else c
  }

  /** `str.upper()` on one ASCII character: `a`..`z` become `A`..`Z`. */
  function UpperChar(c: char): (d: char)
    ensures IsAsciiChar(d) <==> IsAsciiChar(c)
    ensures !('a' <= d <= 'z')
    ensures 'a' <= c <= 'z' ==> d as int == c as int - 32
    ensures !('a' <= c <= 'z') ==> d == c
  {
    var n := c as int;
    if 97 <= n <= 122 then (n - 32) as char else c
  }

  function Lower(s: string): (r: string)
    ensures |r| == |s| && forall i :: 0 <= i < |r| ==> r[i] == LowerChar(s[i])
  {
    seq(|s|, i requires 0 <= i < |s| => LowerChar(s[i]))
  }

  function Upper(s: string): (r: string)
    ensures |r| == |s| && forall i :: 0 <= i < |r| ==> r[i] == UpperChar(s[i])
  {
    seq(|s|, i requires 0 <= i < |s| => UpperChar(s[i]))
  }

  /** Upper-casing an ASCII text leaves an ASCII text without lower-case letters. */
  lemma UpperAscii(s: string)
    requires IsAscii(s)
    ensures IsAscii(Upper(s)) && forall i :: 0 <= i < |Upper(s)| ==> !('a' <= Upper(s)[i] <= 'z')
  {
    var u := Upper(s);
    forall i | 0 <= i < |u| ensures IsAsciiChar(u[i]) && !('a' <= u[i] <= 'z') {
      assert u[i] == UpperChar(s[i]);
    }
  }

  // ---------------------------------------------------------------------------
  // ASCII fold

  /** `s.encode('ascii', 'ignore').decode()`: every non-ASCII character is dropped. */
  function DropNonAscii(s: string): (r: string)
    ensures IsAscii(r)
    ensures |r| <= |s|
    ensures IsAscii(s) ==> r == s
    ensures forall c :: c in r <==> c in s && IsAsciiChar(c)
  {
    if s == [] then []
    else if IsAsciiChar(s[0]) then [s[0]] + DropNonAscii(s[1..])
    else DropNonAscii(s[1..])
  }

  /** One character is kept exactly when it is ASCII. */
  lemma DropNonAsciiChar(c: char)
    ensures DropNonAscii([c]) == if IsAsciiChar(c) then [c] else []
  {
    assert [c][1..] == [];
  }

  /** The fold works character by character: the ASCII characters are kept in their order. */
  lemma {:induction false} DropNonAsciiAppend(a: string, b: string)
    ensures DropNonAscii(a + b) == DropNonAscii(a) + DropNonAscii(b)
    decreases |a|
  {
    if a == [] {
      assert a + b == b;
    } else {
      assert (a + b)[1..] == a[1..] + b;
      DropNonAsciiAppend(a[1..], b);
    }
  }

  // ---------------------------------------------------------------------------
  // Stripping white space

  function StripLeft(s: string): (r: string)
    ensures |r| <= |s| && r == s[|s| - |r|..]
    ensures forall k :: 0 <= k < |s| - |r| ==> IsSpace(s[k])
    ensures r == [] || !IsSpace(r[0])
  {
    if s != [] && IsSpace(s[0]) then StripLeft(s[1..]) else s
  }

  function StripRight(s: string): (r: string)
    ensures |r| <= |s| && r == s[..|r|]
    ensures forall k :: |r| <= k < |s| ==> IsSpace(s[k])
    ensures r == [] || !IsSpace(r[|r| - 1])
  {
    if s != [] && IsSpace(s[|s| - 1]) then StripRight(s[..|s| - 1]) else s
  }

  /** `str.strip()`: the longest infix that neither starts nor ends with white space. */
  function Strip(s: string): (r: string)
    ensures r == [] || (!IsSpace(r[0]) && !IsSpace(r[|r| - 1]))
  {
    StripRight(StripLeft(s))
  }

  /**
   * `r` is what is left of `s` once the white space before it and the white
   * space after it are cut off: an infix of `s` with no white space at either end.
   */
  ghost predicate IsStripOf(r: string, s: string) {
    && (r == [] || (!IsSpace(r[0]) && !IsSpace(r[|r| - 1])))
    && exists a :: InfixAt(r, s, a)
  }

  /** `r` sits at index `a` of `s`, with only white space around it. */
  predicate InfixAt(r: string, s: string, a: int) {
    && 0 <= a <= |s| - |r| && r == s[a..a + |r|]
    && (forall k :: 0 <= k < a ==> IsSpace(s[k]))
    && (forall k :: a + |r| <= k < |s| ==> IsSpace(s[k]))
  }

  lemma StripIsInfix(s: string)
    ensures IsStripOf(Strip(s), s)
  {
    StripInfixAt(s);
    StripOfInfix(Strip(s), s, |s| - |StripLeft(s)|);
  }

  /** The stripped text sits where the white space at the front ends. */
  lemma StripInfixAt(s: string)
    ensures InfixAt(Strip(s), s, |s| - |StripLeft(s)|)
  {
    InfixOfStrippedSuffix(s, StripLeft(s), StripRight(StripLeft(s)));
    assert Strip(s) == StripRight(StripLeft(s));
  }

  /** A prefix of a suffix, with only white space cut off on either side, is an infix. */
  lemma InfixOfStrippedSuffix(s: string, l: string, r: string)
    requires |l| <= |s| && l == s[|s| - |l|..]
    requires forall k :: 0 <= k < |s| - |l| ==> IsSpace(s[k])
    requires |r| <= |l| && r == l[..|r|]
    requires forall k :: |r| <= k < |l| ==> IsSpace(l[k])
    ensures InfixAt(r, s, |s| - |l|)
  {
    var a := |s| - |l|;
    assert r == s[a..a + |r|];
    forall k | a + |r| <= k < |s| ensures IsSpace(s[k]) {
      assert s[k] == l[k - a];
    }
  }

  lemma StripOfInfix(r: string, s: string, a: int)
    requires r == [] || (!IsSpace(r[0]) && !IsSpace(r[|r| - 1]))
    requires InfixAt(r, s, a)
    ensures IsStripOf(r, s)
  {
  }

  /** A text without white space at either end is its own stripped form. */
  lemma StripUnchanged(s: string)
    requires s == [] || (!IsSpace(s[0]) && !IsSpace(s[|s| - 1]))
    ensures Strip(s) == s
  {
    assert StripLeft(s) == s;
    assert StripRight(s) == s;
  }

  /** The characters `Strip` removes are white space, so stripping a stripped text changes nothing. */
  lemma StripIdempotent(s: string)
    ensures Strip(Strip(s)) == Strip(s)
  {
    StripUnchanged(Strip(s));
  }

  lemma {:induction false} StripLeftAppend(s: string, t: string)
    ensures StripLeft(s + t) == if StripLeft(s) == [] then StripLeft(t) else StripLeft(s) + t
    decreases |s|
  {
    if s == [] {
      assert s + t == t;
    } else if IsSpace(s[0]) {
      assert (s + t)[1..] == s[1..] + t;
      StripLeftAppend(s[1..], t);
    }
  }

  lemma {:induction false} StripLeftSpaces(w: string, s: string)
    requires forall k :: 0 <= k < |w| ==> IsSpace(w[k])
    ensures StripLeft(w + s) == StripLeft(s)
    decreases |w|
  {
    if w != [] {
      assert (w + s)[1..] == w[1..] + s;
      StripLeftSpaces(w[1..], s);
    } else {
      assert w + s == s;
    }
  }

  lemma {:induction false} StripRightSpaces(s: string, w: string)
    requires forall k :: 0 <= k < |w| ==> IsSpace(w[k])
    ensures StripRight(s + w) == StripRight(s)
    decreases |w|
  {
    if w != [] {
      assert (s + w)[..|s + w| - 1] == s + w[..|w| - 1];
      StripRightSpaces(s, w[..|w| - 1]);
    } else {
      assert s + w == s;
    }
  }

  /** White space around a text does not change what `strip` makes of it. */
  lemma {:induction false} StripIgnoresSurroundingSpace(w1: string, s: string, w2: string)
    requires forall k :: 0 <= k < |w1| ==> IsSpace(w1[k])
    requires forall k :: 0 <= k < |w2| ==> IsSpace(w2[k])
    ensures Strip(w1 + s + w2) == Strip(s)
  {
    assert w1 + s + w2 == w1 + (s + w2);
    StripLeftSpaces(w1, s + w2);
    StripLeftAppend(s, w2);
    if StripLeft(s) == [] {
      StripLeftSpaces(w2, []);
      assert w2 + [] == w2;
      assert StripLeft(w2) == [];
    } else {
      StripRightSpaces(StripLeft(s), w2);
    }
  }

  // ---------------------------------------------------------------------------
  // Prefixes, suffixes, substrings

  predicate StartsWith(s: string, p: string) {
    |p| <= |s| && s[..|p|] == p
  }

  predicate EndsWith(s: string, p: string) {
    |p| <= |s| && s[|s| - |p|..] == p
  }

  /** Python's `p in s`. */
  predicate Contains(s: string, p: string)
    decreases |s|
  {
    StartsWith(s, p) || (s != [] && Contains(s[1..], p))
  }

  lemma {:induction false} ContainsShorter(s: string, p: string)
    requires Contains(s, p)
    ensures |p| <= |s|
    decreases |s|
  {
    if !StartsWith(s, p) {
      ContainsShorter(s[1..], p);
    }
  }

  lemma {:induction false} ContainsAfter(a: string, s: string, p: string)
    requires Contains(s, p)
    ensures Contains(a + s, p)
    decreases |a|
  {
    if a == [] {
      assert a + s == s;
    } else {
      assert (a + s)[1..] == a[1..] + s;
      ContainsAfter(a[1..], s, p);
    }
  }

  lemma {:induction false} ContainsBefore(s: string, b: string, p: string)
    requires Contains(s, p)
    ensures Contains(s + b, p)
    decreases |s|
  {
    if StartsWith(s, p) {
      assert (s + b)[..|p|] == s[..|p|];
    } else {
      assert (s + b)[1..] == s[1..] + b;
      ContainsBefore(s[1..], b, p);
    }
  }

  /** A text occurs in any text built around it. */
  lemma ContainsMiddle(a: string, p: string, b: string)
    ensures Contains(a + p + b, p)
  {
    assert StartsWith(p + b, p);
    ContainsAfter(a, p + b, p);
    assert a + p + b == a + (p + b);
  }

  /** An infix of a text that does not contain `p` does not contain `p` either. */
  lemma {:induction false} ContainsInfix(s: string, i: nat, j: nat, p: string)
    requires i <= j <= |s|
    requires Contains(s[i..j], p)
    ensures Contains(s, p)
  {
    assert s == s[..i] + s[i..j] + s[j..];
    ContainsBefore(s[i..j], s[j..], p);
    ContainsAfter(s[..i], s[i..j] + s[j..], p);
    assert s[..i] + (s[i..j] + s[j..]) == s;
  }

  lemma StripKeepsNoOccurrence(s: string, p: string)
    requires !Contains(s, p)
    ensures !Contains(Strip(s), p)
  {
    var l := StripLeft(s);
    var r := StripRight(l);
    if Contains(r, p) {
      assert r == l[0..|r|];
      ContainsInfix(l, 0, |r|, p);
      assert l == s[|s| - |l|..|s|];
      ContainsInfix(s, |s| - |l|, |s|, p);
    }
  }

  lemma ConcatAssoc<T>(a: seq<T>, b: seq<T>, c: seq<T>)
    ensures a + b + c == a + (b + c)
  {
  }

  // ---------------------------------------------------------------------------
  // Subsequences

  /** `a` is `b` with some elements left out, the others kept in their order. */
  predicate IsSubsequence<T(==)>(a: seq<T>, b: seq<T>)
    decreases |b|
  {
    if b == [] then a == []
    else (a != [] && a[0] == b[0] && IsSubsequence(a[1..], b[1..])) || IsSubsequence(a, b[1..])
  }

  lemma {:induction false} SubsequenceRefl<T>(a: seq<T>)
    ensures IsSubsequence(a, a)
    decreases |a|
  {
    if a != [] {
      SubsequenceRefl(a[1..]);
    }
  }

  /** A subsequence of a suffix is a subsequence of the whole. */
  lemma {:induction false} SubsequenceOfSuffix<T>(a: seq<T>, b: seq<T>, k: nat)
    requires k <= |b| && IsSubsequence(a, b[k..])
    ensures IsSubsequence(a, b)
    decreases k
  {
    if k > 0 {
      assert b[1..][k - 1..] == b[k..];
      SubsequenceOfSuffix(a, b[1..], k - 1);
    }
  }

  // ---------------------------------------------------------------------------
  // Replacing by the empty text

  /**
   * `s.replace(p, "")`: scanning left to right, every non-overlapping occurrence
   * of `p` is removed.
   */
  function RemoveAll(s: string, p: string): (r: string)
    requires |p| > 0
    ensures |r| <= |s|
    // Only characters of `s` are kept, in their order.
    ensures IsSubsequence(r, s)
    decreases |s|
  {
    if |s| < |p| then
      SubsequenceRefl(s);
      s
    else if s[..|p|] == p then
      var r := RemoveAll(s[|p|..], p);
      SubsequenceOfSuffix(r, s, |p|);
      r
    else
      var r := [s[0]] + RemoveAll(s[1..], p);
      assert r[1..] == RemoveAll(s[1..], p);
      r
  }

  const Fence: string := "```"

  /** A text that does not start with a backtick keeps its first character. */
  lemma {:induction false} RemoveFenceKeepsHead(s: string)
    requires s != [] && s[0] != '`'
    ensures RemoveAll(s, Fence) != [] && RemoveAll(s, Fence)[0] == s[0]
  {
    if |s| >= 3 {
      assert s[..3][0] != Fence[0];
    }
  }

  /**
   * After removing every triple backtick from left to right, no triple backtick
   * is left: each run of backticks shrinks to fewer than three and runs stay
   * separated by the characters that were between them.
   */
  lemma {:induction false} RemoveFenceLeavesNone(s: string)
    ensures !Contains(RemoveAll(s, Fence), Fence)
    decreases |s|
  {
    var r := RemoveAll(s, Fence);
    if |s| < 3 {
      if Contains(r, Fence) { ContainsShorter(r, Fence); }
    } else if s[..3] == Fence {
      RemoveFenceLeavesNone(s[3..]);
    } else {
      var x := RemoveAll(s[1..], Fence);
      assert r == [s[0]] + x;
      RemoveFenceLeavesNone(s[1..]);
      assert r[1..] == x;
    }
  }

  // ---------------------------------------------------------------------------
  // Joining

  /** `sep.join(parts)`. */
  function Join(sep: string, parts: seq<string>): (r: string)
    decreases |parts|
  {
    if parts == [] then ""
    else if |parts| == 1 then parts[0]
    else parts[0] + sep + Join(sep, parts[1..])
  }

  /** Joining texts that all end with `c` gives a text that ends with `c`. */
  lemma {:induction false} JoinEndsWith(sep: string, parts: seq<string>, c: char)
    requires parts != []
    requires forall k :: 0 <= k < |parts| ==> parts[k] != [] && parts[k][|parts[k]| - 1] == c
    ensures var r := Join(sep, parts); r != [] && r[|r| - 1] == c
    decreases |parts|
  {
    if |parts| > 1 {
      JoinEndsWith(sep, parts[1..], c);
    }
  }

  /** Every part occurs in the joined text. */
  lemma {:induction false} JoinContainsPart(sep: string, parts: seq<string>, k: nat)
    requires k < |parts|
    ensures Contains(Join(sep, parts), parts[k])
    decreases |parts|
  {
    if |parts| == 1 {
      ContainsMiddle([], parts[0], []);
      assert [] + parts[0] + [] == parts[0];
    } else if k == 0 {
      var rest := sep + Join(sep, parts[1..]);
      ContainsMiddle([], parts[0], rest);
      assert [] + parts[0] + rest == Join(sep, parts);
    } else {
      JoinContainsPart(sep, parts[1..], k - 1);
      ContainsAfter(parts[0] + sep, Join(sep, parts[1..]), parts[k]);
    }
  }

  /** Joining one more part puts a separator and the part at the end. */
  lemma {:induction false} JoinAppend(sep: string, parts: seq<string>, p: string)
    requires parts != []
    ensures Join(sep, parts + [p]) == Join(sep, parts) + sep + p
    decreases |parts|
  {
    var ps := parts + [p];
    if |parts| == 1 {
      assert ps[1..] == [p];
    } else {
      assert ps[1..] == parts[1..] + [p];
      JoinAppend(sep, parts[1..], p);
      var a := parts[0] + sep;
      var j := Join(sep, parts[1..]);
      assert Join(sep, ps) == a + (j + sep + p);
      ConcatAssoc(a, j + sep, p);
      ConcatAssoc(a, j, sep);
    }
  }

  /** `p` sits at index `i` of `s`. */
  predicate OccursAt(p: string, s: string, i: int) {
    0 <= i && i + |p| <= |s| && s[i..i + |p|] == p
  }

  /** Where part `k` starts in the joined text: after every earlier part and its separator. */
  function PartOffset(sep: string, parts: seq<string>, k: nat): nat
    requires k < |parts|
    decreases k
  {
    if k == 0 then 0 else |parts[0]| + |sep| + PartOffset(sep, parts[1..], k - 1)
  }

  lemma {:induction false} PartOffsetNext(sep: string, parts: seq<string>, k: nat)
    requires k + 1 < |parts|
    ensures PartOffset(sep, parts, k + 1) == PartOffset(sep, parts, k) + |parts[k]| + |sep|
    decreases k
  {
    if k > 0 {
      PartOffsetNext(sep, parts[1..], k - 1);
    }
  }

  lemma SliceAfterPrefix(a: string, b: string, i: int, j: int)
    requires 0 <= i <= j <= |b|
    ensures (a + b)[|a| + i..|a| + j] == b[i..j]
  {
    assert forall n :: 0 <= n < j - i ==> (a + b)[|a| + i..|a| + j][n] == b[i..j][n];
  }

  lemma OccursAtStart(x: string, rest: string)
    ensures OccursAt(x, x + rest, 0)
  {
    assert (x + rest)[0..|x|] == x;
  }

  lemma OccursAfterPrefix(x: string, a: string, r: string, i: int)
    requires OccursAt(x, r, i)
    ensures OccursAt(x, a + r, |a| + i)
  {
    SliceAfterPrefix(a, r, i, i + |x|);
  }

  /** The first part and the separator after it open a join of two or more parts. */
  lemma JoinHeadAt(sep: string, parts: seq<string>)
    requires |parts| >= 2
    ensures OccursAt(parts[0], Join(sep, parts), 0)
    ensures OccursAt(sep, Join(sep, parts), |parts[0]|)
  {
    var r1 := Join(sep, parts[1..]);
    assert Join(sep, parts) == parts[0] + sep + r1;
    ConcatAssoc(parts[0], sep, r1);
    OccursAtStart(parts[0], sep + r1);
    OccursAtStart(sep, r1);
    OccursAfterPrefix(sep, parts[0], sep + r1, 0);
  }

  /**
   * The joined text is laid out part by part: part `k` sits at its offset,
   * a separator follows it unless it is the last part, and the last part ends
   * the text.
   */
  lemma {:induction false} JoinPartAt(sep: string, parts: seq<string>, k: nat)
    requires k < |parts|
    ensures OccursAt(parts[k], Join(sep, parts), PartOffset(sep, parts, k))
    ensures k + 1 < |parts| ==>
      && OccursAt(sep, Join(sep, parts), PartOffset(sep, parts, k) + |parts[k]|)
      && PartOffset(sep, parts, k + 1) == PartOffset(sep, parts, k) + |parts[k]| + |sep|
    ensures k + 1 == |parts| ==> PartOffset(sep, parts, k) + |parts[k]| == |Join(sep, parts)|
    decreases |parts|
  {
    if |parts| == 1 {
      assert Join(sep, parts) == parts[0];
      OccursAtStart(parts[0], []);
    } else if k == 0 {
      JoinHeadAt(sep, parts);
      PartOffsetNext(sep, parts, 0);
    } else {
      var rest := parts[1..];
      var r1 := Join(sep, rest);
      var a := parts[0] + sep;
      assert Join(sep, parts) == a + r1;
      JoinPartAt(sep, rest, k - 1);
      var p1 := PartOffset(sep, rest, k - 1);
      assert rest[k - 1] == parts[k];
      assert PartOffset(sep, parts, k) == |a| + p1;
      OccursAfterPrefix(parts[k], a, r1, p1);
      if k + 1 < |parts| {
        OccursAfterPrefix(sep, a, r1, p1 + |parts[k]|);
        PartOffsetNext(sep, parts, k);
      }
    }
  }

  /** An earlier part lies wholly before a later one, with a separator between them. */
  lemma {:induction false} PartOffsetsIncrease(sep: string, parts: seq<string>, i: nat, j: nat)
    requires i < j < |parts|
    ensures PartOffset(sep, parts, i) + |parts[i]| + |sep| <= PartOffset(sep, parts, j)
    decreases j - i
  {
    PartOffsetNext(sep, parts, i);
    if i + 1 < j {
      PartOffsetsIncrease(sep, parts, i + 1, j);
    }
  }

  /** `sep.join(parts)` keeps the order of the parts. */
  lemma JoinPartsInOrder(sep: string, parts: seq<string>, i: nat, j: nat)
    requires i < j < |parts|
    ensures exists p, q ::
      && OccursAt(parts[i], Join(sep, parts), p)
      && OccursAt(parts[j], Join(sep, parts), q)
      && p + |parts[i]| + |sep| <= q
  {
    JoinPartAt(sep, parts, i);
    JoinPartAt(sep, parts, j);
    PartOffsetsIncrease(sep, parts, i, j);
    var p, q := PartOffset(sep, parts, i), PartOffset(sep, parts, j);
    assert OccursAt(parts[i], Join(sep, parts), p) && OccursAt(parts[j], Join(sep, parts), q);
  }

  // ---------------------------------------------------------------------------
  // Decimal numbers

  function DigitChar(d: nat): (c: char)
    requires d < 10
    ensures IsDigit(c) && c as int - '0' as int == d
  {
    ('0' as int + d) as char
  }

  /** `str(n)` for a non-negative integer. */
  function NatToString(n: nat): (r: string)
    ensures r != [] && forall i :: 0 <= i < |r| ==> IsDigit(r[i])
  {
    if n < 10 then [DigitChar(n)] else NatToString(n / 10) + [DigitChar(n % 10)]
  }

  /** The value of a text of decimal digits. */
  function ParseDigits(s: string): nat
    requires forall i :: 0 <= i < |s| ==> IsDigit(s[i])
  {
    if s == [] then 0
    else
      assert IsDigit(s[|s| - 1]);
      ParseDigits(s[..|s| - 1]) * 10 + (s[|s| - 1] as int - '0' as int)
  }

  /** The longest prefix of `s` made of decimal digits. */
  function LeadingDigits(s: string): (r: string)
    ensures forall i :: 0 <= i < |r| ==> IsDigit(r[i])
  {
    if s != [] && IsDigit(s[0]) then [s[0]] + LeadingDigits(s[1..]) else []
  }

  /** Rendering a count in decimal and reading it back gives the count. */
  lemma {:induction false} ParseNatToString(n: nat)
    ensures ParseDigits(NatToString(n)) == n
  {
    if n >= 10 {
      ParseNatToString(n / 10);
      var r := NatToString(n);
      assert r[..|r| - 1] == NatToString(n / 10);
    }
  }

  lemma {:induction false} LeadingDigitsOf(d: string, rest: string)
    requires forall i :: 0 <= i < |d| ==> IsDigit(d[i])
    requires rest == [] || !IsDigit(rest[0])
    ensures LeadingDigits(d + rest) == d
    decreases |d|
  {
    if d == [] {
      assert d + rest == rest;
    } else {
      assert (d + rest)[1..] == d[1..] + rest;
      LeadingDigitsOf(d[1..], rest);
    }
  }

  // ---------------------------------------------------------------------------
  // Python's string order: code point by code point, a proper prefix first

  predicate Less(a: string, b: string)
    decreases |a|
  {
    if a == [] then b != []
    else if b == [] then false
    else if a[0] != b[0] then a[0] < b[0]
    else Less(a[1..], b[1..])
  }

  lemma {:induction false} LessIrreflexive(a: string)
    ensures !Less(a, a)
    decreases |a|
  {
    if a != [] {
      LessIrreflexive(a[1..]);
    }
  }

  lemma {:induction false} LessTransitive(a: string, b: string, c: string)
    requires Less(a, b) && Less(b, c)
    ensures Less(a, c)
    decreases |a|
  {
    if a != [] && b != [] && c != [] && a[0] == b[0] && b[0] == c[0] {
      LessTransitive(a[1..], b[1..], c[1..]);
    }
  }

  lemma {:induction false} LessTotal(a: string, b: string)
    ensures a == b || Less(a, b) || Less(b, a)
    decreases |a|
  {
    if a != [] && b != [] && a[0] == b[0] {
      LessTotal(a[1..], b[1..]);
      if a[1..] == b[1..] {
        assert a == [a[0]] + a[1..] && b == [b[0]] + b[1..];
      }
    }
  }

  lemma {:induction false} LessAsymmetric(a: string, b: string)
    requires Less(a, b)
    ensures !Less(b, a)
  {
    if Less(b, a) {
      LessTransitive(a, b, a);
      LessIrreflexive(a);
    }
  }
}
