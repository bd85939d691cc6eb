/**
 * Markdown code fences around generated code. Both generators clean their
 * output the same way: when the lower-cased text contains an opening fence
 * with a language tag (```` ```sql ````, ```` ```python ````), every
 * occurrence of that exact opener and then every ```` ``` ```` is removed,
 * and the result is stripped of white space.
 */
module Fences {
  import opened Text

  /** `if opener in s.lower(): s = s.replace(opener, "").replace("```", "").strip()`. */
  function CleanFences(s: string, opener: string): (r: string)
    requires |opener| > 0
    // When the cleaning is triggered, no triple backtick is left and no white space at either end.
    ensures Contains(Lower(s), opener) ==>
      !Contains(r, Fence) && (r == [] || (!IsSpace(r[0]) && !IsSpace(r[|r| - 1])))
    // When it is not, the text is kept as it is, plain fences included.
    ensures !Contains(Lower(s), opener) ==> r == s
  {
    if Contains(Lower(s), opener) then
      var removed := RemoveAll(RemoveAll(s, opener), Fence);
      RemoveFenceLeavesNone(RemoveAll(s, opener));
      StripKeepsNoOccurrence(removed, Fence);
      Strip(removed)
    else s
  }

  // ---------------------------------------------------------------------------
  // Removal facts

  /** Nothing is removed when no occurrence of `p` can start anywhere. */
  lemma {:induction false} RemoveAllNoStart(y: string, p: string)
    requires |p| > 0
    requires forall i :: 0 <= i <= |y| - |p| ==> y[i] != p[0]
    ensures RemoveAll(y, p) == y
    decreases |y|
  {
    if |y| >= |p| {
      assert y[..|p|][0] != p[0];
      RemoveAllNoStart(y[1..], p);
    }
  }

  /** A trailing `p` after a text without `p[0]` is the only thing removed. */
  lemma {:induction false} RemoveAllTrailing(x: string, p: string)
    requires |p| > 0
    requires forall i :: 0 <= i < |x| ==> x[i] != p[0]
    ensures RemoveAll(x + p, p) == x
    decreases |x|
  {
    if x == [] {
      assert (x + p)[..|p|] == p && (x + p)[|p|..] == [];
    } else {
      assert (x + p)[..|p|][0] == x[0];
      assert (x + p)[1..] == x[1..] + p;
      RemoveAllTrailing(x[1..], p);
    }
  }

  /** Before the first occurrence, every character is kept; the occurrence is removed and the rest follows. */
  lemma {:induction false} RemoveAllFirst(x: string, p: string, y: string)
    requires |p| > 0
    requires forall i :: 0 <= i < |x| ==> x[i] != p[0]
    ensures RemoveAll(x + p + y, p) == x + RemoveAll(y, p)
    decreases |x|
  {
    var s := x + p + y;
    if x == [] {
      assert s == p + y;
      assert s[..|p|] == p && s[|p|..] == y;
    } else {
      var t := x[1..] + p + y;
      assert s == [x[0]] + t;
      assert s[..|p|][0] == x[0];
      RemoveAllFirst(x[1..], p, y);
      assert x == [x[0]] + x[1..];
      ConcatAssoc([x[0]], x[1..], RemoveAll(y, p));
    }
  }

  lemma LowerAppend(a: string, b: string)
    ensures Lower(a + b) == Lower(a) + Lower(b)
  {
  }

  /** A fenced reply whose language tag is written in any case triggers the cleaning. */
  lemma FencedReplyTriggers(tag: string, body: string, lang: string)
    requires |lang| > 0 && Lower(tag) == lang
    ensures Contains(Lower(Fence + tag + body + Fence), Fence + lang)
  {
    LowerAppend(Fence + tag + body, Fence);
    LowerAppend(Fence + tag, body);
    LowerAppend(Fence, tag);
    assert Lower(Fence) == Fence;
    ContainsMiddle([], Fence + lang, Lower(body) + Fence);
    assert [] + (Fence + lang) + (Lower(body) + Fence) == Lower(Fence + tag + body + Fence);
  }

  predicate NoBacktick(s: string) {
    forall i :: 0 <= i < |s| ==> s[i] != '`'
  }

  /** `p` occurs in `y` starting at index `i`. */
  predicate OccursAt(y: string, p: string, i: int) {
    0 <= i && i + |p| <= |y| && y[i..i + |p|] == p
  }

  /** Nothing is removed when `p` occurs nowhere. */
  lemma {:induction false} RemoveAllNoOccurrence(y: string, p: string)
    requires |p| > 0
    requires forall i :: 0 <= i <= |y| - |p| ==> !OccursAt(y, p, i)
    ensures RemoveAll(y, p) == y
    decreases |y|
  {
    if |y| >= |p| {
      assert !OccursAt(y, p, 0);
      assert y[..|p|] == y[0..|p|];
      forall i | 0 <= i <= |y[1..]| - |p| ensures !OccursAt(y[1..], p, i) {
        assert !OccursAt(y, p, i + 1);
        assert y[1..][i..i + |p|] == y[i + 1..i + 1 + |p|];
      }
      RemoveAllNoOccurrence(y[1..], p);
    }
  }

  /** A tag in another case than the opener's is not an occurrence of the opener. */
  lemma OpenerMissed(tag: string, body: string, lang: string)
    requires |lang| > 0 && Lower(tag) == lang && tag != lang
    requires NoBacktick(tag) && NoBacktick(body)
    ensures RemoveAll(Fence + tag + body + Fence, Fence + lang) == Fence + tag + body + Fence
  {
    var p := Fence + lang;
    var s := Fence + tag + body + Fence;
    assert |tag| == |lang|;
    forall i | 0 <= i <= |s| - |p| ensures !OccursAt(s, p, i) {
      if i == 0 {
        NotAtStart(tag, body, lang);
      } else if i <= 2 {
        NotInsideFence(tag, body, lang, i);
      } else {
        NotAfterFence(tag, body, lang, i);
      }
    }
    RemoveAllNoOccurrence(s, p);
  }

  lemma NotAtStart(tag: string, body: string, lang: string)
    requires |tag| == |lang| && tag != lang
    ensures !OccursAt(Fence + tag + body + Fence, Fence + lang, 0)
  {
    var s := Fence + tag + body + Fence;
    var p := Fence + lang;
    assert s[..|p|][3..] == tag && p[3..] == lang;
  }

  lemma NotInsideFence(tag: string, body: string, lang: string, i: int)
    requires 0 < |tag| == |lang| && NoBacktick(tag) && 1 <= i <= 2
    ensures !OccursAt(Fence + tag + body + Fence, Fence + lang, i)
  {
    var s := Fence + tag + body + Fence;
    var p := Fence + lang;
    if i + |p| <= |s| {
      assert s[i..i + |p|][3 - i] == s[3] == tag[0];
      assert p[3 - i] == '`';
    }
  }

  lemma NotAfterFence(tag: string, body: string, lang: string, i: int)
    requires |lang| > 0 && NoBacktick(tag) && NoBacktick(body) && 3 <= i
    ensures !OccursAt(Fence + tag + body + Fence, Fence + lang, i)
  {
    var s := Fence + tag + body + Fence;
    var p := Fence + lang;
    if i + |p| <= |s| {
      assert s[i..i + |p|][0] == s[i] == (tag + body)[i - 3];
      if i - 3 >= |tag| { assert (tag + body)[i - 3] == body[i - 3 - |tag|]; }
    }
  }

  /**
   * As written: a reply fenced as ```` ```SQL ... ``` ```` (the tag in any case
   * other than the opener's own) triggers the cleaning, but the case-sensitive
   * removal misses the opener, so the tag is left in front of the code.
   */
  lemma UpperCaseTagKept(tag: string, body: string, lang: string)
    requires |lang| > 0 && NoBacktick(lang)
    requires Lower(tag) == lang && tag != lang
    requires NoBacktick(tag) && NoBacktick(body)
    ensures CleanFences(Fence + tag + body + Fence, Fence + lang) == Strip(tag + body)
  {
    var s := Fence + tag + body + Fence;
    var opener := Fence + lang;
    FencedReplyTriggers(tag, body, lang);
    OpenerMissed(tag, body, lang);
    RemoveFencesAround(tag, body);
    assert RemoveAll(RemoveAll(s, opener), Fence) == tag + body;
  }

  /** Removing the fences around a text without backticks leaves the text. */
  lemma RemoveFencesAround(tag: string, body: string)
    requires NoBacktick(tag) && NoBacktick(body)
    ensures RemoveAll(Fence + tag + body + Fence, Fence) == tag + body
  {
    var x := tag + body;
    var s := Fence + tag + body + Fence;
    assert s[..3] == Fence && s[3..] == x + Fence;
    NoBacktickAppend(tag, body);
    RemoveAllTrailing(x, Fence);
  }

  lemma NoBacktickAppend(a: string, b: string)
    requires NoBacktick(a) && NoBacktick(b)
    ensures NoBacktick(a + b)
  {
    forall i | 0 <= i < |a + b| ensures (a + b)[i] != '`' {
      if i >= |a| { assert (a + b)[i] == b[i - |a|]; }
    }
  }

  /** A reply fenced with the exact opener loses the fence: only the code is left. */
  lemma LowerCaseTagRemoved(body: string, lang: string)
    requires |lang| > 0 && NoBacktick(lang) && Lower(lang) == lang
    requires NoBacktick(body)
    ensures CleanFences(Fence + lang + body + Fence, Fence + lang) == Strip(body)
  {
    var p := Fence + lang;
    var s := Fence + lang + body + Fence;
    FencedReplyTriggers(lang, body, lang);
    assert s[..|p|] == p && s[|p|..] == body + Fence;
    RemoveAllNoStart(body + Fence, p) by {
      forall i | 0 <= i <= |body + Fence| - |p| ensures (body + Fence)[i] != p[0] {
        assert (body + Fence)[i] == body[i];
      }
    }
    RemoveAllTrailing(body, Fence);
  }

  // ---------------------------------------------------------------------------
  // The opener removed in any case

  /** `re.sub(re.escape(p), "", s, flags=re.IGNORECASE)` for a lower-case `p`. */
  function RemoveAllIgnoringCase(s: string, p: string): (r: string)
    requires |p| > 0
    ensures |r| <= |s|
    decreases |s|
  {
    if |s| < |p| then s
    else if Lower(s[..|p|]) == p then RemoveAllIgnoringCase(s[|p|..], p)
    else [s[0]] + RemoveAllIgnoringCase(s[1..], p)
  }

  /** The cleaning with the opener matched in any case, as the trigger already is. */
  function CleanFencesAnyCase(s: string, opener: string): (r: string)
    requires |opener| > 0
  {
    if Contains(Lower(s), opener) then Strip(RemoveAll(RemoveAllIgnoringCase(s, opener), Fence)) else s
  }

  lemma {:induction false} RemoveAllIgnoringCaseNoStart(y: string, p: string)
    requires |p| > 0 && p[0] == '`'
    requires forall i :: 0 <= i <= |y| - |p| ==> y[i] != '`'
    ensures RemoveAllIgnoringCase(y, p) == y
    decreases |y|
  {
    if |y| >= |p| {
      assert Lower(y[..|p|])[0] == LowerChar(y[0]) != '`';
      RemoveAllIgnoringCaseNoStart(y[1..], p);
    }
  }

  /** Corrected: whatever the case of the tag, the fence and the tag go and only the code is left. */
  lemma AnyCaseTagRemoved(tag: string, body: string, lang: string)
    requires |lang| > 0 && NoBacktick(lang)
    requires Lower(tag) == lang
    requires NoBacktick(body)
    ensures CleanFencesAnyCase(Fence + tag + body + Fence, Fence + lang) == Strip(body)
  {
    var p := Fence + lang;
    var s := Fence + tag + body + Fence;
    FencedReplyTriggers(tag, body, lang);
    assert |tag| == |lang|;
    assert s[..|p|] == Fence + tag && s[|p|..] == body + Fence;
    LowerAppend(Fence, tag);
    assert Lower(Fence) == Fence;
    RemoveAllIgnoringCaseNoStart(body + Fence, p) by {
      forall i | 0 <= i <= |body + Fence| - |p| ensures (body + Fence)[i] != '`' {
        assert (body + Fence)[i] == body[i];
      }
    }
    RemoveAllTrailing(body, Fence);
  }

  /** The corrected cleaning keeps the guarantee of the original: no triple backtick is left. */
  lemma CleanedAnyCaseHasNoFence(s: string, opener: string)
    requires |opener| > 0 && Contains(Lower(s), opener)
    ensures !Contains(CleanFencesAnyCase(s, opener), Fence)
  {
    var removed := RemoveAll(RemoveAllIgnoringCase(s, opener), Fence);
    RemoveFenceLeavesNone(RemoveAllIgnoringCase(s, opener));
    StripKeepsNoOccurrence(removed, Fence);
  }
}
