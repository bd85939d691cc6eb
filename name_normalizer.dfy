/**
 * `normalize_name`: turns a file or column name into a SQL-safe identifier.
 * Lower-case, fold to ASCII, replace each run of characters outside `[a-z0-9_]`
 * by `_`, collapse repeated `_`, trim `_` at both ends.
 */
module NameNormalizer {
  import opened Text

  /**
   * The Unicode decomposition `unicodedata.normalize('NFKD', ·)`. Its tables are
   * not part of this model: every operation that uses it takes it as a parameter.
   */
  type Decomposition = string -> string

  /** NFKD leaves ASCII text unchanged (ASCII is already decomposed). */
  ghost predicate FixesAscii(nfkd: Decomposition) {
    forall s :: IsAscii(s) ==> nfkd(s) == s
  }

  /** `unicodedata.normalize('NFKD', s).encode('ascii', 'ignore').decode('utf-8')`. */
  function AsciiFold(nfkd: Decomposition, s: string): (r: string)
    ensures IsAscii(r)
    ensures FixesAscii(nfkd) && IsAscii(s) ==> r == s
    ensures forall c :: c in r <==> c in nfkd(s) && IsAsciiChar(c)
  {
    DropNonAscii(nfkd(s))
  }

  // ---------------------------------------------------------------------------
  // Alphabet of the result

  predicate IsWordChar(c: char) {
    'a' <= c <= 'z' || '0' <= c <= '9' || c == '_'
  }

  /** A letter or digit of the result alphabet: a word character other than `_`. */
  predicate IsAlnum(c: char) {
    'a' <= c <= 'z' || '0' <= c <= '9'
  }

  predicate IsWord(s: string) {
    forall i :: 0 <= i < |s| ==> IsWordChar(s[i])
  }

  predicate HasAlnum(s: string)
    decreases |s|
  {
    s != [] && (IsAlnum(s[0]) || HasAlnum(s[1..]))
  }

  /** The letters and digits of `s`, in order. */
  function Alnums(s: string): (r: string)
    ensures forall i :: 0 <= i < |r| ==> IsAlnum(r[i])
    ensures |r| <= |s|
    decreases |s|
  {
    if s == [] then [] else (if IsAlnum(s[0]) then [s[0]] else []) + Alnums(s[1..])
  }

  lemma AlnumsCons(c: char, y: string)
    ensures Alnums([c] + y) == (if IsAlnum(c) then [c] else []) + Alnums(y)
  {
    assert ([c] + y)[1..] == y;
  }

  lemma {:induction false} AlnumsAppend(a: string, b: string)
    ensures Alnums(a + b) == Alnums(a) + Alnums(b)
    decreases |a|
  {
    if a == [] {
      assert a + b == b;
    } else {
      assert (a + b)[1..] == a[1..] + b;
      AlnumsAppend(a[1..], b);
    }
  }

  /** A text has a letter or digit exactly when its letters and digits are not none. */
  lemma {:induction false} HasAlnumIffAlnums(s: string)
    ensures HasAlnum(s) <==> Alnums(s) != []
    decreases |s|
  {
    if s != [] {
      HasAlnumIffAlnums(s[1..]);
    }
  }

  predicate NoDoubleUnderscore(s: string) {
    forall i :: 0 <= i < |s| - 1 ==> !(s[i] == '_' && s[i + 1] == '_')
  }

  /** What `normalize_name` promises of its result. */
  predicate IsNormalName(s: string) {
    && IsWord(s)
    && NoDoubleUnderscore(s)
    && (s == [] || (s[0] != '_' && s[|s| - 1] != '_'))
  }

  // ---------------------------------------------------------------------------
  // Step 3: re.sub(r'[^a-z0-9_]+', '_', s)

  function SkipNonWord(s: string): (r: string)
    ensures |r| <= |s|
    ensures HasAlnum(r) == HasAlnum(s)
  {
    if s != [] && !IsWordChar(s[0]) then SkipNonWord(s[1..]) else s
  }

  /** Each maximal run of characters outside `[a-z0-9_]` becomes one `_`. */
  function ReplaceNonWordRuns(s: string): (r: string)
    ensures IsWord(r)
    ensures HasAlnum(r) == HasAlnum(s)
    ensures IsWord(s) ==> r == s
    decreases |s|
  {
    if s == [] then []
    else if IsWordChar(s[0]) then [s[0]] + ReplaceNonWordRuns(s[1..])
    else "_" + ReplaceNonWordRuns(SkipNonWord(s[1..]))
  }

  /** Only characters outside `[a-z0-9_]` are skipped, so no letter or digit is. */
  lemma {:induction false} SkipNonWordKeepsAlnums(s: string)
    ensures Alnums(SkipNonWord(s)) == Alnums(s)
    decreases |s|
  {
    if s != [] && !IsWordChar(s[0]) {
      SkipNonWordKeepsAlnums(s[1..]);
      AlnumsCons(s[0], s[1..]);
      assert s == [s[0]] + s[1..];
    }
  }

  /** Replacing the runs keeps every letter and digit, in order, and adds none. */
  lemma {:induction false} ReplaceKeepsAlnums(s: string)
    ensures Alnums(ReplaceNonWordRuns(s)) == Alnums(s)
    decreases |s|
  {
    if s != [] {
      assert s == [s[0]] + s[1..];
      AlnumsCons(s[0], s[1..]);
      if IsWordChar(s[0]) {
        ReplaceKeepsAlnums(s[1..]);
        AlnumsCons(s[0], ReplaceNonWordRuns(s[1..]));
      } else {
        var t := SkipNonWord(s[1..]);
        ReplaceKeepsAlnums(t);
        SkipNonWordKeepsAlnums(s[1..]);
        AlnumsCons('_', ReplaceNonWordRuns(t));
      }
    }
  }

  /** A run of characters outside `[a-z0-9_]` is skipped up to the word character that ends it. */
  lemma {:induction false} SkipNonWordRun(w: string, b: string)
    requires forall i :: 0 <= i < |w| ==> !IsWordChar(w[i])
    requires b == [] || IsWordChar(b[0])
    ensures SkipNonWord(w + b) == b
    decreases |w|
  {
    if w == [] {
      assert w + b == b;
    } else {
      assert (w + b)[1..] == w[1..] + b;
      SkipNonWordRun(w[1..], b);
    }
  }

  /** Skipping inside a text that ends with a word character never reaches what follows it. */
  lemma {:induction false} SkipNonWordAppend(y: string, x: string)
    requires y != [] && IsWordChar(y[|y| - 1])
    ensures SkipNonWord(y + x) == SkipNonWord(y) + x
    ensures var k := SkipNonWord(y); k != [] && k[|k| - 1] == y[|y| - 1] && |k| <= |y|
    decreases |y|
  {
    if !IsWordChar(y[0]) {
      assert (y + x)[1..] == y[1..] + x;
      SkipNonWordAppend(y[1..], x);
    }
  }

  /** The replacement works separately on the two sides of a boundary after a word character. */
  lemma {:induction false} ReplaceAppend(a: string, x: string)
    requires a == [] || IsWordChar(a[|a| - 1])
    ensures ReplaceNonWordRuns(a + x) == ReplaceNonWordRuns(a) + ReplaceNonWordRuns(x)
    decreases |a|
  {
    if a == [] {
      assert a + x == x;
    } else if IsWordChar(a[0]) {
      assert (a + x)[1..] == a[1..] + x;
      ReplaceAppend(a[1..], x);
      assert ReplaceNonWordRuns(a + x) == [a[0]] + ReplaceNonWordRuns(a[1..] + x);
      assert ReplaceNonWordRuns(a) == [a[0]] + ReplaceNonWordRuns(a[1..]);
      ConcatAssoc([a[0]], ReplaceNonWordRuns(a[1..]), ReplaceNonWordRuns(x));
    } else {
      assert (a + x)[1..] == a[1..] + x;
      SkipNonWordAppend(a[1..], x);
      var k := SkipNonWord(a[1..]);
      ReplaceAppend(k, x);
      assert ReplaceNonWordRuns(a + x) == "_" + ReplaceNonWordRuns(k + x);
      assert ReplaceNonWordRuns(a) == "_" + ReplaceNonWordRuns(k);
      ConcatAssoc("_", ReplaceNonWordRuns(k), ReplaceNonWordRuns(x));
    }
  }

  /** Each maximal run of characters outside `[a-z0-9_]` becomes exactly one `_`. */
  lemma ReplaceRunBetween(a: string, w: string, b: string)
    requires a == [] || IsWordChar(a[|a| - 1])
    requires w != [] && forall i :: 0 <= i < |w| ==> !IsWordChar(w[i])
    requires b == [] || IsWordChar(b[0])
    ensures ReplaceNonWordRuns(a + w + b) == ReplaceNonWordRuns(a) + "_" + ReplaceNonWordRuns(b)
  {
    ConcatAssoc(a, w, b);
    ReplaceAppend(a, w + b);
    ReplaceRun(w, b);
    ConcatAssoc(ReplaceNonWordRuns(a), "_", ReplaceNonWordRuns(b));
  }

  lemma ReplaceRun(w: string, b: string)
    requires w != [] && forall i :: 0 <= i < |w| ==> !IsWordChar(w[i])
    requires b == [] || IsWordChar(b[0])
    ensures ReplaceNonWordRuns(w + b) == "_" + ReplaceNonWordRuns(b)
  {
    var v := w + b;
    assert !IsWordChar(v[0]);
    assert v[1..] == w[1..] + b;
    SkipNonWordRun(w[1..], b);
  }

  /** Skipping stops at a word character, so what follows one is never skipped. */
  lemma {:induction false} SkipNonWordBefore(v: string, y: string)
    requires y == [] || IsWordChar(y[0])
    ensures SkipNonWord(v + y) == SkipNonWord(v) + y
    decreases |v|
  {
    if v == [] {
      assert v + y == y;
    } else if !IsWordChar(v[0]) {
      assert (v + y)[1..] == v[1..] + y;
      SkipNonWordBefore(v[1..], y);
    }
  }

  /** The replacement works separately on the two sides of a boundary before a word character. */
  lemma {:induction false} ReplaceAppendBefore(w: string, y: string)
    requires y == [] || IsWordChar(y[0])
    ensures ReplaceNonWordRuns(w + y) == ReplaceNonWordRuns(w) + ReplaceNonWordRuns(y)
    decreases |w|
  {
    if w == [] {
      assert w + y == y;
    } else if IsWordChar(w[0]) {
      assert (w + y)[1..] == w[1..] + y;
      ReplaceAppendBefore(w[1..], y);
      assert ReplaceNonWordRuns(w + y) == [w[0]] + ReplaceNonWordRuns(w[1..] + y);
      assert ReplaceNonWordRuns(w) == [w[0]] + ReplaceNonWordRuns(w[1..]);
      ConcatAssoc([w[0]], ReplaceNonWordRuns(w[1..]), ReplaceNonWordRuns(y));
    } else {
      assert (w + y)[1..] == w[1..] + y;
      SkipNonWordBefore(w[1..], y);
      var k := SkipNonWord(w[1..]);
      ReplaceAppendBefore(k, y);
      assert ReplaceNonWordRuns(w + y) == "_" + ReplaceNonWordRuns(k + y);
      assert ReplaceNonWordRuns(w) == "_" + ReplaceNonWordRuns(k);
      ConcatAssoc("_", ReplaceNonWordRuns(k), ReplaceNonWordRuns(y));
    }
  }

  /** A letter or digit anywhere in a text is found by `HasAlnum`. */
  lemma {:induction false} AlnumAtHasAlnum(s: string, i: nat)
    requires i < |s| && IsAlnum(s[i])
    ensures HasAlnum(s)
    decreases i
  {
    if i > 0 {
      assert s[1..][i - 1] == s[i];
      AlnumAtHasAlnum(s[1..], i - 1);
    }
  }

  /** A text with no letter or digit has none for `HasAlnum` either. */
  lemma {:induction false} NoAlnumCharsHasNone(s: string)
    requires forall i :: 0 <= i < |s| ==> !IsAlnum(s[i])
    ensures !HasAlnum(s)
    decreases |s|
  {
    if s != [] {
      NoAlnumCharsHasNone(s[1..]);
    }
  }

  /**
   * A separator with no letter or digit (say `"_ "` or `"__"`) is replaced by
   * underscores only, and by at least one.
   */
  lemma ReplaceSeparator(w: string)
    requires w != [] && forall i :: 0 <= i < |w| ==> !IsAlnum(w[i])
    ensures var u := ReplaceNonWordRuns(w); u != [] && forall i :: 0 <= i < |u| ==> u[i] == '_'
  {
    var u := ReplaceNonWordRuns(w);
    NoAlnumCharsHasNone(w);
    forall i | 0 <= i < |u| ensures u[i] == '_' {
      if IsAlnum(u[i]) {
        AlnumAtHasAlnum(u, i);
      }
    }
  }

  // ---------------------------------------------------------------------------
  // Step 4: re.sub(r'_+', '_', s)

  /** The text after its leading `_`; also the first half of `strip('_')`. */
  function SkipUnderscores(s: string): (r: string)
    ensures |r| <= |s| && r == s[|s| - |r|..]
    ensures r == [] || r[0] != '_'
    ensures HasAlnum(r) == HasAlnum(s)
  {
    if s != [] && s[0] == '_' then SkipUnderscores(s[1..]) else s
  }

  /** Each run of `_` becomes a single `_`. */
  function CollapseUnderscores(s: string): (r: string)
    ensures (r == []) == (s == [])
    ensures r != [] ==> r[0] == s[0]
    decreases |s|
  {
    if s == [] then []
    else if s[0] == '_' then "_" + CollapseUnderscores(SkipUnderscores(s[1..]))
    else [s[0]] + CollapseUnderscores(s[1..])
  }

  lemma WordCons(c: char, y: string)
    requires IsWordChar(c) && IsWord(y)
    ensures IsWord([c] + y)
  {
    assert forall i :: 0 < i < |[c] + y| ==> ([c] + y)[i] == y[i - 1];
  }

  lemma HasAlnumCons(c: char, y: string)
    ensures HasAlnum([c] + y) == (IsAlnum(c) || HasAlnum(y))
  {
    assert ([c] + y)[1..] == y;
  }

  lemma NoDoubleCons(c: char, y: string)
    requires NoDoubleUnderscore(y)
    requires c == '_' ==> y == [] || y[0] != '_'
    ensures NoDoubleUnderscore([c] + y)
  {
    assert forall i :: 0 < i < |[c] + y| ==> ([c] + y)[i] == y[i - 1];
  }

  /** Collapsing only ever writes `_` and characters of its input. */
  lemma {:induction false} CollapseKeepsWord(s: string)
    requires IsWord(s)
    ensures IsWord(CollapseUnderscores(s))
    decreases |s|
  {
    if s != [] {
      if s[0] == '_' {
        var t := SkipUnderscores(s[1..]);
        assert forall k :: 0 <= k < |t| ==> t[k] == s[|s| - |t| + k];
        CollapseKeepsWord(t);
        WordCons('_', CollapseUnderscores(t));
      } else {
        CollapseKeepsWord(s[1..]);
        WordCons(s[0], CollapseUnderscores(s[1..]));
      }
    }
  }

  lemma {:induction false} SkipUnderscoresKeepsAlnums(s: string)
    ensures Alnums(SkipUnderscores(s)) == Alnums(s)
    decreases |s|
  {
    if s != [] && s[0] == '_' {
      assert SkipUnderscores(s) == SkipUnderscores(s[1..]);
      SkipUnderscoresKeepsAlnums(s[1..]);
      assert s == ['_'] + s[1..];
      AlnumsCons('_', s[1..]);
      assert !IsAlnum('_');
    }
  }

  /** Collapsing drops only underscores: the letters and digits are kept, in order, and none is added. */
  lemma {:induction false} CollapseKeepsAlnum(s: string)
    ensures Alnums(CollapseUnderscores(s)) == Alnums(s)
    decreases |s|
  {
    if s != [] {
      AlnumsCons(s[0], s[1..]);
      assert s == [s[0]] + s[1..];
      if s[0] == '_' {
        var t := SkipUnderscores(s[1..]);
        CollapseKeepsAlnum(t);
        SkipUnderscoresKeepsAlnums(s[1..]);
        AlnumsCons('_', CollapseUnderscores(t));
      } else {
        CollapseKeepsAlnum(s[1..]);
        AlnumsCons(s[0], CollapseUnderscores(s[1..]));
      }
    }
  }

  /** After collapsing, no two underscores are adjacent. */
  lemma {:induction false} CollapseLeavesNoDouble(s: string)
    ensures NoDoubleUnderscore(CollapseUnderscores(s))
    decreases |s|
  {
    if s != [] {
      if s[0] == '_' {
        var t := SkipUnderscores(s[1..]);
        CollapseLeavesNoDouble(t);
        NoDoubleCons('_', CollapseUnderscores(t));
      } else {
        CollapseLeavesNoDouble(s[1..]);
        NoDoubleCons(s[0], CollapseUnderscores(s[1..]));
      }
    }
  }

  /** A text without adjacent underscores is left as it is. */
  lemma {:induction false} CollapseFixesNoDouble(s: string)
    requires NoDoubleUnderscore(s)
    ensures CollapseUnderscores(s) == s
    decreases |s|
  {
    if s != [] {
      SliceKeepsNoDouble(s, 1, |s|);
      CollapseFixesNoDouble(s[1..]);
      if s[0] == '_' {
        assert s[1..] == [] || s[1..][0] != '_' by {
          if |s| > 1 { assert !(s[0] == '_' && s[1] == '_'); }
        }
        assert SkipUnderscores(s[1..]) == s[1..];
      }
      assert s == [s[0]] + s[1..];
    }
  }

  /** A run of `_` is skipped up to the character that ends it. */
  lemma {:induction false} SkipUnderscoresRun(u: string, b: string)
    requires forall i :: 0 <= i < |u| ==> u[i] == '_'
    requires b == [] || b[0] != '_'
    ensures SkipUnderscores(u + b) == b
    decreases |u|
  {
    if u == [] {
      assert u + b == b;
    } else {
      assert (u + b)[1..] == u[1..] + b;
      SkipUnderscoresRun(u[1..], b);
    }
  }

  /** Skipping inside a text that does not end with `_` never reaches what follows it. */
  lemma {:induction false} SkipUnderscoresAppend(y: string, x: string)
    requires y != [] && y[|y| - 1] != '_'
    ensures SkipUnderscores(y + x) == SkipUnderscores(y) + x
    ensures var k := SkipUnderscores(y); k != [] && k[|k| - 1] == y[|y| - 1] && |k| <= |y|
    decreases |y|
  {
    if y[0] == '_' {
      var z := y[1..];
      assert z != [] && z[|z| - 1] == y[|y| - 1];
      assert (y + x)[1..] == z + x;
      SkipUnderscoresAppend(z, x);
      assert SkipUnderscores(y + x) == SkipUnderscores(z + x);
      assert SkipUnderscores(y) == SkipUnderscores(z);
    } else {
      assert SkipUnderscores(y) == y;
      assert (y + x)[0] == y[0];
    }
  }

  /** Collapsing works separately on the two sides of a boundary after a character other than `_`. */
  lemma {:induction false} CollapseAppend(a: string, x: string)
    requires a == [] || a[|a| - 1] != '_'
    ensures CollapseUnderscores(a + x) == CollapseUnderscores(a) + CollapseUnderscores(x)
    decreases |a|
  {
    if a == [] {
      assert a + x == x;
    } else if a[0] != '_' {
      assert (a + x)[1..] == a[1..] + x;
      CollapseAppend(a[1..], x);
      assert CollapseUnderscores(a + x) == [a[0]] + CollapseUnderscores(a[1..] + x);
      assert CollapseUnderscores(a) == [a[0]] + CollapseUnderscores(a[1..]);
      ConcatAssoc([a[0]], CollapseUnderscores(a[1..]), CollapseUnderscores(x));
    } else {
      assert (a + x)[1..] == a[1..] + x;
      SkipUnderscoresAppend(a[1..], x);
      var k := SkipUnderscores(a[1..]);
      CollapseAppend(k, x);
      assert CollapseUnderscores(a + x) == "_" + CollapseUnderscores(k + x);
      assert CollapseUnderscores(a) == "_" + CollapseUnderscores(k);
      ConcatAssoc("_", CollapseUnderscores(k), CollapseUnderscores(x));
    }
  }

  lemma CollapseRun(u: string, b: string)
    requires u != [] && forall i :: 0 <= i < |u| ==> u[i] == '_'
    requires b == [] || b[0] != '_'
    ensures CollapseUnderscores(u + b) == "_" + CollapseUnderscores(b)
  {
    var v := u + b;
    assert v[0] == '_';
    assert v[1..] == u[1..] + b;
    SkipUnderscoresRun(u[1..], b);
  }

  /** Each maximal run of `_` becomes exactly one `_`, and each side is collapsed on its own. */
  lemma CollapseRunBetween(a: string, u: string, b: string)
    requires a == [] || a[|a| - 1] != '_'
    requires u != [] && forall i :: 0 <= i < |u| ==> u[i] == '_'
    requires b == [] || b[0] != '_'
    ensures CollapseUnderscores(a + u + b) == CollapseUnderscores(a) + "_" + CollapseUnderscores(b)
  {
    ConcatAssoc(a, u, b);
    CollapseAppend(a, u + b);
    CollapseRun(u, b);
    ConcatAssoc(CollapseUnderscores(a), "_", CollapseUnderscores(b));
  }

  // ---------------------------------------------------------------------------
  // Step 5: s.strip('_')

  function TrimTrailingUnderscores(s: string): (r: string)
    ensures |r| <= |s| && r == s[..|r|]
    ensures r == [] || r[|r| - 1] != '_'
    ensures forall k :: |r| <= k < |s| ==> s[k] == '_'
  {
    if s != [] && s[|s| - 1] == '_' then TrimTrailingUnderscores(s[..|s| - 1]) else s
  }

  /** A text whose characters are all `_` holds no letter or digit. */
  lemma {:induction false} UnderscoresHaveNoAlnum(s: string)
    requires forall k :: 0 <= k < |s| ==> s[k] == '_'
    ensures !HasAlnum(s)
    decreases |s|
  {
    if s != [] {
      UnderscoresHaveNoAlnum(s[1..]);
    }
  }

  /** Trailing `_` hold no letter or digit, so trimming them keeps `HasAlnum`. */
  lemma {:induction false} HasAlnumPrefix(s: string, n: nat)
    requires n <= |s|
    requires forall k :: n <= k < |s| ==> s[k] == '_'
    ensures HasAlnum(s[..n]) == HasAlnum(s)
    decreases n
  {
    if n == 0 {
      UnderscoresHaveNoAlnum(s);
    } else {
      assert s[..n][1..] == s[1..][..n - 1];
      HasAlnumPrefix(s[1..], n - 1);
    }
  }

  function TrimUnderscores(s: string): (r: string)
    ensures r == [] || (r[0] != '_' && r[|r| - 1] != '_')
    ensures HasAlnum(r) == HasAlnum(s)
    ensures s == [] || (s[0] != '_' && s[|s| - 1] != '_') ==> r == s
  {
    var l := SkipUnderscores(s);
    var r := TrimTrailingUnderscores(l);
    HasAlnumPrefix(l, |r|);
    r
  }

  /** Trimming keeps an infix of its input. */
  lemma TrimIsSlice(s: string)
    ensures var a := |s| - |SkipUnderscores(s)|;
      a + |TrimUnderscores(s)| <= |s| && TrimUnderscores(s) == s[a..a + |TrimUnderscores(s)|]
  {
    var l := SkipUnderscores(s);
    var r := TrimTrailingUnderscores(l);
    var a := |s| - |l|;
    assert l == s[a..] && r == l[..|r|];
    assert s[a..][..|r|] == s[a..a + |r|];
  }

  lemma {:induction false} UnderscoresHaveNoAlnums(s: string)
    requires forall k :: 0 <= k < |s| ==> s[k] == '_'
    ensures Alnums(s) == []
    decreases |s|
  {
    if s != [] {
      UnderscoresHaveNoAlnums(s[1..]);
    }
  }

  lemma TrimTrailingKeepsAlnums(s: string)
    ensures Alnums(TrimTrailingUnderscores(s)) == Alnums(s)
  {
    var r := TrimTrailingUnderscores(s);
    var tail := s[|r|..];
    assert s == r + tail;
    AlnumsAppend(r, tail);
    UnderscoresHaveNoAlnums(tail);
  }

  /** Trimming cuts only underscores: the letters and digits are kept, in order. */
  lemma TrimKeepsAlnums(s: string)
    ensures Alnums(TrimUnderscores(s)) == Alnums(s)
  {
    SkipUnderscoresKeepsAlnums(s);
    TrimTrailingKeepsAlnums(SkipUnderscores(s));
  }

  /** So a word stays a word... */
  lemma TrimKeepsWord(s: string)
    requires IsWord(s)
    ensures IsWord(TrimUnderscores(s))
  {
    var l := SkipUnderscores(s);
    SliceKeepsWord(s, |s| - |l|, |s|);
    assert s[|s| - |l|..|s|] == l;
    var r := TrimTrailingUnderscores(l);
    SliceKeepsWord(l, 0, |r|);
    assert l[0..|r|] == r;
  }

  /** ...and no underscores become adjacent. */
  lemma TrimKeepsNoDouble(s: string)
    requires NoDoubleUnderscore(s)
    ensures NoDoubleUnderscore(TrimUnderscores(s))
  {
    var l := SkipUnderscores(s);
    SliceKeepsNoDouble(s, |s| - |l|, |s|);
    assert s[|s| - |l|..|s|] == l;
    var r := TrimTrailingUnderscores(l);
    SliceKeepsNoDouble(l, 0, |r|);
    assert l[0..|r|] == r;
  }

  lemma SliceKeepsWord(s: string, a: nat, b: nat)
    requires IsWord(s) && a <= b <= |s|
    ensures IsWord(s[a..b])
  {
    assert forall k :: 0 <= k < b - a ==> s[a..b][k] == s[a + k];
  }

  lemma SliceKeepsNoDouble(s: string, a: nat, b: nat)
    requires NoDoubleUnderscore(s) && a <= b <= |s|
    ensures NoDoubleUnderscore(s[a..b])
  {
    forall k | 0 <= k < b - a - 1
      ensures !(s[a..b][k] == '_' && s[a..b][k + 1] == '_')
    {
      assert s[a..b][k] == s[a + k] && s[a..b][k + 1] == s[a + k + 1];
    }
  }

  // ---------------------------------------------------------------------------
  // The normaliser

  /** `normalize_name(name)`. */
  function NormalizeName(nfkd: Decomposition, name: string): (r: string)
    ensures IsNormalName(r)
    ensures r == [] <==> !HasAlnum(AsciiFold(nfkd, Lower(name)))
  {
    var folded := AsciiFold(nfkd, Lower(name));
    var w := ReplaceNonWordRuns(folded);
    var c := CollapseUnderscores(w);
    var r := TrimUnderscores(c);
    CollapseKeepsWord(w);
    CollapseKeepsAlnum(w);
    HasAlnumIffAlnums(w);
    HasAlnumIffAlnums(c);
    CollapseLeavesNoDouble(w);
    TrimKeepsWord(c);
    TrimKeepsNoDouble(c);
    NormalNameWithoutAlnumIsEmpty(r);
    r
  }

  lemma {:induction false} NormalNameWithoutAlnumIsEmpty(s: string)
    requires IsWord(s) && (s == [] || s[0] != '_')
    ensures s == [] <==> !HasAlnum(s)
  {
    if s != [] {
      assert IsAlnum(s[0]);
    }
  }

  /** `str.lower()` leaves a text over `[a-z0-9_]` unchanged. */
  lemma LowerFixesWord(s: string)
    requires IsWord(s)
    ensures Lower(s) == s
  {
    assert forall i :: 0 <= i < |s| ==> Lower(s)[i] == s[i];
  }

  /** Every step of the normaliser leaves a normal name as it is. */
  lemma {:induction false} NormalizeNameFixesNormal(nfkd: Decomposition, s: string)
    requires FixesAscii(nfkd)
    requires IsNormalName(s)
    ensures NormalizeName(nfkd, s) == s
  {
    LowerFixesWord(s);
    assert IsAscii(s);
    assert AsciiFold(nfkd, Lower(s)) == s;
    CollapseFixesNoDouble(s);
  }

  /** `normalize_name(normalize_name(s)) == normalize_name(s)`. */
  lemma NormalizeNameIdempotent(nfkd: Decomposition, s: string)
    requires FixesAscii(nfkd)
    ensures NormalizeName(nfkd, NormalizeName(nfkd, s)) == NormalizeName(nfkd, s)
  {
    NormalizeNameFixesNormal(nfkd, NormalizeName(nfkd, s));
  }

  /**
   * The normaliser keeps exactly the letters and digits of the lower-cased,
   * ASCII-folded name, in their order: only the characters between them change.
   */
  lemma NormalizeNameKeepsAlnums(nfkd: Decomposition, name: string)
    ensures Alnums(NormalizeName(nfkd, name)) == Alnums(AsciiFold(nfkd, Lower(name)))
  {
    var folded := AsciiFold(nfkd, Lower(name));
    var w := ReplaceNonWordRuns(folded);
    var c := CollapseUnderscores(w);
    ReplaceKeepsAlnums(folded);
    CollapseKeepsAlnum(w);
    TrimKeepsAlnums(c);
  }

  /** Two normal words separated by a space are joined by one `_`. */
  lemma NormalizeSpacedWords(nfkd: Decomposition, x: string, y: string)
    requires FixesAscii(nfkd)
    requires IsNormalName(x) && IsNormalName(y) && x != [] && y != []
    ensures NormalizeName(nfkd, x + " " + y) == x + "_" + y
  {
    SpacedWordsAscii(x, y);
    NormalizeSpacedName(nfkd, x + " " + y, x, y);
  }

  /** The same for any name that lower-cases to two normal words and a space. */
  lemma NormalizeSpacedName(nfkd: Decomposition, name: string, x: string, y: string)
    requires FixesAscii(nfkd)
    requires IsNormalName(x) && IsNormalName(y) && x != [] && y != []
    requires Lower(name) == x + " " + y
    ensures NormalizeName(nfkd, name) == x + "_" + y
  {
    NormalizeSeparatedName(nfkd, name, x, " ", y);
  }

  /** An ASCII separator without letters or digits, such as `" "`, `"_ "`, `"__"` or `" - "`. */
  predicate IsSeparator(w: string) {
    w != [] && forall i :: 0 <= i < |w| ==> IsAsciiChar(w[i]) && !IsAlnum(w[i])
  }

  /**
   * Whatever mix of `_` and other non-word characters separates two normal
   * words, the name normalises to the two words joined by exactly one `_`.
   */
  lemma NormalizeSeparatedName(nfkd: Decomposition, name: string, x: string, w: string, y: string)
    requires FixesAscii(nfkd)
    requires IsNormalName(x) && IsNormalName(y) && x != [] && y != []
    requires IsSeparator(w)
    requires Lower(name) == x + w + y
    ensures NormalizeName(nfkd, name) == x + "_" + y
  {
    var s := x + w + y;
    var j := x + "_" + y;
    SeparatedWordsAscii(x, w, y);
    var folded := AsciiFold(nfkd, Lower(name));
    assert folded == s;
    var u := ReplaceNonWordRuns(w);
    ReplaceSeparated(x, w, y);
    assert ReplaceNonWordRuns(folded) == x + u + y;
    ReplaceSeparator(w);
    CollapseRunBetween(x, u, y);
    CollapseFixesNoDouble(x);
    CollapseFixesNoDouble(y);
    assert CollapseUnderscores(x + u + y) == j;
    JoinedNoDouble(x, y);
    assert j[0] == x[0] && j[|j| - 1] == y[|y| - 1];
    assert TrimUnderscores(j) == j;
  }

  /** The replacement leaves the two words and replaces only the separator. */
  lemma ReplaceSeparated(x: string, w: string, y: string)
    requires IsNormalName(x) && IsNormalName(y) && x != [] && y != []
    ensures ReplaceNonWordRuns(x + w + y) == x + ReplaceNonWordRuns(w) + y
  {
    ConcatAssoc(x, w, y);
    ReplaceAppend(x, w + y);
    ReplaceAppendBefore(w, y);
    ConcatAssoc(x, ReplaceNonWordRuns(w), y);
  }

  lemma SeparatedWordsAscii(x: string, w: string, y: string)
    requires IsWord(x) && IsWord(y) && IsSeparator(w)
    ensures IsAscii(x + w + y)
  {
    var s := x + w + y;
    forall i | 0 <= i < |s| ensures IsAsciiChar(s[i]) {
      if i < |x| {
        assert s[i] == x[i];
      } else if i < |x| + |w| {
        assert s[i] == w[i - |x|];
      } else {
        assert s[i] == y[i - |x| - |w|];
      }
    }
  }

  /** Lower-casing leaves two words and a space as they are, and they are ASCII. */
  lemma SpacedWordsAscii(x: string, y: string)
    requires IsWord(x) && IsWord(y)
    ensures Lower(x + " " + y) == x + " " + y && IsAscii(x + " " + y)
  {
    var s := x + " " + y;
    forall i | 0 <= i < |s| ensures (IsWordChar(s[i]) || s[i] == ' ') {
      if i < |x| { assert s[i] == x[i]; } else if i > |x| { assert s[i] == y[i - |x| - 1]; }
    }
    assert forall i :: 0 <= i < |s| ==> Lower(s)[i] == s[i];
  }

  /** Joining two normal words with one `_` makes no `__`. */
  lemma JoinedNoDouble(x: string, y: string)
    requires IsNormalName(x) && IsNormalName(y) && x != [] && y != []
    ensures NoDoubleUnderscore(x + "_" + y)
  {
    var j := x + "_" + y;
    forall i | 0 <= i < |j| - 1 ensures !(j[i] == '_' && j[i + 1] == '_') {
      if i + 1 < |x| {
        assert j[i] == x[i] && j[i + 1] == x[i + 1];
      } else if i > |x| {
        assert j[i] == y[i - |x| - 1] && j[i + 1] == y[i - |x|];
      } else if i + 1 == |x| {
        assert j[i] == x[|x| - 1];
      } else {
        assert j[i + 1] == y[0];
      }
    }
  }

  /** `Valor Total` becomes `valor_total`. */
  lemma NormalizeSpacedExample(nfkd: Decomposition)
    requires FixesAscii(nfkd)
    ensures NormalizeName(nfkd, "Valor Total") == "valor_total"
  {
    LowerValorTotal();
    ValorTotalNormal();
    NormalizeSpacedName(nfkd, "Valor Total", "valor", "total");
  }

  /** `Valor_ Total` and `Valor__Total` also become `valor_total`: the run `_ ` or `__` gives one `_`. */
  lemma NormalizeUnderscoreRunExamples(nfkd: Decomposition)
    requires FixesAscii(nfkd)
    ensures NormalizeName(nfkd, "Valor_ Total") == "valor_total"
    ensures NormalizeName(nfkd, "Valor__Total") == "valor_total"
  {
    LowerValorUnderscores();
    ValorTotalNormal();
    assert IsSeparator("_ ") && IsSeparator("__");
    NormalizeSeparatedName(nfkd, "Valor_ Total", "valor", "_ ", "total");
    NormalizeSeparatedName(nfkd, "Valor__Total", "valor", "__", "total");
  }

  lemma LowerValorUnderscores()
    ensures Lower("Valor_ Total") == "valor" + "_ " + "total"
    ensures Lower("Valor__Total") == "valor" + "__" + "total"
  {
  }

  lemma LowerValorTotal()
    ensures Lower("Valor Total") == "valor" + " " + "total"
  {
  }

  lemma ValorTotalNormal()
    ensures IsNormalName("valor") && IsNormalName("total") && "valor" + "_" + "total" == "valor_total"
  {
  }

  // ---------------------------------------------------------------------------
  // A sample decomposition: the accented letters of Latin-1

  /** The combining mark NFKD splits off a Latin-1 letter with code `n`, or 0 when there is none. */
  function CombiningMark(n: int): int {
    var m := if 0xC0 <= n <= 0xDD then n + 0x20 else n;
    if m == 0xE0 || m == 0xE8 || m == 0xEC || m == 0xF2 || m == 0xF9 then 0x300
    else if m == 0xE1 || m == 0xE9 || m == 0xED || m == 0xF3 || m == 0xFA || m == 0xFD then 0x301
    else if m == 0xE2 || m == 0xEA || m == 0xEE || m == 0xF4 || m == 0xFB then 0x302
    else if m == 0xE3 || m == 0xF1 || m == 0xF5 then 0x303
    else if m == 0xE4 || m == 0xEB || m == 0xEF || m == 0xF6 || m == 0xFC || m == 0xFF then 0x308
    else if m == 0xE5 then 0x30A
    else if m == 0xE7 then 0x327
    else 0
  }

  /** The base letter of a Latin-1 letter that `CombiningMark` decomposes. */
  function BaseLetter(n: int): char {
    var upper := 0xC0 <= n <= 0xDD;
    var m := if upper then n + 0x20 else n;
    var b :=
      if 0xE0 <= m <= 0xE5 then 'a'
      else if m == 0xE7 then 'c'
      else if 0xE8 <= m <= 0xEB then 'e'
      else if 0xEC <= m <= 0xEF then 'i'
      else if m == 0xF1 then 'n'
      else if 0xF2 <= m <= 0xF6 then 'o'
      else if 0xF9 <= m <= 0xFC then 'u'
      else 'y';
    if upper then (b as int - 32) as char else b
  }

  function DecomposeChar(c: char): (r: string)
    ensures IsAsciiChar(c) ==> r == [c]
  {
    var mark := CombiningMark(c as int);
    if mark == 0 then [c] else [BaseLetter(c as int), mark as char]
  }

  /**
   * NFKD restricted to the accented Latin-1 letters (`À` to `ÿ`); every other
   * character is kept. It is a partial sample: the other compatibility
   * decompositions of Latin-1 (`ª`, `º`, superscript digits, fractions, spacing
   * accents, the no-break space) are not in it.
   */
  function LatinDecomposition(s: string): (r: string)
    ensures IsAscii(s) ==> r == s
  {
    if s == [] then [] else DecomposeChar(s[0]) + LatinDecomposition(s[1..])
  }

  lemma LatinDecompositionFixesAscii()
    ensures FixesAscii(LatinDecomposition)
  {
  }

  /** When the folded text is already a normal name, the remaining steps keep it. */
  lemma NormalizeFoldedNormal(nfkd: Decomposition, name: string)
    requires IsNormalName(AsciiFold(nfkd, Lower(name)))
    ensures NormalizeName(nfkd, name) == AsciiFold(nfkd, Lower(name))
  {
    CollapseFixesNoDouble(AsciiFold(nfkd, Lower(name)));
  }

  /** An accented capital is lower-cased and loses its accent. */
  lemma NormalizeAccentExample()
    ensures NormalizeName(LatinDecomposition, "S\U{C3}o") == "sao"
  {
    LowerAccentExample();
    LatinFoldExample();
    NormalExample();
    NormalizeFoldedNormal(LatinDecomposition, "S\U{C3}o");
  }

  lemma NormalExample()
    ensures IsNormalName("sao")
  {
  }

  lemma LowerAccentExample()
    ensures Lower("S\U{C3}o") == "s\U{E3}o"
  {
  }

  /** The decomposition splits the accent off the letter; the fold then drops it. */
  lemma LatinFoldExample()
    ensures AsciiFold(LatinDecomposition, "s\U{E3}o") == "sao"
  {
    LatinDecomposeExample();
    DropAccentExample();
  }

  lemma LatinDecomposeExample()
    ensures LatinDecomposition("s\U{E3}o") == "sa" + ['\U{303}'] + "o"
  {
    assert LatinDecomposition("\U{E3}o") == "a\U{303}o";
  }

  lemma DropAccentExample()
    ensures DropNonAscii("sa" + ['\U{303}'] + "o") == "sao"
  {
    DropNonAsciiAppend("sa" + ['\U{303}'], "o");
    DropNonAsciiAppend("sa", ['\U{303}']);
    DropNonAsciiChar('\U{303}');
  }

  /**
   * A name with no letter or digit normalises to the empty text; the loader
   * uses that text as a table name without checking it.
   */
  lemma NormalizeSymbolsExample(nfkd: Decomposition)
    requires FixesAscii(nfkd)
    ensures NormalizeName(nfkd, "-.-") == ""
  {
    assert Lower("-.-") == "-.-";
    assert IsAscii("-.-");
    assert !HasAlnum("-.-");
  }
}
