/** The three Python `str` builtins the explainer relies on: `strip()` with no
    argument, `lower()`, and the substring test `needle in hay`. */
module PyStr {

  /** `c.isspace()`: the code points Python classifies as whitespace
      (bidirectional class WS, B or S, or general category Zs). */
  predicate IsSpace(c: char) {
    || ('\t' <= c <= '\r')              // U+0009 .. U+000D
    || ('\U{1C}' <= c <= '\U{1F}')      // file, group, record, unit separators
    || c == ' '
    || c == '\U{85}'                    // NEXT LINE
    || c == '\U{A0}'                    // NO-BREAK SPACE
    || c == '\U{1680}'                  // OGHAM SPACE MARK
    || ('\U{2000}' <= c <= '\U{200A}')  // EN QUAD .. HAIR SPACE
    || c == '\U{2028}' || c == '\U{2029}'
    || c == '\U{202F}' || c == '\U{205F}' || c == '\U{3000}'
  }

  predicate AllSpace(s: string) {
    forall k :: 0 <= k < |s| ==> IsSpace(s[k])
  }

  /** Neither the first nor the last character is whitespace. */
  predicate NoOuterSpace(s: string) {
    s == [] || (!IsSpace(s[0]) && !IsSpace(s[|s| - 1]))
  }

  /** Scans right from `i` past whitespace: the index of the first
      non-whitespace character at or after `i`, or `|s|`. */
  function SkipSpace(s: string, i: nat): (k: nat)
    requires i <= |s|
    ensures i <= k <= |s|
    ensures AllSpace(s[i..k])
    ensures k < |s| ==> !IsSpace(s[k])
    decreases |s| - i
  {
    if i == |s| || !IsSpace(s[i]) then i else SkipSpace(s, i + 1)
  }

  /** Scans left from `j`, never below `lo`, past whitespace: the end of the
      last non-whitespace character in `s[lo..j]`, or `lo`. */
  function SkipSpaceBack(s: string, lo: nat, j: nat): (k: nat)
    requires lo <= j <= |s|
    ensures lo <= k <= j
    ensures AllSpace(s[k..j])
    ensures k > lo ==> !IsSpace(s[k - 1])
    decreases j
  {
    if j == lo || !IsSpace(s[j - 1]) then j
    else
      var k := SkipSpaceBack(s, lo, j - 1);
      assert s[k..j] == s[k..j - 1] + [s[j - 1]];
      k
  }

  /** `s.strip()`: the leading scan runs first and the trailing scan stops
      where it ended, so an all-whitespace string strips to "". */
  function Strip(s: string): (r: string)
    ensures NoOuterSpace(r)
    ensures r == [] <==> AllSpace(s)
    ensures exists i, j :: 0 <= i <= j <= |s| && r == s[i..j] && AllSpace(s[..i]) && AllSpace(s[j..])
  {
    var i := SkipSpace(s, 0);
    var j := SkipSpaceBack(s, i, |s|);
    StripScans(s, i, j);
    s[i..j]
  }

  /** What the two scans of `Strip` establish about the window they cut. */
  lemma StripScans(s: string, i: nat, j: nat)
    requires i == SkipSpace(s, 0) && j == SkipSpaceBack(s, i, |s|)
    ensures i <= j <= |s|
    ensures AllSpace(s[..i]) && AllSpace(s[j..])
    ensures NoOuterSpace(s[i..j])
    ensures s[i..j] == [] <==> AllSpace(s)
  {
    assert s[0..i] == s[..i];
    assert s[j..|s|] == s[j..];
    if i == j {
      assert s == s[..i] + s[j..];
      AllSpaceAppend(s[..i], s[j..]);
    } else {
      assert s[i..j][0] == s[i];
      assert s[i..j][j - i - 1] == s[j - 1];
    }
  }

  lemma AllSpaceAppend(a: string, b: string)
    requires AllSpace(a) && AllSpace(b)
    ensures AllSpace(a + b)
  {
  }

  /** Independent characterisation of `strip`: whenever `s` is a whitespace
      run, then a string without outer whitespace, then a whitespace run, the
      middle piece is exactly what `strip` returns. */
  lemma StripUnique(a: string, m: string, b: string)
    requires AllSpace(a) && AllSpace(b) && NoOuterSpace(m)
    ensures Strip(a + m + b) == m
  {
    var s := a + m + b;
    if m == [] {
      assert s == a + b;
      AllSpaceAppend(a, b);
    } else {
      assert s[|a|] == m[0];
      assert s[..|a|] == a;
      SkipSpaceLands(s, 0, |a|);
      assert s[|a| + |m| - 1] == m[|m| - 1];
      assert s[|a| + |m|..] == b;
      SkipSpaceBackLands(s, |a|, |s|, |a| + |m|);
      assert s[|a|..|a| + |m|] == m;
    }
  }

  /** The forward scan from `i` stops at the first non-whitespace `p`. */
  lemma {:induction false} SkipSpaceLands(s: string, i: nat, p: nat)
    requires i <= p < |s|
    requires AllSpace(s[i..p]) && !IsSpace(s[p])
    ensures SkipSpace(s, i) == p
    decreases p - i
  {
    if i < p {
      assert s[i] == s[i..p][0];
      assert s[i + 1..p] == s[i..p][1..];
      SkipSpaceLands(s, i + 1, p);
    }
  }

  /** The backward scan from `j` stops just after the last non-whitespace. */
  lemma {:induction false} SkipSpaceBackLands(s: string, lo: nat, j: nat, p: nat)
    requires lo < p <= j <= |s|
    requires AllSpace(s[p..j]) && !IsSpace(s[p - 1])
    ensures SkipSpaceBack(s, lo, j) == p
    decreases j - p
  {
    if p < j {
      assert s[j - 1] == s[p..j][j - 1 - p];
      assert s[p..j - 1] == s[p..j][..j - 1 - p];
      SkipSpaceBackLands(s, lo, j - 1, p);
    }
  }

  /** Stripping twice changes nothing more. */
  lemma StripIdempotent(s: string)
    ensures Strip(Strip(s)) == Strip(s)
  {
    var r := Strip(s);
    assert r == [] + r + [];
    StripUnique([], r, []);
  }

  /** Surrounding whitespace never reaches the stripped result. */
  lemma StripIgnoresPadding(a: string, s: string, b: string)
    requires AllSpace(a) && AllSpace(b)
    ensures Strip(a + s + b) == Strip(s)
  {
    var i := SkipSpace(s, 0);
    var j := SkipSpaceBack(s, i, |s|);
    StripScans(s, i, j);
    var lead, m, trail := s[..i], s[i..j], s[j..];
    SplitThree(s, i, j);
    StripUnique(lead, m, trail);
    AllSpaceAppend(a, lead);
    AllSpaceAppend(trail, b);
    Regroup(a, lead, m, trail, b);
    StripUnique(a + lead, m, trail + b);
  }

  lemma SplitThree(s: string, i: nat, j: nat)
    requires i <= j <= |s|
    ensures s == s[..i] + s[i..j] + s[j..]
  {
  }

  lemma Regroup(a: string, l: string, m: string, t: string, b: string)
    ensures a + (l + m + t) + b == (a + l) + m + (t + b)
  {
  }

  /** Characters of `str.lower()` for one input character. Only the code
      points whose lower-case form contains ASCII are mapped: A-Z, KELVIN
      SIGN (to `k`) and LATIN CAPITAL LETTER I WITH DOT ABOVE (to `i`
      followed by COMBINING DOT ABOVE); every other character is kept. */
  function LowerChar(c: char): (r: string)
    ensures |r| == (if c == '\U{130}' then 2 else 1)
    ensures forall k :: 0 <= k < |r| ==> !IsAsciiUpper(r[k])
    ensures !IsAsciiUpper(c) && c != '\U{212A}' && c != '\U{130}' ==> r == [c]
  {
    if 'A' <= c <= 'Z' then [(c as int + 32) as char]
    else if c == '\U{212A}' then "k"
    else if c == '\U{130}' then "i\U{307}"
    else [c]
  }

  /** `s.lower()`, one character at a time. */
  function Lower(s: string): (r: string)
    ensures |r| >= |s|
    ensures |r| == |s| <==> forall k :: 0 <= k < |s| ==> s[k] != '\U{130}'
  {
    if s == [] then [] else LowerChar(s[0]) + Lower(s[1..])
  }

  predicate IsAsciiUpper(c: char) {
    'A' <= c <= 'Z'
  }

  lemma {:induction false} LowerAppend(a: string, b: string)
    ensures Lower(a + b) == Lower(a) + Lower(b)
    decreases |a|
  {
    if a == [] {
      assert a + b == b;
    } else {
      assert (a + b)[0] == a[0];
      assert (a + b)[1..] == a[1..] + b;
      LowerAppend(a[1..], b);
    }
  }

  /** The lower-cased text holds no ASCII capital letter. */
  lemma {:induction false} LowerHasNoUpper(s: string)
    ensures forall k :: 0 <= k < |Lower(s)| ==> !IsAsciiUpper(Lower(s)[k])
    decreases |s|
  {
    if s != [] {
      LowerHasNoUpper(s[1..]);
      var h := LowerChar(s[0]);
      var t := Lower(s[1..]);
      assert Lower(s) == h + t;
      forall k | 0 <= k < |Lower(s)|
        ensures !IsAsciiUpper(Lower(s)[k])
      {
        if k >= |h| {
          assert Lower(s)[k] == t[k - |h|];
        }
      }
    }
  }

  /** A string with nothing to lower-case is its own lower-case form. */
  lemma {:induction false} LowerFixed(s: string)
    requires forall k :: 0 <= k < |s| ==> !IsAsciiUpper(s[k]) && s[k] != '\U{212A}' && s[k] != '\U{130}'
    ensures Lower(s) == s
    decreases |s|
  {
    if s != [] {
      LowerFixed(s[1..]);
      assert s == [s[0]] + s[1..];
    }
  }

  /** Lower-casing is idempotent: a second `lower()` changes nothing. */
  lemma {:induction false} LowerIdempotent(s: string)
    ensures Lower(Lower(s)) == Lower(s)
    decreases |s|
  {
    if s != [] {
      var h := LowerChar(s[0]);
      LowerAppend(h, Lower(s[1..]));
      LowerFixed(h);
      LowerIdempotent(s[1..]);
    }
  }

  /** `needle in hay` for strings: some window of `hay` equals `needle`.
      Nothing longer than `hay` is in it. */
  predicate Contains(hay: string, needle: string)
    ensures Contains(hay, needle) ==> |needle| <= |hay|
  {
    exists i :: 0 <= i <= |hay| && OccursAt(hay, needle, i)
  }

  /** The empty string is in every string. */
  lemma EmptyContained(hay: string)
    ensures Contains(hay, [])
  {
    assert OccursAt(hay, [], 0);
  }

  /** A reference search in the manner of `hay.find(needle, i)`: the first
      index at or after `i` where `needle` occurs, or -1, found by trying
      each index in turn. The service never calls it; `ContainsIffFind`
      checks the `in` test against it. */
  function Find(hay: string, needle: string, i: nat): (r: int)
    requires i <= |hay|
    ensures r == -1 || (i <= r <= |hay| && OccursAt(hay, needle, r))
    ensures r >= 0 ==> forall k :: i <= k < r ==> !OccursAt(hay, needle, k)
    ensures r == -1 ==> forall k :: i <= k <= |hay| ==> !OccursAt(hay, needle, k)
    decreases |hay| - i
  {
    if OccursAt(hay, needle, i) then i
    else if i == |hay| then -1
    else Find(hay, needle, i + 1)
  }

  /** `needle in hay` holds exactly when a search from the start finds it. */
  lemma ContainsIffFind(hay: string, needle: string)
    ensures Contains(hay, needle) <==> Find(hay, needle, 0) >= 0
  {
  }

  /** `needle` is the window of `hay` starting at index `i`. */
  predicate OccursAt(hay: string, needle: string, i: nat) {
    i + |needle| <= |hay| && hay[i..i + |needle|] == needle
  }

  /** A string found inside a piece is found inside anything that piece is
      glued into. */
  lemma ContainsInside(pre: string, mid: string, post: string, needle: string)
    requires Contains(mid, needle)
    ensures Contains(pre + mid + post, needle)
  {
    var i :| 0 <= i <= |mid| && OccursAt(mid, needle, i);
    var s := pre + mid + post;
    assert s[|pre| + i..|pre| + i + |needle|] == mid[i..i + |needle|];
    assert OccursAt(s, needle, |pre| + i);
  }

  lemma ContainsSelf(s: string)
    ensures Contains(s, s)
  {
    assert s[0..|s|] == s;
    assert OccursAt(s, s, 0);
  }

  /** `c` lower-cases to exactly the one character `d`. */
  predicate FoldsTo(c: char, d: char) {
    LowerChar(c) == [d]
  }

  /** The characters that lower-case to an ASCII letter `d`: `d` itself,
      its capital, and for `k` also KELVIN SIGN. */
  lemma FoldsToLetter(c: char, d: char)
    requires 'a' <= d <= 'z'
    ensures FoldsTo(c, d) <==> c == d || c as int == d as int - 32 || (d == 'k' && c == '\U{212A}')
  {
  }

  /** Case-insensitive match of `needle` (already lower-case) at index `i`
      of `hay`, judged one character at a time without building `Lower(hay)`. */
  predicate FoldedAt(hay: string, needle: string, i: nat) {
    i + |needle| <= |hay| && forall k :: 0 <= k < |needle| ==> FoldsTo(hay[i + k], needle[k])
  }

  /** `needle` avoids the two characters that `LowerChar` produces only as
      a two-character expansion. */
  predicate NoDotted(needle: string) {
    forall k :: 0 <= k < |needle| ==> needle[k] != 'i' && needle[k] != '\U{307}'
  }

  /** A window whose characters all fold one-to-one lower-cases to `needle`. */
  lemma {:induction false} LowerOfFolded(w: string, needle: string)
    requires FoldedAt(w, needle, 0) && |w| == |needle|
    ensures Lower(w) == needle
    decreases |w|
  {
    if w != [] {
      assert FoldsTo(w[0], needle[0]);
      forall k | 0 <= k < |needle| - 1
        ensures FoldsTo(w[1..][k], needle[1..][k])
      {
        assert FoldsTo(w[1 + k], needle[1 + k]);
      }
      LowerOfFolded(w[1..], needle[1..]);
      assert needle == [needle[0]] + needle[1..];
    }
  }

  /** A prefix of `Lower(t)` that avoids the dotted expansion comes from a
      prefix of `t` folding character by character. */
  lemma {:induction false} LowerPrefixFolds(t: string, needle: string)
    requires NoDotted(needle)
    requires |needle| <= |Lower(t)| && Lower(t)[..|needle|] == needle
    ensures FoldedAt(t, needle, 0)
    decreases |needle|
  {
    if needle != [] {
      assert t != [];
      var h := LowerChar(t[0]);
      assert Lower(t) == h + Lower(t[1..]);
      assert needle[0] == Lower(t)[0] == h[0];
      if t[0] == '\U{130}' {
        assert false;
      }
      assert |h| == 1 && h == [needle[0]];
      var rest := needle[1..];
      assert Lower(t[1..])[..|rest|] == rest by {
        forall k | 0 <= k < |rest|
          ensures Lower(t[1..])[k] == rest[k]
        {
          assert Lower(t)[1 + k] == needle[1 + k];
        }
      }
      LowerPrefixFolds(t[1..], rest);
      forall k | 0 <= k < |needle|
        ensures FoldsTo(t[k], needle[k])
      {
        if k > 0 {
          assert FoldsTo(t[1..][k - 1], rest[k - 1]);
        }
      }
    }
  }

  /** `needle in hay.lower()` holds exactly when some window of `hay` folds
      to `needle` character by character. */
  lemma {:induction false} ContainsLowerIff(hay: string, needle: string)
    requires NoDotted(needle)
    ensures Contains(Lower(hay), needle) <==> exists i :: 0 <= i <= |hay| && FoldedAt(hay, needle, i)
    decreases |hay|
  {
    if needle == [] {
      assert OccursAt(Lower(hay), needle, 0);
      assert FoldedAt(hay, needle, 0);
    } else {
      if Contains(Lower(hay), needle) {
        FoldedFromContains(hay, needle);
      }
      if i :| 0 <= i <= |hay| && FoldedAt(hay, needle, i) {
        var w := hay[i..i + |needle|];
        assert FoldedAt(w, needle, 0) by {
          forall k | 0 <= k < |needle|
            ensures FoldsTo(w[k], needle[k])
          {
            assert FoldsTo(hay[i + k], needle[k]);
          }
        }
        LowerOfFolded(w, needle);
        SplitThree(hay, i, i + |needle|);
        LowerAppend(hay[..i] + w, hay[i + |needle|..]);
        LowerAppend(hay[..i], w);
        ContainsSelf(needle);
        ContainsInside(Lower(hay[..i]), needle, Lower(hay[i + |needle|..]), needle);
      }
    }
  }

  /** The left-to-right half of `ContainsLowerIff`, by induction on `hay`. */
  lemma {:induction false} FoldedFromContains(hay: string, needle: string)
    requires NoDotted(needle) && needle != []
    requires Contains(Lower(hay), needle)
    ensures exists i :: 0 <= i <= |hay| && FoldedAt(hay, needle, i)
    decreases |hay|
  {
    var p :| 0 <= p <= |Lower(hay)| && OccursAt(Lower(hay), needle, p);
    assert hay != [];
    var h := LowerChar(hay[0]);
    var t := Lower(hay[1..]);
    assert Lower(hay) == h + t;
    if p >= |h| {
      assert t[p - |h|..p - |h| + |needle|] == Lower(hay)[p..p + |needle|];
      assert OccursAt(t, needle, p - |h|);
      FoldedFromContains(hay[1..], needle);
      var i :| 0 <= i <= |hay[1..]| && FoldedAt(hay[1..], needle, i);
      forall k | 0 <= k < |needle|
        ensures FoldsTo(hay[i + 1 + k], needle[k])
      {
        assert FoldsTo(hay[1..][i + k], needle[k]);
      }
      assert FoldedAt(hay, needle, i + 1);
    } else {
      assert needle[0] == Lower(hay)[p] == h[p];
      assert needle[0] != '\U{307}';
      if p == 0 {
        assert Lower(hay)[..|needle|] == needle;
        LowerPrefixFolds(hay, needle);
      } else {
        assert false;
      }
    }
  }
}
