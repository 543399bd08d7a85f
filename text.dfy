/** String operations the Python and JavaScript sources use: substring search,
    whitespace stripping (Python `str.strip`, JavaScript `String.prototype.trim`),
    global literal replacement and removal of one character. */
module Text {

  /** `needle` occurs in `hay` starting at index `i`. */
  predicate OccursAt(hay: string, needle: string, i: nat)
  {
    i + |needle| <= |hay| && hay[i..i + |needle|] == needle
  }

  /** Python `needle in hay` / JavaScript `hay.includes(needle)`. */
  predicate Contains(hay: string, needle: string)
  {
    exists i :: 0 <= i <= |hay| - |needle| && OccursAt(hay, needle, i)
  }

  /** An occurrence inside a slice is an occurrence in the whole text. */
  lemma {:induction false} OccursInSlice(s: string, lo: nat, hi: nat, needle: string, i: nat)
    requires lo <= hi <= |s| && OccursAt(s[lo..hi], needle, i)
    ensures OccursAt(s, needle, lo + i)
  {
    var r := s[lo..hi];
    forall k | 0 <= k < |needle|
      ensures s[lo + i..lo + i + |needle|][k] == needle[k]
    {
      assert r[i..i + |needle|][k] == needle[k];
      assert r[i + k] == s[lo + i + k];
    }
  }

  // ---------------------------------------------------------------------------
  // Whitespace

  /** Characters Python's `str.isspace` accepts, which `str.strip()` removes. */
  predicate PySpace(c: char)
  {
    c == ' ' || ('\t' <= c <= '\r') || ('\U{1C}' <= c <= '\U{1F}') || c == '\U{85}' || c == '\U{A0}'
    || c == '\U{1680}' || ('\U{2000}' <= c <= '\U{200A}') || c == '\U{2028}' || c == '\U{2029}'
    || c == '\U{202F}' || c == '\U{205F}' || c == '\U{3000}'
  }

  /** WhiteSpace and LineTerminator code points that JavaScript's `trim` removes. */
  predicate JsSpace(c: char)
  {
    c == ' ' || ('\t' <= c <= '\r') || c == '\U{A0}' || c == '\U{FEFF}'
    || c == '\U{1680}' || ('\U{2000}' <= c <= '\U{200A}') || c == '\U{2028}' || c == '\U{2029}'
    || c == '\U{202F}' || c == '\U{205F}' || c == '\U{3000}'
  }

  /** The first index at or after `i` whose character does not satisfy `ws`
      (`|s|` when there is none): where leading whitespace ends. */
  function SkipForward(s: string, ws: char -> bool, i: nat): (j: nat)
    requires i <= |s|
    ensures i <= j <= |s|
    ensures forall k :: i <= k < j ==> ws(s[k])
    ensures j < |s| ==> !ws(s[j])
    decreases |s| - i
  {
    if i < |s| && ws(s[i]) then SkipForward(s, ws, i + 1) else i
  }

  /** The end of `s[lo..hi]` once its trailing characters satisfying `ws` are
      dropped. */
  function SkipBackward(s: string, ws: char -> bool, lo: nat, hi: nat): (j: nat)
    requires lo <= hi <= |s|
    ensures lo <= j <= hi
    ensures forall k :: j <= k < hi ==> ws(s[k])
    ensures j > lo ==> !ws(s[j - 1])
    decreases hi - lo
  {
    if lo < hi && ws(s[hi - 1]) then SkipBackward(s, ws, lo, hi - 1) else hi
  }

  /** Removes leading and trailing characters satisfying `ws`. */
  function Strip(s: string, ws: char -> bool): (r: string)
    ensures |r| <= |s|
    ensures r == [] || (!ws(r[0]) && !ws(r[|r| - 1]))
  {
    var lo := SkipForward(s, ws, 0);
    s[lo..SkipBackward(s, ws, lo, |s|)]
  }

  /** A slice `s[lo..hi]` that begins and ends with a non-whitespace character and
      has only whitespace around it is exactly what `Strip` returns. */
  lemma {:induction false} StripUnique(s: string, ws: char -> bool, lo: nat, hi: nat)
    requires lo <= hi <= |s|
    requires forall k :: 0 <= k < lo ==> ws(s[k])
    requires forall k :: hi <= k < |s| ==> ws(s[k])
    requires lo < hi ==> !ws(s[lo]) && !ws(s[hi - 1])
    ensures Strip(s, ws) == s[lo..hi]
  {
    var a := SkipForward(s, ws, 0);
    var b := SkipBackward(s, ws, a, |s|);
    if lo < hi {
      assert a == lo;
    }
  }

  /** Stripping leaves nothing exactly when every character is whitespace. */
  lemma {:induction false} StripEmptyIff(s: string, ws: char -> bool)
    ensures Strip(s, ws) == [] <==> forall k :: 0 <= k < |s| ==> ws(s[k])
  {
    var a := SkipForward(s, ws, 0);
    var b := SkipBackward(s, ws, a, |s|);
    if forall k :: 0 <= k < |s| ==> ws(s[k]) {
      StripUnique(s, ws, |s|, |s|);
    } else {
      var j :| 0 <= j < |s| && !ws(s[j]);
      assert a <= j;
    }
  }

  /** The stripped text is the slice of the input between its leading and its
      trailing whitespace. */
  lemma {:induction false} StripIsSlice(s: string, ws: char -> bool) returns (lo: nat, hi: nat)
    ensures lo <= hi <= |s| && Strip(s, ws) == s[lo..hi]
    ensures forall k :: 0 <= k < lo ==> ws(s[k])
    ensures forall k :: hi <= k < |s| ==> ws(s[k])
  {
    lo := SkipForward(s, ws, 0);
    hi := SkipBackward(s, ws, lo, |s|);
  }

  /** Stripping twice is the same as stripping once. */
  lemma {:induction false} StripIdempotent(s: string, ws: char -> bool)
    ensures Strip(Strip(s, ws), ws) == Strip(s, ws)
  {
    var r := Strip(s, ws);
    StripUnique(r, ws, 0, |r|);
  }

  // ---------------------------------------------------------------------------
  // Replacement

  /** Global literal replacement, left to right, matches not overlapping: JavaScript
      `s.replace(/pat/g, rep)` for a pattern without metacharacters. */
  function ReplaceAll(s: string, pat: string, rep: string): (r: string)
    requires |pat| > 0
    decreases |s|
  {
    if |s| == 0 then []
    else if pat <= s then rep + ReplaceAll(s[|pat|..], pat, rep)
    else [s[0]] + ReplaceAll(s[1..], pat, rep)
  }

  /** No character of `a` appears in `b`. */
  predicate Disjoint(a: string, b: string)
  {
    forall i, j :: 0 <= i < |a| && 0 <= j < |b| ==> a[i] != b[j]
  }

  /** A prefix of the replaced text made only of characters foreign to `rep` was
      already a prefix of the original text. */
  lemma {:induction false} PrefixBeforeReplace(t: string, pat: string, rep: string, q: string)
    requires |pat| > 0 && |rep| > 0
    ensures Disjoint(q, rep) && q <= ReplaceAll(t, pat, rep) ==> q <= t
    decreases |t|
  {
    if Disjoint(q, rep) && q <= ReplaceAll(t, pat, rep) && |t| > 0 && |q| > 0 {
      assert pat <= t ==> ReplaceAll(t, pat, rep)[0] == rep[0];
      assert q[0] != rep[0];
      if pat <= t {
        assert false;
      } else {
        var rest := ReplaceAll(t[1..], pat, rep);
        assert ReplaceAll(t, pat, rep) == [t[0]] + rest;
        assert q[1..] <= rest;
        PrefixBeforeReplace(t[1..], pat, rep, q[1..]);
      }
    }
  }

  /** Past a prefix, the occurrences in the whole text are those of the rest, shifted. */
  lemma {:induction false} OccursAfterPrefix(prefix: string, rest: string, pat: string, k: nat)
    requires |prefix| <= k
    ensures OccursAt(prefix + rest, pat, k) <==> OccursAt(rest, pat, k - |prefix|)
  {
    var r := prefix + rest;
    var j := k - |prefix|;
    if k + |pat| <= |r| {
      var here, there := r[k..k + |pat|], rest[j..j + |pat|];
      forall i | 0 <= i < |pat|
        ensures here[i] == there[i]
      {
        assert r[k + i] == rest[j + i];
      }
      assert here == there;
    }
  }

  /** Occurrences in the text after its first character, shifted by one. */
  lemma {:induction false} OccursInTail(s: string, pat: string, i: nat)
    requires 0 < i && |s| > 0
    requires forall k :: 0 <= k < i ==> !OccursAt(s, pat, k)
    ensures forall k :: 0 <= k < i - 1 ==> !OccursAt(s[1..], pat, k)
    ensures OccursAt(s, pat, i) <==> OccursAt(s[1..], pat, i - 1)
  {
    var tail := s[1..];
    assert s == [s[0]] + tail;
    OccursAfterPrefix([s[0]], tail, pat, i);
    forall k | 0 <= k < i - 1
      ensures !OccursAt(tail, pat, k)
    {
      assert !OccursAt(s, pat, k + 1);
      OccursAfterPrefix([s[0]], tail, pat, k + 1);
    }
  }

  /** The replacement of the first occurrence: when `pat` first occurs at `i`, the
      text before it is copied, the occurrence becomes `rep`, and the replacement
      goes on after it. */
  lemma {:induction false} ReplaceAllFirst(s: string, pat: string, rep: string, i: nat)
    requires |pat| > 0 && OccursAt(s, pat, i)
    requires forall k :: 0 <= k < i ==> !OccursAt(s, pat, k)
    ensures ReplaceAll(s, pat, rep) == s[..i] + rep + ReplaceAll(s[i + |pat|..], pat, rep)
    decreases i
  {
    if i == 0 {
      assert pat <= s;
    } else {
      assert !OccursAt(s, pat, 0);
      assert !(pat <= s);
      var tail := s[1..];
      assert ReplaceAll(s, pat, rep) == [s[0]] + ReplaceAll(tail, pat, rep);
      OccursInTail(s, pat, i);
      ReplaceAllFirst(tail, pat, rep, i - 1);
      assert tail[i - 1 + |pat|..] == s[i + |pat|..];
      var before, after := tail[..i - 1], ReplaceAll(s[i + |pat|..], pat, rep);
      assert ReplaceAll(tail, pat, rep) == before + rep + after;
      assert s[..i] == [s[0]] + before;
      assert [s[0]] + (before + rep + after) == ([s[0]] + before) + rep + after;
    }
  }

  /** When the replacement shares no character with the pattern, no occurrence of
      the pattern survives a global replacement. */
  lemma {:induction false} ReplaceAllRemovesPattern(s: string, pat: string, rep: string)
    requires |pat| > 0 && |rep| > 0
    requires Disjoint(pat, rep)
    ensures !Contains(ReplaceAll(s, pat, rep), pat)
    decreases |s|
  {
    var r := ReplaceAll(s, pat, rep);
    if |s| == 0 {
      assert !OccursAt(r, pat, 0);
    } else if pat <= s {
      var rest := ReplaceAll(s[|pat|..], pat, rep);
      assert r == rep + rest;
      ReplaceAllRemovesPattern(s[|pat|..], pat, rep);
      forall k | 0 <= k <= |r| - |pat|
        ensures !OccursAt(r, pat, k)
      {
        if k < |rep| {
          assert r[k] == rep[k] != pat[0];
          assert r[k..k + |pat|][0] == r[k];
        } else {
          OccursAfterPrefix(rep, rest, pat, k);
        }
      }
    } else {
      var rest := ReplaceAll(s[1..], pat, rep);
      assert r == [s[0]] + rest;
      ReplaceAllRemovesPattern(s[1..], pat, rep);
      forall k | 0 <= k <= |r| - |pat|
        ensures !OccursAt(r, pat, k)
      {
        if k == 0 {
          PrefixBeforeReplace(s, pat, rep, pat);
        } else {
          OccursAfterPrefix([s[0]], rest, pat, k);
        }
      }
    }
  }

  /** Text that does not contain the pattern is left unchanged. */
  lemma {:induction false} ReplaceAllAbsent(s: string, pat: string, rep: string)
    requires |pat| > 0
    requires !Contains(s, pat)
    ensures ReplaceAll(s, pat, rep) == s
    decreases |s|
  {
    if |s| > 0 {
      assert !OccursAt(s, pat, 0);
      assert !(pat <= s);
      if Contains(s[1..], pat) {
        var i :| 0 <= i <= |s[1..]| - |pat| && OccursAt(s[1..], pat, i);
        assert OccursAt(s, pat, i + 1);
      }
      ReplaceAllAbsent(s[1..], pat, rep);
    }
  }

  // ---------------------------------------------------------------------------
  // Case

  /** Lower-cases the letters A-Z and keeps every other character. Python's
      `str.lower` also folds other letters, none of which becomes one of the
      ASCII letters compared against here. */
  function AsciiLower(s: string): (r: string)
    ensures |r| == |s|
    ensures forall i :: 0 <= i < |s| ==> r[i] == (if 'A' <= s[i] <= 'Z' then (s[i] as int + 32) as char else s[i])
  {
    seq(|s|, i requires 0 <= i < |s| => if 'A' <= s[i] <= 'Z' then (s[i] as int + 32) as char else s[i])
  }

  /** `s` equals the lower-case word `w` when letter case is ignored. */
  predicate EqualsIgnoringCase(s: string, w: string)
  {
    |s| == |w| && forall i :: 0 <= i < |s| ==> s[i] == w[i] || (('a' <= w[i] <= 'z') && s[i] as int == w[i] as int - 32)
  }

  /** Lower-casing yields a lower-case word exactly when the text spells it in any case. */
  lemma {:induction false} AsciiLowerEquals(s: string, w: string)
    requires forall i :: 0 <= i < |w| ==> 'a' <= w[i] <= 'z'
    ensures AsciiLower(s) == w <==> EqualsIgnoringCase(s, w)
  {
    if EqualsIgnoringCase(s, w) {
      assert forall i :: 0 <= i < |s| ==> AsciiLower(s)[i] == w[i];
    }
    if AsciiLower(s) == w {
      forall i | 0 <= i < |s|
        ensures s[i] == w[i] || (('a' <= w[i] <= 'z') && s[i] as int == w[i] as int - 32)
      {
        assert AsciiLower(s)[i] == w[i];
      }
    }
  }

  // ---------------------------------------------------------------------------
  // Character removal

  /** Python `s.replace(c, '')` for a single character `c`. */
  function Without(s: string, c: char): (r: string)
    ensures c !in r
    ensures |r| <= |s|
  {
    if |s| == 0 then [] else (if s[0] == c then [] else [s[0]]) + Without(s[1..], c)
  }

  lemma {:induction false} WithoutAppend(a: string, b: string, c: char)
    ensures Without(a + b, c) == Without(a, c) + Without(b, c)
    decreases |a|
  {
    if |a| > 0 {
      assert (a + b)[1..] == a[1..] + b;
      WithoutAppend(a[1..], b, c);
    } else {
      assert a + b == b;
    }
  }

  lemma {:induction false} WithoutAbsent(s: string, c: char)
    requires c !in s
    ensures Without(s, c) == s
    decreases |s|
  {
    if |s| > 0 {
      WithoutAbsent(s[1..], c);
    }
  }
}
