/**
 * The few operations on Python `str` that the launcher's decisions depend on:
 * `endswith`, the substring test `in`, `strip()` and `split()` with no
 * separator. Strings are sequences of characters; no normalisation or case
 * folding takes place in the source either.
 */
module Text {

  /** `s.endswith(suffix)`: true for the empty suffix, as in Python. */
  predicate EndsWith(s: string, suffix: string)
  {
    |suffix| <= |s| && s[|s| - |suffix|..] == suffix
  }

  /** `sub in s` for two strings: `sub` occurs in `s` at some offset (the empty string occurs everywhere). */
  predicate Contains(s: string, sub: string)
    decreases |s|
  {
    sub <= s || (s != [] && Contains(s[1..], sub))
  }

  /** The reference reading of `sub in s`: some window of `s` equals `sub`. */
  ghost predicate OccursAt(s: string, sub: string, i: int)
  {
    0 <= i && i + |sub| <= |s| && s[i..i + |sub|] == sub
  }

  /** The recursive substring test agrees with the window definition, in both directions. */
  lemma {:induction false} ContainsIffOccurs(s: string, sub: string)
    ensures Contains(s, sub) <==> exists i :: OccursAt(s, sub, i)
    decreases |s|
  {
    if sub <= s {
      assert OccursAt(s, sub, 0);
    } else if s == [] {
      assert forall i :: !OccursAt(s, sub, i);
    } else {
      ContainsIffOccurs(s[1..], sub);
      if exists i :: OccursAt(s[1..], sub, i) {
        var i :| OccursAt(s[1..], sub, i);
        assert s[i + 1..i + 1 + |sub|] == s[1..][i..i + |sub|];
        assert OccursAt(s, sub, i + 1);
      }
      if exists i :: OccursAt(s, sub, i) {
        var i :| OccursAt(s, sub, i);
        assert s[1..][i - 1..i - 1 + |sub|] == s[i..i + |sub|];
        assert OccursAt(s[1..], sub, i - 1);
      }
    }
  }

  /** A string ends with every one of its suffixes. */
  lemma EndsWithAppend(prefix: string, suffix: string)
    ensures EndsWith(prefix + suffix, suffix)
  {
    assert (prefix + suffix)[|prefix|..] == suffix;
  }

  /** What `s[:-len(suffix)]` keeps when `s` ends with `suffix`. */
  function DropSuffix(s: string, suffix: string): (r: string)
    requires EndsWith(s, suffix)
    ensures r + suffix == s
  {
    assert s == s[..|s| - |suffix|] + s[|s| - |suffix|..];
    s[..|s| - |suffix|]
  }

  /**
   * Python's `str.isspace` for one character: the ASCII and Unicode
   * whitespace and separator characters that `strip()` and `split()` drop.
   */
  predicate IsSpace(c: char)
  {
    c == ' ' || ('\t' <= c <= '\r') || ('\U{1C}' <= c <= '\U{1F}')
    || c == '\U{85}' || c == '\U{A0}' || c == '\U{1680}'
    || ('\U{2000}' <= c <= '\U{200A}') || c == '\U{2028}' || c == '\U{2029}'
    || c == '\U{202F}' || c == '\U{205F}' || c == '\U{3000}'
  }

  /** A token of `split()`: non-empty and free of whitespace. */
  ghost predicate IsWord(w: string)
  {
    w != [] && forall i :: 0 <= i < |w| ==> !IsSpace(w[i])
  }

  /** `s.lstrip()`: drops the leading whitespace and nothing else. */
  function TrimStart(s: string): (r: string)
    ensures |r| <= |s| && r == s[|s| - |r|..]
    ensures forall i :: 0 <= i < |s| - |r| ==> IsSpace(s[i])
    ensures r == [] || !IsSpace(r[0])
    decreases |s|
  {
    if s != [] && IsSpace(s[0]) then TrimStart(s[1..]) else s
  }

  /** `s.rstrip()`: drops the trailing whitespace and nothing else. */
  function TrimEnd(s: string): (r: string)
    ensures |r| <= |s| && r == s[..|r|]
    ensures forall i :: |r| <= i < |s| ==> IsSpace(s[i])
    ensures r == [] || !IsSpace(r[|r| - 1])
    decreases |s|
  {
    if s != [] && IsSpace(s[|s| - 1]) then TrimEnd(s[..|s| - 1]) else s
  }

  /** `r` is the window `s[i..i + |r|]` and only whitespace lies outside it. */
  ghost predicate StrippedAt(s: string, r: string, i: int)
  {
    && 0 <= i <= |s| - |r| && r == s[i..i + |r|]
    && (forall k :: 0 <= k < i ==> IsSpace(s[k]))
    && (forall k :: i + |r| <= k < |s| ==> IsSpace(s[k]))
  }

  /**
   * `s.strip()`: the result is a window of `s`, everything outside the
   * window is whitespace, and the window neither starts nor ends with it.
   */
  function Strip(s: string): (r: string)
    ensures exists i :: StrippedAt(s, r, i)
    ensures r == [] || (!IsSpace(r[0]) && !IsSpace(r[|r| - 1]))
  {
    var t := TrimStart(s);
    var r := TrimEnd(t);
    var i := |s| - |t|;
    assert r == s[i..i + |r|];
    assert r != [] ==> r[0] == t[0];
    assert StrippedAt(s, r, i);
    r
  }

  /** Stripping twice strips nothing more. */
  lemma StripIdempotent(s: string)
    ensures Strip(Strip(s)) == Strip(s)
  {
    var r := Strip(s);
    assert TrimStart(r) == r;
    assert TrimEnd(r) == r;
  }

  /** Length of the longest whitespace-free prefix of `s`. */
  function WordLength(s: string): (n: nat)
    ensures n <= |s|
    ensures forall i :: 0 <= i < n ==> !IsSpace(s[i])
    ensures n < |s| ==> IsSpace(s[n])
    decreases |s|
  {
    if s == [] || IsSpace(s[0]) then 0 else 1 + WordLength(s[1..])
  }

  /**
   * `s.split()` with no separator: the maximal whitespace-free runs of `s`,
   * left to right; runs of whitespace of any length separate tokens, and no
   * empty token is produced.
   */
  function Split(s: string): (tokens: seq<string>)
    decreases |s|
  {
    if s == [] then []
    else if IsSpace(s[0]) then Split(s[1..])
    else
      var n := WordLength(s);
      [s[..n]] + Split(s[n..])
  }

  /** Every token of `split()` is a non-empty run without whitespace. */
  lemma {:induction false} SplitGivesWords(s: string)
    ensures forall k :: 0 <= k < |Split(s)| ==> IsWord(Split(s)[k])
    decreases |s|
  {
    if s == [] {
    } else if IsSpace(s[0]) {
      SplitGivesWords(s[1..]);
    } else {
      var n := WordLength(s);
      SplitGivesWords(s[n..]);
    }
  }

  /** `WordLength` stops exactly at the end of a leading word. */
  lemma WordLengthOfWord(w: string, rest: string)
    requires IsWord(w)
    requires rest == [] || IsSpace(rest[0])
    ensures WordLength(w + rest) == |w|
  {
    var s := w + rest;
    assert forall i :: 0 <= i < |w| ==> s[i] == w[i];
    assert rest != [] ==> s[|w|] == rest[0];
  }

  /** A run of whitespace only (possibly empty). */
  ghost predicate IsBlank(b: string)
  {
    forall i :: 0 <= i < |b| ==> IsSpace(b[i])
  }

  /** `seps[0] + words[0] + seps[1] + ... + words[n-1] + seps[n]`. */
  function Interleave(seps: seq<string>, words: seq<string>): (s: string)
    requires |seps| == |words| + 1
    decreases |words|
  {
    if words == [] then seps[0] else seps[0] + words[0] + Interleave(seps[1..], words[1..])
  }

  /**
   * `seps` and `words` lay out a string: the words are tokens, the
   * separators are whitespace, and the ones between two words are not empty
   * (those at either end may be).
   */
  ghost predicate IsLayout(seps: seq<string>, words: seq<string>)
  {
    && |seps| == |words| + 1
    && (forall k :: 0 <= k < |seps| ==> IsBlank(seps[k]))
    && (forall k :: 0 < k < |words| ==> seps[k] != [])
    && (forall k :: 0 <= k < |words| ==> IsWord(words[k]))
  }

  /** Leading whitespace does not change the tokens. */
  lemma {:induction false} SplitBlank(b: string, rest: string)
    requires IsBlank(b)
    ensures Split(b + rest) == Split(rest)
    decreases |b|
  {
    if b != [] {
      assert (b + rest)[1..] == b[1..] + rest;
      SplitBlank(b[1..], rest);
    } else {
      assert b + rest == rest;
    }
  }

  /**
   * Splitting any layout gives back its words, in order, whatever the
   * amount and kind of whitespace around and between them.
   */
  lemma {:induction false} SplitInterleave(seps: seq<string>, words: seq<string>)
    requires IsLayout(seps, words)
    ensures Split(Interleave(seps, words)) == words
    decreases |words|
  {
    if words == [] {
      SplitBlank(seps[0], []);
      assert seps[0] + [] == seps[0];
    } else {
      var w := words[0];
      var rest := Interleave(seps[1..], words[1..]);
      assert Interleave(seps, words) == seps[0] + (w + rest);
      SplitBlank(seps[0], w + rest);
      assert rest == [] || IsSpace(rest[0]) by {
        if |words| > 1 {
          assert seps[1..][0] == seps[1] && seps[1] != [];
          assert rest[0] == seps[1][0];
        } else {
          assert rest == seps[1];
        }
      }
      WordLengthOfWord(w, rest);
      assert (w + rest)[..|w|] == w;
      assert (w + rest)[|w|..] == rest;
      assert IsLayout(seps[1..], words[1..]) by {
        forall k | 0 < k < |words[1..]| ensures seps[1..][k] != [] {
          assert seps[1..][k] == seps[k + 1];
        }
        forall k | 0 <= k < |words[1..]| ensures IsWord(words[1..][k]) {
          assert words[1..][k] == words[k + 1];
        }
      }
      SplitInterleave(seps[1..], words[1..]);
    }
  }

  /** A whitespace character in front stretches the first separator. */
  lemma LayoutPrependSpace(c: char, sp: seq<string>, ws: seq<string>)
    requires IsSpace(c) && IsLayout(sp, ws)
    ensures IsLayout([[c] + sp[0]] + sp[1..], ws)
    ensures Interleave([[c] + sp[0]] + sp[1..], ws) == [c] + Interleave(sp, ws)
  {
    var seps := [[c] + sp[0]] + sp[1..];
    assert forall k :: 1 <= k < |seps| ==> seps[k] == sp[k];
    if ws != [] {
      assert seps[1..] == sp[1..];
    }
  }

  /** A word in front becomes the first word, after an empty separator. */
  lemma LayoutPrependWord(w: string, sp: seq<string>, ws: seq<string>)
    requires IsWord(w) && IsLayout(sp, ws) && (ws != [] ==> sp[0] != [])
    ensures IsLayout([[]] + sp, [w] + ws)
    ensures Interleave([[]] + sp, [w] + ws) == w + Interleave(sp, ws)
  {
    var seps := [[]] + sp;
    var words := [w] + ws;
    assert forall k :: 1 <= k < |seps| ==> seps[k] == sp[k - 1];
    assert forall k :: 1 <= k < |words| ==> words[k] == ws[k - 1];
    assert seps[1..] == sp && words[1..] == ws;
  }

  /** A layout whose first separator is empty starts with its first word, hence not with whitespace. */
  lemma LayoutStartsWithWord(sp: seq<string>, ws: seq<string>)
    requires IsLayout(sp, ws) && ws != [] && sp[0] == []
    ensures Interleave(sp, ws) != [] && !IsSpace(Interleave(sp, ws)[0])
  {
    var w := ws[0];
    var tail := Interleave(sp[1..], ws[1..]);
    assert Interleave(sp, ws) == sp[0] + w + tail;
    assert sp[0] + w + tail == w + tail;
    assert IsWord(w);
    assert (w + tail)[0] == w[0];
  }

  /** Every string is a layout of its own tokens, so `SplitInterleave` pins `split()` down on all inputs. */
  lemma {:induction false} SplitLayout(s: string)
    ensures exists seps :: IsLayout(seps, Split(s)) && Interleave(seps, Split(s)) == s
    decreases |s|
  {
    if s == [] {
      assert IsLayout([[]], []) && Interleave([[]], []) == s;
    } else if IsSpace(s[0]) {
      SplitLayout(s[1..]);
      var ws := Split(s[1..]);
      var sp :| IsLayout(sp, ws) && Interleave(sp, ws) == s[1..];
      LayoutPrependSpace(s[0], sp, ws);
      var seps := [[s[0]] + sp[0]] + sp[1..];
      assert s == [s[0]] + s[1..];
      assert IsLayout(seps, Split(s)) && Interleave(seps, Split(s)) == s;
    } else {
      var n := WordLength(s);
      var w := s[..n];
      var rest := s[n..];
      SplitLayout(rest);
      SplitGivesWords(s);
      var ws := Split(rest);
      assert Split(s) == [w] + ws;
      assert IsWord(w) by { assert Split(s)[0] == w; }
      var sp :| IsLayout(sp, ws) && Interleave(sp, ws) == rest;
      if ws != [] && sp[0] == [] {
        LayoutStartsWithWord(sp, ws);
      }
      LayoutPrependWord(w, sp, ws);
      assert s == w + rest;
      assert IsLayout([[]] + sp, Split(s)) && Interleave([[]] + sp, Split(s)) == s;
    }
  }
}
