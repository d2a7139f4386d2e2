/** The few Python string operations the script relies on, with their CPython meaning. */
module Strings {
  import opened Common

  predicate StartsWith(s: string, prefix: string) {
    |prefix| <= |s| && s[..|prefix|] == prefix
  }

  /** `pat` occurs in `t` starting at index `i`. */
  predicate OccursAt(t: string, pat: string, i: nat) {
    i + |pat| <= |t| && t[i..i + |pat|] == pat
  }

  /** The first index at or after `from` where `pat` occurs (what a leftmost regex search finds). */
  function IndexOf(t: string, pat: string, from: nat): (r: Option<nat>)
    decreases |t| - from
    ensures r.Some? ==> from <= r.value && OccursAt(t, pat, r.value)
    ensures r.Some? ==> forall i :: from <= i < r.value ==> !OccursAt(t, pat, i)
    ensures r.None? ==> forall i :: from <= i ==> !OccursAt(t, pat, i)
  {
    if from + |pat| > |t| then None
    else if t[from..from + |pat|] == pat then Some(from)
    else IndexOf(t, pat, from + 1)
  }

  /** The largest index in [lo, hi] where `pat` occurs. */
  function LastIndexIn(t: string, pat: string, lo: nat, hi: nat): (r: Option<nat>)
    decreases hi
    ensures r.Some? ==> lo <= r.value <= hi && OccursAt(t, pat, r.value)
    ensures r.Some? ==> forall i :: r.value < i <= hi ==> !OccursAt(t, pat, i)
    ensures r.None? ==> forall i :: lo <= i <= hi ==> !OccursAt(t, pat, i)
  {
    if hi < lo then None
    else if OccursAt(t, pat, hi) then Some(hi)
    else if hi == 0 then None
    else LastIndexIn(t, pat, lo, hi - 1)
  }

  /** The last index at or after `lo` where `pat` occurs (where a greedy `.*` stops backtracking). */
  function LastIndexOf(t: string, pat: string, lo: nat): (r: Option<nat>)
    ensures r.Some? ==> lo <= r.value && OccursAt(t, pat, r.value)
    ensures r.Some? ==> forall i :: r.value < i ==> !OccursAt(t, pat, i)
    ensures r.None? ==> forall i :: lo <= i ==> !OccursAt(t, pat, i)
  {
    LastIndexIn(t, pat, lo, |t|)
  }

  /** `str.replace(pat, rep)`: every non-overlapping occurrence of `pat`, scanned from the left. */
  function ReplaceAll(s: string, pat: string, rep: string): (r: string)
    requires |pat| > 0
    decreases |s|
    ensures (forall i :: !OccursAt(s, pat, i)) ==> r == s
  {
    if |s| < |pat| then s
    else if s[..|pat|] == pat then
      assert OccursAt(s, pat, 0);
      rep + ReplaceAll(s[|pat|..], pat, rep)
    else
      assert (forall i :: !OccursAt(s, pat, i)) ==> forall j :: !OccursAt(s[1..], pat, j) by {
        forall j: nat | OccursAt(s[1..], pat, j) ensures OccursAt(s, pat, j + 1) {
          assert s[1..][j..j + |pat|] == s[j + 1..j + 1 + |pat|];
        }
      }
      [s[0]] + ReplaceAll(s[1..], pat, rep)
  }

  /** `str.replace` consumes an occurrence at the front ... */
  lemma ReplaceAtFront(s: string, pat: string, rep: string)
    requires |pat| > 0 && StartsWith(s, pat)
    ensures ReplaceAll(s, pat, rep) == rep + ReplaceAll(s[|pat|..], pat, rep)
  {
  }

  /** ... and otherwise keeps the first character and moves on. */
  lemma ReplaceSkipsFront(s: string, pat: string, rep: string)
    requires |pat| > 0 && s != [] && !StartsWith(s, pat)
    ensures ReplaceAll(s, pat, rep) == [s[0]] + ReplaceAll(s[1..], pat, rep)
  {
  }

  /** Python's `str.isspace` for one character. */
  predicate IsSpace(c: char) {
    c == ' ' || '\t' <= c <= '\r' || '\U{1C}' <= c <= '\U{1F}' || c == '\U{85}' || c == '\U{A0}'
    || c == '\U{1680}' || '\U{2000}' <= c <= '\U{200A}' || c == '\U{2028}' || c == '\U{2029}'
    || c == '\U{202F}' || c == '\U{205F}' || c == '\U{3000}'
  }

  /** Neither end of `s` is whitespace. */
  predicate Trimmed(s: string) {
    s == [] || (!IsSpace(s[0]) && !IsSpace(s[|s| - 1]))
  }

  function TrimStart(s: string): (r: string)
    ensures |r| <= |s| && r == s[|s| - |r|..]
    ensures r == [] || !IsSpace(r[0])
    ensures forall i :: 0 <= i < |s| - |r| ==> IsSpace(s[i])
  {
    if s != [] && IsSpace(s[0]) then TrimStart(s[1..]) else s
  }

  function TrimEnd(s: string): (r: string)
    ensures |r| <= |s| && r == s[..|r|]
    ensures r == [] || !IsSpace(r[|r| - 1])
    ensures forall i :: |r| <= i < |s| ==> IsSpace(s[i])
  {
    if s != [] && IsSpace(s[|s| - 1]) then TrimEnd(s[..|s| - 1]) else s
  }

  /** `str.strip()` with no argument: removes leading and trailing whitespace, nothing else. */
  function Strip(s: string): (r: string)
    ensures Trimmed(r)
    ensures forall x :: x in r ==> x in s
    ensures exists a, b ::
              0 <= a <= b <= |s| && r == s[a..b]
              && (forall i :: 0 <= i < a ==> IsSpace(s[i])) && (forall i :: b <= i < |s| ==> IsSpace(s[i]))
    ensures Trimmed(s) ==> r == s
  {
    var l := TrimStart(s);
    var r := TrimEnd(l);
    StripCut(s, l, r);
    r
  }

  /** Cutting blanks off the front of `s`, giving `l`, then off the back of `l`, keeps a slice of `s`. */
  lemma StripCut(s: string, l: string, r: string)
    requires |l| <= |s| && l == s[|s| - |l|..] && forall i :: 0 <= i < |s| - |l| ==> IsSpace(s[i])
    requires |r| <= |l| && r == l[..|r|] && forall i :: |r| <= i < |l| ==> IsSpace(l[i])
    requires l == [] || !IsSpace(l[0])
    requires r == [] || !IsSpace(r[|r| - 1])
    ensures Trimmed(r)
    ensures Trimmed(s) ==> r == s
    ensures forall x :: x in r ==> x in s
    ensures exists a, b ::
              0 <= a <= b <= |s| && r == s[a..b]
              && (forall i :: 0 <= i < a ==> IsSpace(s[i])) && (forall i :: b <= i < |s| ==> IsSpace(s[i]))
  {
    var a := |s| - |l|;
    assert r == s[a..a + |r|];
    if r != [] {
      assert r[0] == l[0];
    }
    if Trimmed(s) && s != [] {
      assert !IsSpace(s[0]);
      assert a == 0;
      assert !IsSpace(l[|l| - 1]);
    }
    forall i | a + |r| <= i < |s| ensures IsSpace(s[i]) {
      assert s[i] == l[i - a];
    }
    forall x | x in r ensures x in s {
      var k :| 0 <= k < |r| && r[k] == x;
      assert s[a + k] == x;
    }
  }

  /** Leading blanks are dropped by `TrimStart` ... */
  lemma {:induction false} TrimStartBlanks(pre: string, s: string)
    requires forall i :: 0 <= i < |pre| ==> IsSpace(pre[i])
    ensures TrimStart(pre + s) == TrimStart(s)
    decreases |pre|
  {
    if pre == [] {
      assert pre + s == s;
    } else {
      assert (pre + s)[1..] == pre[1..] + s;
      TrimStartBlanks(pre[1..], s);
    }
  }

  /** ... and trailing blanks by `TrimEnd`. */
  lemma {:induction false} TrimEndBlanks(s: string, post: string)
    requires forall i :: 0 <= i < |post| ==> IsSpace(post[i])
    ensures TrimEnd(s + post) == TrimEnd(s)
    decreases |post|
  {
    if post == [] {
      assert s + post == s;
    } else {
      var init := post[..|post| - 1];
      assert (s + post)[..|s + post| - 1] == s + init;
      TrimEndBlanks(s, init);
    }
  }

  /** `strip()` of a trimmed text with blanks around it is that text. */
  lemma StripPadded(pre: string, x: string, post: string)
    requires Trimmed(x)
    requires forall i :: 0 <= i < |pre| ==> IsSpace(pre[i])
    requires forall i :: 0 <= i < |post| ==> IsSpace(post[i])
    ensures Strip(pre + x + post) == x
  {
    assert pre + x + post == pre + (x + post);
    TrimStartBlanks(pre, x + post);
    if x == [] {
      assert x + post == post + [];
      TrimStartBlanks(post, []);
    } else {
      TrimEndBlanks(x, post);
    }
  }

  /** A whitespace character appended at the end makes no difference to `strip()`. */
  lemma StripSpaceEnd(x: string, c: char)
    requires IsSpace(c)
    ensures Strip(x + [c]) == Strip(x)
  {
    var m := Strip(x);
    var a, b :| 0 <= a <= b <= |x| && m == x[a..b]
      && (forall i :: 0 <= i < a ==> IsSpace(x[i])) && (forall i :: b <= i < |x| ==> IsSpace(x[i]));
    Regroup(x, c, a, b);
    StripPadded(x[..a], m, x[b..] + [c]);
  }

  /** `x + [c]` as its leading blanks, the slice `x[a..b]`, and the blanks after it. */
  lemma Regroup(x: string, c: char, a: nat, b: nat)
    requires IsSpace(c) && a <= b <= |x|
    requires forall i :: 0 <= i < a ==> IsSpace(x[i])
    requires forall i :: b <= i < |x| ==> IsSpace(x[i])
    ensures x + [c] == x[..a] + x[a..b] + (x[b..] + [c])
    ensures forall i :: 0 <= i < |x[..a]| ==> IsSpace(x[..a][i])
    ensures forall i :: 0 <= i < |x[b..] + [c]| ==> IsSpace((x[b..] + [c])[i])
  {
    var post := x[b..] + [c];
    forall i | 0 <= i < |post| ensures IsSpace(post[i]) {
      if i < |x| - b {
        assert post[i] == x[b + i];
      }
    }
  }

  /** `str.replace(c, '')` for a single character `c`. */
  function RemoveChar(s: string, c: char): (r: string)
    ensures multiset(r) == multiset(s)[c := 0]
    ensures c !in r
    ensures forall x :: x in r ==> x in s
    ensures c !in s ==> r == s
  {
    if s == [] then []
    else
      assert s == [s[0]] + s[1..];
      if s[0] == c then RemoveChar(s[1..], c)
      else [s[0]] + RemoveChar(s[1..], c)
  }

  /** Removal works character by character, so it keeps the order of what it keeps. */
  lemma {:induction false} RemoveCharAppend(a: string, b: string, c: char)
    ensures RemoveChar(a + b, c) == RemoveChar(a, c) + RemoveChar(b, c)
    decreases |a|
  {
    if a == [] {
      assert a + b == b;
    } else {
      assert (a + b)[0] == a[0] && (a + b)[1..] == a[1..] + b;
      RemoveCharAppend(a[1..], b, c);
    }
  }

  /** A first or last character other than `c` stays first or last. */
  lemma RemoveCharEnds(s: string, c: char)
    ensures s != [] && s[0] != c ==> RemoveChar(s, c) != [] && RemoveChar(s, c)[0] == s[0]
    ensures s != [] && s[|s| - 1] != c ==> RemoveChar(s, c) != [] && RemoveChar(s, c)[|RemoveChar(s, c)| - 1] == s[|s| - 1]
  {
    if s != [] && s[|s| - 1] != c {
      var init := s[..|s| - 1];
      assert s == init + [s[|s| - 1]];
      RemoveCharAppend(init, [s[|s| - 1]], c);
      assert RemoveChar([s[|s| - 1]], c) == [s[|s| - 1]];
    }
  }
}
