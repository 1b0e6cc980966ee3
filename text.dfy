/** The few Python string operations the models use: strip, `in`/`index`, split, lower, join and replace. */
module Text {
  import opened Wrappers

  /** Python 2's unicode.isspace: ASCII whitespace, the separators 0x1c-0x1f and the Unicode spaces. */
  predicate IsSpace(c: char) {
    var n := c as int;
    n == 0x20 || 0x09 <= n <= 0x0d || 0x1c <= n <= 0x1f || n == 0x85 || n == 0xa0 || n == 0x1680
    || n == 0x180e || 0x2000 <= n <= 0x200a || n == 0x2028 || n == 0x2029 || n == 0x202f
    || n == 0x205f || n == 0x3000
  }

  /** s.lstrip(): the suffix of s that starts at its first non-space character. */
  function StripLeft(s: string): (r: string)
    ensures |r| <= |s|
    ensures r == [] || !IsSpace(r[0])
    ensures forall i :: 0 <= i < |s| - |r| ==> IsSpace(s[i])
  {
    if s != [] && IsSpace(s[0]) then StripLeft(s[1..]) else s
  }

  /** s.rstrip(): the prefix of s that ends at its last non-space character. */
  function StripRight(s: string): (r: string)
    ensures |r| <= |s|
    ensures r == [] || !IsSpace(r[|r| - 1])
    ensures forall i :: |r| <= i < |s| ==> IsSpace(s[i])
  {
    if s != [] && IsSpace(s[|s| - 1]) then StripRight(s[..|s| - 1]) else s
  }

  /** s.strip() */
  function Strip(s: string): (r: string)
    ensures |r| <= |s|
    ensures r == [] || (!IsSpace(r[0]) && !IsSpace(r[|r| - 1]))
  {
    StripRightIsPrefix(StripLeft(s));
    StripRight(StripLeft(s))
  }

  /** A string without surrounding whitespace is its own strip; in particular strip is idempotent. */
  lemma StripUnpadded(s: string)
    requires s == [] || (!IsSpace(s[0]) && !IsSpace(s[|s| - 1]))
    ensures Strip(s) == s
  {
    assert StripLeft(s) == s;
  }

  lemma StripIdempotent(s: string)
    ensures Strip(Strip(s)) == Strip(s)
  {
    StripUnpadded(Strip(s));
  }

  /** lstrip drops a prefix: what it returns is the rest of s. */
  lemma {:induction false} StripLeftIsSuffix(s: string)
    ensures StripLeft(s) == s[|s| - |StripLeft(s)|..]
  {
    if s != [] && IsSpace(s[0]) {
      StripLeftIsSuffix(s[1..]);
    }
  }

  /** rstrip drops a suffix: what it returns is the start of s. */
  lemma {:induction false} StripRightIsPrefix(s: string)
    ensures StripRight(s) == s[..|StripRight(s)|]
  {
    if s != [] && IsSpace(s[|s| - 1]) {
      StripRightIsPrefix(s[..|s| - 1]);
    }
  }

  /**
   * strip removes whitespace and nothing else, and only around the text: s is some
   * whitespace, then Strip(s), then some more whitespace.
   */
  lemma StripRemovesOnlySurroundingSpace(s: string)
    ensures exists a, b :: 0 <= a <= b <= |s| && s[a..b] == Strip(s)
              && (forall i :: 0 <= i < a ==> IsSpace(s[i]))
              && (forall i :: b <= i < |s| ==> IsSpace(s[i]))
  {
    var left := StripLeft(s);
    var a := |s| - |left|;
    StripLeftIsSuffix(s);
    StripRightIsPrefix(left);
    var b := a + |StripRight(left)|;
    assert s[a..b] == left[..|StripRight(left)|];
    forall i | b <= i < |s|
      ensures IsSpace(s[i])
    {
      assert s[i] == left[i - a];
    }
  }

  /** pat occurs in s starting at index i. */
  predicate OccursAt(s: string, pat: string, i: int) {
    0 <= i && i + |pat| <= |s| && s[i..i + |pat|] == pat
  }

  /** Python's `pat in s` on strings. */
  predicate Contains(s: string, pat: string) {
    exists i | 0 <= i <= |s| :: OccursAt(s, pat, i)
  }

  /** The first occurrence of pat in s at or after k. */
  function IndexFrom(s: string, pat: string, k: nat): (r: Option<nat>)
    requires k <= |s|
    ensures r.Some? ==> k <= r.value && OccursAt(s, pat, r.value)
    ensures r.Some? ==> forall j :: k <= j < r.value ==> !OccursAt(s, pat, j)
    ensures r.None? ==> forall j :: k <= j ==> !OccursAt(s, pat, j)
    decreases |s| - k
  {
    if OccursAt(s, pat, k) then Some(k)
    else if k == |s| then None
    else IndexFrom(s, pat, k + 1)
  }

  /** s.index(pat) when `pat in s`, None otherwise. */
  function IndexOf(s: string, pat: string): (r: Option<nat>)
    ensures r.Some? <==> Contains(s, pat)
    ensures r.Some? ==> OccursAt(s, pat, r.value) && forall j :: 0 <= j < r.value ==> !OccursAt(s, pat, j)
  {
    IndexFrom(s, pat, 0)
  }

  /** `if pat in s: s = s[:s.index(pat)]` */
  function CutBefore(s: string, pat: string): (r: string)
    ensures |r| <= |s| && r == s[..|r|]
    ensures Contains(s, pat) ==> |r| + |pat| <= |s| && r + pat == s[..|r| + |pat|]
    ensures Contains(s, pat) ==> forall j :: 0 <= j < |r| ==> !OccursAt(s, pat, j)
    ensures !Contains(s, pat) ==> r == s
  {
    match IndexOf(s, pat)
    case Some(i) => s[..i]
    case None => s
  }

  /** After the cut the marker no longer occurs, and cutting again changes nothing. */
  lemma CutBeforeRemovesMarker(s: string, pat: string)
    requires pat != []
    ensures !Contains(CutBefore(s, pat), pat)
    ensures CutBefore(CutBefore(s, pat), pat) == CutBefore(s, pat)
  {
    var r := CutBefore(s, pat);
    if Contains(r, pat) {
      var j :| 0 <= j <= |r| && OccursAt(r, pat, j);
      assert j + |pat| <= |r| <= |s|;
      assert r[j..j + |pat|] == s[j..j + |pat|];
      assert OccursAt(s, pat, j);
    }
  }

  /** The prefix of s before the first c (all of s when c does not occur). */
  function UpTo(s: string, c: char): (r: string)
    ensures |r| <= |s| && c !in r
    ensures forall i :: 0 <= i < |r| ==> r[i] == s[i]
    ensures |r| < |s| ==> s[|r|] == c
  {
    if s == [] || s[0] == c then []
    else [s[0]] + UpTo(s[1..], c)
  }

  /** UpTo stops at the first occurrence of c. */
  lemma {:induction false} UpToStopsAtFirst(s: string, c: char, i: nat)
    requires i < |s| && s[i] == c && c !in s[..i]
    ensures UpTo(s, c) == s[..i]
    decreases i
  {
    if i > 0 {
      assert s[0] in s[..i];
      assert s[1..][i - 1] == c && s[1..][..i - 1] == s[..i][1..];
      UpToStopsAtFirst(s[1..], c, i - 1);
    }
  }

  /** UpTo keeps all of a string without c. */
  lemma {:induction false} UpToWhole(s: string, c: char)
    requires c !in s
    ensures UpTo(s, c) == s
    decreases |s|
  {
    if s != [] {
      assert s[0] in s;
      assert forall x :: x in s[1..] ==> x in s;
      UpToWhole(s[1..], c);
    }
  }

  /** ASCII lower-casing of one character. */
  function LowerChar(c: char): (d: char)
    ensures 'A' <= c <= 'Z' ==> 'a' <= d <= 'z' && d as int == c as int + 32
    ensures !('A' <= c <= 'Z') ==> d == c
  {
    if 'A' <= c <= 'Z' then (c as int + 32) as char else c
  }

  function Lower(s: string): (r: string)
    ensures |r| == |s|
    ensures forall i :: 0 <= i < |s| ==> r[i] == LowerChar(s[i])
  {
    seq(|s|, i requires 0 <= i < |s| => LowerChar(s[i]))
  }

  /** Case-insensitive containment, the `__icontains` lookup. */
  predicate IContains(s: string, pat: string) {
    Contains(Lower(s), Lower(pat))
  }

  /** sep.join(xs) */
  function Join(sep: string, xs: seq<string>): (r: string)
    decreases |xs|
  {
    if |xs| == 0 then ""
    else if |xs| == 1 then xs[0]
    else xs[0] + sep + Join(sep, xs[1..])
  }

  /** A join is empty exactly when there is nothing to join, or a single empty string, as long as the separator is not empty. */
  lemma {:induction false} JoinEmpty(sep: string, xs: seq<string>)
    requires sep != []
    ensures Join(sep, xs) == "" <==> |xs| == 0 || (|xs| == 1 && xs[0] == "")
  {
    if |xs| >= 2 {
      assert |Join(sep, xs)| >= |sep|;
    }
  }

  /** An occurrence in b is an occurrence in a + b, shifted by |a|. */
  lemma OccursInSuffix(a: string, b: string, pat: string, i: int)
    requires OccursAt(b, pat, i)
    ensures OccursAt(a + b, pat, |a| + i)
  {
    assert (a + b)[|a| + i..|a| + i + |pat|] == b[i..i + |pat|];
  }

  lemma OccursInPrefix(a: string, b: string, pat: string, i: int)
    requires OccursAt(a, pat, i)
    ensures OccursAt(a + b, pat, i)
  {
    assert (a + b)[i..i + |pat|] == a[i..i + |pat|];
  }

  /** A join starts with the first string. */
  lemma JoinStartsWithFirst(sep: string, xs: seq<string>)
    requires |xs| > 0
    ensures OccursAt(Join(sep, xs), xs[0], 0)
  {
    if |xs| > 1 {
      assert OccursAt(xs[0], xs[0], 0);
      OccursInPrefix(xs[0], sep + Join(sep, xs[1..]), xs[0], 0);
      assert xs[0] + sep + Join(sep, xs[1..]) == xs[0] + (sep + Join(sep, xs[1..]));
    } else {
      assert OccursAt(xs[0], xs[0], 0);
    }
  }

  /** A join ends with the last string. */
  lemma {:induction false} JoinEndsWithLast(sep: string, xs: seq<string>)
    requires |xs| > 0
    ensures |xs[|xs| - 1]| <= |Join(sep, xs)|
    ensures OccursAt(Join(sep, xs), xs[|xs| - 1], |Join(sep, xs)| - |xs[|xs| - 1]|)
  {
    var last := xs[|xs| - 1];
    if |xs| == 1 {
      assert OccursAt(last, last, 0);
    } else {
      var rest := Join(sep, xs[1..]);
      JoinEndsWithLast(sep, xs[1..]);
      assert xs[1..][|xs[1..]| - 1] == last;
      OccursInSuffix(xs[0] + sep, rest, last, |rest| - |last|);
    }
  }

  /** Every joined string occurs in the join. */
  lemma {:induction false} JoinContainsEach(sep: string, xs: seq<string>, k: nat)
    requires k < |xs|
    ensures Contains(Join(sep, xs), xs[k])
  {
    if k == 0 {
      JoinStartsWithFirst(sep, xs);
    } else {
      var rest := Join(sep, xs[1..]);
      assert xs[1..][k - 1] == xs[k];
      JoinContainsEach(sep, xs[1..], k - 1);
      var i :| 0 <= i <= |rest| && OccursAt(rest, xs[k], i);
      OccursInSuffix(xs[0] + sep, rest, xs[k], i);
      assert 0 <= |xs[0] + sep| + i <= |Join(sep, xs)|;
    }
  }

  /** s.replace(from, to) for single characters. */
  function ReplaceChar(s: string, from: char, to: char): (r: string)
    ensures |r| == |s|
    ensures forall i :: 0 <= i < |s| ==> r[i] == if s[i] == from then to else s[i]
  {
    seq(|s|, i requires 0 <= i < |s| => if s[i] == from then to else s[i])
  }
}
