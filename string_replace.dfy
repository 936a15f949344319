/**
 * Go's `strings.Index` and `strings.ReplaceAll` on strings of characters, and what the
 * cloud-init renderer relies on about them: the replacement is leftmost and
 * non-overlapping, leaves a text without the pattern alone, and cannot recreate a
 * token when the replacement value lacks the token's first and last characters and
 * does not itself occur inside the token.
 */
module StringReplace {

  /** `pat` occurs in `s` starting at position `i`. */
  predicate OccursAt(s: string, pat: string, i: int) {
    0 <= i && i + |pat| <= |s| && s[i..i + |pat|] == pat
  }

  /** `pat` occurs somewhere in `s`. */
  predicate Contains(s: string, pat: string) {
    exists i :: 0 <= i <= |s| - |pat| && OccursAt(s, pat, i)
  }

  lemma OccursAtSuffix(s: string, pat: string, k: nat, j: nat)
    requires k <= |s|
    ensures OccursAt(s[k..], pat, j) <==> OccursAt(s, pat, j + k)
  {
    if 0 <= j && j + |pat| <= |s| - k {
      assert s[k..][j..j + |pat|] == s[j + k..j + k + |pat|];
    }
  }

  /** Concatenation of texts is associative. */
  lemma ConcatAssociative(x: string, y: string, z: string)
    ensures x + y + z == x + (y + z)
  {
  }

  /** A slice of a slice is a slice of the whole text. */
  lemma SliceOfSlice(s: string, lo: int, hi: int, lo2: int, hi2: int)
    requires 0 <= lo <= hi <= |s| && 0 <= lo2 <= hi2 <= hi - lo
    ensures s[lo..hi][lo2..hi2] == s[lo + lo2..lo + hi2]
  {
    forall k | 0 <= k < hi2 - lo2 ensures s[lo..hi][lo2..hi2][k] == s[lo + lo2..lo + hi2][k] {
      assert s[lo..hi][lo2 + k] == s[lo + lo2 + k];
    }
  }

  /** A text that does not contain `pat` has no suffix that contains it. */
  lemma NotContainsSuffix(s: string, pat: string, k: nat)
    requires k <= |s| && !Contains(s, pat)
    ensures !Contains(s[k..], pat)
  {
    forall j | 0 <= j <= |s[k..]| - |pat| ensures !OccursAt(s[k..], pat, j) {
      OccursAtSuffix(s, pat, k, j);
    }
  }

  /**
   * One step of the left-to-right search: when `pat` does not start `s`, the
   * occurrences in `s` are those in `s[1..]`, shifted by one.
   */
  lemma IndexOfShift(s: string, pat: string, k: int)
    requires |s| >= 1 && !OccursAt(s, pat, 0)
    requires k != -1 ==> OccursAt(s[1..], pat, k)
    requires forall j :: 0 <= j && (k == -1 || j < k) ==> !OccursAt(s[1..], pat, j)
    ensures k != -1 ==> OccursAt(s, pat, k + 1)
    ensures forall j :: 0 <= j && (k == -1 || j < k + 1) ==> !OccursAt(s, pat, j)
  {
    if k != -1 {
      OccursAtSuffix(s, pat, 1, k);
    }
    forall j | 1 <= j && (k == -1 || j < k + 1) ensures !OccursAt(s, pat, j) {
      OccursAtSuffix(s, pat, 1, j - 1);
    }
  }

  /**
   * Go's `strings.Index`: the position of the leftmost occurrence of `pat` in `s`,
   * or -1 when there is none.
   */
  function IndexOf(s: string, pat: string): (r: int)
    ensures r >= -1
    ensures r != -1 ==> OccursAt(s, pat, r)
    ensures forall j :: 0 <= j && (r == -1 || j < r) ==> !OccursAt(s, pat, j)
    decreases |s|
  {
    if |s| < |pat| then -1
    else if s[..|pat|] == pat then 0
    else
      var k := IndexOf(s[1..], pat);
      IndexOfShift(s, pat, k);
      if k == -1 then -1 else k + 1
  }

  /**
   * Go's `strings.ReplaceAll(s, pat, rep)` for a non-empty `pat`: every leftmost,
   * non-overlapping occurrence of `pat` in `s` is replaced by `rep`; the scan resumes
   * after each replaced occurrence, so text produced by `rep` is never searched again.
   */
  function ReplaceAll(s: string, pat: string, rep: string): string
    requires pat != []
    decreases |s|
  {
    var i := IndexOf(s, pat);
    if i == -1 then s
    else s[..i] + rep + ReplaceAll(s[i + |pat|..], pat, rep)
  }

  /** The leftmost occurrence is the only one with no occurrence to its left. */
  lemma IndexOfLeftmost(s: string, pat: string, k: int)
    requires OccursAt(s, pat, k)
    requires forall j :: 0 <= j < k ==> !OccursAt(s, pat, j)
    ensures IndexOf(s, pat) == k
  {
  }

  /** One step of `ReplaceAll` at the leftmost occurrence that `IndexOf` finds. */
  lemma ReplaceAllStep(s: string, pat: string, rep: string)
    requires pat != [] && IndexOf(s, pat) != -1
    ensures var i := IndexOf(s, pat);
      ReplaceAll(s, pat, rep) == s[..i] + rep + ReplaceAll(s[i + |pat|..], pat, rep)
  {
  }

  /** A text without the pattern is returned unchanged. */
  lemma ReplaceAllNoMatch(s: string, pat: string, rep: string)
    requires pat != [] && !Contains(s, pat)
    ensures ReplaceAll(s, pat, rep) == s
  {
  }

  /**
   * The first step of `ReplaceAll`, stated without `IndexOf`: when `pat` occurs at `k`
   * and nowhere to the left of `k`, the text before `k` is kept, the occurrence
   * becomes `rep` and the scan goes on after it.
   */
  lemma {:induction false} ReplaceAllLeftmost(s: string, pat: string, rep: string, k: int)
    requires pat != []
    requires OccursAt(s, pat, k)
    requires forall j :: 0 <= j < k ==> !OccursAt(s, pat, j)
    ensures ReplaceAll(s, pat, rep) == s[..k] + rep + ReplaceAll(s[k + |pat|..], pat, rep)
  {
    IndexOfLeftmost(s, pat, k);
    ReplaceAllStep(s, pat, rep);
    assert IndexOf(s, pat) == k;
  }

  /** A text that is exactly the pattern becomes exactly the replacement. */
  lemma ReplaceAllOfPattern(pat: string, rep: string)
    requires pat != []
    ensures ReplaceAll(pat, pat, rep) == rep
  {
    assert OccursAt(pat, pat, 0);
    ReplaceAllLeftmost(pat, pat, rep, 0);
    ReplaceAllNoMatch(pat[|pat|..], pat, rep);
  }

  /**
   * A text holding the pattern once, after a prefix that lacks the pattern's first
   * character and before a suffix without the pattern, has that one occurrence replaced.
   */
  lemma ReplaceSingleOccurrence(a: string, pat: string, b: string, rep: string)
    requires pat != [] && pat[0] !in a && !Contains(b, pat)
    ensures ReplaceAll(a + pat + b, pat, rep) == a + rep + b
  {
    var s := a + pat + b;
    assert s[|a|..|a| + |pat|] == pat;
    forall j | 0 <= j < |a| ensures !OccursAt(s, pat, j) {
      assert s[j..j + |pat|][0] == s[j];
    }
    ReplaceAllLeftmost(s, pat, rep, |a|);
    assert s[..|a|] == a && s[|a| + |pat|..] == b;
    ReplaceAllNoMatch(b, pat, rep);
  }

  /**
   * `rep` can never become part of an occurrence of `q`: it contains neither the first
   * nor the last character of `q` and does not itself occur inside `q`.
   */
  predicate CannotForm(rep: string, q: string) {
    q != [] && q[0] !in rep && q[|q| - 1] !in rep && !Contains(q, rep)
  }

  /** A prefix has only the occurrences that lie wholly inside it. */
  lemma NotContainsPrefix(s: string, q: string, k: nat)
    requires k <= |s|
    requires forall p :: 0 <= p && p + |q| <= k ==> !OccursAt(s, q, p)
    ensures !Contains(s[..k], q)
  {
    forall p | 0 <= p <= k - |q| ensures !OccursAt(s[..k], q, p) {
      assert s[..k][p..p + |q|] == s[p..p + |q|];
      assert !OccursAt(s, q, p);
    }
  }

  /**
   * Gluing a value that cannot form `q` between two texts without `q` creates no
   * occurrence of `q`: a window over the glued text that touches `rep` either starts
   * in it, ends in it or holds it whole.
   */
  lemma GluedAvoids(a: string, rep: string, b: string, q: string)
    requires CannotForm(rep, q)
    requires !Contains(a, q) && !Contains(b, q)
    ensures !Contains(a + rep + b, q)
  {
    var r := a + rep + b;
    forall p | 0 <= p <= |r| - |q| ensures !OccursAt(r, q, p) {
      var w := r[p..p + |q|];
      if p + |q| <= |a| {
        // wholly inside a
        assert w == a[p..p + |q|];
        assert !OccursAt(a, q, p);
      } else if p < |a| && p + |q| <= |a| + |rep| {
        // ends inside rep, which lacks the last character of q
        assert w[|q| - 1] == rep[p + |q| - 1 - |a|];
      } else if p < |a| {
        // rep lies inside the window, but rep does not occur in q
        var off := |a| - p;
        assert r[|a|..|a| + |rep|] == rep;
        SliceOfSlice(r, p, p + |q|, off, off + |rep|);
        assert !Contains(q, rep);
        assert 0 <= off <= |q| - |rep|;
        assert !OccursAt(q, rep, off);
      } else if p < |a| + |rep| {
        // starts inside rep, which lacks the first character of q
        assert w[0] == rep[p - |a|];
      } else {
        // wholly inside b
        assert w == b[p - |a| - |rep|..p - |a| - |rep| + |q|];
        assert !OccursAt(b, q, p - |a| - |rep|);
      }
    }
  }

  /**
   * Replacing `pat` by a value that cannot form `q` leaves no occurrence of `q`:
   * when `q` is `pat` itself every occurrence is consumed, and when `q` is absent to
   * begin with the replacement cannot create one.
   */
  lemma {:induction false} ReplaceAllLeavesNo(s: string, pat: string, rep: string, q: string)
    requires pat != []
    requires CannotForm(rep, q)
    requires q == pat || !Contains(s, q)
    ensures !Contains(ReplaceAll(s, pat, rep), q)
    decreases |s|
  {
    var i := IndexOf(s, pat);
    if i == -1 {
      ReplaceAllNoMatch(s, pat, rep);
    } else {
      var a, b := s[..i], s[i + |pat|..];
      assert !Contains(a, q) by {
        forall p | 0 <= p && p + |q| <= i ensures !OccursAt(s, q, p) {
          if q != pat {
            assert p <= |s| - |q|;
          }
        }
        NotContainsPrefix(s, q, i);
      }
      if q != pat {
        NotContainsSuffix(s, q, i + |pat|);
      }
      ReplaceAllLeavesNo(b, pat, rep, q);
      GluedAvoids(a, rep, ReplaceAll(b, pat, rep), q);
      ReplaceAllStep(s, pat, rep);
    }
  }

  /** In no text does an occurrence of `pat` share a position with an occurrence of `q`. */
  ghost predicate NeverOverlap(pat: string, q: string) {
    forall t, i, p :: OccursAt(t, pat, i) && OccursAt(t, q, p) ==> i + |pat| <= p || p + |q| <= i
  }

  /** Any slice of an occurrence is the same slice of the pattern. */
  lemma OccurrenceSlice(t: string, pat: string, i: int, lo: int, hi: int)
    requires OccursAt(t, pat, i) && 0 <= lo <= hi <= |pat|
    ensures t[i + lo..i + hi] == pat[lo..hi]
  {
    var w := t[i..i + |pat|];
    forall k | 0 <= k < hi - lo ensures t[i + lo..i + hi][k] == pat[lo..hi][k] {
      assert t[i + lo + k] == w[lo + k];
    }
  }

  /** Each character of an occurrence is the matching character of the pattern. */
  lemma OccurrenceChar(t: string, pat: string, i: int, k: int)
    requires OccursAt(t, pat, i) && 0 <= k < |pat|
    ensures t[i + k] == pat[k]
  {
    assert t[i..i + |pat|][k] == t[i + k];
  }

  /**
   * A value that cannot form `pat` never overlaps an occurrence of it: a window of
   * `pat` that touches the value either starts in it, ends in it or holds it whole.
   */
  lemma CannotFormNeverOverlap(v: string, pat: string)
    requires CannotForm(v, pat)
    ensures NeverOverlap(pat, v)
  {
    forall t, i, p | OccursAt(t, pat, i) && 0 <= p && i < p + |v| && p < i + |pat|
      ensures !OccursAt(t, v, p)
    {
      if p <= i {
        // pat starts inside the window of v, and v lacks the first character of pat
        if p + |v| <= |t| {
          OccurrenceChar(t, pat, i, 0);
          assert t[p..p + |v|][i - p] == t[i];
        }
      } else if p + |v| <= i + |pat| {
        // the window of v lies inside pat, but v does not occur in pat
        OccurrenceSlice(t, pat, i, p - i, p - i + |v|);
        assert !OccursAt(pat, v, p - i);
      } else {
        // pat ends inside the window of v, and v lacks the last character of pat
        if p + |v| <= |t| {
          OccurrenceChar(t, pat, i, |pat| - 1);
          assert t[p..p + |v|][i + |pat| - 1 - p] == t[i + |pat| - 1];
        }
      }
    }
  }

  /** An occurrence in either part of a concatenation is an occurrence in the whole. */
  lemma OccursInConcat(x: string, y: string, q: string, p: int)
    ensures OccursAt(x, q, p) ==> OccursAt(x + y, q, p)
    ensures OccursAt(y, q, p) ==> OccursAt(x + y, q, |x| + p)
  {
    if OccursAt(x, q, p) {
      assert (x + y)[p..p + |q|] == x[p..p + |q|];
    }
    if OccursAt(y, q, p) {
      assert (x + y)[|x| + p..|x| + p + |q|] == y[p..p + |q|];
    }
  }

  /** A text contained in the left part of a concatenation is contained in the whole. */
  lemma ContainedInLeftPart(x: string, y: string, q: string)
    requires Contains(x, q)
    ensures Contains(x + y, q)
  {
    var p :| 0 <= p <= |x| - |q| && OccursAt(x, q, p);
    OccursInConcat(x, y, q, p);
  }

  /** A text contained in the right part of a concatenation is contained in the whole. */
  lemma ContainedInRightPart(x: string, y: string, q: string)
    requires Contains(y, q)
    ensures Contains(x + y, q)
  {
    var p :| 0 <= p <= |y| - |q| && OccursAt(y, q, p);
    OccursInConcat(x, y, q, p);
    assert 0 <= |x| + p <= |x + y| - |q|;
  }

  /** Where the pattern occurs, the replacement value occurs in the result. */
  lemma ReplaceAllKeepsValue(s: string, pat: string, rep: string)
    requires pat != [] && Contains(s, pat)
    ensures Contains(ReplaceAll(s, pat, rep), rep)
  {
    var i := IndexOf(s, pat);
    assert i != -1;
    ReplaceAllStep(s, pat, rep);
    var a, r := s[..i], ReplaceAll(s, pat, rep);
    assert OccursAt(rep, rep, 0);
    OccursInConcat(a, rep, rep, 0);
    OccursInConcat(a + rep, ReplaceAll(s[i + |pat|..], pat, rep), rep, |a|);
    assert OccursAt(r, rep, i) && i <= |r| - |rep|;
  }

  /** Occurrences of `pat` clear of position `p` stay clear of it in the suffix from `d`. */
  lemma ClearInSuffix(s: string, pat: string, q: string, d: nat, p: int)
    requires d <= |s| && d <= p
    requires forall i :: OccursAt(s, pat, i) ==> i + |pat| <= p || p + |q| <= i
    ensures forall j :: OccursAt(s[d..], pat, j) ==> j + |pat| <= p - d || p - d + |q| <= j
  {
    forall j | OccursAt(s[d..], pat, j) ensures j + |pat| <= p - d || p - d + |q| <= j {
      OccursAtSuffix(s, pat, d, j);
    }
  }

  /** An occurrence of `q` wholly before the first replaced occurrence survives. */
  lemma KeptBeforeFirst(s: string, pat: string, rep: string, q: string, p: int)
    requires pat != [] && IndexOf(s, pat) != -1
    requires OccursAt(s, q, p) && p + |q| <= IndexOf(s, pat)
    ensures Contains(ReplaceAll(s, pat, rep), q)
  {
    var i := IndexOf(s, pat);
    ReplaceAllStep(s, pat, rep);
    assert s[..i][p..p + |q|] == s[p..p + |q|];
    assert OccursAt(s[..i], q, p) && p <= i - |q|;
    ContainedInLeftPart(s[..i], rep, q);
    ContainedInLeftPart(s[..i] + rep, ReplaceAll(s[i + |pat|..], pat, rep), q);
  }

  /** What is left after the first replaced occurrence keeps its occurrences of `q`. */
  lemma KeptAfterFirst(s: string, pat: string, rep: string, q: string)
    requires pat != [] && IndexOf(s, pat) != -1
    requires Contains(ReplaceAll(s[IndexOf(s, pat) + |pat|..], pat, rep), q)
    ensures Contains(ReplaceAll(s, pat, rep), q)
  {
    var i := IndexOf(s, pat);
    ReplaceAllStep(s, pat, rep);
    ContainedInRightPart(s[..i] + rep, ReplaceAll(s[i + |pat|..], pat, rep), q);
  }

  /** Replacing `pat` keeps an occurrence of `q` that no occurrence of `pat` overlaps. */
  lemma {:induction false} ReplaceAllKeepsAt(s: string, pat: string, rep: string, q: string, p: nat)
    requires pat != [] && OccursAt(s, q, p)
    requires forall i :: OccursAt(s, pat, i) ==> i + |pat| <= p || p + |q| <= i
    ensures Contains(ReplaceAll(s, pat, rep), q)
    decreases |s|
  {
    var i := IndexOf(s, pat);
    if i == -1 {
      ReplaceAllNoMatch(s, pat, rep);
      assert p <= |s| - |q|;
    } else if p + |q| <= i {
      KeptBeforeFirst(s, pat, rep, q, p);
    } else {
      var d := i + |pat|;
      OccursAtSuffix(s, q, d, p - d);
      ClearInSuffix(s, pat, q, d, p);
      ReplaceAllKeepsAt(s[d..], pat, rep, q, p - d);
      KeptAfterFirst(s, pat, rep, q);
    }
  }

  /** Replacing `pat` keeps every text `q` whose occurrences never overlap those of `pat`. */
  lemma ReplaceAllKeeps(s: string, pat: string, rep: string, q: string)
    requires pat != [] && NeverOverlap(pat, q) && Contains(s, q)
    ensures Contains(ReplaceAll(s, pat, rep), q)
  {
    var p :| 0 <= p <= |s| - |q| && OccursAt(s, q, p);
    ReplaceAllKeepsAt(s, pat, rep, q, p);
  }

  /** A value holding a character that `q` lacks cannot occur inside `q`. */
  lemma ForeignCharNotContained(q: string, v: string, k: nat)
    requires k < |v| && v[k] !in q
    ensures !Contains(q, v)
  {
    forall p | 0 <= p <= |q| - |v| ensures !OccursAt(q, v, p) {
      assert q[p..p + |v|][k] == q[p + k];
    }
  }
}
