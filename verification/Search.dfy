/** The first occurrence of a pattern: what buf_find of file_server/httplib.h looks for. */
module Search {
  predicate OccursAt(s: string, p: string, i: nat) {
    i + |p| <= |s| && s[i..i + |p|] == p
  }

  /** The first occurrence of `p` at or after `i`, or the length. */
  function FindFrom(s: string, p: string, i: nat): (k: nat)
    requires i <= |s|
    ensures i <= k <= |s| && (k < |s| ==> OccursAt(s, p, k))
    decreases |s| - i
  {
    if i == |s| || OccursAt(s, p, i) then i else FindFrom(s, p, i + 1)
  }

  function Find(s: string, p: string): (k: nat)
    ensures k <= |s| && (k < |s| ==> OccursAt(s, p, k))
  {
    FindFrom(s, p, 0)
  }

  ghost predicate NoneBefore(s: string, p: string, k: nat) {
    forall j :: 0 <= j < k ==> !OccursAt(s, p, j)
  }

  lemma {:induction false} FindFromIs(s: string, p: string, i: nat, k: nat)
    requires i <= k <= |s| && (forall j :: i <= j < k ==> !OccursAt(s, p, j))
    requires k < |s| ==> OccursAt(s, p, k)
    ensures FindFrom(s, p, i) == k
    decreases k - i
  {
    if i < k { FindFromIs(s, p, i + 1, k); }
  }

  lemma FindIs(s: string, p: string, k: nat)
    requires k <= |s| && NoneBefore(s, p, k) && (k < |s| ==> OccursAt(s, p, k))
    ensures Find(s, p) == k
  {
    FindFromIs(s, p, 0, k);
  }

  lemma {:induction false} FindFromGives(s: string, p: string, i: nat)
    requires i <= |s|
    ensures forall j :: i <= j < FindFrom(s, p, i) ==> !OccursAt(s, p, j)
    decreases |s| - i
  {
    if i < |s| && !OccursAt(s, p, i) { FindFromGives(s, p, i + 1); }
  }

  lemma FindGives(s: string, p: string)
    ensures NoneBefore(s, p, Find(s, p))
  {
    FindFromGives(s, p, 0);
  }

  /** An occurrence does not depend on what follows it. */
  lemma OccursInPrefix(s: string, t: string, p: string, i: nat)
    requires i + |p| <= |s|
    ensures OccursAt(s, p, i) <==> OccursAt(s + t, p, i)
  {
    assert (s + t)[i..i + |p|] == s[i..i + |p|];
  }

  /** `p` occurs first at `k`. */
  ghost predicate FirstAt(s: string, p: string, k: nat) {
    OccursAt(s, p, k) && NoneBefore(s, p, k)
  }

  /** Searching a prefix `s` of a text finds the first occurrence if it is whole, and nothing otherwise. */
  lemma FindInPrefix(s: string, t: string, p: string, k: nat)
    requires p != "" && FirstAt(s + t, p, k)
    ensures Find(s, p) == if k + |p| <= |s| then k else |s|
  {
    var n := if k + |p| <= |s| then k else |s|;
    forall j | 0 <= j < n ensures !OccursAt(s, p, j) {
      if j + |p| <= |s| { OccursInPrefix(s, t, p, j); }
    }
    if n < |s| { OccursInPrefix(s, t, p, k); }
    FindIs(s, p, n);
  }

  /**
   * A text without `p` can be followed by `p` without an earlier occurrence, if only its first
   * character is like that.
   */
  lemma FirstAfter(s: string, p: string, t: string)
    requires p != "" && (forall j :: 0 < j < |p| ==> p[j] != p[0])
    requires NoneBefore(s, p, |s|)
    ensures FirstAt(s + p + t, p, |s|)
  {
    var all := s + p + t;
    assert all[|s|..|s| + |p|] == p;
    forall j | 0 <= j < |s| ensures !OccursAt(all, p, j) {
      if j + |p| <= |s| {
        assert all == s + (p + t);
        OccursInPrefix(s, p + t, p, j);
      } else {
        assert all[|s|] == p[0];
        assert all[j..j + |p|][|s| - j] == p[0];
      }
    }
  }

  /** Dropping the start of a text shifts the first occurrence. */
  lemma FirstShift(s: string, p: string, k: nat, i: nat)
    requires i <= k && FirstAt(s, p, k)
    ensures FirstAt(s[i..], p, k - i)
  {
    assert s[i..][k - i..k - i + |p|] == s[k..k + |p|];
    forall j | 0 <= j < k - i ensures !OccursAt(s[i..], p, j) {
      if j + |p| <= |s| - i {
        assert !OccursAt(s, p, i + j);
        assert s[i..][j..j + |p|] == s[i + j..i + j + |p|];
      }
    }
  }
}
