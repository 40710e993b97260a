/** checkPrefixSuffix of any/kmp.cpp: the prefix function of Knuth, Morris and Pratt. */
module PrefixFunction {
  /** The first `k` characters are also the last `k` of the first `n`, and not all of them. */
  predicate IsBorder(s: string, n: nat, k: nat) {
    k < n <= |s| && s[..k] == s[n - k..n]
  }

  ghost predicate IsLongest(s: string, n: nat, k: nat) {
    IsBorder(s, n, k) && forall m: nat :: IsBorder(s, n, m) ==> m <= k
  }

  /** A border of one more character is a border, and the same character again. */
  lemma BorderNext(s: string, n: nat, k: nat)
    requires n < |s| && 0 < k <= n
    ensures IsBorder(s, n + 1, k) <==> IsBorder(s, n, k - 1) && s[k - 1] == s[n]
  {
    var a, b := s[..k], s[n + 1 - k..n + 1];
    assert a == s[..k - 1] + [s[k - 1]] && b == s[n - (k - 1)..n] + [s[n]];
    if a == b { assert a[..k - 1] == b[..k - 1] && a[k - 1] == b[k - 1]; }
  }

  /** The shorter of two borders is a border of the longer one. */
  lemma BorderOfBorder(s: string, n: nat, i: nat, m: nat)
    requires IsBorder(s, n, i) && m < i
    ensures IsBorder(s, n, m) <==> IsBorder(s, i, m)
  {
    assert s[..i][i - m..i] == s[i - m..i];
    assert s[n - i..n][i - m..i] == s[n - m..n];
  }

  /** No border after the next character is longer than the one being tried. */
  ghost predicate NoneLonger(s: string, n: nat, i: nat) {
    forall k: nat :: IsBorder(s, n, k) ==> k <= i + 1
  }

  lemma StartTrying(s: string, j: nat, i: nat)
    requires j < |s| && IsLongest(s, j, i)
    ensures IsBorder(s, j, i) && NoneLonger(s, j + 1, i)
  {
    var n := j + 1;
    forall k: nat | IsBorder(s, n, k) ensures k <= i + 1 {
      if k > 0 { BorderNext(s, j, k); }
    }
  }

  /** Falling back to the longest border of what was tried loses nothing. */
  lemma FallBack(s: string, j: nat, i: nat, next: nat)
    requires j < |s| && IsBorder(s, j, i) && i > 0 && s[i] != s[j] && NoneLonger(s, j + 1, i) && IsLongest(s, i, next)
    ensures IsBorder(s, j, next) && NoneLonger(s, j + 1, next)
  {
    BorderOfBorder(s, j, i, next);
    var n := j + 1;
    forall k: nat | IsBorder(s, n, k) ensures k <= next + 1 {
      if k > 0 {
        BorderNext(s, j, k);
        BorderOfBorder(s, j, i, k - 1);
      }
    }
  }

  /** What the comparison after the fall-backs decides. */
  lemma Decide(s: string, j: nat, i: nat)
    requires j < |s| && IsBorder(s, j, i) && NoneLonger(s, j + 1, i) && (s[i] == s[j] || i == 0)
    ensures IsLongest(s, j + 1, if s[i] == s[j] then i + 1 else 0)
  {
    BorderNext(s, j, i + 1);
  }

  /** The first `j` entries are right. */
  ghost predicate Filled(s: string, nxt: seq<nat>, j: nat) {
    j <= |nxt| == |s| && forall m: nat :: m < j ==> IsLongest(s, m + 1, nxt[m])
  }

  lemma FilledAt(s: string, nxt: seq<nat>, j: nat, n: nat)
    requires Filled(s, nxt, j) && 0 < n <= j
    ensures IsLongest(s, n, nxt[n - 1]) && nxt[n - 1] < n
  {
    var m: nat := n - 1;
    assert IsLongest(s, m + 1, nxt[m]);
  }

  lemma FillFirst(s: string, nxt: seq<nat>)
    requires |nxt| == |s| > 0 && IsLongest(s, 1, nxt[0])
    ensures Filled(s, nxt, 1)
  {
  }

  lemma FillNext(s: string, nxt: seq<nat>, j: nat, k: nat)
    requires Filled(s, nxt, j) && j < |s| && IsLongest(s, j + 1, k)
    ensures Filled(s, nxt[j := k], j + 1)
  {
  }

  /**
   * checkPrefixSuffix: each entry is the length of the longest border of the text up to it.
   * `fallbacks` counts the passes of the inner loop over the whole run.
   */
  method CheckPrefixSuffix(s: string) returns (nxt: array<nat>, fallbacks: nat)
    ensures fresh(nxt) && Filled(s, nxt[..], |s|)
    ensures fallbacks <= |s|
  {
    hide IsLongest, NoneLonger;
    nxt := new nat[|s|](_ => 0);
    fallbacks := 0;
    if s == "" { return; }
    OneCharacter(s);
    FillFirst(s, nxt[..]);
    var i: nat := 0;
    for j := 1 to |s|
      invariant nxt.Length == |s| && Filled(s, nxt[..], j) && i == nxt[j - 1]
      invariant fallbacks + i < j
    {
      FilledAt(s, nxt[..], j, j);
      StartTrying(s, j, i);
      ghost var done := nxt[..];
      while s[i] != s[j] && i > 0
        invariant nxt[..] == done
        invariant IsBorder(s, j, i) && NoneLonger(s, j + 1, i)
        invariant fallbacks + i < j
        decreases i
      {
        FilledAt(s, nxt[..], j, i);
        FallBack(s, j, i, nxt[i - 1]);
        i := nxt[i - 1];
        fallbacks := fallbacks + 1;
      }
      Decide(s, j, i);
      FillNext(s, nxt[..], j, if s[i] == s[j] then i + 1 else 0);
      if s[i] == s[j] {
        i := i + 1;
        nxt[j] := i;
      } else {
        nxt[j] := 0;
      }
    }
  }

  lemma OneCharacter(s: string)
    requires s != ""
    ensures IsLongest(s, 1, 0)
  {
  }
}
