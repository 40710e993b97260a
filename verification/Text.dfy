/**
 * The text scanning helpers of file_server/httplib.h: trim, split, divide and the
 * case-insensitive comparisons.  Strings are byte strings: the code of each `char`
 * stands for one byte.
 */
module Text {
  const CRLF := "\r\n"
  const HEADER_MAX_LENGTH := 8192

  /** Every character stands for one byte. */
  predicate IsBytes(s: string) {
    forall i :: 0 <= i < |s| ==> s[i] as int < 256
  }

  /** isspace, and the class \s of a regular expression. */
  predicate IsSpace(c: char) {
    c == ' ' || '\t' <= c <= '\r'
  }

  function SkipSpaces(s: string, i: nat): (r: nat)
    requires i <= |s|
    ensures i <= r <= |s|
    decreases |s| - i
  {
    if i < |s| && IsSpace(s[i]) then SkipSpaces(s, i + 1) else i
  }

  predicate IsBlank(c: char) {
    c == ' ' || c == '\t'
  }

  /** The first position at or after `i` that is not blank, or the length. */
  function SkipBlanks(s: string, i: nat): (r: nat)
    requires i <= |s|
    ensures i <= r <= |s|
    decreases |s| - i
  {
    if i < |s| && IsBlank(s[i]) then SkipBlanks(s, i + 1) else i
  }

  /** One past the last position before `i` that is not blank, or 0. */
  function DropBlanks(s: string, i: nat): (r: nat)
    requires i <= |s|
    ensures r <= i
  {
    if i > 0 && IsBlank(s[i - 1]) then DropBlanks(s, i - 1) else i
  }

  /** `s` without the spaces and tabs at its ends. */
  function Trim(s: string): string {
    var left, right := SkipBlanks(s, 0), DropBlanks(s, |s|);
    if left < right then s[left..right] else ""
  }

  /** What trimming leaves is determined by where the outermost other characters are. */
  lemma TrimIs(s: string, left: nat, right: nat)
    requires left <= right <= |s|
    requires forall k :: 0 <= k < left ==> IsBlank(s[k])
    requires forall k :: right <= k < |s| ==> IsBlank(s[k])
    requires left < right ==> !IsBlank(s[left]) && !IsBlank(s[right - 1])
    ensures Trim(s) == s[left..right]
  {
    if left < right {
      SkipBlanksIs(s, 0, left);
      DropBlanksIs(s, |s|, right);
    } else {
      SkipBlanksIs(s, 0, |s|);
    }
  }

  lemma {:induction false} SkipBlanksIs(s: string, i: nat, left: nat)
    requires i <= left <= |s| && (forall k :: i <= k < left ==> IsBlank(s[k]))
    requires left < |s| ==> !IsBlank(s[left])
    ensures SkipBlanks(s, i) == left
    decreases |s| - i
  {
    if i < left { SkipBlanksIs(s, i + 1, left); }
  }

  lemma {:induction false} DropBlanksIs(s: string, i: nat, right: nat)
    requires right <= i <= |s| && (forall k :: right <= k < i ==> IsBlank(s[k]))
    requires right > 0 ==> !IsBlank(s[right - 1])
    ensures DropBlanks(s, i) == right
  {
    if i > right { DropBlanksIs(s, i - 1, right); }
  }

  lemma TrimClean(s: string)
    requires s == "" || (!IsBlank(s[0]) && !IsBlank(s[|s| - 1]))
    ensures Trim(s) == s
  {
    TrimIs(s, 0, |s|);
  }

  /** trim: moves the two ends inwards over spaces and tabs; the left end is not stopped by the right one. */
  method TrimRange(s: string, left0: nat, right0: nat) returns (left: nat, right: nat)
    requires left0 <= |s| && right0 <= |s|
    ensures left0 <= left <= |s| && (forall k :: left0 <= k < left ==> IsBlank(s[k]))
    ensures left < |s| ==> !IsBlank(s[left])
    ensures right <= right0 && (forall k :: right <= k < right0 ==> IsBlank(s[k]))
    ensures right > 0 ==> !IsBlank(s[right - 1])
  {
    left, right := left0, right0;
    while left < |s| && IsBlank(s[left])
      invariant left0 <= left <= |s|
      invariant forall k :: left0 <= k < left ==> IsBlank(s[k])
    {
      left := left + 1;
    }
    while right > 0 && IsBlank(s[right - 1])
      invariant right <= right0
      invariant forall k :: right <= k < right0 ==> IsBlank(s[k])
    {
      right := right - 1;
    }
  }

  /** The first position of `d` at or after `from`, or the length. */
  function IndexOf(s: string, d: char, from: nat): (k: nat)
    requires from <= |s|
    ensures from <= k <= |s|
    decreases |s| - from
  {
    if from == |s| || s[from] == d then from else IndexOf(s, d, from + 1)
  }

  lemma {:induction false} IndexOfIs(s: string, d: char, from: nat)
    requires from <= |s|
    ensures var k := IndexOf(s, d, from);
            (forall j :: from <= j < k ==> s[j] != d) && (k < |s| ==> s[k] == d)
    decreases |s| - from
  {
    if from < |s| && s[from] != d { IndexOfIs(s, d, from + 1); }
  }

  lemma {:induction false} IndexOfUnique(s: string, d: char, from: nat, k: nat)
    requires from <= k <= |s| && (forall j :: from <= j < k ==> s[j] != d)
    requires k < |s| ==> s[k] == d
    ensures IndexOf(s, d, from) == k
    decreases k - from
  {
    if from < k { IndexOfUnique(s, d, from + 1, k); }
  }

  /** A piece, trimmed, unless nothing is left of it. */
  function Token(piece: string): seq<string> {
    if Trim(piece) == "" then [] else [Trim(piece)]
  }

  /** The tokens of the first `n` pieces. */
  function Keep(pieces: seq<string>, n: nat): seq<string>
    requires n <= |pieces|
  {
    if n == 0 then [] else Keep(pieces, n - 1) + Token(pieces[n - 1])
  }

  function PiecesFrom(s: string, d: char, from: nat): seq<string>
    requires from <= |s|
    decreases |s| - from
  {
    var k := IndexOf(s, d, from);
    if k == |s| then [s[from..k]] else [s[from..k]] + PiecesFrom(s, d, k + 1)
  }

  /** The trimmed non-empty pieces of `s` between the separators `d`, in order. */
  function Tokens(s: string, d: char): seq<string> {
    Keep(PiecesFrom(s, d, 0), |PiecesFrom(s, d, 0)|)
  }

  /** Where split stands: `n` of the pieces `all` are done, and the next one starts at `beg`. */
  ghost predicate Splitting(s: string, d: char, all: seq<string>, n: nat, beg: nat, i: nat, tokens: seq<string>) {
    && beg <= i <= |s| && (beg > 0 ==> s[beg - 1] == d) && (forall k :: beg <= k < i ==> s[k] != d)
    && n <= |all| && all[n..] == PiecesFrom(s, d, beg) && tokens == Keep(all, n)
  }

  /** split: calls back with each token; here the tokens are collected. */
  method Split(s: string, d: char) returns (tokens: seq<string>)
    requires !IsBlank(d)
    ensures tokens == Tokens(s, d)
  {
    ghost var all, n: nat := PiecesFrom(s, d, 0), 0;
    tokens := [];
    var i: nat, beg: nat := 0, 0;
    while i < |s|
      invariant beg <= i <= |s|
      invariant Splitting(s, d, all, n, beg, i, tokens)
    {
      if s[i] == d {
        var token := TrimmedPiece(s, d, beg, i);
        SplitPiece(s, d, all, n, beg, i, tokens);
        tokens := tokens + token;
        beg, n := i + 1, n + 1;
      }
      i := i + 1;
    }
    LastPiece(s, d, all, n, beg, tokens);
    if i > 0 {
      var token := TrimmedPiece(s, d, beg, i);
      tokens := tokens + token;
    }
  }

  lemma SplitPiece(s: string, d: char, all: seq<string>, n: nat, beg: nat, i: nat, tokens: seq<string>)
    requires Splitting(s, d, all, n, beg, i, tokens) && i < |s| && s[i] == d
    ensures Splitting(s, d, all, n + 1, i + 1, i + 1, tokens + Token(s[beg..i]))
  {
    NextPiece(s, d, beg, i, all, n);
  }

  lemma {:induction false} LastPiece(s: string, d: char, all: seq<string>, n: nat, beg: nat, tokens: seq<string>)
    requires Splitting(s, d, all, n, beg, |s|, tokens)
    ensures Keep(all, |all|) == tokens + Token(s[beg..|s|])
    ensures s == "" ==> Token(s[beg..|s|]) == []
  {
    IndexOfUnique(s, d, beg, |s|);
    assert all[n] == all[n..][0] && |all| == n + 1;
  }

  lemma NextPiece(s: string, d: char, beg: nat, i: nat, all: seq<string>, n: nat)
    requires beg <= i < |s| && s[i] == d && (forall k :: beg <= k < i ==> s[k] != d)
    requires n <= |all| && all[n..] == PiecesFrom(s, d, beg)
    ensures n < |all| && all[n] == s[beg..i] && all[n + 1..] == PiecesFrom(s, d, i + 1)
  {
    IndexOfUnique(s, d, beg, i);
    PiecesStep(s, d, beg, i);
    assert all[n] == all[n..][0];
    assert all[n + 1..] == all[n..][1..];
  }

  lemma PiecesStep(s: string, d: char, from: nat, k: nat)
    requires from <= k < |s| && IndexOf(s, d, from) == k
    ensures PiecesFrom(s, d, from) == [s[from..k]] + PiecesFrom(s, d, k + 1)
  {
  }

  lemma {:induction false} KeepCons(piece: string, pieces: seq<string>, n: nat)
    requires n <= |pieces|
    ensures Keep([piece] + pieces, n + 1) == Token(piece) + Keep(pieces, n)
  {
    if n > 0 {
      KeepCons(piece, pieces, n - 1);
      assert ([piece] + pieces)[n] == pieces[n - 1];
      Associative(Token(piece), Keep(pieces, n - 1), Token(pieces[n - 1]));
    }
  }

  /** The call back of split for the piece from `beg` to `i`: none if trimming leaves nothing. */
  method TrimmedPiece(s: string, d: char, beg: nat, i: nat) returns (piece: seq<string>)
    requires !IsBlank(d) && beg <= i <= |s|
    requires (beg > 0 ==> s[beg - 1] == d) && (i < |s| ==> s[i] == d)
    ensures piece == Token(s[beg..i])
  {
    var left, right := TrimRange(s, beg, i);
    PieceIsToken(s, beg, i, left, right);
    piece := if left < right then [s[left..right]] else [];
  }

  lemma Associative<T>(a: seq<T>, b: seq<T>, c: seq<T>)
    ensures a + (b + c) == (a + b) + c
  {
  }

  lemma SliceOfSlice(s: string, beg: nat, end: nat, left: nat, right: nat)
    requires beg <= left <= right <= end <= |s|
    ensures s[beg..end][left - beg..right - beg] == s[left..right]
  {
    var a, b := s[beg..end][left - beg..right - beg], s[left..right];
    assert |a| == |b|;
    forall k | 0 <= k < |b| ensures a[k] == b[k] {
      assert b[k] == s[left + k];
      assert a[k] == s[beg..end][left - beg + k];
    }
  }

  lemma PieceIsToken(s: string, beg: nat, i: nat, left: nat, right: nat)
    requires beg <= i <= |s|
    requires beg > 0 ==> !IsBlank(s[beg - 1])
    requires i < |s| ==> !IsBlank(s[i])
    requires beg <= left <= |s| && (forall k :: beg <= k < left ==> IsBlank(s[k]))
    requires left < |s| ==> !IsBlank(s[left])
    requires right <= i && (forall k :: right <= k < i ==> IsBlank(s[k]))
    requires right > 0 ==> !IsBlank(s[right - 1])
    ensures Token(s[beg..i]) == if left < right then [s[left..right]] else []
  {
    var piece := s[beg..i];
    if left < right {
      TrimIs(piece, left - beg, right - beg);
      SliceOfSlice(s, beg, i, left, right);
    } else {
      assert left >= i;
      TrimIs(piece, |piece|, |piece|);
    }
  }

  /** divide: what is before and after the first `d`. */
  function Divide(s: string, d: char): (string, string) {
    var k := IndexOf(s, d, 0);
    (s[..k], if k < |s| then s[k + 1..] else "")
  }

  lemma DivideAt(lhs: string, d: char, rhs: string)
    requires d !in lhs
    ensures Divide(lhs + [d] + rhs, d) == (lhs, rhs)
  {
    var s := lhs + [d] + rhs;
    IndexOfUnique(s, d, 0, |lhs|);
    assert s[..|lhs|] == lhs && s[|lhs| + 1..] == rhs;
  }

  lemma TokensOne(s: string, d: char)
    requires d !in s
    ensures Tokens(s, d) == Token(s)
  {
    IndexOfUnique(s, d, 0, |s|);
    assert s[0..|s|] == s;
    KeepFirst([s]);
  }

  /** A blank before a token is trimmed away. */
  lemma BlankBefore(q: string)
    requires q != "" && !IsBlank(q[0]) && !IsBlank(q[|q| - 1])
    ensures Token(q) == [q] && Token(" " + q) == [q]
  {
    hide Trim;
    TrimClean(q);
    assert (" " + q)[1..|q| + 1] == q;
    TrimIs(" " + q, 1, |q| + 1);
  }

  lemma KeepFirst(pieces: seq<string>)
    requires pieces != []
    ensures Keep(pieces, 1) == Token(pieces[0])
  {
    assert Keep(pieces, 0) == [];
  }

  lemma {:induction false} IndexShift(pre: string, rhs: string, d: char, k: nat)
    requires k <= |rhs|
    ensures IndexOf(pre + rhs, d, |pre| + k) == |pre| + IndexOf(rhs, d, k)
    decreases |rhs| - k
  {
    if k < |rhs| {
      assert (pre + rhs)[|pre| + k] == rhs[k];
      if rhs[k] != d { IndexShift(pre, rhs, d, k + 1); }
    }
  }

  lemma SliceShift(pre: string, rhs: string, i: nat, j: nat)
    requires i <= j <= |rhs|
    ensures (pre + rhs)[|pre| + i..|pre| + j] == rhs[i..j]
  {
  }

  lemma {:induction false} PiecesShift(pre: string, rhs: string, d: char, k: nat)
    requires k <= |rhs|
    ensures PiecesFrom(pre + rhs, d, |pre| + k) == PiecesFrom(rhs, d, k)
    decreases |rhs| - k
  {
    var i := IndexOf(rhs, d, k);
    IndexShift(pre, rhs, d, k);
    SliceShift(pre, rhs, k, i);
    if i < |rhs| {
      PiecesShift(pre, rhs, d, i + 1);
      PiecesStep(pre + rhs, d, |pre| + k, |pre| + i);
      PiecesStep(rhs, d, k, i);
    }
  }

  lemma PiecesAt(lhs: string, d: char, rhs: string)
    requires d !in lhs
    ensures PiecesFrom(lhs + [d] + rhs, d, 0) == [lhs] + PiecesFrom(rhs, d, 0)
  {
    var pre := lhs + [d];
    IndexOfUnique(pre + rhs, d, 0, |lhs|);
    PiecesStep(pre + rhs, d, 0, |lhs|);
    assert (pre + rhs)[0..|lhs|] == lhs;
    PiecesShift(pre, rhs, d, 0);
  }

  lemma TokensAt(lhs: string, d: char, rhs: string)
    requires d !in lhs
    ensures Tokens(lhs + [d] + rhs, d) == Token(lhs) + Tokens(rhs, d)
  {
    PiecesAt(lhs, d, rhs);
    KeepCons(lhs, PiecesFrom(rhs, d, 0), |PiecesFrom(rhs, d, 0)|);
  }

  /** tolower in the "C" locale. */
  function ToLower(c: char): char {
    if 'A' <= c <= 'Z' then (c as int + 32) as char else c
  }

  /** compare_case_ignore on the first |p| characters. */
  predicate StartsWithIgnoringCase(s: string, p: string) {
    |s| >= |p| && forall i :: 0 <= i < |p| ==> ToLower(s[i]) == ToLower(p[i])
  }

  /** trim_double_quotes_copy */
  function Unquote(s: string): string {
    if |s| >= 2 && s[0] == '"' && s[|s| - 1] == '"' then s[1..|s| - 1] else s
  }
}
