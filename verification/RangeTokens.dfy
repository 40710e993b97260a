/**
 * Which Range headers file_server/httplib.h accepts, and what they ask for (RFC 9110, section 14.1),
 * whoever wrote them.
 */
module RangeTokens {
  import opened Options
  import opened RangeHeader
  import opened Ranges
  import opened Text

  function Zeros(z: nat): string {
    seq(z, _ => '0')
  }

  /** An end that is missing, or its decimal digits, leading zeros before them. */
  ghost predicate IsEnd(t: string, n: int) {
    if n == -1 then t == "" else 0 <= n <= LLONG_MAX && exists z: nat :: t == Zeros(z) + Decimal(n)
  }

  /** The token asks for the range: it has an end, and its ends are in order. */
  ghost predicate Asks(token: string, r: Range) {
    && r != (-1, -1) && (r.0 != -1 && r.1 != -1 ==> r.0 <= r.1)
    && exists lhs, rhs :: token == lhs + "-" + rhs && IsEnd(lhs, r.0) && IsEnd(rhs, r.1)
  }

  // ---------------------------------------------------------------- numbers

  lemma ZeroNext(z: nat)
    ensures Zeros(z + 1) == Zeros(z) + "0" == "0" + Zeros(z)
  {
  }

  lemma {:induction false} PaddedNumber(z: nat, n: nat)
    ensures var t := Zeros(z) + Decimal(n); t != "" && Digits(t) && Number(t) == n
    decreases n, z
  {
    hide Number, Digits;
    var d := "0123456789"[n % 10];
    LastDigit(n);
    if n >= 10 {
      PaddedNumber(z, n / 10);
      NumberNext(Zeros(z) + Decimal(n / 10), d);
      assert Zeros(z) + Decimal(n) == Zeros(z) + Decimal(n / 10) + [d];
    } else {
      ZerosNumber(z);
      NumberNext(Zeros(z), d);
      assert Zeros(z) + Decimal(n) == Zeros(z) + [d];
    }
  }

  lemma {:induction false} ZerosNumber(z: nat)
    ensures Digits(Zeros(z)) && Number(Zeros(z)) == 0
  {
    hide Number, Digits;
    if z == 0 {
      NumberEmpty();
      assert Zeros(0) == "";
    } else {
      ZerosNumber(z - 1);
      ZeroNext(z - 1);
      NumberNext(Zeros(z - 1), '0');
    }
  }

  lemma NumberSplit(t: string) returns (v: nat)
    requires Digits(t) && t != ""
    ensures var p := t[..|t| - 1];
            v < 10 && t == p + ["0123456789"[v]] && Digits(p) && Number(t) == Number(p) * 10 + v
  {
    v := t[|t| - 1] as int - '0' as int;
    DigitIs(v);
  }

  /** Digits are the decimal digits of their number, perhaps after zeros. */
  lemma {:induction false} NumberPadded(t: string) returns (z: nat)
    requires Digits(t) && t != ""
    ensures t == Zeros(z) + Decimal(Number(t))
  {
    hide Decimal, Zeros, Number, Digits;
    var p := t[..|t| - 1];
    var v := NumberSplit(t);
    if p == "" {
      z := 0;
      NumberEmpty();
      NoZeros();
      DecimalNext(0, v);
    } else {
      var y := NumberPadded(p);
      PaddedNext(p, y, Number(p), v);
      z := if Number(p) == 0 then y + 1 else y;
    }
  }

  lemma NoZeros()
    ensures Zeros(0) == ""
  {
  }

  lemma PaddedNext(p: string, z: nat, n: nat, v: nat)
    requires p == Zeros(z) + Decimal(n) && v < 10
    ensures p + ["0123456789"[v]] == Zeros(if n == 0 then z + 1 else z) + Decimal(n * 10 + v)
  {
    hide Decimal;
    DecimalNext(n, v);
    if n == 0 {
      DecimalNext(0, 0);
      ZeroNext(z);
    }
  }

  lemma DigitIs(v: int)
    requires 0 <= v < 10
    ensures "0123456789"[v] as int == v + '0' as int
  {
  }

  lemma DecimalNext(n: nat, v: nat)
    requires v < 10
    ensures Decimal(v) == ["0123456789"[v]]
    ensures n > 0 ==> Decimal(n * 10 + v) == Decimal(n) + ["0123456789"[v]]
  {
    assert (n * 10 + v) / 10 == n && (n * 10 + v) % 10 == v;
  }

  lemma EndIff(t: string, n: int)
    ensures IsEnd(t, n) <==> Digits(t) && End(t) == Some(n)
  {
    hide Decimal, Number, Digits;
    NumberEmpty();
    if IsEnd(t, n) && n != -1 {
      var z: nat :| t == Zeros(z) + Decimal(n);
      PaddedNumber(z, n);
    }
    if t != "" && Digits(t) { var z := NumberPadded(t); }
  }

  // ---------------------------------------------------------------- tokens

  lemma NoDash(t: string)
    requires Digits(t)
    ensures '-' !in t
  {
  }

  /** The token is read as a range if and only if it asks for that. */
  lemma TokenIff(token: string, r: Range)
    ensures TokenRange(token) == Some(r) <==> Asks(token, r)
  {
    hide IsEnd, Digits, End;
    if Asks(token, r) {
      var lhs, rhs :| token == lhs + "-" + rhs && IsEnd(lhs, r.0) && IsEnd(rhs, r.1);
      EndIff(lhs, r.0);
      EndIff(rhs, r.1);
      NoDash(lhs);
      IndexOfUnique(token, '-', 0, |lhs|);
      assert token[..|lhs|] == lhs && token[|lhs| + 1..] == rhs;
      EndBounds(lhs, r.0);
      EndBounds(rhs, r.1);
    } else if TokenRange(token) == Some(r) {
      var k := IndexOf(token, '-', 0);
      IndexOfIs(token, '-', 0);
      var lhs, rhs := token[..k], token[k + 1..];
      assert token == lhs + "-" + rhs;
      EndIff(lhs, r.0);
      EndIff(rhs, r.1);
    }
  }

  lemma EndBounds(t: string, n: int)
    requires IsEnd(t, n)
    ensures -1 <= n <= LLONG_MAX
  {
  }

  // ---------------------------------------------------------------- headers

  lemma {:induction false} CollectedIff(tokens: seq<string>, n: nat, ranges: seq<Range>)
    requires n <= |tokens|
    ensures Collected(tokens, n) == (ranges, true) <==>
            |ranges| == n && forall i :: 0 <= i < n ==> TokenRange(tokens[i]) == Some(ranges[i])
  {
    hide TokenRange;
    if n > 0 {
      var rest := if ranges == [] then [] else ranges[..|ranges| - 1];
      CollectedIff(tokens, n - 1, rest);
      CollectedIff(tokens, n - 1, Collected(tokens, n - 1).0);
      if ranges != [] { assert ranges == rest + [ranges[|ranges| - 1]]; }
    }
  }

  lemma {:induction false} KeptFit(pieces: seq<string>, n: nat, most: nat)
    requires n <= |pieces| && forall i :: 0 <= i < |pieces| ==> |pieces[i]| <= most
    ensures forall i :: 0 <= i < |Keep(pieces, n)| ==> |Keep(pieces, n)[i]| <= most
  {
    if n > 0 { KeptFit(pieces, n - 1, most); }
  }

  lemma {:induction false} PiecesFit(s: string, d: char, from: nat)
    requires from <= |s|
    ensures forall i :: 0 <= i < |PiecesFrom(s, d, from)| ==> |PiecesFrom(s, d, from)[i]| <= |s|
    decreases |s| - from
  {
    var k := IndexOf(s, d, from);
    if k < |s| { PiecesFit(s, d, k + 1); }
  }

  lemma TokensFit(s: string, d: char)
    ensures forall i :: 0 <= i < |Tokens(s, d)| ==> |Tokens(s, d)[i]| <= |s|
  {
    hide Keep, PiecesFrom;
    PiecesFit(s, d, 0);
    KeptFit(PiecesFrom(s, d, 0), |PiecesFrom(s, d, 0)|, |s|);
  }

  /** Each token asks for the range at its place. */
  ghost predicate AllAsk(tokens: seq<string>, ranges: seq<Range>) {
    |tokens| == |ranges| && forall i :: 0 <= i < |tokens| ==> Asks(tokens[i], ranges[i])
  }

  lemma AskingIsLong(token: string, r: Range)
    requires Asks(token, r)
    ensures |token| >= 2
  {
    hide Decimal, Digits, Number;
    var lhs, rhs :| token == lhs + "-" + rhs && IsEnd(lhs, r.0) && IsEnd(rhs, r.1);
    if r.0 != -1 {
      var z: nat :| lhs == Zeros(z) + Decimal(r.0);
      PaddedNumber(z, r.0);
    } else {
      var z: nat :| rhs == Zeros(z) + Decimal(r.1);
      PaddedNumber(z, r.1);
    }
  }

  /**
   * A header is accepted, with certain ranges, if and only if it names the unit, holds a token
   * between its commas, and its tokens ask for just those ranges.
   */
  lemma AcceptedIff(s: string, ranges: seq<Range>)
    ensures HeaderRanges(s) == (ranges, true) <==>
            UNIT <= s && ranges != [] && AllAsk(Tokens(s[|UNIT|..], ','), ranges)
  {
    hide Tokens, Collected, TokenRange, Asks;
    if UNIT <= s {
      var tokens := Tokens(s[|UNIT|..], ',');
      CollectedIff(tokens, |tokens|, ranges);
      forall i | 0 <= i < |tokens| && i < |ranges|
        ensures TokenRange(tokens[i]) == Some(ranges[i]) <==> Asks(tokens[i], ranges[i])
      {
        TokenIff(tokens[i], ranges[i]);
      }
      if ranges != [] && AllAsk(tokens, ranges) {
        AskingIsLong(tokens[0], ranges[0]);
        TokensFit(s[|UNIT|..], ',');
      }
    }
  }
}
