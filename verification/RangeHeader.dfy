/**
 * The Range header of file_server/httplib.h: parse_range_header, through which every range that
 * range_error sees has come, and make_range_header.
 */
module RangeHeader {
  import opened Options
  import opened Ranges
  import opened Text

  const UNIT := "bytes="
  const LLONG_MAX := 0x7FFF_FFFF_FFFF_FFFF

  predicate Digits(s: string) {
    forall i :: 0 <= i < |s| ==> '0' <= s[i] <= '9'
  }

  function Number(s: string): nat
    requires Digits(s)
  {
    if s == "" then 0 else Number(s[..|s| - 1]) * 10 + (s[|s| - 1] as int - '0' as int)
  }

  /** A range with at least one end, and with its ends in order. */
  predicate Wanted(r: Range) {
    && r.0 <= LLONG_MAX && r.1 <= LLONG_MAX
    && if r.0 == -1 then r.1 >= 0 else r.0 >= 0 && (r.1 == -1 || r.0 <= r.1)
  }

  /** One end, -1 if it is missing; None if stoll throws because the number is too large. */
  function End(s: string): Option<int>
    requires Digits(s)
  {
    var n: int := if s == "" then -1 else Number(s);
    if n <= LLONG_MAX then Some(n) else None
  }

  /** What one token of the header asks for. */
  function TokenRange(token: string): Option<Range> {
    var k := IndexOf(token, '-', 0);
    if k == |token| || !Digits(token[..k]) || !Digits(token[k + 1..]) then None
    else match (End(token[..k]), End(token[k + 1..]))
      case (Some(first), Some(last)) => if Wanted((first, last)) then Some((first, last)) else None
      case _ => None
  }

  /** The ranges of the first `n` tokens, up to one that is not in order. */
  function Collected(tokens: seq<string>, n: nat): (seq<Range>, bool)
    requires n <= |tokens|
  {
    if n == 0 then ([], true)
    else
      var (ranges, ok) := Collected(tokens, n - 1);
      if !ok then (ranges, false)
      else match TokenRange(tokens[n - 1])
        case None => (ranges, false)
        case Some(r) => (ranges + [r], true)
  }

  /** What the header asks for, and whether it is accepted. */
  function HeaderRanges(s: string): (seq<Range>, bool) {
    if |s| > 7 && UNIT <= s then
      var tokens := Tokens(s[|UNIT|..], ',');
      var (ranges, ok) := Collected(tokens, |tokens|);
      (ranges, ok && ranges != [])
    else ([], false)
  }

  /** The call back of split; an exception of stoll ends the parse like a bad token. */
  method ParseToken(token: string) returns (r: Option<Range>)
    ensures r == TokenRange(token)
  {
    var it := IndexOf(token, '-', 0);
    if it == |token| { return None; }
    var lhs, rhs := token[..it], token[it + 1..];
    if !Digits(lhs) || !Digits(rhs) { return None; }
    if End(lhs).None? { return None; }
    var first := End(lhs).value;
    if End(rhs).None? { return None; }
    var last := End(rhs).value;
    if (first == -1 && last == -1) || (first != -1 && last != -1 && first > last) { return None; }
    r := Some((first, last));
  }

  /** parse_range_header: it yields only ranges with an end, and accepts only if there is one. */
  method ParseRangeHeader(s: string) returns (ok: bool, ranges: seq<Range>)
    ensures (ranges, ok) == HeaderRanges(s)
    ensures forall i :: 0 <= i < |ranges| ==> Wanted(ranges[i])
    ensures ok ==> ranges != []
  {
    ranges := [];
    if !(|s| > 7 && s[..6] == "bytes=") { return false, ranges; }
    var tokens := Split(s[6..], ',');
    var allValid := true;
    for n := 0 to |tokens|
      invariant (ranges, allValid) == Collected(tokens, n)
      invariant forall i :: 0 <= i < |ranges| ==> Wanted(ranges[i])
    {
      if allValid {
        var r := ParseToken(tokens[n]);
        if r.None? { allValid := false; } else { ranges := ranges + [r.value]; }
      }
    }
    ok := allValid && ranges != [];
  }

  lemma {:induction false} CollectedWanted(tokens: seq<string>, n: nat, i: nat)
    requires n <= |tokens| && i < |Collected(tokens, n).0|
    ensures Wanted(Collected(tokens, n).0[i])
  {
    hide TokenRange, Wanted;
    if n > 0 {
      TokenWanted(tokens[n - 1]);
      if i < |Collected(tokens, n - 1).0| { CollectedWanted(tokens, n - 1, i); }
    }
  }

  lemma TokenWanted(token: string)
    ensures TokenRange(token).Some? ==> Wanted(TokenRange(token).value)
  {
  }

  /** The positions a range means in content of length `len` (RFC 9110, section 14.1.2). */
  function Positions(r: Range, len: int): Range {
    if r.0 == -1 then (len - r.1, len - 1) else if r.1 == -1 then (r.0, len - 1) else r
  }

  /**
   * A range that comes from a header has an end, so range_error rewrites it to just those
   * positions, and its 64-bit arithmetic does not overflow.
   */
  lemma NormalizedMeans(s: string, len: nat, i: nat)
    requires i < |HeaderRanges(s).0|
    ensures HeaderRanges(s).0[i] != (-1, -1)
    ensures var r := AllNormalized(HeaderRanges(s).0, len)[i];
            && r == Positions(HeaderRanges(s).0[i], len)
            && (len <= LLONG_MAX ==> -LLONG_MAX <= r.0 <= LLONG_MAX && -1 <= r.1 <= LLONG_MAX)
  {
    hide Tokens, Collected;
    var tokens := Tokens(s[|UNIT|..], ',');
    CollectedWanted(tokens, |tokens|, i);
  }

  // ---------------------------------------------------------------- make_range_header

  /** std::to_string */
  function ToString(n: int): string {
    if n < 0 then "-" + Decimal(-n) else Decimal(n)
  }

  function RangeText(r: Range): string {
    (if r.0 != -1 then ToString(r.0) else "") + "-" + (if r.1 != -1 then ToString(r.1) else "")
  }

  /** The ranges from `i` on, with the separator before all but the first. */
  function RangesFrom(ranges: seq<Range>, i: nat): string
    requires i <= |ranges|
    decreases |ranges| - i
  {
    if i == |ranges| then ""
    else (if i > 0 then ", " else "") + RangeText(ranges[i]) + RangesFrom(ranges, i + 1)
  }

  /** make_range_header */
  method MakeRangeHeader(ranges: seq<Range>) returns (field: string)
    ensures field == UNIT + RangesFrom(ranges, 0)
  {
    hide RangeText, ToString, RangesFrom;
    ghost var all := UNIT + RangesFrom(ranges, 0);
    field := "bytes=";
    for i := 0 to |ranges|
      invariant field + RangesFrom(ranges, i) == all
    {
      ghost var before := field;
      if i != 0 { field := field + ", "; }
      if ranges[i].0 != -1 { field := field + ToString(ranges[i].0); }
      field := field + "-";
      if ranges[i].1 != -1 { field := field + ToString(ranges[i].1); }
      WriteRange(ranges, i, before, field);
    }
    NoRangeLeft(ranges);
  }

  lemma NoRangeLeft(ranges: seq<Range>)
    ensures RangesFrom(ranges, |ranges|) == ""
  {
  }

  lemma WriteRange(ranges: seq<Range>, i: nat, before: string, field: string)
    requires i < |ranges|
    requires field == before + (if i != 0 then ", " else "")
                      + (if ranges[i].0 != -1 then ToString(ranges[i].0) else "") + "-"
                      + (if ranges[i].1 != -1 then ToString(ranges[i].1) else "")
    ensures before + RangesFrom(ranges, i) == field + RangesFrom(ranges, i + 1)
  {
    hide ToString;
    Join(before, if i != 0 then ", " else "", if ranges[i].0 != -1 then ToString(ranges[i].0) else "", "-",
         if ranges[i].1 != -1 then ToString(ranges[i].1) else "", RangesFrom(ranges, i + 1));
  }

  lemma Join(a: string, b: string, c: string, d: string, e: string, f: string)
    ensures a + (b + (c + d + e) + f) == a + b + c + d + e + f
  {
  }

  lemma LastDigit(n: nat)
    ensures var d := "0123456789"[n % 10]; '0' <= d <= '9' && d as int - '0' as int == n % 10
  {
  }

  lemma NumberNext(s: string, d: char)
    requires Digits(s) && '0' <= d <= '9'
    ensures Digits(s + [d]) && Number(s + [d]) == Number(s) * 10 + (d as int - '0' as int)
  {
    assert (s + [d])[..|s|] == s;
  }

  lemma {:induction false} DecimalDigits(n: nat)
    ensures Decimal(n) != "" && Digits(Decimal(n)) && Number(Decimal(n)) == n
  {
    hide Number, Digits;
    LastDigit(n);
    var d := "0123456789"[n % 10];
    if n >= 10 {
      DecimalDigits(n / 10);
      NumberNext(Decimal(n / 10), d);
    } else {
      NumberEmpty();
      NumberNext("", d);
    }
  }

  lemma NumberEmpty()
    ensures Digits("") && Number("") == 0
  {
  }

  lemma EndText(n: int)
    requires -1 <= n <= LLONG_MAX
    ensures var text := if n != -1 then ToString(n) else ""; Digits(text) && End(text) == Some(n)
  {
    hide Decimal;
    if n >= 0 { DecimalDigits(n); }
  }

  /** A range that was written is read back. */
  lemma RangeTextRead(r: Range)
    requires Wanted(r)
    ensures TokenRange(RangeText(r)) == Some(r)
    ensures ',' !in RangeText(r)
    ensures Text.Token(RangeText(r)) == Text.Token(" " + RangeText(r)) == [RangeText(r)]
  {
    hide ToString, Trim, Text.Token;
    var lhs, rhs := if r.0 != -1 then ToString(r.0) else "", if r.1 != -1 then ToString(r.1) else "";
    EndText(r.0);
    EndText(r.1);
    var text := RangeText(r);
    IndexOfUnique(text, '-', 0, |lhs|);
    assert text[..|lhs|] == lhs && text[|lhs| + 1..] == rhs;
    BlankBefore(text);
  }

  function Texts(ranges: seq<Range>, i: nat): seq<string>
    requires i <= |ranges|
    decreases |ranges| - i
  {
    if i == |ranges| then [] else [RangeText(ranges[i])] + Texts(ranges, i + 1)
  }

  ghost predicate AllWanted(ranges: seq<Range>) {
    forall i :: 0 <= i < |ranges| ==> Wanted(ranges[i])
  }

  /** The tokens of a header are the texts of its ranges, the blank before each being trimmed. */
  lemma {:induction false} HeaderTokens(ranges: seq<Range>, i: nat, blank: string)
    requires i < |ranges| && AllWanted(ranges) && (blank == "" || blank == " ")
    ensures Tokens(blank + RangeText(ranges[i]) + RangesFrom(ranges, i + 1), ',') == Texts(ranges, i)
    decreases |ranges| - i
  {
    hide Wanted, RangeText, Tokens, Text.Token;
    RangeTextRead(ranges[i]);
    var first := blank + RangeText(ranges[i]);
    assert "" + RangeText(ranges[i]) == RangeText(ranges[i]);
    if i + 1 == |ranges| {
      assert first + "" == first;
      TokensOne(first, ',');
    } else {
      var rest := " " + RangeText(ranges[i + 1]) + RangesFrom(ranges, i + 2);
      assert first + RangesFrom(ranges, i + 1) == first + [','] + rest;
      HeaderTokens(ranges, i + 1, " ");
      TokensAt(first, ',', rest);
    }
  }

  lemma {:induction false} TextAt(ranges: seq<Range>, i: nat, n: nat)
    requires i + n <= |ranges|
    ensures |Texts(ranges, i)| == |ranges| - i
    ensures i + n < |ranges| ==> Texts(ranges, i)[n] == RangeText(ranges[i + n])
    decreases |ranges| - i
  {
    hide RangeText;
    if i < |ranges| { TextAt(ranges, i + 1, if n > 0 then n - 1 else 0); }
  }

  lemma {:induction false} TextsCollected(ranges: seq<Range>, n: nat)
    requires AllWanted(ranges) && n <= |ranges|
    ensures |Texts(ranges, 0)| == |ranges| && Collected(Texts(ranges, 0), n) == (ranges[..n], true)
  {
    hide TokenRange, RangeText, Wanted;
    TextAt(ranges, 0, n);
    if n > 0 {
      TextsCollected(ranges, n - 1);
      TextAt(ranges, 0, n - 1);
      assert TokenRange(RangeText(ranges[n - 1])) == Some(ranges[n - 1]) by { RangeTextRead(ranges[n - 1]); }
      assert ranges[..n] == ranges[..n - 1] + [ranges[n - 1]];
    }
  }

  /**
   * Reading the header that was made for some ranges gives them back, if and only if there are some
   * and all are in order.
   */
  lemma HeaderRoundTrip(ranges: seq<Range>)
    ensures HeaderRanges(UNIT + RangesFrom(ranges, 0)) == (ranges, true) <==> ranges != [] && AllWanted(ranges)
  {
    hide Tokens, RangeText, Collected, Texts;
    var text := RangesFrom(ranges, 0);
    var field := UNIT + text;
    assert field[|UNIT|..] == text;
    if ranges != [] && AllWanted(ranges) {
      assert text == "" + RangeText(ranges[0]) + RangesFrom(ranges, 1);
      HeaderTokens(ranges, 0, "");
      TextsCollected(ranges, |ranges|);
      assert ranges[..|ranges|] == ranges;
      TextLong(ranges[0]);
    } else if HeaderRanges(field) == (ranges, true) {
      var tokens := Tokens(text, ',');
      forall i | 0 <= i < |ranges| ensures Wanted(ranges[i]) { CollectedWanted(tokens, |tokens|, i); }
    }
  }

  lemma TextLong(r: Range)
    requires Wanted(r)
    ensures |RangeText(r)| >= 2
  {
    hide Decimal;
    if r.0 >= 0 { DecimalDigits(r.0); } else { DecimalDigits(r.1); }
  }
}
