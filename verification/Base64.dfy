/**
 * base64_encode of file_server/httplib.h, with its 32-bit accumulator, against the encoding and
 * decoding of RFC 4648, section 4.
 */
module Base64 {
  import opened Options
  import opened Text

  /** The lookup table: the letters, the digits, plus and slash. */
  function Symbol(n: nat): char
    requires n < 64
  {
    if n < 26 then ('A' as int + n) as char
    else if n < 52 then ('a' as int + n - 26) as char
    else if n < 62 then ('0' as int + n - 52) as char
    else if n == 62 then '+'
    else '/'
  }

  /** The value of a symbol of the alphabet. */
  function Value(c: char): Option<nat> {
    if 'A' <= c <= 'Z' then Some(c as int - 'A' as int)
    else if 'a' <= c <= 'z' then Some(c as int - 'a' as int + 26)
    else if '0' <= c <= '9' then Some(c as int - '0' as int + 52)
    else if c == '+' then Some(62)
    else if c == '/' then Some(63)
    else None
  }

  // ---------------------------------------------------------------- the standard

  /** The encoding of the bytes from `i` on: 24-bit groups as four symbols, the last one padded. */
  function EncodedFrom(s: string, i: nat): string
    requires IsBytes(s)
    decreases |s| - i
  {
    if i >= |s| then ""
    else
      var a := s[i] as int;
      var b := if i + 1 < |s| then s[i + 1] as int else 0;
      var c := if i + 2 < |s| then s[i + 2] as int else 0;
      var group := a * 65536 + b * 256 + c;
      [Symbol(group / 262144), Symbol(group / 4096 % 64),
       if i + 1 < |s| then Symbol(group / 64 % 64) else '=',
       if i + 2 < |s| then Symbol(group % 64) else '=']
      + EncodedFrom(s, i + 3)
  }

  function ValueOrZero(c: char): nat {
    match Value(c) case Some(v) => v case None => 0
  }

  /** The bytes that the symbols from `i` on stand for; None if they are no encoding. */
  function DecodedFrom(t: string, i: nat): Option<string>
    decreases |t| - i
  {
    if i >= |t| then Some("")
    else if i + 4 > |t| || Value(t[i]).None? || Value(t[i + 1]).None? then None
    else
      var group := Value(t[i]).value * 262144 + Value(t[i + 1]).value * 4096
                 + ValueOrZero(t[i + 2]) * 64 + ValueOrZero(t[i + 3]);
      var bytes := [(group / 65536 % 256) as char, (group / 256 % 256) as char, (group % 256) as char];
      if t[i + 2] == '=' then if t[i + 3] == '=' && i + 4 == |t| then Some(bytes[..1]) else None
      else if t[i + 3] == '=' then if Value(t[i + 2]).Some? && i + 4 == |t| then Some(bytes[..2]) else None
      else if Value(t[i + 2]).None? || Value(t[i + 3]).None? then None
      else match DecodedFrom(t, i + 4)
        case None => None
        case Some(rest) => Some(bytes + rest)
  }

  // ---------------------------------------------------------------- the loop

  /** A 32-bit signed integer. */
  function Wrap(n: int): (w: int)
    ensures -0x8000_0000 <= w < 0x8000_0000
  {
    (n + 0x8000_0000) % 0x1_0000_0000 - 0x8000_0000
  }

  /** val >> n */
  function Shift(val: int, n: nat): int {
    match n
    case 0 => val
    case 2 => val / 4
    case 4 => val / 16
    case 6 => val / 64
    case _ => val
  }

  /** The symbol for the six bits of `val` that start at bit `n`. */
  function Bits(val: int, n: nat): char {
    Symbol(Shift(val, n) % 64)
  }

  /** What the first two bytes of a group have been turned into when `r` of its bytes are read. */
  function Partial(s: string, g: nat, r: nat): string
    requires IsBytes(s) && r <= 2 && g + r <= |s|
  {
    if r == 0 then ""
    else
      var a := s[g] as int;
      if r == 1 then [Symbol(a / 4)] else [Symbol(a / 4), Symbol(a % 4 * 16 + s[g + 1] as int / 16)]
  }

  /**
   * Where the loop stands after `k` bytes: the group that starts at `g` is being read, those before
   * it are in `whole`.
   */
  ghost predicate Encoding(s: string, k: nat, g: nat, val: int, valb: int, whole: string, out: string, all: string)
    requires IsBytes(s)
  {
    && g <= k <= |s| && k <= g + 2 && valb == 2 * (k - g) - 6 && |whole| % 4 == 0
    && all == whole + EncodedFrom(s, g) && out == whole + Partial(s, g, k - g)
    && (k > g ==> val % 256 == s[k - 1] as int)
    && (k > g + 1 ==> val % 65536 == s[g] as int * 256 + s[g + 1] as int)
  }

  method Encode(s: string) returns (out: string)
    requires IsBytes(s)
    ensures out == EncodedFrom(s, 0)
  {
    hide EncodedFrom, Wrap, Bits, Partial, Encoding;
    ghost var all := EncodedFrom(s, 0);
    out := "";
    var val: int, valb: int := 0, -6;
    ghost var g: nat, whole := 0, "";
    Begin(s);
    for k := 0 to |s|
      invariant Encoding(s, k, g, val, valb, whole, out, all)
    {
      ghost var before, done := val, out;
      val := Wrap(Wrap(val * 256) + s[k] as int);
      valb := valb + 8;
      ghost var n := valb;
      WhereInGroup(s, k, g, before, n - 8, whole, done, all);
      while valb >= 0
        invariant valb == n || valb == n - 6 || valb == n - 12
        invariant valb == n ==> out == done
        invariant valb == n - 6 ==> out == done + [Bits(val, n)]
        invariant valb == n - 12 ==> n == 6 && out == done + [Bits(val, 6)] + [Bits(val, 0)]
        decreases valb
      {
        out := out + [Bits(val, valb)];
        valb := valb - 6;
      }
      if k == g + 2 {
        GroupDone(s, g, before, whole, done, all);
        g, whole := k + 1, out;
      } else {
        ByteDone(s, k, g, before, whole, done, all);
      }
    }
    LastGroup(s, g, val, valb, whole, out, all);
    if valb > -6 { out := out + [Bits(Wrap(val * 256), valb + 8)]; }
    while |out| % 4 != 0
      invariant |out| <= |all| && out + Padding(|all| - |out|) == all && |all| % 4 == 0 && |all| - |out| < 4
      decreases |all| - |out|
    {
      PaddingNext(|all| - |out|, out);
      out := out + ['='];
    }
    assert |out| == |all|;
  }

  function Padding(n: nat): string {
    if n == 0 then "" else ['='] + Padding(n - 1)
  }

  lemma PaddingNext(n: nat, out: string)
    requires n > 0
    ensures out + Padding(n) == out + ['='] + Padding(n - 1)
  {
  }

  lemma Begin(s: string)
    requires IsBytes(s)
    ensures Encoding(s, 0, 0, 0, -6, "", "", EncodedFrom(s, 0))
  {
  }

  lemma WhereInGroup(s: string, k: nat, g: nat, val: int, valb: int, whole: string, out: string, all: string)
    requires IsBytes(s) && Encoding(s, k, g, val, valb, whole, out, all)
    ensures g <= k <= g + 2 && valb + 8 == 2 + 2 * (k - g)
  {
  }

  // ---------------------------------------------------------------- the low bits

  /** The quotient and the remainder are determined by what they have to be. */
  lemma DivIs(x: int, d: int, q: int, r: int)
    requires d > 0 && x == q * d + r && 0 <= r < d
    ensures x / d == q && x % d == r
  {
    var e := x / d - q;
    assert x == x / d * d + x % d;
    assert e * d == x / d * d - q * d;
    Multiple(e, d);
  }

  lemma Multiple(e: int, d: int)
    requires d > 0
    ensures e >= 1 ==> e * d >= d
    ensures e <= -1 ==> e * d <= -d
  {
    if e >= 1 { assert (e - 1) * d >= 0; }
    if e <= -1 { assert (-e - 1) * d >= 0; }
  }

  /** Wrapping around does not touch the low sixteen bits. */
  lemma WrapLow(n: int)
    ensures Wrap(n) % 65536 == n % 65536
  {
    var x := n + 0x8000_0000;
    var q, r := x / 0x1_0000_0000, x % 0x1_0000_0000;
    assert x == q * 0x1_0000_0000 + r;
    DivIs(n, 65536, r / 65536 + q * 65536 - 32768, r % 65536);
    DivIs(Wrap(n), 65536, r / 65536 - 32768, r % 65536);
  }

  /** What is left of the accumulator when a byte is shifted in. */
  lemma ShiftIn(val: int, b: nat)
    requires b < 256
    ensures Wrap(Wrap(val * 256) + b) % 65536 == val % 256 * 256 + b
  {
    hide Wrap;
    WrapLow(val * 256);
    WrapLow(Wrap(val * 256) + b);
    ModSum(Wrap(val * 256), val * 256, b);
    ModOfProduct(val, b);
  }

  lemma ModSum(x: int, y: int, b: int)
    requires x % 65536 == y % 65536
    ensures (x + b) % 65536 == (y + b) % 65536
  {
    var p, q := x / 65536, y / 65536;
    var r := (y + b) % 65536;
    DivIs(x + b, 65536, (y + b) / 65536 + p - q, r);
  }

  lemma ModOfProduct(val: int, b: nat)
    requires b < 256
    ensures (val * 256 + b) % 65536 == val % 256 * 256 + b
  {
    DivIs(val * 256 + b, 65536, val / 256, val % 256 * 256 + b);
  }

  lemma LowByte(val: int)
    ensures val % 256 == val % 65536 % 256
  {
    var low := val % 65536;
    DivIs(val, 256, val / 65536 * 256 + low / 256, low % 256);
  }

  /** The six bits from bit 2, 4, 6 or 0 on, when the last bytes read are `a`, `b` and `c`. */
  lemma FirstBits(val: int, a: nat)
    requires a < 256 && val % 256 == a
    ensures val / 4 % 64 == a / 4
  {
    var q := val / 256;
    assert val == q * 256 + a;
    DivIs(val, 4, q * 64 + a / 4, a % 4);
    DivIs(val / 4, 64, q, a / 4);
  }

  lemma SecondBits(val: int, a: nat, b: nat)
    requires a < 256 && b < 256 && val % 65536 == a * 256 + b
    ensures val / 16 % 64 == a % 4 * 16 + b / 16
  {
    var q := val / 65536;
    DivIs(val, 16, q * 4096 + a * 16 + b / 16, b % 16);
    DivIs(val / 16, 64, q * 64 + a / 4, a % 4 * 16 + b / 16);
  }

  lemma ThirdBits(val: int, b: nat, c: nat)
    requires b < 256 && c < 256 && val % 65536 == b * 256 + c
    ensures val / 64 % 64 == b % 16 * 4 + c / 64 && val % 64 == c % 64
  {
    var q := val / 65536;
    DivIs(val, 64, q * 1024 + b * 4 + c / 64, c % 64);
    DivIs(val / 64, 64, q * 16 + b / 16, b % 16 * 4 + c / 64);
  }

  /** The four symbols of a group, from its bytes. */
  lemma GroupSymbols(a: nat, b: nat, c: nat)
    requires a < 256 && b < 256 && c < 256
    ensures var group := a * 65536 + b * 256 + c;
            && group / 262144 == a / 4
            && group / 4096 % 64 == a % 4 * 16 + b / 16
            && group / 64 % 64 == b % 16 * 4 + c / 64
            && group % 64 == c % 64
  {
    var group := a * 65536 + b * 256 + c;
    DivIs(group, 262144, a / 4, a % 4 * 65536 + b * 256 + c);
    DivIs(group, 4096, a * 16 + b / 16, b % 16 * 256 + c);
    DivIs(group / 4096, 64, a / 4, a % 4 * 16 + b / 16);
    DivIs(group, 64, a * 1024 + b * 4 + c / 64, c % 64);
    DivIs(group / 64, 64, a * 16 + b / 16, b % 16 * 4 + c / 64);
  }

  lemma ByteDone(s: string, k: nat, g: nat, before: int, whole: string, done: string, all: string)
    requires IsBytes(s) && k < |s| && k < g + 2 && Encoding(s, k, g, before, 2 * (k - g) - 6, whole, done, all)
    ensures var val := Wrap(Wrap(before * 256) + s[k] as int); var n := 2 + 2 * (k - g);
            Encoding(s, k + 1, g, val, n - 6, whole, done + [Bits(val, n)], all)
  {
    hide Wrap, EncodedFrom, Symbol;
    var val := Wrap(Wrap(before * 256) + s[k] as int);
    ShiftIn(before, s[k] as int);
    LowByte(val);
    DivIs(val % 65536, 256, before % 256, s[k] as int);
    if k == g {
      FirstBits(val, s[g] as int);
      assert done + [Bits(val, 2)] == whole + Partial(s, g, 1);
    } else {
      SecondBits(val, s[g] as int, s[k] as int);
      assert done + [Bits(val, 4)] == whole + Partial(s, g, 2);
    }
  }

  lemma GroupDone(s: string, g: nat, before: int, whole: string, done: string, all: string)
    requires IsBytes(s) && g + 2 < |s| && Encoding(s, g + 2, g, before, -2, whole, done, all)
    ensures var val := Wrap(Wrap(before * 256) + s[g + 2] as int); var out := done + [Bits(val, 6)] + [Bits(val, 0)];
            Encoding(s, g + 3, g + 3, val, -6, out, out, all)
  {
    hide Wrap, Symbol, EncodedFrom;
    var a, b, c := s[g] as int, s[g + 1] as int, s[g + 2] as int;
    var val := Wrap(Wrap(before * 256) + c);
    ShiftIn(before, c);
    ThirdBits(val, b, c);
    WholeGroup(s, g);
    var quad := [Symbol(a / 4), Symbol(a % 4 * 16 + b / 16), Symbol(b % 16 * 4 + c / 64), Symbol(c % 64)];
    assert done + [Bits(val, 6)] + [Bits(val, 0)] == whole + quad;
    assert whole + (quad + EncodedFrom(s, g + 3)) == whole + quad + EncodedFrom(s, g + 3);
  }

  lemma WholeGroup(s: string, g: nat)
    requires IsBytes(s) && g + 2 < |s|
    ensures var a, b, c := s[g] as int, s[g + 1] as int, s[g + 2] as int;
            EncodedFrom(s, g)
            == [Symbol(a / 4), Symbol(a % 4 * 16 + b / 16), Symbol(b % 16 * 4 + c / 64), Symbol(c % 64)]
               + EncodedFrom(s, g + 3)
  {
    hide Symbol;
    GroupSymbols(s[g] as int, s[g + 1] as int, s[g + 2] as int);
  }

  lemma PaddedGroup(s: string, g: nat)
    requires IsBytes(s) && g < |s| <= g + 2
    ensures var a := s[g] as int;
            EncodedFrom(s, g) ==
              if g + 1 == |s| then [Symbol(a / 4), Symbol(a % 4 * 16), '=', '=']
              else [Symbol(a / 4), Symbol(a % 4 * 16 + s[g + 1] as int / 16), Symbol(s[g + 1] as int % 16 * 4), '=']
  {
    hide Symbol;
    GroupSymbols(s[g] as int, if g + 1 < |s| then s[g + 1] as int else 0, 0);
    assert EncodedFrom(s, g + 3) == "";
  }

  lemma LastGroup(s: string, g: nat, val: int, valb: int, whole: string, out: string, all: string)
    requires IsBytes(s) && Encoding(s, |s|, g, val, valb, whole, out, all)
    ensures valb == -6 || valb == -4 || valb == -2
    ensures var last := if valb > -6 then out + [Bits(Wrap(val * 256), valb + 8)] else out;
            |last| <= |all| && last + Padding(|all| - |last|) == all && |all| % 4 == 0 && |all| - |last| < 4
  {
    hide Wrap, Bits, EncodedFrom;
    if valb == -6 {
      NothingLeft(s, g);
      NoPadding(out);
    } else if valb == -4 {
      OneByteLeft(s, g, val, whole, out, all);
    } else {
      TwoBytesLeft(s, g, val, whole, out, all);
    }
  }

  lemma NoPadding(out: string)
    ensures out + Padding(0) == out
  {
  }

  lemma OneByteLeft(s: string, g: nat, val: int, whole: string, out: string, all: string)
    requires IsBytes(s) && g + 1 == |s| && Encoding(s, |s|, g, val, -4, whole, out, all)
    ensures |out| + 3 == |all| && |all| % 4 == 0 && out + [Bits(Wrap(val * 256), 4)] + Padding(2) == all
  {
    hide Wrap, Symbol, EncodedFrom;
    PaddedGroup(s, g);
    WrapLow(val * 256);
    ModOfProduct(val, 0);
    SecondBits(Wrap(val * 256), s[g] as int, 0);
    assert Padding(2) == ['='] + Padding(1) && Padding(1) == ['='] + Padding(0);
    assert all == whole + [Symbol(s[g] as int / 4), Symbol(s[g] as int % 4 * 16), '=', '='];
  }

  lemma TwoBytesLeft(s: string, g: nat, val: int, whole: string, out: string, all: string)
    requires IsBytes(s) && g + 2 == |s| && Encoding(s, |s|, g, val, -2, whole, out, all)
    ensures |out| + 2 == |all| && |all| % 4 == 0 && out + [Bits(Wrap(val * 256), 6)] + Padding(1) == all
  {
    hide Wrap, Symbol, EncodedFrom;
    var a, b := s[g] as int, s[g + 1] as int;
    PaddedGroup(s, g);
    WrapLow(val * 256);
    ModOfProduct(val, 0);
    ThirdBits(Wrap(val * 256), b, 0);
    assert Padding(1) == ['='] + Padding(0);
    assert all == whole + [Symbol(a / 4), Symbol(a % 4 * 16 + b / 16), Symbol(b % 16 * 4), '='];
  }

  lemma NothingLeft(s: string, g: nat)
    requires IsBytes(s) && g == |s|
    ensures EncodedFrom(s, g) == ""
  {
  }

  // ---------------------------------------------------------------- what the encoding is

  lemma {:induction false} Length(s: string, i: nat)
    requires IsBytes(s) && i <= |s|
    ensures |EncodedFrom(s, i)| == 4 * ((|s| - i + 2) / 3)
    decreases |s| - i
  {
    hide Symbol, EncodedFrom;
    Threes(|s| - i);
    if i + 3 <= |s| {
      WholeGroup(s, i);
      Length(s, i + 3);
    } else if i < |s| {
      PaddedGroup(s, i);
    } else {
      NothingLeft(s, i);
    }
  }

  lemma Threes(n: nat)
    ensures n >= 3 ==> (n + 2) / 3 == (n - 3 + 2) / 3 + 1 && (n - 3) % 3 == n % 3
    ensures 0 < n < 3 ==> (n + 2) / 3 == 1 && n % 3 == n
    ensures n == 0 ==> (n + 2) / 3 == 0
  {
    if n >= 3 {
      DivIs(n + 2, 3, (n - 1) / 3 + 1, (n - 1) % 3);
      DivIs(n, 3, (n - 3) / 3 + 1, (n - 3) % 3);
    }
  }

  /** Only the last two symbols can be padding: two if one byte is left over, one if two are. */
  lemma {:induction false} PaddingIs(s: string, i: nat, k: nat)
    requires IsBytes(s) && i <= |s| && k < |EncodedFrom(s, i)|
    ensures EncodedFrom(s, i)[k] == '=' <==>
              || ((|s| - i) % 3 == 1 && k >= |EncodedFrom(s, i)| - 2)
              || ((|s| - i) % 3 == 2 && k == |EncodedFrom(s, i)| - 1)
    decreases |s| - i
  {
    hide Symbol, EncodedFrom;
    SymbolsAreNotPadding();
    Threes(|s| - i);
    if i + 3 <= |s| {
      WholeGroup(s, i);
      Length(s, i + 3);
      if k >= 4 { PaddingIs(s, i + 3, k - 4); }
    } else if i < |s| {
      PaddedGroup(s, i);
    } else {
      NothingLeft(s, i);
    }
  }

  lemma SymbolsAreNotPadding()
    ensures forall n: nat :: n < 64 ==> Symbol(n) != '='
  {
  }

  lemma ValueOfSymbol(n: nat)
    requires n < 64
    ensures Value(Symbol(n)) == Some(n)
  {
  }

  lemma GroupValue(a: nat, b: nat, c: nat)
    requires a < 256 && b < 256 && c < 256
    ensures var group := a / 4 * 262144 + (a % 4 * 16 + b / 16) * 4096 + (b % 16 * 4 + c / 64) * 64 + c % 64;
            group / 65536 % 256 == a && group / 256 % 256 == b && group % 256 == c
  {
    var group := a * 65536 + b * 256 + c;
    DivIs(group, 65536, a, b * 256 + c);
    DivIs(group, 256, a * 256 + b, c);
    DivIs(a * 256 + b, 256, a, b);
  }

  /** Decoding one group. */
  lemma DecodeWhole(t: string, j: nat, a: nat, b: nat, c: nat)
    requires a < 256 && b < 256 && c < 256 && j + 4 <= |t|
    requires t[j] == Symbol(a / 4) && t[j + 1] == Symbol(a % 4 * 16 + b / 16)
    requires t[j + 2] == Symbol(b % 16 * 4 + c / 64) && t[j + 3] == Symbol(c % 64)
    ensures DecodedFrom(t, j) == match DecodedFrom(t, j + 4)
                                 case None => None
                                 case Some(rest) => Some([a as char, b as char, c as char] + rest)
  {
    hide Symbol, Value;
    SymbolsAreNotPadding();
    ValueOfSymbol(a / 4);
    ValueOfSymbol(a % 4 * 16 + b / 16);
    ValueOfSymbol(b % 16 * 4 + c / 64);
    ValueOfSymbol(c % 64);
    GroupValue(a, b, c);
  }

  lemma DecodePadded(t: string, j: nat, a: nat, b: nat, two: bool)
    requires a < 256 && b < 256 && j + 4 == |t| && (!two ==> b == 0)
    requires t[j] == Symbol(a / 4) && t[j + 1] == Symbol(a % 4 * 16 + b / 16)
    requires t[j + 2] == (if two then Symbol(b % 16 * 4) else '=') && t[j + 3] == '='
    ensures DecodedFrom(t, j) == Some(if two then [a as char, b as char] else [a as char])
  {
    hide Symbol, Value;
    SymbolsAreNotPadding();
    ValueOfSymbol(a / 4);
    ValueOfSymbol(a % 4 * 16 + b / 16);
    ValueOfSymbol(b % 16 * 4);
    PaddingHasNoValue();
    GroupValue(a, b, 0);
    var bytes := [a as char, b as char, 0 as char];
    assert bytes[..1] == [a as char] && bytes[..2] == [a as char, b as char];
  }

  lemma PaddingHasNoValue()
    ensures Value('=').None?
  {
  }

  lemma {:induction false} DecodeEncoded(s: string, i: nat, pre: string)
    requires IsBytes(s) && i <= |s|
    ensures DecodedFrom(pre + EncodedFrom(s, i), |pre|) == Some(s[i..])
    decreases |s| - i
  {
    hide Symbol, EncodedFrom, DecodedFrom;
    var t := pre + EncodedFrom(s, i);
    if i + 3 <= |s| {
      WholeGroup(s, i);
      var a, b, c := s[i] as int, s[i + 1] as int, s[i + 2] as int;
      var quad := [Symbol(a / 4), Symbol(a % 4 * 16 + b / 16), Symbol(b % 16 * 4 + c / 64), Symbol(c % 64)];
      assert t == pre + quad + EncodedFrom(s, i + 3);
      DecodeEncoded(s, i + 3, pre + quad);
      DecodeWhole(t, |pre|, a, b, c);
      assert s[i..] == [s[i], s[i + 1], s[i + 2]] + s[i + 3..];
    } else if i < |s| {
      PaddedGroup(s, i);
      var two := i + 1 < |s|;
      DecodePadded(t, |pre|, s[i] as int, if two then s[i + 1] as int else 0, two);
      assert s[i..] == if two then [s[i], s[i + 1]] else [s[i]];
    } else {
      NothingLeft(s, i);
      DecodeEnd(t, |pre|);
      assert s[i..] == "";
    }
  }

  lemma DecodeEnd(t: string, j: nat)
    requires j == |t|
    ensures DecodedFrom(t, j) == Some("")
  {
  }

  /** The encoding has four symbols for every three bytes or part of them, and decodes to the bytes. */
  lemma RoundTrip(s: string)
    requires IsBytes(s)
    ensures |EncodedFrom(s, 0)| == 4 * ((|s| + 2) / 3) && DecodedFrom(EncodedFrom(s, 0), 0) == Some(s)
  {
    Length(s, 0);
    DecodeEncoded(s, 0, "");
    assert "" + EncodedFrom(s, 0) == EncodedFrom(s, 0) && s[0..] == s;
  }
}
