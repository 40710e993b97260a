/**
 * encode_query_param and decode_url of file_server/httplib.h, with the hexadecimal and UTF-8
 * helpers they use.
 */
module Url {
  import opened Options
  import opened Text

  /** is_hex */
  function HexValue(c: char): (v: Option<nat>)
    ensures v.Some? ==> v.value < 16
  {
    if '0' <= c <= '9' then Some(c as int - '0' as int)
    else if 'A' <= c <= 'F' then Some(c as int - 'A' as int + 10)
    else if 'a' <= c <= 'f' then Some(c as int - 'a' as int + 10)
    else None
  }

  /** from_hex_to_i from position `i` with `val` read so far; past the end a std::string reads NUL. */
  function HexNumber(s: string, i: nat, count: nat, val: nat): (r: Option<nat>)
    decreases count
  {
    if count == 0 then Some(val)
    else if i >= |s| || HexValue(s[i]).None? then None
    else HexNumber(s, i + 1, count - 1, val * 16 + HexValue(s[i]).value)
  }

  function Byte(n: int): char {
    (n % 256) as char
  }

  /** to_utf8: nothing for the surrogates. */
  function ToUtf8(code: nat): string {
    if code < 0x80 then [Byte(code)]
    else if code < 0x800 then [Byte(0xC0 + code / 64), Byte(0x80 + code % 64)]
    else if 0xD800 <= code < 0xE000 then []
    else if code < 0x10000 then [Byte(0xE0 + code / 4096), Byte(0x80 + code / 64 % 64), Byte(0x80 + code % 64)]
    else if code < 0x110000 then
      [Byte(0xF0 + code / 262144), Byte(0x80 + code / 4096 % 64), Byte(0x80 + code / 64 % 64), Byte(0x80 + code % 64)]
    else []
  }

  /** What is decoded at position `i`, and how many characters that takes. */
  function DecodeOne(s: string, i: nat, plus: bool): (r: (string, nat))
    requires i < |s|
    ensures 1 <= r.1
  {
    if s[i] == '%' && i + 1 < |s| then
      if s[i + 1] == 'u' then
        match HexNumber(s, i + 2, 4, 0)
        case Some(code) => (ToUtf8(code), 6)
        case None => ([s[i]], 1)
      else
        match HexNumber(s, i + 1, 2, 0)
        case Some(code) => ([Byte(code)], 3)
        case None => ([s[i]], 1)
    else if plus && s[i] == '+' then (" ", 1)
    else ([s[i]], 1)
  }

  function DecodeFrom(s: string, i: nat, plus: bool): string
    decreases |s| - i
  {
    if i >= |s| then "" else DecodeOne(s, i, plus).0 + DecodeFrom(s, i + DecodeOne(s, i, plus).1, plus)
  }

  function Decoded(s: string, plus: bool): string {
    DecodeFrom(s, 0, plus)
  }

  /** from_hex_to_i */
  method FromHex(s: string, start: nat, count: nat) returns (ok: bool, val: nat)
    requires count > 0
    ensures ok == HexNumber(s, start, count, 0).Some?
    ensures ok ==> val == HexNumber(s, start, count, 0).value
  {
    val := 0;
    if start >= |s| { return false, val; }
    var i: nat, left: nat := start, count;
    while left > 0
      invariant left <= count
      invariant HexNumber(s, i, left, val) == HexNumber(s, start, count, 0)
    {
      if i >= |s| || HexValue(s[i]).None? { return false, val; }
      val := val * 16 + HexValue(s[i]).value;
      i, left := i + 1, left - 1;
    }
    return true, val;
  }

  /** decode_url */
  method DecodeUrl(s: string, plus: bool) returns (result: string)
    ensures result == Decoded(s, plus)
  {
    ghost var all := Decoded(s, plus);
    result := "";
    var i: nat := 0;
    while i < |s|
      invariant result + DecodeFrom(s, i, plus) == all
      decreases |s| - i
    {
      ghost var before, at := result, i;
      if s[i] == '%' && i + 1 < |s| {
        if s[i + 1] == 'u' {
          var ok, val := FromHex(s, i + 2, 4);
          if ok {
            result := result + ToUtf8(val);
            i := i + 5;
          } else {
            result := result + [s[i]];
          }
        } else {
          var ok, val := FromHex(s, i + 1, 2);
          if ok {
            result := result + [Byte(val)];
            i := i + 2;
          } else {
            result := result + [s[i]];
          }
        }
      } else if plus && s[i] == '+' {
        result := result + " ";
      } else {
        result := result + [s[i]];
      }
      i := i + 1;
      DecodeStep(s, at, plus, before, result, i);
    }
  }

  lemma DecodeFromStep(s: string, i: nat, plus: bool, c: char, n: nat)
    requires i < |s| && DecodeOne(s, i, plus) == ([c], n)
    ensures DecodeFrom(s, i, plus) == [c] + DecodeFrom(s, i + n, plus)
  {
    hide DecodeOne;
  }

  lemma DecodeStep(s: string, at: nat, plus: bool, before: string, result: string, i: nat)
    requires at < |s| && (result, i) == (before + DecodeOne(s, at, plus).0, at + DecodeOne(s, at, plus).1)
    ensures result + DecodeFrom(s, i, plus) == before + DecodeFrom(s, at, plus)
  {
    hide DecodeOne;
  }

  /** The characters encode_query_param leaves alone. */
  predicate Unreserved(c: char) {
    || '0' <= c <= '9' || 'A' <= c <= 'Z' || 'a' <= c <= 'z'
    || c in "-_.!~*'()"
  }

  function HexDigit(n: nat): char
    requires n < 16
  {
    "0123456789ABCDEF"[n]
  }

  function EncodeByte(c: char): string
    requires c as int < 256
  {
    if Unreserved(c) then [c] else ['%', HexDigit(c as int / 16), HexDigit(c as int % 16)]
  }

  function EncodedFrom(value: string, from: nat): string
    requires IsBytes(value) && from <= |value|
    decreases |value| - from
  {
    if from == |value| then "" else EncodeByte(value[from]) + EncodedFrom(value, from + 1)
  }

  function Encoded(value: string): string
    requires IsBytes(value)
  {
    EncodedFrom(value, 0)
  }

  /** encode_query_param */
  method EncodeQueryParam(value: string) returns (escaped: string)
    requires IsBytes(value)
    ensures escaped == Encoded(value)
  {
    ghost var all := Encoded(value);
    escaped := "";
    for i := 0 to |value|
      invariant escaped + EncodedFrom(value, i) == all
    {
      Associative(escaped, EncodeByte(value[i]), EncodedFrom(value, i + 1));
      escaped := escaped + EncodeByte(value[i]);
    }
  }

  lemma HexDigitValue(n: nat)
    requires n < 16
    ensures HexValue(HexDigit(n)) == Some(n) && HexDigit(n) != 'u'
  {
  }

  lemma TwoDigits(s: string, i: nat, hi: nat, lo: nat)
    requires i + 2 <= |s| && HexValue(s[i]) == Some(hi) && HexValue(s[i + 1]) == Some(lo)
    ensures HexNumber(s, i, 2, 0) == Some(hi * 16 + lo)
  {
    assert HexNumber(s, i + 2, 0, hi * 16 + lo) == Some(hi * 16 + lo);
    assert HexNumber(s, i + 1, 1, hi) == HexNumber(s, i + 2, 0, hi * 16 + lo);
  }

  /** From position `i` on, `s` is `t`. */
  ghost predicate Ends(s: string, i: nat, t: string) {
    i + |t| == |s| && forall j :: i <= j < |s| ==> s[j] == t[j - i]
  }

  lemma EndsSplit(s: string, i: nat, e: string, rest: string)
    requires Ends(s, i, e + rest)
    ensures Ends(s, i + |e|, rest)
    ensures forall j :: i <= j < i + |e| ==> s[j] == e[j - i]
  {
    forall j | i <= j < i + |e| ensures s[j] == e[j - i] { assert s[j] == (e + rest)[j - i]; }
    forall j | i + |e| <= j < |s| ensures s[j] == rest[j - i - |e|] { assert s[j] == (e + rest)[j - i]; }
  }

  lemma DecodeByte(c: char, s: string, i: nat, plus: bool)
    requires c as int < 256 && i + |EncodeByte(c)| <= |s|
    requires forall j :: i <= j < i + |EncodeByte(c)| ==> s[j] == EncodeByte(c)[j - i]
    ensures DecodeOne(s, i, plus) == ([c], |EncodeByte(c)|)
  {
    assert s[i] == EncodeByte(c)[0];
    if Unreserved(c) {
      assert c != '%' && c != '+';
    } else {
      assert s[i + 1] == EncodeByte(c)[1] && s[i + 2] == EncodeByte(c)[2];
      HexDigitValue(c as int / 16);
      HexDigitValue(c as int % 16);
      TwoDigits(s, i + 1, c as int / 16, c as int % 16);
    }
  }

  lemma {:induction false} DecodeEncoded(value: string, k: nat, s: string, i: nat, plus: bool)
    requires IsBytes(value) && k <= |value| && Ends(s, i, EncodedFrom(value, k))
    ensures DecodeFrom(s, i, plus) == value[k..]
    decreases |value| - k
  {
    hide DecodeOne, EncodeByte;
    if k < |value| {
      var n := |EncodeByte(value[k])|;
      DecodeNext(value, k, s, i, plus);
      DecodeEncoded(value, k + 1, s, i + n, plus);
      DecodeFromStep(s, i, plus, value[k], n);
      assert value[k..] == [value[k]] + value[k + 1..];
    }
  }

  lemma DecodeNext(value: string, k: nat, s: string, i: nat, plus: bool)
    requires IsBytes(value) && k < |value| && Ends(s, i, EncodedFrom(value, k))
    ensures var n := |EncodeByte(value[k])|;
            i < |s| && DecodeOne(s, i, plus) == ([value[k]], n) && Ends(s, i + n, EncodedFrom(value, k + 1))
  {
    hide DecodeOne, DecodeFrom;
    EndsSplit(s, i, EncodeByte(value[k]), EncodedFrom(value, k + 1));
    DecodeByte(value[k], s, i, plus);
  }

  /** Percent-encoding any bytes and decoding them gives them back. */
  lemma DecodeInvertsEncode(value: string, plus: bool)
    requires IsBytes(value)
    ensures Decoded(Encoded(value), plus) == value
  {
    DecodeEncoded(value, 0, Encoded(value), 0, plus);
    assert value[0..] == value;
  }

  /** A text without '%' and, when plus signs are converted, without '+' decodes to itself. */
  lemma {:induction false} DecodeClean(s: string, i: nat, plus: bool)
    requires i <= |s| && '%' !in s && (plus ==> '+' !in s)
    ensures DecodeFrom(s, i, plus) == s[i..]
    decreases |s| - i
  {
    if i < |s| {
      DecodeClean(s, i + 1, plus);
      assert s[i..] == [s[i]] + s[i + 1..];
    }
  }

  lemma {:induction false} EncodedChars(value: string, from: nat, c: char)
    requires IsBytes(value) && from <= |value| && c in EncodedFrom(value, from)
    ensures Unreserved(c) || c == '%'
    decreases |value| - from
  {
    if from < |value| && c !in EncodeByte(value[from]) {
      EncodedChars(value, from + 1, c);
    }
  }
}
