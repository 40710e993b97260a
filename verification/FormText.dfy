/**
 * What decode_url and parse_query_text of file_server/httplib.h make of text that other writers
 * encode: escapes with digits in either case, `+` for a blank, `%u` and a code point, escaped keys.
 */
module FormText {
  import opened Options
  import opened QueryText
  import opened Text
  import opened Url

  /** One character of an encoded text, with what it stands for. */
  datatype Piece =
    | Plain(c: char)
    | Escaped(value: nat, hi: char, lo: char)
    | Blank
    | Unicode(code: nat, a: char, b: char, c2: char, d: char)

  function PieceText(p: Piece): string {
    match p
    case Plain(c) => [c]
    case Escaped(_, hi, lo) => ['%', hi, lo]
    case Blank => "+"
    case Unicode(_, a, b, c, d) => ['%', 'u', a, b, c, d]
  }

  function PieceValue(p: Piece): string {
    match p
    case Plain(c) => [c]
    case Escaped(value, _, _) => [Byte(value)]
    case Blank => " "
    case Unicode(code, _, _, _, _) => ToUtf8(code)
  }

  /** `c` is the hexadecimal digit of value `n`, in either case. */
  predicate IsDigit(c: char, n: nat) {
    n < 16 && ToLower(c) == "0123456789abcdef"[n]
  }

  /** A piece that a writer may produce; `plus` if it writes `+` for a blank. */
  predicate Fine(p: Piece, plus: bool) {
    match p
    case Plain(c) => c != '%' && (plus ==> c != '+')
    case Escaped(value, hi, lo) => value < 256 && IsDigit(hi, value / 16) && IsDigit(lo, value % 16)
    case Blank => plus
    case Unicode(code, a, b, c, d) =>
      && code < 0x10000 && IsDigit(a, code / 4096) && IsDigit(b, code / 256 % 16) && IsDigit(c, code / 16 % 16)
      && IsDigit(d, code % 16)
  }

  function TextFrom(ps: seq<Piece>, i: nat): string
    requires i <= |ps|
    decreases |ps| - i
  {
    if i == |ps| then "" else PieceText(ps[i]) + TextFrom(ps, i + 1)
  }

  function ValueFrom(ps: seq<Piece>, i: nat): string
    requires i <= |ps|
    decreases |ps| - i
  {
    if i == |ps| then "" else PieceValue(ps[i]) + ValueFrom(ps, i + 1)
  }

  ghost predicate AllFine(ps: seq<Piece>, plus: bool) {
    forall i :: 0 <= i < |ps| ==> Fine(ps[i], plus)
  }

  lemma DigitRead(c: char, n: nat)
    requires IsDigit(c, n)
    ensures HexValue(c) == Some(n) && c != 'u'
  {
  }

  lemma FourDigits(s: string, i: nat, code: nat)
    requires i + 4 <= |s| && code < 0x10000
    requires IsDigit(s[i], code / 4096) && IsDigit(s[i + 1], code / 256 % 16)
    requires IsDigit(s[i + 2], code / 16 % 16) && IsDigit(s[i + 3], code % 16)
    ensures HexNumber(s, i, 4, 0) == Some(code)
  {
    hide HexValue, IsDigit;
    DigitRead(s[i], code / 4096);
    DigitRead(s[i + 1], code / 256 % 16);
    DigitRead(s[i + 2], code / 16 % 16);
    DigitRead(s[i + 3], code % 16);
    var x := code / 4096;
    var y := x * 16 + code / 256 % 16;
    var z := y * 16 + code / 16 % 16;
    assert y == code / 256 && z == code / 16 && z * 16 + code % 16 == code;
    assert HexNumber(s, i + 4, 0, code) == Some(code);
    assert HexNumber(s, i + 3, 1, z) == Some(code);
    assert HexNumber(s, i + 2, 2, y) == Some(code);
    assert HexNumber(s, i + 1, 3, x) == Some(code);
  }

  lemma PieceRead(p: Piece, s: string, i: nat, plus: bool)
    requires Fine(p, plus) && i + |PieceText(p)| <= |s| && s[i..i + |PieceText(p)|] == PieceText(p)
    ensures i < |s| && DecodeOne(s, i, plus) == (PieceValue(p), |PieceText(p)|)
  {
    hide IsDigit, HexValue, HexNumber, ToUtf8;
    var t := s[i..i + |PieceText(p)|];
    assert forall k :: 0 <= k < |t| ==> t[k] == s[i + k];
    match p
    case Plain(c) =>
    case Escaped(value, hi, lo) =>
      DigitRead(hi, value / 16);
      DigitRead(lo, value % 16);
      TwoDigits(s, i + 1, value / 16, value % 16);
    case Blank =>
    case Unicode(code, a, b, c, d) => FourDigits(s, i + 2, code);
  }

  lemma {:induction false} FormRead(ps: seq<Piece>, k: nat, s: string, i: nat, plus: bool)
    requires k <= |ps| && AllFine(ps, plus) && i <= |s| && s[i..] == TextFrom(ps, k)
    ensures DecodeFrom(s, i, plus) == ValueFrom(ps, k)
    decreases |ps| - k
  {
    hide DecodeOne, PieceText, PieceValue, Fine;
    if k < |ps| {
      var n := |PieceText(ps[k])|;
      assert s[i..i + n] == s[i..][..n] == PieceText(ps[k]);
      PieceRead(ps[k], s, i, plus);
      assert s[i + n..] == s[i..][n..] == TextFrom(ps, k + 1);
      FormRead(ps, k + 1, s, i + n, plus);
    }
  }

  /** Decoding gives back what was encoded, however it was. */
  lemma FormDecodes(ps: seq<Piece>, plus: bool)
    requires AllFine(ps, plus)
    ensures Decoded(TextFrom(ps, 0), plus) == ValueFrom(ps, 0)
  {
    var s := TextFrom(ps, 0);
    assert s[0..] == s;
    FormRead(ps, 0, s, 0, plus);
  }

  /** A `%` that no digits follow stays. */
  lemma PercentStays(s: string, i: nat, plus: bool)
    requires i < |s| && s[i] == '%'
    requires i + 1 < |s| ==> s[i + 1] !in "0123456789abcdefABCDEFu"
    ensures DecodeFrom(s, i, plus) == "%" + DecodeFrom(s, i + 1, plus)
  {
    assert i + 1 < |s| ==> HexValue(s[i + 1]).None?;
    DecodeFromStep(s, i, plus, '%', 1);
  }

  // ---------------------------------------------------------------- UTF-8

  /** A continuation byte. */
  predicate Continues(c: char) {
    0x80 <= c as int < 0xC0
  }

  /** What a UTF-8 sequence stands for (RFC 3629, section 3); None if it is not one. */
  function CodePoint(t: string): Option<nat> {
    if |t| == 1 && t[0] as int < 0x80 then Some(t[0] as int)
    else if |t| == 2 && 0xC2 <= t[0] as int < 0xE0 && Continues(t[1]) then
      Some((t[0] as int - 0xC0) * 64 + (t[1] as int - 0x80))
    else if |t| == 3 && 0xE0 <= t[0] as int < 0xF0 && Continues(t[1]) && Continues(t[2]) then
      var code := (t[0] as int - 0xE0) * 4096 + (t[1] as int - 0x80) * 64 + (t[2] as int - 0x80);
      if 0x800 <= code && !(0xD800 <= code < 0xE000) then Some(code) else None
    else if |t| == 4 && 0xF0 <= t[0] as int < 0xF5 && Continues(t[1]) && Continues(t[2]) && Continues(t[3]) then
      var code := (t[0] as int - 0xF0) * 262144 + (t[1] as int - 0x80) * 4096 + (t[2] as int - 0x80) * 64
                  + (t[3] as int - 0x80);
      if 0x10000 <= code < 0x110000 then Some(code) else None
    else None
  }

  lemma TwoBytes(code: nat)
    requires 0x80 <= code < 0x800
    ensures CodePoint(ToUtf8(code)) == Some(code)
  {
    assert 2 <= code / 64 < 32;
  }

  lemma ThreeParts(code: nat, x: nat, y: nat, z: nat)
    requires x < 16 && y < 64 && z < 64 && code == x * 4096 + y * 64 + z
    requires 0x800 <= code && !(0xD800 <= code < 0xE000)
    ensures CodePoint([(0xE0 + x) as char, (0x80 + y) as char, (0x80 + z) as char]) == Some(code)
  {
  }

  lemma ThreeBytes(code: nat)
    requires 0x800 <= code < 0x10000 && !(0xD800 <= code < 0xE000)
    ensures CodePoint(ToUtf8(code)) == Some(code)
  {
    hide CodePoint;
    var x, y, z := code / 4096, code / 64 % 64, code % 64;
    assert x < 16 && code / 64 == x * 64 + y && code == x * 4096 + y * 64 + z;
    assert ToUtf8(code) == [(0xE0 + x) as char, (0x80 + y) as char, (0x80 + z) as char];
    ThreeParts(code, x, y, z);
  }

  lemma FourParts(code: nat, w: nat, x: nat, y: nat, z: nat)
    requires w < 5 && x < 64 && y < 64 && z < 64 && code == w * 262144 + x * 4096 + y * 64 + z
    requires 0x10000 <= code < 0x110000
    ensures CodePoint([(0xF0 + w) as char, (0x80 + x) as char, (0x80 + y) as char, (0x80 + z) as char]) == Some(code)
  {
  }

  lemma Digits64(code: nat) returns (w: nat, x: nat, y: nat, z: nat)
    requires code < 0x110000
    ensures w < 5 && x < 64 && y < 64 && z < 64 && code == w * 262144 + x * 4096 + y * 64 + z
    ensures w == code / 262144 && x == code / 4096 % 64 && y == code / 64 % 64 && z == code % 64
  {
    var a := code / 64;
    var b := a / 64;
    z, y, x, w := code % 64, a % 64, b % 64, b / 64;
    assert code == a * 64 + z && a == b * 64 + y && b == w * 64 + x;
  }

  lemma FourBytes(code: nat)
    requires 0x10000 <= code < 0x110000
    ensures CodePoint(ToUtf8(code)) == Some(code)
  {
    hide CodePoint;
    var w, x, y, z := Digits64(code);
    FourParts(code, w, x, y, z);
    assert Byte(0xF0 + w) == (0xF0 + w) as char && Byte(0x80 + x) == (0x80 + x) as char;
    assert Byte(0x80 + y) == (0x80 + y) as char && Byte(0x80 + z) == (0x80 + z) as char;
  }

  /** A code point is written as its UTF-8 sequence, and what is no character is dropped. */
  lemma Utf8Means(code: nat)
    ensures if code < 0x110000 && !(0xD800 <= code < 0xE000) then CodePoint(ToUtf8(code)) == Some(code)
            else ToUtf8(code) == ""
  {
    hide CodePoint;
    if code < 0x80 {
      OneByte(code);
    } else if code < 0x800 {
      TwoBytes(code);
    } else if code < 0x10000 && !(0xD800 <= code < 0xE000) {
      ThreeBytes(code);
    } else if 0x10000 <= code < 0x110000 {
      FourBytes(code);
    }
  }

  lemma OneByte(code: nat)
    requires code < 0x80
    ensures CodePoint(ToUtf8(code)) == Some(code)
  {
  }

  // ---------------------------------------------------------------- whole queries

  /** A key and a value, as a form writes them. */
  datatype Field = Field(key: seq<Piece>, value: seq<Piece>)

  function FieldText(f: Field): string {
    TextFrom(f.key, 0) + ['='] + TextFrom(f.value, 0)
  }

  /** No separator, and no blank that trimming would take. */
  ghost predicate Sent(f: Field) {
    && f.key != [] && AllFine(f.key, true) && AllFine(f.value, true)
    && (forall i :: 0 <= i < |f.key| && f.key[i].Plain? ==> f.key[i].c !in "&= \t")
    && (forall i :: 0 <= i < |f.value| && f.value[i].Plain? ==> f.value[i].c !in "& \t")
  }

  function FieldsFrom(fs: seq<Field>, i: nat): string
    requires i <= |fs|
    decreases |fs| - i
  {
    if i == |fs| then ""
    else if i + 1 == |fs| then FieldText(fs[i])
    else FieldText(fs[i]) + ['&'] + FieldsFrom(fs, i + 1)
  }

  /** The fields among the first `n`, each different text once, entered into the multimap in turn. */
  function Entered(fs: seq<Field>, n: nat): Params
    requires n <= |fs|
  {
    if n == 0 then []
    else if exists k :: 0 <= k < n - 1 && FieldText(fs[k]) == FieldText(fs[n - 1]) then Entered(fs, n - 1)
    else Emplace(Entered(fs, n - 1), ValueFrom(fs[n - 1].key, 0), ValueFrom(fs[n - 1].value, 0))
  }

  lemma {:induction false} PiecesWithout(ps: seq<Piece>, i: nat, plus: bool, c: char)
    requires i <= |ps| && AllFine(ps, plus) && c in "&= \t"
    requires forall k :: 0 <= k < |ps| && ps[k].Plain? ==> ps[k].c != c
    ensures c !in TextFrom(ps, i)
    decreases |ps| - i
  {
    hide PieceText, Fine;
    if i < |ps| {
      PiecesWithout(ps, i + 1, plus, c);
      PieceWithout(ps[i], plus, c);
    }
  }

  lemma PieceWithout(p: Piece, plus: bool, c: char)
    requires Fine(p, plus) && c in "&= \t" && (p.Plain? ==> p.c != c)
    ensures c !in PieceText(p) && PieceText(p) != ""
  {
    match p
    case Escaped(value, hi, lo) =>
      NoSeparator(hi, value / 16);
      NoSeparator(lo, value % 16);
    case Unicode(code, a, b, c2, d) =>
      NoSeparator(a, code / 4096);
      NoSeparator(b, code / 256 % 16);
      NoSeparator(c2, code / 16 % 16);
      NoSeparator(d, code % 16);
    case _ =>
  }

  lemma NoSeparator(c: char, n: nat)
    requires IsDigit(c, n)
    ensures c !in "&= \t"
  {
  }

  lemma FieldIsToken(f: Field)
    requires Sent(f)
    ensures '&' !in FieldText(f) && Token(FieldText(f)) == [FieldText(f)]
    ensures Divide(FieldText(f), '=') == (TextFrom(f.key, 0), TextFrom(f.value, 0)) && TextFrom(f.key, 0) != ""
    ensures Decoded(TextFrom(f.key, 0), true) == ValueFrom(f.key, 0)
    ensures Decoded(TextFrom(f.value, 0), true) == ValueFrom(f.value, 0)
  {
    hide Fine, Trim, Divide, Decoded, TextFrom, ValueFrom;
    var key, value, t := TextFrom(f.key, 0), TextFrom(f.value, 0), FieldText(f);
    FormDecodes(f.key, true);
    FormDecodes(f.value, true);
    forall c | c in "&= \t" ensures c !in key { PiecesWithout(f.key, 0, true, c); }
    forall c | c in "& \t" ensures c !in value { PiecesWithout(f.value, 0, true, c); }
    KeyNotEmpty(f);
    DivideAt(key, '=', value);
    assert ' ' !in key && '\t' !in key && ' ' !in value && '\t' !in value;
    assert t[0] == key[0] && (t[|t| - 1] == '=' || t[|t| - 1] in value);
    TrimClean(t);
  }

  lemma KeyNotEmpty(f: Field)
    requires Sent(f)
    ensures TextFrom(f.key, 0) != ""
  {
    PieceWithout(f.key[0], true, '\t');
  }

  lemma FieldsNext(fs: seq<Field>, i: nat)
    requires i < |fs| && Sent(fs[i])
    ensures var ts := Tokens(FieldsFrom(fs, i), '&');
            ts == [FieldText(fs[i])] + if i + 1 == |fs| then [] else Tokens(FieldsFrom(fs, i + 1), '&')
  {
    hide Sent, FieldText, Tokens, Token;
    FieldIsToken(fs[i]);
    if i + 1 == |fs| {
      TokensOne(FieldText(fs[i]), '&');
    } else {
      TokensAt(FieldText(fs[i]), '&', FieldsFrom(fs, i + 1));
    }
  }

  lemma {:induction false} FieldTokens(fs: seq<Field>, i: nat)
    requires i < |fs| && forall k :: 0 <= k < |fs| ==> Sent(fs[k])
    ensures var ts := Tokens(FieldsFrom(fs, i), '&');
            |ts| == |fs| - i && forall k :: 0 <= k < |ts| ==> ts[k] == FieldText(fs[i + k])
    decreases |fs| - i
  {
    hide Sent, FieldText, Tokens, FieldsFrom;
    FieldsNext(fs, i);
    if i + 1 < |fs| { FieldTokens(fs, i + 1); }
  }

  lemma {:induction false} FieldsReceived(fs: seq<Field>, ts: seq<string>, n: nat)
    requires n <= |fs| == |ts| && forall k :: 0 <= k < |fs| ==> Sent(fs[k]) && ts[k] == FieldText(fs[k])
    ensures Received(ts, n, []) == Entered(fs, n)
  {
    hide Sent, FieldText, Emplace, Decoded, Divide;
    if n > 0 {
      FieldsReceived(fs, ts, n - 1);
      FieldIsToken(fs[n - 1]);
    }
  }

  /**
   * Parsing a query enters every field it names, whatever way keys and values are encoded; a field
   * whose text has occurred before is dropped.
   */
  lemma ParseForm(fs: seq<Field>)
    requires forall k :: 0 <= k < |fs| ==> Sent(fs[k])
    ensures Parsed(FieldsFrom(fs, 0), []) == Entered(fs, |fs|)
  {
    hide Sent, Tokens, Received, Entered, FieldsFrom;
    if fs == [] {
      NothingSent();
    } else {
      FieldTokens(fs, 0);
      FieldsReceived(fs, Tokens(FieldsFrom(fs, 0), '&'), |fs|);
    }
  }

  lemma NothingSent()
    ensures Parsed(FieldsFrom([], 0), []) == Entered([], 0)
  {
    TokensOne("", '&');
  }

  // ---------------------------------------------------------------- the order of the multimap

  /** `a` and `b` are the same up to `k`, and there `a` ends or has the smaller character. */
  ghost predicate DiffersAt(a: string, b: string, k: nat) {
    k <= |a| && k < |b| && (forall j :: 0 <= j < k ==> a[j] == b[j]) && (k == |a| || a[k] < b[k])
  }

  /** Keys are ordered by their first difference; a text is less than a longer one that it begins. */
  lemma LessMeans(a: string, b: string)
    ensures Less(a, b) <==> exists k: nat :: DiffersAt(a, b, k)
  {
    LessFromMeans(a, b, 0);
  }

  lemma {:induction false} LessFromMeans(a: string, b: string, i: nat)
    requires i <= |a| && i <= |b| && forall j :: 0 <= j < i ==> a[j] == b[j]
    ensures LessFrom(a, b, i) <==> exists k: nat :: DiffersAt(a, b, k)
    decreases |b| - i
  {
    if i < |b| && i < |a| && a[i] == b[i] {
      LessFromMeans(a, b, i + 1);
    } else if LessFrom(a, b, i) {
      assert DiffersAt(a, b, i);
    }
  }
}
