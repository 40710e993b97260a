/**
 * What the reader of file_server/httplib.h makes of size lines that other writers send: digits in
 * either case, leading zeros, extensions (RFC 9112, section 7.1), and lines that are no size.
 */
module ChunkSizes {
  import opened Chunked
  import opened Options
  import opened Text

  function Lower(s: string): string {
    seq(|s|, i requires 0 <= i < |s| => ToLower(s[i]))
  }

  function Zeros(z: nat): string {
    seq(z, _ => '0')
  }

  /** `d` are the hexadecimal digits of `n`, in either case and after `z` zeros. */
  predicate AreDigits(d: string, n: nat, z: nat) {
    Lower(d) == Zeros(z) + Hex(n)
  }

  /** An extension, or nothing. */
  predicate IsExtension(x: string) {
    x == "" || (x[0] == ';' && '\0' !in x && '\r' !in x && '\n' !in x)
  }

  lemma DigitInEitherCase(c: char)
    ensures DigitValue(ToLower(c)) == DigitValue(c)
  {
  }

  lemma {:induction false} LowerValue(s: string, t: string, n: nat)
    requires n <= |s| && n <= |t| && forall k :: 0 <= k < n ==> t[k] == ToLower(s[k])
    ensures ValueOf(s, 0, n) == ValueOf(t, 0, n)
  {
    hide DigitValue, ToLower;
    if n > 0 {
      LowerValue(s, t, n - 1);
      DigitInEitherCase(s[n - 1]);
    }
  }

  lemma {:induction false} ZerosValue(s: string, z: nat)
    requires Zeros(z) <= s
    ensures ValueOf(s, 0, z) == 0
  {
    if z > 0 {
      assert s[z - 1] == Zeros(z)[z - 1] == '0';
      assert Zeros(z - 1) <= s by { assert Zeros(z - 1) == Zeros(z)[..z - 1]; }
      ZerosValue(s, z - 1);
    }
  }

  lemma {:induction false} HexValueAfter(n: nat, s: string, i: nat)
    requires i <= |s| && Hex(n) <= s[i..] && ValueOf(s, 0, i) == 0
    ensures ValueOf(s, 0, i + |Hex(n)|) == n
  {
    hide HexDigit, DigitValue;
    DigitOfDigit(n % 16);
    var h := Hex(n);
    assert s[i + |h| - 1] == s[i..][|h| - 1] == h[|h| - 1] == HexDigit(n % 16);
    if n >= 16 {
      assert Hex(n / 16) == h[..|h| - 1];
      HexValueAfter(n / 16, s, i);
    }
  }

  /** A digit, told apart without its value. */
  predicate IsHexDigit(c: char) {
    c in "0123456789abcdefABCDEF"
  }

  lemma DigitHasValue(c: char)
    ensures DigitValue(c).Some? <==> IsHexDigit(c)
    ensures DigitValue(c).Some? ==> !IsSpace(c) && c !in "+-xX;\0\r\n"
  {
  }

  lemma LowerDigits(d: string, n: nat, z: nat, k: nat)
    requires AreDigits(d, n, z) && k < |d|
    ensures DigitValue(d[k]).Some?
  {
    hide DigitValue, ToLower;
    assert Lower(d)[k] == ToLower(d[k]);
    DigitInEitherCase(d[k]);
    if k < z {
      assert Lower(d)[k] == '0';
      DigitHasValue('0');
    } else {
      assert Lower(d)[k] == Hex(n)[k - z];
      HexDigits(n, k - z);
    }
  }

  lemma LowerLength(d: string, n: nat, z: nat)
    requires AreDigits(d, n, z)
    ensures |d| == z + |Hex(n)| > 0
  {
    assert |Lower(d)| == |Zeros(z) + Hex(n)|;
  }

  lemma {:induction false} ValueShifts(s: string, k: nat, e: nat)
    requires k <= e <= |s|
    ensures ValueOf(s, k, e) == ValueOf(s[k..], 0, e - k)
    decreases e
  {
    hide DigitValue;
    if k < e { ValueShifts(s, k, e - 1); }
  }

  lemma DigitsValue(d: string, n: nat, z: nat, s: string, k: nat)
    requires AreDigits(d, n, z) && Stands(s, k, d)
    ensures ValueOf(s, k, k + |d|) == n
  {
    hide ToLower, Hex;
    var t := Lower(d);
    LowerLength(d, n, z);
    ValueShifts(s, k, k + |d|);
    assert s[k..][..|d|] == d;
    LowerValue(s[k..], t, |d|);
    assert t[z..] == Hex(n);
    ZerosValue(t, z);
    HexValueAfter(n, t, z);
  }

  /** What strtoul accepts before the digits: white space, a sign, and a prefix. */
  predicate IsLead(w: string, sign: string, prefix: string) {
    && (forall k :: 0 <= k < |w| ==> IsSpace(w[k]) && w[k] != '\n')
    && (sign == "" || sign == "+" || sign == "-")
    && (prefix == "" || prefix == "0x" || prefix == "0X")
  }

  lemma DigitIsNoSpace(c: char)
    requires IsHexDigit(c)
    ensures !IsSpace(c) && c != '+' && c != '-' && c != 'x' && c != 'X'
  {
  }

  lemma SpacesEnd(s: string, w: string)
    requires (forall k :: 0 <= k < |w| ==> IsSpace(w[k])) && w < s && !IsSpace(s[|w|])
    ensures SkipSpaces(s, 0) == |w|
  {
    hide IsSpace;
    assert forall k :: 0 <= k < |w| ==> s[k] == w[k];
    SkipSpacesIs(s, 0, |w|);
  }

  /** What strtoul does, once the places are known where white space, sign, prefix and digits end. */
  lemma StrtoulIs(s: string, i: nat, j: nat, k: nat, e: nat)
    requires SkipSpaces(s, 0) == i <= j <= k < e < |s|
    requires j == (if s[i] == '-' || s[i] == '+' then i + 1 else i)
    requires k == (if s[j] == '0' && (s[j + 1] == 'x' || s[j + 1] == 'X') then j + 2 else j)
    requires forall m :: k <= m < e ==> DigitValue(s[m]).Some?
    requires DigitValue(s[e]).None?
    ensures var v := ValueOf(s, k, e);
            Strtoul(s) == Some(
              if v > ULONG_MAX then ULONG_MAX else if s[i] == '-' && v > 0 then ULONG_MAX + 1 - v else v)
  {
    hide DigitValue, IsSpace, ValueOf, SkipSpaces, DigitsEnd;
    DigitsEndIs(s, k, e);
  }

  /** A text in which digits stand up to `e`, behind a lead, is read as their value. */
  lemma StrtoulAt(s: string, w: string, sign: string, prefix: string, d: string, tail: string)
    requires IsLead(w, sign, prefix) && s == w + sign + prefix + d + tail && d != "" && tail != ""
    requires forall i :: 0 <= i < |d| ==> IsHexDigit(d[i])
    requires !IsHexDigit(tail[0]) && tail[0] != 'x' && tail[0] != 'X'
    ensures var v := ValueOf(s, |w + sign + prefix|, |w + sign + prefix + d|);
            Strtoul(s) == Some(
              if v > ULONG_MAX then ULONG_MAX else if sign == "-" && v > 0 then ULONG_MAX + 1 - v else v)
  {
    hide DigitValue, IsSpace, ValueOf, SkipSpaces, IsHexDigit, Strtoul;
    var j, k, e := |w + sign|, |w + sign + prefix|, |w + sign + prefix + d|;
    assert forall m :: k <= m < e ==> s[m] == d[m - k];
    assert s[e] == tail[0];
    forall m | k <= m <= e ensures DigitValue(s[m]).Some? <==> m < e { DigitHasValue(s[m]); }
    DigitIsNoSpace(d[0]);
    if |d| > 1 { DigitIsNoSpace(d[1]); }
    SignsAreNoSpaces();
    ZeroIsDigit();
    DigitIsNoSpace('0');
    assert sign != "" ==> s[|w|] == sign[0];
    assert prefix != "" ==> s[j] == prefix[0] == '0' && s[j + 1] == prefix[1];
    SpacesEnd(s, w);
    StrtoulIs(s, |w|, j, k, e);
  }

  lemma AfterDigits(x: string)
    requires IsExtension(x)
    ensures var c := (x + CRLF)[0]; !IsHexDigit(c) && c != 'x' && c != 'X'
  {
  }

  /**
   * A size line is the size that its digits say, however they are written: white space, a sign and
   * 0x may come before them, an extension after them.  A minus counts down from 2 to the power of
   * 64, and too large a size is ULONG_MAX.
   */
  lemma SizeRead(w: string, sign: string, prefix: string, d: string, n: nat, z: nat, x: string)
    requires IsLead(w, sign, prefix) && AreDigits(d, n, z) && IsExtension(x)
    ensures var line := w + sign + prefix + d + x + CRLF;
            && IsLine(line)
            && Strtoul(line) == Some(
                 if n > ULONG_MAX then ULONG_MAX else if sign == "-" && n > 0 then ULONG_MAX + 1 - n else n)
  {
    hide AreDigits, DigitValue, IsSpace, ValueOf, Strtoul, IsExtension, IsLine, IsLead, IsHexDigit;
    var lead := w + sign + prefix;
    var s := lead + d + x + CRLF;
    var k := |lead|;
    LowerLength(d, n, z);
    forall i | 0 <= i < |d| ensures IsHexDigit(d[i]) && d[i] !in "\0\n" {
      LowerDigits(d, n, z, i);
      DigitHasValue(d[i]);
    }
    assert forall i :: 0 <= i < |d| ==> s[k + i] == d[i];
    assert s == lead + d + (x + CRLF);
    AfterDigits(x);
    assert Stands(s, k, d);
    StrtoulAt(s, w, sign, prefix, d, x + CRLF);
    DigitsValue(d, n, z, s, k);
    LeadIsClean(w, sign, prefix);
    SizeIsLine(lead + d, x);
  }

  lemma LeadIsClean(w: string, sign: string, prefix: string)
    requires IsLead(w, sign, prefix)
    ensures var lead := w + sign + prefix; forall k :: 0 <= k < |lead| ==> lead[k] !in "\0\n"
  {
  }

  /** The usual size line, digits and perhaps an extension. */
  lemma SizeMeans(d: string, n: nat, z: nat, x: string)
    requires AreDigits(d, n, z) && IsExtension(x)
    ensures IsLine(d + x + CRLF)
    ensures Strtoul(d + x + CRLF) == Some(if n < ULONG_MAX then n else ULONG_MAX)
  {
    hide AreDigits, Strtoul, IsLine, IsExtension;
    SizeRead("", "", "", d, n, z, x);
    assert "" + "" + "" + d + x + CRLF == d + x + CRLF;
  }

  lemma SizeIsLine(d: string, x: string)
    requires IsExtension(x) && forall k :: 0 <= k < |d| ==> d[k] !in "\0\n"
    ensures IsLine(d + x + CRLF)
  {
  }

  /** A chunk whose size line says how long it is delivers its data. */
  lemma ChunkDelivers(s: string, i: nat, d: string, z: nat, x: string, data: string, broken: bool, body: string)
    requires AreDigits(d, |data|, z) && IsExtension(x) && 0 < |data| < ULONG_MAX
    requires Stands(s, i, d + x + CRLF + data + CRLF)
    ensures Chunks(s, broken, i, body) == Chunks(s, broken, i + |d + x + CRLF + data + CRLF|, body + data)
  {
    hide Strtoul, LineEnd, HasLine, CString, Chunks, IsLine, Stands, AreDigits, IsExtension;
    var line := d + x + CRLF;
    StandsSplit(s, i, line + data, CRLF);
    StandsSplit(s, i, line, data);
    SizeMeans(d, |data|, z, x);
    LineAt(s, i, line, broken);
    CrlfIsLine();
    LineAt(s, i + |line + data|, CRLF, broken);
    StandsSlice(s, i + |line|, data);
    StandsSlice(s, i, line);
    StandsSlice(s, i + |line + data|, CRLF);
    ChunkStep(s, broken, i, body, |data|);
  }

  /** A size of zero, in any number of digits, is followed by the trailer. */
  lemma LastChunk(s: string, i: nat, d: string, z: nat, x: string, broken: bool, body: string)
    requires AreDigits(d, 0, z) && IsExtension(x) && Stands(s, i, d + x + CRLF)
    ensures Chunks(s, broken, i, body) == Trailer(s, broken, i + |d + x + CRLF|, body, [])
  {
    hide Strtoul, LineEnd, HasLine, CString, IsLine, AreDigits, IsExtension, Trailer;
    SizeMeans(d, 0, z, x);
    LineAt(s, i, d + x + CRLF, broken);
  }

  // ---------------------------------------------------------------- refusals

  /** White space, perhaps a sign, and then no digit. */
  predicate NoNumber(t: string, w: string, sign: string) {
    && w + sign <= t && (forall k :: 0 <= k < |w| ==> IsSpace(w[k]))
    && (sign == "" || sign == "+" || sign == "-")
    && (|w + sign| < |t| ==>
          var c := t[|w + sign|]; !IsHexDigit(c) && (sign == "" ==> !IsSpace(c) && c != '+' && c != '-'))
  }

  lemma {:induction false} SkipSpacesIs(s: string, i: nat, e: nat)
    requires i <= e <= |s| && (forall k :: i <= k < e ==> IsSpace(s[k])) && (e < |s| ==> !IsSpace(s[e]))
    ensures SkipSpaces(s, i) == e
    decreases e - i
  {
    if i < e { SkipSpacesIs(s, i + 1, e); }
  }

  lemma NotRead(t: string, w: string, sign: string)
    requires NoNumber(t, w, sign)
    ensures Strtoul(t) == None
  {
    hide DigitValue, IsSpace, IsHexDigit;
    var n := |w + sign|;
    assert forall k :: 0 <= k < |w| ==> t[k] == w[k];
    if sign != "" { assert t[|w|] == sign[0] && !IsSpace(sign[0]) by { SignsAreNoSpaces(); } }
    SkipSpacesIs(t, 0, |w|);
    if n < |t| { DigitHasValue(t[n]); }
    if n < |t| && t[n] == '0' { ZeroIsDigit(); }
  }

  lemma SignsAreNoSpaces()
    ensures !IsSpace('+') && !IsSpace('-')
  {
  }

  lemma ZeroIsDigit()
    ensures IsHexDigit('0')
  {
  }

  /** A line that is no number is refused. */
  lemma NumberNeeded(s: string, i: nat, line: string, w: string, sign: string, broken: bool, body: string)
    requires IsLine(line) && Stands(s, i, line) && NoNumber(line, w, sign)
    ensures Chunks(s, broken, i, body) == Result(false, body, i + |line|, [])
  {
    hide Strtoul, LineEnd, HasLine, CString, IsLine, NoNumber, Trailer;
    LineAt(s, i, line, broken);
    NotRead(line, w, sign);
  }

  /** A size beyond the range of the conversion is refused. */
  lemma TooLargeRefused(s: string, i: nat, d: string, n: nat, z: nat, x: string, broken: bool, body: string)
    requires AreDigits(d, n, z) && IsExtension(x) && n >= ULONG_MAX && Stands(s, i, d + x + CRLF)
    ensures Chunks(s, broken, i, body) == Result(false, body, i + |d + x + CRLF|, [])
  {
    hide Strtoul, LineEnd, HasLine, CString, IsLine, AreDigits, IsExtension, Trailer;
    SizeMeans(d, n, z, x);
    LineAt(s, i, d + x + CRLF, broken);
  }

  lemma CrlfStands(s: string, i: nat)
    requires i <= |s| && CString(s[i..LineEnd(s, i)]) == CRLF
    ensures Stands(s, i, CRLF)
  {
    hide LineEnd;
    var e := LineEnd(s, i);
    assert s[i..e][..2] == CString(s[i..e])[..2] == CRLF;
    SliceOfSlice(s, i, e, i, i + 2);
  }

  /** A chunk that ends early, or is not followed by CRLF, is refused. */
  lemma CrlfNeeded(s: string, i: nat, d: string, n: nat, z: nat, x: string, broken: bool, body: string)
    requires AreDigits(d, n, z) && IsExtension(x) && 0 < n < ULONG_MAX && Stands(s, i, d + x + CRLF)
    requires i + |d + x + CRLF| + n > |s| || !Stands(s, i + |d + x + CRLF| + n, CRLF)
    ensures !Chunks(s, broken, i, body).ok
  {
    hide Strtoul, LineEnd, HasLine, CString, IsLine, AreDigits, IsExtension, Trailer, Stands;
    SizeMeans(d, n, z, x);
    LineAt(s, i, d + x + CRLF, broken);
    StandsSlice(s, i, d + x + CRLF);
    var k := i + |d + x + CRLF| + n;
    if k <= |s| && CString(s[k..LineEnd(s, k)]) == CRLF { CrlfStands(s, k); }
  }

  // ---------------------------------------------------------------- trailer and end of the stream

  function Joined(lines: seq<string>, n: nat): string
    requires n <= |lines|
  {
    if n == 0 then "" else Joined(lines, n - 1) + lines[n - 1]
  }

  /** A line of a trailer, of any length that the reader allows. */
  predicate IsTrailerLine(line: string) {
    IsLine(line) && line != CRLF && |line| <= HEADER_MAX_LENGTH
  }

  /** The lines of a trailer arrive, in order, up to the empty line. */
  lemma {:induction false} TrailerRead(s: string, i: nat, lines: seq<string>, n: nat, broken: bool, body: string)
    requires n <= |lines| && forall k :: 0 <= k < |lines| ==> IsTrailerLine(lines[k])
    requires Stands(s, i, Joined(lines, |lines|) + CRLF)
    ensures i + |Joined(lines, n)| <= |s|
    ensures Trailer(s, broken, i + |Joined(lines, n)|, body, lines[..n]) ==
            Result(true, body, i + |Joined(lines, |lines|) + CRLF|, lines)
    decreases |lines| - n
  {
    hide LineEnd, HasLine, CString, IsLine, Stands;
    var all := Joined(lines, |lines|);
    StandsSlice(s, i, all + CRLF);
    if n == |lines| {
      StandsSplit(s, i, all, CRLF);
      CrlfIsLine();
      LineAt(s, i + |all|, CRLF, broken);
      StandsSlice(s, i + |all|, CRLF);
      assert lines[..n] == lines;
    } else {
      TrailerRead(s, i, lines, n + 1, broken, body);
      LineStands(s, i, lines, n);
      var k := i + |Joined(lines, n)|;
      LineAt(s, k, lines[n], broken);
      StandsSlice(s, k, lines[n]);
      assert lines[..n + 1] == lines[..n] + [lines[n]];
    }
  }

  lemma {:induction false} JoinedStarts(lines: seq<string>, n: nat, m: nat)
    requires n <= m <= |lines|
    ensures Joined(lines, n) <= Joined(lines, m)
  {
    if n < m { JoinedStarts(lines, n, m - 1); }
  }

  lemma JoinedNext(lines: seq<string>, n: nat)
    requires n < |lines|
    ensures Joined(lines, n + 1) == Joined(lines, n) + lines[n]
  {
  }

  lemma LineStands(s: string, i: nat, lines: seq<string>, n: nat)
    requires n < |lines| && Stands(s, i, Joined(lines, |lines|) + CRLF)
    ensures Stands(s, i + |Joined(lines, n)|, lines[n])
  {
    hide Stands, Joined;
    JoinedStarts(lines, n + 1, |lines|);
    JoinedNext(lines, n);
    StandsWithin(s, i, Joined(lines, n), lines[n], Joined(lines, |lines|) + CRLF);
  }

  lemma StandsWithin(s: string, i: nat, t: string, u: string, all: string)
    requires Stands(s, i, all) && t + u <= all
    ensures Stands(s, i + |t|, u)
  {
    hide Stands;
    var rest := all[|t + u|..];
    assert all == t + u + rest;
    StandsSplit(s, i, t + u, rest);
    StandsSplit(s, i, t, u);
  }

  /** A longer line in the trailer is refused. */
  lemma LongTrailerRefused(s: string, i: nat, line: string, broken: bool, body: string, lines: seq<string>)
    requires IsLine(line) && |line| > HEADER_MAX_LENGTH && Stands(s, i, line)
    ensures !Trailer(s, broken, i, body, lines).ok
  {
    hide LineEnd, HasLine, CString, IsLine, Stands;
    LineAt(s, i, line, broken);
    StandsSlice(s, i, line);
  }

  /** A stream that ends where a size line or a line of the trailer is due is refused. */
  lemma EndNeeded(s: string, i: nat, broken: bool, body: string, lines: seq<string>)
    requires i <= |s| && (i == |s| || (broken && '\n' !in s[i..]))
    ensures !Chunks(s, broken, i, body).ok && !Trailer(s, broken, i, body, lines).ok
  {
    hide LineEnd, CString, Strtoul;
    if i < |s| {
      forall k | i <= k < |s| ensures s[k] != '\n' { assert s[k] == s[i..][k - i]; }
      LineEndOfAll(s, i);
    }
  }

  lemma {:induction false} LineEndOfAll(s: string, i: nat)
    requires i <= |s| && forall k :: i <= k < |s| ==> s[k] != '\n'
    ensures LineEnd(s, i) == |s|
    decreases |s| - i
  {
    if i < |s| { LineEndOfAll(s, i + 1); }
  }
}
