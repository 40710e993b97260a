/**
 * The chunked transfer coding of file_server/httplib.h: the sink that writes it and the reader
 * of it, over a stream whose reads may return less than was asked for.
 */
module Chunked {
  import opened Options
  import opened Text

  const RECV_BUFSIZ := 16384
  const ULONG_MAX := 0xFFFF_FFFF_FFFF_FFFF

  // ---------------------------------------------------------------- hexadecimal numbers

  /** The digit `n`, as from_i_to_hex writes it. */
  function HexDigit(n: nat): char
    requires n < 16
  {
    "0123456789abcdef"[n]
  }

  function Hex(n: nat): (h: string)
    ensures h != ""
  {
    if n < 16 then [HexDigit(n)] else Hex(n / 16) + [HexDigit(n % 16)]
  }

  /** from_i_to_hex */
  method FromIToHex(i: nat) returns (ret: string)
    ensures ret == Hex(i)
  {
    ret := [HexDigit(i % 16)];
    var n := i / 16;
    while n > 0
      invariant if n > 0 then Hex(i) == Hex(n) + ret else Hex(i) == ret
    {
      HexStep(n, ret);
      ret := [HexDigit(n % 16)] + ret;
      n := n / 16;
    }
  }

  lemma HexStep(n: nat, ret: string)
    ensures n >= 16 ==> Hex(n) + ret == Hex(n / 16) + ([HexDigit(n % 16)] + ret)
    ensures 0 < n < 16 ==> Hex(n) + ret == [HexDigit(n % 16)] + ret
  {
    hide HexDigit;
    if n >= 16 { Associative(Hex(n / 16), [HexDigit(n % 16)], ret); }
  }

  function DigitValue(c: char): Option<nat> {
    if '0' <= c <= '9' then Some(c as int - '0' as int)
    else if 'a' <= c <= 'f' then Some(c as int - 'a' as int + 10)
    else if 'A' <= c <= 'F' then Some(c as int - 'A' as int + 10)
    else None
  }

  /** The first position at or after `i` that is not a hexadecimal digit, or the length. */
  function DigitsEnd(s: string, i: nat): (e: nat)
    requires i <= |s|
    ensures i <= e <= |s|
    decreases |s| - i
  {
    if i < |s| && DigitValue(s[i]).Some? then DigitsEnd(s, i + 1) else i
  }

  /** The number whose digits stand from `i` to `j`. */
  function ValueOf(s: string, i: nat, j: nat): nat
    requires i <= j <= |s|
    decreases j
  {
    if i == j then 0
    else ValueOf(s, i, j - 1) * 16 + match DigitValue(s[j - 1]) case Some(v) => v case None => 0
  }

  /** strtoul in base 16, with 64 bits: white space, a sign and 0x may come first; None if there is no number. */
  function Strtoul(s: string): Option<nat> {
    var i := SkipSpaces(s, 0);
    var minus := i < |s| && s[i] == '-';
    var j := if i < |s| && (s[i] == '-' || s[i] == '+') then i + 1 else i;
    var prefixed := j + 2 < |s| && s[j] == '0' && (s[j + 1] == 'x' || s[j + 1] == 'X') && DigitValue(s[j + 2]).Some?;
    var k := if prefixed then j + 2 else j;
    var e := DigitsEnd(s, k);
    var v := ValueOf(s, k, e);
    if e == k then None
    else if v > ULONG_MAX then Some(ULONG_MAX)
    else if minus && v > 0 then Some(ULONG_MAX + 1 - v)
    else Some(v)
  }

  lemma DigitOfDigit(n: nat)
    requires n < 16
    ensures DigitValue(HexDigit(n)) == Some(n) && !IsSpace(HexDigit(n)) && HexDigit(n) !in "+-xX\r\n"
  {
  }

  lemma {:induction false} HexDigits(n: nat, k: nat)
    requires k < |Hex(n)|
    ensures DigitValue(Hex(n)[k]).Some? && !IsSpace(Hex(n)[k]) && Hex(n)[k] !in "+-xX\r\n"
  {
    DigitOfDigit(n % 16);
    if n >= 16 && k < |Hex(n)| - 1 { HexDigits(n / 16, k); }
  }

  lemma {:induction false} HexValue(n: nat, s: string)
    requires Hex(n) <= s
    ensures ValueOf(s, 0, |Hex(n)|) == n
  {
    DigitOfDigit(n % 16);
    if n < 16 {
      assert ValueOf(s, 0, 0) == 0;
      assert s[0] == Hex(n)[0];
    } else {
      assert Hex(n / 16) <= s by { assert Hex(n / 16) == Hex(n)[..|Hex(n)| - 1]; }
      HexValue(n / 16, s);
      assert s[|Hex(n)| - 1] == Hex(n)[|Hex(n)| - 1];
    }
  }

  lemma {:induction false} DigitsEndIs(s: string, i: nat, e: nat)
    requires i <= e < |s| && (forall k :: i <= k < e ==> DigitValue(s[k]).Some?) && DigitValue(s[e]).None?
    ensures DigitsEnd(s, i) == e
    decreases e - i
  {
    if i < e { DigitsEndIs(s, i + 1, e); }
  }

  /** strtoul reads back what from_i_to_hex wrote. */
  lemma {:induction false} StrtoulUndoesHex(n: nat)
    requires n < ULONG_MAX
    ensures Strtoul(Hex(n) + CRLF) == Some(n)
  {
    hide Hex, IsSpace, DigitValue;
    var h := Hex(n);
    var s := h + CRLF;
    forall k | 0 <= k < |h| ensures DigitValue(s[k]).Some? && !IsSpace(s[k]) && s[k] !in "+-xX\r\n" {
      HexDigits(n, k);
      assert s[k] == h[k];
    }
    assert s[|h|] == '\r' && s[|h| + 1] == '\n';
    NoDigit();
    DigitsEndIs(s, 0, |h|);
    HexValue(n, s);
  }

  lemma NoDigit()
    ensures DigitValue('\r').None?
  {
  }

  // ---------------------------------------------------------------- the stream and its lines

  /** The bytes a peer sent; after them a read returns 0 or, if the connection broke, -1. */
  class Stream {
    const data: string
    const broken: bool
    var pos: nat

    ghost predicate Valid()
      reads this
    {
      pos <= |data|
    }

    constructor (data: string, broken: bool)
      ensures Valid() && this.data == data && this.broken == broken && pos == 0
    {
      this.data, this.broken, pos := data, broken, 0;
    }

    /** At most `size` bytes, and at least one if there is one: how many, nobody knows. */
    method Read(size: nat) returns (n: int, bytes: string)
      requires Valid() && size > 0
      modifies this
      ensures Valid() && old(pos) <= pos
      ensures old(pos) == |data| ==> pos == |data| && n == (if broken then -1 else 0)
      ensures old(pos) < |data| ==> 0 < n <= size && pos == old(pos) + n && bytes == data[old(pos)..pos]
    {
      bytes := "";
      if pos == |data| { return if broken then -1 else 0, bytes; }
      var k: nat :| 0 < k <= size && pos + k <= |data| by { assert 0 < 1 <= size && pos + 1 <= |data|; }
      bytes := data[pos..pos + k];
      n, pos := k, pos + k;
    }
  }

  /** One past the end of the line that starts at `i`: past its '\n', or the end of the text. */
  function LineEnd(s: string, i: nat): (e: nat)
    requires i <= |s|
    ensures i <= e <= |s| && (i < |s| ==> i < e)
    decreases |s| - i
  {
    if i == |s| then i else if s[i] == '\n' then i + 1 else LineEnd(s, i + 1)
  }

  /** Whether there is a line at `i`: a last one without '\n' is taken, unless the connection broke. */
  predicate HasLine(s: string, i: nat, broken: bool): (has: bool)
    requires i <= |s|
    ensures has ==> i < |s|
  {
    var e := LineEnd(s, i);
    i < |s| && (s[e - 1] == '\n' || !broken)
  }

  lemma LineEndNext(s: string, i: nat)
    requires i <= |s|
    ensures LineEnd(s, i) == if i == |s| then i else if s[i] == '\n' then i + 1 else LineEnd(s, i + 1)
  {
  }

  lemma SliceNext(s: string, i: nat, j: nat)
    requires i <= j <= |s|
    ensures j < |s| ==> s[i..j + 1] == s[i..j] + [s[j]]
  {
  }

  /** stream_line_reader: a line is kept in a fixed buffer, or in a growing one once it is too long for that. */
  class LineReader {
    const strm: Stream
    const fixed: array<char>
    var used: nat
    var growable: string

    ghost predicate Valid()
      reads this, fixed, strm
    {
      && strm.Valid() && used < fixed.Length
      && (used > 0 ==> fixed[used] == '\0')
      && (growable != "" ==> used + 1 == fixed.Length)
    }

    /** The characters from ptr() to ptr() + size(). */
    function Line(): string
      requires used < fixed.Length
      reads this, fixed
    {
      if growable == "" then fixed[..used] else growable
    }

    constructor (strm: Stream, size: nat)
      requires strm.Valid() && size >= 2
      ensures Valid() && this.strm == strm && fixed.Length == size && fresh(fixed)
    {
      this.strm, used, growable := strm, 0, "";
      fixed := new char[size];
    }

    method Append(c: char)
      requires Valid() && fixed.Length >= 2
      modifies this, fixed
      ensures Valid() && Line() == old(Line()) + [c]
    {
      if used < fixed.Length - 1 {
        fixed[used] := c;
        used := used + 1;
        fixed[used] := '\0';
        assert fixed[..used] == old(fixed[..used]) + [c];
      } else {
        if growable == "" {
          assert fixed[used] == '\0';
          growable := fixed[..used];
        }
        growable := growable + [c];
      }
    }

    method GetLine() returns (ok: bool)
      requires Valid() && fixed.Length >= 2
      modifies this, fixed, strm
      ensures Valid()
      ensures ok == HasLine(strm.data, old(strm.pos), strm.broken)
      ensures strm.pos == LineEnd(strm.data, old(strm.pos))
      ensures ok ==> Line() == strm.data[old(strm.pos)..strm.pos]
    {
      hide LineEnd;
      used, growable := 0, "";
      ghost var start := strm.pos;
      var i: nat := 0;
      while true
        invariant Valid() && i == strm.pos - start
        invariant Line() == strm.data[start..strm.pos]
        invariant LineEnd(strm.data, start) == LineEnd(strm.data, strm.pos)
        invariant i > 0 ==> strm.data[strm.pos - 1] != '\n'
        decreases |strm.data| - strm.pos
      {
        ghost var p := strm.pos;
        LineEndNext(strm.data, p);
        var n, bytes := strm.Read(1);
        if n < 0 { return false; }
        if n == 0 {
          if i == 0 { return false; }
          break;
        }
        SliceNext(strm.data, start, p);
        Append(bytes[0]);
        if bytes[0] == '\n' { break; }
        i := i + 1;
      }
      ok := true;
    }
  }

  // ---------------------------------------------------------------- reading chunks

  /** What strcmp and strtoul see: the text before the first NUL. */
  function CString(s: string): string {
    s[..IndexOf(s, '\0', 0)]
  }

  /** Whether reading succeeded, what was received, where the stream stands, and the lines of the trailer. */
  datatype Result = Result(ok: bool, body: string, pos: nat, trailer: seq<string>)

  /** The trailer, starting with its next line at `i`. */
  function Trailer(s: string, broken: bool, i: nat, body: string, lines: seq<string>): Result
    requires i <= |s|
    decreases |s| - i
  {
    var j := LineEnd(s, i);
    if !HasLine(s, i, broken) then Result(false, body, j, lines)
    else if CString(s[i..j]) == CRLF then Result(true, body, j, lines)
    else if j - i > HEADER_MAX_LENGTH then Result(false, body, j, lines)
    else Trailer(s, broken, j, body, lines + [s[i..j]])
  }

  /** The chunks, starting with the one whose size line is at `i`; `body` was received before. */
  function Chunks(s: string, broken: bool, i: nat, body: string): Result
    requires i <= |s|
    decreases |s| - i
  {
    var j := LineEnd(s, i);
    if !HasLine(s, i, broken) then Result(false, body, j, [])
    else match Strtoul(CString(s[i..j]))
      case None => Result(false, body, j, [])
      case Some(len) =>
        if len == ULONG_MAX then Result(false, body, j, [])
        else if len == 0 then Trailer(s, broken, j, body, [])
        else if j + len > |s| then Result(false, body + s[j..], |s|, [])
        else
          var got, k := body + s[j..j + len], LineEnd(s, j + len);
          if !HasLine(s, j + len, broken) || CString(s[j + len..k]) != CRLF then Result(false, got, k, [])
          else Chunks(s, broken, k, got)
  }

  /** read_content_with_length; what the receiver is given is collected. */
  method ReadContentWithLength(strm: Stream, len: nat) returns (ok: bool, body: string)
    requires strm.Valid()
    modifies strm
    ensures strm.Valid() && ok == (old(strm.pos) + len <= |strm.data|)
    ensures strm.pos == (if ok then old(strm.pos) + len else |strm.data|)
    ensures body == strm.data[old(strm.pos)..strm.pos]
  {
    ghost var start := strm.pos;
    body := "";
    var r: nat := 0;
    while r < len
      invariant r <= len && strm.Valid() && strm.pos == start + r
      invariant body == strm.data[start..strm.pos]
    {
      var readLen := len - r;
      ghost var p := strm.pos;
      var n, bytes := strm.Read(if readLen < RECV_BUFSIZ then readLen else RECV_BUFSIZ);
      if n <= 0 { return false, body; }
      assert strm.data[start..p] + strm.data[p..strm.pos] == strm.data[start..strm.pos];
      body := body + bytes;
      r := r + n;
    }
    ok := true;
  }

  /** The end of read_content_chunked. */
  method ReadTrailer(reader: LineReader, ghost body: string) returns (ok: bool, trailer: seq<string>)
    requires reader.Valid() && reader.fixed.Length >= 2
    modifies reader, reader.fixed, reader.strm
    ensures reader.strm.Valid()
    ensures Result(ok, body, reader.strm.pos, trailer)
         == Trailer(reader.strm.data, reader.strm.broken, old(reader.strm.pos), body, [])
  {
    hide LineEnd, HasLine, CString;
    ghost var s, broken := reader.strm.data, reader.strm.broken;
    ghost var i := reader.strm.pos;
    ghost var target := Trailer(s, broken, i, body, []);
    trailer := [];
    var got := reader.GetLine();
    if !got { return false, trailer; }
    while CString(reader.Line()) != CRLF
      invariant reader.Valid() && i <= |s| && HasLine(s, i, broken)
      invariant reader.strm.pos == LineEnd(s, i) && reader.Line() == s[i..reader.strm.pos]
      invariant Trailer(s, broken, i, body, trailer) == target
      decreases |s| - i
    {
      var line := reader.Line();
      if |line| > HEADER_MAX_LENGTH { return false, trailer; }
      i := reader.strm.pos;
      trailer := trailer + [line];
      got := reader.GetLine();
      if !got { return false, trailer; }
    }
    ok := true;
  }

  /** The data of one chunk, and the line end behind them. */
  method ReadChunk(reader: LineReader, len: nat) returns (ok: bool, data: string)
    requires reader.Valid() && reader.fixed.Length >= 2
    modifies reader, reader.fixed, reader.strm
    ensures reader.strm.Valid() && (ok ==> reader.Valid())
    ensures var s, broken, j := reader.strm.data, reader.strm.broken, old(reader.strm.pos);
            if j + len > |s| then !ok && data == s[j..] && reader.strm.pos == |s|
            else
              var k := LineEnd(s, j + len);
              && data == s[j..j + len] && reader.strm.pos == k
              && (ok <==> HasLine(s, j + len, broken) && CString(s[j + len..k]) == CRLF)
  {
    hide LineEnd, HasLine, CString;
    ok, data := ReadContentWithLength(reader.strm, len);
    if !ok { return; }
    ok := reader.GetLine();
    ok := ok && CString(reader.Line()) == CRLF;
  }

  /** read_content_chunked; the lines of the trailer are collected as they are. */
  method ReadContentChunked(strm: Stream) returns (ok: bool, body: string, trailer: seq<string>)
    requires strm.Valid()
    modifies strm
    ensures strm.Valid()
    ensures Result(ok, body, strm.pos, trailer) == Chunks(strm.data, strm.broken, old(strm.pos), "")
  {
    hide LineEnd, HasLine, Strtoul, CString, Trailer;
    ghost var s, broken, target := strm.data, strm.broken, Chunks(strm.data, strm.broken, strm.pos, "");
    body, trailer := "", [];
    var reader := new LineReader(strm, 16);
    ghost var i := strm.pos;
    var got := reader.GetLine();
    if !got { return false, body, trailer; }
    while true
      invariant reader.Valid() && reader.strm == strm && reader.fixed.Length == 16
      invariant fresh(reader) && fresh(reader.fixed)
      invariant i <= |s| && HasLine(s, i, broken) && strm.pos == LineEnd(s, i) && reader.Line() == s[i..strm.pos]
      invariant Chunks(s, broken, i, body) == target && trailer == []
      decreases |s| - i
    {
      var number := Strtoul(CString(reader.Line()));
      if number.None? { return false, body, trailer; }
      var len := number.value;
      if len == ULONG_MAX { return false, body, trailer; }
      if len == 0 { break; }
      var data: string;
      got, data := ReadChunk(reader, len);
      body := body + data;
      if !got { return false, body, trailer; }
      i := strm.pos;
      got := reader.GetLine();
      if !got { return false, body, trailer; }
    }
    ok, trailer := ReadTrailer(reader, body);
  }

  // ---------------------------------------------------------------- writing chunks

  /** What one write of the sink puts on the stream: nothing if it is empty. */
  function ChunkText(d: string): string {
    if d == "" then "" else Hex(|d|) + CRLF + d + CRLF
  }

  const DONE := "0\r\n\r\n"

  function WritesText(writes: seq<string>, n: nat): string
    requires n <= |writes|
  {
    if n == 0 then "" else WritesText(writes, n - 1) + ChunkText(writes[n - 1])
  }

  /** The data sink of write_content_chunked, without a compressor; `sent` is what went out, and any write may fail. */
  class DataSink {
    var ok: bool
    var dataAvailable: bool
    var offset: nat
    var sent: string

    constructor ()
      ensures ok && dataAvailable && offset == 0 && sent == ""
    {
      ok, dataAvailable, offset, sent := true, true, 0, "";
    }

    /** is_writable and write_data: all of the data goes out, or the stream is no good any more. */
    method Emit(d: string) returns (good: bool)
      modifies this`sent
      ensures good ==> sent == old(sent) + d
    {
      good := *;
      if good { sent := sent + d; }
    }

    method Write(d: string) returns (r: bool)
      modifies this
      ensures r == ok && (!old(ok) ==> !ok && sent == old(sent) && dataAvailable == old(dataAvailable))
      ensures ok ==> sent == old(sent) + ChunkText(d) && dataAvailable == (d != "") && offset == old(offset) + |d|
    {
      if ok {
        dataAvailable := |d| > 0;
        offset := offset + |d|;
        if d != "" {
          var size := FromIToHex(|d|);
          ok := Emit(size + "\r\n" + d + "\r\n");
        }
      }
      r := ok;
    }

    method Done()
      modifies this
      ensures !old(ok) ==> !ok && sent == old(sent) && dataAvailable == old(dataAvailable)
      ensures old(ok) ==> !dataAvailable
      ensures ok ==> sent == old(sent) + DONE
    {
      if !ok { return; }
      dataAvailable := false;
      var marker := Emit("0\r\n");
      if !marker { ok := false; }
      var crlf := Emit("\r\n");
      if !crlf { ok := false; }
      assert "0\r\n" + "\r\n" == DONE;
    }
  }

  /** What the content provider does when it is called: some writes, perhaps done, and its result. */
  datatype Turn = Turn(writes: seq<string>, done: bool, result: bool)

  function TurnText(turn: Turn): string {
    WritesText(turn.writes, |turn.writes|) + if turn.done then DONE else ""
  }

  function TurnsText(turns: seq<Turn>, n: nat): string
    requires n <= |turns|
  {
    if n == 0 then "" else TurnsText(turns, n - 1) + TurnText(turns[n - 1])
  }

  /** After a turn that called done, or whose last write was empty, the provider is not called again. */
  predicate Ends(turn: Turn) {
    turn.done || (turn.writes != [] && turn.writes[|turn.writes| - 1] == "")
  }

  /** write_content_chunked; when the turns are used up, the server is shutting down. */
  method WriteContentChunked(turns: seq<Turn>) returns (ok: bool, sent: string, n: nat)
    ensures n <= |turns| && forall i :: 0 <= i < n - 1 ==> !Ends(turns[i])
    ensures ok ==> sent == TurnsText(turns, n) && (n < |turns| ==> n > 0 && Ends(turns[n - 1]))
    ensures ok ==> forall i :: 0 <= i < n ==> turns[i].result
  {
    hide TurnText, Ends;
    var sink := new DataSink();
    n := 0;
    while sink.dataAvailable && n < |turns|
      invariant n <= |turns| && sink.ok && sink.sent == TurnsText(turns, n)
      invariant forall i :: 0 <= i < n - 1 ==> !Ends(turns[i])
      invariant n > 0 ==> sink.dataAvailable == !Ends(turns[n - 1])
      invariant n == 0 ==> sink.dataAvailable
      invariant forall i :: 0 <= i < n ==> turns[i].result
    {
      var writable: bool := *;
      if !writable { return false, sink.sent, n; }
      TakeTurn(sink, turns[n]);
      n := n + 1;
      if !turns[n - 1].result { return false, sink.sent, n; }
      if !sink.ok { return false, sink.sent, n; }
    }
    return true, sink.sent, n;
  }

  method TakeTurn(sink: DataSink, turn: Turn)
    requires sink.ok && sink.dataAvailable
    modifies sink
    ensures sink.ok ==> sink.sent == old(sink.sent) + TurnText(turn) && sink.dataAvailable == !Ends(turn)
  {
    hide ChunkText, WritesText;
    ghost var before := sink.sent;
    WritesNone(before, turn.writes);
    for j := 0 to |turn.writes|
      invariant sink.ok ==> sink.sent == before + WritesText(turn.writes, j)
      invariant sink.ok ==> sink.dataAvailable == (j == 0 || turn.writes[j - 1] != "")
    {
      WritesNext(before, turn.writes, j);
      var _ := sink.Write(turn.writes[j]);
    }
    Associative(before, WritesText(turn.writes, |turn.writes|), DONE);
    if turn.done { sink.Done(); }
  }

  lemma WritesNone(before: string, writes: seq<string>)
    ensures before + WritesText(writes, 0) == before
  {
  }

  lemma WritesNext(before: string, writes: seq<string>, j: nat)
    requires j < |writes|
    ensures before + WritesText(writes, j + 1) == before + WritesText(writes, j) + ChunkText(writes[j])
  {
    hide ChunkText;
    Associative(before, WritesText(writes, j), ChunkText(writes[j]));
  }

  // ---------------------------------------------------------------- the round trip

  function Payload(writes: seq<string>, n: nat): string
    requires n <= |writes|
  {
    if n == 0 then "" else Payload(writes, n - 1) + writes[n - 1]
  }

  function Payloads(turns: seq<Turn>, n: nat): string
    requires n <= |turns|
  {
    if n == 0 then "" else Payloads(turns, n - 1) + Payload(turns[n - 1].writes, |turns[n - 1].writes|)
  }

  ghost predicate NonEmpty(writes: seq<string>) {
    forall i :: 0 <= i < |writes| ==> 0 < |writes[i]| < ULONG_MAX
  }

  lemma {:induction false} LineEndIs(s: string, i: nat, e: nat)
    requires i < e <= |s| && s[e - 1] == '\n' && forall k :: i <= k < e - 1 ==> s[k] != '\n'
    ensures LineEnd(s, i) == e
    decreases e - i
  {
    if i < e - 1 { LineEndIs(s, i + 1, e); }
  }

  /** `t` stands at position `i`. */
  predicate Stands(s: string, i: nat, t: string) {
    i + |t| <= |s| && s[i..i + |t|] == t
  }

  lemma StandsSplit(s: string, i: nat, t: string, u: string)
    requires Stands(s, i, t + u)
    ensures Stands(s, i, t) && Stands(s, i + |t|, u)
  {
    var all := t + u;
    assert all[..|t|] == t && all[|t|..] == u;
    assert s[i..i + |all|][..|t|] == s[i..i + |t|];
    assert s[i..i + |all|][|t|..] == s[i + |t|..i + |all|];
  }

  lemma StandsAfter(pre: string, t: string, tail: string)
    ensures Stands(pre + t + tail, |pre|, t)
  {
  }

  predicate IsLine(line: string) {
    && line != "" && line[|line| - 1] == '\n' && '\0' !in line
    && forall k :: 0 <= k < |line| - 1 ==> line[k] != '\n'
  }

  /** A line of the text, in its place. */
  lemma LineAt(s: string, i: nat, line: string, broken: bool)
    requires IsLine(line) && Stands(s, i, line)
    ensures LineEnd(s, i) == i + |line| && HasLine(s, i, broken) && CString(s[i..i + |line|]) == line
  {
    hide LineEnd, CString;
    var e := i + |line|;
    assert s[e - 1] == s[i..e][|line| - 1];
    forall k | i <= k < e - 1 ensures s[k] != '\n' { assert s[k] == s[i..e][k - i]; }
    LineEndIs(s, i, e);
    NoNul(line);
  }

  lemma NoNul(line: string)
    requires '\0' !in line
    ensures CString(line) == line
  {
    IndexOfUnique(line, '\0', 0, |line|);
  }

  lemma {:induction false} SizeLine(n: nat)
    requires n < ULONG_MAX
    ensures IsLine(Hex(n) + CRLF) && Strtoul(Hex(n) + CRLF) == Some(n)
  {
    hide Hex, Strtoul;
    StrtoulUndoesHex(n);
    var line := Hex(n) + CRLF;
    forall k | 0 <= k < |line| ensures (k < |line| - 1 ==> line[k] != '\n') && line[k] != '\0' {
      if k < |Hex(n)| {
        HexDigits(n, k);
        NulIsNoDigit();
      }
    }
  }

  lemma NulIsNoDigit()
    ensures DigitValue('\0').None?
  {
  }

  /** Reading one chunk. */
  lemma {:induction false} ChunkRead(s: string, i: nat, d: string, broken: bool, body: string)
    requires 0 < |d| < ULONG_MAX && Stands(s, i, ChunkText(d))
    ensures Chunks(s, broken, i, body) == Chunks(s, broken, i + |ChunkText(d)|, body + d)
  {
    hide Hex, Strtoul, LineEnd, HasLine, CString, Chunks, IsLine, Stands;
    var line := Hex(|d|) + CRLF;
    StandsSplit(s, i, line + d, CRLF);
    StandsSplit(s, i, line, d);
    SizeLine(|d|);
    LineAt(s, i, line, broken);
    CrlfIsLine();
    LineAt(s, i + |line + d|, CRLF, broken);
    StandsSlice(s, i + |line|, d);
    StandsSlice(s, i, line);
    StandsSlice(s, i + |line + d|, CRLF);
    ChunkStep(s, broken, i, body, |d|);
  }

  lemma CrlfIsLine()
    ensures IsLine(CRLF)
  {
  }

  lemma StandsSlice(s: string, i: nat, t: string)
    requires Stands(s, i, t)
    ensures i + |t| <= |s| && s[i..i + |t|] == t
  {
  }

  lemma ChunkStep(s: string, broken: bool, i: nat, body: string, len: nat)
    requires i <= |s| && HasLine(s, i, broken) && Strtoul(CString(s[i..LineEnd(s, i)])) == Some(len)
    requires 0 < len < ULONG_MAX && LineEnd(s, i) + len <= |s| && HasLine(s, LineEnd(s, i) + len, broken)
    requires var k := LineEnd(s, i) + len; CString(s[k..LineEnd(s, k)]) == CRLF
    ensures var j := LineEnd(s, i);
            Chunks(s, broken, i, body) == Chunks(s, broken, LineEnd(s, j + len), body + s[j..j + len])
  {
    hide Strtoul, LineEnd, HasLine, CString, Trailer;
  }

  /** Reading the end. */
  lemma {:induction false} DoneRead(s: string, i: nat, broken: bool, body: string)
    requires Stands(s, i, DONE)
    ensures Chunks(s, broken, i, body) == Result(true, body, i + |DONE|, [])
  {
    hide Strtoul, LineEnd, HasLine, CString, IsLine, Stands;
    var line := Hex(0) + CRLF;
    SizeLine(0);
    assert line == "0\r\n" && line + CRLF == DONE;
    StandsSplit(s, i, line, CRLF);
    LineAt(s, i, line, broken);
    CrlfIsLine();
    LineAt(s, i + |line|, CRLF, broken);
    StandsSlice(s, i + |line|, CRLF);
  }

  lemma {:induction false} WritesRead(s: string, i: nat, writes: seq<string>, n: nat, broken: bool, body: string)
    requires n <= |writes| && NonEmpty(writes) && Stands(s, i, WritesText(writes, n))
    ensures Chunks(s, broken, i, body) == Chunks(s, broken, i + |WritesText(writes, n)|, body + Payload(writes, n))
  {
    hide Chunks, ChunkText, Stands;
    if n > 0 {
      var d, before := writes[n - 1], WritesText(writes, n - 1);
      StandsSplit(s, i, before, ChunkText(d));
      WritesRead(s, i, writes, n - 1, broken, body);
      ChunkRead(s, i + |before|, d, broken, body + Payload(writes, n - 1));
      Associative(body, Payload(writes, n - 1), d);
    } else {
      assert body + "" == body;
    }
  }

  /** Turns that write no empty data, and do not call done. */
  ghost predicate Plain(turns: seq<Turn>, n: nat)
    requires n <= |turns|
  {
    forall i :: 0 <= i < n ==> NonEmpty(turns[i].writes) && !turns[i].done
  }

  lemma {:induction false} TurnsRead(s: string, i: nat, turns: seq<Turn>, n: nat, broken: bool, body: string)
    requires n <= |turns| && Plain(turns, n) && Stands(s, i, TurnsText(turns, n))
    ensures Chunks(s, broken, i, body) == Chunks(s, broken, i + |TurnsText(turns, n)|, body + Payloads(turns, n))
  {
    hide Chunks, WritesText, Payload, Stands;
    if n > 0 {
      var writes, before := turns[n - 1].writes, TurnsText(turns, n - 1);
      var text := WritesText(writes, |writes|);
      assert TurnText(turns[n - 1]) == text;
      StandsSplit(s, i, before, text);
      TurnsRead(s, i, turns, n - 1, broken, body);
      WritesRead(s, i + |before|, writes, |writes|, broken, body + Payloads(turns, n - 1));
      Associative(body, Payloads(turns, n - 1), Payload(writes, |writes|));
    } else {
      assert body + "" == body;
    }
  }

  /**
   * Reading what any run of non-empty writes followed by done put on the stream gives what was
   * written, and uses up just that, whatever comes before and after it.
   */
  lemma {:induction false} RoundTrip(pre: string, turns: seq<Turn>, rest: string, broken: bool)
    requires turns != [] && Plain(turns, |turns| - 1)
    requires NonEmpty(turns[|turns| - 1].writes) && turns[|turns| - 1].done
    ensures var text := TurnsText(turns, |turns|);
            Chunks(pre + text + rest, broken, |pre|, "")
            == Result(true, Payloads(turns, |turns|), |pre| + |text|, [])
  {
    hide Chunks, WritesText, Payload, Stands;
    var n, i := |turns| - 1, |pre|;
    var writes, before := turns[n].writes, TurnsText(turns, n);
    var text, all := WritesText(writes, |writes|), TurnsText(turns, |turns|);
    var s := pre + all + rest;
    StandsAfter(pre, all, rest);
    assert TurnText(turns[n]) == text + DONE;
    StandsSplit(s, i, before, text + DONE);
    StandsSplit(s, i + |before|, text, DONE);
    TurnsRead(s, i, turns, n, broken, "");
    WritesRead(s, i + |before|, writes, |writes|, broken, "" + Payloads(turns, n));
    DoneRead(s, i + |before| + |text|, broken, "" + Payloads(turns, n) + Payload(writes, |writes|));
    assert "" + Payloads(turns, n) + Payload(writes, |writes|) == Payloads(turns, |turns|);
  }
}
