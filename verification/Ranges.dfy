/**
 * Byte ranges in file_server/httplib.h: range_error, which normalizes the ranges of a request in
 * place and rejects those that RFC 9110, section 14.2, allows to reject, and the multipart body
 * that is made of the accepted ones.
 */
module Ranges {
  import Text

  /** First and last position; -1 stands for a missing one. */
  type Range = (int, int)

  const RANGE_MAX_COUNT := 1024

  /** A range as range_error rewrites it, for content of length `len`. */
  function Normalized(r: Range, len: int): Range {
    var (first, last) := if r == (-1, -1) then (0, len) else r;
    var (first', last') := if first == -1 then (len - last, len - 1) else (first, last);
    (first', if last' == -1 then len - 1 else last')
  }

  function AllNormalized(rs: seq<Range>, len: int): (n: seq<Range>)
    ensures |n| == |rs| && forall i :: 0 <= i < |rs| ==> n[i] == Normalized(rs[i], len)
  {
    if rs == [] then [] else AllNormalized(rs[..|rs| - 1], len) + [Normalized(rs[|rs| - 1], len)]
  }

  // ---------------------------------------------------------------- which ranges are acceptable

  predicate Within(r: Range, len: int) {
    0 <= r.0 <= r.1 < len
  }

  /** The largest last position of the first `n` ranges, or -1. */
  function MaxLast(rs: seq<Range>, n: nat): int
    requires n <= |rs|
  {
    if n == 0 then -1 else if rs[n - 1].1 > MaxLast(rs, n - 1) then rs[n - 1].1 else MaxLast(rs, n - 1)
  }

  /** How many of the first `n` ranges start at or before a position that an earlier one reaches. */
  function Overlaps(rs: seq<Range>, n: nat): nat
    requires n <= |rs|
  {
    if n == 0 then 0 else Overlaps(rs, n - 1) + if rs[n - 1].0 <= MaxLast(rs, n - 1) then 1 else 0
  }

  /** What the first `n` normalized ranges must satisfy. */
  ghost predicate AcceptableUpTo(rs: seq<Range>, n: nat, len: int)
    requires n <= |rs|
  {
    && (forall i :: 0 <= i < n ==> Within(rs[i], len))
    && (forall i, j :: 0 <= i < j < n ==> rs[i].0 < rs[j].0)
    && Overlaps(rs, n) <= 2
  }

  /** Inside the content, in ascending order, and with at most two overlaps. */
  ghost predicate Acceptable(rs: seq<Range>, len: int) {
    |rs| <= RANGE_MAX_COUNT && AcceptableUpTo(rs, |rs|, len)
  }

  /** The ranges among the first `n` that start where an earlier one has not ended. */
  ghost function Overlapping(rs: seq<Range>, n: nat): set<int>
    requires n <= |rs|
  {
    set k | 0 <= k < n && Touched(rs, k)
  }

  ghost predicate Touched(rs: seq<Range>, k: int) {
    0 <= k < |rs| && exists i :: 0 <= i < k && rs[i].1 >= rs[k].0
  }

  /** Some range reaches a position exactly if the largest last position does. */
  lemma {:induction false} LastReaches(rs: seq<Range>, n: nat, x: int)
    requires n <= |rs| && 0 <= x
    ensures x <= MaxLast(rs, n) <==> exists i :: 0 <= i < n && rs[i].1 >= x
  {
    if n > 0 { LastReaches(rs, n - 1, x); }
  }

  lemma OneMoreTouched(rs: seq<Range>, n: nat)
    requires 0 < n <= |rs|
    ensures |Overlapping(rs, n)| == |Overlapping(rs, n - 1)| + if Touched(rs, n - 1) then 1 else 0
  {
    hide Touched;
    assert Overlapping(rs, n) == Overlapping(rs, n - 1) + if Touched(rs, n - 1) then {n - 1} else {};
  }

  lemma {:induction false} OverlapsCounts(rs: seq<Range>, n: nat)
    requires n <= |rs| && forall i :: 0 <= i < n ==> rs[i].0 >= 0
    ensures Overlaps(rs, n) == |Overlapping(rs, n)|
  {
    if n > 0 {
      OverlapsCounts(rs, n - 1);
      LastReaches(rs, n - 1, rs[n - 1].0);
      OneMoreTouched(rs, n);
    }
  }

  /** Acceptable are: not too many, inside the content, ascending, and at most two that overlap an earlier one. */
  lemma AcceptableIff(rs: seq<Range>, len: int)
    ensures Acceptable(rs, len) <==>
            && |rs| <= RANGE_MAX_COUNT && |Overlapping(rs, |rs|)| <= 2
            && (forall i :: 0 <= i < |rs| ==> 0 <= rs[i].0 <= rs[i].1 < len)
            && (forall i, j :: 0 <= i < j < |rs| ==> rs[i].0 < rs[j].0)
  {
    if forall i :: 0 <= i < |rs| ==> Within(rs[i], len) { OverlapsCounts(rs, |rs|); }
  }

  /** So ascending ranges that do not overlap are never refused, as many as there may be. */
  lemma DisjointAccepted(rs: seq<Range>, len: int)
    requires |rs| <= RANGE_MAX_COUNT && forall i :: 0 <= i < |rs| ==> 0 <= rs[i].0 <= rs[i].1 < len
    requires forall i, j :: 0 <= i < j < |rs| ==> rs[i].1 < rs[j].0
    ensures Acceptable(rs, len)
  {
    hide Acceptable;
    assert Overlapping(rs, |rs|) == {};
    AcceptableIff(rs, len);
  }

  // ---------------------------------------------------------------- range_error

  /** Where the loop stands after `n` ranges. */
  ghost predicate Checked(norm: seq<Range>, n: nat, len: int, prevFirst: int, prevLast: int, overlaps: nat) {
    && n <= |norm| && AcceptableUpTo(norm, n, len)
    && prevFirst == (if n == 0 then -1 else norm[n - 1].0)
    && prevLast == MaxLast(norm, n) && overlaps == Overlaps(norm, n)
  }

  lemma {:induction false} CheckNext(norm: seq<Range>, n: nat, len: int, prevFirst: int, prevLast: int, overlaps: nat)
    requires n < |norm| && Checked(norm, n, len, prevFirst, prevLast, overlaps)
    ensures var (first, last) := norm[n];
            var over := first <= prevLast;
            var good := Within(norm[n], len) && first > prevFirst && !(over && overlaps == 2);
            if good then
              Checked(norm, n + 1, len, first, if last > prevLast then last else prevLast,
                      if over then overlaps + 1 else overlaps)
            else !AcceptableUpTo(norm, |norm|, len)
  {
    var (first, last) := norm[n];
    var over := first <= prevLast;
    if Within(norm[n], len) {
      if first <= prevFirst {
        assert n > 0 && !(norm[n - 1].0 < norm[n].0);
      } else {
        forall i | 0 <= i < n ensures norm[i].0 < norm[n].0 {
          if i < n - 1 { assert norm[i].0 < norm[n - 1].0; }
        }
        if over && overlaps == 2 { OverlapsGrow(norm, n + 1, |norm|); }
      }
    }
  }

  lemma {:induction false} OverlapsGrow(rs: seq<Range>, m: nat, n: nat)
    requires m <= n <= |rs|
    ensures Overlaps(rs, m) <= Overlaps(rs, n)
  {
    if m < n { OverlapsGrow(rs, m, n - 1); }
  }

  /** The part of the loop that rewrites one range. */
  method Normalize(r: Range, len: int) returns (n: Range)
    ensures n == Normalized(r, len)
  {
    var (first, last) := r;
    if first == -1 && last == -1 { first, last := 0, len; }
    if first == -1 { first, last := len - last, len - 1; }
    if last == -1 { last := len - 1; }
    n := (first, last);
  }

  /** The first `n` ranges have been rewritten, the others not. */
  ghost predicate Rewritten(now: seq<Range>, before: seq<Range>, norm: seq<Range>, n: nat) {
    && |now| == |before| == |norm| && n <= |now|
    && (forall k :: 0 <= k < n ==> now[k] == norm[k])
    && (forall k :: n <= k < |now| ==> now[k] == before[k])
  }

  lemma RewriteNext(now: seq<Range>, before: seq<Range>, norm: seq<Range>, n: nat)
    requires Rewritten(now, before, norm, n) && n < |now|
    ensures now[n] == before[n] && Rewritten(now[n := norm[n]], before, norm, n + 1)
  {
  }

  lemma RewriteDone(now: seq<Range>, before: seq<Range>, norm: seq<Range>)
    requires Rewritten(now, before, norm, |norm|)
    ensures now == norm
  {
  }

  /**
   * range_error: true if the ranges are refused.  The ranges looked at are normalized in place,
   * all of them if none is refused.
   */
  method RangeError(ranges: array<Range>, status: int, contentLength: nat, bodySize: nat) returns (error: bool)
    modifies ranges
    ensures var len := if contentLength > 0 then contentLength else bodySize;
            var norm := AllNormalized(old(ranges[..]), len);
            if ranges.Length == 0 || !(200 <= status < 300) then !error && ranges[..] == old(ranges[..])
            else error == !Acceptable(norm, len) && (!error ==> ranges[..] == norm)
  {
    hide Normalized, Rewritten, AcceptableUpTo, MaxLast, Overlaps;
    if ranges.Length == 0 || !(200 <= status < 300) { return false; }
    var len := if contentLength > 0 then contentLength else bodySize;
    ghost var before := ranges[..];
    ghost var norm := AllNormalized(before, len);
    var prevFirst, prevLast: int, overlaps: nat := -1, -1, 0;
    if ranges.Length > RANGE_MAX_COUNT { return true; }
    StartChecks(before, norm, len);
    for i := 0 to ranges.Length
      invariant Checked(norm, i, len, prevFirst, prevLast, overlaps)
      invariant Rewritten(ranges[..], before, norm, i)
    {
      CheckNext(norm, i, len, prevFirst, prevLast, overlaps);
      RewriteNext(ranges[..], before, norm, i);
      var r := Normalize(ranges[i], len);
      var (first, last) := r;
      ranges[i] := (first, last);
      if !(0 <= first <= last <= len - 1) { return true; }
      if first <= prevFirst { return true; }
      if first <= prevLast {
        overlaps := overlaps + 1;
        if overlaps > 2 { return true; }
      }
      prevFirst := if first > prevFirst then first else prevFirst;
      prevLast := if last > prevLast then last else prevLast;
    }
    RewriteDone(ranges[..], before, norm);
    error := false;
  }

  lemma StartChecks(before: seq<Range>, norm: seq<Range>, len: int)
    requires |before| == |norm|
    ensures Checked(norm, 0, len, -1, -1, 0) && Rewritten(before, before, norm, 0)
  {
  }

  // ---------------------------------------------------------------- how much is served

  function Total(rs: seq<Range>, n: nat): int
    requires n <= |rs|
  {
    if n == 0 then 0 else Total(rs, n - 1) + rs[n - 1].1 - rs[n - 1].0 + 1
  }

  lemma {:induction false} TotalUpTo(rs: seq<Range>, n: nat, len: nat)
    requires n <= |rs| && forall i :: 0 <= i < n ==> Within(rs[i], len)
    ensures Total(rs, n) <= MaxLast(rs, n) + 1 + Overlaps(rs, n) * len && -1 <= MaxLast(rs, n) < len
    ensures Total(rs, n) >= 0
  {
    if n > 0 {
      TotalUpTo(rs, n - 1, len);
      assert Within(rs[n - 1], len);
      assert (Overlaps(rs, n - 1) + 1) * len == Overlaps(rs, n - 1) * len + len;
    } else {
      assert Overlaps(rs, 0) * len == 0;
    }
  }

  /** The accepted ranges together are at most three times the content. */
  lemma TotalBounded(rs: seq<Range>, len: nat)
    requires Acceptable(rs, len)
    ensures Total(rs, |rs|) <= 3 * len
  {
    TotalUpTo(rs, |rs|, len);
    assert Overlaps(rs, |rs|) * len <= 2 * len by { Times(Overlaps(rs, |rs|), 2, len); }
    if rs == [] { assert Total(rs, 0) == 0; }
  }

  lemma Times(a: nat, b: nat, len: nat)
    requires a <= b
    ensures a * len <= b * len
  {
    assert (b - a) * len >= 0;
  }

  // ---------------------------------------------------------------- the multipart body

  function Decimal(n: nat): string {
    (if n < 10 then "" else Decimal(n / 10)) + ["0123456789"[n % 10]]
  }

  /** get_range_offset_and_length, with its assertions. */
  function OffsetAndLength(r: Range, len: nat): (p: (nat, nat))
    requires r.0 != -1 && r.1 != -1 && 0 <= r.0 < len && r.0 <= r.1 < len
    ensures p.0 == r.0 && p.0 + p.1 == r.1 + 1 <= len
  {
    (r.0, r.1 - r.0 + 1)
  }

  function ContentRange(p: (nat, nat), len: nat): string
    requires p.1 > 0
  {
    "bytes " + Decimal(p.0) + "-" + Decimal(p.0 + p.1 - 1) + "/" + Decimal(len)
  }

  /** A call of one of the functions that process_multipart_ranges_data is given. */
  datatype Call = Token(text: string) | Content(offset: nat, length: nat)

  /** The part for one range. */
  function Part(r: Range, boundary: string, contentType: string, len: nat): seq<Call>
    requires Within(r, len)
  {
    var p := OffsetAndLength(r, len);
    [Token("--"), Token(boundary), Token("\r\n")]
    + (if contentType == "" then [] else [Token("Content-Type: "), Token(contentType), Token("\r\n")])
    + [Token("Content-Range: "), Token(ContentRange(p, len)), Token("\r\n"), Token("\r\n"),
       Content(p.0, p.1), Token("\r\n")]
  }

  ghost predicate AllWithin(ranges: seq<Range>, len: nat) {
    forall i :: 0 <= i < |ranges| ==> Within(ranges[i], len)
  }

  function Parts(ranges: seq<Range>, boundary: string, contentType: string, len: nat, n: nat): seq<Call>
    requires n <= |ranges| && forall i :: 0 <= i < |ranges| ==> Within(ranges[i], len)
  {
    if n == 0 then []
    else Parts(ranges, boundary, contentType, len, n - 1) + Part(ranges[n - 1], boundary, contentType, len)
  }

  /** The calls for all ranges, and the closing delimiter. */
  function Calls(ranges: seq<Range>, boundary: string, contentType: string, len: nat): seq<Call>
    requires forall i :: 0 <= i < |ranges| ==> Within(ranges[i], len)
  {
    Parts(ranges, boundary, contentType, len, |ranges|) + [Token("--"), Token(boundary), Token("--")]
  }

  /** The answer of the content function for one range. */
  ghost predicate Agrees(content: (nat, nat) -> bool, r: Range, len: nat) {
    Within(r, len) ==> content(OffsetAndLength(r, len).0, OffsetAndLength(r, len).1)
  }

  /** Where the content function refuses, what follows its call is missing. */
  ghost predicate StoppedAt(calls: seq<Call>, ranges: seq<Range>, boundary: string, contentType: string, len: nat,
                            content: (nat, nat) -> bool, n: nat) {
    && n < |ranges| && AllWithin(ranges, len) && !Agrees(content, ranges[n], len)
    && (forall k :: 0 <= k < n ==> Agrees(content, ranges[k], len))
    && calls + [Token("\r\n")] == Parts(ranges, boundary, contentType, len, n + 1)
  }

  /** process_multipart_ranges_data: the calls it makes, up to the first content refused. */
  method Process(ranges: seq<Range>, boundary: string, contentType: string, len: nat, content: (nat, nat) -> bool)
    returns (ok: bool, calls: seq<Call>)
    requires AllWithin(ranges, len)
    ensures ok <==> forall i :: 0 <= i < |ranges| ==> Agrees(content, ranges[i], len)
    ensures if ok then calls == Calls(ranges, boundary, contentType, len)
            else exists n :: StoppedAt(calls, ranges, boundary, contentType, len, content, n)
  {
    hide Part, StoppedAt;
    calls := [];
    for i := 0 to |ranges|
      invariant calls == Parts(ranges, boundary, contentType, len, i)
      invariant forall k :: 0 <= k < i ==> Agrees(content, ranges[k], len)
    {
      var part := [Token("--"), Token(boundary), Token("\r\n")];
      if contentType != "" { part := part + [Token("Content-Type: "), Token(contentType), Token("\r\n")]; }
      var p := OffsetAndLength(ranges[i], len);
      part := part + [Token("Content-Range: "), Token(ContentRange(p, len)), Token("\r\n"), Token("\r\n"),
                      Content(p.0, p.1)];
      PartIs(part + [Token("\r\n")], ranges[i], boundary, contentType, len);
      if !content(p.0, p.1) {
        Refused(calls, part, ranges, boundary, contentType, len, content, i);
        return false, calls + part;
      }
      calls := calls + (part + [Token("\r\n")]);
    }
    ok, calls := true, calls + [Token("--"), Token(boundary), Token("--")];
  }

  lemma Refused(calls: seq<Call>, part: seq<Call>, ranges: seq<Range>, boundary: string, contentType: string,
                len: nat, content: (nat, nat) -> bool, i: nat)
    requires AllWithin(ranges, len) && i < |ranges| && calls == Parts(ranges, boundary, contentType, len, i)
    requires part + [Token("\r\n")] == Part(ranges[i], boundary, contentType, len)
    requires !Agrees(content, ranges[i], len) && forall k :: 0 <= k < i ==> Agrees(content, ranges[k], len)
    ensures StoppedAt(calls + part, ranges, boundary, contentType, len, content, i)
  {
    hide Part;
    assert calls + part + [Token("\r\n")] == calls + (part + [Token("\r\n")]);
  }

  lemma PartIs(part: seq<Call>, r: Range, boundary: string, contentType: string, len: nat)
    requires Within(r, len)
    requires var p := OffsetAndLength(r, len);
             part == (if contentType != ""
                      then [Token("--"), Token(boundary), Token("\r\n")]
                           + [Token("Content-Type: "), Token(contentType), Token("\r\n")]
                      else [Token("--"), Token(boundary), Token("\r\n")])
                     + [Token("Content-Range: "), Token(ContentRange(p, len)), Token("\r\n"), Token("\r\n"),
                        Content(p.0, p.1)]
                     + [Token("\r\n")]
    ensures part == Part(r, boundary, contentType, len)
  {
  }

  /** What the functions of make_multipart_ranges_data append: a part of the body only where it is. */
  function DataOf(c: Call, body: string): string {
    match c
    case Token(t) => t
    case Content(o, l) => if o + l <= |body| then body[o..o + l] else ""
  }

  function Data(calls: seq<Call>, body: string, n: nat): string
    requires n <= |calls|
  {
    if n == 0 then "" else Data(calls, body, n - 1) + DataOf(calls[n - 1], body)
  }

  /** What those of get_multipart_ranges_data_length add up. */
  function SizeOf(c: Call): nat {
    match c case Token(t) => |t| case Content(_, l) => l
  }

  function Size(calls: seq<Call>, n: nat): nat
    requires n <= |calls|
  {
    if n == 0 then 0
    else Size(calls, n - 1) + SizeOf(calls[n - 1])
  }

  /** The content asked for by the first `n` calls. */
  function Served(calls: seq<Call>, n: nat): nat
    requires n <= |calls|
  {
    if n == 0 then 0 else Served(calls, n - 1) + if calls[n - 1].Content? then calls[n - 1].length else 0
  }

  ghost predicate Asserted(calls: seq<Call>, len: nat) {
    forall k :: 0 <= k < |calls| && calls[k].Content? ==> calls[k].offset + calls[k].length <= len
  }

  lemma {:induction false} PartsAsserted(ranges: seq<Range>, boundary: string, contentType: string, len: nat, n: nat)
    requires AllWithin(ranges, len) && n <= |ranges|
    ensures Asserted(Parts(ranges, boundary, contentType, len, n), len)
  {
    if n > 0 {
      PartsAsserted(ranges, boundary, contentType, len, n - 1);
      assert Asserted(Part(ranges[n - 1], boundary, contentType, len), len);
    }
  }

  function RangeText(first: string, last: string, len: string): string {
    "bytes " + first + "-" + last + "/" + len
  }

  function RangeLines(first: string, last: string, len: string, data: string): string {
    "Content-Range: " + RangeText(first, last, len) + "\r\n" + ("\r\n" + data + "\r\n")
  }

  /** The part of the body for one range: its header lines, an empty line, and the bytes. */
  function PartText(first: nat, last: nat, boundary: string, contentType: string, body: string): string
    requires first <= last < |body|
  {
    "--" + boundary + "\r\n"
    + (if contentType == "" then "" else "Content-Type: " + contentType + "\r\n")
    + RangeLines(Decimal(first), Decimal(last), Decimal(|body|), body[first..last + 1])
  }

  /** The parts for the first `n` ranges. */
  function PartsText(ranges: seq<Range>, boundary: string, contentType: string, body: string, n: nat): string
    requires AllWithin(ranges, |body|) && n <= |ranges|
  {
    if n == 0 then ""
    else
      PartsText(ranges, boundary, contentType, body, n - 1)
      + PartText(ranges[n - 1].0, ranges[n - 1].1, boundary, contentType, body)
  }

  /** make_multipart_ranges_data for content that is `body`; its assertion holds at every call. */
  method MakeData(ranges: seq<Range>, boundary: string, contentType: string, body: string) returns (data: string)
    requires AllWithin(ranges, |body|)
    ensures data == PartsText(ranges, boundary, contentType, body, |ranges|) + ("--" + boundary + "--")
  {
    hide Calls, Part, Data, PartsText;
    var ok, calls := Process(ranges, boundary, contentType, |body|, (o, l) => true);
    assert ok;
    DataStart(calls, body);
    CallsAsserted(ranges, boundary, contentType, |body|);
    data := "";
    for k := 0 to |calls|
      invariant data == Data(calls, body, k)
    {
      DataNext(calls, body, k);
      match calls[k]
      case Token(t) => data := data + t;
      case Content(o, l) =>
        assert o + l <= |body|;
        data := data + body[o..o + l];
    }
    DataIsText(ranges, boundary, contentType, body);
  }

  lemma {:induction false} DataSum(calls: seq<Call>, more: seq<Call>, body: string, n: nat)
    requires n <= |more|
    ensures Data(calls + more, body, |calls| + n) == Data(calls, body, |calls|) + Data(more, body, n)
  {
    hide DataOf, Data;
    if n == 0 {
      DataPrefix(calls, more, body, |calls|);
      DataStart(more, body);
    } else {
      DataSum(calls, more, body, n - 1);
      DataNext(calls + more, body, |calls| + n - 1);
      DataNext(more, body, n - 1);
      assert (calls + more)[|calls| + n - 1] == more[n - 1];
      Text.Associative(Data(calls, body, |calls|), Data(more, body, n - 1), DataOf(more[n - 1], body));
    }
  }

  lemma {:induction false} DataPrefix(calls: seq<Call>, more: seq<Call>, body: string, n: nat)
    requires n <= |calls|
    ensures Data(calls + more, body, n) == Data(calls, body, n)
  {
    hide DataOf;
    if n > 0 { DataPrefix(calls, more, body, n - 1); }
  }

  lemma DataOfThree(a: Call, b: Call, c: Call, body: string)
    ensures Data([a, b, c], body, 3) == DataOf(a, body) + DataOf(b, body) + DataOf(c, body)
  {
    hide DataOf;
    var calls := [a, b, c];
    assert Data(calls, body, 0) == "";
    assert Data(calls, body, 1) == "" + DataOf(a, body) == DataOf(a, body);
    assert Data(calls, body, 2) == DataOf(a, body) + DataOf(b, body);
  }

  /** The text of three groups of calls. */
  lemma DataOfGroups(a: seq<Call>, b: seq<Call>, c: seq<Call>, body: string)
    ensures Data(a + b + c, body, |a + b + c|) == Data(a, body, |a|) + Data(b, body, |b|) + Data(c, body, |c|)
  {
    hide Data;
    DataSum(a, b, body, |b|);
    DataSum(a + b, c, body, |c|);
  }

  function OpeningCalls(boundary: string): seq<Call> {
    [Token("--"), Token(boundary), Token("\r\n")]
  }

  function KindCalls(contentType: string): seq<Call> {
    if contentType == "" then [] else [Token("Content-Type: "), Token(contentType), Token("\r\n")]
  }

  function RangeCalls(p: (nat, nat), len: nat): seq<Call>
    requires p.1 > 0
  {
    [Token("Content-Range: "), Token(ContentRange(p, len)), Token("\r\n")]
  }

  function BytesCalls(p: (nat, nat)): seq<Call> {
    [Token("\r\n"), Content(p.0, p.1), Token("\r\n")]
  }

  lemma PartGroups(r: Range, boundary: string, contentType: string, len: nat)
    requires Within(r, len)
    ensures var p := OffsetAndLength(r, len);
            Part(r, boundary, contentType, len) ==
            OpeningCalls(boundary) + KindCalls(contentType) + (RangeCalls(p, len) + BytesCalls(p))
  {
    hide ContentRange;
  }

  lemma OpeningData(boundary: string, contentType: string, body: string)
    ensures Data(OpeningCalls(boundary), body, 3) == "--" + boundary + "\r\n"
    ensures Data(KindCalls(contentType), body, |KindCalls(contentType)|)
         == if contentType == "" then "" else "Content-Type: " + contentType + "\r\n"
  {
    hide Data;
    DataOfThree(Token("--"), Token(boundary), Token("\r\n"), body);
    if contentType == "" { DataStart([], body); }
    else { DataOfThree(Token("Content-Type: "), Token(contentType), Token("\r\n"), body); }
  }

  lemma GroupSizes(boundary: string, p: (nat, nat), len: nat)
    requires p.1 > 0
    ensures |OpeningCalls(boundary)| == |RangeCalls(p, len)| == |BytesCalls(p)| == 3
  {
  }

  lemma RangeData(p: (nat, nat), len: nat, body: string)
    requires p.1 > 0
    ensures Data(RangeCalls(p, len), body, 3) == "Content-Range: " + ContentRange(p, len) + "\r\n"
  {
    hide Data, ContentRange;
    DataOfThree(Token("Content-Range: "), Token(ContentRange(p, len)), Token("\r\n"), body);
  }

  lemma ContentData(p: (nat, nat), body: string)
    requires p.0 + p.1 <= |body|
    ensures Data(BytesCalls(p), body, 3) == "\r\n" + body[p.0..p.0 + p.1] + "\r\n"
  {
    hide Data;
    DataOfThree(Token("\r\n"), Content(p.0, p.1), Token("\r\n"), body);
  }

  lemma ContentRangeIs(r: Range, p: (nat, nat), len: nat)
    requires Within(r, len) && p == OffsetAndLength(r, len)
    ensures p.1 > 0 && ContentRange(p, len) == RangeText(Decimal(r.0), Decimal(r.1), Decimal(len))
  {
    hide Decimal;
    assert p.0 == r.0 && p.0 + p.1 - 1 == r.1;
  }

  lemma LinesData(r: Range, p: (nat, nat), body: string, line: string, bytes: string)
    requires Within(r, |body|) && p == OffsetAndLength(r, |body|)
    requires line == Data(RangeCalls(p, |body|), body, 3) && bytes == Data(BytesCalls(p), body, 3)
    ensures line + bytes == RangeLines(Decimal(r.0), Decimal(r.1), Decimal(|body|), body[p.0..p.0 + p.1])
  {
    hide Data, Decimal, DataOf, RangeCalls, BytesCalls, RangeText, ContentRange;
    ContentRangeIs(r, p, |body|);
    RangeData(p, |body|, body);
    ContentData(p, body);
  }

  lemma BytesData(r: Range, body: string)
    requires Within(r, |body|)
    ensures var p := OffsetAndLength(r, |body|);
            Data(RangeCalls(p, |body|) + BytesCalls(p), body, 6) ==
            RangeLines(Decimal(r.0), Decimal(r.1), Decimal(|body|), body[r.0..r.1 + 1])
  {
    hide Data, Decimal, DataOf, RangeCalls, BytesCalls, RangeLines, ContentRange;
    var p := OffsetAndLength(r, |body|);
    GroupSizes("", p, |body|);
    DataSum(RangeCalls(p, |body|), BytesCalls(p), body, 3);
    assert body[p.0..p.0 + p.1] == body[r.0..r.1 + 1];
    LinesData(r, p, body, Data(RangeCalls(p, |body|), body, 3), Data(BytesCalls(p), body, 3));
  }

  lemma PartData(r: Range, boundary: string, contentType: string, body: string)
    requires Within(r, |body|)
    ensures var part := Part(r, boundary, contentType, |body|);
            Data(part, body, |part|) == PartText(r.0, r.1, boundary, contentType, body)
  {
    hide Data, Decimal, Part, OffsetAndLength, RangeLines, OpeningCalls, KindCalls, RangeCalls, BytesCalls;
    var p := OffsetAndLength(r, |body|);
    PartGroups(r, boundary, contentType, |body|);
    DataOfGroups(OpeningCalls(boundary), KindCalls(contentType), RangeCalls(p, |body|) + BytesCalls(p), body);
    GroupSizes(boundary, p, |body|);
    OpeningData(boundary, contentType, body);
    BytesData(r, body);
  }

  lemma {:induction false} PartsData(ranges: seq<Range>, boundary: string, contentType: string, body: string, n: nat)
    requires AllWithin(ranges, |body|) && n <= |ranges|
    ensures var parts := Parts(ranges, boundary, contentType, |body|, n);
            Data(parts, body, |parts|) == PartsText(ranges, boundary, contentType, body, n)
  {
    hide Part, PartText, Data;
    if n == 0 {
      DataStart([], body);
    } else {
      PartsData(ranges, boundary, contentType, body, n - 1);
      var before := Parts(ranges, boundary, contentType, |body|, n - 1);
      var part := Part(ranges[n - 1], boundary, contentType, |body|);
      DataSum(before, part, body, |part|);
      PartData(ranges[n - 1], boundary, contentType, body);
    }
  }

  lemma DataIsText(ranges: seq<Range>, boundary: string, contentType: string, body: string)
    requires AllWithin(ranges, |body|)
    ensures var calls := Calls(ranges, boundary, contentType, |body|);
            Data(calls, body, |calls|) ==
            PartsText(ranges, boundary, contentType, body, |ranges|) + ("--" + boundary + "--")
  {
    hide Part, PartsText, Data;
    PartsData(ranges, boundary, contentType, body, |ranges|);
    var parts := Parts(ranges, boundary, contentType, |body|, |ranges|);
    DataSum(parts, [Token("--"), Token(boundary), Token("--")], body, 3);
    DataOfThree(Token("--"), Token(boundary), Token("--"), body);
  }

  lemma DataStart(calls: seq<Call>, body: string)
    ensures Data(calls, body, 0) == ""
  {
  }

  lemma DataNext(calls: seq<Call>, body: string, k: nat)
    requires k < |calls|
    ensures Data(calls, body, k + 1) == Data(calls, body, k) + DataOf(calls[k], body)
  {
    hide DataOf;
  }

  lemma CallsAsserted(ranges: seq<Range>, boundary: string, contentType: string, len: nat)
    requires AllWithin(ranges, len)
    ensures Asserted(Calls(ranges, boundary, contentType, len), len)
  {
    hide Part;
    PartsAsserted(ranges, boundary, contentType, len, |ranges|);
  }

  /** get_multipart_ranges_data_length */
  method DataLength(ranges: seq<Range>, boundary: string, contentType: string, len: nat) returns (n: nat)
    requires AllWithin(ranges, len)
    ensures var calls := Calls(ranges, boundary, contentType, len); n == Size(calls, |calls|)
  {
    hide Calls, Part;
    var ok, calls := Process(ranges, boundary, contentType, len, (o, l) => true);
    assert ok;
    n := 0;
    for k := 0 to |calls|
      invariant n == Size(calls, k)
    {
      match calls[k]
      case Token(t) => n := n + |t|;
      case Content(_, l) => n := n + l;
    }
  }

  lemma {:induction false} SizeOfData(calls: seq<Call>, body: string, n: nat)
    requires n <= |calls| && Asserted(calls, |body|)
    ensures |Data(calls, body, n)| == Size(calls, n)
  {
    hide DataOf, SizeOf;
    if n > 0 {
      SizeOfData(calls, body, n - 1);
      assert |DataOf(calls[n - 1], body)| == SizeOf(calls[n - 1]) by { SizeOfOne(calls[n - 1], body); }
    }
  }

  lemma SizeOfOne(c: Call, body: string)
    requires c.Content? ==> c.offset + c.length <= |body|
    ensures |DataOf(c, body)| == SizeOf(c)
  {
  }

  /** The length computed beforehand is the length of the body that is then made. */
  lemma LengthMatches(ranges: seq<Range>, boundary: string, contentType: string, body: string)
    requires AllWithin(ranges, |body|)
    ensures var calls := Calls(ranges, boundary, contentType, |body|);
            && |Data(calls, body, |calls|)| == Size(calls, |calls|)
            && |PartsText(ranges, boundary, contentType, body, |ranges|) + ("--" + boundary + "--")|
               == Size(calls, |calls|)
  {
    hide Calls, PartsText, Data, Size;
    DataIsText(ranges, boundary, contentType, body);
    CallsAsserted(ranges, boundary, contentType, |body|);
    SizeOfData(Calls(ranges, boundary, contentType, |body|), body, |Calls(ranges, boundary, contentType, |body|)|);
  }

  lemma {:induction false} ServedPrefix(calls: seq<Call>, more: seq<Call>, n: nat)
    requires n <= |calls|
    ensures Served(calls + more, n) == Served(calls, n)
  {
    if n > 0 { ServedPrefix(calls, more, n - 1); }
  }

  lemma {:induction false} ServedSum(calls: seq<Call>, more: seq<Call>, n: nat)
    requires n <= |more|
    ensures Served(calls + more, |calls| + n) == Served(calls, |calls|) + Served(more, n)
  {
    if n == 0 { ServedPrefix(calls, more, |calls|); } else { ServedSum(calls, more, n - 1); }
  }

  lemma {:induction false} NothingServed(calls: seq<Call>, n: nat)
    requires n <= |calls| && forall k :: 0 <= k < n ==> calls[k].Token?
    ensures Served(calls, n) == 0
  {
    if n > 0 { NothingServed(calls, n - 1); }
  }

  lemma PartServes(r: Range, boundary: string, contentType: string, len: nat)
    requires Within(r, len)
    ensures var part := Part(r, boundary, contentType, len); Served(part, |part|) == r.1 - r.0 + 1
  {
    var part := Part(r, boundary, contentType, len);
    NothingServed(part, |part| - 2);
    assert Served(part, |part| - 1) == Served(part, |part| - 2) + part[|part| - 2].length;
  }

  lemma {:induction false} PartsServe(ranges: seq<Range>, boundary: string, contentType: string, len: nat, n: nat)
    requires AllWithin(ranges, len) && n <= |ranges|
    ensures var parts := Parts(ranges, boundary, contentType, len, n); Served(parts, |parts|) == Total(ranges, n)
  {
    hide Part;
    if n > 0 {
      PartsServe(ranges, boundary, contentType, len, n - 1);
      PartServes(ranges[n - 1], boundary, contentType, len);
      var part := Part(ranges[n - 1], boundary, contentType, len);
      ServedSum(Parts(ranges, boundary, contentType, len, n - 1), part, |part|);
    }
  }

  /** What the multipart body of accepted ranges takes from the content is at most three times as long as that. */
  lemma ServedBounded(ranges: seq<Range>, boundary: string, contentType: string, len: nat)
    requires Acceptable(ranges, len)
    ensures AllWithin(ranges, len)
    ensures var calls := Calls(ranges, boundary, contentType, len);
            Served(calls, |calls|) == Total(ranges, |ranges|) <= 3 * len
  {
    TotalBounded(ranges, len);
    PartsServe(ranges, boundary, contentType, len, |ranges|);
    var end := [Token("--"), Token(boundary), Token("--")];
    NothingServed(end, 3);
    ServedSum(Parts(ranges, boundary, contentType, len, |ranges|), end, 3);
  }
}
