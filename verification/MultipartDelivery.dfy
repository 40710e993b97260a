/**
 * Which ways of cutting a serialized multipart body into chunks deliver its items, and which items
 * the others deliver.
 */
module MultipartDelivery {
  import opened MultipartHeader
  import opened MultipartLateStart
  import opened MultipartParser
  import opened MultipartRoundTrip
  import opened MultipartSerializer
  import opened MultipartStreaming
  import opened Search
  import opened Text

  /** The text of the items, cut into chunks. */
  predicate IsCut(items: seq<Item>, b: string, chunks: seq<string>) {
    Joined(chunks, |chunks|) == SerializedFrom(items, b, true, 0)
  }

  /**
   * The items arrive if and only if the first chunk that is not empty holds the first boundary
   * line, and no header line is too long in a call that measures it.
   */
  lemma DeliveredIff(items: seq<Item>, b: string, chunks: seq<string>, answer: Receiver)
    requires Accepts(answer) && Sendable(items, b) && IsCut(items, b, chunks)
    ensures Delivered(items, b, chunks, answer) <==> FirstLineWhole(chunks, b) && CallsPass(items, b, chunks, |chunks|)
  {
    hide Delivered, Sendable, FirstLineWhole, CallsPass, SerializedFrom;
    if FirstLineWhole(chunks, b) {
      DeliveredUnlessTooLong(items, b, chunks, answer);
    } else {
      LateStart(items, b, chunks, answer);
    }
  }

  // ---------------------------------------------------------------- the limit on header lines

  lemma TextLeft(items: seq<Item>, b: string, i: nat)
    requires i < |items|
    ensures |SerializedFrom(items, b, true, 0)| == |FirstLine(b)| + EntryLeft(items, b, 0)
    ensures TypeLeft(items, b, i) < EntryLeft(items, b, i) <= EntryLeft(items, b, 0)
  {
    hide Entry, FirstLine, SerializedFrom;
    SerializedIs(items, b);
    BlankLow(items, b, i);
    AheadLeft(items, b, 0, i);
    Lengths(items, b, 0);
  }

  lemma JoinedOne(text: string)
    ensures Joined([text], 0) == "" && Joined([text], 1) == text
  {
    assert Joined([text], 0) == "";
    assert "" + text == text;
  }

  /** In one piece, the items arrive if and only if no line that names an item is longer than the limit. */
  lemma WholeDelivered(items: seq<Item>, b: string, answer: Receiver)
    requires Accepts(answer) && Sendable(items, b)
    ensures Delivered(items, b, [SerializedFrom(items, b, true, 0)], answer) <==>
            forall i :: 0 <= i < |items| ==> |DispositionLine(items[i])| <= HEADER_MAX_LENGTH
  {
    hide Delivered, Sendable, SerializedFrom, FirstLine, DispositionLine, TypeLine, EntryLeft, TypeLeft, BlankLeft;
    var text := SerializedFrom(items, b, true, 0);
    JoinedOne(text);
    SendableSome(items, b);
    TextLeft(items, b, 0);
    DeliveredIff(items, b, [text], answer);
    OneCall(items, b, text);
    forall i | 0 <= i < |items|
      ensures LinesPass(items, b, i, |text|, 0) <==> |DispositionLine(items[i])| <= HEADER_MAX_LENGTH
    {
      TextLeft(items, b, i);
      Lengths(items, b, i);
    }
  }

  lemma OneCall(items: seq<Item>, b: string, text: string)
    requires text == SerializedFrom(items, b, true, 0)
    ensures CallsPass(items, b, [text], 1) <==> CallPasses(items, b, |text|, 0)
  {
    hide CallPasses, Joined, SerializedFrom;
    JoinedOne(text);
    assert Remaining(items, b, [text], 0) == |text| && Remaining(items, b, [text], 1) == 0;
  }

  /** `text` in three pieces, the second one just longer than the limit. */
  function CutAt(text: string, at: nat): seq<string>
    requires at + HEADER_MAX_LENGTH + 1 <= |text|
  {
    [text[..at], text[at..at + HEADER_MAX_LENGTH + 1], text[at + HEADER_MAX_LENGTH + 1..]]
  }

  lemma CutAtIs(text: string, at: nat)
    requires at + HEADER_MAX_LENGTH + 1 <= |text|
    ensures var chunks := CutAt(text, at);
            && Joined(chunks, 0) == "" && Joined(chunks, 1) == text[..at]
            && Joined(chunks, 2) == text[..at + HEADER_MAX_LENGTH + 1] && Joined(chunks, 3) == text
  {
    var chunks, to := CutAt(text, at), at + HEADER_MAX_LENGTH + 1;
    assert Joined(chunks, 1) == "" + text[..at] == text[..at];
    assert Joined(chunks, 2) == text[..at] + text[at..to] == text[..to];
    assert Joined(chunks, 3) == text[..to] + text[to..] == text;
  }

  /** A cut that ends a chunk inside a header line of at least 8192 characters, 8193 after its start. */
  lemma LongLineCut(items: seq<Item>, b: string, i: nat, named: bool, answer: Receiver) returns (chunks: seq<string>)
    requires Accepts(answer) && Sendable(items, b) && i < |items|
    requires |if named then DispositionLine(items[i]) else TypeLine(items[i])| >= HEADER_MAX_LENGTH
    requires named || items[i].contentType != ""
    ensures var left := if named then EntryLeft(items, b, i) else TypeLeft(items, b, i);
            |chunks| == 3 && |chunks[1] + chunks[2]| == left && |chunks[1]| == HEADER_MAX_LENGTH + 1
    ensures IsCut(items, b, chunks) && FirstLineWhole(chunks, b) && !Delivered(items, b, chunks, answer)
  {
    hide Delivered, Sendable, SerializedFrom, FirstLine, DispositionLine, TypeLine, EntryLeft, TypeLeft, BlankLeft;
    hide CallPasses, Joined, CutAt;
    var text := SerializedFrom(items, b, true, 0);
    var left := if named then EntryLeft(items, b, i) else TypeLeft(items, b, i);
    TextLeft(items, b, i);
    Lengths(items, b, i);
    chunks := CutAt(text, |text| - left);
    CutAtIs(text, |text| - left);
    CutKeepsFirstLine(text, |text| - left, b);
    assert !LinesPass(items, b, i, left, left - HEADER_MAX_LENGTH - 1);
    NotPassed(items, b, i, left, left - HEADER_MAX_LENGTH - 1);
    assert Remaining(items, b, chunks, 1) == left && Remaining(items, b, chunks, 2) == left - HEADER_MAX_LENGTH - 1;
    DeliveredIff(items, b, chunks, answer);
  }

  lemma NotPassed(items: seq<Item>, b: string, i: nat, before: int, after: int)
    requires i < |items| && !LinesPass(items, b, i, before, after)
    ensures !CallPasses(items, b, before, after)
  {
    hide LinesPass;
  }

  lemma CutKeepsFirstLine(text: string, at: nat, b: string)
    requires |FirstLine(b)| <= at && at + HEADER_MAX_LENGTH + 1 <= |text|
    ensures var chunks := CutAt(text, at);
            && |chunks| == 3 && FirstLineWhole(chunks, b)
            && |chunks[1]| == HEADER_MAX_LENGTH + 1 && |chunks[1] + chunks[2]| == |text| - at
  {
    CutAtIs(text, at);
  }

  /**
   * Every way of cutting after the first line delivers the items, if and only if every header line
   * is shorter than 8192.
   */
  lemma EveryCutDelivers(items: seq<Item>, b: string, answer: Receiver)
    requires Accepts(answer) && Sendable(items, b)
    ensures (forall chunks :: IsCut(items, b, chunks) && FirstLineWhole(chunks, b) ==>
               Delivered(items, b, chunks, answer)) <==> ShortLines(items)
  {
    hide Delivered, Sendable, IsCut, FirstLineWhole, DispositionLine, TypeLine;
    if ShortLines(items) {
      forall chunks | IsCut(items, b, chunks) && FirstLineWhole(chunks, b)
        ensures Delivered(items, b, chunks, answer)
      {
        assert Joined(chunks, |chunks|) == SerializedFrom(items, b, true, 0) by { CutMeans(items, b, chunks); }
        RoundTrip(items, b, chunks, answer);
      }
    } else {
      var i :| 0 <= i < |items| && !(&& |DispositionLine(items[i])| < HEADER_MAX_LENGTH
                                     && (items[i].contentType != "" ==> |TypeLine(items[i])| < HEADER_MAX_LENGTH));
      var chunks := LongLineCut(items, b, i, |DispositionLine(items[i])| >= HEADER_MAX_LENGTH, answer);
      assert IsCut(items, b, chunks) && FirstLineWhole(chunks, b) && !Delivered(items, b, chunks, answer);
    }
  }

  lemma CutMeans(items: seq<Item>, b: string, chunks: seq<string>)
    requires IsCut(items, b, chunks)
    ensures Joined(chunks, |chunks|) == SerializedFrom(items, b, true, 0)
  {
  }

  // ---------------------------------------------------------------- a first line that is cut

  /** Where the boundary line of item `k` begins. */
  function LineAt(items: seq<Item>, b: string, k: nat): int
    requires k <= |items|
  {
    |SerializedFrom(items, b, true, 0)| - |SerializedFrom(items, b, true, k)|
  }

  /** One chunk holds it whole. */
  ghost predicate LineInChunk(items: seq<Item>, b: string, chunks: seq<string>, k: nat)
    requires k < |items|
  {
    exists c :: HoldsLine(items, b, chunks, k, c)
  }

  ghost predicate HoldsLine(items: seq<Item>, b: string, chunks: seq<string>, k: nat, c: nat)
    requires k < |items|
  {
    && c < |chunks| && |Joined(chunks, c)| <= LineAt(items, b, k)
    && LineAt(items, b, k) + |FirstLine(b)| <= |Joined(chunks, c + 1)|
  }

  /** The boundary line occurs only where it was written. */
  ghost predicate OnlyAtItems(items: seq<Item>, b: string) {
    forall at :: OccursAt(SerializedFrom(items, b, true, 0), FirstLine(b), at) ==>
      exists k :: 0 <= k < |items| && at == LineAt(items, b, k)
  }

  function ItemText(item: Item, b: string): string {
    FirstLine(b) + HeaderText(item) + (item.content + CRLF)
  }

  lemma ItemFirst(items: seq<Item>, b: string, k: nat)
    requires k < |items|
    ensures SerializedFrom(items, b, true, k) == ItemText(items[k], b) + SerializedFrom(items, b, true, k + 1)
    ensures FirstLine(b) <= SerializedFrom(items, b, true, k) && |ItemText(items[k], b)| > 0
  {
    hide HeaderText, FirstLine;
  }

  /** The text ends with what is written from item `k` on, and that begins with its boundary line. */
  lemma {:induction false} SerializedEnds(items: seq<Item>, b: string, k: nat)
    requires k <= |items|
    ensures LineAt(items, b, k) >= 0
    ensures SerializedFrom(items, b, true, 0)[LineAt(items, b, k)..] == SerializedFrom(items, b, true, k)
    ensures k < |items| ==> OccursAt(SerializedFrom(items, b, true, 0), FirstLine(b), LineAt(items, b, k))
  {
    hide SerializedFrom, ItemText, FirstLine;
    var s := SerializedFrom(items, b, true, 0);
    if k > 0 {
      SerializedEnds(items, b, k - 1);
      ItemFirst(items, b, k - 1);
      var at, n := LineAt(items, b, k - 1), |ItemText(items[k - 1], b)|;
      assert s[at + n..] == s[at..][n..] == SerializedFrom(items, b, true, k);
    }
    if k < |items| {
      ItemFirst(items, b, k);
      assert s[LineAt(items, b, k)..][..|FirstLine(b)|] == FirstLine(b);
    }
  }

  lemma {:induction false} LinesAscend(items: seq<Item>, b: string, j: nat, k: nat)
    requires j <= k <= |items|
    ensures LineAt(items, b, j) <= LineAt(items, b, k)
  {
    hide SerializedFrom, ItemText;
    if j < k {
      LinesAscend(items, b, j, k - 1);
      ItemFirst(items, b, k - 1);
    }
  }

  lemma {:induction false} SerializedShift(items: seq<Item>, b: string, k: nat, i: nat)
    requires k + i <= |items|
    ensures SerializedFrom(items[k..], b, true, i) == SerializedFrom(items, b, true, k + i)
    decreases |items| - i
  {
    hide SerializedFrom, ItemText;
    if k + i < |items| {
      SerializedShift(items, b, k, i + 1);
      ItemFirst(items, b, k + i);
      ItemFirst(items[k..], b, i);
    } else {
      LastShift(items, b, k, i);
    }
  }

  lemma LastShift(items: seq<Item>, b: string, k: nat, i: nat)
    requires k + i == |items|
    ensures SerializedFrom(items[k..], b, true, i) == SerializedFrom(items, b, true, k + i)
  {
  }

  /** A boundary line inside a chunk is that of an item. */
  lemma LineFound(items: seq<Item>, b: string, chunks: seq<string>, c: nat, at: nat) returns (k: nat)
    requires IsCut(items, b, chunks) && OnlyAtItems(items, b) && c < |chunks| && OccursAt(chunks[c], FirstLine(b), at)
    ensures k < |items| && HoldsLine(items, b, chunks, k, c) && LineAt(items, b, k) == |Joined(chunks, c)| + at
  {
    hide SerializedFrom, FirstLine;
    var text, line, n := SerializedFrom(items, b, true, 0), FirstLine(b), |Joined(chunks, c)|;
    var rest := JoinedPrefix(chunks, c + 1, |chunks|);
    assert text == Joined(chunks, c) + (chunks[c] + rest);
    assert text[n + at..n + at + |line|] == chunks[c][at..at + |line|];
    assert OccursAt(text, line, n + at);
    k :| 0 <= k < |items| && n + at == LineAt(items, b, k);
  }

  lemma {:induction false} JoinedPrefix(chunks: seq<string>, i: nat, n: nat) returns (rest: string)
    requires i <= n <= |chunks|
    ensures Joined(chunks, n) == Joined(chunks, i) + rest
  {
    rest := "";
    if i < n {
      rest := JoinedPrefix(chunks, i, n - 1);
      assert Joined(chunks, i) + rest + chunks[n - 1] == Joined(chunks, i) + (rest + chunks[n - 1]);
      rest := rest + chunks[n - 1];
    }
  }

  /** Chunks without a whole boundary line are dropped. */
  lemma {:induction false} AllDropped(items: seq<Item>, b: string, chunks: seq<string>, n: nat, answer: Receiver)
    requires n <= |chunks| && IsCut(items, b, chunks) && OnlyAtItems(items, b)
    requires forall k, c :: 0 <= k < |items| && 0 <= c < n ==> !HoldsLine(items, b, chunks, k, c)
    ensures Feed(b, NEW_PARSER, chunks, n, answer, []) == Return(true, NEW_PARSER, [])
  {
    hide Parsed, HoldsLine, IsCut, OnlyAtItems, FindFrom;
    if n > 0 {
      AllDropped(items, b, chunks, n - 1, answer);
      var at := Find(chunks[n - 1], FirstLine(b));
      if at < |chunks[n - 1]| {
        var k := LineFound(items, b, chunks, n - 1, at);
      }
      Dropped(b, chunks[n - 1], answer);
    }
  }

  lemma FromLine(b: string, data: string, answer: Receiver)
    requires Find(data, FirstLine(b)) < |data|
    ensures Parsed(b, NEW_PARSER, data, answer, [])
         == Parsed(b, NEW_PARSER, data[Find(data, FirstLine(b))..], answer, [])
  {
    hide FindFrom, Parsed, FirstLine;
    var at, line := Find(data, FirstLine(b)), FirstLine(b);
    var head := data[at..];
    assert line <= head && line != "" by { assert data[at..at + |line|] == head[..|line|]; LineHasDashes(b); }
    AtFront(head, line);
    assert head[|line|..] == data[at + |line|..];
    Skipped(b, data, answer);
    Skipped(b, head, answer);
  }

  lemma LineHasDashes(b: string)
    ensures FirstLine(b) != ""
  {
  }

  /** The chunks from `c` on, without the first `off` characters. */
  function FromChunk(chunks: seq<string>, c: nat, off: nat): seq<string>
    requires c < |chunks| && off <= |chunks[c]|
  {
    [chunks[c][off..]] + chunks[c + 1..]
  }

  lemma {:induction false} FeedFrom(b: string, chunks: seq<string>, c: nat, off: nat, m: nat, answer: Receiver)
    requires c + 1 + m <= |chunks| && off <= |chunks[c]|
    requires Feed(b, NEW_PARSER, chunks, c, answer, []) == Return(true, NEW_PARSER, [])
    requires Parsed(b, NEW_PARSER, chunks[c], answer, []) == Parsed(b, NEW_PARSER, chunks[c][off..], answer, [])
    ensures Feed(b, NEW_PARSER, chunks, c + 1 + m, answer, [])
         == Feed(b, NEW_PARSER, FromChunk(chunks, c, off), m + 1, answer, [])
  {
    hide Parsed;
    var rest := FromChunk(chunks, c, off);
    if m > 0 {
      FeedFrom(b, chunks, c, off, m - 1, answer);
      assert rest[m] == chunks[c + m];
    } else {
      assert Feed(b, NEW_PARSER, rest, 0, answer, []) == Return(true, NEW_PARSER, []);
    }
  }

  lemma {:induction false} JoinedFrom(chunks: seq<string>, c: nat, off: nat, m: nat)
    requires c + 1 + m <= |chunks| && off <= |chunks[c]|
    ensures Joined(chunks, c + 1 + m) == Joined(chunks, c) + chunks[c][..off] + Joined(FromChunk(chunks, c, off), m + 1)
  {
    var rest, front := FromChunk(chunks, c, off), Joined(chunks, c) + chunks[c][..off];
    if m > 0 {
      JoinedFrom(chunks, c, off, m - 1);
      assert rest[m] == chunks[c + m];
      Associative(front, Joined(rest, m), rest[m]);
    } else {
      assert Joined(rest, 0) == "" && Joined(rest, 1) == chunks[c][off..];
      assert chunks[c] == chunks[c][..off] + chunks[c][off..];
      Associative(Joined(chunks, c), chunks[c][..off], chunks[c][off..]);
    }
  }

  /** The items from `k` on are sent like any others. */
  lemma SendableFrom(items: seq<Item>, b: string, k: nat)
    requires k < |items| && Sendable(items, b) && ShortLines(items)
    ensures Sendable(items[k..], b) && ShortLines(items[k..])
  {
    hide Fits, DispositionLine, TypeLine;
  }

  /** A boundary line inside a text occurs in it. */
  lemma Inside(before: string, data: string, after: string, line: string, at: nat)
    requires OccursAt(before + (data + after), line, at) && |before| <= at && at + |line| <= |before| + |data|
    ensures OccursAt(data, line, at - |before|)
  {
    var i := at - |before|;
    assert (before + (data + after))[at..at + |line|] == data[i..i + |line|];
  }

  lemma Held(items: seq<Item>, b: string, chunks: seq<string>, k: nat, c: nat)
    requires k < |items| && HoldsLine(items, b, chunks, k, c)
    ensures LineInChunk(items, b, chunks, k)
  {
  }

  /** Before the chunk of the first boundary line that is whole, there is none. */
  lemma NoneEarlier(items: seq<Item>, b: string, chunks: seq<string>, k: nat, c: nat, j: nat, d: nat)
    requires k < |items| && HoldsLine(items, b, chunks, k, c) && j < |items| && d < c
    requires j < k ==> !LineInChunk(items, b, chunks, j)
    ensures !HoldsLine(items, b, chunks, j, d)
  {
    hide LineAt, Joined, FirstLine, LineInChunk;
    LineHasDashes(b);
    JoinedGrows(chunks, d + 1, c);
    if j >= k { LinesAscend(items, b, k, j); }
    if HoldsLine(items, b, chunks, j, d) { Held(items, b, chunks, j, d); }
  }

  /** In that chunk, it is the first one. */
  lemma NoneBeforeIt(items: seq<Item>, b: string, chunks: seq<string>, k: nat, c: nat, t: nat)
    requires IsCut(items, b, chunks) && OnlyAtItems(items, b) && k < |items| && c < |chunks|
    requires |Joined(chunks, c)| + t < LineAt(items, b, k)
    requires forall j :: 0 <= j < k ==> !LineInChunk(items, b, chunks, j)
    ensures !OccursAt(chunks[c], FirstLine(b), t)
  {
    hide SerializedFrom, IsCut, OnlyAtItems, FirstLine, HoldsLine, LineAt;
    if OccursAt(chunks[c], FirstLine(b), t) {
      var j := LineFound(items, b, chunks, c, t);
      if j >= k { LinesAscend(items, b, k, j); }
      Held(items, b, chunks, j, c);
    }
  }

  lemma LineIsInChunk(items: seq<Item>, b: string, chunks: seq<string>, k: nat, c: nat)
    requires IsCut(items, b, chunks) && k < |items| && HoldsLine(items, b, chunks, k, c)
    ensures OccursAt(chunks[c], FirstLine(b), LineAt(items, b, k) - |Joined(chunks, c)|)
  {
    hide SerializedFrom, FirstLine;
    SerializedEnds(items, b, k);
    var rest := JoinedPrefix(chunks, c + 1, |chunks|);
    assert Joined(chunks, |chunks|) == Joined(chunks, c) + (chunks[c] + rest);
    Inside(Joined(chunks, c), chunks[c], rest, FirstLine(b), LineAt(items, b, k));
  }

  lemma FoundFirst(items: seq<Item>, b: string, chunks: seq<string>, k: nat, c: nat)
    requires IsCut(items, b, chunks) && OnlyAtItems(items, b) && k < |items| && HoldsLine(items, b, chunks, k, c)
    requires forall j :: 0 <= j < k ==> !LineInChunk(items, b, chunks, j)
    ensures Find(chunks[c], FirstLine(b)) == LineAt(items, b, k) - |Joined(chunks, c)| < |chunks[c]|
  {
    hide SerializedFrom, IsCut, OnlyAtItems, FindFrom, FirstLine, LineInChunk, LineAt;
    var at := LineAt(items, b, k) - |Joined(chunks, c)|;
    LineIsInChunk(items, b, chunks, k, c);
    LineHasDashes(b);
    forall t | 0 <= t < at ensures !OccursAt(chunks[c], FirstLine(b), t) {
      NoneBeforeIt(items, b, chunks, k, c, t);
    }
    FindIs(chunks[c], FirstLine(b), at);
  }

  /**
   * When the boundary line occurs only where it was written, exactly the items from the first one
   * on whose boundary line lies whole in one chunk arrive; if there is none, nothing does.
   */
  lemma TailDelivered(items: seq<Item>, b: string, chunks: seq<string>, k: nat, answer: Receiver)
    requires Accepts(answer) && Sendable(items, b) && ShortLines(items) && IsCut(items, b, chunks)
    requires OnlyAtItems(items, b) && k <= |items|
    requires forall j :: 0 <= j < k ==> !LineInChunk(items, b, chunks, j)
    requires k < |items| ==> LineInChunk(items, b, chunks, k)
    ensures var o := Feed(b, NEW_PARSER, chunks, |chunks|, answer, []);
            o.ok && ItemsOf(o.events) == items[k..] && (o.p.valid <==> k < |items|)
  {
    hide Feed, IsCut, OnlyAtItems, HoldsLine, ItemsOf, Sendable, ShortLines;
    if k == |items| {
      forall j, c | 0 <= j < |items| && 0 <= c < |chunks| ensures !HoldsLine(items, b, chunks, j, c) {
        assert !LineInChunk(items, b, chunks, j);
      }
      AllDropped(items, b, chunks, |chunks|, answer);
      NothingReceived(items);
    } else {
      var c :| HoldsLine(items, b, chunks, k, c);
      FromItem(items, b, chunks, k, c, answer);
    }
  }

  lemma FromItem(items: seq<Item>, b: string, chunks: seq<string>, k: nat, c: nat, answer: Receiver)
    requires Accepts(answer) && Sendable(items, b) && ShortLines(items) && IsCut(items, b, chunks)
    requires OnlyAtItems(items, b) && k < |items| && HoldsLine(items, b, chunks, k, c)
    requires forall j :: 0 <= j < k ==> !LineInChunk(items, b, chunks, j)
    ensures var o := Feed(b, NEW_PARSER, chunks, |chunks|, answer, []);
            o.ok && o.p.valid && ItemsOf(o.events) == items[k..]
  {
    hide Feed, Joined, SerializedFrom, OnlyAtItems, ItemsOf, Sendable, ShortLines, Find, FirstLine, LineInChunk, Parsed;
    FoundFirst(items, b, chunks, k, c);
    forall j, d | 0 <= j < |items| && 0 <= d < c ensures !HoldsLine(items, b, chunks, j, d) {
      NoneEarlier(items, b, chunks, k, c, j, d);
    }
    var off := Find(chunks[c], FirstLine(b));
    AllDropped(items, b, chunks, c, answer);
    FromLine(b, chunks[c], answer);
    var m := |chunks| - c - 1;
    FeedFrom(b, chunks, c, off, m, answer);
    JoinedFrom(chunks, c, off, m);
    var rest := FromChunk(chunks, c, off);
    SerializedEnds(items, b, k);
    SerializedShift(items, b, k, 0);
    var text := SerializedFrom(items, b, true, 0);
    assert Joined(rest, |rest|) == text[LineAt(items, b, k)..];
    SendableFrom(items, b, k);
    RestWhole(items, b, chunks, k, c, off);
    RoundTrip(items[k..], b, rest, answer);
  }

  lemma RestWhole(items: seq<Item>, b: string, chunks: seq<string>, k: nat, c: nat, off: nat)
    requires k < |items| && HoldsLine(items, b, chunks, k, c) && off == LineAt(items, b, k) - |Joined(chunks, c)|
    requires off <= |chunks[c]|
    ensures FirstLineWhole(FromChunk(chunks, c, off), b)
  {
    hide SerializedFrom, FirstLine;
    var rest := FromChunk(chunks, c, off);
    LineHasDashes(b);
    assert Joined(rest, 0) == "" && Joined(rest, 1) == rest[0];
    forall i | 0 < i <= |rest| ensures Joined(rest, i) != "" {
      JoinedGrows(rest, 1, i);
    }
  }
}
