/**
 * What a multipart parser makes of a text whose first boundary line it has missed: it may find a
 * later occurrence of that line, in another item, a header or a content, but never catches up.
 */
module MultipartLateStart {
  import opened MultipartHeader
  import opened MultipartParser
  import opened MultipartRoundTrip
  import opened MultipartSerializer
  import opened MultipartStreaming
  import opened Search
  import opened Text

  /** `s` ends with `x`, and is longer. */
  ghost predicate Tail(x: string, s: string) {
    |x| < |s| && s[|s| - |x|..] == x
  }

  lemma TailOfTail(x: string, y: string, s: string)
    requires Tail(x + y, s)
    ensures Tail(y, s)
  {
    assert s[|s| - |x + y|..][|x|..] == y;
  }

  /** What was received is the beginning of the items. */
  ghost predicate SoFar(items: seq<Item>, got: seq<Item>) {
    |got| <= |items| && got == items[..|got|]
  }

  ghost predicate SameHeader(x: Item, y: Item) {
    x.name == y.name && x.filename == y.filename && x.contentType == y.contentType
  }

  /** The parser has come into the header of the first item behind a field that is not empty. */
  ghost predicate Missed(items: seq<Item>, b: string, file: FormData, got: seq<Item>, left: string) {
    && got == [] && items != []
    && var blank := CRLF + BodyText(items, b, 0, 0);
       var named := items[0].name != "" || items[0].filename != "";
       || (named && file.name == "" && file.filename == ""
           && (left == TypeText(items[0]) + BodyText(items, b, 0, 0) || left == blank))
       || (items[0].contentType != "" && file.contentType == "" && left == blank)
  }

  /** What is left between two contents: if all has been right so far, less than there should be. */
  ghost predicate Late(items: seq<Item>, b: string, got: seq<Item>, x: string) {
    SoFar(items, got) ==> |got| < |items| && Tail(x, BodyText(items, b, |got|, 0))
  }

  /** The same inside a content. */
  ghost predicate LateInBody(items: seq<Item>, b: string, got: seq<Item>, left: string) {
    && got != []
    && var k := |got| - 1;
       SoFar(items, got[..k]) && k < |items| && SameHeader(got[k], items[k]) ==>
         Tail(CRLF + CRLF + got[k].content + left, BodyText(items, b, k, 0))
  }

  /** What is so at every moment after a late start. */
  ghost predicate Behind(items: seq<Item>, b: string, p: Parser, events: seq<Event>, unfed: string) {
    var got, left := ItemsOf(events), p.buf + unfed;
    match p.state
    case FirstBoundary => false
    case NewEntry => Missed(items, b, NO_FILE, got, left) || Late(items, b, got, CRLF + left)
    case Headers => Missed(items, b, p.file, got, left) || Late(items, b, got, CRLF + left)
    case Body =>
      && got != [] && LateInBody(items, b, got, left)
      && (got[|got| - 1].content != "" ==> |p.buf| >= |Delimiter(b)|)
    case Boundary => Late(items, b, got, left)
  }

  /** Either nothing more will come, or the parser is still behind. */
  ghost predicate Lost(items: seq<Item>, b: string, o: Outcome, unfed: string) {
    (o.Return? && !o.ok) || Behind(items, b, o.p, o.events, unfed)
  }

  // ---------------------------------------------------------------- header lines

  lemma Line(buf: string, unfed: string, pos: nat)
    requires pos + 2 <= |buf| && buf[pos..pos + 2] == CRLF
    ensures CRLF + (buf + unfed) == CRLF + buf[..pos] + (CRLF + (buf[pos + 2..] + unfed))
  {
    assert buf == buf[..pos] + (CRLF + buf[pos + 2..]);
  }

  lemma LateLine(items: seq<Item>, b: string, got: seq<Item>, buf: string, unfed: string, pos: nat)
    requires pos + 2 <= |buf| && buf[pos..pos + 2] == CRLF && Late(items, b, got, CRLF + (buf + unfed))
    ensures Late(items, b, got, CRLF + (buf[pos + 2..] + unfed))
  {
    hide BodyText;
    if SoFar(items, got) {
      Line(buf, unfed, pos);
      TailOfTail(CRLF + buf[..pos], CRLF + (buf[pos + 2..] + unfed), BodyText(items, b, |got|, 0));
    }
  }

  /** The header is complete: its content begins. */
  lemma LateHeader(items: seq<Item>, b: string, p: Parser, events: seq<Event>, unfed: string)
    requires |p.buf| >= 2 && p.buf[..2] == CRLF && p.state == Headers
    requires Behind(items, b, p, events, unfed)
    ensures Behind(items, b, p.(buf := p.buf[2..], state := MultipartParser.Body), events + [Header(p.file)], unfed)
  {
    hide BodyText, ItemsOf;
    ItemsNext(events, Header(p.file));
    var got, now, left := ItemsOf(events), ItemsOf(events + [Header(p.file)]), p.buf[2..] + unfed;
    var k := |got|;
    assert now[..k] == got;
    if SoFar(items, got) && k < |items| && SameHeader(now[k], items[k]) {
      assert p.buf == CRLF + p.buf[2..];
      assert CRLF + (p.buf + unfed) == CRLF + CRLF + "" + left;
    }
  }

  /** Before the empty line, only the content type can still be read. */
  lemma MissedLine(items: seq<Item>, b: string, p: Parser, got: seq<Item>, unfed: string, file: FormData)
    requires Sendable(items, b) && Missed(items, b, p.file, got, p.buf + unfed)
    requires var pos := Find(p.buf, CRLF); 0 < pos < |p.buf| && ReadHeader(p.buf[..pos], p.file) == Accept(file)
    ensures Missed(items, b, file, got, p.buf[Find(p.buf, CRLF) + 2..] + unfed)
  {
    hide FindFrom, BodyText, ReadHeader, TypeLine, Clean;
    var body := BodyText(items, b, 0, 0);
    assert Fits(items[0], b);
    if p.buf + unfed == CRLF + body {
      assert "" + CRLF + body == CRLF + body;
      LineEnd(p.buf, unfed, "", body);
    } else {
      Associative(TypeLine(items[0]) + CRLF, CRLF, body);
      TypeOneLine(items[0]);
      LineEnd(p.buf, unfed, TypeLine(items[0]), CRLF + body);
      ReadType(items[0], p.file);
    }
  }

  lemma LineKeeps(items: seq<Item>, b: string, p: Parser, events: seq<Event>, unfed: string, file: FormData)
    requires Sendable(items, b) && p.state == Headers && Behind(items, b, p, events, unfed)
    requires var pos := Find(p.buf, CRLF); 0 < pos < |p.buf| && ReadHeader(p.buf[..pos], p.file) == Accept(file)
    ensures Behind(items, b, p.(buf := p.buf[Find(p.buf, CRLF) + 2..], file := file), events, unfed)
  {
    hide FindFrom, BodyText, ReadHeader, ItemsOf, Late, Missed, Sendable;
    var got := ItemsOf(events);
    if Missed(items, b, p.file, got, p.buf + unfed) {
      MissedLine(items, b, p, got, unfed, file);
    } else {
      LateLine(items, b, got, p.buf, unfed, Find(p.buf, CRLF));
    }
  }

  lemma {:induction false} LinesLost(items: seq<Item>, b: string, p: Parser, answer: Receiver, events: seq<Event>,
                                     unfed: string)
    requires Sendable(items, b) && p.state == Headers && Behind(items, b, p, events, unfed)
    ensures Lost(items, b, HeaderLines(p, answer, events), unfed)
    decreases |p.buf|
  {
    hide Sendable, Behind, ReadHeader, FindFrom;
    var pos := Find(p.buf, CRLF);
    if pos == |p.buf| {
      NoLine(p, answer, events);
    } else if pos == 0 {
      EmptyLine(p, answer, events);
      LateHeader(items, b, p, events, unfed);
    } else {
      match ReadHeader(p.buf[..pos], p.file)
      case Reject(file) => BadLine(p, answer, events, file);
      case Accept(file) =>
        NextLine(p, answer, events, file);
        LineKeeps(items, b, p, events, unfed, file);
        LinesLost(items, b, p.(buf := p.buf[pos + 2..], file := file), answer, events, unfed);
    }
  }

  // ---------------------------------------------------------------- the body

  /** More of a content has come. */
  lemma MoreContent(items: seq<Item>, events: seq<Event>, data: string)
    requires ItemsOf(events) != []
    ensures var got, now := ItemsOf(events), ItemsOf(events + [Content(data)]); var k := |got| - 1;
            && |now| == |got| && now[..k] == got[..k] && now[k] == got[k].(content := got[k].content + data)
  {
    hide ItemsOf;
    ItemsNext(events, Content(data));
  }

  lemma LateMore(items: seq<Item>, b: string, events: seq<Event>, data: string, rest: string)
    requires ItemsOf(events) != [] && LateInBody(items, b, ItemsOf(events), data + rest)
    ensures LateInBody(items, b, ItemsOf(events + [Content(data)]), rest)
  {
    hide BodyText, ItemsOf;
    MoreContent(items, events, data);
    var got := ItemsOf(events);
    Regroup4(CRLF + CRLF, got[|got| - 1].content, data, rest);
    assert CRLF + CRLF + (got[|got| - 1].content + data) + rest
        == CRLF + CRLF + got[|got| - 1].content + (data + rest);
  }

  // ---------------------------------------------------------------- where a boundary can stand

  /** Among the header lines, carriage returns only end lines, and no line begins with a dash. */
  lemma ReturnsIn(item: Item, q: nat)
    requires Clean(item) && q < |HeaderText(item)| && HeaderText(item)[q] == '\r'
    ensures var n := |HeaderText(item)|;
            && (q == |DispositionLine(item)| || q == n - 4 || q == n - 2)
            && |DispositionLine(item)| <= n - 4
            && (q < n - 2 ==> HeaderText(item)[q + 2] != '-')
            && HeaderText(item)[n - 4..] == CRLF + CRLF
  {
    var line, h := DispositionLine(item), HeaderText(item);
    LinesStart(item);
    assert h[|line|] == '\r' && h[|line| + 1] == '\n' && h[|line| + 2] == TypeText(item)[0];
    if item.contentType != "" && q >= |line| + 2 {
      assert h[q] == TypeText(item)[q - |line| - 2];
    }
  }

  lemma LinesStart(item: Item)
    requires Clean(item)
    ensures OneLine(DispositionLine(item)) && OneLine(TypeLine(item))
    ensures DispositionLine(item)[0] == TypeLine(item)[0] == 'C'
  {
    hide ParamText;
    DispositionIsHeader(item);
  }

  /** After a whole delimiter the next one ends in the next content. */
  lemma NextDelimiter(items: seq<Item>, b: string, i: nat, q: nat)
    requires i < |items| && Sendable(items, b)
    requires var z := Delimiter(b) + (CRLF + Entry(items, b, i));
             0 < q <= 2 + |HeaderText(items[i])| && q < |z| && z[q] == '\r'
    ensures var z := Delimiter(b) + (CRLF + Entry(items, b, i)); q + 2 < |z| && z[q + 2] != '-'
  {
    hide HeaderText, BodyText;
    var d, h := Delimiter(b), HeaderText(items[i]);
    var z := d + (CRLF + Entry(items, b, i));
    assert Fits(items[i], b);
    DelimiterStart(b);
    HeaderStart(items[i]);
    if q >= |d| + 2 {
      assert z[q] == h[q - |d| - 2];
      ReturnsIn(items[i], q - |d| - 2);
      assert z[q + 2] == h[q - |d|];
    }
  }

  lemma HeaderStart(item: Item)
    ensures |HeaderText(item)| >= 2 && HeaderText(item)[0] == 'C'
  {
    hide ParamText;
  }

  /** If the content ended late, the parser is in the next one, or there is none. */
  lemma LateDelimiter(items: seq<Item>, b: string, k: nat, y: string)
    requires Sendable(items, b) && k < |items|
    requires Tail(CRLF + CRLF + items[k].content + (Delimiter(b) + y), BodyText(items, b, k, 0))
    ensures k + 1 < |items| && Tail(y, BodyText(items, b, k + 1, 0))
  {
    hide Entry, HeaderText;
    var c, d, after := items[k].content, Delimiter(b), After(items, b, k + 1);
    assert c[0..] == c;
    assert BodyText(items, b, k, 0) == c + (d + after);
    TailOfTail(CRLF + CRLF + c, d + y, c + (d + after));
    assert |y| + 4 < |after|;
    TailInside(c, d + y, d + after);
    assert k + 1 < |items|;
    var q := |after| - |y|;
    assert (d + after)[q..] == d + y;
    assert (d + after)[q] == d[0] && (d + after)[q + 2] == d[2];
    if q <= 2 + |HeaderText(items[k + 1])| { NextDelimiter(items, b, k + 1, q); }
    EntrySize(items, b, k + 1);
    EntryEnds(items, b, k + 1, d, y);
  }

  lemma TailInside(c: string, x: string, s: string)
    requires Tail(x, c + s) && |x| < |s|
    ensures Tail(x, s)
  {
    assert (c + s)[|c| + |s| - |x|..] == s[|s| - |x|..];
  }

  lemma EntrySize(items: seq<Item>, b: string, i: nat)
    requires i < |items|
    ensures |Entry(items, b, i)| == |HeaderText(items[i])| + |BodyText(items, b, i, 0)|
  {
    hide HeaderText, BodyText;
  }

  lemma EntryEnds(items: seq<Item>, b: string, i: nat, d: string, y: string)
    requires i < |items| && Tail(d + y, d + (CRLF + Entry(items, b, i)))
    requires |y| < |BodyText(items, b, i, 0)|
    ensures Tail(y, BodyText(items, b, i, 0))
  {
    hide HeaderText, BodyText;
    var h, body := HeaderText(items[i]), BodyText(items, b, i, 0);
    TailOfTail(d, y, d + (CRLF + Entry(items, b, i)));
    assert d + (CRLF + Entry(items, b, i)) == (d + CRLF + h) + body;
    TailInside(d + CRLF + h, y, body);
  }

  // ---------------------------------------------------------------- where the parser starts

  /** The boundary line does not overlap itself. */
  lemma NoOverlap(b: string, rest: string, q: nat)
    requires '\r' !in b && 0 < q < |FirstLine(b)| && q <= |rest|
    ensures (FirstLine(b) + rest)[q..q + |FirstLine(b)|] != FirstLine(b)
  {
    var line := FirstLine(b);
    var here, r := (line + rest)[q..q + |line|], |line| - 2;
    if q <= r {
      assert here[r - q] == (line + rest)[r] == '\r' && line[r - q] != '\r';
    } else {
      assert here[0] == (line + rest)[q] == '\n' && line[0] == '-';
    }
  }

  /** No carriage return stands in a boundary line before its end. */
  lemma NoReturn(b: string, s: string, q: nat, t: nat)
    requires '\r' !in b && q <= t < q + |FirstLine(b)| - 2 && q + |FirstLine(b)| <= |s|
    requires s[q..q + |FirstLine(b)|] == FirstLine(b)
    ensures s[t] != '\r'
  {
    assert s[t] == FirstLine(b)[t - q];
  }

  /** The header line that names an item holds two dashes in a row only if something is named. */
  lemma DashesAreNamed(item: Item, q: nat)
    requires q + 1 < |DispositionLine(item)| && DispositionLine(item)[q] == DispositionLine(item)[q + 1] == '-'
    ensures item.name != "" || item.filename != ""
  {
    if item.name == "" && item.filename == "" {
      DispositionLineIs(item);
    }
  }

  lemma HeaderEnd(item: Item)
    ensures var h := HeaderText(item); |h| >= 4 && h[|h| - 4..] == CRLF + CRLF && h[|h| - 2..] == CRLF
    ensures item.contentType == "" ==> |HeaderText(item)| == |DispositionLine(item)| + 4
  {
    hide DispositionLine;
  }

  lemma StartsInHeader(items: seq<Item>, b: string, left: string, q: nat)
    requires Sendable(items, b) && items != []
    requires var r := q + |FirstLine(b)| - 2; r < |HeaderText(items[0])| - 2 && Entry(items, b, 0)[r..] == CRLF + left
    requires OccursAt(Entry(items, b, 0), FirstLine(b), q)
    ensures Missed(items, b, NO_FILE, [], left)
  {
    hide HeaderText, BodyText, DispositionLine, TypeText;
    var entry, h, body := Entry(items, b, 0), HeaderText(items[0]), BodyText(items, b, 0, 0);
    var line, r := DispositionLine(items[0]), q + |FirstLine(b)| - 2;
    assert Fits(items[0], b) && entry == h + body;
    assert entry[r] == h[r] == '\r';
    ReturnsIn(items[0], r);
    EntryIs(items, b, 0);
    HeaderEnd(items[0]);
    assert left == entry[r + 2..];
    if r == |line| {
      assert entry[|line| + 2..] == TypeText(items[0]) + body;
      assert line[q] == entry[q] == FirstLine(b)[0] && line[q + 1] == entry[q + 1] == FirstLine(b)[1];
      DashesAreNamed(items[0], q);
    } else {
      assert entry[|h| - 2..] == h[|h| - 2..] + body;
    }
  }

  /** A later occurrence of the boundary line is behind a field of the first item that is not empty, or in a content. */
  lemma StartsBehind(items: seq<Item>, b: string, left: string, q: nat)
    requires Sendable(items, b) && q + |FirstLine(b)| + |left| == |Entry(items, b, 0)|
    requires Entry(items, b, 0)[q..] == FirstLine(b) + left
    ensures Missed(items, b, NO_FILE, [], left) || Late(items, b, [], CRLF + left)
  {
    hide HeaderText, BodyText, DispositionLine;
    var line, entry, h, body := FirstLine(b), Entry(items, b, 0), HeaderText(items[0]), BodyText(items, b, 0, 0);
    assert Fits(items[0], b) && entry == h + body;
    var r := q + |line| - 2;
    assert entry[q..q + |line|] == line;
    assert entry[r..] == CRLF + left by { assert entry[r..] == entry[q..][|line| - 2..]; }
    if r > |h| {
      TailInside(h, CRLF + left, body);
    } else {
      HeaderEnd(items[0]);
      assert entry[r] == '\r';
      if r < |h| - 2 { StartsInHeader(items, b, left, q); } else { NoReturn(b, entry, q, r - 2); }
    }
  }

  // ---------------------------------------------------------------- whole runs

  lemma ContentEnds(items: seq<Item>, b: string, got: seq<Item>, y: string)
    requires Sendable(items, b) && LateInBody(items, b, got, Delimiter(b) + y)
    ensures Late(items, b, got, y)
  {
    hide BodyText;
    if SoFar(items, got) {
      var k := |got| - 1;
      assert got[..k] == items[..k] && got[k] == items[k];
      LateDelimiter(items, b, k, y);
    }
  }

  lemma BodyLost(items: seq<Item>, b: string, p: Parser, answer: Receiver, events: seq<Event>, unfed: string)
    requires Sendable(items, b) && p.state == MultipartParser.Body && Behind(items, b, p, events, unfed)
    ensures Lost(items, b, OnBody(b, p, answer, events), unfed)
  {
    hide FindFrom, ItemsOf, Late, LateInBody, Sendable;
    var d, pos := Delimiter(b), Find(p.buf, Delimiter(b));
    if |d| <= |p.buf| {
      var n := if pos < |p.buf| then pos else |p.buf| - |d|;
      var data, rest := p.buf[..n], p.buf[n..];
      assert p.buf + unfed == data + (rest + unfed);
      LateMore(items, b, events, data, rest + unfed);
      MoreContent(items, events, data);
      if pos < |p.buf| {
        assert rest + unfed == d + (p.buf[pos + |d|..] + unfed);
        ContentEnds(items, b, ItemsOf(events + [Content(data)]), p.buf[pos + |d|..] + unfed);
      }
    }
  }

  lemma LateRest(items: seq<Item>, b: string, got: seq<Item>, x: string, y: string)
    requires Late(items, b, got, x + y)
    ensures Late(items, b, got, y)
  {
    hide BodyText, SoFar;
    if SoFar(items, got) { TailOfTail(x, y, BodyText(items, b, |got|, 0)); }
  }

  lemma BoundaryLost(items: seq<Item>, b: string, p: Parser, events: seq<Event>, unfed: string)
    requires p.state == Boundary && Behind(items, b, p, events, unfed)
    ensures Lost(items, b, OnBoundary(p, events), unfed)
  {
    hide ItemsOf, Late, LateInBody, Missed;
    LateRest(items, b, ItemsOf(events), p.buf, unfed);
    if CRLF <= p.buf { assert p.buf + unfed == CRLF + (p.buf[2..] + unfed); }
    assert "" + unfed == unfed;
  }

  lemma StepLost(items: seq<Item>, b: string, p: Parser, answer: Receiver, events: seq<Event>, unfed: string)
    requires Sendable(items, b) && Behind(items, b, p, events, unfed)
    ensures Lost(items, b, Step(b, p, answer, events), unfed)
  {
    hide ItemsOf, Sendable, HeaderLines, Late, LateInBody, Missed, OnBody, OnBoundary;
    match p.state
    case NewEntry =>
    case Headers => LinesLost(items, b, p, answer, events, unfed);
    case Body => BodyLost(items, b, p, answer, events, unfed);
    case Boundary => BoundaryLost(items, b, p, events, unfed);
  }

  lemma {:induction false} RunLost(items: seq<Item>, b: string, p: Parser, answer: Receiver, events: seq<Event>,
                                   unfed: string)
    requires Sendable(items, b) && Behind(items, b, p, events, unfed)
    ensures Lost(items, b, Run(b, p, answer, events), unfed)
    decreases |p.buf|, if p.state == NewEntry then 1 else 0
  {
    hide Sendable, Behind, Step;
    if p.buf == "" {
      RunNothing(b, p, answer, events);
    } else {
      RunNext(b, p, answer, events);
      StepLost(items, b, p, answer, events, unfed);
      StepDecreases(b, p, answer, events);
      var o := Step(b, p, answer, events);
      if o.Continue? { RunLost(items, b, o.p, answer, o.events, unfed); }
    }
  }

  // ---------------------------------------------------------------- chunk after chunk

  /** In its first state the parser drops whatever does not hold a whole boundary line. */
  lemma Dropped(b: string, data: string, answer: Receiver)
    requires Find(data, FirstLine(b)) == |data|
    ensures Parsed(b, NEW_PARSER, data, answer, []) == Return(true, NEW_PARSER, [])
  {
    hide FindFrom;
    var p := NEW_PARSER.(buf := "" + data);
    assert p.buf == data;
    if data == "" { RunNothing(b, p, answer, []); } else { RunNext(b, p, answer, []); }
  }

  /** What comes before the first boundary line in a chunk makes no difference. */
  lemma Skipped(b: string, data: string, answer: Receiver)
    requires Find(data, FirstLine(b)) < |data|
    ensures var rest := data[Find(data, FirstLine(b)) + |FirstLine(b)|..];
            Parsed(b, NEW_PARSER, data, answer, []) == Run(b, NEW_PARSER.(buf := rest, state := NewEntry), answer, [])
  {
    hide FindFrom, Run;
    var p := NEW_PARSER.(buf := "" + data);
    assert p.buf == data;
    RunNext(b, p, answer, []);
  }

  /** Nothing so far, or a late start. */
  ghost predicate NotOnTime(items: seq<Item>, b: string, o: Outcome, unfed: string) {
    o.Return? && (o == Return(true, NEW_PARSER, []) || Lost(items, b, o, unfed))
  }

  lemma FirstFound(items: seq<Item>, b: string, before: string, data: string, unfed: string, answer: Receiver)
    requires Sendable(items, b) && before + (data + unfed) == FirstLine(b) + Entry(items, b, 0)
    requires before == "" ==> |data| < |FirstLine(b)|
    ensures NotOnTime(items, b, Parsed(b, NEW_PARSER, data, answer, []), unfed)
  {
    hide Entry, FirstLine, FindFrom, Sendable, Run, Late, Missed;
    var line, text, k := FirstLine(b), before + (data + unfed), Find(data, FirstLine(b));
    if k == |data| {
      Dropped(b, data, answer);
    } else {
      Skipped(b, data, answer);
      var left := data[k + |line|..] + unfed;
      assert text[|before| + k..] == line + left;
      assert line != "" && '\r' !in b by { LineNotEmpty(items, b); }
      FoundLater(items, b, |before| + k, left);
      var p := NEW_PARSER.(buf := data[k + |line|..], state := NewEntry);
      assert ItemsOf([]) == [];
      RunLost(items, b, p, answer, [], unfed);
    }
  }

  lemma LineNotEmpty(items: seq<Item>, b: string)
    requires Sendable(items, b)
    ensures FirstLine(b) != "" && '\r' !in b
  {
  }

  lemma FoundLater(items: seq<Item>, b: string, at: nat, left: string)
    requires Sendable(items, b) && 0 < at && at + |FirstLine(b)| + |left| == |FirstLine(b) + Entry(items, b, 0)|
    requires (FirstLine(b) + Entry(items, b, 0))[at..] == FirstLine(b) + left
    ensures Missed(items, b, NO_FILE, [], left) || Late(items, b, [], CRLF + left)
  {
    hide Entry, FirstLine, Late, Missed;
    var line, entry := FirstLine(b), Entry(items, b, 0);
    LineNotEmpty(items, b);
    assert (line + entry)[at..at + |line|] == line;
    if at < |line| { NoOverlap(b, entry, at); }
    assert entry[at - |line|..] == (line + entry)[at..];
    StartsBehind(items, b, left, at - |line|);
  }

  lemma NextCall(items: seq<Item>, b: string, before: string, data: string, unfed: string, o: Outcome,
                 answer: Receiver)
    requires Sendable(items, b) && before + (data + unfed) == FirstLine(b) + Entry(items, b, 0)
    requires NotOnTime(items, b, o, data + unfed) && o.ok && (before == "" ==> |data| < |FirstLine(b)|)
    ensures NotOnTime(items, b, Parsed(b, o.p, data, answer, o.events), unfed)
  {
    hide Entry, FirstLine, Sendable, Run, Late, LateInBody, Missed, ItemsOf;
    if o == Return(true, NEW_PARSER, []) {
      FirstFound(items, b, before, data, unfed, answer);
    } else {
      assert o.p.buf + data + unfed == o.p.buf + (data + unfed);
      RunLost(items, b, o.p.(buf := o.p.buf + data), answer, o.events, unfed);
    }
  }

  lemma {:induction false} ChunksLost(items: seq<Item>, b: string, chunks: seq<string>, n: nat, unfed: string,
                                      answer: Receiver)
    requires n <= |chunks| && Sendable(items, b)
    requires Joined(chunks, n) + unfed == FirstLine(b) + Entry(items, b, 0)
    requires forall i :: 0 <= i < n && Joined(chunks, i) == "" ==> |chunks[i]| < |FirstLine(b)|
    ensures NotOnTime(items, b, Feed(b, NEW_PARSER, chunks, n, answer, []), unfed)
  {
    hide Entry, FirstLine, Sendable, Parsed, Behind;
    if n > 0 {
      var before, data := Joined(chunks, n - 1), chunks[n - 1];
      assert before + data + unfed == before + (data + unfed);
      ChunksLost(items, b, chunks, n - 1, data + unfed, answer);
      var o := Feed(b, NEW_PARSER, chunks, n - 1, answer, []);
      if o.ok { NextCall(items, b, before, data, unfed, o, answer); }
    }
  }

  lemma ShortChunkFirst(b: string, chunks: seq<string>)
    requires !FirstLineWhole(chunks, b)
    ensures forall i :: 0 <= i < |chunks| && Joined(chunks, i) == "" ==> |chunks[i]| < |FirstLine(b)|
  {
    var k :| 0 <= k < |chunks| && Joined(chunks, k) == "" && chunks[k] != "" && |FirstLine(b)| > |chunks[k]|;
    forall i | 0 <= i < |chunks| && Joined(chunks, i) == "" ensures |chunks[i]| < |FirstLine(b)| {
      if i < k { JoinedGrows(chunks, i + 1, k); }
      if k < i { JoinedGrows(chunks, k + 1, i); }
    }
  }

  lemma {:induction false} JoinedGrows(chunks: seq<string>, i: nat, j: nat)
    requires i <= j <= |chunks|
    ensures |Joined(chunks, i)| <= |Joined(chunks, j)|
  {
    if i < j { JoinedGrows(chunks, i, j - 1); }
  }

  /** At the end not all items are there. */
  lemma NeverCaughtUp(items: seq<Item>, b: string, p: Parser, events: seq<Event>)
    requires Sendable(items, b) && Behind(items, b, p, events, "")
    ensures ItemsOf(events) != items
  {
    hide ItemsOf, BodyText, TypeText;
    var got := ItemsOf(events);
    if got == items {
      assert items[..|items|] == items;
      assert p.state == MultipartParser.Body;
      LastContent(items, b, p.buf);
    }
  }

  /** A whole content and what is kept in the buffer leave no room for an empty line before them. */
  lemma LastContent(items: seq<Item>, b: string, buf: string)
    requires Sendable(items, b)
    requires var c := items[|items| - 1].content; c != "" ==> |buf| >= |Delimiter(b)|
    ensures !Tail(CRLF + CRLF + items[|items| - 1].content + buf, BodyText(items, b, |items| - 1, 0))
  {
    var n := |items| - 1;
    var c, d, body := items[n].content, Delimiter(b), BodyText(items, b, n, 0);
    BodySize(items, b, n);
    if c == "" && |buf| + 4 < |body| {
      assert body == d + (DASH + CRLF);
      DelimiterStart(b);
      var q := |body| - |buf| - 4;
      assert body[q] != '\r' by { assert if q < |d| then body[q] == d[q] else body[q] == (DASH + CRLF)[q - |d|]; }
      assert body[q..][0] == body[q] && (CRLF + CRLF + c + buf)[0] == '\r';
    }
  }

  lemma BodySize(items: seq<Item>, b: string, i: nat)
    requires i + 1 == |items|
    ensures |BodyText(items, b, i, 0)| == |items[i].content| + |Delimiter(b)| + 4
  {
  }

  /** Without the whole first boundary line in one chunk, not everything arrives. */
  lemma LateStart(items: seq<Item>, b: string, chunks: seq<string>, answer: Receiver)
    requires Sendable(items, b) && !FirstLineWhole(chunks, b)
    requires Joined(chunks, |chunks|) == SerializedFrom(items, b, true, 0)
    ensures !Delivered(items, b, chunks, answer)
  {
    hide Entry, FirstLine, Sendable, SerializedFrom, FirstLineWhole, Joined, Feed, Behind;
    SendableSome(items, b);
    SerializedIs(items, b);
    ShortChunkFirst(b, chunks);
    assert Joined(chunks, |chunks|) + "" == FirstLine(b) + Entry(items, b, 0);
    ChunksLost(items, b, chunks, |chunks|, "", answer);
    var o := Feed(b, NEW_PARSER, chunks, |chunks|, answer, []);
    if o != Return(true, NEW_PARSER, []) && o.ok { NeverCaughtUp(items, b, o.p, o.events); }
  }
}
