/** What the multipart serializer writes, the parser reads back, however the bytes are cut into chunks. */
module MultipartRoundTrip {
  import opened MultipartHeader
  import opened MultipartParser
  import opened MultipartSerializer
  import opened MultipartStreaming
  import opened Search
  import opened Text

  // ---------------------------------------------------------------- what the receiver makes of the calls

  /** The items, as the two callbacks describe them: a header starts one, data extend the last. */
  function ItemsOf(events: seq<Event>): seq<Item> {
    if events == [] then []
    else Extended(ItemsOf(events[..|events| - 1]), events[|events| - 1])
  }

  function Extended(items: seq<Item>, event: Event): seq<Item> {
    match event
    case Header(f) => items + [Item(f.name, "", f.filename, f.contentType)]
    case Content(data) =>
      if items == [] then []
      else
        var last := items[|items| - 1];
        items[|items| - 1 := last.(content := last.content + data)]
  }

  lemma ItemsNext(events: seq<Event>, event: Event)
    ensures ItemsOf(events + [event]) == Extended(ItemsOf(events), event)
  {
    assert (events + [event])[..|events|] == events;
  }

  // ---------------------------------------------------------------- where the parser stands

  /** The places in the serialized text at which the parser may stand. */
  datatype Where =
    | Start
    | AtEntry(i: nat)
    | AtDisposition(i: nat)
    | AtType(i: nat)
    | AtBlank(i: nat)
    | InBody(i: nat, k: nat)
    | AfterDelimiter(i: nat)
    | Done

  /** What is still to be read at `w`; after the closing delimiter only the last CRLF is. */
  ghost predicate IsLeft(items: seq<Item>, b: string, w: Where, rest: string) {
    match w
    case Start => items != [] && rest == FirstLine(b) + Entry(items, b, 0)
    case AtEntry(i) => i < |items| && rest == Entry(items, b, i)
    case AtDisposition(i) => i < |items| && rest == Entry(items, b, i)
    case AtType(i) =>
      i < |items| && items[i].contentType != "" && rest == TypeLine(items[i]) + CRLF + CRLF + BodyText(items, b, i, 0)
    case AtBlank(i) => i < |items| && rest == CRLF + BodyText(items, b, i, 0)
    case InBody(i, k) => i < |items| && k <= |items[i].content| && rest == BodyText(items, b, i, k)
    case AfterDelimiter(i) => i <= |items| && rest == After(items, b, i)
    case Done => rest == CRLF || rest == "\n" || rest == ""
  }

  /** The state of the parser at `w`. */
  ghost predicate InState(items: seq<Item>, b: string, w: Where, p: Parser) {
    match w
    case Start => p.state == FirstBoundary && |FirstLine(b)| <= |p.buf|
    case AtEntry(i) => p.state == NewEntry
    case AtDisposition(i) => p.state == Headers && p.file == NO_FILE
    case AtType(i) => p.state == Headers && i < |items| && p.file == FormData(items[i].name, items[i].filename, "")
    case AtBlank(i) =>
      p.state == Headers && i < |items| && p.file == FormData(items[i].name, items[i].filename, items[i].contentType)
    case InBody(i, k) => p.state == Body
    case AfterDelimiter(i) => p.state == Boundary
    case Done => p.valid && (p.state == Boundary || p.state == NewEntry)
  }

  /** The items received at `w`. */
  ghost predicate HasReceived(items: seq<Item>, w: Where, got: seq<Item>) {
    match w
    case Start => got == []
    case AtEntry(i) => i <= |items| && got == items[..i]
    case AtDisposition(i) => i <= |items| && got == items[..i]
    case AtType(i) => i <= |items| && got == items[..i]
    case AtBlank(i) => i <= |items| && got == items[..i]
    case InBody(i, k) =>
      && i < |items| && k <= |items[i].content|
      && got == items[..i] + [items[i].(content := items[i].content[..k])]
    case AfterDelimiter(i) => i <= |items| && got == items[..i]
    case Done => got == items
  }

  ghost predicate At(items: seq<Item>, b: string, w: Where, p: Parser, events: seq<Event>, unfed: string) {
    && IsLeft(items, b, w, p.buf + unfed)
    && InState(items, b, w, p)
    && HasReceived(items, w, ItemsOf(events))
    && (w.Done? && p.state == NewEntry ==> p.buf + unfed == "")
  }

  /** How much is left, at least, when the parser stops at `w` for want of more. */
  ghost function Low(items: seq<Item>, b: string, w: Where): int {
    match w
    case Start => if items != [] then EntryLeft(items, b, 0) else 0
    case AtEntry(i) => if i < |items| then EntryLeft(items, b, i) - 1 else 0
    case AtDisposition(i) => if i < |items| then TypeLeft(items, b, i) else 0
    case AtType(i) => if i < |items| then BlankLeft(items, b, i) else 0
    case AtBlank(i) => if i < |items| then |BodyText(items, b, i, 0)| else 0
    case InBody(i, _) => if i < |items| then AfterLeft(items, b, i + 1) else 0
    case AfterDelimiter(i) => if i <= |items| then AfterLeft(items, b, i) - 2 else 0
    case Done => 0
  }

  /** How much is left at most. */
  ghost function High(items: seq<Item>, b: string, w: Where): int {
    match w
    case Start => 0
    case AtEntry(i) => if i < |items| then EntryLeft(items, b, i) else 0
    case AtDisposition(i) => if i < |items| then EntryLeft(items, b, i) else 0
    case AtType(i) => if i < |items| then TypeLeft(items, b, i) else 0
    case AtBlank(i) => if i < |items| then BlankLeft(items, b, i) else 0
    case InBody(i, _) => if i < |items| then |BodyText(items, b, i, 0)| else 0
    case AfterDelimiter(i) => if i <= |items| then AfterLeft(items, b, i) else 0
    case Done => 2
  }

  ghost predicate Waits(items: seq<Item>, b: string, w: Where, unfed: string) {
    w.Done? || Low(items, b, w) < |unfed|
  }

  /** An outcome that reaches `w`: it does not fail, and if it stops, it has to. */
  ghost predicate Reaches(items: seq<Item>, b: string, w: Where, o: Outcome, unfed: string) {
    && At(items, b, w, o.p, o.events, unfed)
    && (o.Return? ==> o.ok && Waits(items, b, w, unfed))
  }

  // ---------------------------------------------------------------- the limit on header lines

  /** What the parser measures: the line, or what there is of it and its CRLF as long as they are not whole. */
  predicate WithinLimit(line: nat, there: int) {
    (if line + |CRLF| <= there then line else there) <= HEADER_MAX_LENGTH
  }

  /** The first item whose first header line is not yet read at `w`. */
  function Ahead(items: seq<Item>, w: Where): nat {
    match w
    case Start => 0
    case AtEntry(i) => i
    case AtDisposition(i) => i
    case AtType(i) => i + 1
    case AtBlank(i) => i + 1
    case InBody(i, _) => i + 1
    case AfterDelimiter(i) => i
    case Done => |items|
  }

  /** The first header line of item `i`, as far as it has come when `after` is left. */
  ghost predicate NamePasses(items: seq<Item>, b: string, i: nat, after: int)
    requires i < |items|
  {
    after < EntryLeft(items, b, i) ==> WithinLimit(|DispositionLine(items[i])|, EntryLeft(items, b, i) - after)
  }

  ghost predicate NamesPass(items: seq<Item>, b: string, from: nat, after: int) {
    forall i :: from <= i < |items| ==> NamePasses(items, b, i, after)
  }

  /** The limit strikes nowhere in a run from `w` on. */
  ghost predicate RunPasses(items: seq<Item>, b: string, w: Where, p: Parser, unfed: string) {
    && NamesPass(items, b, Ahead(items, w), |unfed|)
    && (w.AtType? && w.i < |items| && p.buf != "" ==> WithinLimit(|TypeLine(items[w.i])|, |p.buf|))
  }

  /** A step fails only where the limit strikes, and else reaches `w` with nothing passed over. */
  ghost predicate Exact(items: seq<Item>, b: string, w0: Where, p: Parser, w: Where, o: Outcome, unfed: string) {
    if o.Return? && !o.ok then !RunPasses(items, b, w0, p, unfed)
    else
      && Reaches(items, b, w, o, unfed)
      && (RunPasses(items, b, w0, p, unfed) <==> (o.Return? || RunPasses(items, b, w, o.p, unfed)))
  }

  ghost predicate InRange(items: seq<Item>, w: Where) {
    match w
    case Start => items != []
    case AtEntry(i) => i < |items|
    case AtDisposition(i) => i < |items|
    case AtType(i) => i < |items|
    case AtBlank(i) => i < |items|
    case InBody(i, _) => i < |items|
    case AfterDelimiter(i) => i <= |items|
    case Done => true
  }

  lemma LeftInRange(items: seq<Item>, b: string, w: Where, left: string)
    requires IsLeft(items, b, w, left)
    ensures InRange(items, w)
  {
  }

  /** The items from here on have not begun. */
  lemma AheadLeft(items: seq<Item>, b: string, from: nat, i: nat)
    requires from <= i < |items|
    ensures EntryLeft(items, b, i) + 2 <= AfterLeft(items, b, from)
  {
    LeftShrinks(items, b, from, i);
    Lengths(items, b, i);
  }

  /** Where the parser waits, the items to come have not come. */
  lemma NothingAhead(items: seq<Item>, b: string, w: Where, unfed: string)
    requires InRange(items, w) && Waits(items, b, w, unfed)
    ensures NamesPass(items, b, if w.AtDisposition? then w.i + 1 else Ahead(items, w), |unfed|)
  {
    hide EntryLeft, TypeLeft, BlankLeft, AfterLeft, WithinLimit, DispositionLine, TypeLine;
    var from := if w.AtDisposition? then w.i + 1 else Ahead(items, w);
    forall i | from <= i < |items| ensures EntryLeft(items, b, i) <= |unfed| {
      AheadLeft(items, b, from, i);
      Lengths(items, b, from);
      if from > 0 { BlankLow(items, b, from - 1); }
    }
  }

  lemma BlankLow(items: seq<Item>, b: string, i: nat)
    requires i < |items|
    ensures AfterLeft(items, b, i + 1) <= |BodyText(items, b, i, 0)| < BlankLeft(items, b, i) <= TypeLeft(items, b, i)
    ensures TypeLeft(items, b, i) < EntryLeft(items, b, i)
    ensures items[i].contentType != "" ==> BlankLeft(items, b, i) < TypeLeft(items, b, i)
  {
    Lengths(items, b, i);
  }

  lemma Cut(a: string, u: string, p: string, q: string)
    requires a + u == p + q && |p| <= |a|
    ensures a[|p|..] + u == q && p <= a
  {
    var s := a + u;
    assert a[..|p|] == s[..|p|] == p;
    assert s[|p|..] == a[|p|..] + u;
    assert (p + q)[|p|..] == q;
  }

  lemma StartStep(items: seq<Item>, b: string, p: Parser, answer: Receiver, events: seq<Event>, unfed: string)
    requires At(items, b, Start, p, events, unfed)
    ensures Reaches(items, b, AtEntry(0), Step(b, p, answer, events), unfed)
  {
    hide Entry;
    Cut(p.buf, unfed, FirstLine(b), Entry(items, b, 0));
    AtFront(p.buf, FirstLine(b));
    assert p.buf[0..] == p.buf;
  }

  lemma AtFront(s: string, p: string)
    requires p <= s && p != ""
    ensures Find(s, p) == 0
  {
    assert s[0..|p|] == p;
  }

  lemma EntryStep(items: seq<Item>, b: string, i: nat, p: Parser, answer: Receiver, events: seq<Event>, unfed: string)
    requires At(items, b, AtEntry(i), p, events, unfed)
    ensures Step(b, p, answer, events).Continue?
    ensures Reaches(items, b, AtDisposition(i), Step(b, p, answer, events), unfed)
  {
    hide Entry, ItemsOf;
  }

  // ---------------------------------------------------------------- header lines

  /** Looking for the end of a line finds it as soon as the buffer holds it. */
  lemma LineEnd(buf: string, unfed: string, line: string, rest: string)
    requires buf + unfed == line + CRLF + rest && OneLine(line)
    ensures Find(buf, CRLF) == if |line| + 2 <= |buf| then |line| else |buf|
    ensures |line| + 2 <= |buf| ==> buf[..|line|] == line && buf[|line| + 2..] + unfed == rest
    ensures |line| + 2 > |buf| ==> unfed != "" && |buf| <= |line| + 1
  {
    hide FindFrom;
    assert CRLF[0] == '\r' && CRLF[1] == '\n';
    forall j | 0 <= j < |line| ensures !OccursAt(line, CRLF, j) {
      if j + 2 <= |line| { assert line[j..j + 2][0] == line[j]; }
    }
    FirstAfter(line, CRLF, rest);
    FindInPrefix(buf, unfed, CRLF, |line|);
    if |line| + 2 <= |buf| {
      assert line + CRLF + rest == line + (CRLF + rest);
      Cut(buf, unfed, line + CRLF, rest);
      Cut(buf, unfed, line, CRLF + rest);
      assert buf[..|line|] == (line + CRLF + rest)[..|line|];
    }
  }

  /** Where the header lines of item `i` lead: to its content, or to the line that is not whole. */
  ghost predicate InItem(w: Where, i: nat, go: bool) {
    if go then w == InBody(i, 0) else w == AtDisposition(i) || w == AtType(i) || w == AtBlank(i)
  }

  lemma BlankLine(items: seq<Item>, b: string, i: nat, p: Parser, answer: Receiver, events: seq<Event>, unfed: string)
    returns (w: Where)
    requires Accepts(answer) && At(items, b, AtBlank(i), p, events, unfed)
    ensures Reaches(items, b, w, HeaderLines(p, answer, events), unfed)
    ensures InItem(w, i, HeaderLines(p, answer, events).Continue?)
  {
    hide HeaderLines, FindFrom, BodyText, ItemsOf;
    assert "" + CRLF + BodyText(items, b, i, 0) == CRLF + BodyText(items, b, i, 0);
    LineEnd(p.buf, unfed, "", BodyText(items, b, i, 0));
    if |p.buf| < 2 {
      NoLine(p, answer, events);
      w := AtBlank(i);
    } else {
      EmptyLine(p, answer, events);
      ItemsNext(events, Header(p.file));
      assert items[i].content[..0] == "";
      w := InBody(i, 0);
    }
  }

  lemma TypeLineRead(items: seq<Item>, b: string, i: nat, p: Parser, answer: Receiver, events: seq<Event>,
                     unfed: string)
    returns (w: Where)
    requires Accepts(answer) && Sendable(items, b) && At(items, b, AtType(i), p, events, unfed)
    ensures Reaches(items, b, w, HeaderLines(p, answer, events), unfed)
    ensures InItem(w, i, HeaderLines(p, answer, events).Continue?)
  {
    hide HeaderLines, ReadHeader, FindFrom, BodyText, ItemsOf, TypeLine, DispositionLine, Clean;
    var line, rest := TypeLine(items[i]), CRLF + BodyText(items, b, i, 0);
    assert Fits(items[i], b);
    ReadType(items[i], p.file);
    assert line + CRLF + CRLF + BodyText(items, b, i, 0) == line + CRLF + rest;
    LineEnd(p.buf, unfed, line, rest);
    if |line| + 2 > |p.buf| {
      NoLine(p, answer, events);
      w := AtType(i);
    } else {
      var file := FormData(items[i].name, items[i].filename, items[i].contentType);
      NotEmptyLine(line);
      NextLine(p, answer, events, file);
      w := BlankLine(items, b, i, p.(buf := p.buf[|line| + 2..], file := file), answer, events, unfed);
    }
  }

  lemma NotEmptyLine(line: string)
    requires exists item :: line == TypeLine(item) || line == DispositionLine(item)
    ensures line != ""
  {
  }

  lemma EntryIs(items: seq<Item>, b: string, i: nat)
    requires i < |items|
    ensures Entry(items, b, i) == DispositionLine(items[i]) + CRLF + (TypeText(items[i]) + BodyText(items, b, i, 0))
  {
    hide BodyText, DispositionLine, TypeText;
    Associative(DispositionLine(items[i]) + CRLF, TypeText(items[i]), BodyText(items, b, i, 0));
  }

  /** After the line that names it, an item goes on with its content type, if it has one. */
  lemma AfterDisposition(items: seq<Item>, b: string, i: nat, p: Parser, answer: Receiver,
                         events: seq<Event>, unfed: string)
    returns (w: Where)
    requires Accepts(answer) && Sendable(items, b) && i < |items|
    requires p.state == Headers && p.file == FormData(items[i].name, items[i].filename, "")
    requires p.buf + unfed == TypeText(items[i]) + BodyText(items, b, i, 0) && ItemsOf(events) == items[..i]
    ensures Reaches(items, b, w, HeaderLines(p, answer, events), unfed)
    ensures InItem(w, i, HeaderLines(p, answer, events).Continue?)
  {
    hide HeaderLines, BodyText, ItemsOf, TypeLine, Fits, Reaches;
    if items[i].contentType == "" {
      w := BlankLine(items, b, i, p, answer, events, unfed);
    } else {
      w := TypeLineRead(items, b, i, p, answer, events, unfed);
    }
  }

  lemma DispositionLineRead(items: seq<Item>, b: string, i: nat, p: Parser, answer: Receiver,
                            events: seq<Event>, unfed: string)
    returns (w: Where)
    requires Accepts(answer) && Sendable(items, b) && At(items, b, AtDisposition(i), p, events, unfed)
    ensures Reaches(items, b, w, HeaderLines(p, answer, events), unfed)
    ensures InItem(w, i, HeaderLines(p, answer, events).Continue?)
  {
    hide HeaderLines, ReadHeader, FindFrom, BodyText, TypeText, Entry, ItemsOf, DispositionLine, Clean;
    var line, rest := DispositionLine(items[i]), TypeText(items[i]) + BodyText(items, b, i, 0);
    assert Fits(items[i], b);
    ReadDisposition(items[i], p.file);
    EntryIs(items, b, i);
    LineEnd(p.buf, unfed, line, rest);
    if |line| + 2 > |p.buf| {
      NoLine(p, answer, events);
      w := AtDisposition(i);
    } else {
      var file := FormData(items[i].name, items[i].filename, "");
      NotEmptyLine(line);
      NextLine(p, answer, events, file);
      w := AfterDisposition(items, b, i, p.(buf := p.buf[|line| + 2..], file := file), answer, events, unfed);
    }
  }

  /** What the limit is compared with. */
  lemma Measured(items: seq<Item>, b: string, w: Where, p: Parser, unfed: string)
    requires Sendable(items, b) && IsLeft(items, b, w, p.buf + unfed) && p.buf != ""
    requires w.AtDisposition? || w.AtType? || w.AtBlank?
    ensures (Find(p.buf, CRLF) <= HEADER_MAX_LENGTH) ==
            (|| w.AtBlank?
             || WithinLimit(|if w.AtType? then TypeLine(items[w.i]) else DispositionLine(items[w.i])|, |p.buf|))
  {
    hide FindFrom, BodyText, Clean, TypeLine, DispositionLine, TypeText, Entry;
    var i := w.i;
    assert Fits(items[i], b);
    var rest := if w.AtDisposition? then TypeText(items[i]) + BodyText(items, b, i, 0)
                else if w.AtType? then CRLF + BodyText(items, b, i, 0) else BodyText(items, b, i, 0);
    if w.AtDisposition? {
      EntryIs(items, b, i);
      DispositionIsHeader(items[i]);
      LineEnd(p.buf, unfed, DispositionLine(items[i]), rest);
    } else if w.AtType? {
      TypeOneLine(items[i]);
      Associative(TypeLine(items[i]) + CRLF, CRLF, BodyText(items, b, i, 0));
      LineEnd(p.buf, unfed, TypeLine(items[i]), rest);
    } else {
      assert "" + CRLF + rest == CRLF + rest;
      LineEnd(p.buf, unfed, "", rest);
    }
  }

  lemma HeadersExact(items: seq<Item>, b: string, w0: Where, p: Parser, w: Where, o: Outcome, unfed: string)
    requires w0.AtDisposition? || w0.AtType? || w0.AtBlank?
    requires IsLeft(items, b, w0, p.buf + unfed) && p.buf != ""
    requires w0.AtBlank? ||
             WithinLimit(|if w0.AtType? then TypeLine(items[w0.i]) else DispositionLine(items[w0.i])|, |p.buf|)
    requires Reaches(items, b, w, o, unfed) && InItem(w, w0.i, o.Continue?)
    ensures Exact(items, b, w0, p, w, o, unfed)
  {
    hide Entry, TypeLine, DispositionLine, WithinLimit, BodyText, Low, ItemsOf, InState, HasReceived, NamesPass;
    var i := w0.i;
    LeftInRange(items, b, w0, p.buf + unfed);
    NamesFrom(items, b, i, |unfed|);
    assert w0.AtDisposition? ==> |p.buf| == EntryLeft(items, b, i) - |unfed|;
    if o.Return? {
      LeftInRange(items, b, w, o.p.buf + unfed);
      NothingAhead(items, b, w, unfed);
    }
  }

  lemma TooLong(items: seq<Item>, b: string, w: Where, p: Parser, unfed: string)
    requires w.AtDisposition? || w.AtType?
    requires IsLeft(items, b, w, p.buf + unfed) && p.buf != ""
    requires !WithinLimit(|if w.AtType? then TypeLine(items[w.i]) else DispositionLine(items[w.i])|, |p.buf|)
    ensures !RunPasses(items, b, w, p, unfed)
  {
    hide TypeLine, DispositionLine, WithinLimit, BodyText, NamesPass;
    if w.AtDisposition? {
      assert |p.buf| == EntryLeft(items, b, w.i) - |unfed|;
      NamesFrom(items, b, w.i, |unfed|);
    }
  }

  lemma NamesFrom(items: seq<Item>, b: string, i: nat, after: int)
    requires i < |items|
    ensures NamesPass(items, b, i, after) ==
            (NamePasses(items, b, i, after) && NamesPass(items, b, i + 1, after))
  {
    hide NamePasses;
  }

  lemma HeadersStep(items: seq<Item>, b: string, w0: Where, p: Parser, answer: Receiver, events: seq<Event>,
                    unfed: string)
    returns (w: Where)
    requires Accepts(answer) && Sendable(items, b) && At(items, b, w0, p, events, unfed) && p.buf != ""
    requires w0.AtDisposition? || w0.AtType? || w0.AtBlank?
    ensures Exact(items, b, w0, p, w, Step(b, p, answer, events), unfed)
  {
    hide HeaderLines, FindFrom, BodyText, ItemsOf, TypeLine, DispositionLine, Clean, NamesPass, Reaches;
    var i := w0.i;
    assert Fits(items[i], b);
    Measured(items, b, w0, p, unfed);
    match w0 {
      case AtDisposition(_) => w := DispositionLineRead(items, b, i, p, answer, events, unfed);
      case AtType(_) => w := TypeLineRead(items, b, i, p, answer, events, unfed);
      case AtBlank(_) => w := BlankLine(items, b, i, p, answer, events, unfed);
    }
    if Find(p.buf, CRLF) <= HEADER_MAX_LENGTH {
      HeadersExact(items, b, w0, p, w, HeaderLines(p, answer, events), unfed);
    } else {
      TooLong(items, b, w0, p, unfed);
    }
  }

  // ---------------------------------------------------------------- body and delimiter

  /** In what is left of a content and what follows, the delimiter occurs first where it was written. */
  lemma DelimiterAhead(content: string, k: nat, d: string, after: string)
    requires k <= |content| && d != "" && (forall j :: 0 < j < |d| ==> d[j] != d[0])
    requires NoneBefore(content, d, |content|)
    ensures FirstAt(content[k..] + d + after, d, |content| - k)
  {
    FirstAfter(content, d, after);
    FirstShift(content + d + after, d, |content|, k);
    assert (content + d + after)[k..] == content[k..] + d + after;
  }

  lemma DelimiterStart(b: string)
    requires '\r' !in b
    ensures forall j :: 0 < j < |Delimiter(b)| ==> Delimiter(b)[j] != Delimiter(b)[0]
  {
  }

  lemma BodyStep(items: seq<Item>, b: string, i: nat, k: nat, p: Parser, answer: Receiver,
                 events: seq<Event>, unfed: string)
    returns (w: Where)
    requires Accepts(answer) && Sendable(items, b) && At(items, b, InBody(i, k), p, events, unfed)
    ensures w == AfterDelimiter(i + 1) || (w.InBody? && w.i == i)
    ensures Reaches(items, b, w, Step(b, p, answer, events), unfed)
  {
    hide FindFrom, After, ItemsOf, Fits, Step, Reaches;
    assert Fits(items[i], b);
    DelimiterFound(items, b, i, k, p, unfed);
    if |items[i].content| - k + |Delimiter(b)| <= |p.buf| {
      BodyEnds(items, b, i, k, p, answer, events, unfed);
      w := AfterDelimiter(i + 1);
    } else if |p.buf| < |Delimiter(b)| {
      BodyWaits(items, b, i, k, p, answer, events, unfed);
      w := InBody(i, k);
    } else {
      BodyGoesOn(items, b, i, k, p, answer, events, unfed);
      w := InBody(i, k + |p.buf| - |Delimiter(b)|);
    }
  }

  lemma DelimiterFound(items: seq<Item>, b: string, i: nat, k: nat, p: Parser, unfed: string)
    requires '\r' !in b && i < |items| && Fits(items[i], b) && IsLeft(items, b, InBody(i, k), p.buf + unfed)
    ensures var n := |items[i].content| - k;
            Find(p.buf, Delimiter(b)) == if n + |Delimiter(b)| <= |p.buf| then n else |p.buf|
  {
    hide FindFrom, After;
    DelimiterStart(b);
    DelimiterAhead(items[i].content, k, Delimiter(b), After(items, b, i + 1));
    FindInPrefix(p.buf, unfed, Delimiter(b), |items[i].content| - k);
  }

  lemma BodyWaits(items: seq<Item>, b: string, i: nat, k: nat, p: Parser, answer: Receiver,
                  events: seq<Event>, unfed: string)
    requires At(items, b, InBody(i, k), p, events, unfed) && |p.buf| < |Delimiter(b)|
    ensures Reaches(items, b, InBody(i, k), Step(b, p, answer, events), unfed)
  {
    hide Find, After, ItemsOf;
    assert |p.buf + unfed| >= |Delimiter(b)|;
  }

  lemma BodyEnds(items: seq<Item>, b: string, i: nat, k: nat, p: Parser, answer: Receiver,
                 events: seq<Event>, unfed: string)
    requires Accepts(answer) && At(items, b, InBody(i, k), p, events, unfed)
    requires |items[i].content| - k + |Delimiter(b)| <= |p.buf|
    requires Find(p.buf, Delimiter(b)) == |items[i].content| - k
    ensures Reaches(items, b, AfterDelimiter(i + 1), Step(b, p, answer, events), unfed)
  {
    hide Find, After, ItemsOf;
    var content := items[i].content;
    BodyLast(p.buf, unfed, content, k, Delimiter(b), After(items, b, i + 1));
    BodyTold(items, i, k, content[k..], events);
    assert content[..k] + content[k..] == content;
    assert items[..i + 1] == items[..i] + [items[i]];
  }

  lemma BodyGoesOn(items: seq<Item>, b: string, i: nat, k: nat, p: Parser, answer: Receiver,
                   events: seq<Event>, unfed: string)
    requires Accepts(answer) && At(items, b, InBody(i, k), p, events, unfed)
    requires |Delimiter(b)| <= |p.buf| < |items[i].content| - k + |Delimiter(b)|
    requires Find(p.buf, Delimiter(b)) == |p.buf|
    ensures Reaches(items, b, InBody(i, k + |p.buf| - |Delimiter(b)|), Step(b, p, answer, events), unfed)
  {
    hide Find, After, ItemsOf, Delimiter;
    var content, len := items[i].content, |p.buf| - |Delimiter(b)|;
    BodyPart(p.buf, unfed, content, k, Delimiter(b), After(items, b, i + 1), len);
    if len > 0 {
      BodyTold(items, i, k, content[k..k + len], events);
      assert content[..k] + content[k..k + len] == content[..k + len];
    }
  }

  lemma BodyTold(items: seq<Item>, i: nat, k: nat, data: string, events: seq<Event>)
    requires i < |items| && k <= |items[i].content|
    requires ItemsOf(events) == items[..i] + [items[i].(content := items[i].content[..k])]
    ensures ItemsOf(events + [Content(data)]) == items[..i] + [items[i].(content := items[i].content[..k] + data)]
  {
    hide ItemsOf;
    ItemsNext(events, Content(data));
  }

  lemma BodyLast(buf: string, unfed: string, content: string, k: nat, d: string, after: string)
    requires k <= |content| && buf + unfed == content[k..] + d + after
    requires |content| - k + |d| <= |buf|
    ensures buf[..|content| - k] == content[k..] && buf[|content| - k + |d|..] + unfed == after
  {
    Cut(buf, unfed, content[k..] + d, after);
    assert content[k..] + d + after == content[k..] + (d + after);
    Cut(buf, unfed, content[k..], d + after);
  }

  lemma BodyPart(buf: string, unfed: string, content: string, k: nat, d: string, after: string, len: nat)
    requires k <= |content| && buf + unfed == content[k..] + d + after
    requires |buf| == len + |d| < |content| - k + |d|
    ensures buf[..len] == content[k..k + len] && buf[len..] + unfed == content[k + len..] + d + after
    ensures unfed != ""
  {
    assert content[k..] == content[k..k + len] + content[k + len..];
    assert content[k..] + d + after == content[k..k + len] + (content[k + len..] + d + after);
    Cut(buf, unfed, content[k..k + len], content[k + len..] + d + after);
  }

  lemma DelimiterStep(items: seq<Item>, b: string, i: nat, p: Parser, answer: Receiver, events: seq<Event>,
                      unfed: string)
    returns (w: Where)
    requires At(items, b, AfterDelimiter(i), p, events, unfed)
    ensures w == AfterDelimiter(i) || w == if i < |items| then AtEntry(i) else Done
    ensures Reaches(items, b, w, Step(b, p, answer, events), unfed)
  {
    hide Entry, ItemsOf;
    if |p.buf| < 2 {
      w := AfterDelimiter(i);
    } else if i < |items| {
      Cut(p.buf, unfed, CRLF, Entry(items, b, i));
      w := AtEntry(i);
    } else {
      Cut(p.buf, unfed, DASH, CRLF);
      assert p.buf[0] == '-';
      assert items[..i] == items;
      TailOf(p.buf[2..], unfed);
      w := Done;
    }
  }

  lemma TailOf(s: string, unfed: string)
    requires s + unfed == CRLF
    ensures unfed == CRLF || unfed == "\n" || unfed == ""
  {
    if |s| == 0 { assert unfed == s + unfed; } else { assert unfed == (s + unfed)[|s|..]; }
  }

  lemma DoneStep(items: seq<Item>, b: string, p: Parser, answer: Receiver, events: seq<Event>, unfed: string)
    requires p.buf != "" && At(items, b, Done, p, events, unfed)
    ensures Reaches(items, b, Done, Step(b, p, answer, events), unfed)
  {
    hide ItemsOf;
    if |p.buf| >= 2 { Cut(p.buf, unfed, CRLF, ""); }
  }

  // ---------------------------------------------------------------- whole runs

  /** A step that reads no header line. */
  lemma PlainStep(items: seq<Item>, b: string, w0: Where, p: Parser, answer: Receiver, events: seq<Event>,
                  unfed: string)
    returns (w: Where)
    requires Accepts(answer) && Sendable(items, b) && p.buf != "" && At(items, b, w0, p, events, unfed)
    requires !(w0.AtDisposition? || w0.AtType? || w0.AtBlank?)
    ensures Reaches(items, b, w, Step(b, p, answer, events), unfed)
    ensures !(w.AtType? || w.AtBlank?) && Ahead(items, w) == Ahead(items, w0)
    ensures Step(b, p, answer, events).Return? ==> !w.AtDisposition?
  {
    hide Step, Reaches, IsLeft, HasReceived;
    LeftInRange(items, b, w0, p.buf + unfed);
    match w0
    case Start =>
      StartStep(items, b, p, answer, events, unfed);
      w := AtEntry(0);
    case AtEntry(i) =>
      EntryStep(items, b, i, p, answer, events, unfed);
      w := AtDisposition(i);
    case InBody(i, k) => w := BodyStep(items, b, i, k, p, answer, events, unfed);
    case AfterDelimiter(i) => w := DelimiterStep(items, b, i, p, answer, events, unfed);
    case Done =>
      DoneStep(items, b, p, answer, events, unfed);
      w := Done;
  }

  lemma OneStep(items: seq<Item>, b: string, w0: Where, p: Parser, answer: Receiver, events: seq<Event>, unfed: string)
    returns (w: Where)
    requires Accepts(answer) && Sendable(items, b) && p.buf != "" && At(items, b, w0, p, events, unfed)
    ensures Exact(items, b, w0, p, w, Step(b, p, answer, events), unfed)
  {
    hide Step, IsLeft, InState, HasReceived, NamesPass, Low;
    if w0.AtDisposition? || w0.AtType? || w0.AtBlank? {
      w := HeadersStep(items, b, w0, p, answer, events, unfed);
    } else {
      w := PlainStep(items, b, w0, p, answer, events, unfed);
      var o := Step(b, p, answer, events);
      if o.Return? {
        LeftInRange(items, b, w, o.p.buf + unfed);
        NothingAhead(items, b, w, unfed);
      }
    }
  }

  /** A run fails if and only if the limit strikes. */
  lemma {:induction false} RunReaches(items: seq<Item>, b: string, w0: Where, p: Parser, answer: Receiver,
                                      events: seq<Event>, unfed: string)
    returns (w: Where)
    requires Accepts(answer) && Sendable(items, b) && At(items, b, w0, p, events, unfed)
    ensures var o := Run(b, p, answer, events);
            && (o.ok <==> RunPasses(items, b, w0, p, unfed))
            && (o.ok ==> Reaches(items, b, w, o, unfed))
    decreases |p.buf|, if p.state == NewEntry then 1 else 0
  {
    hide Step, IsLeft, InState, HasReceived, RunPasses, Low;
    if p.buf == "" {
      RunNothing(b, p, answer, events);
      NothingRead(items, b, w0, p, unfed);
      w := w0;
    } else {
      RunNext(b, p, answer, events);
      StepDecreases(b, p, answer, events);
      w := OneStep(items, b, w0, p, answer, events, unfed);
      var o := Step(b, p, answer, events);
      if o.Continue? { w := RunReaches(items, b, w, o.p, answer, o.events, unfed); }
    }
  }

  lemma NothingRead(items: seq<Item>, b: string, w: Where, p: Parser, unfed: string)
    requires IsLeft(items, b, w, p.buf + unfed) && InState(items, b, w, p) && p.buf == ""
    ensures Waits(items, b, w, unfed) && RunPasses(items, b, w, p, unfed)
  {
    assert p.buf + unfed == unfed;
    NothingWaits(items, b, w, unfed);
    LeftInRange(items, b, w, unfed);
    NothingAhead(items, b, w, unfed);
    if w.AtDisposition? { NamesFrom(items, b, w.i, |unfed|); }
  }

  lemma NothingWaits(items: seq<Item>, b: string, w: Where, unfed: string)
    requires IsLeft(items, b, w, unfed) && !w.Start?
    ensures Waits(items, b, w, unfed)
    ensures w.AtDisposition? ==> EntryLeft(items, b, w.i) == |unfed|
  {
    hide TypeText, DispositionLine;
    match w
    case AtEntry(i) => BlankLow(items, b, i);
    case AtDisposition(i) => BlankLow(items, b, i);
    case AtType(i) =>
    case AtBlank(i) =>
    case InBody(i, k) =>
    case AfterDelimiter(i) =>
    case Done =>
  }

  /** The first chunk that is not empty holds the whole first boundary line. */
  ghost predicate FirstLineWhole(chunks: seq<string>, b: string) {
    forall i :: 0 <= i < |chunks| && Joined(chunks, i) == "" && chunks[i] != "" ==> |FirstLine(b)| <= |chunks[i]|
  }

  /**
   * The header lines of item `i` that one call of parse measures, `before` and `after` being what
   * is left at its start and at its end: the first line unless it was read whole before; the
   * other one only if the call begins with it or inside it.
   */
  ghost predicate LinesPass(items: seq<Item>, b: string, i: nat, before: int, after: int)
    requires i < |items|
  {
    && (TypeLeft(items, b, i) < before ==> NamePasses(items, b, i, after))
    && (items[i].contentType != "" && BlankLeft(items, b, i) < before <= TypeLeft(items, b, i)
        && after < TypeLeft(items, b, i) ==>
          WithinLimit(|TypeLine(items[i])|, TypeLeft(items, b, i) - after))
  }

  ghost predicate CallPasses(items: seq<Item>, b: string, before: int, after: int) {
    forall i :: 0 <= i < |items| ==> LinesPass(items, b, i, before, after)
  }

  lemma LowIsAhead(items: seq<Item>, b: string, w: Where, i: nat)
    requires InRange(items, w) && Ahead(items, w) <= i < |items|
    ensures TypeLeft(items, b, i) <= Low(items, b, w)
  {
    hide EntryLeft, TypeLeft, BlankLeft, AfterLeft, BodyText, DispositionLine, TypeLine;
    var j := Ahead(items, w);
    AheadLeft(items, b, j, i);
    BlankLow(items, b, i);
    Lengths(items, b, j);
    if w.AtDisposition? && j < i { LeftShrinks(items, b, j, i); Lengths(items, b, i); BlankLow(items, b, j); }
    if j > 0 { BlankLow(items, b, j - 1); }
  }

  lemma HighIsPast(items: seq<Item>, b: string, w: Where, i: nat)
    requires InRange(items, w) && i < |items| && i < Ahead(items, w)
    ensures High(items, b, w) <= if w == AtType(i) then TypeLeft(items, b, i) else BlankLeft(items, b, i)
  {
    hide EntryLeft, TypeLeft, BlankLeft, AfterLeft, BodyText, DispositionLine, TypeLine;
    var j := Ahead(items, w);
    LeftShrinks(items, b, i, j);
    LeftShrinks(items, b, i, j - 1);
    Lengths(items, b, j - 1);
    BlankLow(items, b, j - 1);
    if j < |items| { Lengths(items, b, j); }
  }

  /** Where the parser is between two calls follows from how much is left. */
  lemma Located(items: seq<Item>, b: string, w: Where, left: string, unfed: string, i: nat)
    requires IsLeft(items, b, w, left) && Waits(items, b, w, unfed) && |unfed| <= |left| && i < |items|
    ensures TypeLeft(items, b, i) < |unfed| <==> Ahead(items, w) <= i
    ensures items[i].contentType != "" ==>
              (BlankLeft(items, b, i) < |unfed| <= TypeLeft(items, b, i) <==> w == AtType(i))
  {
    hide EntryLeft, TypeLeft, BlankLeft, AfterLeft, High;
    BlankLow(items, b, i);
    LeftInRange(items, b, w, left);
    LeftAtMost(items, b, w, left);
    if Ahead(items, w) <= i { LowIsAhead(items, b, w, i); } else { HighIsPast(items, b, w, i); }
  }

  lemma LeftAtMost(items: seq<Item>, b: string, w: Where, left: string)
    requires IsLeft(items, b, w, left)
    ensures w.Start? || |left| <= High(items, b, w)
    ensures w.AtType? ==> |left| == High(items, b, w) && items[w.i].contentType != ""
  {
    hide DispositionLine, TypeLine;
  }

  lemma LineIsRun(items: seq<Item>, b: string, w: Where, p: Parser, data: string, unfed: string, i: nat)
    requires IsLeft(items, b, w, p.buf + (data + unfed)) && Waits(items, b, w, data + unfed) && i < |items|
    ensures LinesPass(items, b, i, |data + unfed|, |unfed|) <==>
            && (Ahead(items, w) <= i ==> NamePasses(items, b, i, |unfed|))
            && (w == AtType(i) && p.buf + data != "" ==> WithinLimit(|TypeLine(items[i])|, |p.buf + data|))
  {
    hide IsLeft, Waits, EntryLeft, TypeLeft, BlankLeft, WithinLimit, NamePasses, TypeLine;
    var left := p.buf + (data + unfed);
    Located(items, b, w, left, data + unfed, i);
    LeftAtMost(items, b, w, left);
  }

  /** What the limit does in one call of parse. */
  lemma CallIsRun(items: seq<Item>, b: string, w: Where, p: Parser, data: string, unfed: string)
    requires IsLeft(items, b, w, p.buf + (data + unfed)) && Waits(items, b, w, data + unfed)
    ensures CallPasses(items, b, |data + unfed|, |unfed|) <==>
            RunPasses(items, b, w, p.(buf := p.buf + data), unfed)
  {
    hide IsLeft, Waits, WithinLimit, LinesPass, NamePasses, TypeLine;
    forall i | 0 <= i < |items|
      ensures LinesPass(items, b, i, |data + unfed|, |unfed|) <==>
              && (Ahead(items, w) <= i ==> NamePasses(items, b, i, |unfed|))
              && (w == AtType(i) && p.buf + data != "" ==> WithinLimit(|TypeLine(items[i])|, |p.buf + data|))
    {
      LineIsRun(items, b, w, p, data, unfed, i);
    }
    LeftInRange(items, b, w, p.buf + (data + unfed));
  }

  /** What the chunks have led to, `before` being what they hold and `unfed` the rest of the text. */
  ghost predicate Arrived(items: seq<Item>, b: string, before: string, o: Outcome, unfed: string, w: Where) {
    && o.Return? && o.ok && Waits(items, b, w, unfed)
    && if before == "" then w == Start && o == Return(true, NEW_PARSER, [])
       else At(items, b, w, o.p, o.events, unfed)
  }

  /** One more call: it fails if and only if the limit strikes. */
  lemma NextChunk(items: seq<Item>, b: string, before: string, data: string, unfed: string, o: Outcome, w0: Where,
                  answer: Receiver)
    returns (w: Where)
    requires Accepts(answer) && Sendable(items, b)
    requires before + (data + unfed) == FirstLine(b) + Entry(items, b, 0)
    requires Arrived(items, b, before, o, data + unfed, w0)
    requires before == "" && data != "" ==> |FirstLine(b)| <= |data|
    ensures var r := Parsed(b, o.p, data, answer, o.events);
            && (r.ok <==> CallPasses(items, b, |data + unfed|, |unfed|))
            && (r.ok ==> Arrived(items, b, before + data, r, unfed, w))
  {
    hide Entry, FirstLine, Run, Sendable, HasReceived, IsLeft, RunPasses, CallPasses, Low;
    var p := o.p.(buf := o.p.buf + data);
    assert o.p.buf + (data + unfed) == o.p.buf + data + unfed;
    SendableSome(items, b);
    if before == "" {
      assert before + (data + unfed) == data + unfed == o.p.buf + (data + unfed);
      StartIsLeft(items, b, data + unfed);
      NothingReceived(items);
    }
    CallIsRun(items, b, w0, o.p, data, unfed);
    if before == "" && data == "" {
      RunNothing(b, p, answer, []);
      StartPasses(items, b, p, unfed);
      assert data + unfed == unfed;
      w := Start;
    } else {
      w := RunReaches(items, b, w0, p, answer, o.events, unfed);
    }
  }

  lemma StartIsLeft(items: seq<Item>, b: string, left: string)
    requires items != [] && left == FirstLine(b) + Entry(items, b, 0)
    ensures IsLeft(items, b, Start, left) && |left| > EntryLeft(items, b, 0)
  {
    hide Entry;
  }

  lemma StartPasses(items: seq<Item>, b: string, p: Parser, unfed: string)
    requires items != [] && unfed == FirstLine(b) + Entry(items, b, 0)
    ensures RunPasses(items, b, Start, p, unfed)
  {
    hide Entry, EntryLeft, NamesPass;
    StartIsLeft(items, b, unfed);
    NothingAhead(items, b, Start, unfed);
  }

  lemma NothingReceived(items: seq<Item>)
    ensures HasReceived(items, Start, ItemsOf([]))
  {
  }

  lemma SendableSome(items: seq<Item>, b: string)
    requires Sendable(items, b)
    ensures items != []
  {
  }

  /** How much of the text is left after `n` chunks. */
  function Remaining(items: seq<Item>, b: string, chunks: seq<string>, n: nat): int
    requires n <= |chunks|
  {
    |SerializedFrom(items, b, true, 0)| - |Joined(chunks, n)|
  }

  /** The limit strikes in none of the first `n` calls. */
  ghost predicate CallsPass(items: seq<Item>, b: string, chunks: seq<string>, n: nat)
    requires n <= |chunks|
  {
    forall m :: 0 <= m < n ==>
      CallPasses(items, b, Remaining(items, b, chunks, m), Remaining(items, b, chunks, m + 1))
  }

  lemma {:induction false} ChunksArrive(items: seq<Item>, b: string, chunks: seq<string>, n: nat, unfed: string,
                                        answer: Receiver)
    returns (w: Where)
    requires n <= |chunks| && Accepts(answer) && Sendable(items, b) && FirstLineWhole(chunks, b)
    requires Joined(chunks, n) + unfed == SerializedFrom(items, b, true, 0)
    ensures var o := Feed(b, NEW_PARSER, chunks, n, answer, []);
            && (o.ok <==> CallsPass(items, b, chunks, n))
            && (o.ok ==> Arrived(items, b, Joined(chunks, n), o, unfed, w))
  {
    hide Parsed, Entry, FirstLine, At, CallPasses, Low, SerializedFrom;
    SendableSome(items, b);
    SerializedIs(items, b);
    if n == 0 {
      StartIsLeft(items, b, unfed);
      StartWaits(items, b, unfed);
      w := Start;
    } else {
      var before, data := Joined(chunks, n - 1), chunks[n - 1];
      assert before + data + unfed == before + (data + unfed);
      w := ChunksArrive(items, b, chunks, n - 1, data + unfed, answer);
      var o := Feed(b, NEW_PARSER, chunks, n - 1, answer, []);
      if o.ok {
        w := NextChunk(items, b, before, data, unfed, o, w, answer);
        assert |data + unfed| == Remaining(items, b, chunks, n - 1) && |unfed| == Remaining(items, b, chunks, n);
      }
    }
  }

  lemma StartWaits(items: seq<Item>, b: string, unfed: string)
    requires items != [] && |unfed| > EntryLeft(items, b, 0)
    ensures Waits(items, b, Start, unfed)
  {
  }

  /** Everything has arrived: the parser has never failed, is valid, and has told the receiver these items. */
  ghost predicate Delivered(items: seq<Item>, b: string, chunks: seq<string>, answer: Receiver) {
    var o := Feed(b, NEW_PARSER, chunks, |chunks|, answer, []);
    o.ok && o.p.valid && ItemsOf(o.events) == items
  }

  /** With the first line whole, everything arrives unless the limit on header lines strikes in some call. */
  lemma DeliveredUnlessTooLong(items: seq<Item>, b: string, chunks: seq<string>, answer: Receiver)
    requires Accepts(answer) && Sendable(items, b) && FirstLineWhole(chunks, b)
    requires Joined(chunks, |chunks|) == SerializedFrom(items, b, true, 0)
    ensures Delivered(items, b, chunks, answer) <==> CallsPass(items, b, chunks, |chunks|)
  {
    hide Feed, Entry, ItemsOf, SerializedFrom, Joined, Sendable, Arrived, FirstLineWhole, CallsPass;
    SendableSome(items, b);
    SerializedIs(items, b);
    var text := FirstLine(b) + Entry(items, b, 0);
    assert text + "" == text;
    var w := ChunksArrive(items, b, chunks, |chunks|, "", answer);
    var o := Feed(b, NEW_PARSER, chunks, |chunks|, answer, []);
    if o.ok { ArrivedAtEnd(items, b, text, o, w); }
  }

  lemma ArrivedAtEnd(items: seq<Item>, b: string, text: string, o: Outcome, w: Where)
    requires Arrived(items, b, text, o, "", w) && text != ""
    ensures o.ok && o.p.valid && ItemsOf(o.events) == items
  {
    hide ItemsOf, IsLeft;
    LowNotNegative(items, b, w);
  }

  lemma LowNotNegative(items: seq<Item>, b: string, w: Where)
    ensures Low(items, b, w) >= 0
  {
    hide DispositionLine, TypeText;
    if w.AfterDelimiter? && w.i <= |items| { AfterLeftAtLeast(items, b, w.i); }
    if w.AtEntry? && w.i < |items| { BlankLow(items, b, w.i); }
  }

  lemma AfterLeftAtLeast(items: seq<Item>, b: string, i: nat)
    requires i <= |items|
    ensures AfterLeft(items, b, i) >= 2
  {
    hide Entry;
  }

  /** Every header line is shorter than the limit. */
  predicate ShortLines(items: seq<Item>) {
    forall i :: 0 <= i < |items| ==>
      && |DispositionLine(items[i])| < HEADER_MAX_LENGTH
      && (items[i].contentType != "" ==> |TypeLine(items[i])| < HEADER_MAX_LENGTH)
  }

  /**
   * Parsing what was serialized gives the same items in the same order and ends valid, however
   * the text is cut into chunks after its first line.
   */
  lemma RoundTrip(items: seq<Item>, b: string, chunks: seq<string>, answer: Receiver)
    requires Accepts(answer) && Sendable(items, b) && ShortLines(items) && FirstLineWhole(chunks, b)
    requires Joined(chunks, |chunks|) == SerializedFrom(items, b, true, 0)
    ensures Delivered(items, b, chunks, answer)
  {
    hide Delivered, Sendable, FirstLineWhole, TypeLine, DispositionLine;
    forall m | 0 <= m < |chunks|
      ensures CallPasses(items, b, Remaining(items, b, chunks, m), Remaining(items, b, chunks, m + 1)) {}
    DeliveredUnlessTooLong(items, b, chunks, answer);
  }
}
