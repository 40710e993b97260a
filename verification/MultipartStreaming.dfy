/** Feeding a multipart parser chunk by chunk: in its body state it passes on exactly the bytes before the delimiter. */
module MultipartStreaming {
  import opened MultipartHeader
  import opened MultipartParser
  import opened Search
  import opened Text

  /** The first `n` chunks in one. */
  function Joined(chunks: seq<string>, n: nat): string
    requires n <= |chunks|
  {
    if n == 0 then "" else Joined(chunks, n - 1) + chunks[n - 1]
  }

  /** parse, called with the first `n` chunks one after the other until it fails. */
  function Feed(b: string, p: Parser, chunks: seq<string>, n: nat, answer: Receiver, events: seq<Event>): (o: Outcome)
    requires n <= |chunks|
    ensures o.Return?
  {
    if n == 0 then Return(true, p, events)
    else
      var o := Feed(b, p, chunks, n - 1, answer, events);
      if !o.ok then o else Parsed(b, o.p, chunks[n - 1], answer, o.events)
  }

  /** The same on the class. */
  method FeedAll(parser: MultipartFormDataParser, chunks: seq<string>, answer: Receiver, events: seq<Event>)
    returns (ok: bool, told: seq<Event>)
    requires parser.Valid()
    modifies parser
    ensures parser.Valid() && parser.boundary == old(parser.boundary)
    ensures Return(ok, parser.View(), told)
         == Feed(parser.boundary, old(parser.View()), chunks, |chunks|, answer, events)
  {
    hide Run;
    ok, told := true, events;
    var i := 0;
    while i < |chunks| && ok
      invariant i <= |chunks| && parser.Valid() && parser.boundary == old(parser.boundary)
      invariant Return(ok, parser.View(), told) == Feed(parser.boundary, old(parser.View()), chunks, i, answer, events)
    {
      ok, told := parser.Parse(chunks[i], answer, told);
      i := i + 1;
    }
    FeedStopped(parser.boundary, old(parser.View()), chunks, i, |chunks|, answer, events);
  }

  lemma {:induction false} FeedStopped(b: string, p: Parser, chunks: seq<string>, i: nat, n: nat,
                                       answer: Receiver, events: seq<Event>)
    requires i <= n <= |chunks| && (i < n ==> !Feed(b, p, chunks, i, answer, events).ok)
    ensures Feed(b, p, chunks, n, answer, events) == Feed(b, p, chunks, i, answer, events)
  {
    hide Parsed;
    if i < n { FeedStopped(b, p, chunks, i, n - 1, answer, events); }
  }

  // ---------------------------------------------------------------- what the callbacks are told

  /** No callback asks to stop. */
  ghost predicate Accepts(answer: Receiver) {
    forall events :: answer(events)
  }

  /** The data passed on from call `i` until the next header. */
  function ContentRun(events: seq<Event>, i: nat): string
    decreases |events| - i
  {
    if i < |events| && events[i].Content? then events[i].data + ContentRun(events, i + 1) else ""
  }

  ghost predicate AllContent(events: seq<Event>, i: nat) {
    forall j :: i <= j < |events| ==> events[j].Content?
  }

  lemma {:induction false} RunAppend(events: seq<Event>, i: nat, data: string)
    requires i <= |events| && AllContent(events, i)
    ensures ContentRun(events + [Content(data)], i) == ContentRun(events, i) + data
    decreases |events| - i
  {
    var all := events + [Content(data)];
    if i < |events| {
      RunAppend(events, i + 1, data);
      assert all[i] == events[i];
    } else {
      assert ContentRun(all, i + 1) == "";
    }
  }

  /** More calls do not belong to the run if a header lies between. */
  ghost predicate Apart(events: seq<Event>, more: seq<Event>, i: nat) {
    more == [] || more[0].Header? || !AllContent(events, i)
  }

  lemma {:induction false} RunSealed(events: seq<Event>, more: seq<Event>, i: nat)
    requires i <= |events| && Apart(events, more, i)
    ensures ContentRun(events + more, i) == ContentRun(events, i)
    decreases |events| - i
  {
    var all := events + more;
    if i < |events| {
      assert all[i] == events[i];
      if events[i].Content? { RunSealed(events, more, i + 1); }
    }
  }

  // ---------------------------------------------------------------- what a step says

  lemma {:induction false} HeaderLinesSay(p: Parser, answer: Receiver, events: seq<Event>)
    ensures var o := HeaderLines(p, answer, events);
            || (o.events == events && o.Return? && o.p.state == p.state)
            || (|o.events| == |events| + 1 && events <= o.events && o.events[|events|].Header?)
    decreases |p.buf|
  {
    var pos := Find(p.buf, CRLF);
    if pos < |p.buf| && pos > 0 {
      var r := ReadHeader(p.buf[..pos], p.file);
      if r.Accept? {
        NextLine(p, answer, events, r.file);
        HeaderLinesSay(p.(buf := p.buf[pos + |CRLF|..], file := r.file), answer, events);
      }
    }
  }

  lemma StepExtends(b: string, p: Parser, answer: Receiver, events: seq<Event>)
    ensures events <= Step(b, p, answer, events).events
  {
    hide HeaderLines;
    HeaderLinesSay(p, answer, events);
  }

  lemma {:induction false} RunExtends(b: string, p: Parser, answer: Receiver, events: seq<Event>)
    ensures events <= Run(b, p, answer, events).events
    decreases |p.buf|, if p.state == NewEntry then 1 else 0
  {
    hide Step;
    if p.buf != "" {
      StepExtends(b, p, answer, events);
      var o := Step(b, p, answer, events);
      StepDecreases(b, p, answer, events);
      if o.Continue? { RunExtends(b, o.p, answer, o.events); }
    }
  }

  lemma StepDecreases(b: string, p: Parser, answer: Receiver, events: seq<Event>)
    ensures var o := Step(b, p, answer, events);
            o.Continue? ==> |o.p.buf| < |p.buf| || (|o.p.buf| == |p.buf| && p.state == NewEntry && o.p.state == Headers)
  {
  }

  /** Between a delimiter and the next part's body. */
  predicate Between(state: State) {
    state == Boundary || state == NewEntry || state == Headers
  }

  lemma StepBetween(b: string, p: Parser, answer: Receiver, events: seq<Event>)
    requires Between(p.state)
    ensures var o := Step(b, p, answer, events);
            || (o.events == events && Between(o.p.state))
            || (|o.events| == |events| + 1 && events <= o.events && o.events[|events|].Header?)
  {
    hide HeaderLines;
    HeaderLinesSay(p, answer, events);
  }

  /** From there on, the first call is one of header_callback. */
  lemma {:induction false} RunBetween(b: string, p: Parser, answer: Receiver, events: seq<Event>)
    requires Between(p.state)
    ensures var o := Run(b, p, answer, events);
            events <= o.events && if |o.events| == |events| then Between(o.p.state) else o.events[|events|].Header?
    decreases |p.buf|, if p.state == NewEntry then 1 else 0
  {
    hide Step;
    if p.buf != "" {
      StepBetween(b, p, answer, events);
      StepDecreases(b, p, answer, events);
      var o := Step(b, p, answer, events);
      if o.Continue? {
        if o.events == events { RunBetween(b, o.p, answer, events); } else { RunExtends(b, o.p, answer, o.events); }
      }
    }
  }

  // ---------------------------------------------------------------- the search across chunks

  /** The run of data that started at call `i` is over. */
  ghost predicate Sealed(o: Outcome, i: nat) {
    o.Return? && (!AllContent(o.events, i) || Between(o.p.state))
  }

  lemma SealedStays(b: string, o: Outcome, i: nat, data: string, answer: Receiver)
    requires Sealed(o, i) && i <= |o.events|
    ensures var r := Parsed(b, o.p, data, answer, o.events);
            Sealed(r, i) && o.events <= r.events && ContentRun(r.events, i) == ContentRun(o.events, i)
  {
    hide Run;
    var p := o.p.(buf := o.p.buf + data);
    var r := Run(b, p, answer, o.events);
    RunExtends(b, p, answer, o.events);
    if Between(o.p.state) { RunBetween(b, p, answer, o.events); }
    var more := r.events[|o.events|..];
    assert r.events == o.events + more;
    RunSealed(o.events, more, i);
  }

  /** What streaming has done with the bytes `all` fed so far. */
  ghost predicate Streamed(b: string, all: string, o: Outcome, i: nat) {
    && o.Return? && i <= |o.events|
    && if Find(all, Delimiter(b)) == |all| then
         && o.ok && o.p.state == Body && AllContent(o.events, i)
         && ContentRun(o.events, i) + o.p.buf == all
         && (ContentRun(o.events, i) != "" ==> |o.p.buf| == |Delimiter(b)|)
       else
         ContentRun(o.events, i) == all[..Find(all, Delimiter(b))] && Sealed(o, i)
  }

  /** One call of parse in the body state. */
  lemma BodyParse(b: string, p: Parser, answer: Receiver, events: seq<Event>, i: nat)
    requires Accepts(answer) && p.state == Body && i <= |events| && AllContent(events, i)
    ensures var o := Run(b, p, answer, events); var k := Find(p.buf, Delimiter(b)); var d := |Delimiter(b)|;
            && events <= o.events
            && (k < |p.buf| ==> ContentRun(o.events, i) == ContentRun(events, i) + p.buf[..k] && Sealed(o, i))
            && (k == |p.buf| ==>
                  && o.ok && o.p.state == Body && AllContent(o.events, i)
                  && (|p.buf| <= d ==> o.p.buf == p.buf && o.events == events)
                  && (|p.buf| > d ==>
                        && o.p.buf == p.buf[|p.buf| - d..]
                        && ContentRun(o.events, i) == ContentRun(events, i) + p.buf[..|p.buf| - d]))
  {
    hide Run, FindFrom;
    var k := Find(p.buf, Delimiter(b));
    if p.buf == "" {
      RunNothing(b, p, answer, events);
    } else if k < |p.buf| {
      BodyEnds(b, p, answer, events, i, k);
    } else {
      RunNext(b, p, answer, events);
      var d := |Delimiter(b)|;
      if |p.buf| > d { RunAppend(events, i, p.buf[..|p.buf| - d]); }
    }
  }

  lemma BodyEnds(b: string, p: Parser, answer: Receiver, events: seq<Event>, i: nat, k: nat)
    requires Accepts(answer) && p.state == Body && i <= |events| && AllContent(events, i)
    requires k == Find(p.buf, Delimiter(b)) < |p.buf|
    ensures var o := Run(b, p, answer, events);
            events <= o.events && ContentRun(o.events, i) == ContentRun(events, i) + p.buf[..k] && Sealed(o, i)
  {
    hide Run, FindFrom;
    RunNext(b, p, answer, events);
    var told := Tell(p, k, events);
    var q := p.(buf := p.buf[k + |Delimiter(b)|..], state := Boundary);
    RunAppend(events, i, p.buf[..k]);
    RunBetween(b, q, answer, told);
    var o := Run(b, q, answer, told);
    assert o.events == told + o.events[|told|..];
    RunSealed(told, o.events[|told|..], i);
  }

  lemma RunNothing(b: string, p: Parser, answer: Receiver, events: seq<Event>)
    requires p.buf == ""
    ensures Run(b, p, answer, events) == Return(true, p, events)
  {
  }

  lemma FindExtends(s: string, t: string, p: string)
    requires p != "" && Find(s, p) < |s|
    ensures Find(s + t, p) == Find(s, p)
  {
    hide FindFrom;
    var k := Find(s, p);
    FindGives(s, p);
    OccursInPrefix(s, t, p, k);
    forall j | 0 <= j < k ensures !OccursAt(s + t, p, j) {
      OccursInPrefix(s, t, p, j);
    }
    FindIs(s + t, p, k);
  }

  /** What was emitted holds no start of the delimiter, so the search may begin after it. */
  lemma FindAfter(e: string, s: string, t: string, p: string)
    requires p != "" && Find(e + s, p) == |e + s| && (e != "" ==> |s| >= |p|)
    ensures Find(e + s + t, p) == |e| + Find(s + t, p)
  {
    hide FindFrom;
    var all, rest := e + s + t, s + t;
    assert all == e + rest;
    var k := Find(rest, p);
    FindGives(rest, p);
    FindGives(e + s, p);
    forall j | 0 <= j < |e| + k ensures !OccursAt(all, p, j) {
      if j < |e| { OccursInPrefix(e + s, t, p, j); } else { OccursInSuffix(e, rest, p, j - |e|); }
    }
    OccursInSuffix(e, rest, p, k);
    FindIs(all, p, |e| + k);
  }

  lemma OccursInSuffix(e: string, s: string, p: string, i: nat)
    ensures OccursAt(e + s, p, |e| + i) == OccursAt(s, p, i)
  {
    if i + |p| <= |s| { assert (e + s)[|e| + i..|e| + i + |p|] == s[i..i + |p|]; }
  }

  lemma StreamNext(b: string, all: string, o: Outcome, i: nat, data: string, answer: Receiver)
    requires Accepts(answer) && Streamed(b, all, o, i)
    ensures Streamed(b, all + data, if o.ok then Parsed(b, o.p, data, answer, o.events) else o, i)
    ensures o.ok ==> o.events <= Parsed(b, o.p, data, answer, o.events).events
  {
    hide Parsed, FindFrom, ContentRun;
    if Find(all, Delimiter(b)) < |all| {
      FindExtends(all, data, Delimiter(b));
      assert (all + data)[..Find(all, Delimiter(b))] == all[..Find(all, Delimiter(b))];
      SealedStays(b, o, i, data, answer);
    } else {
      StreamOn(b, all, o, i, data, answer);
    }
  }

  lemma StreamOn(b: string, all: string, o: Outcome, i: nat, data: string, answer: Receiver)
    requires Accepts(answer) && Streamed(b, all, o, i) && Find(all, Delimiter(b)) == |all|
    ensures Streamed(b, all + data, Parsed(b, o.p, data, answer, o.events), i)
    ensures o.events <= Parsed(b, o.p, data, answer, o.events).events
  {
    hide Run, FindFrom, ContentRun;
    var e, rest := ContentRun(o.events, i), o.p.buf + data;
    FindAfter(e, o.p.buf, data, Delimiter(b));
    BodyParse(b, o.p.(buf := rest), answer, o.events, i);
    StreamBody(e, rest, Delimiter(b), all + data, Find(rest, Delimiter(b)));
  }

  lemma StreamBody(e: string, rest: string, d: string, all: string, k: nat)
    requires all == e + rest && k <= |rest|
    ensures e + rest[..k] == all[..|e| + k]
    ensures |rest| > |d| ==> e + rest[..|rest| - |d|] + rest[|rest| - |d|..] == all
  {
  }

  /**
   * However a stream is cut into chunks, a parser in its body state passes on exactly what lies
   * before the first delimiter; until the delimiter is whole, what was passed on and what is
   * still in the buffer together are what was fed.
   */
  lemma {:induction false} BodyStreaming(b: string, p: Parser, chunks: seq<string>, n: nat, answer: Receiver,
                                         events: seq<Event>)
    requires n <= |chunks| && Accepts(answer)
    requires p.state == Body && Find(p.buf, Delimiter(b)) == |p.buf|
    ensures events <= Feed(b, p, chunks, n, answer, events).events
    ensures Streamed(b, p.buf + Joined(chunks, n), Feed(b, p, chunks, n, answer, events), |events|)
  {
    if n == 0 {
      assert p.buf + "" == p.buf;
      assert ContentRun(events, |events|) == "";
    } else {
      BodyStreaming(b, p, chunks, n - 1, answer, events);
      var o := Feed(b, p, chunks, n - 1, answer, events);
      StreamChunk(b, p.buf, Joined(chunks, n - 1), chunks[n - 1], o, |events|, answer);
    }
  }

  lemma StreamChunk(b: string, buf: string, before: string, data: string, o: Outcome, i: nat, answer: Receiver)
    requires Accepts(answer) && Streamed(b, buf + before, o, i)
    ensures Streamed(b, buf + (before + data), if o.ok then Parsed(b, o.p, data, answer, o.events) else o, i)
    ensures o.ok ==> o.events <= Parsed(b, o.p, data, answer, o.events).events
  {
    hide Streamed, Parsed;
    assert buf + (before + data) == buf + before + data;
    StreamNext(b, buf + before, o, i, data, answer);
  }

  // ---------------------------------------------------------------- refusals

  /** Every new call was answered with true, unless it is the last one and has ended the parse for good. */
  ghost predicate Answered(o: Outcome, i: nat, answer: Receiver) {
    forall m :: i < m <= |o.events| && !answer(o.events[..m]) ==>
      m == |o.events| && o.Return? && !o.ok && !o.p.valid
  }

  lemma {:induction false} HeaderLinesAnswered(p: Parser, answer: Receiver, events: seq<Event>)
    ensures Answered(HeaderLines(p, answer, events), |events|, answer)
    decreases |p.buf|
  {
    var pos := Find(p.buf, CRLF);
    if pos < |p.buf| && pos > 0 {
      var r := ReadHeader(p.buf[..pos], p.file);
      if r.Accept? {
        NextLine(p, answer, events, r.file);
        HeaderLinesAnswered(p.(buf := p.buf[pos + |CRLF|..], file := r.file), answer, events);
      }
    } else if pos == 0 < |p.buf| {
      EmptyLine(p, answer, events);
      assert (events + [Header(p.file)])[..|events| + 1] == events + [Header(p.file)];
    }
  }

  lemma StepAnswered(b: string, p: Parser, answer: Receiver, events: seq<Event>)
    ensures Answered(Step(b, p, answer, events), |events|, answer)
  {
    hide HeaderLines, FindFrom;
    HeaderLinesAnswered(p, answer, events);
    var o := Step(b, p, answer, events);
    assert o.events[..|o.events|] == o.events;
  }

  /** parse goes on only as long as the callbacks agree; a refusal is its last call, and leaves the parser invalid. */
  lemma {:induction false} RefusalStops(b: string, p: Parser, answer: Receiver, events: seq<Event>)
    ensures Answered(Run(b, p, answer, events), |events|, answer)
    decreases |p.buf|, if p.state == NewEntry then 1 else 0
  {
    hide Step;
    if p.buf == "" {
      RunNothing(b, p, answer, events);
    } else {
      RunNext(b, p, answer, events);
      StepAnswered(b, p, answer, events);
      StepDecreases(b, p, answer, events);
      StepExtends(b, p, answer, events);
      var o := Step(b, p, answer, events);
      if o.Continue? {
        RefusalStops(b, o.p, answer, o.events);
        RunExtends(b, o.p, answer, o.events);
        var r := Run(b, o.p, answer, o.events);
        forall m | |events| < m <= |o.events| ensures r.events[..m] == o.events[..m] {}
      }
    }
  }

  // ---------------------------------------------------------------- failures

  lemma {:induction false} HeaderLinesValid(p: Parser, answer: Receiver, events: seq<Event>)
    ensures HeaderLines(p, answer, events).p.valid ==> p.valid
    decreases |p.buf|
  {
    var pos := Find(p.buf, CRLF);
    if pos < |p.buf| && pos > 0 {
      var r := ReadHeader(p.buf[..pos], p.file);
      if r.Accept? {
        NextLine(p, answer, events, r.file);
        HeaderLinesValid(p.(buf := p.buf[pos + |CRLF|..], file := r.file), answer, events);
      }
    }
  }

  /** Only the closing delimiter makes the parser valid, and after it nothing is left to fail on. */
  lemma StepValid(b: string, p: Parser, answer: Receiver, events: seq<Event>)
    ensures var o := Step(b, p, answer, events); o.p.valid && !p.valid ==> o.Continue? && o.p.buf == ""
  {
    hide HeaderLines, FindFrom;
    HeaderLinesValid(p, answer, events);
  }

  /** A call of parse that fails leaves the parser invalid, unless it was valid before. */
  lemma {:induction false} FailedIsInvalid(b: string, p: Parser, answer: Receiver, events: seq<Event>)
    ensures var o := Run(b, p, answer, events); !o.ok && o.p.valid ==> p.valid
    decreases |p.buf|, if p.state == NewEntry then 1 else 0
  {
    hide Step;
    if p.buf == "" {
      RunNothing(b, p, answer, events);
    } else {
      RunNext(b, p, answer, events);
      StepValid(b, p, answer, events);
      StepDecreases(b, p, answer, events);
      var o := Step(b, p, answer, events);
      if o.Continue? { FailedIsInvalid(b, o.p, answer, o.events); }
      if o.Continue? && o.p.buf == "" { RunNothing(b, o.p, answer, o.events); }
    }
  }
}
