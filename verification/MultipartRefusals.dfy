/** When the multipart parser of file_server/httplib.h fails, however its text is cut into chunks. */
module MultipartRefusals {
  import opened MultipartHeader
  import opened MultipartParser
  import opened MultipartStreaming
  import opened Search
  import opened Text

  /** The buffer starts with a header line that is too long or malformed. */
  ghost predicate BadFront(p: Parser) {
    && p.state == Headers
    && (Find(p.buf, CRLF) > HEADER_MAX_LENGTH
        || exists file :: ReadHeader(p.buf[..Find(p.buf, CRLF)], file) == Reject(p.file))
  }

  /** A callback refused, or a header line is bad. */
  ghost predicate Excused(o: Outcome, events: seq<Event>, answer: Receiver) {
    BadFront(o.p) || (events < o.events && !answer(o.events))
  }

  // ---------------------------------------------------------------- no failure without a reason

  lemma Malformed(p: Parser, file: FormData)
    requires p.state == Headers && ReadHeader(p.buf[..Find(p.buf, CRLF)], p.file) == Reject(file)
    ensures BadFront(p.(valid := false, file := file))
  {
    hide ReadHeader, FindFrom;
  }

  lemma {:induction false} HeaderLinesExcused(p: Parser, answer: Receiver, events: seq<Event>)
    requires p.state == Headers
    ensures var o := HeaderLines(p, answer, events); o.Return? && !o.ok ==> Excused(o, events, answer)
    decreases |p.buf|
  {
    hide HeaderLines, ReadHeader, FindFrom, BadFront;
    var pos := Find(p.buf, CRLF);
    if pos == |p.buf| {
      NoLine(p, answer, events);
    } else if pos == 0 {
      EmptyLine(p, answer, events);
    } else {
      match ReadHeader(p.buf[..pos], p.file)
      case Reject(file) =>
        BadLine(p, answer, events, file);
        Malformed(p, file);
      case Accept(file) =>
        NextLine(p, answer, events, file);
        HeaderLinesExcused(p.(buf := p.buf[pos + |CRLF|..], file := file), answer, events);
    }
  }

  lemma StepExcused(b: string, p: Parser, answer: Receiver, events: seq<Event>)
    ensures var o := Step(b, p, answer, events); o.Return? && !o.ok ==> Excused(o, events, answer)
  {
    hide HeaderLines, ReadHeader;
    match p.state
    case FirstBoundary => FirstFound(p.buf, FirstLine(b));
    case NewEntry =>
    case Headers => if Find(p.buf, CRLF) <= HEADER_MAX_LENGTH { HeaderLinesExcused(p, answer, events); }
    case Body =>
    case Boundary =>
  }

  lemma FirstFound(s: string, p: string)
    requires p != ""
    ensures |s[Find(s, p)..]| >= |p| ==> p <= s[Find(s, p)..]
  {
    var k := Find(s, p);
    if k < |s| { assert s[k..][..|p|] == s[k..k + |p|]; }
  }

  /**
   * parse fails only because a callback refused, a header line is longer than 8192, or a header
   * line is malformed; in particular never because something is still missing.
   */
  lemma {:induction false} FailureMeans(b: string, p: Parser, answer: Receiver, events: seq<Event>)
    ensures var o := Run(b, p, answer, events); !o.ok ==> Excused(o, events, answer)
    decreases |p.buf|, if p.state == NewEntry then 1 else 0
  {
    hide Step;
    if p.buf == "" {
      RunNothing(b, p, answer, events);
    } else {
      RunNext(b, p, answer, events);
      StepExcused(b, p, answer, events);
      StepDecreases(b, p, answer, events);
      StepExtends(b, p, answer, events);
      var o := Step(b, p, answer, events);
      if o.Continue? { FailureMeans(b, o.p, answer, o.events); }
    }
  }

  // ---------------------------------------------------------------- a malformed line is always refused

  /** Waiting for the rest of the line, or failed without a callback. */
  ghost predicate Waits(p: Parser, fed: string, o: Outcome, events: seq<Event>) {
    && o.Return? && o.events == events
    && if o.ok then o.p == p.(buf := fed) && Find(fed, CRLF) == |fed| else !p.valid ==> !o.p.valid
  }

  /** One more chunk, none of which completes a good line. */
  lemma WaitsOn(b: string, p: Parser, fed: string, data: string, line: string, rest: string, answer: Receiver,
                events: seq<Event>)
    requires p.state == Headers && line != "" && FirstAt(line + CRLF + rest, CRLF, |line|)
    requires ReadHeader(line, p.file).Reject? && fed + data <= line + CRLF + rest
    ensures var o := Parsed(b, p.(buf := fed), data, answer, events);
            Waits(p, fed + data, o, events) && (line + CRLF <= fed + data ==> !o.ok)
  {
    hide ReadHeader, FindFrom, HeaderLines;
    var all := line + CRLF + rest;
    var s := fed + data;
    var q := p.(buf := s);
    assert all == s + all[|s|..];
    FindInPrefix(s, all[|s|..], CRLF, |line|);
    if s == "" {
      RunNothing(b, q, answer, events);
    } else {
      RunNext(b, q, answer, events);
      if Find(s, CRLF) == |s| {
        NoLine(q, answer, events);
      } else {
        assert s[..|line|] == all[..|line|] == line;
        BadLine(q, answer, events, ReadHeader(line, p.file).file);
      }
    }
  }

  /**
   * A part with a malformed header line makes parse fail, and no callback is told of the part,
   * wherever the text is cut.
   */
  lemma {:induction false} BadLineRefused(b: string, p: Parser, chunks: seq<string>, n: nat, line: string, rest: string,
                                          answer: Receiver, events: seq<Event>)
    requires p.state == Headers && p.buf == "" && n <= |chunks| && Joined(chunks, n) <= line + CRLF + rest
    requires line != "" && FirstAt(line + CRLF + rest, CRLF, |line|) && ReadHeader(line, p.file).Reject?
    ensures var o := Feed(b, p, chunks, n, answer, events);
            Waits(p, Joined(chunks, n), o, events) && (line + CRLF <= Joined(chunks, n) ==> !o.ok)
  {
    hide ReadHeader, FindFrom, Parsed;
    if n > 0 {
      var before := Joined(chunks, n - 1);
      assert before <= before + chunks[n - 1] == Joined(chunks, n);
      BadLineRefused(b, p, chunks, n - 1, line, rest, answer, events);
      if Feed(b, p, chunks, n - 1, answer, events).ok {
        WaitsOn(b, p, before, chunks[n - 1], line, rest, answer, events);
      }
    }
  }
}
