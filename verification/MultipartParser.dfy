/** MultipartFormDataParser of file_server/httplib.h: the states of parse, as functions and as the class. */
module MultipartParser {
  import opened MultipartHeader
  import opened Search
  import opened Text

  /** The calls of header_callback and content_callback. */
  datatype Event = Header(file: FormData) | Content(data: string)

  /** The answer of the callback to the last of the calls made so far. */
  type Receiver = seq<Event> -> bool

  /** The values 0 to 4 of state_. */
  datatype State = FirstBoundary | NewEntry | Headers | Body | Boundary

  datatype Parser = Parser(state: State, valid: bool, file: FormData, buf: string)

  /** After one case of the switch: around the loop again, or back to the caller. */
  datatype Outcome =
    | Continue(p: Parser, events: seq<Event>)
    | Return(ok: bool, p: Parser, events: seq<Event>)

  const DASH := "--"

  /** dash_boundary_crlf_ */
  function FirstLine(b: string): string {
    DASH + b + CRLF
  }

  /** crlf_dash_boundary_ */
  function Delimiter(b: string): string {
    CRLF + DASH + b
  }

  // ---------------------------------------------------------------- the cases of the switch

  function OnFirstBoundary(b: string, p: Parser, events: seq<Event>): Outcome {
    var rest := p.buf[Find(p.buf, FirstLine(b))..];
    if |FirstLine(b)| > |rest| then Return(true, p.(buf := rest), events)
    else if !(FirstLine(b) <= rest) then Return(false, p.(buf := rest), events)
    else Continue(p.(buf := rest[|FirstLine(b)|..], state := NewEntry), events)
  }

  function OnNewEntry(p: Parser, events: seq<Event>): Outcome {
    Continue(p.(file := NO_FILE, state := Headers), events)
  }

  /** The header lines that are whole, up to the empty one. */
  function HeaderLines(p: Parser, answer: Receiver, events: seq<Event>): (o: Outcome)
    ensures o.Continue? ==> |o.p.buf| < |p.buf| && o.p.state == Body
    decreases |p.buf|
  {
    var pos := Find(p.buf, CRLF);
    if pos == |p.buf| then Return(true, p, events)
    else if pos == 0 then
      var told := events + [Header(p.file)];
      if !answer(told) then Return(false, p.(valid := false), told)
      else Continue(p.(buf := p.buf[|CRLF|..], state := Body), told)
    else match ReadHeader(p.buf[..pos], p.file)
      case Reject(file) => Return(false, p.(valid := false, file := file), events)
      case Accept(file) => HeaderLines(p.(buf := p.buf[pos + |CRLF|..], file := file), answer, events)
  }

  function OnHeaders(p: Parser, answer: Receiver, events: seq<Event>): (o: Outcome)
    ensures o.Continue? ==> |o.p.buf| < |p.buf| && o.p.state == Body
  {
    if Find(p.buf, CRLF) > HEADER_MAX_LENGTH then Return(false, p, events) else HeaderLines(p, answer, events)
  }

  /** Tells the receiver the first `n` characters of the buffer. */
  function Tell(p: Parser, n: nat, events: seq<Event>): seq<Event>
    requires n <= |p.buf|
  {
    events + [Content(p.buf[..n])]
  }

  function OnBody(b: string, p: Parser, answer: Receiver, events: seq<Event>): Outcome {
    var d := |Delimiter(b)|;
    var pos := Find(p.buf, Delimiter(b));
    if d > |p.buf| then Return(true, p, events)
    else if pos < |p.buf| then
      if !answer(Tell(p, pos, events)) then Return(false, p.(valid := false), Tell(p, pos, events))
      else Continue(p.(buf := p.buf[pos + d..], state := Boundary), Tell(p, pos, events))
    else if d == |p.buf| then Return(true, p, events)
    else
      var len := |p.buf| - d;
      if !answer(Tell(p, len, events)) then Return(false, p.(valid := false), Tell(p, len, events))
      else Return(true, p.(buf := p.buf[len..]), Tell(p, len, events))
  }

  function OnBoundary(p: Parser, events: seq<Event>): Outcome {
    if |CRLF| > |p.buf| then Return(true, p, events)
    else if CRLF <= p.buf then Continue(p.(buf := p.buf[|CRLF|..], state := NewEntry), events)
    else if DASH <= p.buf then Continue(p.(buf := "", valid := true), events)
    else Return(true, p, events)
  }

  function Step(b: string, p: Parser, answer: Receiver, events: seq<Event>): (o: Outcome)
    ensures o.Continue? ==> |o.p.buf| <= |p.buf|
    ensures o.Continue? && |o.p.buf| == |p.buf| ==> p.state == NewEntry && o.p.state == Headers
  {
    match p.state
    case FirstBoundary => OnFirstBoundary(b, p, events)
    case NewEntry => OnNewEntry(p, events)
    case Headers => OnHeaders(p, answer, events)
    case Body => OnBody(b, p, answer, events)
    case Boundary => OnBoundary(p, events)
  }

  /** The loop of parse: it ends because every case but NewEntry uses up some of the buffer. */
  function Run(b: string, p: Parser, answer: Receiver, events: seq<Event>): (o: Outcome)
    ensures o.Return?
    decreases |p.buf|, if p.state == NewEntry then 1 else 0
  {
    if p.buf == "" then Return(true, p, events)
    else match Step(b, p, answer, events)
      case Return(ok, q, told) => Return(ok, q, told)
      case Continue(q, told) => Run(b, q, answer, told)
  }

  /** One call of parse. */
  function Parsed(b: string, p: Parser, data: string, answer: Receiver, events: seq<Event>): (o: Outcome)
    ensures o.Return?
  {
    Run(b, p.(buf := p.buf + data), answer, events)
  }

  const NEW_PARSER := Parser(FirstBoundary, false, NO_FILE, "")

  // ---------------------------------------------------------------- the class

  class MultipartFormDataParser {
    var boundary: string
    var state: State
    var valid: bool
    var file: FormData
    var buf: string
    var spos: nat
    var epos: nat

    ghost predicate Valid()
      reads this
    {
      spos <= epos <= |buf|
    }

    /** The part of the buffer in use. */
    ghost function Unread(): (s: string)
      requires Valid()
      reads this
    {
      buf[spos..epos]
    }

    ghost function View(): Parser
      requires Valid()
      reads this
    {
      Parser(state, valid, file, Unread())
    }

    ghost predicate Is(o: Outcome, go: bool, ok: bool, events: seq<Event>)
      requires Valid()
      reads this
    {
      o == if go then Continue(View(), events) else Return(ok, View(), events)
    }

    constructor (b: string)
      ensures Valid() && boundary == b && View() == NEW_PARSER
    {
      boundary, state, valid, file, buf, spos, epos := b, FirstBoundary, false, NO_FILE, "", 0, 0;
    }

    method StartWith(pos: nat, s: string) returns (r: bool)
      requires Valid() && spos <= pos <= epos
      ensures r == OccursAt(Unread(), s, pos - spos)
    {
      if epos - pos < |s| { return false; }
      ghost var here := Unread()[pos - spos..pos - spos + |s|];
      var i: nat := 0;
      while i < |s|
        invariant i <= |s| && forall k :: 0 <= k < i ==> here[k] == s[k]
      {
        assert here[i] == buf[i + pos];
        if buf[i + pos] != s[i] { return false; }
        i := i + 1;
      }
      r := true;
    }

    method BufFind(s: string) returns (r: nat)
      requires Valid() && s != ""
      ensures r == Find(Unread(), s)
    {
      hide FindFrom;
      ghost var text := Unread();
      SeekStart(text, s);
      var c := s[0];
      var off := spos;
      while off < epos
        invariant spos <= off <= epos && Seeking(text, s, off - spos)
      {
        var pos := off;
        while true
          invariant off <= pos <= epos && Seeking(text, s, pos - spos)
          decreases epos - pos
        {
          if pos == epos {
            SeekEnd(text, s);
            return epos - spos;
          }
          if buf[pos] == c { break; }
          NotHere(text, s, pos - spos);
          pos := pos + 1;
        }
        if |s| > epos - pos {
          NoRoom(text, s, pos - spos);
          return epos - spos;
        }
        var here := StartWith(pos, s);
        FoundOrNot(text, s, pos - spos);
        if here { return pos - spos; }
        off := pos + 1;
      }
      SeekEnd(text, s);
      r := epos - spos;
    }

    /** buf_head, and what buf_data gives the callback */
    method BufHead(n: nat) returns (s: string)
      requires Valid() && n <= |Unread()|
      ensures s == Unread()[..n]
    {
      s := buf[spos..spos + n];
    }

    method BufStartWith(s: string) returns (r: bool)
      requires Valid()
      ensures r == (s <= Unread())
    {
      r := StartWith(spos, s);
      if |s| <= |Unread()| { assert Unread()[0..|s|] == Unread()[..|s|]; }
    }

    method BufErase(n: nat)
      requires Valid() && n <= |Unread()|
      modifies this`spos
      ensures Valid() && Unread() == old(Unread())[n..]
    {
      spos := spos + n;
    }

    /** The unread part moves to the front, in place, before the data are copied behind it. */
    method BufAppend(data: string)
      requires Valid()
      modifies this`buf, this`spos, this`epos
      ensures Valid() && Unread() == old(Unread()) + data
    {
      ghost var text := Unread();
      var remaining := epos - spos;
      if remaining > 0 && spos > 0 {
        for i := 0 to remaining
          invariant spos == old(spos) && epos == old(epos) && |buf| == old(|buf|)
          invariant forall k :: 0 <= k < i ==> buf[k] == text[k]
          invariant forall k :: i <= k < remaining ==> buf[spos + k] == text[k]
        {
          buf := buf[i := buf[spos + i]];
        }
      }
      assert buf[..remaining] == text;
      spos, epos := 0, remaining;
      if remaining + |data| > |buf| {
        buf := buf + seq(remaining + |data| - |buf|, _ => '\0');
      }
      for i := 0 to |data|
        invariant spos == 0 && epos == remaining && remaining + |data| <= |buf|
        invariant buf[..remaining] == text
        invariant forall k :: 0 <= k < i ==> buf[remaining + k] == data[k]
      {
        buf := buf[epos + i := data[i]];
      }
      assert buf[remaining..remaining + |data|] == data;
      epos := epos + |data|;
    }

    method FirstBoundaryCase(ghost events: seq<Event>) returns (go: bool, ok: bool)
      requires Valid()
      modifies this`spos, this`state
      ensures Valid() && Is(OnFirstBoundary(boundary, old(View()), events), go, ok, events)
    {
      var line := DASH + boundary + CRLF;
      var pos := BufFind(line);
      BufErase(pos);
      if |line| > epos - spos { return false, true; }
      var here := BufStartWith(line);
      if !here { return false, false; }
      BufErase(|line|);
      state := NewEntry;
      go, ok := true, true;
    }

    method ReadHeaderLine(line: string) returns (ok: bool)
      modifies this`file
      ensures ReadHeader(line, old(file)) == if ok then Accept(file) else Reject(file)
    {
      ok := ParseHeader(line);
      if !ok { return; }
      if StartsWithIgnoringCase(line, TYPE) {
        file := file.(contentType := Trim(line[|TYPE|..]));
      } else {
        match Parameters(line)
        case None =>
        case Some(text) =>
          var params := ParseDispositionParams(text);
          var name := Lookup(params, "name");
          if name.None? { return false; }
          file := file.(name := name.value);
          var filename := Lookup(params, "filename");
          if filename.Some? { file := file.(filename := filename.value); }
          var extended := Lookup(params, "filename*");
          if extended.Some? {
            var encoded := ExtendedValue(extended.value);
            if encoded.None? { return false; }
            var decoded := Url.DecodeUrl(encoded.value, false);
            file := file.(filename := decoded);
          }
      }
    }

    method HeadersCase(answer: Receiver, events: seq<Event>) returns (go: bool, ok: bool, told: seq<Event>)
      requires Valid()
      modifies this`spos, this`state, this`valid, this`file
      ensures Valid() && Is(OnHeaders(old(View()), answer, events), go, ok, told)
    {
      hide HeaderLines, ReadHeader, FindFrom;
      told := events;
      ghost var target := HeaderLines(View(), answer, events);
      var pos := BufFind(CRLF);
      if pos > HEADER_MAX_LENGTH { return false, false, told; }
      while pos < epos - spos
        invariant Valid() && pos == Find(Unread(), CRLF)
        invariant HeaderLines(View(), answer, events) == target
        decreases epos - spos
      {
        ghost var p := View();
        if pos == 0 {
          EmptyLine(p, answer, events);
          told := events + [Header(file)];
          if !answer(told) {
            valid := false;
            return false, false, told;
          }
          BufErase(|CRLF|);
          state := Body;
          return true, true, told;
        }
        var line := BufHead(pos);
        var accepted := ReadHeaderLine(line);
        if !accepted {
          BadLine(p, answer, events, file);
          valid := false;
          return false, false, told;
        }
        NextLine(p, answer, events, file);
        BufErase(pos + |CRLF|);
        pos := BufFind(CRLF);
      }
      NoLine(View(), answer, events);
      go, ok := false, true;
    }

    method BodyCase(answer: Receiver, events: seq<Event>) returns (go: bool, ok: bool, told: seq<Event>)
      requires Valid()
      modifies this`spos, this`state, this`valid
      ensures Valid() && Is(OnBody(boundary, old(View()), answer, events), go, ok, told)
    {
      hide FindFrom;
      told := events;
      var delimiter := CRLF + DASH + boundary;
      if |delimiter| > epos - spos { return false, true, told; }
      var pos := BufFind(delimiter);
      if pos < epos - spos {
        var data := BufHead(pos);
        told := events + [Content(data)];
        if !answer(told) {
          valid := false;
          return false, false, told;
        }
        BufErase(pos + |delimiter|);
        state := Boundary;
        return true, true, told;
      }
      var len := epos - spos - |delimiter|;
      if len > 0 {
        var data := BufHead(len);
        told := events + [Content(data)];
        if !answer(told) {
          valid := false;
          return false, false, told;
        }
        BufErase(len);
      }
      go, ok := false, true;
    }

    method BoundaryCase(ghost events: seq<Event>) returns (go: bool, ok: bool)
      requires Valid()
      modifies this`spos, this`state, this`valid
      ensures Valid() && Is(OnBoundary(old(View()), events), go, ok, events)
    {
      if |CRLF| > epos - spos { return false, true; }
      var crlf := BufStartWith(CRLF);
      if crlf {
        BufErase(|CRLF|);
        state := NewEntry;
        return true, true;
      }
      if |DASH| > epos - spos { return false, true; }
      var dash := BufStartWith(DASH);
      if !dash { return false, true; }
      BufErase(|DASH|);
      valid := true;
      BufErase(epos - spos);
      go, ok := true, true;
    }

    /** One turn of the loop: the switch. */
    method Turn(answer: Receiver, events: seq<Event>) returns (go: bool, ok: bool, told: seq<Event>)
      requires Valid()
      modifies this`spos, this`state, this`valid, this`file
      ensures Valid() && Is(Step(boundary, old(View()), answer, events), go, ok, told)
    {
      told, go, ok := events, true, true;
      match state
      case FirstBoundary => go, ok := FirstBoundaryCase(events);
      case NewEntry =>
        file := NO_FILE;
        state := Headers;
      case Headers => go, ok, told := HeadersCase(answer, events);
      case Body => go, ok, told := BodyCase(answer, events);
      case Boundary => go, ok := BoundaryCase(events);
    }

    /** parse; the calls of the two callbacks are appended to `events`. */
    method Parse(data: string, answer: Receiver, events: seq<Event>) returns (ok: bool, told: seq<Event>)
      requires Valid()
      modifies this
      ensures Valid() && boundary == old(boundary)
      ensures Return(ok, View(), told) == Parsed(boundary, old(View()), data, answer, events)
    {
      ghost var target := Parsed(boundary, View(), data, answer, events);
      told := events;
      BufAppend(data);
      while epos - spos > 0
        invariant Valid() && boundary == old(boundary)
        invariant Run(boundary, View(), answer, told) == target
        decreases epos - spos, if state == NewEntry then 1 else 0
      {
        RunNext(boundary, View(), answer, told);
        var go: bool;
        go, ok, told := Turn(answer, told);
        if !go { return; }
      }
      ok := true;
    }
  }

  /** No occurrence has been passed by. */
  ghost predicate Seeking(s: string, p: string, i: nat) {
    i <= |s| && FindFrom(s, p, i) == Find(s, p)
  }

  lemma SeekStart(s: string, p: string)
    ensures Seeking(s, p, 0)
  {
  }

  lemma SeekEnd(s: string, p: string)
    requires Seeking(s, p, |s|)
    ensures Find(s, p) == |s|
  {
  }

  lemma NotHere(s: string, p: string, i: nat)
    requires p != "" && i < |s| && s[i] != p[0] && Seeking(s, p, i)
    ensures Seeking(s, p, i + 1)
  {
    if i + |p| <= |s| { assert s[i..i + |p|][0] == s[i]; }
  }

  lemma FoundOrNot(s: string, p: string, i: nat)
    requires i < |s| && Seeking(s, p, i)
    ensures if OccursAt(s, p, i) then Find(s, p) == i else Seeking(s, p, i + 1)
  {
  }

  lemma NoRoom(s: string, p: string, i: nat)
    requires Seeking(s, p, i) && |p| > |s| - i
    ensures Find(s, p) == |s|
  {
  }

  lemma NextLine(p: Parser, answer: Receiver, events: seq<Event>, file: FormData)
    requires var pos := Find(p.buf, CRLF); 0 < pos < |p.buf| && ReadHeader(p.buf[..pos], p.file) == Accept(file)
    ensures HeaderLines(p, answer, events)
         == HeaderLines(p.(buf := p.buf[Find(p.buf, CRLF) + |CRLF|..], file := file), answer, events)
  {
  }

  lemma BadLine(p: Parser, answer: Receiver, events: seq<Event>, file: FormData)
    requires var pos := Find(p.buf, CRLF); 0 < pos < |p.buf| && ReadHeader(p.buf[..pos], p.file) == Reject(file)
    ensures HeaderLines(p, answer, events) == Return(false, p.(valid := false, file := file), events)
  {
  }

  lemma EmptyLine(p: Parser, answer: Receiver, events: seq<Event>)
    requires Find(p.buf, CRLF) == 0 < |p.buf|
    ensures HeaderLines(p, answer, events)
         == var told := events + [Header(p.file)];
            if answer(told) then Continue(p.(buf := p.buf[|CRLF|..], state := Body), told)
            else Return(false, p.(valid := false), told)
  {
  }

  lemma NoLine(p: Parser, answer: Receiver, events: seq<Event>)
    requires Find(p.buf, CRLF) == |p.buf|
    ensures HeaderLines(p, answer, events) == Return(true, p, events)
  {
  }

  lemma RunNext(b: string, p: Parser, answer: Receiver, events: seq<Event>)
    requires p.buf != ""
    ensures var o := Step(b, p, answer, events);
            Run(b, p, answer, events) == if o.Return? then o else Run(b, o.p, answer, o.events)
  {
  }
}
