/**
 * The header lines of a multipart/form-data part: how MultipartFormDataParser reads one
 * (file_server/httplib.h, lines 4582-4643), and what the serializer writes.
 */
module MultipartHeader {
  import opened Options
  import opened Text
  import Url

  datatype FormData = FormData(name: string, filename: string, contentType: string)
  datatype Item = Item(name: string, content: string, filename: string, contentType: string)

  /** A header line is taken or refused; either way it may already have changed what is known of the part. */
  datatype Read = Accept(file: FormData) | Reject(file: FormData)

  const NO_FILE := FormData("", "", "")

  // ---------------------------------------------------------------- parse_header

  /** A name, a colon, and a value that is not blank. */
  predicate IsHeader(line: string) {
    var end := DropBlanks(line, |line|);
    var colon := IndexOf(line, ':', 0);
    0 < colon && colon + 1 < end
  }

  /** parse_header, without the call back: the parser discards what it is told. */
  method ParseHeader(line: string) returns (ok: bool)
    ensures ok == IsHeader(line)
  {
    var end: nat := |line|;
    while end > 0 && IsBlank(line[end - 1])
      invariant end <= |line| && DropBlanks(line, end) == DropBlanks(line, |line|)
    {
      end := end - 1;
    }
    var p: nat := 0;
    while p < end && line[p] != ':'
      invariant p <= end && IndexOf(line, ':', p) == IndexOf(line, ':', 0)
    {
      p := p + 1;
    }
    if p == end { return false; }
    var keyEnd := p;
    p := p + 1;
    while p < end && IsBlank(line[p])
      invariant keyEnd < p <= end && forall k :: keyEnd < k < p ==> IsBlank(line[k])
    {
      p := p + 1;
    }
    ok := p < end && keyEnd != 0;
  }

  /** Its first colon has something before it, and something that is not blank after it. */
  ghost predicate NameAndValue(line: string, colon: nat) {
    && 0 < colon < |line| && line[colon] == ':' && (forall k :: 0 <= k < colon ==> line[k] != ':')
    && exists k :: colon < k < |line| && line[k] != ' ' && line[k] != '\t'
  }

  /** Only such lines are header lines: a line without a colon, a name or a value is refused. */
  lemma HeaderIff(line: string, file: FormData)
    ensures IsHeader(line) <==> exists colon :: NameAndValue(line, colon)
    ensures (forall colon :: !NameAndValue(line, colon)) ==> ReadHeader(line, file) == Reject(file)
  {
    var end, colon := DropBlanks(line, |line|), IndexOf(line, ':', 0);
    DropBlanksGives(line, |line|);
    IndexOfIs(line, ':', 0);
    if IsHeader(line) {
      assert line[end - 1] != ' ' && line[end - 1] != '\t';
      assert NameAndValue(line, colon);
    } else if c: nat :| NameAndValue(line, c) {
      IndexOfUnique(line, ':', 0, c);
    }
  }

  lemma {:induction false} DropBlanksGives(s: string, i: nat)
    requires i <= |s|
    ensures var r := DropBlanks(s, i);
            (forall k :: r <= k < i ==> IsBlank(s[k])) && (r > 0 ==> !IsBlank(s[r - 1]))
  {
    if i > 0 && IsBlank(s[i - 1]) { DropBlanksGives(s, i - 1); }
  }

  // ---------------------------------------------------------------- Content-Disposition

  const TYPE := "Content-Type:"
  const DISPOSITION := "Content-Disposition:"
  const FORM_DATA := "form-data;"
  const UTF8 := "UTF-8''"

  /** What `.` of a regular expression does not match. */
  predicate OneLine(s: string) {
    '\r' !in s && '\n' !in s
  }

  /** What the expression for Content-Disposition captures: the parameters. */
  function Parameters(line: string): Option<string> {
    if !StartsWithIgnoringCase(line, DISPOSITION) then None
    else
      var value := line[SkipSpaces(line, |DISPOSITION|)..];
      if !StartsWithIgnoringCase(value, FORM_DATA) then None
      else
        var ps := value[SkipSpaces(value, |FORM_DATA|)..];
        if OneLine(ps) then Some(ps) else None
  }

  /** What the expression for an encoded file name captures. */
  function ExtendedValue(s: string): Option<string> {
    if StartsWithIgnoringCase(s, UTF8) && |s| > |UTF8| && OneLine(s[|UTF8|..])
    then Some(s[|UTF8|..]) else None
  }

  type Params = seq<(string, string)>

  /** One parameter: the first token is the key, the last of the others the value. */
  function Parameter(kv: string): Params {
    var parts := Tokens(kv, '=');
    if parts == [] then []
    else [(Unquote(parts[0]), Unquote(if |parts| > 1 then parts[|parts| - 1] else ""))]
  }

  /** The parameters of the first `n` tokens; a token seen before is skipped. */
  function Collected(tokens: seq<string>, n: nat): Params
    requires n <= |tokens|
  {
    if n == 0 then []
    else Collected(tokens, n - 1) + if tokens[n - 1] in tokens[..n - 1] then [] else Parameter(tokens[n - 1])
  }

  function DispositionParams(s: string): Params {
    Collected(Tokens(s, ';'), |Tokens(s, ';')|)
  }

  /** The inner split of parse_disposition_params. */
  method ParseParameter(kv: string) returns (param: Params)
    ensures param == Parameter(kv)
  {
    var parts := Split(kv, '=');
    var key, val := "", "";
    for j := 0 to |parts|
      invariant key == if j == 0 then "" else parts[0]
      invariant val == if j <= 1 then "" else parts[j - 1]
    {
      TokenNotEmpty(kv, '=', 0);
      if key == "" { key := parts[j]; } else { val := parts[j]; }
    }
    if parts != [] { TokenNotEmpty(kv, '=', 0); }
    param := if key != "" then [(Unquote(key), Unquote(val))] else [];
  }

  /** parse_disposition_params; the order in which the multimap keeps different keys plays no role. */
  method ParseDispositionParams(s: string) returns (params: Params)
    ensures params == DispositionParams(s)
  {
    var tokens := Split(s, ';');
    var cache: set<string> := {};
    params := [];
    for i := 0 to |tokens|
      invariant Collecting(tokens, i, cache, params)
    {
      var param: Params := [];
      if tokens[i] !in cache { param := ParseParameter(tokens[i]); }
      CollectNext(tokens, i, cache, params, param);
      cache, params := cache + {tokens[i]}, params + param;
    }
  }

  ghost predicate Collecting(tokens: seq<string>, i: nat, cache: set<string>, params: Params) {
    && i <= |tokens| && params == Collected(tokens, i)
    && forall t :: t in cache <==> t in tokens[..i]
  }

  lemma CollectNext(tokens: seq<string>, i: nat, cache: set<string>, params: Params, param: Params)
    requires i < |tokens| && Collecting(tokens, i, cache, params)
    requires param == if tokens[i] in cache then [] else Parameter(tokens[i])
    ensures Collecting(tokens, i + 1, cache + {tokens[i]}, params + param)
  {
    hide Parameter, Collected;
    CollectedNext(tokens, i);
    assert tokens[..i + 1] == tokens[..i] + [tokens[i]];
  }

  lemma CollectedNext(tokens: seq<string>, i: nat)
    requires i < |tokens|
    ensures Collected(tokens, i + 1)
         == Collected(tokens, i) + if tokens[i] in tokens[..i] then [] else Parameter(tokens[i])
  {
    hide Parameter;
  }

  lemma TokenNotEmpty(s: string, d: char, j: nat)
    requires j < |Tokens(s, d)|
    ensures Tokens(s, d)[j] != ""
  {
    var pieces := PiecesFrom(s, d, 0);
    KeptNotEmpty(pieces, |pieces|, j);
  }

  lemma {:induction false} KeptNotEmpty(pieces: seq<string>, n: nat, j: nat)
    requires n <= |pieces| && j < |Keep(pieces, n)|
    ensures Keep(pieces, n)[j] != ""
  {
    if j < |Keep(pieces, n - 1)| { KeptNotEmpty(pieces, n - 1, j); }
  }

  /** params.find: the first value that was stored under the key. */
  function LookupFrom(params: Params, key: string, i: nat): Option<string>
    requires i <= |params|
    decreases |params| - i
  {
    if i == |params| then None
    else if params[i].0 == key then Some(params[i].1)
    else LookupFrom(params, key, i + 1)
  }

  function Lookup(params: Params, key: string): Option<string> {
    LookupFrom(params, key, 0)
  }

  // ---------------------------------------------------------------- one header line

  /** What the parameters make of the part: the name is required, and filename* replaces filename. */
  function Described(params: Params, file: FormData): Read {
    match Lookup(params, "name")
    case None => Reject(file)
    case Some(name) =>
      var plain := match Lookup(params, "filename")
                   case None => file.(name := name)
                   case Some(f) => file.(name := name, filename := f);
      match Lookup(params, "filename*")
      case None => Accept(plain)
      case Some(e) =>
        match ExtendedValue(e)
        case None => Reject(plain)
        case Some(v) => Accept(plain.(filename := Url.Decoded(v, false)))
  }

  function ReadHeader(line: string, file: FormData): Read {
    if !IsHeader(line) then Reject(file)
    else if StartsWithIgnoringCase(line, TYPE) then
      Accept(file.(contentType := Trim(line[|TYPE|..])))
    else match Parameters(line)
         case None => Accept(file)
         case Some(ps) => Described(DispositionParams(ps), file)
  }

  // ---------------------------------------------------------------- what the serializer writes

  /** Text that survives inside a quoted parameter. */
  predicate Quotable(s: string) {
    OneLine(s) && ';' !in s && '=' !in s
  }

  function NameText(name: string): string {
    "name=\"" + name + "\""
  }

  function FileText(filename: string): string {
    "filename=\"" + filename + "\""
  }

  function ParamText(item: Item): string {
    if item.filename == "" then NameText(item.name)
    else NameText(item.name) + ";" + (" " + FileText(item.filename))
  }

  function DispositionLine(item: Item): string {
    DISPOSITION + " " + FORM_DATA + " " + ParamText(item)
  }

  function TypeLine(item: Item): string {
    TYPE + " " + item.contentType
  }

  /** Header fields that the serializer does not alter by writing them. */
  predicate Clean(item: Item) {
    && Quotable(item.name) && Quotable(item.filename)
    && OneLine(item.contentType) && Trim(item.contentType) == item.contentType
  }

  /** A quoted parameter is one token, and its two halves are the key and the value. */
  lemma QuotedParameter(key: string, value: string, kv: string)
    requires kv == key + "=" + ("\"" + value + "\"")
    requires '=' !in key && ';' !in key && Quotable(value)
    requires key != "" && key[0] != '"' && !IsBlank(key[0]) && !IsBlank(key[|key| - 1])
    ensures Parameter(kv) == [(key, value)]
    ensures ';' !in kv && OneLine(value)
  {
    hide Tokens, Trim;
    var quoted := "\"" + value + "\"";
    TrimClean(key);
    TrimClean(quoted);
    assert kv == key + ['='] + quoted;
    TokensAt(key, '=', quoted);
    TokensOne(quoted, '=');
    assert Tokens(kv, '=') == [key, quoted];
    assert quoted[1..|quoted| - 1] == value;
  }

  lemma NameParameter(name: string)
    requires Quotable(name)
    ensures Parameter(NameText(name)) == [("name", name)]
    ensures Token(NameText(name)) == [NameText(name)] && ';' !in NameText(name)
  {
    hide Parameter, Token;
    assert NameText(name) == "name" + "=" + ("\"" + name + "\"");
    QuotedParameter("name", name, NameText(name));
    BlankBefore(NameText(name));
  }

  lemma FileParameter(filename: string)
    requires Quotable(filename)
    ensures Parameter(FileText(filename)) == [("filename", filename)]
    ensures Token(" " + FileText(filename)) == [FileText(filename)] && ';' !in " " + FileText(filename)
  {
    hide Parameter, Token;
    assert FileText(filename) == "filename" + "=" + ("\"" + filename + "\"");
    QuotedParameter("filename", filename, FileText(filename));
    BlankBefore(FileText(filename));
  }

  lemma CollectedOne(t: string)
    ensures Collected([t], 1) == Parameter(t)
  {
    assert Collected([t], 0) == [];
  }

  lemma CollectedTwo(t: string, u: string)
    requires t != u
    ensures Collected([t, u], 2) == Parameter(t) + Parameter(u)
  {
    assert [t, u][..1] == [t] && [t, u][..0] == [];
    assert Collected([t, u], 0) == [];
    assert Collected([t, u], 1) == Parameter(t);
  }

  lemma ParamsOf(item: Item)
    requires Clean(item)
    ensures DispositionParams(ParamText(item))
         == [("name", item.name)] + if item.filename == "" then [] else [("filename", item.filename)]
  {
    var t, u := NameText(item.name), FileText(item.filename);
    NameParameter(item.name);
    if item.filename == "" {
      TokensOne(t, ';');
      CollectedOne(t);
    } else {
      FileParameter(item.filename);
      assert ParamText(item) == t + [';'] + (" " + u);
      TokensAt(t, ';', " " + u);
      TokensOne(" " + u, ';');
      assert Tokens(ParamText(item), ';') == [t, u];
      assert t[0] != u[0];
      CollectedTwo(t, u);
    }
  }

  lemma DescribedBy(item: Item, file: FormData)
    requires Clean(item) && file.filename == ""
    ensures Described(DispositionParams(ParamText(item)), file)
         == Accept(file.(name := item.name, filename := item.filename))
  {
    ParamsOf(item);
    var ps := DispositionParams(ParamText(item));
    assert LookupFrom(ps, "filename*", |ps|) == None;
    if |ps| == 1 {
      assert LookupFrom(ps, "filename", 1) == None;
    } else {
      assert LookupFrom(ps, "filename", 1) == Some(item.filename);
      assert LookupFrom(ps, "filename*", 1) == None;
    }
  }

  /** A text made of two halves with one space between them, taken apart again. */
  lemma Halves(s: string, p: string, q: string)
    requires s == p + " " + q && q != "" && !IsSpace(q[0])
    ensures s[SkipSpaces(s, |p|)..] == q && StartsWithIgnoringCase(s, p)
  {
    assert s[|p|] == ' ' && s[|p| + 1] == q[0];
    assert SkipSpaces(s, |p|) == |p| + 1;
  }

  lemma ParametersOf(item: Item)
    requires Clean(item)
    ensures Parameters(DispositionLine(item)) == Some(ParamText(item))
  {
    var line, ps := DispositionLine(item), ParamText(item);
    var value := FORM_DATA + " " + ps;
    Regroup(DISPOSITION, FORM_DATA, ps);
    ParamTextOneLine(item);
    assert value[0] == 'f';
    Halves(line, DISPOSITION, value);
    Halves(value, FORM_DATA, ps);
  }

  lemma Regroup(a: string, b: string, c: string)
    ensures a + " " + b + " " + c == a + " " + (b + " " + c)
  {
  }

  lemma OneLineJoin(s: string, t: string)
    ensures OneLine(s + t) <==> OneLine(s) && OneLine(t)
  {
    assert forall c :: c in s + t <==> c in s || c in t;
  }

  lemma QuotedOneLine(key: string, value: string)
    requires OneLine(key) && OneLine(value) && key != ""
    ensures var s := key + value + "\""; OneLine(s) && s[0] == key[0] && s[|s| - 1] == '"'
  {
    OneLineJoin(key, value);
    OneLineJoin(key + value, "\"");
  }

  lemma ParamTextOneLine(item: Item)
    requires Clean(item)
    ensures var s := ParamText(item); s != "" && OneLine(s) && s[0] == 'n' && s[|s| - 1] == '"'
  {
    hide OneLine;
    var name, file := NameText(item.name), FileText(item.filename);
    assert OneLine("name=\"") && OneLine("filename=\"") && OneLine(";") && OneLine(" ") by { OneLineTexts(); }
    QuotedOneLine("name=\"", item.name);
    QuotedOneLine("filename=\"", item.filename);
    OneLineJoin(" ", file);
    OneLineJoin(name, ";");
    OneLineJoin(name + ";", " " + file);
  }

  lemma OneLineTexts()
    ensures OneLine("name=\"") && OneLine("filename=\"") && OneLine(";") && OneLine(" ")
  {
  }

  /** A header name with its colon. */
  predicate IsName(p: string) {
    |p| > 1 && p[|p| - 1] == ':' && OneLine(p) && forall i :: 0 <= i < |p| - 1 ==> p[i] != ':'
  }

  lemma NamesAreNames()
    ensures IsName(DISPOSITION) && IsName(TYPE) && OneLine(FORM_DATA) && OneLine(" ")
  {
  }

  /** A line made of a header name, a colon and a value that does not end in a blank is a header. */
  lemma ColonIsHeader(p: string, value: string)
    requires IsName(p) && value != "" && !IsBlank(value[|value| - 1])
    ensures IsHeader(p + value)
    ensures OneLine(value) ==> OneLine(p + value)
  {
    var line := p + value;
    IndexOfUnique(line, ':', 0, |p| - 1);
    assert line[|line| - 1] == value[|value| - 1];
    OneLineJoin(p, value);
  }

  lemma DispositionIsHeader(item: Item)
    requires Clean(item)
    ensures IsHeader(DispositionLine(item)) && OneLine(DispositionLine(item))
  {
    hide ParamText, OneLine, IsName;
    var ps := ParamText(item);
    ParamTextOneLine(item);
    NamesAreNames();
    OneLineJoin(" ", FORM_DATA);
    OneLineJoin(" " + FORM_DATA, " ");
    OneLineJoin(" " + FORM_DATA + " ", ps);
    ColonIsHeader(DISPOSITION, " " + FORM_DATA + " " + ps);
    Regroup3(DISPOSITION, FORM_DATA, ps);
  }

  lemma NotType(line: string, rest: string)
    requires line == DISPOSITION + rest
    ensures !StartsWithIgnoringCase(line, TYPE)
  {
    assert line[8] == DISPOSITION[8] == 'D';
    assert TYPE[8] == 'T';
    assert ToLower('D') != ToLower('T');
  }

  lemma Regroup3(a: string, b: string, c: string)
    ensures a + " " + b + " " + c == a + (" " + b + " " + c)
  {
  }

  /** The line for the name (and file name) of an item sets just these two. */
  lemma ReadDisposition(item: Item, file: FormData)
    requires Clean(item) && file.filename == ""
    ensures ReadHeader(DispositionLine(item), file) == Accept(file.(name := item.name, filename := item.filename))
    ensures OneLine(DispositionLine(item))
  {
    DispositionIsHeader(item);
    Regroup3(DISPOSITION, FORM_DATA, ParamText(item));
    NotType(DispositionLine(item), " " + FORM_DATA + " " + ParamText(item));
    ParametersOf(item);
    DescribedBy(item, file);
  }

  lemma TypeOneLine(item: Item)
    requires Clean(item)
    ensures OneLine(TypeLine(item))
  {
    hide OneLine;
    NamesAreNames();
    OneLineJoin(TYPE, " ");
    OneLineJoin(TYPE + " ", item.contentType);
  }

  /** The line for the content type of an item sets just that. */
  lemma ReadType(item: Item, file: FormData)
    requires Clean(item) && item.contentType != ""
    ensures ReadHeader(TypeLine(item), file) == Accept(file.(contentType := item.contentType))
    ensures OneLine(TypeLine(item))
  {
    hide IsHeader, Trim, StartsWithIgnoringCase;
    var line, ct := TypeLine(item), item.contentType;
    TrimmedEnds(ct);
    TypeOneLine(item);
    NamesAreNames();
    assert line == TYPE + (" " + ct);
    ColonIsHeader(TYPE, " " + ct);
    TypeValue(line, TYPE, ct);
  }

  lemma TypeValue(line: string, p: string, ct: string)
    requires line == p + " " + ct && ct != "" && !IsBlank(ct[0]) && !IsBlank(ct[|ct| - 1])
    ensures StartsWithIgnoringCase(line, p) && Trim(line[|p|..]) == ct
  {
    assert line[|p|..] == " " + ct;
    TrimIs(" " + ct, 1, |ct| + 1);
    assert (" " + ct)[1..|ct| + 1] == ct;
  }

  lemma TrimmedEnds(s: string)
    requires s != "" && Trim(s) == s
    ensures !IsBlank(s[0]) && !IsBlank(s[|s| - 1])
  {
    assert SkipBlanks(s, 0) == 0 && DropBlanks(s, |s|) == |s|;
  }
}
