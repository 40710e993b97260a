/**
 * The multipart serializer of file_server/httplib.h, and its text seen from the parser: what is
 * still to be read at each place.
 */
module MultipartSerializer {
  import opened MultipartHeader
  import opened MultipartParser
  import opened Search
  import opened Text

  // ---------------------------------------------------------------- the serializer

  /** The header lines of an item, each ended by CRLF, and the empty line. */
  function TypeText(item: Item): string {
    if item.contentType == "" then CRLF else TypeLine(item) + CRLF + CRLF
  }

  function HeaderText(item: Item): string {
    DispositionLine(item) + CRLF + TypeText(item)
  }

  function SerializedFrom(items: seq<Item>, b: string, finish: bool, i: nat): string
    requires i <= |items|
    decreases |items| - i
  {
    if i == |items| then if finish then DASH + b + DASH + CRLF else ""
    else FirstLine(b) + HeaderText(items[i]) + (items[i].content + CRLF) + SerializedFrom(items, b, finish, i + 1)
  }

  /** serialize_multipart_formdata_item_begin */
  method ItemBegin(item: Item, b: string) returns (body: string)
    ensures body == FirstLine(b) + HeaderText(item)
  {
    body := "--" + b + "\r\n";
    body := body + ("Content-Disposition: form-data; name=\"" + item.name + "\"");
    if item.filename != "" { body := body + ("; filename=\"" + item.filename + "\""); }
    body := body + "\r\n";
    if item.contentType != "" { body := body + ("Content-Type: " + item.contentType + "\r\n"); }
    body := body + "\r\n";
    ItemBeginIs(item, b, body);
  }

  lemma ItemBeginIs(item: Item, b: string, body: string)
    requires body == "--" + b + "\r\n" + ("Content-Disposition: form-data; name=\"" + item.name + "\"")
                     + (if item.filename != "" then "; filename=\"" + item.filename + "\"" else "") + "\r\n"
                     + (if item.contentType != "" then "Content-Type: " + item.contentType + "\r\n" else "") + "\r\n"
    ensures body == FirstLine(b) + HeaderText(item)
  {
    DispositionLineIs(item);
    TypeTextIs(item);
    Glue(FirstLine(b), "Content-Disposition: form-data; name=\"" + item.name + "\"",
         if item.filename != "" then "; filename=\"" + item.filename + "\"" else "",
         CRLF, if item.contentType != "" then "Content-Type: " + item.contentType + "\r\n" else "", CRLF);
  }

  lemma Glue(a: string, b: string, c: string, d: string, e: string, f: string)
    ensures a + b + c + d + e + f == a + (b + c + d + (e + f))
  {
  }

  lemma Literals()
    ensures DISPOSITION + " " + FORM_DATA + " " + "name=\"" == "Content-Disposition: form-data; name=\""
    ensures ";" + (" " + "filename=\"") == "; filename=\""
  {
  }

  lemma DispositionLineIs(item: Item)
    ensures DispositionLine(item) == "Content-Disposition: form-data; name=\"" + item.name + "\""
                                     + if item.filename != "" then "; filename=\"" + item.filename + "\"" else ""
  {
    Literals();
    GlueName(DISPOSITION + " " + FORM_DATA + " ", "name=\"", item.name, "\"", ";", " ", "filename=\"", item.filename);
  }

  lemma GlueName(a: string, b: string, name: string, q: string, c: string, d: string, e: string, filename: string)
    ensures a + (b + name + q) == a + b + name + q
    ensures a + (b + name + q + c + (d + (e + filename + q))) == a + b + name + q + (c + (d + e) + filename + q)
  {
  }

  lemma TypeTextIs(item: Item)
    ensures TypeText(item)
         == (if item.contentType != "" then "Content-Type: " + item.contentType + "\r\n" else "") + CRLF
  {
  }

  /** serialize_multipart_formdata */
  method Serialize(items: seq<Item>, b: string, finish: bool) returns (body: string)
    ensures body == SerializedFrom(items, b, finish, 0)
  {
    hide HeaderText, FirstLine;
    ghost var all := SerializedFrom(items, b, finish, 0);
    body := "";
    for i := 0 to |items|
      invariant body + SerializedFrom(items, b, finish, i) == all
    {
      var begin := ItemBegin(items[i], b);
      WriteItem(items, b, finish, i, body, begin);
      body := body + begin;
      body := body + (items[i].content + "\r\n");
    }
    if finish { body := body + ("--" + b + "--\r\n"); }
  }

  predicate BoundaryChar(c: char) {
    '0' <= c <= '9' || 'A' <= c <= 'Z' || 'a' <= c <= 'z' || c == '-' || c == '_'
  }

  /** is_multipart_boundary_chars_valid; a boundary that passes it can be sent. */
  method BoundaryCharsValid(boundary: string) returns (valid: bool)
    ensures valid == forall i :: 0 <= i < |boundary| ==> BoundaryChar(boundary[i])
    ensures valid ==> '\r' !in boundary
  {
    valid := true;
    for i := 0 to |boundary|
      invariant valid && forall k :: 0 <= k < i ==> BoundaryChar(boundary[k])
    {
      if !BoundaryChar(boundary[i]) {
        valid := false;
        break;
      }
    }
  }

  lemma WriteItem(items: seq<Item>, b: string, finish: bool, i: nat, body: string, begin: string)
    requires i < |items| && begin == FirstLine(b) + HeaderText(items[i])
    ensures body + SerializedFrom(items, b, finish, i)
         == body + begin + (items[i].content + CRLF) + SerializedFrom(items, b, finish, i + 1)
  {
    hide HeaderText, FirstLine;
    Regroup4(body, begin, items[i].content + CRLF, SerializedFrom(items, b, finish, i + 1));
  }

  lemma Regroup4(a: string, b: string, c: string, d: string)
    ensures a + (b + c + d) == a + b + c + d
  {
  }

  // ---------------------------------------------------------------- what is still to be read

  /** An item that can be told apart in the text: clean header fields, no delimiter in the content. */
  ghost predicate Fits(item: Item, b: string) {
    Clean(item) && NoneBefore(item.content, Delimiter(b), |item.content|)
  }

  ghost predicate Sendable(items: seq<Item>, b: string) {
    && items != [] && '\r' !in b
    && forall i :: 0 <= i < |items| ==> Fits(items[i], b)
  }

  /** What follows the delimiter after `i` items. */
  function After(items: seq<Item>, b: string, i: nat): string
    requires i <= |items|
    decreases |items| - i, 2
  {
    if i == |items| then DASH + CRLF else CRLF + Entry(items, b, i)
  }

  /** What follows the boundary line of item `i`. */
  function Entry(items: seq<Item>, b: string, i: nat): string
    requires i < |items|
    decreases |items| - i, 1
  {
    HeaderText(items[i]) + BodyText(items, b, i, 0)
  }

  /** What follows the first `k` characters of the content of item `i`. */
  function BodyText(items: seq<Item>, b: string, i: nat, k: nat): string
    requires i < |items| && k <= |items[i].content|
    decreases |items| - i, 0
  {
    items[i].content[k..] + Delimiter(b) + After(items, b, i + 1)
  }

  /** The CRLF that ends an item belongs to the delimiter that follows. */
  lemma {:induction false} CrlfBelongs(items: seq<Item>, b: string, i: nat)
    requires i <= |items|
    ensures CRLF + SerializedFrom(items, b, true, i) == Delimiter(b) + After(items, b, i)
    decreases |items| - i
  {
    hide HeaderText;
    if i == |items| {
      GlueEnd(CRLF, DASH, b);
    } else {
      CrlfBelongs(items, b, i + 1);
      assert items[i].content[0..] == items[i].content;
      assert Entry(items, b, i) == HeaderText(items[i]) + BodyText(items, b, i, 0);
      GlueItem(CRLF, DASH, b, HeaderText(items[i]), items[i].content,
               SerializedFrom(items, b, true, i + 1), Delimiter(b), After(items, b, i + 1));
    }
  }

  lemma GlueEnd(c: string, d: string, b: string)
    ensures c + (d + b + d + c) == c + d + b + (d + c)
  {
  }

  lemma GlueItem(c: string, d: string, b: string, h: string, content: string, rest: string,
                 delimiter: string, after: string)
    requires delimiter == c + d + b && c + rest == delimiter + after
    ensures c + (d + b + c + h + (content + c) + rest) == delimiter + (c + (h + (content + delimiter + after)))
  {
    assert c + (d + b + c + h + (content + c) + rest) == c + d + b + c + h + content + (c + rest);
    assert delimiter + (c + (h + (content + delimiter + after))) == c + d + b + c + h + content + (delimiter + after);
  }

  lemma SerializedIs(items: seq<Item>, b: string)
    requires items != []
    ensures SerializedFrom(items, b, true, 0) == FirstLine(b) + Entry(items, b, 0)
  {
    hide HeaderText, FirstLine;
    CrlfBelongs(items, b, 1);
    assert items[0].content[0..] == items[0].content;
    GlueFirst(FirstLine(b), HeaderText(items[0]), items[0].content, CRLF, SerializedFrom(items, b, true, 1),
              Delimiter(b), After(items, b, 1));
  }

  lemma GlueFirst(a: string, h: string, content: string, c: string, rest: string, delimiter: string, after: string)
    requires c + rest == delimiter + after
    ensures a + h + (content + c) + rest == a + (h + (content + delimiter + after))
  {
    assert a + h + (content + c) + rest == a + h + content + (c + rest);
  }

  // ---------------------------------------------------------------- lengths

  /** How much is left at the first header line of item `i`, */
  function EntryLeft(items: seq<Item>, b: string, i: nat): nat
    requires i < |items|
  {
    |Entry(items, b, i)|
  }

  /** after that line, */
  function TypeLeft(items: seq<Item>, b: string, i: nat): nat
    requires i < |items|
  {
    |TypeText(items[i])| + |BodyText(items, b, i, 0)|
  }

  /** and at the empty line. */
  function BlankLeft(items: seq<Item>, b: string, i: nat): nat
    requires i < |items|
  {
    |CRLF| + |BodyText(items, b, i, 0)|
  }

  function AfterLeft(items: seq<Item>, b: string, i: nat): nat
    requires i <= |items|
  {
    |After(items, b, i)|
  }

  lemma Lengths(items: seq<Item>, b: string, i: nat)
    requires i < |items|
    ensures EntryLeft(items, b, i) == |DispositionLine(items[i])| + 2 + TypeLeft(items, b, i)
    ensures TypeLeft(items, b, i)
         == BlankLeft(items, b, i) + if items[i].contentType == "" then 0 else |TypeLine(items[i])| + 2
    ensures BlankLeft(items, b, i) == 2 + |items[i].content| + |Delimiter(b)| + AfterLeft(items, b, i + 1)
    ensures AfterLeft(items, b, i) == 2 + EntryLeft(items, b, i) && AfterLeft(items, b, |items|) == 4
  {
    hide DispositionLine, TypeLine;
  }

  /** The later an item, the less is left. */
  lemma {:induction false} LeftShrinks(items: seq<Item>, b: string, i: nat, j: nat)
    requires i <= j <= |items|
    ensures AfterLeft(items, b, j) <= AfterLeft(items, b, i)
    ensures i < j ==> AfterLeft(items, b, j) < BlankLeft(items, b, i)
    decreases j - i
  {
    hide Entry, BodyText, After, EntryLeft, TypeLeft, BlankLeft, AfterLeft;
    if i < j {
      Lengths(items, b, i);
      LeftShrinks(items, b, i + 1, j);
    }
  }
}
