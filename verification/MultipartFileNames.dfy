/**
 * Header lines of a multipart part that this serializer does not write but other clients do: names
 * in any case, any white space after them, and encoded file names (RFC 5987), which replace plain ones.
 */
module MultipartFileNames {
  import FormText
  import opened MultipartHeader
  import opened Options
  import opened Text
  import Url

  /** Equal but for the case of letters. */
  predicate Alike(s: string, t: string) {
    |s| == |t| && forall i :: 0 <= i < |s| ==> ToLower(s[i]) == ToLower(t[i])
  }

  predicate White(w: string) {
    forall i :: 0 <= i < |w| ==> IsSpace(w[i])
  }

  /** What may follow the white space after a header name. */
  predicate Solid(s: string) {
    s != "" && !IsSpace(s[0]) && !IsBlank(s[|s| - 1])
  }

  lemma {:induction false} SkipWhite(p: string, w: string, rest: string, i: nat)
    requires White(w) && i <= |w| && (rest == "" || !IsSpace(rest[0]))
    ensures SkipSpaces(p + w + rest, |p| + i) == |p + w|
    decreases |w| - i
  {
    var s := p + w + rest;
    if i < |w| {
      assert s[|p| + i] == w[i];
      SkipWhite(p, w, rest, i + 1);
    } else if rest != "" {
      assert s[|p + w|] == rest[0];
    }
  }

  lemma ColonStays(c: char)
    ensures ToLower(c) == ':' <==> c == ':'
    ensures ToLower(':') == ':' && ToLower('\r') == '\r' && ToLower('\n') == '\n'
  {
  }

  /** The name of a header in another case. */
  lemma NameAlike(d: string, name: string)
    requires Alike(d, name) && |name| > 1 && name[|name| - 1] == ':'
    requires forall i :: 0 <= i < |name| - 1 ==> name[i] != ':'
    ensures |d| > 1 && d[|d| - 1] == ':' && forall i :: 0 <= i < |d| - 1 ==> d[i] != ':'
  {
    hide ToLower;
    forall i | 0 <= i < |d| ensures d[i] == ':' <==> name[i] == ':' {
      ColonStays(d[i]);
      ColonStays(name[i]);
    }
  }

  lemma IsHeaderAlike(d: string, name: string, value: string)
    requires Alike(d, name) && IsName(name) && value != "" && !IsBlank(value[|value| - 1])
    ensures IsHeader(d + value)
  {
    hide OneLine, Alike;
    NameAlike(d, name);
    IndexOfUnique(d + value, ':', 0, |d| - 1);
    assert (d + value)[|d + value| - 1] == value[|value| - 1];
  }

  lemma StartsAlike(d: string, name: string, rest: string)
    requires Alike(d, name)
    ensures StartsWithIgnoringCase(d + rest, name)
  {
  }

  /** The two header names differ in their ninth character. */
  lemma NamesDiffer(d: string, rest: string)
    requires Alike(d, DISPOSITION)
    ensures !StartsWithIgnoringCase(d + rest, TYPE)
  {
    assert ToLower(d[8]) == ToLower('D') != ToLower('T') && TYPE[8] == 'T' && DISPOSITION[8] == 'D';
  }

  /** A line for a part's name is read as its parameters, whatever the case and the white space. */
  lemma ReadAlike(d: string, w: string, f: string, w2: string, ps: string, file: FormData)
    requires Alike(d, DISPOSITION) && White(w) && Alike(f, FORM_DATA) && White(w2) && Solid(ps) && OneLine(ps)
    ensures ReadHeader(d + w + (f + w2 + ps), file) == Described(DispositionParams(ps), file)
  {
    hide Described, DispositionParams, Alike, OneLine, IsHeader, ReadHeader;
    var line, value := d + w + (f + w2 + ps), f + w2 + ps;
    FormDataSolid(f, w2 + ps);
    assert value == f + (w2 + ps);
    assert line == d + (w + value);
    assert (w + value)[|w + value| - 1] == ps[|ps| - 1];
    NamesAreNames();
    IsHeaderAlike(d, DISPOSITION, w + value);
    NamesDiffer(d, w + value);
    ParametersAlike(d, w, f, w2, ps);
    ReadByParameters(line, ps, file);
  }

  lemma FormDataSolid(f: string, rest: string)
    requires Alike(f, FORM_DATA)
    ensures f != "" && !IsSpace((f + rest)[0])
  {
    assert ToLower(f[0]) == ToLower(FORM_DATA[0]) == 'f';
  }

  lemma ReadByParameters(line: string, ps: string, file: FormData)
    requires IsHeader(line) && !StartsWithIgnoringCase(line, TYPE) && Parameters(line) == Some(ps)
    ensures ReadHeader(line, file) == Described(DispositionParams(ps), file)
  {
  }

  lemma ParametersAlike(d: string, w: string, f: string, w2: string, ps: string)
    requires Alike(d, DISPOSITION) && White(w) && Alike(f, FORM_DATA) && White(w2) && Solid(ps) && OneLine(ps)
    ensures Parameters(d + w + (f + w2 + ps)) == Some(ps)
  {
    hide OneLine, IsSpace;
    var line, value := d + w + (f + w2 + ps), f + w2 + ps;
    assert line == d + (w + value) && value == f + (w2 + ps);
    StartsAlike(d, DISPOSITION, w + value);
    FormDataSolid(f, w2 + ps);
    SkipWhite(d, w, value, 0);
    assert line[|d + w|..] == value;
    StartsAlike(f, FORM_DATA, w2 + ps);
    SkipWhite(f, w2, ps, 0);
    assert value[|f + w2|..] == ps;
  }

  /** A content type is read whatever the case of the header name and the blanks around the type. */
  lemma TypeAlike(d: string, left: string, ct: string, right: string, file: FormData)
    requires Alike(d, TYPE) && (forall i :: 0 <= i < |left| ==> IsBlank(left[i]))
    requires (forall i :: 0 <= i < |right| ==> IsBlank(right[i]))
    requires ct != "" && !IsBlank(ct[0]) && !IsBlank(ct[|ct| - 1])
    ensures ReadHeader(d + (left + ct + right), file) == Accept(file.(contentType := ct))
  {
    hide Alike, IsHeader, OneLine;
    var value := left + ct + right;
    NamesAreNames();
    HeaderWithBlanks(d, left + ct, right);
    assert d + (left + ct + right) == d + (left + ct) + right;
    StartsAlike(d, TYPE, value);
    assert |d| == |TYPE| by { SameLength(d, TYPE); }
    assert (d + value)[|TYPE|..] == value;
    TrimIs(value, |left|, |left + ct|);
    assert value[|left|..|left + ct|] == ct;
  }

  lemma SameLength(s: string, t: string)
    requires Alike(s, t)
    ensures |s| == |t|
  {
  }

  lemma HeaderWithBlanks(d: string, value: string, right: string)
    requires Alike(d, TYPE) && value != "" && !IsBlank(value[|value| - 1])
    requires forall i :: 0 <= i < |right| ==> IsBlank(right[i])
    ensures IsHeader(d + value + right)
  {
    hide Alike, OneLine;
    NamesAreNames();
    NameAlike(d, TYPE);
    var line := d + value + right;
    IndexOfUnique(line, ':', 0, |d| - 1);
    assert forall k :: |d + value| <= k < |line| ==> line[k] == right[k - |d + value|];
    assert line[|d + value| - 1] == value[|value| - 1];
    DropBlanksIs(line, |line|, |d + value|);
  }

  /** A header of another name changes nothing. */
  lemma OtherHeaderIgnored(name: string, value: string, file: FormData)
    requires IsName(name) && value != "" && !IsBlank(value[|value| - 1])
    requires !Alike(name, TYPE) && !Alike(name, DISPOSITION)
    ensures ReadHeader(name + value, file) == Accept(file)
  {
    hide OneLine, Alike, IsHeader;
    ColonIsHeader(name, value);
    NamesAreNames();
    NotThisName(name, value, TYPE);
    NotThisName(name, value, DISPOSITION);
  }

  lemma NotThisName(name: string, value: string, other: string)
    requires IsName(name) && IsName(other) && !Alike(name, other)
    ensures !StartsWithIgnoringCase(name + value, other)
  {
    if StartsWithIgnoringCase(name + value, other) {
      SameName(name, value, other);
    }
  }

  lemma SameName(name: string, value: string, other: string)
    requires IsName(name) && IsName(other) && StartsWithIgnoringCase(name + value, other)
    ensures Alike(name, other)
  {
    hide OneLine, ToLower;
    var line := name + value;
    var k := |name| - 1;
    assert forall i :: 0 <= i < |name| ==> line[i] == name[i];
    assert line[|other| - 1] == ':' by { ColonStays(line[|other| - 1]); }
    ColonStays(line[k]);
    if k < |other| {
      ColonStays(other[k]);
    }
    assert |name| == |other|;
  }

  /** A part without a name is refused. */
  lemma NameNeeded(d: string, w: string, f: string, w2: string, filename: string, file: FormData)
    requires Alike(d, DISPOSITION) && White(w) && Alike(f, FORM_DATA) && White(w2) && Quotable(filename)
    ensures ReadHeader(d + w + (f + w2 + FileText(filename)), file) == Reject(file)
  {
    hide ReadHeader, Alike, Solid, OneLine, Parameter, Token, Tokens;
    var ps := FileText(filename);
    assert OneLine("filename=\"") by { OneLineTexts(); }
    QuotedSolid("filename=\"", filename);
    assert Solid(ps) by { SolidIs(ps); }
    ReadAlike(d, w, f, w2, ps, file);
    FileParameter(filename);
    BlankBefore(ps);
    TokensOne(ps, ';');
    CollectedOne(ps);
    assert DispositionParams(ps) == [("filename", filename)];
    assert LookupFrom([("filename", filename)], "name", 1) == None;
  }

  lemma SolidIs(s: string)
    requires s != "" && !IsSpace(s[0]) && !IsBlank(s[|s| - 1])
    ensures Solid(s)
  {
  }

  // ---------------------------------------------------------------- encoded file names

  /** The parameters of a part: its name, perhaps a plain file name, and an extended one. */
  function ExtendedText(name: string, plain: Option<string>, value: string): string {
    match plain
    case None => NameText(name) + ";" + (" " + ("filename*=" + value))
    case Some(filename) => NameText(name) + ";" + (" " + FileText(filename) + ";" + (" " + ("filename*=" + value)))
  }

  /** A value that splitting and unquoting leave alone. */
  predicate Bare(value: string) {
    && OneLine(value) && ';' !in value && '=' !in value
    && (value != "" ==> value[0] != '"' && !IsBlank(value[0]) && !IsBlank(value[|value| - 1]))
  }

  lemma ExtendedParameter(value: string)
    requires Bare(value)
    ensures var t := "filename*=" + value;
            && Parameter(t) == [("filename*", value)] && ';' !in t
            && Token(" " + t) == [t] && OneLine(t) && t[8] == '*' && t[0] == 'f'
  {
    hide Tokens, Trim, Token;
    var key, t := "filename*", "filename*=" + value;
    assert t == key + ['='] + value;
    TrimClean(key);
    TrimClean(value);
    TokensAt(key, '=', value);
    TokensOne(value, '=');
    TokenIs(key);
    TokenIs(value);
    BlankBefore(t);
    assert forall c :: c in t ==> c in key || c == '=' || c in value;
  }

  lemma TokenIs(s: string)
    requires Trim(s) == s
    ensures Token(s) == if s == "" then [] else [s]
  {
  }

  lemma CollectedThree(t: string, u: string, v: string)
    requires t != u && t != v && u != v
    ensures Collected([t, u, v], 3) == Parameter(t) + Parameter(u) + Parameter(v)
  {
    hide Parameter;
    var tokens := [t, u, v];
    assert tokens[..2] == [t, u] && tokens[..1] == [t] && tokens[..0] == [];
    assert Collected(tokens, 0) == [];
    assert Collected(tokens, 1) == [] + Parameter(t) == Parameter(t);
    assert Collected(tokens, 2) == Parameter(t) + Parameter(u);
  }

  /** What the parameters are read as. */
  lemma ExtendedParams(name: string, plain: Option<string>, value: string)
    requires Quotable(name) && (plain.Some? ==> Quotable(plain.value)) && Bare(value)
    ensures DispositionParams(ExtendedText(name, plain, value)) ==
            [("name", name)] + (if plain.Some? then [("filename", plain.value)] else []) + [("filename*", value)]
  {
    hide Parameter, Token, Tokens, Collected, Bare, Quotable;
    var t, v := NameText(name), "filename*=" + value;
    NameParameter(name);
    ExtendedParameter(value);
    assert t[0] == 'n';
    TokensOne(" " + v, ';');
    match plain
    case None =>
      assert ExtendedText(name, plain, value) == t + [';'] + (" " + v);
      TokensAt(t, ';', " " + v);
      CollectedTwo(t, v);
      assert Tokens(ExtendedText(name, plain, value), ';') == [t, v];
    case Some(filename) =>
      var u := FileText(filename);
      FileParameter(filename);
      assert u[0] == 'f' && u[8] == '=';
      TokensAt(" " + u, ';', " " + v);
      assert ExtendedText(name, plain, value) == t + [';'] + (" " + u + [';'] + (" " + v));
      TokensAt(t, ';', " " + u + [';'] + (" " + v));
      CollectedThree(t, u, v);
      assert Tokens(ExtendedText(name, plain, value), ';') == [t, u, v];
  }

  /** What an extended file name makes of a part that is called `name`. */
  lemma DescribedExtended(name: string, plain: Option<string>, value: string, file: FormData)
    requires Quotable(name) && (plain.Some? ==> Quotable(plain.value)) && Bare(value)
    ensures var named := file.(name := name, filename := if plain.Some? then plain.value else file.filename);
            Described(DispositionParams(ExtendedText(name, plain, value)), file) ==
            match ExtendedValue(value)
            case None => Reject(named)
            case Some(v) => Accept(named.(filename := Url.Decoded(v, false)))
  {
    hide Bare, Quotable, ExtendedValue;
    ExtendedParams(name, plain, value);
    var ps := DispositionParams(ExtendedText(name, plain, value));
    if plain.None? {
      assert ps == [("name", name), ("filename*", value)];
      assert LookupFrom(ps, "filename", 2) == None && LookupFrom(ps, "filename", 1) == None;
      assert LookupFrom(ps, "filename*", 1) == Some(value);
    } else {
      assert ps == [("name", name), ("filename", plain.value), ("filename*", value)];
      assert LookupFrom(ps, "filename", 1) == Some(plain.value);
      assert LookupFrom(ps, "filename*", 2) == Some(value) && LookupFrom(ps, "filename*", 1) == Some(value);
    }
  }

  /** Two texts with a semicolon and a blank between them. */
  lemma JoinedSolid(t: string, u: string)
    requires OneLine(t) && OneLine(u) && t != "" && u != "" && !IsSpace(t[0]) && !IsBlank(u[|u| - 1])
    ensures Solid(t + ";" + (" " + u)) && OneLine(t + ";" + (" " + u))
    ensures OneLine(" " + t + ";" + (" " + u))
  {
    hide OneLine;
    assert OneLine(";") && OneLine(" ") by { OneLineTexts(); }
    OneLineJoin(" ", u);
    OneLineJoin(t, ";");
    OneLineJoin(t + ";", " " + u);
    OneLineJoin(" ", t);
    OneLineJoin(" " + t, ";");
    OneLineJoin(" " + t + ";", " " + u);
  }

  lemma QuotedSolid(key: string, value: string)
    requires OneLine(key) && OneLine(value) && key != "" && !IsSpace(key[0])
    ensures var s := key + value + "\""; s != "" && OneLine(s) && !IsSpace(s[0]) && !IsBlank(s[|s| - 1])
  {
    hide OneLine;
    QuotedOneLine(key, value);
  }

  lemma ExtendedSolid(name: string, plain: Option<string>, value: string)
    requires Quotable(name) && (plain.Some? ==> Quotable(plain.value)) && Bare(value)
    ensures var ps := ExtendedText(name, plain, value); Solid(ps) && OneLine(ps)
  {
    hide OneLine, Solid, Parameter, Token, Trim;
    var v := "filename*=" + value;
    assert OneLine("name=\"") && OneLine("filename=\"") by { OneLineTexts(); }
    QuotedSolid("name=\"", name);
    ExtendedParameter(value);
    match plain
    case None => JoinedSolid(NameText(name), v);
    case Some(filename) =>
      QuotedSolid("filename=\"", filename);
      var rest := FileText(filename) + ";" + (" " + v);
      JoinedSolid(FileText(filename), v);
      assert rest[|rest| - 1] == v[|v| - 1];
      JoinedSolid(NameText(name), rest);
      assert " " + FileText(filename) + ";" + (" " + v) == " " + rest;
  }

  lemma EncodedBare(v: string)
    requires IsBytes(v)
    ensures OneLine(Url.Encoded(v)) && ';' !in Url.Encoded(v) && '=' !in Url.Encoded(v) && '"' !in Url.Encoded(v)
    ensures ' ' !in Url.Encoded(v) && '\t' !in Url.Encoded(v)
    ensures v != "" ==> Url.Encoded(v) != ""
  {
    var e := Url.Encoded(v);
    forall c | c in e ensures c !in ";=\" \t\r\n" { Url.EncodedChars(v, 0, c); }
  }

  lemma PrefixBare(u: string, e: string)
    requires Alike(u, UTF8) && OneLine(e) && ';' !in e && '=' !in e && '"' !in e && ' ' !in e && '\t' !in e
    ensures Bare(u + e) && (e != "" ==> ExtendedValue(u + e) == Some(e))
  {
    forall c | c in u ensures c !in ";=\" \t\r\n" {
      var i :| 0 <= i < |u| && u[i] == c;
      PlainPrefix(c, i);
    }
    if e != "" {
      StartsAlike(u, UTF8, e);
      assert (u + e)[|UTF8|..] == e;
    }
  }

  lemma PlainPrefix(c: char, i: nat)
    requires i < |UTF8| && ToLower(c) == ToLower(UTF8[i])
    ensures c !in ";=\" \t\r\n"
  {
  }

  /**
   * An encoded file name is the file name of the part, whether or not a plain one comes before it:
   * `v` is any non-empty byte string, percent-encoded behind the name of its character set.
   */
  lemma ReadEncodedName(d: string, w: string, f: string, w2: string, name: string, plain: Option<string>, u: string,
                        v: string, file: FormData)
    requires Alike(d, DISPOSITION) && White(w) && Alike(f, FORM_DATA) && White(w2) && Alike(u, UTF8)
    requires Quotable(name) && (plain.Some? ==> Quotable(plain.value)) && IsBytes(v) && v != ""
    ensures ReadHeader(d + w + (f + w2 + ExtendedText(name, plain, u + Url.Encoded(v))), file) ==
            Accept(file.(name := name, filename := v))
  {
    hide ReadHeader, Described, DispositionParams, ExtendedValue, Alike, Solid, Bare, OneLine, ExtendedText;
    EncodedBare(v);
    PrefixBare(u, Url.Encoded(v));
    var value := u + Url.Encoded(v);
    ExtendedSolid(name, plain, value);
    ReadAlike(d, w, f, w2, ExtendedText(name, plain, value), file);
    DescribedExtended(name, plain, value, file);
    Url.DecodeInvertsEncode(v, false);
  }

  /**
   * The same of a name that is encoded in any other way, with plain characters and escapes in
   * either case; a `+` in it stays one.
   */
  lemma ReadOtherEncoding(d: string, w: string, f: string, w2: string, name: string, plain: Option<string>, u: string,
                          ps: seq<FormText.Piece>, file: FormData)
    requires Alike(d, DISPOSITION) && White(w) && Alike(f, FORM_DATA) && White(w2) && Alike(u, UTF8)
    requires Quotable(name) && (plain.Some? ==> Quotable(plain.value)) && FormText.AllFine(ps, false)
    requires var e := FormText.TextFrom(ps, 0);
             e != "" && OneLine(e) && forall k :: 0 <= k < |e| ==> e[k] !in ";=\" \t"
    ensures ReadHeader(d + w + (f + w2 + ExtendedText(name, plain, u + FormText.TextFrom(ps, 0))), file) ==
            Accept(file.(name := name, filename := FormText.ValueFrom(ps, 0)))
  {
    hide ReadHeader, Described, DispositionParams, ExtendedValue, Alike, Solid, Bare, OneLine, ExtendedText;
    hide FormText.TextFrom, FormText.ValueFrom, FormText.AllFine;
    var value := u + FormText.TextFrom(ps, 0);
    PrefixBare(u, FormText.TextFrom(ps, 0));
    ExtendedSolid(name, plain, value);
    ReadAlike(d, w, f, w2, ExtendedText(name, plain, value), file);
    DescribedExtended(name, plain, value, file);
    FormText.FormDecodes(ps, false);
  }

  /** A value that names another character set, or nothing at all, is refused; the plain names have then been taken. */
  lemma RefuseOtherName(d: string, w: string, f: string, w2: string, name: string, plain: Option<string>, value: string,
                        file: FormData)
    requires Alike(d, DISPOSITION) && White(w) && Alike(f, FORM_DATA) && White(w2)
    requires Quotable(name) && (plain.Some? ==> Quotable(plain.value)) && Bare(value)
    requires |value| <= |UTF8| || !Alike(value[..|UTF8|], UTF8)
    ensures ReadHeader(d + w + (f + w2 + ExtendedText(name, plain, value)), file) ==
            Reject(file.(name := name, filename := if plain.Some? then plain.value else file.filename))
  {
    hide ReadHeader, Described, DispositionParams, Solid, Bare, OneLine, ExtendedText;
    ExtendedSolid(name, plain, value);
    ReadAlike(d, w, f, w2, ExtendedText(name, plain, value), file);
    DescribedExtended(name, plain, value, file);
  }
}
