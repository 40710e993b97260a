/** The route matcher of file_server/httplib.h: PathParamsMatcher, its constructor and match. */
module PathParams {
  import opened Options
  import Text

  const MARKER := ':'
  const SEPARATOR := '/'

  /** static_fragments_ and param_names_; the separator after a parameter belongs to neither. */
  datatype Pattern = Pattern(fragments: seq<string>, names: seq<string>)

  // ---------------------------------------------------------------- the constructor

  /** What find returns: the next position of `c`, or none. */
  function NextOf(s: string, c: char, from: nat): (r: Option<nat>)
    ensures r.Some? ==> from <= r.value < |s| && s[r.value] == c
  {
    if from > |s| then None
    else
      var k := Text.IndexOf(s, c, from);
      if k < |s| && s[k] == c then Some(k) else None
  }

  function OrLength(o: Option<nat>, s: string): nat {
    match o case None => |s| case Some(k) => k
  }

  /** The rest of the pattern, from the position `last` on. */
  function PatternFrom(s: string, last: nat): Pattern
    decreases |s| + 1 - last
  {
    match NextOf(s, MARKER, last)
    case None => Pattern(if last < |s| then [s[last..]] else [], [])
    case Some(m) =>
      var end := OrLength(NextOf(s, SEPARATOR, m + 1), s);
      var rest := PatternFrom(s, end + 1);
      Pattern([s[last..m]] + rest.fragments, [s[m + 1..end]] + rest.names)
  }

  ghost predicate Unique(names: seq<string>) {
    forall i, j :: 0 <= i < j < |names| ==> names[i] != names[j]
  }

  /** The constructor: None is the exception for a name that is used twice. */
  method ParsePattern(s: string) returns (p: Option<Pattern>)
    ensures p == if Unique(PatternFrom(s, 0).names) then Some(PatternFrom(s, 0)) else None
  {
    hide PatternFrom;
    ghost var all := PatternFrom(s, 0);
    var last: nat := 0;
    var fragments, names := [], [];
    var seen: set<string> := {};
    while true
      invariant last <= |s| + 1 && Parsing(all, s, last, fragments, names)
      invariant Unique(names) && forall n :: n in seen <==> n in names
      decreases |s| + 1 - last
    {
      PatternStep(s, last);
      var m := NextOf(s, MARKER, last);
      if m.None? { break; }
      var end := OrLength(NextOf(s, SEPARATOR, m.value + 1), s);
      var name := s[m.value + 1..end];
      ParsingNext(all, s, last, fragments, names, m.value, end);
      if name in seen {
        Repeated(names, name, all.names);
        return None;
      }
      fragments, names, seen := fragments + [s[last..m.value]], names + [name], seen + {name};
      last := end + 1;
    }
    assert names + [] == names;
    if last < |s| { fragments := fragments + [s[last..]]; } else { assert fragments + [] == fragments; }
    p := Some(Pattern(fragments, names));
  }

  /** Fragments and names found so far, and those still to come, make up the whole. */
  ghost predicate Parsing(all: Pattern, s: string, last: nat, fragments: seq<string>, names: seq<string>) {
    var rest := PatternFrom(s, last);
    all == Pattern(fragments + rest.fragments, names + rest.names)
  }

  lemma PatternStep(s: string, last: nat)
    ensures var m := NextOf(s, MARKER, last);
            if m.None? then PatternFrom(s, last) == Pattern(if last < |s| then [s[last..]] else [], [])
            else
              var end := OrLength(NextOf(s, SEPARATOR, m.value + 1), s);
              var rest := PatternFrom(s, end + 1);
              PatternFrom(s, last) == Pattern([s[last..m.value]] + rest.fragments, [s[m.value + 1..end]] + rest.names)
  {
  }

  lemma ParsingNext(all: Pattern, s: string, last: nat, fragments: seq<string>, names: seq<string>, m: nat, end: nat)
    requires Parsing(all, s, last, fragments, names)
    requires NextOf(s, MARKER, last) == Some(m) && end == OrLength(NextOf(s, SEPARATOR, m + 1), s)
    ensures Parsing(all, s, end + 1, fragments + [s[last..m]], names + [s[m + 1..end]])
  {
    hide PatternFrom;
    PatternStep(s, last);
    var rest := PatternFrom(s, end + 1);
    assert fragments + ([s[last..m]] + rest.fragments) == fragments + [s[last..m]] + rest.fragments;
    assert names + ([s[m + 1..end]] + rest.names) == names + [s[m + 1..end]] + rest.names;
  }

  lemma Repeated(names: seq<string>, name: string, all: seq<string>)
    requires name in names && names + [name] <= all
    ensures !Unique(all)
  {
    var i :| 0 <= i < |names| && names[i] == name;
    assert (names + [name])[i] == (names + [name])[|names|];
  }

  // ---------------------------------------------------------------- filling in

  ghost predicate WellFormed(p: Pattern) {
    |p.fragments| == |p.names| || |p.fragments| == |p.names| + 1
  }

  predicate EndsInParameter(p: Pattern) {
    |p.fragments| == |p.names| && p.names != []
  }

  /** The text made of the fragments and parameters from number `i` on, `caps` being the values of the parameters. */
  function FillFrom(p: Pattern, caps: seq<string>, i: nat): string
    requires i <= |p.fragments|
    decreases |p.fragments| - i
  {
    if i == |p.fragments| then ""
    else if i >= |caps| then p.fragments[i] + FillFrom(p, caps, i + 1)
    else if i + 1 == |p.fragments| then p.fragments[i] + caps[i]
    else p.fragments[i] + caps[i] + [SEPARATOR] + FillFrom(p, caps, i + 1)
  }

  /** `t` is the filled text, or that and one more separator after a parameter at its end. */
  ghost predicate IsFilled(p: Pattern, caps: seq<string>, i: nat, t: string)
    requires i <= |p.fragments|
  {
    t == FillFrom(p, caps, i) || (EndsInParameter(p) && t == FillFrom(p, caps, i) + [SEPARATOR])
  }

  // ---------------------------------------------------------------- match

  /** strncmp(...) == 0: equal up to the length, or up to a common NUL. */
  predicate SameText(a: string, b: string) {
    |a| == |b| && forall j :: 0 <= j < |a| ==> a[j] == b[j] || (exists k :: 0 <= k < j && a[k] == b[k] == '\0')
  }

  method StrNCmpIsZero(path: string, pos: nat, fragment: string) returns (r: bool)
    requires pos + |fragment| <= |path|
    ensures r == SameText(path[pos..pos + |fragment|], fragment)
  {
    ghost var a := path[pos..pos + |fragment|];
    for i := 0 to |fragment|
      invariant forall j :: 0 <= j < i ==> a[j] == fragment[j] && a[j] != '\0'
    {
      assert a[i] == path[pos + i];
      if path[pos + i] != fragment[i] { return false; }
      if fragment[i] == '\0' {
        assert a[i] == fragment[i] == '\0';
        return true;
      }
    }
    r := true;
  }

  /** The values captured from fragment `i` on, the path being matched from `pos` on; None if it does not match. */
  function CapturesFrom(p: Pattern, path: string, i: nat, pos: nat): Option<seq<string>>
    requires i <= |p.fragments|
    decreases |p.fragments| - i
  {
    if i == |p.fragments| then if pos >= |path| then Some([]) else None
    else
      var at := pos + |p.fragments[i]|;
      if at > |path| || !SameText(path[pos..at], p.fragments[i]) then None
      else if i >= |p.names| then CapturesFrom(p, path, i + 1, at)
      else
        var end := OrLength(NextOf(path, SEPARATOR, at), path);
        match CapturesFrom(p, path, i + 1, end + 1)
        case None => None
        case Some(rest) => Some([path[at..end]] + rest)
  }

  /** The parameters stored: emplace keeps the first value of a name. */
  function Stored(names: seq<string>, caps: seq<string>): map<string, string>
    requires |caps| <= |names|
  {
    if caps == [] then map[]
    else
      var n := |caps| - 1;
      var before := Stored(names, caps[..n]);
      if names[n] in before then before else before[names[n] := caps[n]]
  }

  /** match; the parameters are those of the request afterwards. */
  method Match(p: Pattern, path: string) returns (ok: bool, params: map<string, string>)
    requires WellFormed(p)
    ensures ok == CapturesFrom(p, path, 0, 0).Some?
    ensures ok ==> var caps := CapturesFrom(p, path, 0, 0).value; |caps| == |p.names| && params == Stored(p.names, caps)
  {
    hide CapturesFrom, SameText;
    ghost var all := CapturesFrom(p, path, 0, 0);
    ghost var caps: seq<string> := [];
    params := map[];
    MatchingStart(all, p, path);
    var pos: nat := 0;
    for i := 0 to |p.fragments|
      invariant |caps| == (if i < |p.names| then i else |p.names|) && params == Stored(p.names, caps)
      invariant Matching(all, p, path, i, pos, caps)
    {
      CapturesStep(p, path, i, pos);
      var fragment := p.fragments[i];
      if pos + |fragment| > |path| { return false, params; }
      var same := StrNCmpIsZero(path, pos, fragment);
      if !same { return false, params; }
      pos := pos + |fragment|;
      if i < |p.names| {
        var end := OrLength(NextOf(path, SEPARATOR, pos), path);
        var value := path[pos..end];
        StoredNext(p.names, caps, value);
        if p.names[i] !in params { params := params[p.names[i] := value]; }
        MatchingNext(all, p, path, i, end + 1, caps, value);
        caps := caps + [value];
        pos := end + 1;
      }
    }
    CapturesStep(p, path, |p.fragments|, pos);
    assert caps + [] == caps;
    ok := pos >= |path|;
  }

  /** The values captured so far, and those still to come, make up the whole. */
  ghost predicate Matching(all: Option<seq<string>>, p: Pattern, path: string, i: nat, pos: nat, caps: seq<string>) {
    && i <= |p.fragments|
    && all == match CapturesFrom(p, path, i, pos) case None => None case Some(rest) => Some(caps + rest)
  }

  lemma MatchingStart(all: Option<seq<string>>, p: Pattern, path: string)
    requires all == CapturesFrom(p, path, 0, 0)
    ensures Matching(all, p, path, 0, 0, [])
  {
    hide CapturesFrom;
    if all.Some? { assert [] + all.value == all.value; }
  }

  lemma MatchingNext(all: Option<seq<string>>, p: Pattern, path: string, i: nat, pos: nat, caps: seq<string>,
                     value: string)
    requires i < |p.fragments|
    requires all == match CapturesFrom(p, path, i + 1, pos)
                    case None => None
                    case Some(rest) => Some(caps + ([value] + rest))
    ensures Matching(all, p, path, i + 1, pos, caps + [value])
  {
    hide CapturesFrom;
    var o := CapturesFrom(p, path, i + 1, pos);
    if o.Some? { assert caps + ([value] + o.value) == caps + [value] + o.value; }
  }

  lemma CapturesStep(p: Pattern, path: string, i: nat, pos: nat)
    requires i <= |p.fragments|
    ensures i == |p.fragments| ==> CapturesFrom(p, path, i, pos) == if pos >= |path| then Some([]) else None
    ensures i < |p.fragments| ==>
      var at := pos + |p.fragments[i]|;
      var end := OrLength(NextOf(path, SEPARATOR, at), path);
      CapturesFrom(p, path, i, pos) ==
        if at > |path| || !SameText(path[pos..at], p.fragments[i]) then None
        else if i >= |p.names| then CapturesFrom(p, path, i + 1, at)
        else
          match CapturesFrom(p, path, i + 1, end + 1)
          case None => None
          case Some(rest) => Some([path[at..end]] + rest)
  {
    hide SameText;
  }

  lemma StoredNext(names: seq<string>, caps: seq<string>, value: string)
    requires |caps| < |names|
    ensures var before := Stored(names, caps);
            Stored(names, caps + [value])
            == if names[|caps|] in before then before else before[names[|caps|] := value]
  {
    assert (caps + [value])[..|caps|] == caps;
  }

  // ---------------------------------------------------------------- what matching means

  ghost predicate SlashFree(caps: seq<string>, i: nat) {
    forall k :: i <= k < |caps| ==> SEPARATOR !in caps[k]
  }

  ghost predicate NulFree(p: Pattern) {
    forall k :: 0 <= k < |p.fragments| ==> '\0' !in p.fragments[k]
  }

  lemma SameIsEqual(a: string, b: string)
    requires '\0' !in b
    ensures SameText(a, b) <==> a == b
  {
  }

  /** The next separator after `at` comes `c` later if and only if what is up to there is slash-free. */
  lemma NextSeparator(path: string, at: nat, end: nat)
    requires at <= end <= |path|
    ensures OrLength(NextOf(path, SEPARATOR, at), path) == end
       <==> SEPARATOR !in path[at..end] && (end < |path| ==> path[end] == SEPARATOR)
  {
    var k := OrLength(NextOf(path, SEPARATOR, at), path);
    Text.IndexOfIs(path, SEPARATOR, at);
    if SEPARATOR !in path[at..end] && (end < |path| ==> path[end] == SEPARATOR) {
      forall j | at <= j < end ensures path[j] != SEPARATOR { assert path[at..end][j - at] == path[j]; }
      Text.IndexOfUnique(path, SEPARATOR, at, end);
    }
    if k == end {
      forall j | 0 <= j < end - at ensures path[at..end][j] != SEPARATOR { assert path[at..end][j] == path[at + j]; }
    }
  }

  function Rest(caps: seq<string>, i: nat): seq<string> {
    if i <= |caps| then caps[i..] else []
  }

  /** From fragment `i` on, `caps` fill in to what is left of the path at `pos`. */
  ghost predicate Filled(p: Pattern, caps: seq<string>, path: string, i: nat, pos: nat)
    requires i <= |p.fragments|
  {
    if i == |p.fragments| then pos >= |path| else pos <= |path| && IsFilled(p, caps, i, path[pos..])
  }

  /** One fragment and one parameter of the filled text. */
  lemma FilledStep(p: Pattern, caps: seq<string>, path: string, i: nat, pos: nat)
    requires WellFormed(p) && |caps| == |p.names| && i < |caps| && pos <= |path| + 1
    ensures var f, c := p.fragments[i], caps[i]; var at := pos + |f|; var end := at + |c|;
            Filled(p, caps, path, i, pos) <==>
              && end <= |path| && path[pos..at] == f && path[at..end] == c
              && (end < |path| ==> path[end] == SEPARATOR) && Filled(p, caps, path, i + 1, end + 1)
  {
    if pos <= |path| {
      if i + 1 == |p.fragments| {
        LastParameter(p, caps, path, i, pos);
      } else {
        InnerParameter(p, caps, path, i, pos);
      }
    }
  }

  lemma LastParameter(p: Pattern, caps: seq<string>, path: string, i: nat, pos: nat)
    requires WellFormed(p) && |caps| == |p.names| && i < |caps| && pos <= |path| && i + 1 == |p.fragments|
    ensures var f, c := p.fragments[i], caps[i]; var at := pos + |f|; var end := at + |c|;
            IsFilled(p, caps, i, path[pos..]) <==>
              && end <= |path| && path[pos..at] == f && path[at..end] == c
              && (end < |path| ==> path[end] == SEPARATOR) && end + 1 >= |path|
  {
    var at := pos + |p.fragments[i]|;
    var end := at + |caps[i]|;
    if end <= |path| { Parts(path, pos, at, end); }
    if end + 1 == |path| { assert path[pos..] == path[pos..at] + path[at..end] + [path[end]]; }
  }

  lemma InnerParameter(p: Pattern, caps: seq<string>, path: string, i: nat, pos: nat)
    requires WellFormed(p) && |caps| == |p.names| && i < |caps| && pos <= |path| && i + 1 < |p.fragments|
    ensures var f, c := p.fragments[i], caps[i]; var at := pos + |f|; var end := at + |c|;
            IsFilled(p, caps, i, path[pos..]) <==>
              && end + 1 <= |path| && path[pos..at] == f && path[at..end] == c
              && path[end] == SEPARATOR && IsFilled(p, caps, i + 1, path[end + 1..])
  {
    var f, c, rest := p.fragments[i], caps[i], FillFrom(p, caps, i + 1);
    var at := pos + |f|;
    var end := at + |c|;
    assert FillFrom(p, caps, i) == f + c + [SEPARATOR] + rest;
    assert f + c + [SEPARATOR] + (rest + [SEPARATOR]) == f + c + [SEPARATOR] + rest + [SEPARATOR];
    if end + 1 <= |path| {
      assert path[pos..] == path[pos..at] + path[at..end] + [path[end]] + path[end + 1..];
      FourParts(path[pos..at], f, path[at..end], c, [path[end]], [SEPARATOR], path[end + 1..], rest);
      FourParts(path[pos..at], f, path[at..end], c, [path[end]], [SEPARATOR], path[end + 1..], rest + [SEPARATOR]);
    }
  }

  lemma Parts(path: string, pos: nat, at: nat, end: nat)
    requires pos <= at <= end <= |path|
    ensures path[pos..] == path[pos..at] + path[at..end] + path[end..]
  {
  }

  lemma FourParts(a: string, f: string, b: string, c: string, d: string, s: string, e: string, g: string)
    requires |a| == |f| && |b| == |c| && |d| == |s|
    ensures a + b + d + e == f + c + s + g <==> a == f && b == c && d == s && e == g
  {
    if a + b + d + e == f + c + s + g {
      var all := a + b + d + e;
      var n, m, k := |a|, |a| + |b|, |a| + |b| + |d|;
      assert all[..n] == a && all[n..m] == b && all[m..k] == d && all[k..] == e;
      var other := f + c + s + g;
      assert other[..n] == f && other[n..m] == c && other[m..k] == s && other[k..] == g;
    }
  }

  lemma {:induction false} CapturesIff(p: Pattern, path: string, caps: seq<string>, i: nat, pos: nat)
    requires WellFormed(p) && NulFree(p) && |caps| == |p.names| && i <= |p.fragments| && pos <= |path| + 1
    ensures CapturesFrom(p, path, i, pos) == Some(Rest(caps, i)) <==>
            SlashFree(caps, i) && Filled(p, caps, path, i, pos)
    decreases |p.fragments| - i
  {
    hide SameText, CapturesFrom, Filled;
    CapturesStep(p, path, i, pos);
    if i == |p.fragments| {
      FilledEnd(p, caps, path, pos);
      assert Rest(caps, i) == [];
    } else if i >= |p.names| {
      FilledLast(p, caps, path, i, pos);
      assert Rest(caps, i) == [] && Rest(caps, i + 1) == [];
      var at := pos + |p.fragments[i]|;
      if at <= |path| {
        SameIsEqual(path[pos..at], p.fragments[i]);
        CapturesStep(p, path, i + 1, at);
      }
    } else {
      var end := pos + |p.fragments[i]| + |caps[i]|;
      if end <= |path| { CapturesIff(p, path, caps, i + 1, end + 1); }
      CapturesCase(p, path, caps, i, pos);
    }
  }

  lemma CapturesCase(p: Pattern, path: string, caps: seq<string>, i: nat, pos: nat)
    requires WellFormed(p) && NulFree(p) && |caps| == |p.names| && i < |caps| && pos <= |path| + 1
    requires var end := pos + |p.fragments[i]| + |caps[i]|;
             end <= |path| ==> (CapturesFrom(p, path, i + 1, end + 1) == Some(Rest(caps, i + 1))
                                <==> SlashFree(caps, i + 1) && Filled(p, caps, path, i + 1, end + 1))
    ensures CapturesFrom(p, path, i, pos) == Some(Rest(caps, i)) <==>
            SlashFree(caps, i) && Filled(p, caps, path, i, pos)
  {
    hide SameText, CapturesFrom, Filled, NextOf, Rest, SlashFree;
    CapturesStep(p, path, i, pos);
    FilledStep(p, caps, path, i, pos);
    var at := pos + |p.fragments[i]|;
    var end := at + |caps[i]|;
    if at <= |path| {
      SameIsEqual(path[pos..at], p.fragments[i]);
      SlashFreeStep(caps, i);
      var to := OrLength(NextOf(path, SEPARATOR, at), path);
      var o := CapturesFrom(p, path, i + 1, to + 1);
      if o.Some? { RestStep(caps, i, path[at..to], o.value); }
      if end <= |path| { NextSeparator(path, at, end); }
    }
  }

  lemma FilledEnd(p: Pattern, caps: seq<string>, path: string, pos: nat)
    ensures Filled(p, caps, path, |p.fragments|, pos) == (pos >= |path|)
  {
  }

  lemma FilledLast(p: Pattern, caps: seq<string>, path: string, i: nat, pos: nat)
    requires WellFormed(p) && |caps| == |p.names| && |caps| <= i < |p.fragments| && pos <= |path| + 1
    ensures i + 1 == |p.fragments|
    ensures var at := pos + |p.fragments[i]|;
            Filled(p, caps, path, i, pos) <==> at == |path| && path[pos..at] == p.fragments[i]
  {
    assert FillFrom(p, caps, i + 1) == "";
    assert p.fragments[i] + "" == p.fragments[i];
  }

  lemma SlashFreeStep(caps: seq<string>, i: nat)
    requires i < |caps|
    ensures SlashFree(caps, i) <==> SEPARATOR !in caps[i] && SlashFree(caps, i + 1)
  {
  }

  lemma RestStep(caps: seq<string>, i: nat, value: string, rest: seq<string>)
    requires i < |caps|
    ensures [value] + rest == Rest(caps, i) <==> value == caps[i] && rest == Rest(caps, i + 1)
  {
    var all := [value] + rest;
    assert all[0] == value && all[1..] == rest;
    assert caps[i..] == [caps[i]] + caps[i + 1..];
  }

  /**
   * A path matches with the values `caps` if and only if they are slash-free and, filled into the
   * pattern, give the path, up to one separator after a parameter at its end.  So they are unique.
   */
  lemma MatchIff(p: Pattern, path: string, caps: seq<string>)
    requires WellFormed(p) && NulFree(p) && |caps| == |p.names|
    ensures CapturesFrom(p, path, 0, 0) == Some(caps) <==> SlashFree(caps, 0) && IsFilled(p, caps, 0, path)
  {
    CapturesIff(p, path, caps, 0, 0);
    assert path[0..] == path && caps[0..] == caps;
  }

  // ---------------------------------------------------------------- what the constructor makes

  /**
   * From the place where fragment `i` starts, the pattern is its own filling, with every parameter
   * as it is written.
   */
  ghost predicate Rebuilds(p: Pattern, marked: seq<string>, s: string, i: nat, last: nat) {
    && i <= |p.fragments| && last <= |s| + 1
    && p.fragments[i..] == PatternFrom(s, last).fragments
    && i <= |p.names| && p.names[i..] == PatternFrom(s, last).names
    && |marked| == |p.names| && forall k :: 0 <= k < |marked| ==> marked[k] == [MARKER] + p.names[k]
  }

  lemma {:induction false} Rebuild(p: Pattern, marked: seq<string>, s: string, i: nat, last: nat)
    requires Rebuilds(p, marked, s, i, last)
    ensures WellFormed(p) && Filled(p, marked, s, i, last)
    decreases |s| + 1 - last
  {
    hide PatternFrom, Filled;
    PatternStep(s, last);
    var m := NextOf(s, MARKER, last);
    if m.None? {
      RebuildEnd(p, marked, s, i, last);
    } else {
      var end := OrLength(NextOf(s, SEPARATOR, m.value + 1), s);
      RebuildNext(p, marked, s, i, last, m.value, end);
      Rebuild(p, marked, s, i + 1, end + 1);
      FilledStep(p, marked, s, i, last);
    }
  }

  lemma RebuildEnd(p: Pattern, marked: seq<string>, s: string, i: nat, last: nat)
    requires Rebuilds(p, marked, s, i, last) && NextOf(s, MARKER, last).None?
    ensures WellFormed(p) && Filled(p, marked, s, i, last)
  {
    assert |p.names| == i;
    if last < |s| {
      assert |p.fragments| == i + 1 && p.fragments[i] == p.fragments[i..][0] == s[last..];
      FilledLast(p, marked, s, i, last);
    } else {
      assert |p.fragments| == i;
    }
  }

  lemma RebuildNext(p: Pattern, marked: seq<string>, s: string, i: nat, last: nat, m: nat, end: nat)
    requires Rebuilds(p, marked, s, i, last) && NextOf(s, MARKER, last) == Some(m)
    requires end == OrLength(NextOf(s, SEPARATOR, m + 1), s)
    ensures Rebuilds(p, marked, s, i + 1, end + 1)
    ensures p.fragments[i] == s[last..m] && marked[i] == s[m..end]
    ensures end < |s| ==> s[end] == SEPARATOR
  {
    hide PatternFrom;
    PatternStep(s, last);
    assert p.fragments[i] == p.fragments[i..][0] && p.names[i] == p.names[i..][0];
    assert p.fragments[i + 1..] == p.fragments[i..][1..] && p.names[i + 1..] == p.names[i..][1..];
    assert s[m..end] == [s[m]] + s[m + 1..end];
  }

  lemma {:induction false} NamesAndFragments(s: string, last: nat, k: nat)
    ensures k < |PatternFrom(s, last).names| ==> SEPARATOR !in PatternFrom(s, last).names[k]
    ensures k < |PatternFrom(s, last).fragments| ==> MARKER !in PatternFrom(s, last).fragments[k]
    decreases |s| + 1 - last
  {
    hide PatternFrom;
    PatternStep(s, last);
    var m := NextOf(s, MARKER, last);
    if last <= |s| {
      var to := OrLength(m, s);
      Text.IndexOfIs(s, MARKER, last);
      forall j | 0 <= j < to - last ensures s[last..to][j] != MARKER { assert s[last..to][j] == s[last + j]; }
      assert s[last..|s|] == s[last..];
    }
    if m.Some? {
      var end := OrLength(NextOf(s, SEPARATOR, m.value + 1), s);
      NextSeparator(s, m.value + 1, end);
      if k > 0 { NamesAndFragments(s, end + 1, k - 1); }
    }
  }

  /**
   * The fragments and names that the constructor finds rebuild the pattern, up to one separator
   * after a parameter at its end; names hold no separator and fragments no marker.
   */
  lemma PatternRebuilt(s: string, marked: seq<string>)
    requires var p := PatternFrom(s, 0);
             |marked| == |p.names| && forall k :: 0 <= k < |marked| ==> marked[k] == [MARKER] + p.names[k]
    ensures var p := PatternFrom(s, 0);
            && WellFormed(p) && IsFilled(p, marked, 0, s)
            && (forall k :: 0 <= k < |p.names| ==> SEPARATOR !in p.names[k])
            && (forall k :: 0 <= k < |p.fragments| ==> MARKER !in p.fragments[k])
  {
    hide PatternFrom;
    var p := PatternFrom(s, 0);
    assert p.fragments[0..] == p.fragments && p.names[0..] == p.names && s[0..] == s;
    Rebuild(p, marked, s, 0, 0);
    forall k | 0 <= k < |p.names| ensures SEPARATOR !in p.names[k] { NamesAndFragments(s, 0, k); }
    forall k | 0 <= k < |p.fragments| ensures MARKER !in p.fragments[k] { NamesAndFragments(s, 0, k); }
  }

  /** As the names differ, every captured value is stored under its name, and nothing else is. */
  lemma {:induction false} StoredAll(names: seq<string>, caps: seq<string>)
    requires Unique(names) && |caps| <= |names|
    ensures forall k :: 0 <= k < |caps| ==> names[k] in Stored(names, caps) && Stored(names, caps)[names[k]] == caps[k]
    ensures forall n :: n in Stored(names, caps) ==> n in names[..|caps|]
  {
    if caps != [] {
      var n := |caps| - 1;
      StoredAll(names, caps[..n]);
      StoredNext(names, caps[..n], caps[n]);
      assert caps[..n] + [caps[n]] == caps;
      assert names[..|caps|] == names[..n] + [names[n]];
    }
  }
}
