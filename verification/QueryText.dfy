/**
 * params_to_query_str and parse_query_text of file_server/httplib.h: writing a multimap of
 * parameters as a query string and reading it back.
 */
module QueryText {
  import opened Text
  import opened Url

  /** A std::multimap<std::string, std::string>, as the entries met by iterating over it. */
  type Params = seq<(string, string)>

  /** std::less<std::string>, from position `i` on. */
  predicate LessFrom(a: string, b: string, i: nat)
    decreases |b| - i
  {
    i < |b| && (i >= |a| || a[i] < b[i] || (a[i] == b[i] && LessFrom(a, b, i + 1)))
  }

  predicate Less(a: string, b: string) {
    LessFrom(a, b, 0)
  }

  ghost predicate IsMultimap(ps: Params) {
    forall i, j :: 0 <= i < j < |ps| ==> !Less(ps[j].0, ps[i].0)
  }

  /** The first entry at or after `i` whose key is greater than `key`, or the length. */
  function UpperBound(ps: Params, key: string, i: nat): (u: nat)
    requires i <= |ps|
    ensures i <= u <= |ps|
    decreases |ps| - i
  {
    if i == |ps| || Less(key, ps[i].0) then i else UpperBound(ps, key, i + 1)
  }

  /** multimap::emplace: after the entries with the same key. */
  function Emplace(ps: Params, key: string, val: string): Params {
    var u := UpperBound(ps, key, 0);
    ps[..u] + [(key, val)] + ps[u..]
  }

  lemma {:induction false} EmplaceLast(ps: Params, key: string, i: nat)
    requires i <= |ps| && (forall j :: i <= j < |ps| ==> !Less(key, ps[j].0))
    ensures UpperBound(ps, key, i) == |ps|
    decreases |ps| - i
  {
    if i < |ps| { EmplaceLast(ps, key, i + 1); }
  }

  // ---------- params_to_query_str ----------

  ghost predicate Encodable(ps: Params) {
    forall i :: 0 <= i < |ps| ==> IsBytes(ps[i].1)
  }

  function Pair(p: (string, string)): string
    requires IsBytes(p.1)
  {
    p.0 + ['='] + Encoded(p.1)
  }

  function QueryFrom(ps: Params, i: nat): string
    requires i <= |ps| && forall k :: 0 <= k < |ps| ==> IsBytes(ps[k].1)
    decreases |ps| - i
  {
    if i == |ps| then ""
    else if i + 1 == |ps| then Pair(ps[i])
    else Pair(ps[i]) + ['&'] + QueryFrom(ps, i + 1)
  }

  /** What has been written when the entries before `i` are done. */
  ghost predicate Writing(ps: Params, i: nat, query: string, all: string)
    requires i <= |ps| && Encodable(ps)
  {
    if 0 < i < |ps| then all == query + "&" + QueryFrom(ps, i)
    else if i == |ps| then all == query
    else all == QueryFrom(ps, i) && query == ""
  }

  lemma Regroup(start: string, key: string, val: string, rest: string)
    ensures start + (key + ['='] + val) == start + key + "=" + val
    ensures start + (key + ['='] + val + ['&'] + rest) == start + key + "=" + val + "&" + rest
  {
  }

  lemma WriteNext(ps: Params, i: nat, before: string, start: string, query: string, all: string)
    requires i < |ps| && Encodable(ps) && Writing(ps, i, before, all)
    requires start == if i == 0 then before else before + "&"
    requires query == start + ps[i].0 + "=" + Encoded(ps[i].1)
    ensures Writing(ps, i + 1, query, all)
  {
    assert all == start + QueryFrom(ps, i) by { if i == 0 { assert "" + all == all; } }
    Regroup(start, ps[i].0, Encoded(ps[i].1), if i + 1 < |ps| then QueryFrom(ps, i + 1) else "");
  }

  /** params_to_query_str */
  method ParamsToQueryStr(ps: Params) returns (query: string)
    requires Encodable(ps)
    ensures query == QueryFrom(ps, 0)
  {
    query := "";
    ghost var all := QueryFrom(ps, 0);
    for i := 0 to |ps|
      invariant Writing(ps, i, query, all)
    {
      ghost var before := query;
      if i != 0 { query := query + "&"; }
      ghost var start := query;
      query := query + ps[i].0;
      query := query + "=";
      var escaped := EncodeQueryParam(ps[i].1);
      query := query + escaped;
      WriteNext(ps, i, before, start, query, all);
    }
  }

  // ---------- parse_query_text ----------

  /** One callback of split: a key-value text already seen, or with an empty key, is dropped. */
  function Receive(ps: Params, seen: set<string>, kv: string): Params {
    var (key, val) := Divide(kv, '=');
    if kv in seen || key == "" then ps else Emplace(ps, Decoded(key, true), Decoded(val, true))
  }

  function SeenIn(tokens: seq<string>, n: nat): set<string>
    requires n <= |tokens|
  {
    set k | 0 <= k < n :: tokens[k]
  }

  /** The parameters after the first `n` tokens. */
  function Received(tokens: seq<string>, n: nat, ps: Params): Params
    requires n <= |tokens|
  {
    if n == 0 then ps else Receive(Received(tokens, n - 1, ps), SeenIn(tokens, n - 1), tokens[n - 1])
  }

  function Parsed(s: string, ps: Params): Params {
    Received(Tokens(s, '&'), |Tokens(s, '&')|, ps)
  }

  /** parse_query_text */
  method ParseQueryText(s: string, given: Params) returns (ps: Params)
    ensures ps == Parsed(s, given)
  {
    ps := given;
    var cache: set<string> := {};
    var tokens := Split(s, '&');
    for n := 0 to |tokens|
      invariant cache == SeenIn(tokens, n) && ps == Received(tokens, n, given)
    {
      ps := OnToken(ps, cache, tokens[n]);
      cache := cache + {tokens[n]};
    }
  }

  /** The callback that parse_query_text passes to split. */
  method OnToken(given: Params, cache: set<string>, kv: string) returns (ps: Params)
    ensures ps == Receive(given, cache, kv)
  {
    ps := given;
    if kv !in cache {
      var (key, val) := Divide(kv, '=');
      if key != "" {
        var k := DecodeUrl(key, true);
        var v := DecodeUrl(val, true);
        ps := Emplace(ps, k, v);
      }
    }
  }

  // ---------- The round trip ----------

  /** A key that neither the separators, nor trimming, nor decoding change. */
  predicate CleanKey(key: string) {
    key != "" && forall i :: 0 <= i < |key| ==> key[i] !in "&=%+ \t"
  }

  ghost predicate Writable(ps: Params) {
    Encodable(ps) && forall i :: 0 <= i < |ps| ==> CleanKey(ps[i].0)
  }

  /** The first of each group of equal entries among the first `n`. */
  function Dedup(ps: Params, n: nat): Params
    requires n <= |ps|
  {
    if n == 0 then []
    else if ps[n - 1] in ps[..n - 1] then Dedup(ps, n - 1)
    else Dedup(ps, n - 1) + [ps[n - 1]]
  }

  lemma PairIsToken(p: (string, string))
    requires IsBytes(p.1) && CleanKey(p.0)
    ensures '&' !in Pair(p) && Token(Pair(p)) == [Pair(p)]
    ensures Divide(Pair(p), '=') == p.(1 := Encoded(p.1))
    ensures Decoded(p.0, true) == p.0 && Decoded(Encoded(p.1), true) == p.1
  {
    var s := Pair(p);
    DivideAt(p.0, '=', Encoded(p.1));
    DecodeInvertsEncode(p.1, true);
    DecodeClean(p.0, 0, true);
    assert p.0[0..] == p.0;
    forall c | c in Encoded(p.1) ensures c !in "& \t" { EncodedChars(p.1, 0, c); }
    assert s[0] == p.0[0];
    assert s[|s| - 1] == '=' || s[|s| - 1] in Encoded(p.1);
    TrimClean(s);
  }

  /** The tokens `ts` are the written pairs of `ps` from the one at `i` on. */
  ghost predicate ArePairs(ts: seq<string>, ps: Params, i: nat)
    requires Encodable(ps)
  {
    i + |ts| == |ps| && forall k :: 0 <= k < |ts| ==> ts[k] == Pair(ps[i + k])
  }

  lemma QueryFirstToken(ps: Params, i: nat)
    requires Writable(ps) && i < |ps|
    ensures i + 1 == |ps| ==> Tokens(QueryFrom(ps, i), '&') == [Pair(ps[i])]
    ensures i + 1 < |ps| ==> Tokens(QueryFrom(ps, i), '&') == [Pair(ps[i])] + Tokens(QueryFrom(ps, i + 1), '&')
  {
    PairIsToken(ps[i]);
    if i + 1 == |ps| {
      TokensOne(Pair(ps[i]), '&');
    } else {
      TokensAt(Pair(ps[i]), '&', QueryFrom(ps, i + 1));
    }
  }

  lemma QueryStep(ps: Params, i: nat)
    requires Writable(ps) && i < |ps|
    requires i + 1 < |ps| ==> ArePairs(Tokens(QueryFrom(ps, i + 1), '&'), ps, i + 1)
    ensures ArePairs(Tokens(QueryFrom(ps, i), '&'), ps, i)
  {
    QueryFirstToken(ps, i);
    MorePairs(Tokens(QueryFrom(ps, i), '&'), if i + 1 == |ps| then [] else Tokens(QueryFrom(ps, i + 1), '&'), ps, i);
  }

  lemma {:induction false} QueryTokens(ps: Params, i: nat)
    requires Writable(ps) && i <= |ps|
    ensures ArePairs(Tokens(QueryFrom(ps, i), '&'), ps, i)
    decreases |ps| - i
  {
    if i == |ps| {
      TokensOne("", '&');
    } else {
      QueryTokens(ps, i + 1);
      QueryStep(ps, i);
    }
  }

  lemma MorePairs(ts: seq<string>, rest: seq<string>, ps: Params, i: nat)
    requires Encodable(ps) && i < |ps| && ArePairs(rest, ps, i + 1) && ts == [Pair(ps[i])] + rest
    ensures ArePairs(ts, ps, i)
  {
    forall k | 0 < k < |ts| ensures ts[k] == Pair(ps[i + k]) {
      assert rest[k - 1] == Pair(ps[i + 1 + (k - 1)]);
    }
  }

  lemma PairInjective(p: (string, string), q: (string, string))
    requires IsBytes(p.1) && CleanKey(p.0) && IsBytes(q.1) && CleanKey(q.0)
    ensures Pair(p) == Pair(q) <==> p == q
  {
    PairIsToken(p);
    PairIsToken(q);
  }

  lemma SeenPair(ts: seq<string>, ps: Params, n: nat)
    requires Writable(ps) && n < |ps| && ArePairs(ts, ps, 0)
    ensures Pair(ps[n]) in SeenIn(ts, n) <==> ps[n] in ps[..n]
  {
    forall k | 0 <= k < n ensures ts[k] == Pair(ps[n]) <==> ps[k] == ps[n] {
      PairInjective(ps[k], ps[n]);
    }
    if Pair(ps[n]) in SeenIn(ts, n) {
      var k :| 0 <= k < n && ts[k] == Pair(ps[n]);
      assert ps[..n][k] == ps[n];
    }
    if ps[n] in ps[..n] {
      var k :| 0 <= k < n && ps[..n][k] == ps[n];
      assert ts[k] in SeenIn(ts, n);
    }
  }

  lemma {:induction false} DedupFrom(ps: Params, n: nat, p: (string, string))
    requires n <= |ps|
    ensures p in Dedup(ps, n) <==> p in ps[..n]
    ensures |Dedup(ps, n)| <= n
  {
    if n > 0 {
      DedupFrom(ps, n - 1, p);
      assert ps[..n] == ps[..n - 1] + [ps[n - 1]];
    }
  }

  lemma ReceiveNext(before: Params, seen: set<string>, p: (string, string))
    requires IsBytes(p.1) && CleanKey(p.0)
    requires forall j :: 0 <= j < |before| ==> !Less(p.0, before[j].0)
    ensures Receive(before, seen, Pair(p)) == if Pair(p) in seen then before else before + [p]
  {
    PairIsToken(p);
    EmplaceLast(before, p.0, 0);
    assert before[..|before|] + [p] + before[|before|..] == before + [p];
  }

  lemma NoneGreater(ps: Params, n: nat)
    requires IsMultimap(ps) && n < |ps|
    ensures forall j :: 0 <= j < |Dedup(ps, n)| ==> !Less(ps[n].0, Dedup(ps, n)[j].0)
  {
    var before := Dedup(ps, n);
    forall j | 0 <= j < |before| ensures !Less(ps[n].0, before[j].0) {
      DedupFrom(ps, n, before[j]);
      var i :| 0 <= i < n && ps[..n][i] == before[j];
      assert ps[i] == before[j];
    }
  }

  lemma ReceiveDedup(ts: seq<string>, ps: Params, n: nat)
    requires IsMultimap(ps) && Writable(ps) && n < |ps| && ArePairs(ts, ps, 0)
    ensures Receive(Dedup(ps, n), SeenIn(ts, n), ts[n]) == Dedup(ps, n + 1)
  {
    SeenPair(ts, ps, n);
    NoneGreater(ps, n);
    ReceiveNext(Dedup(ps, n), SeenIn(ts, n), ps[n]);
  }

  lemma {:induction false} ReceivedIsDedup(ts: seq<string>, ps: Params, n: nat)
    requires IsMultimap(ps) && Writable(ps) && n <= |ps| && ArePairs(ts, ps, 0)
    ensures Received(ts, n, []) == Dedup(ps, n)
  {
    if n > 0 {
      ReceivedIsDedup(ts, ps, n - 1);
      ReceiveDedup(ts, ps, n - 1);
    }
  }

  /**
   * Round trip: for every multimap with clean keys and any bytes in its values, parsing its
   * query string gives the multimap with equal entries merged.
   */
  lemma {:induction false} ParseUndoesWrite(ps: Params)
    requires IsMultimap(ps) && Writable(ps)
    ensures Parsed(QueryFrom(ps, 0), []) == Dedup(ps, |ps|)
  {
    hide QueryFrom, Received, Dedup, ArePairs;
    QueryTokens(ps, 0);
    ReceivedIsDedup(Tokens(QueryFrom(ps, 0), '&'), ps, |ps|);
  }

  /** So the multimap itself comes back exactly when no key-value pair occurs twice. */
  lemma {:induction false} ParseUndoesWriteIff(ps: Params)
    requires IsMultimap(ps) && Writable(ps)
    ensures Parsed(QueryFrom(ps, 0), []) == ps <==> forall i, j :: 0 <= i < j < |ps| ==> ps[i] != ps[j]
  {
    assert ps[..|ps|] == ps;
    DedupIsWhole(ps, |ps|);
    ParseUndoesWrite(ps);
  }

  lemma {:induction false} DedupIsWhole(ps: Params, n: nat)
    requires n <= |ps|
    ensures |Dedup(ps, n)| <= n
    ensures Dedup(ps, n) == ps[..n] <==> forall i, j :: 0 <= i < j < n ==> ps[i] != ps[j]
  {
    if n > 0 {
      DedupIsWhole(ps, n - 1);
      assert ps[..n] == ps[..n - 1] + [ps[n - 1]];
      if Dedup(ps, n) == ps[..n] {
        assert ps[n - 1] !in ps[..n - 1];
        forall i | 0 <= i < n - 1 ensures ps[i] != ps[n - 1] { assert ps[..n - 1][i] == ps[i]; }
      } else if ps[n - 1] in ps[..n - 1] {
        var i :| 0 <= i < n - 1 && ps[..n - 1][i] == ps[n - 1];
        assert ps[i] == ps[n - 1];
      }
    }
  }

  /** A repeated pair is lost: "a=1&a=1" reads back as one entry. */
  lemma RepeatedPairIsLost()
    ensures var ps := [("a", "1"), ("a", "1")];
            IsMultimap(ps) && Writable(ps) && Parsed(QueryFrom(ps, 0), []) != ps
  {
    var ps := [("a", "1"), ("a", "1")];
    assert !LessFrom("a", "a", 0);
    ParseUndoesWriteIff(ps);
    assert ps[0] == ps[1];
  }
}
