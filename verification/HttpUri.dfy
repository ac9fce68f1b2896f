/** Building and taking apart the URI of a request: HttpServer::GetHttpURI, HttpServer::GetHttpParams and StringUtil::Split. */
module HttpUri {
  import opened Texts

  datatype Position = Npos | At(index: nat)

  /** string::find_first_of. */
  function FindFirstOf(s: string, cs: string): (r: Position)
    ensures r.Npos? ==> forall i :: 0 <= i < |s| ==> s[i] !in cs
    ensures r.At? ==> r.index < |s| && s[r.index] in cs && forall i :: 0 <= i < r.index ==> s[i] !in cs
  {
    if s == [] then Npos
    else if s[0] in cs then At(0)
    else match FindFirstOf(s[1..], cs)
      case Npos => Npos
      case At(i) => At(i + 1)
  }

  lemma {:induction false} FoundAt(s: string, cs: string, k: nat)
    requires k < |s| && s[k] in cs && forall i :: 0 <= i < k ==> s[i] !in cs
    ensures FindFirstOf(s, cs) == At(k)
  {
  }

  // ---------- splitting ----------

  /** The parts of `s` between the characters of `sp`; nothing at all for an empty `s`. */
  function Pieces(s: string, sp: string): seq<string> {
    if s == [] then [] else Cuts(s, sp)
  }

  function Cuts(s: string, sp: string): (r: seq<string>)
    ensures r != []
    decreases |s|
  {
    match FindFirstOf(s, sp)
    case Npos => [s]
    case At(i) => [s[..i]] + Cuts(s[i + 1..], sp)
  }

  lemma CutsStep(s: string, sp: string)
    ensures var f := FindFirstOf(s, sp);
            && (f.Npos? ==> Cuts(s, sp) == [s])
            && (f.At? ==> Cuts(s, sp) == [s[..f.index]] + Cuts(s[f.index + 1..], sp))
  {
    hide FindFirstOf;
  }

  /** StringUtil::Split appends to `v`. The last piece is always appended, empty or not. */
  method Split(s: string, sp: string, v: seq<string>) returns (r: seq<string>)
    ensures r == v + Pieces(s, sp)
  {
    hide FindFirstOf, Cuts;
    r := v;
    if s == [] {
      return;
    }
    var last := 0;
    var index := FindFirstOf(s, sp);
    assert s[0..] == s;
    while index.At?
      invariant last <= |s| && (index.At? ==> last <= index.index < |s|)
      invariant FindFirstOf(s[last..], sp) == if index.At? then At(index.index - last) else Npos
      invariant v + Cuts(s, sp) == r + Cuts(s[last..], sp)
      decreases |s| - last
    {
      r, last := SplitOne(s, sp, last, index.index, r);
      index := match FindFirstOf(s[last..], sp) case Npos => Npos case At(i) => At(last + i);
    }
    CutsStep(s[last..], sp);
    r := r + [s[last..]];
  }

  method SplitOne(s: string, sp: string, last: nat, index: nat, v: seq<string>) returns (r: seq<string>, next: nat)
    requires last <= index < |s| && FindFirstOf(s[last..], sp) == At(index - last)
    ensures next == index + 1 && r + Cuts(s[next..], sp) == v + Cuts(s[last..], sp)
  {
    hide FindFirstOf, Cuts;
    ghost var t, k := s[last..], index - last;
    CutsStep(t, sp);
    r := v + [s[last..index]];
    assert t[..k] == s[last..index] && t[k + 1..] == s[index + 1..];
    next := index + 1;
  }

  function Join(pieces: seq<string>, sep: char): string {
    if pieces == [] then []
    else if |pieces| == 1 then pieces[0]
    else pieces[0] + [sep] + Join(pieces[1..], sep)
  }

  predicate AllWithout(pieces: seq<string>, c: char) {
    forall i :: 0 <= i < |pieces| ==> Without(pieces[i], c)
  }

  /** Splitting at one separator: no piece holds it, and joining the pieces with it gives the text back. */
  lemma {:induction false} JoinUndoesSplit(s: string, sep: char)
    ensures AllWithout(Pieces(s, [sep]), sep) && Join(Pieces(s, [sep]), sep) == s
  {
    if s != [] {
      JoinUndoesCuts(s, sep);
    }
  }

  lemma {:induction false} JoinUndoesCuts(s: string, sep: char)
    ensures AllWithout(Cuts(s, [sep]), sep) && Join(Cuts(s, [sep]), sep) == s
    decreases |s|
  {
    var f := FindFirstOf(s, [sep]);
    if f.At? {
      JoinUndoesCuts(s[f.index + 1..], sep);
      var rest := Cuts(s[f.index + 1..], [sep]);
      assert ([s[..f.index]] + rest)[1..] == rest;
      assert s == s[..f.index] + [sep] + s[f.index + 1..];
    }
  }

  /** And the other way round: pieces without the separator come back, unless there is only an empty one. */
  lemma {:induction false} SplitUndoesJoin(pieces: seq<string>, sep: char)
    requires pieces != [] && AllWithout(pieces, sep)
    ensures Cuts(Join(pieces, sep), [sep]) == pieces
    ensures pieces != [""] ==> Pieces(Join(pieces, sep), [sep]) == pieces
    decreases |pieces|
  {
    hide FindFirstOf, Cuts;
    var s := Join(pieces, sep);
    CutsStep(s, [sep]);
    if |pieces| == 1 {
      assert forall i :: 0 <= i < |s| ==> s[i] == pieces[0][i];
    } else {
      var k := |pieces[0]|;
      assert s[k] == sep && s[..k] == pieces[0] && s[k + 1..] == Join(pieces[1..], sep);
      assert forall i :: 0 <= i < k ==> s[i] == pieces[0][i];
      FoundAt(s, [sep], k);
      SplitUndoesJoin(pieces[1..], sep);
    }
  }

  // ---------- parameters ----------

  function KeyOf(piece: string): string {
    match FindFirstOf(piece, "=")
    case Npos => piece
    case At(i) => piece[..i]
  }

  /** `npos + 1` is 0: a piece without '=' is its own value. */
  function ValueOf(piece: string): string {
    match FindFirstOf(piece, "=")
    case Npos => piece
    case At(i) => piece[i + 1..]
  }

  /** Later pieces win. */
  function ParamsOf(pieces: seq<string>): map<string, string> {
    if pieces == [] then map[]
    else ParamsOf(pieces[..|pieces| - 1])[KeyOf(pieces[|pieces| - 1]) := ValueOf(pieces[|pieces| - 1])]
  }

  function ParsedUri(uri: string): (string, map<string, string>) {
    match FindFirstOf(uri, "?")
    case Npos => (uri, map[])
    case At(i) => (uri[..i], ParamsOf(Pieces(uri[i + 1..], "&")))
  }

  lemma NoParams()
    ensures ParamsOf([]) == map[]
  {
  }

  lemma ParamsStep(v: seq<string>, i: nat)
    requires i < |v|
    ensures ParamsOf(v[..i + 1]) == ParamsOf(v[..i])[KeyOf(v[i]) := ValueOf(v[i])]
  {
    hide KeyOf, ValueOf;
    assert v[..i + 1][..i] == v[..i];
  }

  /** HttpServer::GetHttpParams. */
  method GetHttpParams(uri: string) returns (path: string, params: map<string, string>)
    ensures (path, params) == ParsedUri(uri)
  {
    hide FindFirstOf, Pieces, KeyOf, ValueOf, ParamsOf;
    var pos := FindFirstOf(uri, "?");
    params := map[];
    NoParams();
    if pos.Npos? {
      return uri, params;
    }
    path := uri[..pos.index];
    var query := uri[pos.index + 1..];
    var v := Split(query, "&", []);
    assert v == Pieces(query, "&");
    for i := 0 to |v|
      invariant params == ParamsOf(v[..i])
    {
      ParamsStep(v, i);
      params := params[KeyOf(v[i]) := ValueOf(v[i])];
    }
    assert v[..|v|] == v;
  }

  /** The order in which the parameters are visited: every key once. A std::map visits them sorted, but any order will do. */
  ghost predicate Visits(order: seq<string>, params: map<string, string>) {
    && (forall i :: 0 <= i < |order| ==> order[i] in params)
    && (forall k :: k in params ==> k in order)
    && forall i, j :: 0 <= i < j < |order| ==> order[i] != order[j]
  }

  function Pairs(order: seq<string>, params: map<string, string>): (r: seq<string>)
    requires forall i :: 0 <= i < |order| ==> order[i] in params
    ensures |r| == |order| && forall i :: 0 <= i < |r| ==> r[i] == order[i] + "=" + params[order[i]]
  {
    seq(|order|, i requires 0 <= i < |order| => order[i] + "=" + params[order[i]])
  }

  function BuiltUri(path: string, order: seq<string>, params: map<string, string>): string
    requires forall i :: 0 <= i < |order| ==> order[i] in params
  {
    if order == [] then path else path + "?" + Join(Pairs(order, params), '&')
  }

  /** HttpServer::GetHttpURI. */
  method GetHttpURI(path: string, params: map<string, string>, order: seq<string>) returns (uri: string)
    requires Visits(order, params)
    ensures uri == BuiltUri(path, order, params)
  {
    hide Join;
    uri := path;
    if order != [] {
      SomeParams(order, params);
    }
    NothingJoined('&');
    if |params| > 0 {
      var n := 0;
      uri := uri + "?";
      ghost var all := Pairs(order, params);
      for i := 0 to |order|
        invariant n == i && uri == path + "?" + Join(all[..i], '&')
      {
        JoinMore(all, i, '&');
        if n > 0 {
          uri := uri + "&";
        }
        n := n + 1;
        uri := uri + order[i];
        uri := uri + "=";
        uri := uri + params[order[i]];
      }
      assert all[..|order|] == all;
      NonEmptyVisit(order, params);
    }
  }

  lemma NothingJoined(sep: char)
    ensures Join([], sep) == ""
  {
  }

  lemma NonEmptyVisit(order: seq<string>, params: map<string, string>)
    requires Visits(order, params) && |params| > 0
    ensures order != []
  {
    assert order == [] ==> params.Keys == {};
  }

  lemma SomeParams(order: seq<string>, params: map<string, string>)
    requires Visits(order, params) && order != []
    ensures |params| > 0
  {
    assert order[0] in params.Keys;
  }

  lemma {:induction false} JoinMore(pieces: seq<string>, i: nat, sep: char)
    requires i < |pieces|
    ensures Join(pieces[..i + 1], sep) == Join(pieces[..i], sep) + (if i > 0 then [sep] else []) + pieces[i]
    decreases i
  {
    if i > 0 {
      var rest := pieces[1..];
      JoinMore(rest, i - 1, sep);
      assert pieces[..i + 1][1..] == rest[..i] && pieces[..i][1..] == rest[..i - 1];
      if i == 1 {
        assert pieces[..1] == [pieces[0]] && rest[..0] == [];
      }
    }
  }

  // ---------- there and back ----------

  /** Keys hold no '=' and no '&', values no '&', and the path no '?'. */
  predicate CleanParams(params: map<string, string>) {
    forall k :: k in params ==> Without(k, '=') && Without(k, '&') && Without(params[k], '&')
  }

  lemma PairParts(k: string, v: string)
    requires Without(k, '=')
    ensures KeyOf(k + "=" + v) == k && ValueOf(k + "=" + v) == v
  {
    FoundAt(k + "=" + v, "=", |k|);
  }

  lemma PairWithout(k: string, v: string)
    requires Without(k, '&') && Without(v, '&')
    ensures Without(k + "=" + v, '&')
  {
  }

  lemma {:induction false} ParamsOfPairs(order: seq<string>, params: map<string, string>, n: nat)
    requires Visits(order, params) && CleanParams(params) && n <= |order|
    ensures var m := ParamsOf(Pairs(order, params)[..n]);
            && (forall k :: k in m ==> k in params && m[k] == params[k]) && forall i :: 0 <= i < n ==> order[i] in m
    decreases n
  {
    hide KeyOf, ValueOf, ParamsOf, Pairs;
    var all := Pairs(order, params);
    if n == 0 {
      NoParams();
    } else {
      ParamsOfPairs(order, params, n - 1);
      var k := order[n - 1];
      PairParts(k, params[k]);
      ParamsStep(all, n - 1);
    }
  }

  // ---------- piece by piece ----------

  lemma NotFound(s: string, c: char)
    requires Without(s, c)
    ensures FindFirstOf(s, [c]) == Npos
  {
  }

  /** A piece with an equals sign is split at the first one; a piece without one is its own value. */
  lemma PieceIs(k: string, v: string)
    requires Without(k, '=')
    ensures KeyOf(k + "=" + v) == k && ValueOf(k + "=" + v) == v
    ensures KeyOf(k) == k && ValueOf(k) == k
  {
    assert "=" == ['='];
    NotFound(k, '=');
    FoundAt(k + "=" + v, "=", |k|);
  }

  lemma ParamsLast(pieces: seq<string>, last: string)
    ensures ParamsOf(pieces + [last]) == ParamsOf(pieces)[KeyOf(last) := ValueOf(last)]
  {
    hide KeyOf, ValueOf;
    assert (pieces + [last])[..|pieces|] == pieces;
  }

  /** A piece behind the last separator. */
  lemma {:induction false} CutsLast(q: string, piece: string, sep: char)
    requires Without(piece, sep)
    ensures Cuts(q + [sep] + piece, [sep]) == Cuts(q, [sep]) + [piece] && Cuts(piece, [sep]) == [piece]
    decreases |q|
  {
    hide FindFirstOf, Cuts;
    var s, f := q + [sep] + piece, FindFirstOf(q, [sep]);
    NotFound(piece, sep);
    CutsStep(piece, [sep]);
    CutsStep(q, [sep]);
    CutsStep(s, [sep]);
    if f.At? {
      FoundAt(s, [sep], f.index);
      assert s[..f.index] == q[..f.index] && s[f.index + 1..] == q[f.index + 1..] + [sep] + piece;
      CutsLast(q[f.index + 1..], piece, sep);
    } else {
      FoundAt(s, [sep], |q|);
      assert s[..|q|] == q && s[|q| + 1..] == piece;
    }
  }

  /** Everything about reading a URI, by the texts: without '?' all of it is the path; behind the first '?' each piece between '&' sets one
      parameter, and later pieces win; nothing behind '?' sets none. */
  lemma UriIs(path: string, q: string, k: string, v: string)
    requires Without(path, '?') && Without(k, '=') && Without(k, '&') && Without(v, '&')
    ensures ParsedUri(path) == (path, map[]) && ParsedUri(path + "?") == (path, map[])
    ensures ParsedUri(path + "?" + (k + "=" + v)) == (path, map[k := v])
    ensures k != "" ==> ParsedUri(path + "?" + k) == (path, map[k := k])
    ensures q != "" ==> ParsedUri(path + "?" + (q + "&" + (k + "=" + v))) == (path, ParsedUri(path + "?" + q).1[k := v])
    ensures q != "" ==> ParsedUri(path + "?" + (q + "&" + k)) == (path, ParsedUri(path + "?" + q).1[k := k])
  {
    hide FindFirstOf, Cuts, KeyOf, ValueOf, ParamsOf;
    assert "?" == ['?'] && "&" == ['&'];
    var kv := k + "=" + v;
    NotFound(path, '?');
    QueryStarts(path, "");
    assert path + "?" + "" == path + "?";
    NoParams();
    PieceIs(k, v);
    PairWithout(k, v);
    QueryIs(path, kv);
    QueryIs(path, k);
    QueryIs(path, q);
    QueryIs(path, q + "&" + kv);
    QueryIs(path, q + "&" + k);
    CutsLast(q, kv, '&');
    CutsLast(q, k, '&');
    ParamsLast([], kv);
    ParamsLast([], k);
    assert [] + [kv] == [kv] && [] + [k] == [k];
    if q != "" {
      ParamsLast(Cuts(q, "&"), kv);
      ParamsLast(Cuts(q, "&"), k);
    }
  }

  lemma QueryIs(path: string, q: string)
    requires Without(path, '?')
    ensures ParsedUri(path + "?" + q) == (path, ParamsOf(if q == "" then [] else Cuts(q, "&")))
  {
    hide FindFirstOf, Cuts, ParamsOf;
    QueryStarts(path, q);
  }

  /** Everything about building one: the path alone, or with '?' and the pairs with '&' between them. */
  lemma BuiltIs(path: string, order: seq<string>, k: string, params: map<string, string>)
    requires k in params && forall i :: 0 <= i < |order| ==> order[i] in params
    ensures BuiltUri(path, [], params) == path && BuiltUri(path, [k], params) == path + "?" + (k + "=" + params[k])
    ensures order != [] ==> BuiltUri(path, order + [k], params) == BuiltUri(path, order, params) + "&" + (k + "=" + params[k])
  {
    hide Join, Pairs;
    var pair := k + "=" + params[k];
    var none: seq<string> := [];
    PairsLast(none, k, params);
    PairsLast(order, k, params);
    assert none + [k] == [k] && Pairs(none, params) + [pair] == [pair];
    JoinLast(none, pair);
    JoinLast(Pairs(order, params), pair);
    NothingJoined('&');
    if order != [] {
      BuiltMore(path + "?", Join(Pairs(order, params), '&'), pair);
    }
  }

  lemma BuiltMore(a: string, b: string, pair: string)
    ensures a + (b + "&" + pair) == (a + b) + "&" + pair
  {
  }

  lemma PairsLast(order: seq<string>, k: string, params: map<string, string>)
    requires k in params && forall i :: 0 <= i < |order| ==> order[i] in params
    ensures Pairs(order + [k], params) == Pairs(order, params) + [k + "=" + params[k]]
  {
  }

  lemma JoinLast(pieces: seq<string>, piece: string)
    ensures Join(pieces + [piece], '&') == if pieces == [] then piece else Join(pieces, '&') + "&" + piece
  {
    hide Join;
    var all := pieces + [piece];
    JoinMore(all, |pieces|, '&');
    NothingJoined('&');
    assert all[..|pieces|] == pieces && all[..|pieces| + 1] == all;
    assert "" + [] + piece == piece && "&" == ['&'];
  }

  /** A query with a key twice, a piece without '=' and a value with one. */
  lemma UriExample()
    ensures ParsedUri("/p?a=1&b&a=x=y") == ("/p", map["a" := "x=y", "b" := "b"])
  {
    hide ParsedUri;
    var p, a, b, none: string, one, xy := "/p", "a", "b", "", "1", "x=y";
    var q := a + "=" + one;
    var r := q + "&" + b;
    UriIs(p, none, a, one);
    UriIs(p, q, b, none);
    UriIs(p, r, a, xy);
    var m: map<string, string> := map[a := one];
    assert ParsedUri(p + "?" + q).1 == m;
    assert ParsedUri(p + "?" + r).1 == m[b := b];
    assert p + "?" + (r + "&" + (a + "=" + xy)) == "/p?a=1&b&a=x=y";
    assert m[b := b][a := xy] == map["a" := "x=y", "b" := "b"];
  }

  /** What is read from any URI: keys without '=' and '&', values without '&', and a path without '?'. */
  lemma {:induction false} ParsedIsClean(pieces: seq<string>)
    requires AllWithout(pieces, '&')
    ensures CleanParams(ParamsOf(pieces))
    decreases |pieces|
  {
    if pieces != [] {
      ParsedIsClean(pieces[..|pieces| - 1]);
      var last := pieces[|pieces| - 1];
      var f := FindFirstOf(last, "=");
      if f.At? {
        assert forall i :: 0 <= i < f.index ==> last[..f.index][i] == last[i];
        assert forall c :: c in last[..f.index] ==> c in last;
        assert forall c :: c in last[f.index + 1..] ==> c in last;
      }
    }
  }

  lemma QueryStarts(path: string, query: string)
    requires Without(path, '?')
    ensures var uri := path + "?" + query; FindFirstOf(uri, "?") == At(|path|) && uri[..|path|] == path && uri[|path| + 1..] == query
  {
    var uri := path + "?" + query;
    assert forall i :: 0 <= i < |path| ==> uri[i] == path[i];
    FoundAt(uri, "?", |path|);
  }

  lemma PairsSplit(order: seq<string>, params: map<string, string>)
    requires Visits(order, params) && CleanParams(params) && order != []
    ensures Pieces(Join(Pairs(order, params), '&'), "&") == Pairs(order, params)
  {
    hide Pieces, Join;
    var all := Pairs(order, params);
    forall i | 0 <= i < |all|
      ensures Without(all[i], '&')
    {
      PairWithout(order[i], params[order[i]]);
    }
    assert |all[0]| == |order[0]| + 1 + |params[order[0]]|;
    SplitUndoesJoin(all, '&');
  }

  lemma ParamsRoundTrip(path: string, order: seq<string>, params: map<string, string>)
    requires Visits(order, params) && CleanParams(params) && Without(path, '?')
    ensures ParsedUri(BuiltUri(path, order, params)) == (path, params)
  {
    hide Pieces, Join, ParamsOf, FindFirstOf, CleanParams;
    if order == [] {
      assert FindFirstOf(path, "?").Npos?;
      assert params == map[];
    } else {
      var all := Pairs(order, params);
      QueryStarts(path, Join(all, '&'));
      PairsSplit(order, params);
      ParamsOfPairs(order, params, |order|);
      assert all[..|order|] == all;
      assert ParamsOf(all) == params;
    }
  }

  /** Exactly these paths and parameters survive being written into a URI and read back. */
  lemma SurvivesExactly(path: string, order: seq<string>, params: map<string, string>)
    requires Visits(order, params)
    ensures ParsedUri(BuiltUri(path, order, params)) == (path, params) <==> CleanParams(params) && Without(path, '?')
  {
    if CleanParams(params) && Without(path, '?') {
      ParamsRoundTrip(path, order, params);
    }
    var uri := BuiltUri(path, order, params);
    var f := FindFirstOf(uri, "?");
    if f.At? {
      JoinUndoesSplit(uri[f.index + 1..], '&');
      ParsedIsClean(Pieces(uri[f.index + 1..], "&"));
    }
  }
}
