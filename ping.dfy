/**
 * The results store of the dashboard: fetching the bucket map from the results endpoint and
 * pivoting it into chart rows, one series per network type.
 */
module Ping {
  import opened Wrappers
  import Text
  import Server
  import Base
  import Loading
  import opened Charts

  // ---------------------------------------------------------------- query string

  /** `URLSearchParams` with `start` and then `end`, each only when truthy. */
  function QueryParams(start: Option<int>, end: Option<int>): (ps: seq<(string, string)>)
    ensures forall v :: ("start", v) in ps <==> Server.Truthy(start) && v == Text.IntString(start.value)
    ensures forall v :: ("end", v) in ps <==> Server.Truthy(end) && v == Text.IntString(end.value)
    ensures forall p :: p in ps ==> p.0 == "start" || p.0 == "end"
    ensures |ps| > 0 && Server.Truthy(start) ==> ps[0].0 == "start"
    ensures |ps| == 0 <==> !Server.Truthy(start) && !Server.Truthy(end)
    ensures |ps| == (if Server.Truthy(start) then 1 else 0) + (if Server.Truthy(end) then 1 else 0)
  {
    (if Server.Truthy(start) then [("start", Text.IntString(start.value))] else [])
    + (if Server.Truthy(end) then [("end", Text.IntString(end.value))] else [])
  }

  /**
   * The serialized parameters. Names and values here are digits, a minus sign and letters,
   * which the form encoding leaves as they are.
   */
  function Serialize(ps: seq<(string, string)>): string {
    Base.Join(seq(|ps|, i requires 0 <= i < |ps| => ps[i].0 + "=" + ps[i].1), "&")
  }

  /** The request URL: the results endpoint, with a query string only when a bound is given. */
  function ResultsUrl(env: Option<string>, start: Option<int>, end: Option<int>): (url: string)
    ensures url == Base.ApiUrl(env, ["v1/results"]) <==> !Server.Truthy(start) && !Server.Truthy(end)
  {
    var url := Base.ApiUrl(env, ["v1/results"]);
    if Server.Truthy(start) || Server.Truthy(end) then url + "?" + Serialize(QueryParams(start, end)) else url
  }

  /** The pieces of `s` between occurrences of `sep`; a string without `sep` is one piece. */
  function Split(s: string, sep: char): (parts: seq<string>)
    ensures |parts| > 0
    decreases |s|
  {
    if |s| == 0 then [""]
    else
      var rest := Split(s[1..], sep);
      if s[0] == sep then [""] + rest else [[s[0]] + rest[0]] + rest[1..]
  }

  lemma {:induction false} SplitWhole(a: string, sep: char)
    requires sep !in a
    ensures Split(a, sep) == [a]
    decreases |a|
  {
    if |a| > 0 {
      assert a[0] != sep;
      SplitWhole(a[1..], sep);
      assert [a[0]] + a[1..] == a;
    }
  }

  /** A separator after a piece without one ends that piece. */
  lemma {:induction false} SplitConcat(a: string, sep: char, b: string)
    requires sep !in a
    ensures Split(a + [sep] + b, sep) == [a] + Split(b, sep)
    decreases |a|
  {
    var s := a + [sep] + b;
    if |a| == 0 {
      assert s == [sep] + b && s[1..] == b;
    } else {
      assert a[0] != sep;
      assert s[0] == a[0] && s[1..] == a[1..] + [sep] + b;
      SplitConcat(a[1..], sep, b);
      assert [a[0]] + a[1..] == a;
    }
  }

  /** Splitting pieces joined by a separator none of them contains gives the pieces back. */
  lemma {:induction false} SplitJoin(xs: seq<string>, sep: char)
    requires |xs| > 0 && forall i :: 0 <= i < |xs| ==> sep !in xs[i]
    ensures Split(Base.Join(xs, [sep]), sep) == xs
    decreases |xs|
  {
    if |xs| == 1 {
      SplitWhole(xs[0], sep);
    } else {
      SplitJoin(xs[1..], sep);
      SplitConcat(xs[0], sep, Base.Join(xs[1..], [sep]));
      assert [xs[0]] + xs[1..] == xs;
    }
  }

  /** One `name=value` piece: the name up to the first `=`, the rest as value (empty without `=`). */
  function ParsePair(piece: string): (string, string) {
    var parts := Split(piece, '=');
    (parts[0], Base.Join(parts[1..], "="))
  }

  /**
   * The pairs a query string holds, as the server's query parser reads them. No escapes need
   * decoding here (see `Serialize`); an empty piece gives ("", ""), which no parameter name matches.
   */
  function ParseQuery(q: string): (ps: seq<(string, string)>)
    ensures |ps| == |Split(q, '&')|
  {
    var pieces := Split(q, '&');
    seq(|pieces|, i requires 0 <= i < |pieces| => ParsePair(pieces[i]))
  }

  /** A name or value without `&` and `=`, so that it survives serialization unchanged. */
  predicate Plain(s: string) {
    '&' !in s && '=' !in s
  }

  lemma ParsePairPlain(name: string, value: string)
    requires Plain(name) && Plain(value)
    ensures ParsePair(name + "=" + value) == (name, value)
  {
    SplitConcat(name, '=', value);
    assert name + "=" + value == name + ['='] + value;
    SplitWhole(value, '=');
  }

  /** Reading back a serialized list of plain pairs gives the list. */
  lemma ParseSerialize(ps: seq<(string, string)>)
    requires |ps| > 0 && forall i :: 0 <= i < |ps| ==> Plain(ps[i].0) && Plain(ps[i].1)
    ensures ParseQuery(Serialize(ps)) == ps
  {
    var pieces := seq(|ps|, i requires 0 <= i < |ps| => ps[i].0 + "=" + ps[i].1);
    forall i | 0 <= i < |ps| ensures '&' !in pieces[i] && ParsePair(pieces[i]) == ps[i] {
      ParsePairPlain(ps[i].0, ps[i].1);
      assert pieces[i] == ps[i].0 + "=" + ps[i].1;
    }
    SplitJoin(pieces, '&');
    assert Split(Serialize(ps), '&') == pieces;
  }

  /** The query parameters hold only the names `start` and `end` and decimal integers. */
  lemma QueryParamsPlain(start: Option<int>, end: Option<int>)
    ensures var ps := QueryParams(start, end);
      forall i :: 0 <= i < |ps| ==> Plain(ps[i].0) && Plain(ps[i].1)
  {
    if Server.Truthy(start) { IntStringPlain(start.value); }
    if Server.Truthy(end) { IntStringPlain(end.value); }
  }

  /** The decimal form of an integer holds only digits and a minus sign. */
  lemma IntStringPlain(n: int)
    ensures Plain(Text.IntString(n))
  {
    var s := Text.IntString(n);
    forall i | 0 <= i < |s| ensures s[i] != '&' && s[i] != '=' {
    }
  }

  /**
   * The number the server reads for a parameter: the first pair of that name decides, and it
   * counts only when its value is an integer literal; no pair of that name reads as missing.
   */
  function Param(ps: seq<(string, string)>, name: string): (v: Option<int>)
    ensures v.Some? ==> exists s :: (name, s) in ps && Text.IntLiteral(s) && Text.ParseInt(s) == v.value
    ensures forall i :: 0 <= i < |ps| && ps[i].0 == name && (forall j :: 0 <= j < i ==> ps[j].0 != name) ==>
      v == if Text.IntLiteral(ps[i].1) then Some(Text.ParseInt(ps[i].1)) else None
    ensures (forall p :: p in ps ==> p.0 != name) ==> v.None?
  {
    if |ps| == 0 then None
    else if ps[0].0 == name then (if Text.IntLiteral(ps[0].1) then Some(Text.ParseInt(ps[0].1)) else None)
    else
      var v := Param(ps[1..], name);
      assert forall i :: 1 <= i < |ps| ==> ps[1..][i - 1] == ps[i];
      v
  }

  function ServerQuery(ps: seq<(string, string)>): Server.Query {
    Server.Query(Param(ps, "start"), Param(ps, "end"))
  }

  /**
   * Leaving out falsy bounds loses nothing: the server, reading the query string the client
   * sends and defaulting what is missing, works on the same range as it would with the
   * client's own values.
   */
  lemma ClientServerAgree(start: Option<int>, end: Option<int>, now: int)
    ensures Server.DefaultRange(ServerQuery(ParseQuery(Serialize(QueryParams(start, end)))), now)
         == Server.DefaultRange(Server.Query(start, end), now)
  {
    var ps := QueryParams(start, end);
    if |ps| == 0 {
      assert Serialize(ps) == "";
      assert ParseQuery("") == [("", "")];
    } else {
      QueryParamsPlain(start, end);
      ParseSerialize(ps);
      ParamsAgree(start, end);
    }
  }

  /** The server reads back exactly the truthy bounds from the client's parameters. */
  lemma ParamsAgree(start: Option<int>, end: Option<int>)
    ensures var q := ServerQuery(QueryParams(start, end));
      && (Server.Truthy(start) ==> q.start == start) && (!Server.Truthy(start) ==> q.start.None?)
      && (Server.Truthy(end) ==> q.end == end) && (!Server.Truthy(end) ==> q.end.None?)
  {
    var ps := QueryParams(start, end);
    if Server.Truthy(start) {
      Text.ParseIntString(start.value);
      assert ps[0] == ("start", Text.IntString(start.value));
    }
    if Server.Truthy(end) {
      Text.ParseIntString(end.value);
      var i := if Server.Truthy(start) then 1 else 0;
      assert ps[i] == ("end", Text.IntString(end.value));
    }
  }

  // ---------------------------------------------------------------- the store

  /**
   * What the request produced: a request or body that failed, or a reply with its status and
   * its `results` property, None when the body has no results object.
   */
  datatype Response = Failed | Reply(ok: bool, results: Option<Results>)

  class PingStore {
    /** The shared part: request state and the loading indicator. */
    const base: Base.BaseStore
    /** The last bucket map received; None once an ok reply came without one. */
    var results: Option<Results>

    constructor(loadingStore: Loading.LoadingStore)
      ensures fresh(base) && base.state == Base.Idle && base.loadingStore == loadingStore
      ensures results == Some([])
    {
      base := new Base.BaseStore(loadingStore);
      results := Some([]);
    }

    /** Up to the request: the state becomes running and the request URL is built. */
    method BeginFetch(env: Option<string>, start: Option<int>, end: Option<int>) returns (url: string)
      modifies base, base.loadingStore
      ensures base.state == Base.Running && base.loadingStore.loadingFlag
      ensures base.loadingStore.lockFlag == old(base.loadingStore.lockFlag)
      ensures results == old(results)
      ensures url == ResultsUrl(env, start, end)
    {
      base.SetState(Base.Running);
      url := ResultsUrl(env, start, end);
    }

    /** After the request: an ok reply replaces the results; anything else keeps them and is an error. */
    method CompleteFetch(response: Response)
      modifies this, base, base.loadingStore
      ensures response.Reply? && response.ok ==> results == response.results && base.state == Base.Done
      ensures !(response.Reply? && response.ok) ==> results == old(results) && base.state == Base.Error
      ensures !base.loadingStore.loadingFlag
      ensures base.loadingStore.lockFlag == old(base.loadingStore.lockFlag)
    {
      if response.Reply? && response.ok {
        results := response.results;
        base.SetState(Base.Done);
      } else {
        base.SetState(Base.Error);
      }
    }

    /** The whole request, with the network as `respond`. */
    method Fetch(env: Option<string>, start: Option<int>, end: Option<int>, respond: string -> Response)
      modifies this, base, base.loadingStore
      ensures var response := respond(ResultsUrl(env, start, end));
        && (response.Reply? && response.ok ==> results == response.results && base.state == Base.Done)
        && (!(response.Reply? && response.ok) ==> results == old(results) && base.state == Base.Error)
      ensures !base.loadingStore.loadingFlag
      ensures base.loadingStore.lockFlag == old(base.loadingStore.lockFlag)
    {
      var url := BeginFetch(env, start, end);
      CompleteFetch(respond(url));
    }

    /** The latency chart; without a bucket map `Object.keys` throws: None. */
    method LatencyData(format: int -> string) returns (chart: Option<Chart>)
      ensures results.None? ==> chart.None?
      ensures results.Some? ==> chart == ChartSpec(results.value, Latency, format)
    {
      if results.None? {
        return None;
      }
      chart := Pivot(results.value, Latency, format);
    }

    /** The packet loss chart; without a bucket map `Object.keys` throws: None. */
    method PacketLossData(format: int -> string) returns (chart: Option<Chart>)
      ensures results.None? ==> chart.None?
      ensures results.Some? ==> chart == ChartSpec(results.value, PacketLoss, format)
    {
      if results.None? {
        return None;
      }
      chart := Pivot(results.value, PacketLoss, format);
    }
  }
}
