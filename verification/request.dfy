/** The request side of the server (`RequestProto` in lib/mini-server.js):
    the lazily cached split of `req.url` into a normalised pathname and the
    search string, and the `query` getter. */
module Request {
  import opened Base
  import PosixPath

  /** A `URLSearchParams` object, known only by the string it was built from. */
  datatype SearchParams = SearchParams(source: string)

  /** `req.parsedReq`. */
  datatype Parsed = Parsed(pathname: string, search: string, query: Option<SearchParams>)

  /** The parts of a request the prototype reads and writes: `req.url`
      (`None` when it is undefined), the cache `parsedReq` and `params`. */
  datatype Req = Req(url: Option<string>, parsed: Option<Parsed>, params: map<string, string>)

  /** `String(req.url)`. */
  function UrlText(url: Option<string>): string
  {
    match url
    case None => "undefined"
    case Some(u) => u
  }

  /** The position of the first `?`. */
  function IndexOf(s: string, c: char): (r: Option<nat>)
    ensures r.Some? ==> r.value < |s| && s[r.value] == c && c !in s[..r.value]
    ensures r.None? ==> c !in s
  {
    if |s| == 0 then None
    else if s[0] == c then Some(0)
    else
      match IndexOf(s[1..], c)
      case None => None
      case Some(i) =>
        assert s[..i + 1] == [s[0]] + s[1..][..i];
        Some(i + 1)
  }

  /** The split `parseRequest` makes: the pathname is the part before the
      first `?`, joined under the root; the search is the rest, starting
      with the `?`. */
  function ParseUrl(u: string): (r: Parsed)
    ensures r.query.None?
    ensures r.search == "" <==> '?' !in u
    ensures r.search != "" ==> r.search[0] == '?'
    ensures |r.search| <= |u| && r.search == u[|u| - |r.search|..]
    ensures '?' !in u[..|u| - |r.search|]
    ensures r.pathname == PosixPath.JoinRoot(u[..|u| - |r.search|])
  {
    match IndexOf(u, '?')
    case None =>
      assert u[..|u| - 0] == u;
      Parsed(PosixPath.JoinRoot(u), "", None)
    case Some(pos) =>
      assert |u| - |u[pos..]| == pos;
      Parsed(PosixPath.JoinRoot(u[..pos]), u[pos..], None)
  }

  /** `parseRequest()`: does nothing once the cache is filled; otherwise
      fills it from the url and resets `params`. */
  function ParseRequest(req: Req): (r: Req)
    ensures r.url == req.url && r.parsed.Some?
    ensures req.parsed.Some? ==> r == req
    ensures req.parsed.None? ==> r.parsed == Some(ParseUrl(UrlText(req.url))) && r.params == map[]
  {
    if req.parsed.Some? then req
    else req.(parsed := Some(ParseUrl(UrlText(req.url))), params := map[])
  }

  /** The `pathname` getter.  On a request not parsed yet it is the part of
      the url before the first `?`, normalised under the root; once parsed
      it is the cached value, whatever the url has become since.  A freshly
      parsed pathname is normal: joining it again changes nothing. */
  function Pathname(req: Req): (r: (Req, string))
    ensures r.0 == ParseRequest(req)
    ensures req.parsed.Some? ==> r.1 == req.parsed.value.pathname
    ensures req.parsed.None? ==> var u := UrlText(req.url);
      (exists k :: 0 <= k <= |u| && '?' !in u[..k] && (k == |u| || u[k] == '?')
                   && r.1 == PosixPath.JoinRoot(u[..k]))
    ensures req.parsed.None? ==> PosixPath.JoinRoot(r.1) == r.1
  {
    var q := ParseRequest(req);
    if req.parsed.Some? then (q, q.parsed.value.pathname)
    else
      var u := UrlText(req.url);
      var search := q.parsed.value.search;
      var k := |u| - |search|;
      assert k == |u| || u[k] == '?' by {
        if k < |u| {
          assert search[0] == u[k];
        }
      }
      PosixPath.JoinRootIdempotent(u[..k]);
      (q, q.parsed.value.pathname)
  }

  /** The `search` getter.  On a request not parsed yet it is empty exactly
      when the url has no `?`, and otherwise the url from its first `?` on,
      so that the url is the part before the `?` followed by the search. */
  function Search(req: Req): (r: (Req, string))
    ensures r.0 == ParseRequest(req)
    ensures req.parsed.Some? ==> r.1 == req.parsed.value.search
    ensures req.parsed.None? ==> var u := UrlText(req.url);
      (r.1 == "" <==> '?' !in u)
      && (r.1 != "" ==> r.1[0] == '?')
      && |r.1| <= |u| && u == u[..|u| - |r.1|] + r.1
      && '?' !in u[..|u| - |r.1|]
  {
    var q := ParseRequest(req);
    var search := q.parsed.value.search;
    if req.parsed.Some? then (q, search)
    else
      var u := UrlText(req.url);
      var parsed := ParseUrl(u);
      assert search == parsed.search == u[|u| - |search|..];
      assert u == u[..|u| - |search|] + u[|u| - |search|..];
      (q, search)
  }

  /** `resetParse()`: drops the cache, so the next read parses again. */
  function ResetParse(req: Req): (r: Req)
    ensures r.parsed.None? && r.url == req.url && r.params == req.params
  {
    req.(parsed := None)
  }

  /** The `query` getter as written: it builds the `URLSearchParams` only
      when one is already there, and returns what the cache holds
      (`undefined` when there is no cache). */
  function QueryAsWritten(req: Req): (r: (Req, Option<SearchParams>))
    ensures req.parsed.None? ==> r == (req, None)
    ensures (req.parsed.Some? && req.parsed.value.query.None?) ==> r == (req, None)
  {
    if req.parsed.Some? && req.parsed.value.query.Some? then
      var (q, search) := Search(req);
      var q2 := q.(parsed := Some(q.parsed.value.(query := Some(SearchParams(search)))));
      (q2, q2.parsed.value.query)
    else (req, if req.parsed.Some? then req.parsed.value.query else None)
  }

  /** The getter as evidently intended: build the parameters from the
      search string when none are cached yet. */
  function Query(req: Req): (r: (Req, SearchParams))
    ensures r.0.url == req.url && r.0.parsed.Some?
    ensures r.0.parsed.value.query == Some(r.1)
    ensures r.0.parsed.value.pathname == ParseRequest(req).parsed.value.pathname
    ensures r.0.parsed.value.search == ParseRequest(req).parsed.value.search
  {
    var q := ParseRequest(req);
    match q.parsed.value.query
    case Some(sp) => (q, sp)
    case None =>
      var sp := SearchParams(q.parsed.value.search);
      (q.(parsed := Some(q.parsed.value.(query := Some(sp)))), sp)
  }

  // ---------------------------------------------------------------------
  // Properties

  /** The cache is filled once: parsing again changes nothing, so the
      `params` a route stored survive later reads of `pathname`. */
  lemma ParseRequestIdempotent(req: Req)
    ensures ParseRequest(ParseRequest(req)) == ParseRequest(req)
    ensures Pathname(Pathname(req).0) == Pathname(req)
  {
  }

  /** A route's parameters stored after the first parse stay in place. */
  lemma ParamsSurvive(req: Req, params: map<string, string>)
    ensures ParseRequest(ParseRequest(req).(params := params)).params == params
  {
  }

  /** A new url is seen only after `resetParse`. */
  lemma ResetReparses(req: Req, url: Option<string>)
    requires req.parsed.Some?
    ensures ParseRequest(req.(url := url)).parsed == req.parsed
    ensures ParseRequest(ResetParse(req.(url := url))).parsed == Some(ParseUrl(UrlText(url)))
  {
  }

  /** The pathname is absolute and normalised, and neither it nor its
      search string can be split again: parsing what they spell gives the
      same parts. */
  lemma ParseUrlStable(u: string)
    ensures PosixPath.Normal(ParseUrl(u).pathname)
    ensures ParseUrl(ParseUrl(u).pathname + ParseUrl(u).search) == ParseUrl(u)
  {
    var r := ParseUrl(u);
    var prefix := u[..|u| - |r.search|];
    PosixPath.JoinRootNormal(prefix);
    PosixPath.JoinRootAvoids(prefix, '?');
    PosixPath.JoinRootIdempotent(prefix);
    ParseUrlOf(r.pathname, r.search);
  }

  /** A url whose first `?` opens `b` splits into `a` and `b`. */
  lemma ParseUrlOf(a: string, b: string)
    requires '?' !in a && (b == "" || b[0] == '?')
    ensures ParseUrl(a + b) == Parsed(PosixPath.JoinRoot(a), b, None)
  {
    var v := a + b;
    if b == "" {
      assert v == a;
      assert v[..|v| - 0] == a;
    } else {
      assert v[|a|] == '?';
      assert v[..|a|] == a;
      IndexOfIs(v, '?', |a|);
      assert v[|a|..] == b;
    }
  }

  /** A `c` with none before it is the first one. */
  lemma {:induction false} IndexOfIs(s: string, c: char, i: nat)
    requires i < |s| && s[i] == c && c !in s[..i]
    ensures IndexOf(s, c) == Some(i)
    decreases i
  {
    if i > 0 {
      assert s[0] == s[..i][0];
      assert s[1..][..i - 1] == s[1..i];
      IndexOfIs(s[1..], c, i - 1);
    }
  }

  /** The `query` getter as written never yields parameters: no operation
      stores a query in a cache that had none, so every request reached from
      a fresh one reads `undefined`. */
  lemma QueryNeverBuilt(req: Req)
    requires req.parsed.None? || req.parsed.value.query.None?
    ensures QueryAsWritten(req).1.None?
    ensures var r := ParseRequest(req); r.parsed.value.query.None? && QueryAsWritten(r).1.None?
    ensures ResetParse(req).parsed.None? && QueryAsWritten(ResetParse(req)).1.None?
  {
  }

  /** The intended getter reads the parameters of the search string. */
  lemma QueryOfSearch(req: Req)
    requires req.parsed.None? || req.parsed.value.query.None?
    ensures Query(req).1 == SearchParams(Search(req).1)
  {
  }
}
