/** Path routes of `MyServer` (lib/mini-server.js): `pathToExpr` turns every
    `/:name` segment of a route string into a named capture of one or more
    non-`/` characters, `usePath` matches the compiled expression, unanchored,
    against the request's pathname and hands the percent-decoded captures to
    the handler as `req.params`, and `get` additionally requires `GET`. */
module Route {
  import opened Base
  import Uri
  import Dispatch

  /** A compiled route: literal text, or a named capture `(?<name>[^/]+)`. */
  datatype Token = Lit(text: string) | Cap(name: string)

  /** `\w` of a regular expression without the `u` flag. */
  predicate IsWordChar(c: char)
  {
    'A' <= c <= 'Z' || 'a' <= c <= 'z' || '0' <= c <= '9' || c == '_'
  }

  /** The length of the run of word characters that `s` starts with. */
  function WordRun(s: string): (n: nat)
    ensures n <= |s|
    ensures forall k :: 0 <= k < n ==> IsWordChar(s[k])
    ensures n < |s| ==> !IsWordChar(s[n])
  {
    if |s| == 0 || !IsWordChar(s[0]) then 0 else 1 + WordRun(s[1..])
  }

  /** Where a `:name` placeholder whose colon is at `k` ends: the colon
      follows a `/`, the name is a non-empty word run, and a `/` or the end
      of the route follows it. */
  function PlaceholderEnd(p: string, k: nat): (r: Option<nat>)
    requires k < |p|
    ensures r.Some? ==> k + 1 < r.value <= |p| && (r.value == |p| || p[r.value] == '/')
    ensures r.Some? ==> p[k] == ':' && k > 0 && p[k - 1] == '/'
    ensures r.Some? ==> forall i :: k < i < r.value ==> IsWordChar(p[i])
  {
    if p[k] != ':' || k == 0 || p[k - 1] != '/' then None
    else
      var n := WordRun(p[k + 1..]);
      if n > 0 && (k + 1 + n == |p| || p[k + 1 + n] == '/') then Some(k + 1 + n) else None
  }

  function LitIf(lit: string): (r: seq<Token>)
  {
    if lit == "" then [] else [Lit(lit)]
  }

  /** The tokens of `p[k..]`, with `lit` the literal text read so far. */
  function Scan(p: string, k: nat, lit: string): seq<Token>
    requires k <= |p|
    decreases |p| - k
  {
    if k == |p| then LitIf(lit)
    else match PlaceholderEnd(p, k)
      case Some(e) => LitIf(lit) + [Cap(p[k + 1..e])] + Scan(p, e, "")
      case None => Scan(p, k + 1, lit + [p[k]])
  }

  /** The replacement `pathToExpr` performs, as tokens. */
  function Tokenize(p: string): seq<Token>
  {
    Scan(p, 0, "")
  }

  /** The route string a token list comes from. */
  function Unparse(ts: seq<Token>): string
  {
    if |ts| == 0 then ""
    else (match ts[0] case Lit(t) => t case Cap(n) => ":" + n) + Unparse(ts[1..])
  }

  /** The source text of the regular expression `pathToExpr` builds. */
  function Source(ts: seq<Token>): string
  {
    if |ts| == 0 then ""
    else (match ts[0] case Lit(t) => t case Cap(n) => "(?<" + n + ">[^/]+)") + Source(ts[1..])
  }

  /** Tokens as `pathToExpr` produces them: literals are non-empty, names are
      non-empty word runs, and a capture is followed by nothing or by a
      literal starting with `/`. */
  predicate WellFormed(ts: seq<Token>)
  {
    |ts| == 0 ||
    ((match ts[0]
     case Lit(t) => t != ""
     case Cap(n) =>
       && n != "" && (forall i :: 0 <= i < |n| ==> IsWordChar(n[i]))
       && (|ts| == 1 || (ts[1].Lit? && ts[1].text != "" && ts[1].text[0] == '/')))
     && WellFormed(ts[1..]))
  }

  lemma {:induction false} UnparseAppend(a: seq<Token>, b: seq<Token>)
    ensures Unparse(a + b) == Unparse(a) + Unparse(b)
  {
    if |a| > 0 {
      assert (a + b)[0] == a[0];
      assert (a + b)[1..] == a[1..] + b;
      UnparseAppend(a[1..], b);
    } else {
      assert a + b == b;
    }
  }

  lemma {:induction false} WellFormedAppend(a: seq<Token>, b: seq<Token>)
    requires WellFormed(a) && WellFormed(b)
    requires |a| > 0 && a[|a| - 1].Cap? && |b| > 0 ==> b[0].Lit? && b[0].text != "" && b[0].text[0] == '/'
    ensures WellFormed(a + b)
  {
    if |a| > 0 {
      assert (a + b)[0] == a[0];
      assert (a + b)[1..] == a[1..] + b;
      if |a| > 1 {
        assert (a + b)[1] == a[1];
        assert a[1..][|a[1..]| - 1] == a[|a| - 1];
      } else if |b| > 0 {
        assert (a + b)[1] == b[0];
      }
      WellFormedAppend(a[1..], b);
    } else {
      assert a + b == b;
    }
  }

  /** Tokenizing reads every character of the route exactly once. */
  lemma {:induction false} ScanUnparse(p: string, k: nat, lit: string)
    requires k <= |p|
    ensures Unparse(Scan(p, k, lit)) == lit + p[k..]
    decreases |p| - k
  {
    if k == |p| {
    } else {
      match PlaceholderEnd(p, k)
      case Some(e) =>
        ScanUnparse(p, e, "");
        PlaceholderStep(p, k, lit, e);
      case None =>
        ScanUnparse(p, k + 1, lit + [p[k]]);
        assert [p[k]] + p[k + 1..] == p[k..];
    }
  }

  lemma PlaceholderStep(p: string, k: nat, lit: string, e: nat)
    requires k < |p| && PlaceholderEnd(p, k) == Some(e)
    requires Unparse(Scan(p, e, "")) == p[e..]
    ensures Unparse(Scan(p, k, lit)) == lit + p[k..]
  {
    var n := p[k + 1..e];
    var rest := Scan(p, e, "");
    assert Scan(p, k, lit) == LitIf(lit) + [Cap(n)] + rest;
    UnparseCapStep(lit, n, rest);
    PlaceholderText(p, k, e);
  }

  lemma UnparseCapStep(lit: string, n: string, rest: seq<Token>)
    ensures Unparse(LitIf(lit) + [Cap(n)] + rest) == lit + (":" + n + Unparse(rest))
  {
    UnparseAppend(LitIf(lit) + [Cap(n)], rest);
    UnparseAppend(LitIf(lit), [Cap(n)]);
    assert Unparse([Cap(n)]) == ":" + n;
  }

  lemma PlaceholderText(p: string, k: nat, e: nat)
    requires k < e <= |p| && p[k] == ':'
    ensures p[k..] == ":" + p[k + 1..e] + p[e..]
  {
    assert p[k..] == [p[k]] + p[k + 1..e] + p[e..];
  }

  /** A well-formed token list that spells a text starting with `/` starts
      with a literal, since a capture spells `:`. */
  lemma FirstIsSlashLit(ts: seq<Token>)
    requires WellFormed(ts) && |Unparse(ts)| > 0 && Unparse(ts)[0] == '/'
    ensures |ts| > 0 && ts[0].Lit? && ts[0].text != "" && ts[0].text[0] == '/'
  {
    if |ts| > 0 && ts[0].Lit? {
      assert Unparse(ts) == ts[0].text + Unparse(ts[1..]);
    }
  }

  lemma {:induction false} ScanWellFormed(p: string, k: nat, lit: string)
    requires k <= |p|
    ensures WellFormed(Scan(p, k, lit))
    decreases |p| - k
  {
    if k < |p| {
      match PlaceholderEnd(p, k)
      case Some(e) =>
        var rest := Scan(p, e, "");
        ScanWellFormed(p, e, "");
        var n := p[k + 1..e];
        assert WellFormed([Cap(n)] + rest) by {
          assert ([Cap(n)] + rest)[1..] == rest;
          if |rest| > 0 {
            ScanUnparse(p, e, "");
            assert p[e..][0] == '/';
            FirstIsSlashLit(rest);
          }
        }
        WellFormedAppend(LitIf(lit), [Cap(n)] + rest);
        assert LitIf(lit) + [Cap(n)] + rest == LitIf(lit) + ([Cap(n)] + rest);
      case None =>
        ScanWellFormed(p, k + 1, lit + [p[k]]);
    }
  }

  /** `pathToExpr` keeps the route verbatim apart from its placeholders, and
      every capture it makes is delimited by `/` or the end. */
  lemma TokenizeFaithful(p: string)
    ensures Unparse(Tokenize(p)) == p
    ensures WellFormed(Tokenize(p))
  {
    ScanUnparse(p, 0, "");
    ScanWellFormed(p, 0, "");
  }

  /** A route without a colon has no placeholder. */
  lemma {:induction false} NoColonNoCapture(p: string, k: nat, lit: string)
    requires k <= |p| && ':' !in p[k..]
    ensures Scan(p, k, lit) == LitIf(lit + p[k..])
    decreases |p| - k
  {
    if k < |p| {
      assert p[k] == p[k..][0];
      assert p[k + 1..] == p[k..][1..];
      assert PlaceholderEnd(p, k).None?;
      NoColonNoCapture(p, k + 1, lit + [p[k]]);
      assert lit + [p[k]] + p[k + 1..] == lit + p[k..];
    } else {
      assert lit + p[k..] == lit;
    }
  }

  // ---------------------------------------------------------------------
  // new RegExp(expr)

  /** The names of the captures, in order. */
  function Names(ts: seq<Token>): (r: seq<string>)
    ensures |r| == CapCount(ts)
  {
    if |ts| == 0 then [] else (if ts[0].Cap? then [ts[0].name] else []) + Names(ts[1..])
  }

  /** The first group-name error the regular-expression parser meets, with
      `seen` the names of earlier groups: a name may not start with a digit
      and may not repeat. */
  function NameError(names: seq<string>, seen: set<string>): (r: Option<Error>)
    ensures r.None? <==>
      && (forall i :: 0 <= i < |names| ==> names[i] !in seen && !StartsWithDigit(names[i]))
      && (forall i, j :: 0 <= i < j < |names| ==> names[i] != names[j])
    ensures r.Some? ==> r.value.kind == SyntaxError
  {
    if |names| == 0 then None
    else if StartsWithDigit(names[0]) then Some(Error(SyntaxError, "Invalid capture group name"))
    else if names[0] in seen then Some(Error(SyntaxError, "Duplicate capture group name"))
    else
      var r := NameError(names[1..], seen + {names[0]});
      assert forall i :: 0 < i < |names| ==> names[i] == names[1..][i - 1];
      r
  }

  predicate StartsWithDigit(n: string)
  {
    |n| > 0 && '0' <= n[0] <= '9'
  }

  /** `new RegExp(pathToExpr(p))`: the compiled route, or the `SyntaxError`
      thrown when a capture name is not a valid group name or repeats. */
  function Compile(p: string): (r: Result<seq<Token>>)
    ensures r.Success? ==> r.value == Tokenize(p)
    ensures r.Success? <==>
      (forall i :: 0 <= i < |Names(Tokenize(p))| ==> !StartsWithDigit(Names(Tokenize(p))[i]))
      && (forall i, j :: 0 <= i < j < |Names(Tokenize(p))| ==> Names(Tokenize(p))[i] != Names(Tokenize(p))[j])
    ensures r.Failure? ==> r.error.kind == SyntaxError
  {
    var ts := Tokenize(p);
    match NameError(Names(ts), {})
    case Some(e) => Failure(e)
    case None => Success(ts)
  }

  // ---------------------------------------------------------------------
  // pathname.match(route)

  /** Characters with a meaning of their own in a regular expression; the
      model covers routes that spell none of them. */
  predicate Plain(p: string)
  {
    forall k :: 0 <= k < |p| ==> p[k] !in "\\^$.|?*+()[]{}"
  }

  function CapCount(ts: seq<Token>): nat
  {
    if |ts| == 0 then 0 else (if ts[0].Cap? then 1 else 0) + CapCount(ts[1..])
  }

  /** The length of the run of non-`/` characters `s` starts with. */
  function SegmentRun(s: string): (n: nat)
    ensures n <= |s|
    ensures forall k :: 0 <= k < n ==> s[k] != '/'
    ensures n < |s| ==> s[n] == '/'
  {
    if |s| == 0 || s[0] == '/' then 0 else 1 + SegmentRun(s[1..])
  }

  /** The match of the route at the start of `s`, as the captured texts in
      order.  A capture takes the whole run of non-`/` characters: with a
      well-formed route it must end at a `/` or, as the last token, it is
      greedy. */
  function MatchAt(s: string, ts: seq<Token>): (r: Option<seq<string>>)
    ensures r.Some? ==> |r.value| == CapCount(ts)
    decreases |ts|
  {
    if |ts| == 0 then Some([])
    else match ts[0]
      case Lit(t) => if StartsWith(s, t) then MatchAt(s[|t|..], ts[1..]) else None
      case Cap(_) =>
        var n := SegmentRun(s);
        if n == 0 then None
        else match MatchAt(s[n..], ts[1..])
          case None => None
          case Some(vs) => Some([s[..n]] + vs)
  }

  /** The text a route spells with the given captured texts. */
  function Render(ts: seq<Token>, vs: seq<string>): string
    requires |vs| == CapCount(ts)
  {
    if |ts| == 0 then ""
    else match ts[0]
      case Lit(t) => t + Render(ts[1..], vs)
      case Cap(_) => vs[0] + Render(ts[1..], vs[1..])
  }

  /** Texts a `[^/]+` group can capture. */
  predicate Segments(vs: seq<string>)
  {
    forall i :: 0 <= i < |vs| ==> vs[i] != "" && '/' !in vs[i]
  }

  /** The regular expression matches `s` at its start with these captures. */
  predicate Accepts(s: string, ts: seq<Token>, vs: seq<string>)
  {
    |vs| == CapCount(ts) && Segments(vs) && StartsWith(s, Render(ts, vs))
  }

  /** A last capture cannot be extended: the match ends at a `/` or at the end. */
  predicate Greedy(s: string, ts: seq<Token>, vs: seq<string>)
    requires |vs| == CapCount(ts)
  {
    |ts| > 0 && ts[|ts| - 1].Cap? && |Render(ts, vs)| < |s| ==> s[|Render(ts, vs)|] == '/'
  }

  lemma SegmentsCons(v: string, vs: seq<string>)
    ensures Segments([v] + vs) <==> v != "" && '/' !in v && Segments(vs)
  {
    var u := [v] + vs;
    assert u[0] == v;
    assert forall i :: 0 <= i < |vs| ==> u[i + 1] == vs[i];
  }

  lemma SegmentRunOf(s: string, v: string)
    requires v != "" && '/' !in v && StartsWith(s, v) && (|v| == |s| || s[|v|] == '/')
    ensures SegmentRun(s) == |v|
  {
    assert forall k :: 0 <= k < |v| ==> s[k] == v[k] && s[k] != '/';
  }

  /** What `MatchAt` returns is a match of the expression, with a greedy last capture. */
  lemma {:induction false} MatchSound(s: string, ts: seq<Token>)
    requires MatchAt(s, ts).Some?
    ensures Accepts(s, ts, MatchAt(s, ts).value)
    ensures Greedy(s, ts, MatchAt(s, ts).value)
    decreases |ts|
  {
    if |ts| > 0 {
      match ts[0]
      case Lit(t) =>
        MatchSound(s[|t|..], ts[1..]);
        assert s == t + s[|t|..];
      case Cap(_) =>
        var n := SegmentRun(s);
        MatchSound(s[n..], ts[1..]);
        CapSound(s, ts, n, MatchAt(s[n..], ts[1..]).value);
    }
  }

  lemma CapSound(s: string, ts: seq<Token>, n: nat, vs: seq<string>)
    requires |ts| > 0 && ts[0].Cap? && 0 < n <= |s| && n == SegmentRun(s)
    requires MatchAt(s[n..], ts[1..]) == Some(vs)
    requires Accepts(s[n..], ts[1..], vs) && Greedy(s[n..], ts[1..], vs)
    ensures MatchAt(s, ts) == Some([s[..n]] + vs)
    ensures Accepts(s, ts, [s[..n]] + vs) && Greedy(s, ts, [s[..n]] + vs)
  {
    var v := s[..n];
    assert '/' !in v by {
      assert forall k :: 0 <= k < n ==> v[k] == s[k];
    }
    CapAccepts(s, ts, n, vs);
  }

  lemma CapAccepts(s: string, ts: seq<Token>, n: nat, vs: seq<string>)
    requires |ts| > 0 && ts[0].Cap? && 0 < n <= |s| && '/' !in s[..n] && (n < |s| ==> s[n] == '/')
    requires Accepts(s[n..], ts[1..], vs) && Greedy(s[n..], ts[1..], vs)
    ensures Accepts(s, ts, [s[..n]] + vs) && Greedy(s, ts, [s[..n]] + vs)
  {
    var v := s[..n];
    var r := Render(ts[1..], vs);
    SegmentsCons(v, vs);
    RenderCap(ts, v, vs);
    StartsWithPrepend(s, n, r);
    if |ts| > 1 {
      assert ts[1..][|ts[1..]| - 1] == ts[|ts| - 1];
      if n + |r| < |s| {
        assert s[n + |r|] == s[n..][|r|];
      }
    }
  }

  lemma RenderCap(ts: seq<Token>, v: string, vs: seq<string>)
    requires |ts| > 0 && ts[0].Cap? && |vs| == CapCount(ts[1..])
    ensures Render(ts, [v] + vs) == v + Render(ts[1..], vs)
  {
    assert ([v] + vs)[1..] == vs;
  }

  /** Every match of a well-formed route at the start of `s` is the one
      `MatchAt` finds, once its last capture is greedy. */
  lemma {:induction false} MatchUnique(s: string, ts: seq<Token>, vs: seq<string>)
    requires WellFormed(ts) && Accepts(s, ts, vs) && Greedy(s, ts, vs)
    ensures MatchAt(s, ts) == Some(vs)
    decreases |ts|
  {
    if |ts| > 0 {
      match ts[0]
      case Lit(t) =>
        StartsWithConcat(s, t, Render(ts[1..], vs));
        if |ts| > 1 {
          assert ts[1..][|ts[1..]| - 1] == ts[|ts| - 1];
        }
        MatchUnique(s[|t|..], ts[1..], vs);
      case Cap(_) =>
        var v := vs[0];
        var rest := Render(ts[1..], vs[1..]);
        assert vs == [v] + vs[1..];
        SegmentsCons(v, vs[1..]);
        assert Render(ts, vs) == v + rest;
        StartsWithConcat(s, v, rest);
        if |ts| > 1 {
          assert rest[0] == '/';
          assert s[|v|] == s[|v|..][0] == '/';
        }
        SegmentRunOf(s, v);
        if |ts| > 1 {
          assert ts[1..][|ts[1..]| - 1] == ts[|ts| - 1];
          MatchUnique(s[|v|..], ts[1..], vs[1..]);
        }
    }
  }

  /** Whenever the expression matches at the start of `s` at all, `MatchAt` succeeds. */
  lemma {:induction false} MatchComplete(s: string, ts: seq<Token>, vs: seq<string>)
    requires WellFormed(ts) && Accepts(s, ts, vs)
    ensures MatchAt(s, ts).Some?
    decreases |ts|
  {
    if |ts| > 0 {
      match ts[0]
      case Lit(t) =>
        StartsWithConcat(s, t, Render(ts[1..], vs));
        MatchComplete(s[|t|..], ts[1..], vs);
      case Cap(_) =>
        var v := vs[0];
        var rest := Render(ts[1..], vs[1..]);
        assert vs == [v] + vs[1..];
        SegmentsCons(v, vs[1..]);
        assert Render(ts, vs) == v + rest;
        StartsWithConcat(s, v, rest);
        if |ts| > 1 {
          assert rest[0] == '/';
          assert s[|v|] == s[|v|..][0] == '/';
          SegmentRunOf(s, v);
          MatchComplete(s[|v|..], ts[1..], vs[1..]);
        } else {
          assert s[0] == v[0] != '/';
        }
    }
  }

  /** `String.prototype.match` without the `g` flag: the match at the
      leftmost position `k` or later where the route matches. */
  function Search(s: string, ts: seq<Token>, k: nat): (r: Option<(nat, seq<string>)>)
    requires k <= |s|
    ensures r.Some? ==> k <= r.value.0 <= |s| && |r.value.1| == CapCount(ts)
    decreases |s| - k
  {
    match MatchAt(s[k..], ts)
    case Some(vs) => Some((k, vs))
    case None => if k == |s| then None else Search(s, ts, k + 1)
  }

  /** `Search` finds a match exactly when one exists, and then the leftmost one. */
  lemma {:induction false} SearchLeftmost(s: string, ts: seq<Token>, k: nat)
    requires k <= |s|
    ensures var r := Search(s, ts, k);
      r.Some? ==> MatchAt(s[r.value.0..], ts) == Some(r.value.1)
    ensures var r := Search(s, ts, k);
      r.Some? ==> forall i :: k <= i < r.value.0 ==> MatchAt(s[i..], ts).None?
    ensures Search(s, ts, k).None? ==> forall i :: k <= i <= |s| ==> MatchAt(s[i..], ts).None?
    decreases |s| - k
  {
    if MatchAt(s[k..], ts).None? && k < |s| {
      SearchLeftmost(s, ts, k + 1);
    }
  }

  lemma SearchAt(s: string, ts: seq<Token>, i: nat, vs: seq<string>)
    requires i <= |s| && MatchAt(s[i..], ts) == Some(vs)
    requires forall k :: 0 <= k < i ==> MatchAt(s[k..], ts).None?
    ensures Search(s, ts, 0) == Some((i, vs))
  {
    SearchLeftmost(s, ts, 0);
  }

  /** The route matches the pathname exactly when the expression accepts
      some suffix of it. */
  lemma SearchFinds(s: string, ts: seq<Token>, i: nat, vs: seq<string>)
    requires WellFormed(ts) && i <= |s| && Accepts(s[i..], ts, vs)
    ensures Search(s, ts, 0).Some? && Search(s, ts, 0).value.0 <= i
  {
    MatchComplete(s[i..], ts, vs);
    SearchLeftmost(s, ts, 0);
  }

  // ---------------------------------------------------------------------
  // usePath / get

  /** Percent-decodes the captures into `req.params`, in group order; the
      first malformed capture throws `URIError`. */
  function DecodeParams(names: seq<string>, vs: seq<string>): (r: Result<map<string, string>>)
    requires |names| == |vs|
    ensures r.Success? <==> forall i :: 0 <= i < |vs| ==> Uri.DecodeURIComponent(vs[i]).Success?
    ensures r.Success? ==> r.value.Keys == set i | 0 <= i < |names| :: names[i]
    ensures r.Failure? ==> r.error == Uri.Malformed
  {
    if |vs| == 0 then Success(map[])
    else
      match Uri.DecodeURIComponent(vs[0])
      case Failure(e) => Failure(e)
      case Success(d) =>
        match DecodeParams(names[1..], vs[1..])
        case Failure(e) => Failure(e)
        case Success(m) =>
          assert forall i :: 0 < i < |vs| ==> vs[i] == vs[1..][i - 1];
          assert (set i | 0 <= i < |names| :: names[i]) == {names[0]} + set i | 0 <= i < |names[1..]| :: names[1..][i];
          Success(m[names[0] := d])
  }

  lemma {:induction false} DecodeParamsValues(names: seq<string>, vs: seq<string>, i: nat)
    requires |names| == |vs| && i < |vs|
    requires forall a, b :: 0 <= a < b < |names| ==> names[a] != names[b]
    requires DecodeParams(names, vs).Success?
    ensures Uri.DecodeURIComponent(vs[i]) == Success(DecodeParams(names, vs).value[names[i]])
  {
    if i > 0 {
      DecodeParamsValues(names[1..], vs[1..], i - 1);
    }
  }

  /** What the `usePath` wrapper does for one request: the `req.params` it
      assigns, if any, and the action it takes, where `handler` is the
      action of the wrapped handler. */
  datatype Step = Step(params: Option<map<string, string>>, action: Dispatch.Action)

  /** The wrapper `usePath(route, handler)` registers, for one request
      (the route must have compiled when it was registered). */
  function PathStep(route: string, pathname: string, handler: Dispatch.Action): (r: Step)
    requires Compile(route).Success? && Plain(route)
    ensures r.params.Some? ==> r.action == handler
    ensures r.params.None? ==> r.action == Dispatch.Next(Dispatch.Undefined) || r.action.Throw?
  {
    var ts := Tokenize(route);
    match Search(pathname, ts, 0)
    case None => Step(None, Dispatch.Next(Dispatch.Undefined))
    case Some((_, vs)) =>
      match DecodeParams(Names(ts), vs)
      case Failure(e) => Step(None, Dispatch.Throw(Dispatch.Other("URIError: " + e.message)))
      case Success(m) => Step(Some(m), handler)
  }

  /** `get`: `usePath` with a handler that passes requests of any other method. */
  function GetStep(route: string, pathname: string, verb: string, handler: Dispatch.Action): Step
    requires Compile(route).Success? && Plain(route)
  {
    PathStep(route, pathname, if verb == "GET" then handler else Dispatch.Next(Dispatch.Undefined))
  }

  /** A route matching nowhere in the pathname passes the request on untouched. */
  lemma NoMatchPasses(route: string, pathname: string, handler: Dispatch.Action)
    requires Compile(route).Success? && Plain(route)
    requires forall i :: 0 <= i <= |pathname| ==> MatchAt(pathname[i..], Tokenize(route)).None?
    ensures PathStep(route, pathname, handler) == Step(None, Dispatch.Next(Dispatch.Undefined))
  {
    SearchLeftmost(pathname, Tokenize(route), 0);
  }

  /** When the route matches, the handler runs with each capture of the
      leftmost match percent-decoded under its name. */
  lemma MatchRunsHandler(route: string, pathname: string, handler: Dispatch.Action, i: nat, vs: seq<string>)
    requires Compile(route).Success? && Plain(route) && i <= |pathname|
    requires Accepts(pathname[i..], Tokenize(route), vs) && Greedy(pathname[i..], Tokenize(route), vs)
    requires forall k :: 0 <= k < i ==> MatchAt(pathname[k..], Tokenize(route)).None?
    requires forall k :: 0 <= k < |vs| ==> Uri.DecodeURIComponent(vs[k]).Success?
    ensures var r := PathStep(route, pathname, handler);
      r.action == handler && r.params.Some?
      && forall k :: 0 <= k < |vs| ==> Uri.DecodeURIComponent(vs[k]) == Success(r.params.value[Names(Tokenize(route))[k]])
  {
    var ts := Tokenize(route);
    TokenizeFaithful(route);
    MatchUnique(pathname[i..], ts, vs);
    SearchAt(pathname, ts, i, vs);
    var m := DecodeParams(Names(ts), vs).value;
    forall k | 0 <= k < |vs|
      ensures Uri.DecodeURIComponent(vs[k]) == Success(m[Names(ts)[k]])
    {
      DecodeParamsValues(Names(ts), vs, k);
    }
  }

  /** A malformed escape in a capture throws `URIError` from the wrapper,
      before the handler runs and before `req.params` changes. */
  lemma MalformedParamThrows(route: string, pathname: string, handler: Dispatch.Action)
    requires Compile(route).Success? && Plain(route)
    requires Search(pathname, Tokenize(route), 0).Some?
    requires var vs := Search(pathname, Tokenize(route), 0).value.1;
      exists k :: 0 <= k < |vs| && Uri.DecodeURIComponent(vs[k]).Failure?
    ensures PathStep(route, pathname, handler)
         == Step(None, Dispatch.Throw(Dispatch.Other("URIError: URI malformed")))
  {
    var ts := Tokenize(route);
    var vs := Search(pathname, ts, 0).value.1;
    SearchLeftmost(pathname, ts, 0);
    assert DecodeParams(Names(ts), vs).Failure?;
    assert "URIError: " + Uri.Malformed.message == "URIError: URI malformed";
  }

  /** `get` runs the handler only for `GET`; for other methods it assigns the
      same params and passes the request on. */
  lemma GetOnlyGet(route: string, pathname: string, verb: string, handler: Dispatch.Action)
    requires Compile(route).Success? && Plain(route) && verb != "GET"
    ensures GetStep(route, pathname, verb, handler).action.Next? || GetStep(route, pathname, verb, handler).action.Throw?
    ensures GetStep(route, pathname, verb, handler).params == PathStep(route, pathname, handler).params
  {
  }

  /** A capture of an encoded value is handed to the handler decoded. */
  lemma EncodedParam(names: seq<string>, raws: seq<string>, i: nat)
    requires |names| == |raws| && i < |raws|
    requires forall a, b :: 0 <= a < b < |names| ==> names[a] != names[b]
    ensures var vs := seq(|raws|, k requires 0 <= k < |raws| => Uri.EncodeURIComponent(raws[k]));
      DecodeParams(names, vs).Success? && DecodeParams(names, vs).value[names[i]] == raws[i]
  {
    var vs := seq(|raws|, k requires 0 <= k < |raws| => Uri.EncodeURIComponent(raws[k]));
    forall k | 0 <= k < |vs|
      ensures Uri.DecodeURIComponent(vs[k]) == Success(raws[k])
    {
      Uri.DecodeEncodeURIComponent(raws[k]);
    }
    DecodeParamsValues(names, vs, i);
  }
}
