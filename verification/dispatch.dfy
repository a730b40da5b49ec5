/** The request pipeline of `MyServer` (lib/mini-server.js): handlers added
    with `use` and error handlers added with `catch` live in two
    insertion-ordered Sets, and every request is driven by the `next`
    closure, which keeps one independent cursor into each of them. */
module Dispatch {

  /** An argument of `next` or a thrown value.  The dispatcher only asks
      whether it is `undefined`; `null` and every other value are errors. */
  datatype Value = Undefined | Null | Other(description: string)

  /** What a handler does when it is invoked, as a script. */
  datatype Action =
    | Respond           // ends the response and does not call `next`
    | Next(arg: Value)  // calls `next(arg)`; `Next(Undefined)` is `next()`
    | Throw(e: Value)   // throws synchronously
    | Stop              // returns without responding and without calling `next`

  /** A handler function; two handlers are the same function when they are equal. */
  datatype Handler = Handler(name: string, action: Action)

  /** The two handler Sets of a server, in insertion order. */
  datatype Server = Server(handlers: seq<Handler>, errHandlers: seq<Handler>)

  /** One handler invocation: a normal handler by its position in `handlers`,
      or an error handler by its position in `errHandlers` and the error it got. */
  datatype Call = Normal(index: nat) | OnError(index: nat, err: Value)

  /** How a request's dispatch ends: a handler responded, a handler returned
      without responding or calling `next`, or `next` found its cursor
      exhausted and returned without writing anything. */
  datatype End = Responded | Returned | Exhausted

  predicate Distinct<T(==)>(s: seq<T>)
  {
    forall a, b :: 0 <= a < b < |s| ==> s[a] != s[b]
  }

  /** `Set.prototype.add`: an element already present keeps its place. */
  function SetAdd(s: seq<Handler>, x: Handler): (r: seq<Handler>)
    ensures x in r && forall y :: y in r <==> y in s || y == x
    ensures Distinct(s) ==> Distinct(r)
    ensures |r| == if x in s then |s| else |s| + 1
    ensures r[..|s|] == s
  {
    if x in s then s else s + [x]
  }

  /** `use(handler)`. */
  function Use(s: Server, h: Handler): Server
  {
    s.(handlers := SetAdd(s.handlers, h))
  }

  /** `catch(handler)`. */
  function Catch(s: Server, h: Handler): Server
  {
    s.(errHandlers := SetAdd(s.errHandlers, h))
  }

  /** A server with no handlers, as the constructor creates it. */
  const NewServer: Server := Server([], [])

  /** The server after registering handlers in order with `use`. */
  function UseAll(s: Server, hs: seq<Handler>): Server
    decreases |hs|
  {
    if |hs| == 0 then s else UseAll(Use(s, hs[0]), hs[1..])
  }

  /** Positions of the calls a trace makes into each Set, ascending and in range. */
  predicate WellOrdered(t: seq<Call>, i: nat, j: nat, nNormal: nat, nError: nat)
  {
    && (forall k :: 0 <= k < |t| && t[k].Normal? ==> i <= t[k].index < nNormal)
    && (forall k :: 0 <= k < |t| && t[k].OnError? ==> j <= t[k].index < nError)
    && (forall a, b :: 0 <= a < b < |t| && t[a].Normal? && t[b].Normal? ==> t[a].index < t[b].index)
    && (forall a, b :: 0 <= a < b < |t| && t[a].OnError? && t[b].OnError? ==> t[a].index < t[b].index)
  }

  /** The action of the handler a call invoked. */
  function ActionOf(hs: seq<Handler>, es: seq<Handler>, c: Call): Action
  {
    match c
    case Normal(k) => if k < |hs| then hs[k].action else Stop
    case OnError(k, _) => if k < |es| then es[k].action else Stop
  }

  /** `next(arg)` with the normal cursor at `i` and the error cursor at `j`:
      the calls made from here on and how the request ends.  A thrown value
      is passed to `next` exactly as an explicit `next(value)` would be. */
  function Run(hs: seq<Handler>, es: seq<Handler>, i: nat, j: nat, arg: Value): (r: (seq<Call>, End))
    requires i <= |hs| && j <= |es|
    ensures |r.0| <= (|hs| - i) + (|es| - j)
    decreases (|hs| - i) + (|es| - j), 0
  {
    if arg != Undefined then
      if j == |es| then ([], Exhausted)
      else
        var (t, e) := Resume(hs, es, i, j + 1, es[j].action);
        ([OnError(j, arg)] + t, e)
    else if i == |hs| then ([], Exhausted)
    else
      var (t, e) := Resume(hs, es, i + 1, j, hs[i].action);
      ([Normal(i)] + t, e)
  }

  /** What follows a handler's action, with the cursors already advanced past it. */
  function Resume(hs: seq<Handler>, es: seq<Handler>, i: nat, j: nat, a: Action): (r: (seq<Call>, End))
    requires i <= |hs| && j <= |es|
    ensures |r.0| <= (|hs| - i) + (|es| - j)
    decreases (|hs| - i) + (|es| - j), 1
  {
    match a
    case Respond => ([], Responded)
    case Stop => ([], Returned)
    case Next(v) => Run(hs, es, i, j, v)
    case Throw(v) => Run(hs, es, i, j, v)
  }

  /** How a trace ends: with a response exactly when its last handler
      responded, silently returned exactly when its last handler stopped. */
  predicate EndsAsLast(hs: seq<Handler>, es: seq<Handler>, t: seq<Call>, e: End)
  {
    && (e == Responded <==> |t| > 0 && ActionOf(hs, es, t[|t| - 1]) == Respond)
    && (e == Returned <==> |t| > 0 && ActionOf(hs, es, t[|t| - 1]) == Stop)
  }

  /** Each handler runs at most once, in registration order per Set, and the
      request ends with a response only if the last handler invoked wrote it. */
  lemma {:induction false} RunShape(hs: seq<Handler>, es: seq<Handler>, i: nat, j: nat, arg: Value)
    requires i <= |hs| && j <= |es|
    ensures WellOrdered(Run(hs, es, i, j, arg).0, i, j, |hs|, |es|)
    ensures EndsAsLast(hs, es, Run(hs, es, i, j, arg).0, Run(hs, es, i, j, arg).1)
    decreases (|hs| - i) + (|es| - j)
  {
    if arg != Undefined && j < |es| {
      var a := es[j].action;
      var r := Resume(hs, es, i, j + 1, a);
      if a.Next? || a.Throw? {
        RunShape(hs, es, i, j + 1, if a.Next? then a.arg else a.e);
      }
      Prepend(OnError(j, arg), r.0, i, j, |hs|, |es|);
      LastOfPrepend(hs, es, OnError(j, arg), r.0, r.1, a);
    } else if arg == Undefined && i < |hs| {
      var a := hs[i].action;
      var r := Resume(hs, es, i + 1, j, a);
      if a.Next? || a.Throw? {
        RunShape(hs, es, i + 1, j, if a.Next? then a.arg else a.e);
      }
      Prepend(Normal(i), r.0, i, j, |hs|, |es|);
      LastOfPrepend(hs, es, Normal(i), r.0, r.1, a);
    }
  }

  lemma LastOfPrepend(hs: seq<Handler>, es: seq<Handler>, c: Call, t: seq<Call>, e: End, a: Action)
    requires ActionOf(hs, es, c) == a
    requires |t| == 0 ==> (e == Responded <==> a == Respond) && (e == Returned <==> a == Stop)
    requires |t| > 0 ==> EndsAsLast(hs, es, t, e)
    ensures EndsAsLast(hs, es, [c] + t, e)
  {
    if |t| > 0 {
      assert ([c] + t)[|t|] == t[|t| - 1];
    }
  }

  /** A call made before a well-ordered trace keeps it well ordered. */
  lemma Prepend(c: Call, t: seq<Call>, i: nat, j: nat, nNormal: nat, nError: nat)
    requires (c == Normal(i) && i < nNormal && WellOrdered(t, i + 1, j, nNormal, nError))
          || (c.OnError? && c.index == j && j < nError && WellOrdered(t, i, j + 1, nNormal, nError))
    ensures WellOrdered([c] + t, i, j, nNormal, nError)
  {
    var u := [c] + t;
    forall k | 0 < k < |u|
      ensures u[k] == t[k - 1]
    {
    }
  }

  /** `next()` at the start of a request. */
  function HandleRequest(s: Server): (r: (seq<Call>, End))
    ensures WellOrdered(r.0, 0, 0, |s.handlers|, |s.errHandlers|)
  {
    RunShape(s.handlers, s.errHandlers, 0, 0, Undefined);
    Run(s.handlers, s.errHandlers, 0, 0, Undefined)
  }

  /** The calls `Normal(i)`, ..., `Normal(n - 1)`. */
  function NormalsFrom(i: nat, n: nat): (t: seq<Call>)
    requires i <= n
    ensures |t| == n - i && forall k :: 0 <= k < |t| ==> t[k] == Normal(i + k)
    decreases n - i
  {
    if i == n then [] else [Normal(i)] + NormalsFrom(i + 1, n)
  }

  /** When every remaining handler calls `next()`, each runs once in
      registration order and the request ends with no response. */
  lemma {:induction false} AllPass(hs: seq<Handler>, es: seq<Handler>, i: nat, j: nat)
    requires i <= |hs| && j <= |es|
    requires forall k :: i <= k < |hs| ==> hs[k].action == Next(Undefined)
    ensures Run(hs, es, i, j, Undefined) == (NormalsFrom(i, |hs|), Exhausted)
    decreases |hs| - i
  {
    if i < |hs| {
      AllPass(hs, es, i + 1, j);
    }
  }

  /** A throw is dispatched exactly as `next` with the thrown value. */
  lemma ThrowIsNext(hs: seq<Handler>, es: seq<Handler>, i: nat, j: nat, v: Value)
    requires i <= |hs| && j <= |es|
    ensures Resume(hs, es, i, j, Throw(v)) == Resume(hs, es, i, j, Next(v)) == Run(hs, es, i, j, v)
  {
  }

  /** `next(null)` is an error: it goes to the next error handler, not the next handler. */
  lemma NullIsAnError(hs: seq<Handler>, es: seq<Handler>, i: nat, j: nat)
    requires i <= |hs| && j < |es|
    ensures Run(hs, es, i, j, Null).0[0] == OnError(j, Null)
  {
  }

  /** An error handler that calls `next()` resumes the normal chain where it
      stopped, not after the failing handler's successors. */
  lemma ErrorHandlerResumes(hs: seq<Handler>, es: seq<Handler>, i: nat, j: nat, e: Value)
    requires i <= |hs| && j < |es| && e != Undefined
    requires es[j].action == Next(Undefined)
    ensures Run(hs, es, i, j, e)
         == ([OnError(j, e)] + Run(hs, es, i, j + 1, Undefined).0, Run(hs, es, i, j + 1, Undefined).1)
  {
  }

  /** The first handler throws and the first error handler calls `next()`:
      the request then continues with the second handler, exactly as if the
      first had passed. */
  lemma {:induction false} ThrowThenRecover(hs: seq<Handler>, es: seq<Handler>, e: Value)
    requires |hs| >= 1 && |es| >= 1 && e != Undefined
    requires hs[0].action == Throw(e) && es[0].action == Next(Undefined)
    ensures Run(hs, es, 0, 0, Undefined)
         == ([Normal(0), OnError(0, e)] + Run(hs, es, 1, 1, Undefined).0, Run(hs, es, 1, 1, Undefined).1)
  {
    var rest := Run(hs, es, 1, 1, Undefined);
    ErrorHandlerResumes(hs, es, 1, 0, e);
    NormalStep(hs, es, 0, 0);
    ThrowIsNext(hs, es, 1, 0, e);
    assert [Normal(0)] + ([OnError(0, e)] + rest.0) == [Normal(0), OnError(0, e)] + rest.0;
  }

  /** `next()` invokes the handler under the normal cursor. */
  lemma NormalStep(hs: seq<Handler>, es: seq<Handler>, i: nat, j: nat)
    requires i < |hs| && j <= |es|
    ensures Run(hs, es, i, j, Undefined)
         == ([Normal(i)] + Resume(hs, es, i + 1, j, hs[i].action).0, Resume(hs, es, i + 1, j, hs[i].action).1)
  {
  }

  /** Registering the same handler again neither duplicates nor moves it. */
  lemma UseAgain(s: Server, h: Handler)
    requires h in s.handlers
    ensures Use(s, h) == s
  {
  }

  /** Handlers registered in sequence keep first-registration order, once each. */
  lemma {:induction false} UseAllOrder(s: Server, hs: seq<Handler>)
    requires Distinct(s.handlers)
    decreases |hs|
    ensures Distinct(UseAll(s, hs).handlers)
    ensures |s.handlers| <= |UseAll(s, hs).handlers|
    ensures UseAll(s, hs).handlers[..|s.handlers|] == s.handlers
    ensures forall h :: h in UseAll(s, hs).handlers <==> h in s.handlers || h in hs
    ensures UseAll(s, hs).errHandlers == s.errHandlers
  {
    if |hs| > 0 {
      var s1 := Use(s, hs[0]);
      UseAllOrder(s1, hs[1..]);
      var r := UseAll(s1, hs[1..]).handlers;
      assert r[..|s.handlers|] == r[..|s1.handlers|][..|s.handlers|];
      forall h
        ensures h in r <==> h in s.handlers || h in hs
      {
        assert h in hs <==> h == hs[0] || h in hs[1..];
      }
    }
  }
}
