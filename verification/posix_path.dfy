/** The parts of Node's `path.posix` the server relies on: `join('/', p)`,
    which normalises a request path under the root, and `extname`, which
    picks the extension the MIME table is keyed on. */
module PosixPath {
  import opened Base

  /** A segment a normalised path may keep. */
  predicate IsName(s: string)
  {
    s != "" && s != "." && s != ".." && '/' !in s
  }

  predicate AllNames(segs: seq<string>)
  {
    forall k :: 0 <= k < |segs| ==> IsName(segs[k])
  }

  /** `s.split('/')`, with `cur` the part of the current piece read so far. */
  function SplitFrom(s: string, cur: string): (r: seq<string>)
    requires '/' !in cur
    ensures |r| > 0 && forall k :: 0 <= k < |r| ==> '/' !in r[k]
  {
    if |s| == 0 then [cur]
    else if s[0] == '/' then [cur] + SplitFrom(s[1..], "")
    else SplitFrom(s[1..], cur + [s[0]])
  }

  function Split(s: string): (r: seq<string>)
    ensures |r| > 0 && forall k :: 0 <= k < |r| ==> '/' !in r[k]
  {
    SplitFrom(s, "")
  }

  /** Walks the pieces of a path from the root: empty pieces and `.` are
      skipped, `..` drops the last kept segment and never climbs above the
      root, anything else is kept. */
  function Resolve(stack: seq<string>, pieces: seq<string>): (r: seq<string>)
    requires AllNames(stack) && forall k :: 0 <= k < |pieces| ==> '/' !in pieces[k]
    ensures AllNames(r)
    decreases |pieces|
  {
    if |pieces| == 0 then stack
    else
      var p := pieces[0];
      assert forall k :: 0 <= k < |pieces[1..]| ==> pieces[1..][k] == pieces[k + 1];
      if p == "" || p == "." then Resolve(stack, pieces[1..])
      else if p == ".." then Resolve(if |stack| == 0 then [] else stack[..|stack| - 1], pieces[1..])
      else Resolve(stack + [p], pieces[1..])
  }

  /** `path.posix.normalize` of an absolute path: the root, the kept
      segments, and a trailing `/` when the input had one and some segment
      is left. */
  function NormalizeAbsolute(p: string): (r: string)
    requires |p| > 0 && p[0] == '/'
  {
    var segs := Resolve([], Split(p));
    if |segs| == 0 then "/"
    else "/" + Join(segs, "/") + (if p[|p| - 1] == '/' then "/" else "")
  }

  /** `path.posix.join('/', p)`: the empty argument is skipped, any other
      is appended after a separator, and the result is normalised. */
  function JoinRoot(p: string): (r: string)
  {
    if p == "" then "/" else NormalizeAbsolute("//" + p)
  }

  /** A normalised absolute path: the root, names joined by `/`, and
      possibly one trailing `/` after at least one name. */
  ghost predicate Normal(r: string)
  {
    exists segs: seq<string>, slash: bool {:trigger Spell(segs, slash)} ::
      AllNames(segs) && r == Spell(segs, slash)
  }

  function Spell(segs: seq<string>, slash: bool): string
  {
    if |segs| == 0 then "/" else "/" + Join(segs, "/") + (if slash then "/" else "")
  }

  // ---------------------------------------------------------------------
  // Splitting undoes joining

  lemma {:induction false} SplitName(a: string, rest: string, cur: string)
    requires '/' !in a && '/' !in cur
    ensures SplitFrom(a + rest, cur) == SplitFrom(rest, cur + a)
    decreases |a|
  {
    if |a| > 0 {
      assert (a + rest)[0] == a[0];
      assert (a + rest)[1..] == a[1..] + rest;
      SplitName(a[1..], rest, cur + [a[0]]);
      assert cur + [a[0]] + a[1..] == cur + a;
    } else {
      assert a + rest == rest;
      assert cur + a == cur;
    }
  }

  /** Splitting names joined by `/` gives them back, the last one
      continuing into whatever follows. */
  lemma {:induction false} SplitJoin(segs: seq<string>, rest: string)
    requires |segs| > 0 && AllNames(segs)
    ensures SplitFrom(Join(segs, "/") + rest, "") == segs[..|segs| - 1] + SplitFrom(rest, segs[|segs| - 1])
    decreases |segs|
  {
    if |segs| == 1 {
      SplitName(segs[0], rest, "");
      assert "" + segs[0] == segs[0];
    } else {
      var tail := segs[1..];
      assert AllNames(tail) by {
        assert forall k :: 0 <= k < |tail| ==> tail[k] == segs[k + 1];
      }
      SplitJoin(tail, rest);
      SplitJoinStep(segs, rest);
    }
  }

  lemma SplitJoinStep(segs: seq<string>, rest: string)
    requires |segs| > 1 && IsName(segs[0]) && AllNames(segs[1..])
    requires SplitFrom(Join(segs[1..], "/") + rest, "")
          == segs[1..][..|segs[1..]| - 1] + SplitFrom(rest, segs[1..][|segs[1..]| - 1])
    ensures SplitFrom(Join(segs, "/") + rest, "") == segs[..|segs| - 1] + SplitFrom(rest, segs[|segs| - 1])
  {
    var a := segs[0];
    var r := Join(segs[1..], "/") + rest;
    assert Join(segs, "/") + rest == a + ("/" + r);
    SplitName(a, "/" + r, "");
    assert "" + a == a;
    SplitSlash(r, a);
    InitOfCons(segs);
  }

  lemma InitOfCons<T>(s: seq<T>)
    requires |s| > 1
    ensures s[..|s| - 1] == [s[0]] + s[1..][..|s| - 2] && s[|s| - 1] == s[1..][|s| - 2]
  {
  }

  lemma SplitSlash(r: string, cur: string)
    requires '/' !in cur
    ensures SplitFrom("/" + r, cur) == [cur] + SplitFrom(r, "")
  {
    assert ("/" + r)[0] == '/' && ("/" + r)[1..] == r;
  }

  lemma {:induction false} ResolveNames(stack: seq<string>, segs: seq<string>)
    requires AllNames(stack) && AllNames(segs)
    ensures Resolve(stack, segs) == stack + segs
    decreases |segs|
  {
    if |segs| == 0 {
      assert stack + segs == stack;
    } else {
      assert IsName(segs[0]);
      assert AllNames(stack + [segs[0]]);
      assert AllNames(segs[1..]) by {
        assert forall k :: 0 <= k < |segs[1..]| ==> segs[1..][k] == segs[k + 1];
      }
      ResolveNames(stack + [segs[0]], segs[1..]);
      assert stack + [segs[0]] + segs[1..] == stack + segs;
    }
  }

  lemma {:induction false} ResolveSkips(stack: seq<string>, pieces: seq<string>, n: nat)
    requires AllNames(stack) && n <= |pieces|
    requires forall k :: 0 <= k < |pieces| ==> '/' !in pieces[k]
    requires forall k :: 0 <= k < n ==> pieces[k] == ""
    ensures Resolve(stack, pieces) == Resolve(stack, pieces[n..])
    decreases n
  {
    if n > 0 {
      ResolveSkips(stack, pieces[1..], n - 1);
      assert pieces[1..][n - 1..] == pieces[n..];
    }
  }

  /** Names joined by `/` end with the last name, never with `/`. */
  lemma {:induction false} JoinNamesEnd(segs: seq<string>)
    requires |segs| > 0 && AllNames(segs)
    ensures var j := Join(segs, "/"); |j| > 0 && j[|j| - 1] != '/'
    decreases |segs|
  {
    if |segs| > 1 {
      assert AllNames(segs[1..]) by {
        assert forall k :: 0 <= k < |segs[1..]| ==> segs[1..][k] == segs[k + 1];
      }
      JoinNamesEnd(segs[1..]);
    } else {
      assert IsName(segs[0]);
    }
  }

  /** Three leading separators split off three empty pieces. */
  lemma {:induction false} SplitThreeSlashes(t: string)
    ensures Split("///" + t) == ["", "", ""] + SplitFrom(t, "")
  {
    SplitSlash("//" + t, "");
    SplitSlash("/" + t, "");
    SplitSlash(t, "");
    assert "///" + t == "/" + ("/" + ("/" + t));
  }

  /** The pieces of a spelled path behind the separators the join adds:
      three empty ones, the names, and an empty one for a trailing `/`. */
  lemma {:induction false} SplitSpelled(segs: seq<string>, slash: bool)
    requires |segs| > 0 && AllNames(segs)
    ensures Split("//" + Spell(segs, slash)) == ["", "", ""] + segs + (if slash then [""] else [])
  {
    var j := Join(segs, "/");
    var tail := if slash then "/" else "";
    var last := segs[|segs| - 1];
    assert "//" + Spell(segs, slash) == "///" + (j + tail);
    SplitThreeSlashes(j + tail);
    SplitJoin(segs, tail);
    if slash {
      assert tail[1..] == "";
      assert SplitFrom(tail, last) == [last] + SplitFrom("", "");
    }
    assert segs[..|segs| - 1] + [last] == segs;
  }

  /** Normalising a normalised path changes nothing. */
  lemma {:induction false} JoinRootSpelled(segs: seq<string>, slash: bool)
    requires AllNames(segs)
    ensures JoinRoot(Spell(segs, slash)) == Spell(segs, slash)
  {
    if |segs| > 0 {
      JoinRootNames(segs, slash);
    } else {
      JoinRootRoot();
    }
  }

  lemma {:induction false} JoinRootRoot()
    ensures JoinRoot("/") == "/"
  {
    var p := "//" + "/";
    SplitThreeSlashes("");
    assert p == "///" + "";
    var pieces := Split(p);
    assert pieces == ["", "", "", ""];
    ResolveSkips([], pieces, 4);
    assert pieces[4..] == [];
  }

  lemma {:induction false} JoinRootNames(segs: seq<string>, slash: bool)
    requires |segs| > 0 && AllNames(segs)
    ensures JoinRoot(Spell(segs, slash)) == Spell(segs, slash)
  {
    var p := "//" + Spell(segs, slash);
    SpelledSegments(segs, slash);
    SpelledTrailing(segs, slash);
    assert JoinRoot(Spell(segs, slash)) == NormalizeAbsolute(p);
  }

  lemma {:induction false} SpelledSegments(segs: seq<string>, slash: bool)
    requires |segs| > 0 && AllNames(segs)
    ensures Resolve([], Split("//" + Spell(segs, slash))) == segs
  {
    SplitSpelled(segs, slash);
    var pieces := ["", "", ""] + segs + (if slash then [""] else []);
    ResolveSkips([], pieces, 3);
    assert pieces[3..] == segs + (if slash then [""] else []);
    ResolveNamesThen([], segs, slash);
  }

  lemma {:induction false} SpelledTrailing(segs: seq<string>, slash: bool)
    requires |segs| > 0 && AllNames(segs)
    ensures var p := "//" + Spell(segs, slash); p[|p| - 1] == '/' <==> slash
  {
    var p := "//" + Spell(segs, slash);
    JoinNamesEnd(segs);
    var j := Join(segs, "/");
    if !slash {
      assert p == "///" + j;
      assert p[|p| - 1] == j[|j| - 1];
    }
  }

  lemma {:induction false} ResolveNamesThen(stack: seq<string>, segs: seq<string>, slash: bool)
    requires AllNames(stack) && AllNames(segs)
    ensures Resolve(stack, segs + (if slash then [""] else [])) == stack + segs
    decreases |segs|
  {
    var extra: seq<string> := if slash then [""] else [];
    if |segs| == 0 {
      assert segs + extra == extra;
      assert stack + segs == stack;
      if slash {
        assert extra[1..] == [];
      }
    } else {
      assert (segs + extra)[0] == segs[0];
      assert (segs + extra)[1..] == segs[1..] + extra;
      assert IsName(segs[0]);
      assert AllNames(segs[1..]) by {
        assert forall k :: 0 <= k < |segs[1..]| ==> segs[1..][k] == segs[k + 1];
      }
      ResolveNamesThen(stack + [segs[0]], segs[1..], slash);
      assert stack + [segs[0]] + segs[1..] == stack + segs;
    }
  }

  // ---------------------------------------------------------------------
  // What `join('/', p)` promises

  /** The pieces of the joined path: two empty ones for the separators the
      join writes, then the pieces of `p`. */
  lemma {:induction false} SplitRooted(p: string)
    ensures Split("//" + p) == ["", ""] + SplitFrom(p, "")
  {
    SplitSlash("/" + p, "");
    SplitSlash(p, "");
    assert "//" + p == "/" + ("/" + p);
  }

  /** The kept segments of `join('/', p)`. */
  function Segments(p: string): (segs: seq<string>)
    ensures AllNames(segs)
  {
    Resolve([], SplitFrom(p, ""))
  }

  lemma {:induction false} JoinRootShape(p: string)
    ensures JoinRoot(p) == Spell(Segments(p), p != "" && p[|p| - 1] == '/')
  {
    if p != "" {
      SplitRooted(p);
      var pieces := ["", ""] + SplitFrom(p, "");
      ResolveSkips([], pieces, 2);
      assert pieces[2..] == SplitFrom(p, "");
      var q := "//" + p;
      assert q[|q| - 1] == p[|p| - 1];
    } else {
      assert SplitFrom("", "") == [""];
      assert Resolve([], [""]) == Resolve([], []);
    }
  }

  /** The joined path is absolute and clean: the root followed by names,
      with no empty, `.` or `..` segment left. */
  lemma JoinRootNormal(p: string)
    ensures Normal(JoinRoot(p))
    ensures |JoinRoot(p)| > 0 && JoinRoot(p)[0] == '/'
  {
    JoinRootShape(p);
  }

  /** Joining an already joined path under the root changes nothing. */
  lemma JoinRootIdempotent(p: string)
    ensures JoinRoot(JoinRoot(p)) == JoinRoot(p)
  {
    JoinRootShape(p);
    JoinRootSpelled(Segments(p), p != "" && p[|p| - 1] == '/');
  }

  /** The result ends with `/` exactly when it is the root or the argument
      ended with `/`. */
  lemma JoinRootTrailing(p: string)
    ensures EndsWith(JoinRoot(p), "/") <==> JoinRoot(p) == "/" || (p != "" && p[|p| - 1] == '/')
  {
    JoinRootShape(p);
    var segs := Segments(p);
    var r := JoinRoot(p);
    if |segs| > 0 && !(p != "" && p[|p| - 1] == '/') {
      JoinNamesEnd(segs);
      var j := Join(segs, "/");
      assert r == "/" + j;
      assert r[|r| - 1] == j[|j| - 1];
      assert r != "/";
    }
  }

  /** A relative path of plain names is just put under the root. */
  lemma {:induction false} JoinRootRelative(segs: seq<string>)
    requires |segs| > 0 && AllNames(segs)
    ensures JoinRoot(Join(segs, "/")) == "/" + Join(segs, "/")
  {
    var j := Join(segs, "/");
    JoinNamesEnd(segs);
    JoinRootShape(j);
    SplitJoin(segs, "");
    assert j + "" == j;
    assert SplitFrom("", segs[|segs| - 1]) == [segs[|segs| - 1]];
    assert segs[..|segs| - 1] + [segs[|segs| - 1]] == segs;
    ResolveNames([], segs);
    assert Segments(j) == segs;
    assert Spell(segs, false) == "/" + j + "";
  }

  /** A leading `..` cannot climb above the root. */
  lemma {:induction false} SegmentsClimb(p: string)
    ensures Segments("../" + p) == Segments(p)
  {
    var q := "../" + p;
    assert q == ".." + ("/" + p);
    SplitName("..", "/" + p, "");
    assert "" + ".." == "..";
    SplitSlash(p, "..");
    var pieces := [".."] + SplitFrom(p, "");
    assert pieces[1..] == SplitFrom(p, "");
  }

  lemma {:induction false} JoinRootClimb(p: string)
    ensures JoinRoot("../" + p) == JoinRoot(p)
  {
    var q := "../" + p;
    JoinRootShape(q);
    JoinRootShape(p);
    SegmentsClimb(p);
    if p != "" {
      assert q[|q| - 1] == p[|p| - 1];
    } else {
      assert Segments(p) == [];
      assert SplitFrom(p, "") == [""];
    }
  }

  /** A spelled path splits into an empty piece, its names, and an empty
      piece for a trailing `/`. */
  lemma SpelledPieces(segs: seq<string>, slash: bool)
    requires AllNames(segs) && |segs| > 0
    ensures SplitFrom(Spell(segs, slash), "") == [""] + segs + (if slash then [""] else [])
  {
    var j := Join(segs, "/");
    var tail := if slash then "/" else "";
    var last := segs[|segs| - 1];
    assert Spell(segs, slash) == "/" + (j + tail);
    SplitSlash(j + tail, "");
    SplitJoin(segs, tail);
    if slash {
      assert tail[1..] == "";
      assert SplitFrom(tail, last) == [last] + SplitFrom("", "");
    }
    assert segs[..|segs| - 1] + [last] == segs;
  }

  /** The segments of a spelled path are the names it was spelled from. */
  lemma {:induction false} SegmentsSpelled(segs: seq<string>, slash: bool)
    requires AllNames(segs)
    ensures Segments(Spell(segs, slash)) == segs
  {
    if |segs| > 0 {
      var pieces := [""] + segs + (if slash then [""] else []);
      SpelledPieces(segs, slash);
      ResolveSkips([], pieces, 1);
      assert pieces[1..] == segs + (if slash then [""] else []);
      ResolveNamesThen([], segs, slash);
    } else {
      SplitSlash("", "");
      assert Spell(segs, slash) == "/" + "";
      ResolveSkips([], ["", ""], 2);
    }
  }

  /** A spelled path with at least one name ends with `/` exactly when it
      was spelled with one. */
  lemma SpellEnds(segs: seq<string>, slash: bool)
    requires |segs| > 0 && AllNames(segs)
    ensures EndsWith(Spell(segs, slash), "/") <==> slash
  {
    if !slash {
      JoinNamesEnd(segs);
      var j := Join(segs, "/");
      var r := Spell(segs, slash);
      assert r == "/" + j;
      assert r[|r| - 1] == j[|j| - 1];
    }
  }

  /** Resolving a single name below a path appends it. */
  lemma ResolveName(stack: seq<string>, name: string)
    requires AllNames(stack) && IsName(name)
    ensures Resolve(stack, Split(name)) == stack + [name]
  {
    SplitName(name, "", "");
    assert name + "" == name && "" + name == name;
    assert SplitFrom("", name) == [name];
    ResolveNames(stack, [name]);
  }

  // ---------------------------------------------------------------------
  // `path.posix.extname`

  /** The position of the last `c` in `s`. */
  function LastIndex(s: string, c: char): (r: Option<nat>)
    ensures r.Some? ==> r.value < |s| && s[r.value] == c && c !in s[r.value + 1..]
    ensures r.None? ==> c !in s
  {
    if |s| == 0 then None
    else if s[|s| - 1] == c then Some(|s| - 1)
    else
      var r := LastIndex(s[..|s| - 1], c);
      assert s == s[..|s| - 1] + [s[|s| - 1]];
      r
  }

  /** `p` without its trailing separators. */
  function TrimSlashes(p: string): (r: string)
    ensures |r| <= |p| && r == p[..|r|]
    ensures r == "" || r[|r| - 1] != '/'
    ensures forall k :: |r| <= k < |p| ==> p[k] == '/'
  {
    if |p| > 0 && p[|p| - 1] == '/' then TrimSlashes(p[..|p| - 1]) else p
  }

  /** The last component of `p`, trailing separators ignored. */
  function BaseName(p: string): (r: string)
    ensures '/' !in r
  {
    var t := TrimSlashes(p);
    match LastIndex(t, '/')
    case None => t
    case Some(i) => t[i + 1..]
  }

  /** The extension of one component: from its last dot, unless there is
      none, the dot opens the name, or the name is `..`. */
  function ExtOfName(name: string): (r: string)
    ensures r == "" || (r[0] == '.' && '.' !in r[1..] && EndsWith(name, r) && |r| < |name|)
  {
    match LastIndex(name, '.')
    case None => ""
    case Some(i) =>
      if i == 0 || name == ".." then ""
      else
        assert name[|name| - |name[i..]|..] == name[i..];
        name[i..]
  }

  /** `path.posix.extname(p)`. */
  function ExtName(p: string): (r: string)
    ensures r == "" || (r[0] == '.' && '.' !in r[1..] && '/' !in r)
  {
    ExtOfName(BaseName(p))
  }

  /** A `c` with no other after it is the last one. */
  lemma {:induction false} LastIndexIs(s: string, c: char, i: nat)
    requires i < |s| && s[i] == c && c !in s[i + 1..]
    ensures LastIndex(s, c) == Some(i)
    decreases |s|
  {
    if i < |s| - 1 {
      assert s[|s| - 1] == s[i + 1..][|s| - 1 - (i + 1)];
      var t := s[..|s| - 1];
      assert t[i + 1..] == s[i + 1..|s| - 1];
      LastIndexIs(t, c, i);
    }
  }

  /** A name made of a stem and an extension has that extension, except
      that `..` has none. */
  lemma ExtOfNameSplit(stem: string, ext: string)
    requires stem != "" && stem + ext != ".."
    requires |ext| > 0 && ext[0] == '.' && '.' !in ext[1..]
    ensures ExtOfName(stem + ext) == ext
  {
    var name := stem + ext;
    var i := |stem|;
    assert name[i] == '.';
    assert name[i + 1..] == ext[1..];
    LastIndexIs(name, '.', i);
    assert name[i..] == ext;
  }

  /** Without a dot after its first character a name has no extension. */
  lemma ExtOfNameNone(name: string)
    requires |name| > 0 ==> '.' !in name[1..]
    ensures ExtOfName(name) == ""
  {
    if |name| > 0 && name[0] == '.' {
      LastIndexIs(name, '.', 0);
    } else if |name| > 0 {
      assert name == [name[0]] + name[1..];
      assert '.' !in name;
    }
  }

  /** Under a directory prefix the extension is that of the last name. */
  lemma ExtNameUnder(dirs: string, name: string)
    requires dirs == "" || dirs[|dirs| - 1] == '/'
    requires name != "" && '/' !in name
    ensures ExtName(dirs + name) == ExtOfName(name)
  {
    var p := dirs + name;
    assert p[|p| - 1] == name[|name| - 1];
    assert TrimSlashes(p) == p;
    assert p[|dirs|..] == name;
    if dirs == "" {
      assert p == name;
    } else {
      assert p[|dirs| - 1] == '/';
      LastIndexIs(p, '/', |dirs| - 1);
    }
  }

  // ---------------------------------------------------------------------
  // Characters other than the separator are never introduced

  lemma {:induction false} SplitAvoids(s: string, cur: string, c: char)
    requires '/' !in cur && c !in s && c !in cur
    ensures forall k :: 0 <= k < |SplitFrom(s, cur)| ==> c !in SplitFrom(s, cur)[k]
    decreases |s|
  {
    if |s| > 0 {
      assert s[0] in s;
      assert c !in s[1..] by {
        assert forall k :: 0 <= k < |s[1..]| ==> s[1..][k] == s[k + 1];
      }
      if s[0] == '/' {
        SplitAvoids(s[1..], "", c);
      } else {
        SplitAvoids(s[1..], cur + [s[0]], c);
      }
    }
  }

  lemma {:induction false} ResolveAvoids(stack: seq<string>, pieces: seq<string>, c: char)
    requires AllNames(stack) && forall k :: 0 <= k < |pieces| ==> '/' !in pieces[k]
    requires forall k :: 0 <= k < |stack| ==> c !in stack[k]
    requires forall k :: 0 <= k < |pieces| ==> c !in pieces[k]
    ensures forall k :: 0 <= k < |Resolve(stack, pieces)| ==> c !in Resolve(stack, pieces)[k]
    decreases |pieces|
  {
    if |pieces| > 0 {
      var p := pieces[0];
      var rest := pieces[1..];
      assert forall k :: 0 <= k < |rest| ==> rest[k] == pieces[k + 1];
      if p == "" || p == "." {
        ResolveAvoids(stack, rest, c);
      } else if p == ".." {
        ResolveAvoids(if |stack| == 0 then [] else stack[..|stack| - 1], rest, c);
      } else {
        ResolveAvoids(stack + [p], rest, c);
      }
    }
  }

  lemma {:induction false} JoinAvoids(segs: seq<string>, c: char)
    requires c != '/' && forall k :: 0 <= k < |segs| ==> c !in segs[k]
    ensures c !in Join(segs, "/")
    decreases |segs|
  {
    if |segs| > 1 {
      JoinAvoids(segs[1..], c);
    }
  }

  /** `join('/', p)` only adds separators: a character absent from `p` is
      absent from the result unless it is `/`. */
  lemma JoinRootAvoids(p: string, c: char)
    requires c != '/' && c !in p
    ensures c !in JoinRoot(p)
  {
    JoinRootShape(p);
    SplitAvoids(p, "", c);
    ResolveAvoids([], SplitFrom(p, ""), c);
    JoinAvoids(Segments(p), c);
  }
}
