/** The static file responder (`MyServer.static` in lib/mini-server.js): how
    a request pathname becomes a file under the base directory, and what the
    responder answers, raises, or hands to `next`.  The file system is a
    snapshot taken as a parameter; reading file contents is left out. */
module StaticFiles {
  import opened Base
  import Uri
  import PosixPath
  import Dispatch
  import opened StaticConfig
  import opened DirListing

  /** What opening and `stat`-ing a path under the base finds: a file or a
      directory with the size `stat` reports (a directory also with its
      entries), or an error with its `code`. */
  datatype Node =
    | File(size: nat)
    | Dir(size: nat, entries: seq<Dirent>)
    | Fails(code: string)

  /** The tree under the base directory, by the segments below it.  A path
      that is not in the map does not exist. */
  type Fs = map<seq<string>, Node>

  /** A rejection of the handler's promise. */
  datatype Failure =
    | Code(code: string)      // a file system error, `err.code`
    | Thrown(message: string) // `throw Error(message)`
    | Malformed               // `decodeURIComponent` threw `URIError`

  /** A step of the handler: its value, or the failure it raises. */
  datatype Attempt<T> = Done(value: T) | Raised(f: Failure)
  {
    predicate IsFailure() { Raised? }
    function PropagateFailure<U>(): Attempt<U>
      requires Raised?
    {
      Raised(f)
    }
    function Extract(): T
      requires Done?
    {
      value
    }
  }

  const NotADirectory: string := "Base dir is not a directory!"
  const ListingDisabled: string := "Directory listing disabled!"

  /** What the handler writes when its promise fulfils. */
  datatype Reply =
    | Redirect(location: string)        // status 301, `Location`
    | SendFile(mime: string, length: nat) // `Content-Length`, `Content-Type`, the bytes
    | Listing(page: Page)               // `text/html; charset=utf-8`
    | NotFound                          // status 404, '404 Not Found'

  const RedirectStatus: nat := 301
  const NotFoundBody: string := "404 Not Found"

  /** How the request ends once the promise has settled. */
  datatype Outcome =
    | Replied(reply: Reply)
    | PassOn              // `next()`
    | PassError(f: Failure) // `next(err)`
    | Silent              // the rejection is dropped; nothing is written

  /** The file system path a pathname names under the base: its segments. */
  function Key(decoded: string): (k: seq<string>)
    ensures PosixPath.AllNames(k)
  {
    PosixPath.Segments(decoded)
  }

  /** The first entry of `index` that is a string naming a file entry. */
  function FindIndex(index: seq<JsValue>, files: set<string>): (r: Option<string>)
    ensures r.Some? ==> r.value in files
    ensures r.Some? ==> (exists k :: 0 <= k < |index| && index[k] == Str(r.value)
                           && forall j :: 0 <= j < k ==> !(index[j].Str? && index[j].s in files))
    ensures r.None? ==> forall k :: 0 <= k < |index| && index[k].Str? ==> index[k].s !in files
  {
    if |index| == 0 then None
    else if index[0].Str? && index[0].s in files then Some(index[0].s)
    else
      var r := FindIndex(index[1..], files);
      assert forall k :: 0 <= k < |index[1..]| ==> index[1..][k] == index[k + 1];
      if r.Some? then
        var k :| 0 <= k < |index[1..]| && index[1..][k] == Str(r.value)
          && forall j :: 0 <= j < k ==> !(index[1..][j].Str? && index[1..][j].s in files);
        assert index[k + 1] == Str(r.value);
        assert forall j :: 0 <= j < k + 1 ==> !(index[j].Str? && index[j].s in files);
        r
      else r
  }

  /** The names of the entries for which `isFile()` holds. */
  function FileNames(entries: seq<Dirent>): (r: set<string>)
    ensures forall n :: n in r <==> exists k :: 0 <= k < |entries| && entries[k] == Dirent(n, FileKind)
  {
    set k | 0 <= k < |entries| && entries[k].kind == FileKind :: entries[k].name
  }

  /** `staticHandler()`: the reply it writes, or the failure that rejects
      its promise. */
  function Handle(fs: Fs, opts: Options, reqPathname: string): (r: Attempt<Reply>)
  {
    var decoded :- DecodePathname(reqPathname);
    HandleDecoded(fs, opts, decoded)
  }

  /** The handler once `decodeURIComponent` has succeeded. */
  function HandleDecoded(fs: Fs, opts: Options, decoded: string): Attempt<Reply>
  {
    var pathname := PosixPath.JoinRoot(decoded);
    var key := Key(decoded);
    var requestAsDir := EndsWith(pathname, "/");
    var node :- OpenPath(fs, key, requestAsDir);
    if requestAsDir != node.Dir? then
      if pathname == "/" then Raised(Thrown(NotADirectory))
      else RedirectTo(if requestAsDir then DropLast(pathname) else pathname + "/")
    else if node.Dir? then
      HandleDir(fs, opts, pathname, key, node.entries)
    else
      Done(SendFile(MimeOf(PosixPath.ExtName(pathname)), node.size))
  }

  /** `res.redirect(url, 301)`.  Its `setHeader('Location', url)` throws
      `ERR_INVALID_CHAR` for a character other than tab, 0x20 to 0x7E and
      0x80 to 0xFF, which rejects the handler's promise. */
  function RedirectTo(loc: string): Attempt<Reply>
  {
    if HeaderSafe(loc) then Done(Redirect(loc)) else Raised(Code("ERR_INVALID_CHAR"))
  }

  /** A character Node accepts in a header value. */
  predicate HeaderChar(c: char)
  {
    c == '\t' || (0x20 <= c as int <= 0x7E) || (0x80 <= c as int <= 0xFF)
  }

  /** Every character of `s` is one Node accepts in a header value. */
  predicate HeaderSafe(s: string)
  {
    |s| == 0 || (HeaderChar(s[0]) && HeaderSafe(s[1..]))
  }

  function DecodePathname(p: string): Attempt<string>
  {
    match Uri.DecodeURIComponent(p)
    case Success(d) => Done(d)
    case Failure(_) => Raised(Malformed)
  }

  /** `fs.promises.open` of the path `key` spells under the base, ending in
      `/` when `asDir` holds (`path.join` keeps a trailing slash).  As with
      open(2), a path with a trailing slash that names anything but a
      directory fails with `ENOTDIR`. */
  function OpenPath(fs: Fs, key: seq<string>, asDir: bool): Attempt<Node>
  {
    if key !in fs then Raised(Code("ENOENT"))
    else match fs[key]
      case Fails(code) => Raised(Code(code))
      case File(_) => if asDir then Raised(Code("ENOTDIR")) else Done(fs[key])
      case n => Done(n)
  }

  /** `s.slice(0, -1)`: every character but the last; `""` stays `""`. */
  function DropLast(s: string): string
  {
    if |s| == 0 then s else s[..|s| - 1]
  }

  /** A directory requested as one: an index page, else a listing, else a
      failure. */
  function HandleDir(fs: Fs, opts: Options, pathname: string, key: seq<string>, entries: seq<Dirent>): Attempt<Reply>
    requires PosixPath.AllNames(key)
  {
    var found := if opts.index.Arr? && |opts.index.items| > 0
      then FindIndex(opts.index.items, FileNames(entries)) else None;
    if found.Some? then
      var name := found.value;
      var indexKey := PosixPath.Resolve(key, PosixPath.Split(name));
      match OpenPath(fs, indexKey, false)
      case Raised(f) => Raised(f)
      case Done(n) => Done(SendFile(MimeOf(PosixPath.ExtName(name)), n.size))
    else if opts.dirIndex then Done(Listing(DirTemplate(pathname, entries)))
    else Raised(Thrown(ListingDisabled))
  }

  /** The `.catch` on the handler's promise. */
  function Settle(opts: Options, r: Attempt<Reply>): (o: Outcome)
  {
    match r
    case Done(reply) => Replied(reply)
    case Raised(Code("ENOENT")) => if opts.fallthrough then PassOn else Replied(NotFound)
    case Raised(f) => if opts.fallthrough then PassError(f) else Silent
  }

  /** The responder returned by `static(base, options)` on one request. */
  function Serve(fs: Fs, given: Option<Config>, reqPathname: string): Outcome
  {
    var opts := StaticOptions(given);
    Settle(opts, Handle(fs, opts, reqPathname))
  }

  /** The message `next(err)` carries. */
  function Describe(f: Failure): string
  {
    match f
    case Code(c) => "Error: " + c
    case Thrown(m) => "Error: " + m
    case Malformed => "URIError: " + Uri.Malformed.message
  }

  /** The outcome as the dispatcher sees the handler. */
  function ActionOf(o: Outcome): (a: Dispatch.Action)
    ensures a.Next? && a.arg == Dispatch.Undefined <==> o.PassOn?
    ensures a.Next? && a.arg != Dispatch.Undefined <==> o.PassError?
    ensures a == Dispatch.Respond <==> o.Replied?
    ensures a == Dispatch.Stop <==> o.Silent?
  {
    match o
    case Replied(_) => Dispatch.Respond
    case PassOn => Dispatch.Next(Dispatch.Undefined)
    case PassError(f) => Dispatch.Next(Dispatch.Other(Describe(f)))
    case Silent => Dispatch.Stop
  }

  // ---------------------------------------------------------------------
  // Properties

  /** The pathname the handler works with is the decoded one joined under
      the root, and it spells the key it opens. */
  lemma PathnameSpellsKey(decoded: string)
    ensures PosixPath.JoinRoot(decoded)
         == PosixPath.Spell(Key(decoded), decoded != "" && decoded[|decoded| - 1] == '/')
  {
    PosixPath.JoinRootShape(decoded);
  }

  /** Nothing outside the base is opened: the key holds only names, and a
      leading `..` in the decoded path is ignored. */
  lemma KeyStaysUnderBase(decoded: string)
    ensures PosixPath.AllNames(Key(decoded))
    ensures Key("../" + decoded) == Key(decoded)
  {
    PosixPath.SegmentsClimb(decoded);
  }

  /** A pathname that does not decode rejects with `URIError`; a path that
      does not exist rejects with `ENOENT`. */
  lemma HandleErrors(fs: Fs, opts: Options, p: string)
    ensures Uri.DecodeURIComponent(p).Failure? ==> Handle(fs, opts, p) == Raised(Malformed)
    ensures Uri.DecodeURIComponent(p).Success? && Key(Uri.DecodeURIComponent(p).value) !in fs
        ==> Handle(fs, opts, p) == Raised(Code("ENOENT"))
  {
  }

  /** The handler decides on a 301 exactly when a directory is requested
      without its trailing `/` and its path with the slash is a valid header
      value.  The target is that path: it is already normalised, names the
      same key and ends with `/`. */
  lemma RedirectWhen(fs: Fs, opts: Options, p: string)
    ensures (Handle(fs, opts, p).Done? && Handle(fs, opts, p).value.Redirect?)
        <==> (Uri.DecodeURIComponent(p).Success?
              && var d := Uri.DecodeURIComponent(p).value; var key := Key(d);
              key in fs && fs[key].Dir? && !EndsWith(PosixPath.JoinRoot(d), "/")
              && HeaderSafe(PosixPath.Spell(key, true)))
    ensures Handle(fs, opts, p).Done? && Handle(fs, opts, p).value.Redirect? ==>
        Uri.DecodeURIComponent(p).Success?
        && var key := Key(Uri.DecodeURIComponent(p).value);
        var loc := Handle(fs, opts, p).value.location;
        loc == PosixPath.Spell(key, true)
        && PosixPath.JoinRoot(loc) == loc
        && Key(loc) == key
        && EndsWith(loc, "/")
  {
    if Uri.DecodeURIComponent(p).Success? {
      var d := Uri.DecodeURIComponent(p).value;
      assert Handle(fs, opts, p) == HandleDecoded(fs, opts, d);
      if HandleDecoded(fs, opts, d).Done? && HandleDecoded(fs, opts, d).value.Redirect? {
        RedirectOnly(fs, opts, d);
      }
      if Key(d) in fs && fs[Key(d)].Dir? && !EndsWith(PosixPath.JoinRoot(d), "/") {
        RedirectTarget(fs, opts, d);
      }
    }
  }

  /** Only a directory requested without its slash is redirected. */
  lemma RedirectOnly(fs: Fs, opts: Options, d: string)
    requires HandleDecoded(fs, opts, d).Done? && HandleDecoded(fs, opts, d).value.Redirect?
    ensures Key(d) in fs && fs[Key(d)].Dir? && !EndsWith(PosixPath.JoinRoot(d), "/")
  {
  }

  /** What a directory requested without its slash gets: the redirect to its
      path with the slash, or `ERR_INVALID_CHAR` when that path is not a
      valid header value. */
  lemma RedirectTarget(fs: Fs, opts: Options, d: string)
    requires Key(d) in fs && fs[Key(d)].Dir? && !EndsWith(PosixPath.JoinRoot(d), "/")
    ensures var key := Key(d); var loc := PosixPath.Spell(key, true);
      HandleDecoded(fs, opts, d) == RedirectTo(loc)
      && PosixPath.JoinRoot(loc) == loc && Key(loc) == key && EndsWith(loc, "/")
  {
    var key := Key(d);
    var t := d != "" && d[|d| - 1] == '/';
    var pathname := PosixPath.JoinRoot(d);
    PathnameSpellsKey(d);
    assert |key| > 0;
    PosixPath.SpellEnds(key, t);
    var loc := PosixPath.Spell(key, true);
    assert pathname + "/" == loc;
    PosixPath.JoinRootSpelled(key, true);
    PosixPath.SegmentsSpelled(key, true);
    PosixPath.SpellEnds(key, true);
  }

  /** A directory whose path holds a character Node refuses in a header, such
      as `中`, is not redirected: the promise rejects with `ERR_INVALID_CHAR`,
      which goes to `next(err)` or gets no reply. */
  lemma InvalidLocationRejects(fs: Fs, opts: Options, p: string)
    requires Uri.DecodeURIComponent(p).Success?
    requires var d := Uri.DecodeURIComponent(p).value;
      Key(d) in fs && fs[Key(d)].Dir? && !EndsWith(PosixPath.JoinRoot(d), "/")
      && !HeaderSafe(PosixPath.Spell(Key(d), true))
    ensures Handle(fs, opts, p) == Raised(Code("ERR_INVALID_CHAR"))
  {
    var d := Uri.DecodeURIComponent(p).value;
    assert Handle(fs, opts, p) == HandleDecoded(fs, opts, d);
    RedirectTarget(fs, opts, d);
  }

  /** Following a redirect whose location holds no `%` requests the same
      directory with its slash, so it is not redirected again.  (A `%` in a
      directory name is decoded a second time by the next request.) */
  lemma RedirectFollowed(fs: Fs, opts: Options, p: string)
    requires Handle(fs, opts, p).Done? && Handle(fs, opts, p).value.Redirect?
    requires '%' !in Handle(fs, opts, p).value.location
    ensures var loc := Handle(fs, opts, p).value.location;
      Uri.DecodeURIComponent(loc) == Success(loc)
      && !(Handle(fs, opts, loc).Done? && Handle(fs, opts, loc).value.Redirect?)
  {
    var loc := Handle(fs, opts, p).value.location;
    RedirectWhen(fs, opts, p);
    Uri.DecodeWithoutEscapes(loc);
    RedirectWhen(fs, opts, loc);
  }

  /** A plain file requested with a trailing `/` is not opened: the open of
      `base + pathname` fails with `ENOTDIR`, which goes to `next(err)` or,
      without `fallthrough`, gets no reply at all. */
  lemma FileWithSlashFails(fs: Fs, opts: Options, p: string)
    requires Uri.DecodeURIComponent(p).Success?
    requires var d := Uri.DecodeURIComponent(p).value;
      Key(d) in fs && fs[Key(d)].File? && EndsWith(PosixPath.JoinRoot(d), "/")
    ensures Handle(fs, opts, p) == Raised(Code("ENOTDIR"))
    ensures Settle(opts, Handle(fs, opts, p)) == if opts.fallthrough then PassError(Code("ENOTDIR")) else Silent
  {
  }

  /** A base that is a plain file makes every request for `/` fail with
      `ENOTDIR`, since the open of `base + "/"` fails. */
  lemma RootNotDirectory(fs: Fs, opts: Options, p: string)
    requires Uri.DecodeURIComponent(p).Success?
    requires PosixPath.JoinRoot(Uri.DecodeURIComponent(p).value) == "/"
    requires [] in fs && fs[[]].File?
    ensures Handle(fs, opts, p) == Raised(Code("ENOTDIR"))
  {
    var d := Uri.DecodeURIComponent(p).value;
    PathnameSpellsKey(d);
    assert Key(d) == [] by {
      if |Key(d)| > 0 {
        PosixPath.JoinNamesEnd(Key(d));
      }
    }
  }

  /** The handler never throws "Base dir is not a directory!" and never
      redirects to a path without its trailing `/`: a mismatch can only be a
      directory requested without the slash. */
  lemma MismatchIsDirectoryOnly(fs: Fs, opts: Options, p: string)
    ensures Handle(fs, opts, p) != Raised(Thrown(NotADirectory))
    ensures Handle(fs, opts, p).Done? && Handle(fs, opts, p).value.Redirect? ==>
      EndsWith(Handle(fs, opts, p).value.location, "/")
  {
    if Uri.DecodeURIComponent(p).Success? {
      var d := Uri.DecodeURIComponent(p).value;
      assert Handle(fs, opts, p) == HandleDecoded(fs, opts, d);
      MismatchDecoded(fs, opts, d);
    }
  }

  lemma MismatchDecoded(fs: Fs, opts: Options, d: string)
    ensures HandleDecoded(fs, opts, d) != Raised(Thrown(NotADirectory))
    ensures HandleDecoded(fs, opts, d).Done? && HandleDecoded(fs, opts, d).value.Redirect? ==>
      EndsWith(HandleDecoded(fs, opts, d).value.location, "/")
  {
    if HandleDecoded(fs, opts, d).Done? && HandleDecoded(fs, opts, d).value.Redirect? {
      RedirectOnly(fs, opts, d);
      RedirectTarget(fs, opts, d);
    }
  }

  /** A file requested without a trailing `/` is sent with the content type
      of its last name's extension and the size `stat` gave. */
  lemma FileServed(fs: Fs, opts: Options, p: string)
    requires Uri.DecodeURIComponent(p).Success?
    requires var d := Uri.DecodeURIComponent(p).value;
      (Key(d) in fs && fs[Key(d)].File? && !EndsWith(PosixPath.JoinRoot(d), "/"))
    ensures var d := Uri.DecodeURIComponent(p).value; var key := Key(d);
      |key| > 0
      && Handle(fs, opts, p) == Done(SendFile(MimeOf(PosixPath.ExtOfName(key[|key| - 1])), fs[key].size))
  {
    var d := Uri.DecodeURIComponent(p).value;
    var key := Key(d);
    var t := d != "" && d[|d| - 1] == '/';
    PathnameSpellsKey(d);
    assert |key| > 0;
    LastName(key, t);
  }

  /** The last component of a spelled path is its last name. */
  lemma LastName(key: seq<string>, t: bool)
    requires |key| > 0 && PosixPath.AllNames(key) && !EndsWith(PosixPath.Spell(key, t), "/")
    ensures PosixPath.ExtName(PosixPath.Spell(key, t)) == PosixPath.ExtOfName(key[|key| - 1])
  {
    PosixPath.SpellEnds(key, t);
    var init := key[..|key| - 1];
    var last := key[|key| - 1];
    assert PosixPath.IsName(last);
    var dirs := if |init| == 0 then "/" else "/" + Join(init, "/") + "/";
    assert key == init + [last];
    JoinSnoc(init, last);
    assert !t;
    assert PosixPath.Spell(key, t) == "/" + Join(key, "/") + "";
    assert PosixPath.Spell(key, t) == dirs + last;
    PosixPath.ExtNameUnder(dirs, last);
  }

  lemma {:induction false} JoinSnoc(init: seq<string>, last: string)
    ensures Join(init + [last], "/") == if |init| == 0 then last else Join(init, "/") + "/" + last
    decreases |init|
  {
    var s := init + [last];
    if |init| > 1 {
      assert s[0] == init[0];
      assert s[1..] == init[1..] + [last];
      JoinSnoc(init[1..], last);
      var j := Join(init[1..], "/");
      assert Join(s, "/") == init[0] + "/" + (j + "/" + last);
      assert Join(init, "/") == init[0] + "/" + j;
    } else if |init| == 1 {
      assert s == [init[0], last];
      assert s[1..] == [last];
    } else {
      assert s == [last];
    }
  }

  /** A directory requested with a trailing `/` is answered by
      `HandleDir`. */
  lemma DirectoryHandled(fs: Fs, opts: Options, p: string)
    requires Uri.DecodeURIComponent(p).Success?
    requires var d := Uri.DecodeURIComponent(p).value;
      (Key(d) in fs && fs[Key(d)].Dir? && EndsWith(PosixPath.JoinRoot(d), "/"))
    ensures var d := Uri.DecodeURIComponent(p).value;
      Handle(fs, opts, p) == HandleDir(fs, opts, PosixPath.JoinRoot(d), Key(d), fs[Key(d)].entries)
  {
  }

  /** The first index name that is a file entry is sent, with the type of
      its extension. */
  lemma IndexFound(fs: Fs, opts: Options, pathname: string, key: seq<string>, entries: seq<Dirent>, name: string, size: nat)
    requires PosixPath.AllNames(key) && PosixPath.IsName(name)
    requires opts.index.Arr? && |opts.index.items| > 0
    requires FindIndex(opts.index.items, FileNames(entries)) == Some(name)
    requires key + [name] in fs && fs[key + [name]] == File(size)
    ensures HandleDir(fs, opts, pathname, key, entries) == Done(SendFile(MimeOf(PosixPath.ExtOfName(name)), size))
  {
    PosixPath.ResolveName(key, name);
    PosixPath.ExtNameUnder("", name);
    assert "" + name == name;
  }

  /** A directory holding a file named by the only index entry is answered
      with that file, typed by its extension. */
  lemma IndexPageServed(fs: Fs, opts: Options, p: string, name: string, size: nat)
    requires opts.index == Arr([Str(name)]) && PosixPath.IsName(name)
    requires Uri.DecodeURIComponent(p).Success?
    requires var d := Uri.DecodeURIComponent(p).value; var key := Key(d);
      key in fs && fs[key].Dir? && EndsWith(PosixPath.JoinRoot(d), "/")
      && Dirent(name, FileKind) in fs[key].entries
      && key + [name] in fs && fs[key + [name]] == File(size)
    ensures Handle(fs, opts, p) == Done(SendFile(MimeOf(PosixPath.ExtOfName(name)), size))
  {
    var d := Uri.DecodeURIComponent(p).value;
    var key := Key(d);
    var entries := fs[key].entries;
    DirectoryHandled(fs, opts, p);
    IndexNameFound(entries, name);
    IndexFound(fs, opts, PosixPath.JoinRoot(d), key, entries, name, size);
  }

  /** With the default options an `index.html` page is sent as `text/html`. */
  lemma DefaultIndexPage(fs: Fs, p: string, size: nat)
    requires Uri.DecodeURIComponent(p).Success?
    requires var d := Uri.DecodeURIComponent(p).value; var key := Key(d);
      key in fs && fs[key].Dir? && EndsWith(PosixPath.JoinRoot(d), "/")
      && Dirent("index.html", FileKind) in fs[key].entries
      && key + ["index.html"] in fs && fs[key + ["index.html"]] == File(size)
    ensures Serve(fs, None, p) == Replied(SendFile("text/html", size))
  {
    var opts := Options(Arr([Str("index.html")]), false, false);
    StaticDefaults();
    assert PosixPath.IsName("index.html");
    IndexPageServed(fs, opts, p, "index.html", size);
    IndexHtmlType();
    ServeDone(fs, None, p, opts, SendFile("text/html", size));
  }

  lemma ServeDone(fs: Fs, given: Option<Config>, p: string, opts: Options, reply: Reply)
    requires StaticOptions(given) == opts && Handle(fs, opts, p) == Done(reply)
    ensures Serve(fs, given, p) == Replied(reply)
  {
  }

  lemma IndexHtmlType()
    ensures MimeOf(PosixPath.ExtOfName("index.html")) == "text/html"
  {
    var n := "index.html";
    assert n[5] == '.' && '.' !in n[6..];
    PosixPath.LastIndexIs(n, '.', 5);
    assert n[5..] == ".html";
  }

  lemma IndexNameFound(entries: seq<Dirent>, name: string)
    requires Dirent(name, FileKind) in entries
    ensures FindIndex([Str(name)], FileNames(entries)) == Some(name)
  {
    var k :| 0 <= k < |entries| && entries[k] == Dirent(name, FileKind);
    assert name in FileNames(entries);
  }

  /** A listing is produced only when `dirIndex` is on and no index page
      matched; it is titled with the directory's path without its trailing
      `/`, and it lists the directory's entries. */
  lemma ListingWhen(fs: Fs, opts: Options, p: string)
    requires Handle(fs, opts, p).Done? && Handle(fs, opts, p).value.Listing?
    ensures opts.dirIndex
    ensures var d := Uri.DecodeURIComponent(p).value; var key := Key(d);
      key in fs && fs[key].Dir?
      && Handle(fs, opts, p).value.page == DirTemplate(PosixPath.Spell(key, true), fs[key].entries)
      && Handle(fs, opts, p).value.page.title == PosixPath.Spell(key, false)
  {
    ListingFromDirectory(fs, opts, p);
    var d := Uri.DecodeURIComponent(p).value;
    var key := Key(d);
    var t := d != "" && d[|d| - 1] == '/';
    PathnameSpellsKey(d);
    if |key| > 0 {
      PosixPath.SpellEnds(key, t);
    }
    assert PosixPath.Spell(key, t) == PosixPath.Spell(key, true);
    TrimDirectoryTitle(key);
  }

  lemma ListingFromDirectory(fs: Fs, opts: Options, p: string)
    requires Handle(fs, opts, p).Done? && Handle(fs, opts, p).value.Listing?
    ensures Uri.DecodeURIComponent(p).Success?
    ensures var d := Uri.DecodeURIComponent(p).value; var key := Key(d);
      key in fs && fs[key].Dir? && EndsWith(PosixPath.JoinRoot(d), "/")
      && Handle(fs, opts, p) == HandleDir(fs, opts, PosixPath.JoinRoot(d), key, fs[key].entries)
    ensures opts.dirIndex
    ensures var d := Uri.DecodeURIComponent(p).value;
      Handle(fs, opts, p).value.page == DirTemplate(PosixPath.JoinRoot(d), fs[Key(d)].entries)
  {
  }

  /** How a settled promise ends the request. */
  lemma SettleCases(opts: Options, r: Attempt<Reply>)
    ensures Settle(opts, r) == PassOn <==> r == Raised(Code("ENOENT")) && opts.fallthrough
    ensures Settle(opts, r) == Replied(NotFound) <==> (r == Raised(Code("ENOENT")) && !opts.fallthrough) || r == Done(NotFound)
    ensures Settle(opts, r).PassError? <==> r.Raised? && r != Raised(Code("ENOENT")) && opts.fallthrough
    ensures Settle(opts, r) == Silent <==> r.Raised? && r != Raised(Code("ENOENT")) && !opts.fallthrough
    ensures r.Done? ==> Settle(opts, r) == Replied(r.value)
  {
  }
}
