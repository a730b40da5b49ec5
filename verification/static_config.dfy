/** The option handling and the content-type table of the static responder
    (`copyConfig`, `defaultStaticOptions` and `MIME` in lib/mini-server.js). */
module StaticConfig {
  import opened Base
  import PosixPath

  /** The JavaScript values an option can hold.  Numbers are integers here. */
  datatype JsValue =
    | Undef
    | Null
    | Bool(b: bool)
    | Num(n: int)
    | Str(s: string)
    | Arr(items: seq<JsValue>)
    | Obj

  /** JavaScript truthiness. */
  predicate Truthy(v: JsValue)
  {
    match v
    case Undef => false
    case Null => false
    case Bool(b) => b
    case Num(n) => n != 0
    case Str(s) => s != ""
    case Arr(_) => true
    case Obj => true
  }

  /** An options object by its own property names. */
  type Config = map<string, JsValue>

  /** `defined?.[k]`: `undefined` when there is no object or no such property. */
  function Lookup(defined: Option<Config>, k: string): JsValue
  {
    if defined.Some? && k in defined.value then defined.value[k] else Undef
  }

  /** `copyConfig(defaults, defined)`: one property per property of the
      defaults, taken from `defined` unless it is `undefined` there. */
  function CopyConfig(defaults: Config, defined: Option<Config>): (r: Config)
    ensures r.Keys == defaults.Keys
    ensures forall k :: k in r && Lookup(defined, k) != Undef ==> r[k] == Lookup(defined, k)
    ensures forall k :: k in r && Lookup(defined, k) == Undef ==> r[k] == defaults[k]
  {
    map k | k in defaults :: if Lookup(defined, k) != Undef then Lookup(defined, k) else defaults[k]
  }

  /** `defaultStaticOptions`. */
  const DefaultStaticOptions: Config :=
    map["charset" := Str("utf-8"),
        "index" := Arr([Str("index.html")]),
        "dirIndex" := Bool(false),
        "exclude" := Arr([]),
        "fallthrough" := Bool(false)]

  /** The options the responder reads after copying: `charset` and `exclude`
      are destructured but never consulted, so they are not kept. */
  datatype Options = Options(index: JsValue, dirIndex: bool, fallthrough: bool)

  /** `static(base, options)`: the given options over the defaults. */
  function StaticOptions(given: Option<Config>): (r: Options)
    ensures r.index == (if Lookup(given, "index") != Undef then Lookup(given, "index") else Arr([Str("index.html")]))
    ensures r.dirIndex <==> Truthy(Lookup(given, "dirIndex"))
    ensures r.fallthrough <==> Truthy(Lookup(given, "fallthrough"))
  {
    var c := CopyConfig(DefaultStaticOptions, given);
    assert "index" in c && "dirIndex" in c && "fallthrough" in c;
    Options(c["index"], Truthy(c["dirIndex"]), Truthy(c["fallthrough"]))
  }

  /** The content types by extension. */
  const Mime: map<string, string> :=
    map[".html" := "text/html",
        ".htm" := "text/html",
        ".css" := "text/css",
        ".js" := "text/javascript",
        ".json" := "application/json",
        ".ts" := "application/typescript",
        ".ico" := "image/x-icon",
        ".txt" := "text/plain",
        ".log" := "text/plain",
        ".md" := "text/markdown",
        ".xml" := "application/xml",
        ".jpg" := "image/jpeg",
        ".jpeg" := "image/jpeg",
        ".png" := "image/png",
        ".svg" := "image/svg+xml",
        ".sh" := "application/x-sh",
        ".gif" := "image/gif",
        ".bmp" := "image/bmp",
        ".zip" := "application/x-compressed-zip",
        ".tar" := "application/x-tar",
        ".gz" := "application/x-gzip",
        ".bz2" := "application/x-bzip2",
        ".7z" := "application/x-7z-compressed",
        ".pdf" := "application/pdf",
        ".doc" := "application/msword",
        ".xls" := "application/vnd.ms-excel",
        ".ppt" := "application/vnd.ms-powerpoint"]

  const DefaultMime: string := "application/octet-stream"

  /** `MIME?.[ext] ?? 'application/octet-stream'`: an extension gets the
      generic binary type exactly when the table does not know it, and
      every type returned is of the form `type/subtype`. */
  function MimeOf(ext: string): (r: string)
    ensures ext in Mime ==> r == Mime[ext]
    ensures r == DefaultMime <==> ext !in Mime
    ensures MediaType(r)
  {
    MimeTableTypes();
    if ext in Mime then Mime[ext] else DefaultMime
  }

  /** A media type `type/subtype`: a `/` with text on both sides. */
  predicate MediaType(t: string)
  {
    |t| > 2 && '/' in t && t[0] != '/' && t[|t| - 1] != '/'
  }

  /** Every table entry is a media type other than the generic one. */
  lemma MimeTableTypes()
    ensures MediaType(DefaultMime)
    ensures forall e :: e in Mime ==> MediaType(Mime[e]) && Mime[e] != DefaultMime
  {
    MimeTableShapes();
    MimeTableSpecific();
  }

  lemma MimeTableShapes()
    ensures forall e :: e in Mime ==> MediaType(Mime[e])
  {
  }

  lemma MimeTableSpecific()
    ensures forall e :: e in Mime ==> Mime[e] != DefaultMime
  {
  }

  // ---------------------------------------------------------------------
  // Properties

  /** Options the caller leaves out, or passes as `undefined`, keep their
      defaults; no option outside the defaults survives the copy. */
  lemma CopyConfigDefaults(defaults: Config, defined: Option<Config>)
    ensures CopyConfig(defaults, None) == defaults
    ensures forall k :: k in CopyConfig(defaults, defined) ==> k in defaults
  {
  }

  /** Copying a copied configuration again changes nothing. */
  lemma CopyConfigIdempotent(defaults: Config, defined: Option<Config>)
    requires forall k :: k in defaults ==> defaults[k] != Undef
    ensures CopyConfig(defaults, Some(CopyConfig(defaults, defined))) == CopyConfig(defaults, defined)
  {
    var c := CopyConfig(defaults, defined);
    var d := CopyConfig(defaults, Some(c));
    assert forall k :: k in c ==> c[k] != Undef;
    assert forall k :: k in d ==> d[k] == c[k];
  }

  /** With no options: the index page is `index.html`, listings are off and
      misses answer 404. */
  lemma StaticDefaults()
    ensures StaticOptions(None) == Options(Arr([Str("index.html")]), false, false)
  {
  }

  /** Every key of the table is an extension `extname` can return: a dot
      followed by dot-free text.  Hence no prototype property such as
      `constructor` can be picked up. */
  lemma MimeKeysAreExtensions()
    ensures forall e :: e in Mime ==> |e| > 1 && e[0] == '.' && '.' !in e[1..]
  {
  }

  /** The type a file is served with comes from its last extension. */
  lemma MimeOfName(stem: string, ext: string)
    requires stem != "" && stem + ext != ".." && ext in Mime
    ensures MimeOf(PosixPath.ExtOfName(stem + ext)) == Mime[ext]
  {
    MimeKeysAreExtensions();
    PosixPath.ExtOfNameSplit(stem, ext);
  }

  /** A name without an extension, or a dot-file, is sent as raw bytes. */
  lemma MimeOfPlainName(name: string)
    requires |name| > 0 ==> '.' !in name[1..]
    ensures MimeOf(PosixPath.ExtOfName(name)) == DefaultMime
  {
    PosixPath.ExtOfNameNone(name);
  }
}
