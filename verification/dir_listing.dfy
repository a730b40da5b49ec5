/** The directory listing page (`dirTemplate` in lib/mini-server.js): the
    entries sorted directories first, the title without its trailing
    separator, and one link per entry. */
module DirListing {
  import opened Base
  import Uri
  import PosixPath

  datatype Kind = FileKind | DirKind | OtherKind

  /** An `fs.Dirent`: a name and what `isFile()` / `isDirectory()` say. */
  datatype Dirent = Dirent(name: string, kind: Kind)

  /** `b.isDirectory() - a.isDirectory()`, the comparator of the sort. */
  function Compare(a: Dirent, b: Dirent): int
  {
    (if b.kind == DirKind then 1 else 0) - (if a.kind == DirKind then 1 else 0)
  }

  /** Puts `x` after every element of the sorted `s` that does not compare
      above it, as a stable sort places a later element. */
  function Insert(x: Dirent, s: seq<Dirent>): (r: seq<Dirent>)
  {
    if |s| == 0 then [x]
    else if Compare(s[|s| - 1], x) > 0 then Insert(x, s[..|s| - 1]) + [s[|s| - 1]]
    else s + [x]
  }

  /** `list.sort(compare)`: a stable sort by the comparator, written as
      insertion of each entry in turn. */
  function Sort(list: seq<Dirent>): (r: seq<Dirent>)
  {
    if |list| == 0 then []
    else Insert(list[|list| - 1], Sort(list[..|list| - 1]))
  }

  function Dirs(list: seq<Dirent>): (r: seq<Dirent>)
  {
    if |list| == 0 then []
    else Dirs(list[..|list| - 1]) + (if list[|list| - 1].kind == DirKind then [list[|list| - 1]] else [])
  }

  function NonDirs(list: seq<Dirent>): (r: seq<Dirent>)
  {
    if |list| == 0 then []
    else NonDirs(list[..|list| - 1]) + (if list[|list| - 1].kind != DirKind then [list[|list| - 1]] else [])
  }

  /** `base.replace(/(?<!^)\/$/, '')`: a final `/` goes unless it is the
      whole string. */
  function TrimBase(base: string): (r: string)
  {
    if |base| > 1 && base[|base| - 1] == '/' then base[..|base| - 1] else base
  }

  /** One line of the listing: where it links, what it shows, and whether
      it carries the folder icon. */
  datatype Item = Item(href: string, text: string, folder: bool)

  function ItemOf(d: Dirent): (r: Item)
    ensures r.folder <==> d.kind == DirKind
  {
    var slash := if d.kind == DirKind then "/" else "";
    Item(Uri.EncodeURIComponent(d.name) + slash, d.name + slash, d.kind == DirKind)
  }

  function Items(list: seq<Dirent>): (r: seq<Item>)
    ensures |r| == |list|
    ensures forall k :: 0 <= k < |list| ==> r[k] == ItemOf(list[k])
  {
    if |list| == 0 then [] else [ItemOf(list[0])] + Items(list[1..])
  }

  /** The page: its title (shown in `<title>` and `<h1>`) and its items in
      display order.  The surrounding markup is fixed text. */
  datatype Page = Page(title: string, items: seq<Item>)

  /** `dirTemplate(base, list)`. */
  function DirTemplate(base: string, list: seq<Dirent>): (r: Page)
    ensures r.title == TrimBase(base)
    ensures r.items == Items(Dirs(list) + NonDirs(list))
  {
    SortDirsFirst(list);
    Page(TrimBase(base), Items(Sort(list)))
  }

  // ---------------------------------------------------------------------
  // Properties

  /** Inserting into a directories-first order keeps it: a directory goes
      after the directories, anything else after everything. */
  lemma InsertSplit(x: Dirent, ds: seq<Dirent>, os: seq<Dirent>)
    requires forall k :: 0 <= k < |ds| ==> ds[k].kind == DirKind
    requires forall k :: 0 <= k < |os| ==> os[k].kind != DirKind
    ensures x.kind == DirKind ==> Insert(x, ds + os) == ds + [x] + os
    ensures x.kind != DirKind ==> Insert(x, ds + os) == ds + os + [x]
  {
    if x.kind == DirKind {
      InsertDir(x, ds, os);
    } else if |ds + os| > 0 {
      var s := ds + os;
      assert Compare(s[|s| - 1], x) <= 0;
    }
  }

  lemma {:induction false} InsertDir(x: Dirent, ds: seq<Dirent>, os: seq<Dirent>)
    requires x.kind == DirKind
    requires forall k :: 0 <= k < |ds| ==> ds[k].kind == DirKind
    requires forall k :: 0 <= k < |os| ==> os[k].kind != DirKind
    ensures Insert(x, ds + os) == ds + [x] + os
    decreases |os|
  {
    var s := ds + os;
    if |os| == 0 {
      assert s == ds;
      if |ds| > 0 {
        assert Compare(s[|s| - 1], x) == 0;
      }
    } else {
      var init := os[..|os| - 1];
      assert s[|s| - 1] == os[|os| - 1];
      assert Compare(s[|s| - 1], x) == 1;
      assert s[..|s| - 1] == ds + init;
      assert Insert(x, s) == Insert(x, ds + init) + [os[|os| - 1]];
      InsertDir(x, ds, init);
      Snoc(ds + [x], init, os);
    }
  }

  /** The sort puts the directories first and keeps the original order
      within each group. */
  lemma {:induction false} SortDirsFirst(list: seq<Dirent>)
    ensures Sort(list) == Dirs(list) + NonDirs(list)
  {
    if |list| > 0 {
      var init := list[..|list| - 1];
      var x := list[|list| - 1];
      SortDirsFirst(init);
      DirsAreDirs(init);
      InsertSplit(x, Dirs(init), NonDirs(init));
    }
  }

  lemma {:induction false} DirsAreDirs(list: seq<Dirent>)
    ensures forall k :: 0 <= k < |Dirs(list)| ==> Dirs(list)[k].kind == DirKind
    ensures forall k :: 0 <= k < |NonDirs(list)| ==> NonDirs(list)[k].kind != DirKind
  {
    if |list| > 0 {
      DirsAreDirs(list[..|list| - 1]);
    }
  }

  lemma Snoc<T>(a: seq<T>, init: seq<T>, s: seq<T>)
    requires |s| > 0 && init == s[..|s| - 1]
    ensures a + init + [s[|s| - 1]] == a + s
  {
    assert init + [s[|s| - 1]] == s;
  }

  lemma {:induction false} InsertPermutes(x: Dirent, s: seq<Dirent>)
    ensures multiset(Insert(x, s)) == multiset(s) + multiset{x}
    decreases |s|
  {
    if |s| > 0 && Compare(s[|s| - 1], x) > 0 {
      InsertPermutes(x, s[..|s| - 1]);
      assert s == s[..|s| - 1] + [s[|s| - 1]];
    }
  }

  /** The sorted list holds the same entries, as often as before. */
  lemma {:induction false} SortPermutes(list: seq<Dirent>)
    ensures multiset(Sort(list)) == multiset(list)
  {
    if |list| > 0 {
      SortPermutes(list[..|list| - 1]);
      InsertPermutes(list[|list| - 1], Sort(list[..|list| - 1]));
      assert list == list[..|list| - 1] + [list[|list| - 1]];
    }
  }

  /** The listing of a directory reached as `/a/b/` is titled `/a/b`; the
      root stays `/`. */
  lemma TrimDirectoryTitle(segs: seq<string>)
    requires PosixPath.AllNames(segs)
    ensures TrimBase(PosixPath.Spell(segs, true)) == PosixPath.Spell(segs, false)
  {
    if |segs| > 0 {
      var j := Join(segs, "/");
      assert PosixPath.Spell(segs, true) == "/" + j + "/";
      assert ("/" + j + "/")[..|"/" + j + "/"| - 1] == "/" + j + "";
    }
  }

  /** A title without a trailing separator is left as it is. */
  lemma TrimKeeps(base: string)
    requires base == "" || base[|base| - 1] != '/' || base == "/"
    ensures TrimBase(base) == base
  {
  }

  /** Every link decodes back to the entry's name, stays inside the listed
      directory (the encoded name holds no `/`), and a directory's link ends
      with `/` so that it is requested as a directory. */
  lemma ItemLink(d: Dirent)
    ensures var it := ItemOf(d); var n := |Uri.EncodeURIComponent(d.name)|;
      n <= |it.href|
      && Uri.DecodeURIComponent(it.href[..n]) == Success(d.name)
      && '/' !in it.href[..n]
      && (d.kind == DirKind <==> it.href[n..] == "/")
  {
    var e := Uri.EncodeURIComponent(d.name);
    var it := ItemOf(d);
    assert it.href[..|e|] == e;
    Uri.DecodeEncodeURIComponent(d.name);
    Uri.EncodeURIComponentAlphabet(d.name);
    assert !Uri.Unreserved('/') && '/' !in Uri.HexDigits;
  }
}
