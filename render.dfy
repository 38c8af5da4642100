/** The `render_md` view (app.py): the folder listing built when a folder
    has no README.md, and the page the view returns. */
module Render {
  import opened Strings
  import opened Sorting
  import opened Site
  import opened Titles
  import opened LinkRewrite
  import opened Resolution

  /** The names whose `os.path.join(folder, d)` is a directory, in order */
  function SubdirNames(t: Tree, folder: string, names: seq<string>): (r: seq<string>)
    ensures forall d :: d in r <==> d in names && IsDir(t, Join(folder, d))
    ensures |r| <= |names|
    ensures |names| == 1 ==> r == if IsDir(t, Join(folder, names[0])) then names else []
    decreases |names|
  {
    if names == [] then []
    else
      var init := names[..|names| - 1];
      var d := names[|names| - 1];
      assert names == init + [d];
      var r := SubdirNames(t, folder, init);
      if IsDir(t, Join(folder, d)) then r + [d] else r
  }

  /** Keeping only the subfolders keeps a sorted list sorted. */
  lemma {:induction false} SubdirNamesSorted(t: Tree, folder: string, names: seq<string>)
    requires Sorted(names)
    ensures Sorted(SubdirNames(t, folder, names))
    decreases |names|
  {
    if names != [] {
      var init := names[..|names| - 1];
      var d := names[|names| - 1];
      assert names == init + [d];
      SubdirNamesSorted(t, folder, init);
      var r := SubdirNames(t, folder, init);
      assert forall x :: x in r ==> Le(x, d) by {
        forall x | x in r ensures Le(x, d) {
          var i :| 0 <= i < |init| && init[i] == x;
          assert names[i] == x;
        }
      }
    }
  }

  /** The filter looks at each name on its own and keeps the order of the
      names it keeps. */
  lemma {:induction false} SubdirNamesConcat(t: Tree, folder: string, a: seq<string>, b: seq<string>)
    ensures SubdirNames(t, folder, a + b) == SubdirNames(t, folder, a) + SubdirNames(t, folder, b)
    decreases |b|
  {
    if b == [] {
      assert a + b == a;
    } else {
      var init := b[..|b| - 1];
      assert (a + b)[..|a + b| - 1] == a + init;
      assert (a + b)[|a + b| - 1] == b[|b| - 1];
      SubdirNamesConcat(t, folder, a, init);
    }
  }

  lemma SubdirNamesStep(t: Tree, folder: string, names: seq<string>, i: nat)
    requires i < |names|
    ensures SubdirNames(t, folder, names[..i + 1]) ==
            SubdirNames(t, folder, names[..i]) + (if IsDir(t, Join(folder, names[i])) then [names[i]] else [])
  {
    assert names[..i + 1][..i] == names[..i];
  }

  lemma LinksForAppend(p: string, names: seq<string>, name: string)
    ensures LinksFor(p, names + [name]) == LinksFor(p, names) + [EntryLink(p, name)]
  {
  }

  lemma StemsStep(names: seq<string>, j: nat)
    requires j < |names|
    ensures Stems(names[..j + 1]) == Stems(names[..j]) + [StemOf(names[j])]
  {
  }

  /** What `glob('*.md')` matches: a name ending in ".md" that is not hidden */
  predicate IsMdGlobMatch(name: string) {
    EndsWith(name, ".md") && !StartsWith(name, ".")
  }

  /** The names `glob.glob(os.path.join(folder, '*.md'))` finds, in listing order */
  function MdNames(names: seq<string>): (r: seq<string>)
    ensures forall n :: n in r <==> n in names && IsMdGlobMatch(n)
    ensures |r| <= |names|
    decreases |names|
  {
    if names == [] then []
    else
      var init := names[..|names| - 1];
      assert names == init + [names[|names| - 1]];
      if IsMdGlobMatch(names[|names| - 1]) then MdNames(init) + [names[|names| - 1]]
      else MdNames(init)
  }

  /** Each name occurs among the glob matches as often as it occurs among
      the names when it matches, and not at all otherwise. */
  lemma {:induction false} MdNamesCount(names: seq<string>, x: string)
    ensures multiset(MdNames(names))[x] == if IsMdGlobMatch(x) then multiset(names)[x] else 0
    decreases |names|
  {
    if names != [] {
      var init := names[..|names| - 1];
      assert names == init + [names[|names| - 1]];
      MdNamesCount(init, x);
    }
  }

  lemma MdNamesIgnoresOrder(a: seq<string>, b: seq<string>)
    requires multiset(a) == multiset(b)
    ensures multiset(MdNames(a)) == multiset(MdNames(b))
  {
    forall x ensures multiset(MdNames(a))[x] == multiset(MdNames(b))[x] {
      MdNamesCount(a, x);
      MdNamesCount(b, x);
    }
  }

  /** `os.path.splitext(os.path.basename(f))[0]` for a glob match f */
  function StemOf(name: string): (r: string)
    ensures IsMdGlobMatch(name) ==> r + ".md" == name
    ensures !IsMdGlobMatch(name) ==> r == name
  {
    if IsMdGlobMatch(name) then name[..|name| - 3] else name
  }

  /** The glob returns `folder/name` paths, and `sorted` orders them as it
      orders their names, because they share the folder prefix. */
  lemma GlobOrderIsNameOrder(folder: string, a: string, b: string)
    requires !StartsWith(a, "/") && !StartsWith(b, "/")
    ensures Le(Join(folder, a), Join(folder, b)) <==> Le(a, b)
  {
    if folder == [] || EndsWith(folder, "/") {
      LeCommonPrefix(folder, a, b);
    } else {
      assert Join(folder, a) == (folder + "/") + a && Join(folder, b) == (folder + "/") + b;
      LeCommonPrefix(folder + "/", a, b);
    }
  }

  /** The file a glob match names is the folder's child, so its base name is the name. */
  lemma GlobBaseName(folder: string, name: string)
    requires folder != [] && !EndsWith(folder, "/") && ValidName(name)
    ensures LastSegment(Join(folder, name)) == name
  {
    LastSegmentAfterSlash(folder, name);
  }

  /** One entry of `links`: its title, and the URL of `md_path/name` */
  function EntryLink(p: string, name: string): Link {
    Link(EntryTitle(name), UrlFor(ReplaceChar(p + "/" + name, '\\', '/')))
  }

  /** A link's title has the name's length and no '-'; its URL has no
      backslash, and is the URL of `md_path/name` when neither holds one. */
  lemma EntryLinkFacts(p: string, name: string)
    ensures var l := EntryLink(p, name);
            |l.name| == |name| && '-' !in l.name && '\\' !in l.url &&
            ('\\' !in p + name ==> l.url == UrlFor(p + "/" + name))
  {
    assert '\\' !in p + name ==> '\\' !in p + "/" + name;
    var path := ReplaceChar(p + "/" + name, '\\', '/');
    assert '\\' !in "/books/";
  }

  /** The link of each name, in order */
  function LinksFor(p: string, names: seq<string>): seq<Link> {
    seq(|names|, k requires 0 <= k < |names| => EntryLink(p, names[k]))
  }

  /** The stem of each name, in order */
  function Stems(names: seq<string>): seq<string> {
    seq(|names|, k requires 0 <= k < |names| => StemOf(names[k]))
  }

  /** The subfolders a listing links to, in the order of the first loop */
  function ListedDirs(t: Tree, p: string): seq<string>
    requires ValidRequestPath(p) && IsDir(t, FolderPath(p))
  {
    SubdirNames(t, FolderPath(p), Sort(t[FolderPath(p)].entries))
  }

  /** The Markdown files a listing links to, in the order of the second loop */
  function ListedFiles(t: Tree, p: string): seq<string>
    requires ValidRequestPath(p) && IsDir(t, FolderPath(p))
  {
    Sort(MdNames(t[FolderPath(p)].entries))
  }

  /** The links of a folder without README.md: its subfolders, then its
      Markdown files */
  function Listing(t: Tree, p: string): seq<Link>
    requires ValidRequestPath(p) && IsDir(t, FolderPath(p))
  {
    LinksFor(p, ListedDirs(t, p)) + LinksFor(p, Stems(ListedFiles(t, p)))
  }

  /** The first loop of the listing branch: a link per subfolder, in sorted order */
  method SubfolderLinks(t: Tree, p: string, folder: string, names: seq<string>) returns (links: seq<Link>)
    ensures links == LinksFor(p, SubdirNames(t, folder, names))
  {
    links := [];
    var i := 0;
    while i < |names|
      invariant 0 <= i <= |names|
      invariant links == LinksFor(p, SubdirNames(t, folder, names[..i]))
    {
      var d := names[i];
      SubdirNamesStep(t, folder, names, i);
      if IsDir(t, Join(folder, d)) {
        LinksForAppend(p, SubdirNames(t, folder, names[..i]), d);
        links := links + [EntryLink(p, d)];
      }
      i := i + 1;
    }
    assert names[..i] == names;
  }

  /** The second loop: `links` grows by a link per Markdown file, in sorted order */
  method AppendFileLinks(p: string, files: seq<string>, prefix: seq<Link>) returns (links: seq<Link>)
    ensures links == prefix + LinksFor(p, Stems(files))
  {
    links := prefix;
    var j := 0;
    while j < |files|
      invariant 0 <= j <= |files|
      invariant links == prefix + LinksFor(p, Stems(files[..j]))
    {
      var name := StemOf(files[j]);
      StemsStep(files, j);
      LinksForAppend(p, Stems(files[..j]), name);
      links := links + [EntryLink(p, name)];
      j := j + 1;
    }
    assert files[..j] == files;
  }

  /** The listing branch of `render_md` */
  method FolderLinks(t: Tree, p: string) returns (links: seq<Link>)
    requires ValidRequestPath(p) && IsDir(t, FolderPath(p))
    ensures links == Listing(t, p)
  {
    var folder := FolderPath(p);
    links := SubfolderLinks(t, p, folder, Sort(t[folder].entries));
    links := AppendFileLinks(p, Sort(MdNames(t[folder].entries)), links);
  }

  lemma SortKeepsMembers(s: seq<string>)
    ensures forall x :: x in Sort(s) <==> x in s
  {
    assert forall x :: x in Sort(s) <==> x in multiset(Sort(s));
  }

  /** The first group of a listing is exactly the folder's subfolders, sorted. */
  lemma ListedDirsExact(t: Tree, p: string)
    requires ValidRequestPath(p) && IsDir(t, FolderPath(p))
    ensures Sorted(ListedDirs(t, p))
    ensures forall d :: d in ListedDirs(t, p) <==>
              d in t[FolderPath(p)].entries && IsDir(t, Join(FolderPath(p), d))
  {
    var entries := t[FolderPath(p)].entries;
    SortKeepsMembers(entries);
    SubdirNamesSorted(t, FolderPath(p), Sort(entries));
  }

  /** The second group is exactly the folder's glob matches, sorted. */
  lemma ListedFilesExact(t: Tree, p: string)
    requires ValidRequestPath(p) && IsDir(t, FolderPath(p))
    ensures Sorted(ListedFiles(t, p))
    ensures forall n :: n in ListedFiles(t, p) <==> n in t[FolderPath(p)].entries && IsMdGlobMatch(n)
  {
    SortKeepsMembers(MdNames(t[FolderPath(p)].entries));
  }

  /** A listing has one link per subfolder and one per Markdown file. */
  lemma ListingLength(t: Tree, p: string)
    requires ValidRequestPath(p) && IsDir(t, FolderPath(p))
    ensures |Listing(t, p)| == |ListedDirs(t, p)| + |ListedFiles(t, p)|
  {
    LinksConcat(p, ListedDirs(t, p), ListedFiles(t, p));
  }

  /** The subfolder links come first, in the order of the sorted names. */
  lemma ListingDirsFirst(t: Tree, p: string)
    requires ValidRequestPath(p) && IsDir(t, FolderPath(p))
    ensures forall k :: 0 <= k < |ListedDirs(t, p)| ==> Listing(t, p)[k] == EntryLink(p, ListedDirs(t, p)[k])
  {
    LinksConcat(p, ListedDirs(t, p), ListedFiles(t, p));
  }

  /** The file links follow all subfolder links, each linking to the stem. */
  lemma ListingFilesAfter(t: Tree, p: string)
    requires ValidRequestPath(p) && IsDir(t, FolderPath(p))
    ensures forall j :: 0 <= j < |ListedFiles(t, p)| ==>
              Listing(t, p)[|ListedDirs(t, p)| + j] == EntryLink(p, StemOf(ListedFiles(t, p)[j]))
  {
    LinksConcat(p, ListedDirs(t, p), ListedFiles(t, p));
  }

  lemma LinksConcat(p: string, dirs: seq<string>, files: seq<string>)
    ensures var l := LinksFor(p, dirs) + LinksFor(p, Stems(files));
            |l| == |dirs| + |files| &&
            (forall k :: 0 <= k < |dirs| ==> l[k] == EntryLink(p, dirs[k])) &&
            (forall k :: |dirs| <= k < |l| ==> l[k] == EntryLink(p, StemOf(files[k - |dirs|])))
  {
  }

  /** Titles in a listing hold no '-', and its URLs no backslash. */
  lemma ListingTitlesHaveNoDash(t: Tree, p: string)
    requires ValidRequestPath(p) && IsDir(t, FolderPath(p))
    ensures forall l :: l in Listing(t, p) ==> '-' !in l.name && '\\' !in l.url
  {
    ListingLength(t, p);
    ListingDirsFirst(t, p);
    ListingFilesAfter(t, p);
    var dirs := ListedDirs(t, p);
    var files := ListedFiles(t, p);
    forall l | l in Listing(t, p) ensures '-' !in l.name && '\\' !in l.url {
      var k :| 0 <= k < |Listing(t, p)| && Listing(t, p)[k] == l;
      if k < |dirs| {
        EntryLinkFacts(p, dirs[k]);
      } else {
        var j := k - |dirs|;
        assert Listing(t, p)[|dirs| + j] == l;
        EntryLinkFacts(p, StemOf(files[j]));
      }
    }
  }

  /** The listing does not depend on the order in which `os.listdir`
      returns the folder's entries. */
  lemma ListingIgnoresListdirOrder(t: Tree, p: string, entries: seq<string>)
    requires ValidRequestPath(p) && IsDir(t, FolderPath(p))
    requires multiset(entries) == multiset(t[FolderPath(p)].entries)
    ensures Listing(t[FolderPath(p) := Dir(entries)], p) == Listing(t, p)
  {
    var folder := FolderPath(p);
    var t' := t[folder := Dir(entries)];
    SortIgnoresOrder(entries, t[folder].entries);
    MdNamesIgnoresOrder(entries, t[folder].entries);
    SortIgnoresOrder(MdNames(entries), MdNames(t[folder].entries));
    SubdirsSameTree(t, t', folder, Sort(entries));
  }

  lemma {:induction false} SubdirsSameTree(t: Tree, t': Tree, folder: string, names: seq<string>)
    requires forall q :: IsDir(t, q) <==> IsDir(t', q)
    ensures SubdirNames(t, folder, names) == SubdirNames(t', folder, names)
    decreases |names|
  {
    if names != [] {
      SubdirsSameTree(t, t', folder, names[..|names| - 1]);
    }
  }

  /** The requested path of a listed entry, when it and the names hold no backslash */
  lemma ListedLinkRoutes(p: string, name: string)
    requires ValidRequestPath(p) && '\\' !in p + name
    ensures RouteOf(EntryLink(p, name).url) == Some(p + "/" + name)
  {
    EntryLinkFacts(p, name);
    RouteOfUrlFor(p + "/" + name);
  }

  /** In a well-formed tree, following the link of a listed subfolder
      requests that subfolder, which never gives a 404. */
  lemma SubfolderLinkResolves(t: Tree, p: string, d: string)
    requires Wf(t) && ValidRequestPath(p) && !EndsWith(p, "/") && IsDir(t, FolderPath(p))
    requires d in ListedDirs(t, p) && '\\' !in p + d
    ensures RouteOf(EntryLink(p, d).url) == Some(p + "/" + d)
    ensures !Resolve(t, p + "/" + d).Missing?
  {
    ListedDirIsEntry(t, p, d);
    SubfolderPathIsDir(t, p, d);
    ListedLinkRoutes(p, d);
    FolderNeverMissing(t, p + "/" + d);
  }

  lemma ListedDirIsEntry(t: Tree, p: string, d: string)
    requires ValidRequestPath(p) && IsDir(t, FolderPath(p))
    requires d in ListedDirs(t, p)
    ensures d in t[FolderPath(p)].entries && IsDir(t, Join(FolderPath(p), d))
  {
    ListedDirsExact(t, p);
  }

  lemma SubfolderPathIsDir(t: Tree, p: string, d: string)
    requires Wf(t) && ValidRequestPath(p) && !EndsWith(p, "/") && IsDir(t, FolderPath(p))
    requires d in t[FolderPath(p)].entries && IsDir(t, Join(FolderPath(p), d))
    ensures ValidRequestPath(p + "/" + d) && IsDir(t, FolderPath(p + "/" + d))
  {
    var folder := FolderPath(p);
    var q := p + "/" + d;
    assert ValidName(d);
    assert folder[|folder| - 1] == p[|p| - 1];
    JoinChild(folder, d);
    assert FolderPath(q) == folder + "/" + d;
    assert q[0] == p[0];
  }

  /** In a well-formed tree, following the link of a listed Markdown file
      never gives a 404, and renders that file, under a title equal to the
      link's name, unless a subfolder with the same stem takes precedence.
      The stem must hold no ".md": the page title removes every ".md", and a
      stem ending in ".md" would be requested verbatim. */
  lemma FileLinkResolves(t: Tree, p: string, n: string)
    requires Wf(t) && ValidRequestPath(p) && !EndsWith(p, "/") && IsDir(t, FolderPath(p))
    requires n in ListedFiles(t, p) && '\\' !in p + n && !Contains(StemOf(n), ".md")
    ensures var stem := StemOf(n); var q := p + "/" + stem;
            RouteOf(EntryLink(p, stem).url) == Some(q) &&
            !Resolve(t, q).Missing? &&
            (!IsDir(t, FolderPath(q)) ==>
               Resolve(t, q) == RenderFile(Child(FolderPath(p), n)) &&
               DocTitle(Child(FolderPath(p), n)) == EntryLink(p, stem).name)
  {
    ListedFilesExact(t, p);
    var folder := FolderPath(p);
    var stem := StemOf(n);
    assert n == stem + ".md";
    assert '\\' !in p + stem by {
      assert forall c :: c in p + stem ==> c in p + n;
    }
    ListedLinkRoutes(p, stem);
    var q := p + "/" + stem;
    assert FolderPath(q) == folder + "/" + stem;
    assert ValidName(n) && Child(folder, n) in t;
    assert folder + "/" + stem + ".md" == Child(folder, n);
    assert stem != [] by {
      assert n[|stem|] == '.' && n[..1] != ".";
    }
    assert !EndsWith(stem, ".md") by {
      if EndsWith(stem, ".md") { EndsWithContains(stem, ".md"); }
    }
    PathOfStemNotMd(p, stem);
    if !IsDir(t, FolderPath(q)) {
      assert '/' !in stem by {
        assert forall c :: c in stem ==> c in n;
      }
      DocTitleOfStem(folder, stem);
    }
  }

  /** The body of `render_md` */
  method RenderMd(t: Tree, p: string) returns (page: Page)
    requires ValidRequestPath(p)
    ensures Resolve(t, p).RenderFile? && IsReadableFile(t, Resolve(t, p).path) ==>
              page == Document(DocTitle(Resolve(t, p).path), Rewrite(p, t[Resolve(t, p).path].content))
    ensures Resolve(t, p).RenderFile? && !IsReadableFile(t, Resolve(t, p).path) ==> page == ServerError
    ensures Resolve(t, p).ListFolder? ==> page == FolderIndex(EntryTitle(p), Listing(t, p))
    ensures Resolve(t, p).Missing? <==> page == NotFound
  {
    var folder := FolderPath(p);
    var mdFile := Candidate(t, p);
    if Exists(t, mdFile) {
      if !IsReadableFile(t, mdFile) {
        return ServerError;
      }
      var content := Rewrite(p, t[mdFile].content);
      return Document(DocTitle(mdFile), content);
    }
    if IsDir(t, folder) {
      var links := FolderLinks(t, p);
      return FolderIndex(EntryTitle(p), links);
    }
    return NotFound;
  }
}
