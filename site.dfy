/** The document tree under `books/`, as the site sees it through `os.path`,
    and the URLs the site gives to logical paths. */
module Site {
  import opened Strings

  /** One entry of the tree. A directory carries the names `os.listdir`
      returns for it, in the order it returns them; a file carries its
      decoded text and whether opening and decoding it succeeds. */
  datatype Node = Dir(entries: seq<string>) | File(content: string, readable: bool)

  /** Paths (slash-separated, relative to the working directory) to entries */
  type Tree = map<string, Node>

  const Root: string := "books"

  /** `os.path.isdir(p)` */
  predicate IsDir(t: Tree, p: string) {
    p in t && t[p].Dir?
  }

  /** `os.path.exists(p)` */
  predicate Exists(t: Tree, p: string) {
    p in t
  }

  /** `open(p, encoding='utf-8').read()` succeeds */
  predicate IsReadableFile(t: Tree, p: string) {
    p in t && t[p].File? && t[p].readable
  }

  /** `os.path.join(a, b)` on POSIX */
  function Join(a: string, b: string): string {
    if StartsWith(b, "/") then b
    else if a == [] || EndsWith(a, "/") then a + b
    else a + "/" + b
  }

  /** An absolute `b` replaces `a`; otherwise the join is `a`, then one '/'
      exactly when `a` is not empty and does not already end in one, then `b`. */
  lemma JoinParts(a: string, b: string)
    ensures StartsWith(b, "/") ==> Join(a, b) == b
    ensures !StartsWith(b, "/") ==>
              var r := Join(a, b);
              |a| + |b| <= |r| <= |a| + |b| + 1 && r[..|a|] == a && r[|r| - |b|..] == b &&
              (|r| == |a| + |b| + 1 <==> a != [] && !EndsWith(a, "/")) &&
              (|r| == |a| + |b| + 1 ==> r[|a|] == '/')
  {
    if !StartsWith(b, "/") && a != [] && !EndsWith(a, "/") {
      var r := a + "/" + b;
      assert r[..|a|] == a && r[|r| - |b|..] == b;
    }
  }

  /** A name as `os.listdir` returns it */
  predicate ValidName(n: string) {
    n != [] && '/' !in n
  }

  function Child(dir: string, name: string): string {
    dir + "/" + name
  }

  lemma JoinChild(dir: string, name: string)
    requires dir != [] && !EndsWith(dir, "/") && ValidName(name)
    ensures Join(dir, name) == Child(dir, name)
  {
  }

  predicate NoDuplicates<T(==)>(s: seq<T>) {
    forall i, j :: 0 <= i < j < |s| ==> s[i] != s[j]
  }

  /** Every directory lists exactly its children, each once */
  ghost predicate Wf(t: Tree) {
    forall d :: d in t && t[d].Dir? ==>
      NoDuplicates(t[d].entries) &&
      forall n :: n in t[d].entries <==> ValidName(n) && Child(d, n) in t
  }

  /** `url_for('render_md', md_path=p)`, without percent-encoding */
  function UrlFor(p: string): string {
    "/books/" + p
  }

  /** The route `/books/<path:md_path>`: the request path a URL carries */
  function RouteOf(url: string): (r: Option<string>)
    ensures r.Some? ==> UrlFor(r.value) == url && r.value != [] && r.value[0] != '/'
  {
    var prefix := "/books/";
    if StartsWith(url, prefix) && |url| > |prefix| && url[|prefix|] != '/' then
      assert url == prefix + url[|prefix|..];
      Some(url[|prefix|..])
    else None
  }

  /** The path converter accepts a path that is not empty and does not start with '/'. */
  predicate ValidRequestPath(p: string) {
    p != [] && p[0] != '/'
  }

  /** Routing a generated URL gives back the path it was made from. */
  lemma RouteOfUrlFor(p: string)
    requires ValidRequestPath(p)
    ensures RouteOf(UrlFor(p)) == Some(p)
  {
    assert UrlFor(p)[..7] == "/books/";
    assert UrlFor(p)[7..] == p;
  }

  /** `os.path.join('books', p)` for a routed request path */
  function FolderPath(p: string): (r: string)
    requires ValidRequestPath(p)
    ensures r == Root + "/" + p
  {
    Join(Root, p)
  }

  /** A request path ending in a stem that does not end in ".md" does not end in ".md" either. */
  lemma PathOfStemNotMd(p: string, stem: string)
    requires stem != [] && !EndsWith(stem, ".md")
    ensures !EndsWith(p + "/" + stem, ".md")
  {
    var q := p + "/" + stem;
    if |stem| >= 3 {
      assert q[|q| - 3..] == stem[|stem| - 3..];
    } else {
      assert q[|q| - |stem| - 1] == '/';
    }
  }
}
