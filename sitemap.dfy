/** The `sitemap` view (app.py): every book folder under `books/` with the
    sub-folders and Markdown files directly inside it. */
module SiteMap {
  import opened Strings
  import opened Sorting
  import opened Site
  import opened Titles
  import opened Resolution
  import opened Filtering

  datatype Chapter = Chapter(title: string, path: string)

  /** One key of `books_dict` with its value */
  datatype Book = Book(title: string, chapters: seq<Chapter>)

  /** `item.lower() == 'readme.md'` */
  predicate IsReadme(item: string) {
    LowerStr(item) == "readme.md"
  }

  /** `os.path.join(books_dir, book_folder)` */
  function BookPath(bookFolder: string): string {
    Join(Root, bookFolder)
  }

  /** The chapter the inner loop appends for one item of a book, if any:
      a folder keeps its name, a Markdown file other than a readme loses
      every ".md" */
  function ChapterFor(t: Tree, bookFolder: string, item: string): (r: Option<Chapter>)
    ensures r.Some? <==> IsDir(t, Join(BookPath(bookFolder), item)) || (EndsWith(item, ".md") && !IsReadme(item))
    ensures r.Some? ==> StartsWith(r.value.path, bookFolder + "/") && '-' !in r.value.title
    ensures IsDir(t, Join(BookPath(bookFolder), item)) ==>
              r == Some(Chapter(EntryTitle(item), bookFolder + "/" + item))
    ensures !IsDir(t, Join(BookPath(bookFolder), item)) && r.Some? ==>
              r.value == Chapter(ChapterTitle(item), bookFolder + "/" + ReplaceAll(item, ".md", ""))
  {
    if IsDir(t, Join(BookPath(bookFolder), item)) then
      Some(Chapter(EntryTitle(item), bookFolder + "/" + item))
    else if EndsWith(item, ".md") && !IsReadme(item) then
      Some(Chapter(ChapterTitle(item), bookFolder + "/" + ReplaceAll(item, ".md", "")))
    else None
  }

  /** The `chapters` list the inner loop builds from the given items */
  function BookChapters(t: Tree, bookFolder: string, items: seq<string>): (r: seq<Chapter>)
    ensures |r| <= |items|
    decreases |items|
  {
    if items == [] then []
    else
      var prev := BookChapters(t, bookFolder, items[..|items| - 1]);
      match ChapterFor(t, bookFolder, items[|items| - 1])
      case None => prev
      case Some(c) => prev + [c]
  }

  /** Every chapter of a book links below that book, under a title without '-'. */
  lemma {:induction false} ChaptersBelowBook(t: Tree, bookFolder: string, items: seq<string>)
    ensures forall c :: c in BookChapters(t, bookFolder, items) ==>
              StartsWith(c.path, bookFolder + "/") && '-' !in c.title
    decreases |items|
  {
    if items != [] {
      ChaptersBelowBook(t, bookFolder, items[..|items| - 1]);
    }
  }

  /** The inner loop body for one item, as a function of the item */
  function ChapterFn(t: Tree, bookFolder: string): string -> Option<Chapter> {
    item => ChapterFor(t, bookFolder, item)
  }

  /** The inner loop is the generic keep-the-defined-values loop. */
  lemma {:induction false} BookChaptersKeepSome(t: Tree, bookFolder: string, items: seq<string>)
    ensures BookChapters(t, bookFolder, items) == KeepSome(ChapterFn(t, bookFolder), items)
    decreases |items|
  {
    if items != [] {
      BookChaptersKeepSome(t, bookFolder, items[..|items| - 1]);
      assert ChapterFn(t, bookFolder)(items[|items| - 1]) == ChapterFor(t, bookFolder, items[|items| - 1]);
    }
  }

  /** The items of a book that become chapters, in order */
  function ChapterItems(t: Tree, bookFolder: string, items: seq<string>): (r: seq<string>)
    ensures forall x :: x in r <==> x in items && ChapterFor(t, bookFolder, x).Some?
  {
    KeptFrom(ChapterFn(t, bookFolder), items)
  }

  /** One chapter per folder or non-readme Markdown item, in item order. */
  lemma OneChapterPerItem(t: Tree, bookFolder: string, items: seq<string>)
    ensures var cs := BookChapters(t, bookFolder, items);
            var xs := ChapterItems(t, bookFolder, items);
            |cs| == |xs| && forall k :: 0 <= k < |xs| ==> Some(cs[k]) == ChapterFor(t, bookFolder, xs[k])
  {
    BookChaptersKeepSome(t, bookFolder, items);
    OnePerKept(ChapterFn(t, bookFolder), items);
  }

  /** Keeping only the chapter items keeps a sorted list sorted. */
  lemma ChapterItemsSorted(t: Tree, bookFolder: string, items: seq<string>)
    requires Sorted(items)
    ensures Sorted(ChapterItems(t, bookFolder, items))
  {
    KeptFromSorted(ChapterFn(t, bookFolder), items);
  }

  /** The chapters of a book folder, from its names in sorted order */
  function ChaptersOf(t: Tree, bookFolder: string): seq<Chapter>
    requires IsDir(t, BookPath(bookFolder))
  {
    BookChapters(t, bookFolder, Sort(t[BookPath(bookFolder)].entries))
  }

  /** The keys of the dictionary, in insertion order */
  function TitlesOf(d: seq<Book>): seq<string> {
    seq(|d|, i requires 0 <= i < |d| => d[i].title)
  }

  predicate UniqueTitles(d: seq<Book>) {
    forall i, j :: 0 <= i < j < |d| ==> d[i].title != d[j].title
  }

  /** The position of a key, searching from `from` */
  function KeyIndex(d: seq<Book>, k: string, from: nat): (r: Option<nat>)
    ensures r.Some? ==> from <= r.value < |d| && d[r.value].title == k
    ensures r.None? ==> forall i :: from <= i < |d| ==> d[i].title != k
    decreases |d| - from
  {
    if from >= |d| then None
    else if d[from].title == k then Some(from)
    else KeyIndex(d, k, from + 1)
  }

  /** `books_dict[k]`, when present */
  function Lookup(d: seq<Book>, k: string): (r: Option<seq<Chapter>>)
    ensures r.Some? <==> k in TitlesOf(d)
    ensures r.Some? ==> exists i :: 0 <= i < |d| && d[i] == Book(k, r.value)
  {
    match KeyIndex(d, k, 0)
    case None =>
      assert forall i :: 0 <= i < |d| ==> TitlesOf(d)[i] != k;
      None
    case Some(i) =>
      assert TitlesOf(d)[i] == k;
      Some(d[i].chapters)
  }

  /** For unique keys, a book at a position is what the key looks up. */
  lemma LookupAt(d: seq<Book>, i: nat)
    requires UniqueTitles(d) && i < |d|
    ensures Lookup(d, d[i].title) == Some(d[i].chapters)
  {
    var j := KeyIndex(d, d[i].title, 0);
    assert j.Some?;
    assert j.value == i;
  }

  /** What `books_dict[b.title] = b.chapters` promises of the new dictionary */
  ghost predicate PutResult(d: seq<Book>, b: Book, r: seq<Book>) {
    (forall k :: k in TitlesOf(r) <==> k in TitlesOf(d) || k == b.title) &&
    |r| == (if b.title in TitlesOf(d) then |d| else |d| + 1) &&
    (forall i :: 0 <= i < |d| ==> r[i].title == d[i].title) &&
    (UniqueTitles(d) ==> UniqueTitles(r) && Lookup(r, b.title) == Some(b.chapters)) &&
    (forall k :: k != b.title ==> Lookup(r, k) == Lookup(d, k))
  }

  /** `books_dict[b.title] = b.chapters`: an existing key keeps its place
      and gets the new value, a new key goes to the end */
  function Put(d: seq<Book>, b: Book): (r: seq<Book>)
    ensures forall k :: k in TitlesOf(r) <==> k in TitlesOf(d) || k == b.title
    ensures |r| == if b.title in TitlesOf(d) then |d| else |d| + 1
    ensures forall i :: 0 <= i < |d| ==> r[i].title == d[i].title
    ensures UniqueTitles(d) ==> UniqueTitles(r)
    ensures UniqueTitles(d) ==> Lookup(r, b.title) == Some(b.chapters)
    ensures forall k :: k != b.title ==> Lookup(r, k) == Lookup(d, k)
  {
    match KeyIndex(d, b.title, 0)
    case None => PutNewKey(d, b); d + [b]
    case Some(i) => PutExistingKey(d, i, b); d[i := b]
  }

  lemma PutNewKey(d: seq<Book>, b: Book)
    requires KeyIndex(d, b.title, 0).None?
    ensures PutResult(d, b, d + [b])
  {
    var r := d + [b];
    assert TitlesOf(r) == TitlesOf(d) + [b.title];
    assert b.title !in TitlesOf(d);
    forall k | k != b.title ensures KeyIndex(r, k, 0) == KeyIndex(d, k, 0) {
      KeyIndexAppend(d, b, k, 0);
    }
    if UniqueTitles(d) {
      assert UniqueTitles(r);
      LookupAt(r, |d|);
    }
  }

  lemma PutExistingKey(d: seq<Book>, i: nat, b: Book)
    requires i < |d| && d[i].title == b.title
    ensures PutResult(d, b, d[i := b])
  {
    var r := d[i := b];
    assert TitlesOf(r) == TitlesOf(d);
    assert TitlesOf(d)[i] == b.title;
    forall k | k != b.title ensures KeyIndex(r, k, 0) == KeyIndex(d, k, 0) {
      KeyIndexUpdate(d, i, b, k, 0);
    }
    if UniqueTitles(d) {
      assert UniqueTitles(r);
      LookupAt(r, i);
    }
  }

  lemma {:induction false} KeyIndexAppend(d: seq<Book>, b: Book, k: string, from: nat)
    requires k != b.title
    ensures KeyIndex(d + [b], k, from) == KeyIndex(d, k, from)
    decreases |d| - from
  {
    if from < |d| && d[from].title != k {
      KeyIndexAppend(d, b, k, from + 1);
    }
  }

  lemma {:induction false} KeyIndexUpdate(d: seq<Book>, i: nat, b: Book, k: string, from: nat)
    requires i < |d| && d[i].title == b.title && k != b.title
    ensures KeyIndex(d[i := b], k, from) == KeyIndex(d, k, from)
    decreases |d| - from
  {
    if from < |d| && d[from].title != k {
      KeyIndexUpdate(d, i, b, k, from + 1);
    }
  }

  /** `books_dict` after the outer loop has seen the given top-level names */
  function BooksFrom(t: Tree, names: seq<string>): (r: seq<Book>)
    ensures UniqueTitles(r)
    decreases |names|
  {
    if names == [] then []
    else
      var prev := BooksFrom(t, names[..|names| - 1]);
      var f := names[|names| - 1];
      if IsDir(t, BookPath(f)) then Put(prev, Book(EntryTitle(f), ChaptersOf(t, f)))
      else prev
  }

  /** The keys are exactly the titles of the book folders. */
  lemma {:induction false} BookTitles(t: Tree, names: seq<string>)
    ensures forall k :: k in TitlesOf(BooksFrom(t, names)) <==>
              exists i :: 0 <= i < |names| && IsDir(t, BookPath(names[i])) && EntryTitle(names[i]) == k
    decreases |names|
  {
    if names != [] {
      var init := names[..|names| - 1];
      BookTitles(t, init);
      assert forall i :: 0 <= i < |init| ==> init[i] == names[i];
    }
  }

  /** When two folders share a title, the later one's chapters are kept. */
  lemma {:induction false} LastFolderWins(t: Tree, names: seq<string>, i: nat)
    requires i < |names| && IsDir(t, BookPath(names[i]))
    requires forall j :: i < j < |names| && IsDir(t, BookPath(names[j])) ==>
               EntryTitle(names[j]) != EntryTitle(names[i])
    ensures Lookup(BooksFrom(t, names), EntryTitle(names[i])) == Some(ChaptersOf(t, names[i]))
    decreases |names|
  {
    if i < |names| - 1 {
      var init := names[..|names| - 1];
      assert init[i] == names[i];
      LastFolderWins(t, init, i);
    }
  }

  /** The outer loop over the sorted top-level names */
  method CollectBooks(t: Tree, names: seq<string>) returns (books: seq<Book>)
    ensures books == BooksFrom(t, names)
  {
    books := [];
    var i := 0;
    while i < |names|
      invariant 0 <= i <= |names|
      invariant books == BooksFrom(t, names[..i])
    {
      assert names[..i + 1][..i] == names[..i];
      var bookFolder := names[i];
      var bookPath := Join(Root, bookFolder);
      if IsDir(t, bookPath) {
        var items := Sort(t[bookPath].entries);
        var chapters := CollectChapters(t, bookFolder, items);
        books := Put(books, Book(EntryTitle(bookFolder), chapters));
      }
      i := i + 1;
    }
    assert names[..i] == names;
  }

  /** The inner loop over the sorted names of one book folder */
  method CollectChapters(t: Tree, bookFolder: string, items: seq<string>) returns (chapters: seq<Chapter>)
    ensures chapters == BookChapters(t, bookFolder, items)
  {
    chapters := [];
    var j := 0;
    while j < |items|
      invariant 0 <= j <= |items|
      invariant chapters == BookChapters(t, bookFolder, items[..j])
    {
      assert items[..j + 1][..j] == items[..j];
      var c := ChapterFor(t, bookFolder, items[j]);
      if c.Some? {
        chapters := chapters + [c.value];
      }
      j := j + 1;
    }
    assert items[..j] == items;
  }

  /** The body of `sitemap`; None when `os.listdir('books')` raises */
  method Sitemap(t: Tree) returns (books: Option<seq<Book>>)
    ensures books.None? <==> !IsDir(t, Root)
    ensures books.Some? ==> books.value == BooksFrom(t, Sort(t[Root].entries))
  {
    if !IsDir(t, Root) {
      return None;
    }
    var names := Sort(t[Root].entries);
    var b := CollectBooks(t, names);
    books := Some(b);
  }

  lemma BookPathIsChild(bookFolder: string)
    requires ValidName(bookFolder)
    ensures BookPath(bookFolder) == Child(Root, bookFolder)
    ensures BookPath(bookFolder) != [] && !EndsWith(BookPath(bookFolder), "/")
  {
    var b := BookPath(bookFolder);
    assert b[|b| - 1] == bookFolder[|bookFolder| - 1];
    assert b[|b| - 1..] != "/";
  }

  /** A Markdown file other than the readme becomes a chapter titled and
      linked by its stem. */
  lemma FileChapter(t: Tree, bookFolder: string, stem: string)
    requires ValidName(bookFolder) && ValidName(stem) && !Contains(stem, ".md")
    requires !IsDir(t, Child(BookPath(bookFolder), stem + ".md"))
    requires !IsReadme(stem + ".md")
    ensures ChapterFor(t, bookFolder, stem + ".md") == Some(Chapter(EntryTitle(stem), bookFolder + "/" + stem))
  {
    var item := stem + ".md";
    BookPathIsChild(bookFolder);
    JoinChild(BookPath(bookFolder), item);
    assert item[|item| - 3..] == ".md";
    StripMdSuffix(stem);
  }

  /** A chapter for a Markdown file links to a page rendering that file
      under the chapter's title, when its stem holds no other ".md" and no
      folder of the same name shadows it. */
  /** The name `x.md` + `y.md`, for x and y without '.' or '/' */
  lemma InnerMdItem(x: string, y: string)
    requires '.' !in x + y && '/' !in x + y
    ensures var item := x + ".md" + y + ".md";
            ReplaceAll(item, ".md", "") == x + y && EndsWith(item, ".md") && ValidName(item)
  {
    var item := x + ".md" + y + ".md";
    var md := ".md";
    assert forall c :: c in x || c in y ==> c in x + y;
    NoDotNoMd(x);
    NoDotNoMd(y);
    assert item == x + md + (y + md);
    StripMdAfter(x, y + md);
    StripMdSuffix(y);
    assert item[|item| - 3..] == md;
    assert '/' !in md by { assert md == ['.', 'm', 'd']; }
    assert '/' !in x + md + (y + md);
  }

  /** Outside the ".md"-free stems: an item `x.md` + `y.md` (x and y without
      '.') gets the chapter path `book/xy`, since every ".md" is removed. */
  lemma InnerMdChapterPath(t: Tree, bookFolder: string, x: string, y: string)
    requires ValidName(bookFolder) && '.' !in x + y && '/' !in x + y
    requires !IsDir(t, Child(BookPath(bookFolder), x + ".md" + y + ".md"))
    requires !IsReadme(x + ".md" + y + ".md")
    ensures var c := ChapterFor(t, bookFolder, x + ".md" + y + ".md");
            c.Some? && c.value.path == bookFolder + "/" + (x + y)
  {
    InnerMdItem(x, y);
    BookPathIsChild(bookFolder);
    JoinChild(BookPath(bookFolder), x + ".md" + y + ".md");
  }

  /** That link never renders the item itself: it renders `xy.md` when that
      file exists (for `a.md.md`, the file `a.md`) and is a 404 otherwise. */
  lemma InnerMdChapterLinkMissesFile(t: Tree, bookFolder: string, x: string, y: string)
    requires ValidName(bookFolder) && x + y != [] && '.' !in x + y && '/' !in x + y
    requires !IsDir(t, Child(BookPath(bookFolder), x + y))
    ensures Resolve(t, bookFolder + "/" + (x + y)) != RenderFile(Child(BookPath(bookFolder), x + ".md" + y + ".md"))
    ensures !Exists(t, Child(BookPath(bookFolder), x + y + ".md")) ==> Resolve(t, bookFolder + "/" + (x + y)).Missing?
  {
    var stem := x + y;
    NoDotNoMd(stem);
    assert !EndsWith(stem, ".md") by {
      if EndsWith(stem, ".md") { EndsWithContains(stem, ".md"); }
    }
    PathOfStemNotMd(bookFolder, stem);
    CandidateOfStem(t, bookFolder, stem);
    assert |Child(BookPath(bookFolder), stem + ".md")| + 3 == |Child(BookPath(bookFolder), x + ".md" + y + ".md")|;
  }

  lemma FileChapterResolves(t: Tree, bookFolder: string, stem: string)
    requires ValidName(bookFolder) && ValidName(stem) && !Contains(stem, ".md")
    requires Exists(t, Child(BookPath(bookFolder), stem + ".md"))
    requires !IsDir(t, Child(BookPath(bookFolder), stem))
    ensures Resolve(t, bookFolder + "/" + stem) == RenderFile(Child(BookPath(bookFolder), stem + ".md"))
    ensures DocTitle(Resolve(t, bookFolder + "/" + stem).path) == EntryTitle(stem)
  {
    var p := bookFolder + "/" + stem;
    var file := Child(BookPath(bookFolder), stem + ".md");
    assert Resolve(t, p) == RenderFile(file) by {
      assert !EndsWith(stem, ".md") by {
        if EndsWith(stem, ".md") { EndsWithContains(stem, ".md"); }
      }
      PathOfStemNotMd(bookFolder, stem);
      CandidateOfStem(t, bookFolder, stem);
    }
    DocTitleOfFile(bookFolder, stem);
  }

  lemma DocTitleOfFile(bookFolder: string, stem: string)
    requires ValidName(stem) && !Contains(stem, ".md")
    ensures DocTitle(Child(BookPath(bookFolder), stem + ".md")) == EntryTitle(stem)
  {
    DocTitleOfStem(BookPath(bookFolder), stem);
    assert Child(BookPath(bookFolder), stem + ".md") == BookPath(bookFolder) + "/" + stem + ".md";
  }

  lemma CandidateOfStem(t: Tree, bookFolder: string, stem: string)
    requires ValidName(bookFolder) && ValidName(stem) && !EndsWith(bookFolder + "/" + stem, ".md")
    requires !IsDir(t, Child(BookPath(bookFolder), stem))
    ensures ValidRequestPath(bookFolder + "/" + stem)
    ensures Candidate(t, bookFolder + "/" + stem) == Child(BookPath(bookFolder), stem + ".md")
  {
    var p := bookFolder + "/" + stem;
    assert p[0] == bookFolder[0];
    BookPathIsChild(bookFolder);
    assert Child(BookPath(bookFolder), stem) == FolderPath(p);
    assert FolderPath(p) + ".md" == Child(BookPath(bookFolder), stem + ".md");
  }

  /** A chapter for a sub-folder links to a page that never gives a 404. */
  lemma FolderChapterResolves(t: Tree, bookFolder: string, item: string)
    requires ValidName(bookFolder) && ValidName(item)
    requires IsDir(t, Child(BookPath(bookFolder), item))
    ensures ChapterFor(t, bookFolder, item) == Some(Chapter(EntryTitle(item), bookFolder + "/" + item))
    ensures !Resolve(t, bookFolder + "/" + item).Missing?
  {
    BookPathIsChild(bookFolder);
    JoinChild(BookPath(bookFolder), item);
    assert Child(BookPath(bookFolder), item) == FolderPath(bookFolder + "/" + item);
    FolderNeverMissing(t, bookFolder + "/" + item);
  }
}
