/** The `search` view (app.py): a case-insensitive literal search through
    every Markdown file `os.walk('books')` yields, with a cleaned snippet
    around the first match. */
module FullTextSearch {
  import opened Strings
  import opened Site
  import opened Filtering

  /** `re.search(re.escape(q), content, re.IGNORECASE)` matches at i */
  predicate MatchAt(content: string, q: string, i: nat) {
    i + |q| <= |content| && LowerStr(content[i..i + |q|]) == LowerStr(q)
  }

  ghost predicate OccursIgnoringCase(content: string, q: string) {
    exists i: nat :: MatchAt(content, q, i)
  }

  /** The leftmost match at or after `from` */
  function FindFrom(content: string, q: string, from: nat): (r: Option<nat>)
    ensures r.Some? ==> from <= r.value && MatchAt(content, q, r.value)
    ensures r.Some? ==> forall m :: from <= m < r.value ==> !MatchAt(content, q, m)
    ensures r.None? ==> forall m :: from <= m ==> !MatchAt(content, q, m)
    decreases |content| - from
  {
    if from + |q| > |content| then None
    else if MatchAt(content, q, from) then Some(from)
    else FindFrom(content, q, from + 1)
  }

  /** `.start()` of the search, when it finds something */
  function FirstMatch(content: string, q: string): Option<nat> {
    FindFrom(content, q, 0)
  }

  /** The search finds a position exactly when the query occurs, and the
      position is the leftmost occurrence. */
  lemma FirstMatchIffOccurs(content: string, q: string)
    ensures FirstMatch(content, q).Some? <==> OccursIgnoringCase(content, q)
    ensures FirstMatch(content, q).Some? ==>
              var pos := FirstMatch(content, q).value;
              MatchAt(content, q, pos) && forall m :: 0 <= m < pos ==> !MatchAt(content, q, m)
  {
    if FirstMatch(content, q).Some? {
      assert MatchAt(content, q, FirstMatch(content, q).value);
    }
  }

  /** Matching ignores the case of ASCII letters in the query. */
  lemma MatchIgnoresQueryCase(content: string, q: string, i: nat)
    ensures MatchAt(content, q, i) <==> MatchAt(content, LowerStr(q), i)
  {
    assert forall k :: 0 <= k < |q| ==> LowerChar(LowerChar(q[k])) == LowerChar(q[k]);
    assert LowerStr(LowerStr(q)) == LowerStr(q);
  }

  /** `s[i:j]` for indices that are not negative: both ends are clamped to the length */
  function Slice(s: string, i: nat, j: nat): (r: string)
    ensures |r| <= |s|
    ensures i <= j <= |s| ==> r == s[i..j]
    ensures i <= |s| ==> |r| <= j - i || j < i
    ensures j < i ==> r == []
    ensures i <= |s| < j ==> r == s[i..]
    ensures |s| < i ==> r == []
  {
    var a := if i < |s| then i else |s|;
    var b := if j < |s| then j else |s|;
    if a < b then s[a..b] else []
  }

  /** `content[max(0, pos - 30): pos + 150]` */
  function Window(content: string, pos: nat): (w: string)
    requires pos <= |content|
    ensures |w| <= 180
    ensures var start := if pos < 30 then 0 else pos - 30;
            var end := if pos + 150 <= |content| then pos + 150 else |content|;
            w == content[start..end]
  {
    Slice(content, if pos < 30 then 0 else pos - 30, pos + 150)
  }

  /** The characters of `[#>*_\`~\-]` */
  const MarkupChars: set<char> := {'#', '>', '*', '_', '`', '~', '-'}

  /** The first '>' at or after k */
  function NextGt(s: string, k: nat): (r: Option<nat>)
    requires k <= |s|
    ensures r.Some? ==> k <= r.value < |s| && s[r.value] == '>'
    ensures r.None? ==> forall m :: k <= m < |s| ==> s[m] != '>'
    decreases |s| - k
  {
    if k == |s| then None
    else if s[k] == '>' then Some(k)
    else NextGt(s, k + 1)
  }

  /** `re.sub(r'<[^>]*>', '', s)`: a '<' with a '>' somewhere after it is
      removed together with everything up to that first '>' */
  function RemoveTags(s: string): (r: string)
    ensures |r| <= |s|
    ensures forall c :: c in r ==> c in s
    decreases |s|
  {
    if s == [] then []
    else if s[0] == '<' && NextGt(s, 1).Some? then
      var rest := RemoveTags(s[NextGt(s, 1).value + 1..]);
      assert forall c :: c in rest ==> c in s;
      rest
    else
      [s[0]] + RemoveTags(s[1..])
  }

  /** Text without '>' holds no tag to remove. */
  lemma {:induction false} RemoveTagsWithoutGt(s: string)
    requires '>' !in s
    ensures RemoveTags(s) == s
    decreases |s|
  {
    if s != [] {
      assert '>' !in s[1..];
      RemoveTagsWithoutGt(s[1..]);
    }
  }

  /** No '<' in s has a '>' after it. */
  predicate NoTag(s: string) {
    forall i, j :: 0 <= i < j < |s| && s[i] == '<' ==> s[j] != '>'
  }

  /** No '<' is left with a '>' after it. */
  lemma {:induction false} RemoveTagsLeavesNoTag(s: string)
    ensures NoTag(RemoveTags(s))
    decreases |s|
  {
    if s != [] {
      if s[0] == '<' && NextGt(s, 1).Some? {
        var rest := s[NextGt(s, 1).value + 1..];
        assert RemoveTags(s) == RemoveTags(rest);
        RemoveTagsLeavesNoTag(rest);
      } else {
        var rest := RemoveTags(s[1..]);
        RemoveTagsLeavesNoTag(s[1..]);
        var r := [s[0]] + rest;
        assert RemoveTags(s) == r;
        if s[0] == '<' {
          assert forall m :: 1 <= m < |s| ==> s[m] != '>';
          assert '>' !in s[1..];
          assert '>' !in rest;
        }
        forall i, j | 0 <= i < j < |r| && r[i] == '<'
          ensures r[j] != '>'
        {
          assert r[j] == rest[j - 1];
          if i > 0 {
            assert r[i] == rest[i - 1];
            assert 0 <= i - 1 < j - 1 < |rest| && rest[i - 1] == '<';
          } else {
            assert s[0] == '<';
            assert '>' !in s[1..];
            assert rest[j - 1] in rest;
          }
        }
      }
    }
  }

  /** The cleaning chain of a snippet before `strip()` */
  function CleanWindow(w: string): (r: string)
    ensures |r| <= |w|
    ensures forall c :: c in r ==> c in w && c !in MarkupChars
  {
    RemoveTags(RemoveChars(w, MarkupChars))
  }

  /** Every '>' is removed by the first substitution, so the tag pass that
      follows leaves the text as it is. */
  lemma TagPassIsNoOp(w: string)
    ensures RemoveTags(RemoveChars(w, MarkupChars)) == RemoveChars(w, MarkupChars)
  {
    RemoveTagsWithoutGt(RemoveChars(w, MarkupChars));
  }

  /** `snippet + '...'` for a match at pos */
  function Snippet(content: string, pos: nat): (r: string)
    requires pos <= |content|
    ensures EndsWith(r, "...") && |r| <= 183
    ensures forall c :: c in r[..|r| - 3] ==> c !in MarkupChars && c in Window(content, pos)
    ensures r[..|r| - 3] == Strip(RemoveChars(Window(content, pos), MarkupChars))
  {
    var w := Window(content, pos);
    TagPassIsNoOp(w);
    var cleaned := Strip(CleanWindow(w));
    assert (cleaned + "...")[..|cleaned|] == cleaned;
    cleaned + "..."
  }

  /** One step of `os.walk('books')`: a directory and the files directly in it */
  datatype WalkStep = WalkStep(root: string, files: seq<string>)

  datatype SearchResult = SearchResult(path: string, url: string, book: string, volume: string, snippet: string)

  /** `os.path.relpath(os.path.join(root, file), 'books')` for a walk root */
  function RelPath(root: string, file: string): (r: string)
    ensures root == Root ==> r == file
    ensures StartsWith(root, Root + "/") && |root| > |Root| + 1 ==> r == root[|Root| + 1..] + "/" + file
  {
    if StartsWith(root, Root + "/") && |root| > |Root| + 1 then root[|Root| + 1..] + "/" + file
    else file
  }

  /** What `os.path.relpath` promises: joining the relative path back onto
      `books` gives the file's full path again. */
  lemma RelPathJoin(root: string, file: string)
    requires root == Root || (StartsWith(root, Root + "/") && |root| > |Root| + 1 && root[|Root| + 1] != '/')
    requires !EndsWith(root, "/") && !StartsWith(file, "/")
    ensures Join(Root, RelPath(root, file)) == Join(root, file)
  {
    if root != Root {
      var rest := root[|Root| + 1..];
      assert root == Root + "/" + rest by {
        assert root[..|Root| + 1] == Root + "/";
      }
      var rel := rest + "/" + file;
      assert !StartsWith(rel, "/") by {
        assert rel[0] == rest[0] == root[|Root| + 1];
      }
      assert Join(Root, rel) == Root + "/" + rel;
      assert Join(root, file) == root + "/" + file;
    }
  }

  /** `rel_path.replace('\\', '/').replace('.md', '')` */
  function UrlPath(rel: string): (r: string)
    ensures '\\' !in r
    ensures |r| <= |rel|
  {
    ReplaceAll(ReplaceChar(rel, '\\', '/'), ".md", "")
  }

  /** The result the loop body appends for one file, if any: the file must
      end in ".md", be readable, and contain the query ignoring case */
  function FileResult(t: Tree, q: string, root: string, file: string): (r: Option<SearchResult>)
    ensures r.Some? <==>
              EndsWith(file, ".md") && IsReadableFile(t, Join(root, file)) &&
              OccursIgnoringCase(t[Join(root, file)].content, q)
    ensures r.Some? ==>
              r.value.path == UrlPath(RelPath(root, file)) &&
              r.value.url == UrlFor(r.value.path) &&
              r.value.book == FirstSegment(r.value.path) &&
              r.value.volume == LastSegment(r.value.path) &&
              EndsWith(r.value.snippet, "...") && |r.value.snippet| <= 183
    ensures r.Some? ==>
              var content := t[Join(root, file)].content;
              FirstMatch(content, q).Some? && r.value.snippet == Snippet(content, FirstMatch(content, q).value)
  {
    var full := Join(root, file);
    if !EndsWith(file, ".md") || !IsReadableFile(t, full) then None
    else
      var content := t[full].content;
      FirstMatchIffOccurs(content, q);
      match FirstMatch(content, q)
      case None => None
      case Some(pos) =>
        var path := UrlPath(RelPath(root, file));
        Some(SearchResult(path, UrlFor(path), FirstSegment(path), LastSegment(path), Snippet(content, pos)))
  }

  /** The loop body for one file, as a function of the file name */
  function FileFn(t: Tree, q: string, root: string): string -> Option<SearchResult> {
    file => FileResult(t, q, root, file)
  }

  /** The results of the inner loop over the files of one walk step */
  function FilesResults(t: Tree, q: string, root: string, files: seq<string>): (r: seq<SearchResult>)
    ensures |r| <= |files|
    decreases |files|
  {
    if files == [] then []
    else
      var prev := FilesResults(t, q, root, files[..|files| - 1]);
      match FileResult(t, q, root, files[|files| - 1])
      case None => prev
      case Some(x) => prev + [x]
  }

  /** The inner loop is the generic keep-the-defined-values loop. */
  lemma {:induction false} FilesResultsKeepSome(t: Tree, q: string, root: string, files: seq<string>)
    ensures FilesResults(t, q, root, files) == KeepSome(FileFn(t, q, root), files)
    decreases |files|
  {
    if files != [] {
      FilesResultsKeepSome(t, q, root, files[..|files| - 1]);
      assert FileFn(t, q, root)(files[|files| - 1]) == FileResult(t, q, root, files[|files| - 1]);
    }
  }

  /** The results of the whole walk, in walk order */
  function WalkResults(t: Tree, q: string, walk: seq<WalkStep>): (r: seq<SearchResult>)
    decreases |walk|
  {
    if walk == [] then []
    else
      var last := walk[|walk| - 1];
      WalkResults(t, q, walk[..|walk| - 1]) + FilesResults(t, q, last.root, last.files)
  }

  /** The files of one step that produce a result, in order */
  function MatchingFiles(t: Tree, q: string, root: string, files: seq<string>): (r: seq<string>)
    ensures forall f :: f in r <==> f in files && FileResult(t, q, root, f).Some?
  {
    KeptFrom(FileFn(t, q, root), files)
  }

  /** One result per matching file, in the order of the files, each being
      that file's result: no file is reported twice and none is skipped. */
  lemma OneResultPerMatchingFile(t: Tree, q: string, root: string, files: seq<string>)
    ensures var r := FilesResults(t, q, root, files);
            var m := MatchingFiles(t, q, root, files);
            |r| == |m| && forall k :: 0 <= k < |m| ==> Some(r[k]) == FileResult(t, q, root, m[k])
  {
    FilesResultsKeepSome(t, q, root, files);
    OnePerKept(FileFn(t, q, root), files);
  }

  /** A step's results are exactly the results of its files. */
  lemma FilesResultsMembers(t: Tree, q: string, root: string, files: seq<string>)
    ensures forall x :: x in FilesResults(t, q, root, files) <==>
              exists f :: f in files && FileResult(t, q, root, f) == Some(x)
  {
    FilesResultsKeepSome(t, q, root, files);
    KeepSomeMembers(FileFn(t, q, root), files);
    assert forall f :: FileFn(t, q, root)(f) == FileResult(t, q, root, f);
  }

  /** The walk's results are the results of its steps. */
  lemma {:induction false} WalkResultsSteps(t: Tree, q: string, walk: seq<WalkStep>)
    ensures forall x :: x in WalkResults(t, q, walk) <==>
              exists i :: 0 <= i < |walk| && x in FilesResults(t, q, walk[i].root, walk[i].files)
    decreases |walk|
  {
    if walk != [] {
      var init := walk[..|walk| - 1];
      WalkResultsSteps(t, q, init);
      assert forall i :: 0 <= i < |init| ==> walk[i] == init[i];
    }
  }

  /** The whole walk reports exactly the results of the files of its steps:
      nothing from outside the walk, and no matching file left out. */
  lemma WalkResultsMembers(t: Tree, q: string, walk: seq<WalkStep>)
    ensures forall x :: x in WalkResults(t, q, walk) <==>
              exists i, f :: 0 <= i < |walk| && f in walk[i].files && FileResult(t, q, walk[i].root, f) == Some(x)
  {
    WalkResultsSteps(t, q, walk);
    forall i | 0 <= i < |walk| {
      FilesResultsMembers(t, q, walk[i].root, walk[i].files);
    }
  }

  /** A file directly under `books` is its own book and volume. */
  lemma TopLevelFileIsItsOwnBook(t: Tree, q: string, file: string)
    requires '/' !in file && '\\' !in file && FileResult(t, q, Root, file).Some?
    ensures var x := FileResult(t, q, Root, file).value;
            x.book == x.volume == x.path
  {
    assert ReplaceChar(file, '\\', '/') == file;
  }

  lemma AppendAssoc<T>(a: seq<T>, b: seq<T>, c: seq<T>)
    ensures a + b + c == a + (b + c)
  {
  }

  /** One more turn of the inner loop appends the next file's result, if any */
  lemma FilesResultsStep(t: Tree, q: string, root: string, files: seq<string>, j: nat)
    requires j < |files|
    ensures var r := FileResult(t, q, root, files[j]);
            FilesResults(t, q, root, files[..j + 1]) ==
            FilesResults(t, q, root, files[..j]) + (if r.Some? then [r.value] else [])
  {
    assert files[..j + 1][..j] == files[..j];
  }

  /** The loop invariant is kept by one more turn */
  lemma SearchFilesStep(t: Tree, q: string, root: string, files: seq<string>, prefix: seq<SearchResult>,
                        results: seq<SearchResult>, j: nat, r: Option<SearchResult>)
    requires j < |files| && r == FileResult(t, q, root, files[j])
    requires results == prefix + FilesResults(t, q, root, files[..j])
    ensures (if r.Some? then results + [r.value] else results) == prefix + FilesResults(t, q, root, files[..j + 1])
  {
    FilesResultsStep(t, q, root, files, j);
    if r.Some? {
      AppendAssoc(prefix, FilesResults(t, q, root, files[..j]), [r.value]);
    }
  }

  /** The inner loop: appends the results of one step's files */
  method SearchFiles(t: Tree, q: string, root: string, files: seq<string>, prefix: seq<SearchResult>)
    returns (results: seq<SearchResult>)
    ensures results == prefix + FilesResults(t, q, root, files)
  {
    results := prefix;
    var j := 0;
    while j < |files|
      invariant 0 <= j <= |files|
      invariant results == prefix + FilesResults(t, q, root, files[..j])
    {
      var r := FileResult(t, q, root, files[j]);
      SearchFilesStep(t, q, root, files, prefix, results, j, r);
      if r.Some? {
        results := results + [r.value];
      }
      j := j + 1;
    }
    assert files[..j] == files;
  }

  /** The body of `search`, for the raw `q` argument ('' when absent) */
  method Search(t: Tree, rawQuery: string, walk: seq<WalkStep>) returns (query: string, results: seq<SearchResult>)
    ensures query == Strip(rawQuery)
    ensures query == [] ==> results == []
    ensures query != [] ==> results == WalkResults(t, query, walk)
  {
    query := Strip(rawQuery);
    results := [];
    if query != [] {
      var i := 0;
      while i < |walk|
        invariant 0 <= i <= |walk|
        invariant results == WalkResults(t, query, walk[..i])
      {
        assert walk[..i + 1][..i] == walk[..i];
        results := SearchFiles(t, query, walk[i].root, walk[i].files, results);
        i := i + 1;
      }
      assert walk[..i] == walk;
    }
  }

  /** A query of blanks only is dropped by `strip()` and finds nothing. */
  lemma BlankQueryFindsNothing(rawQuery: string)
    requires AllSpace(rawQuery)
    ensures Strip(rawQuery) == []
  {
  }
}
