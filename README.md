# Book library site — a Dafny model

The site serves a tree of Markdown documents kept under `books/`. Its
views are all in `app.py`:

- `render_md`, for `/books/<path>`, picks the file a request path names.
  That is `README.md` for a folder and the path with ".md" added for
  anything else. It rewrites `(./x)` links in the file to site URLs and
  titles the page after the file name. A folder without `README.md` gets
  a listing of its sub-folders and Markdown files instead, and anything
  else gets a 404.
- `sitemap` groups every top-level book folder with the folders and
  Markdown files directly inside it.
- `search` walks the tree for a case-insensitive literal query. For each
  matching file it reports the path, book, volume and a cleaned snippet
  around the first match.

`tutorial/02_markdown.py` is an earlier version of `render_md`. It
resolves the path the same way but has no listing and no link rewriting.

The model is plain functional Dafny with a few loop methods:

| file | module | what it holds |
|---|---|---|
| `strings.dfy` | `Strings` | the Python `str` operations used: `replace`, `title`, `lower`, `strip`, `split('/')` |
| `sorting.dfy` | `Sorting` | `sorted` on strings, proved sorted, a permutation and unique |
| `site.dfy` | `Site` | the file tree, how `os.path.join` behaves, and the URLs of request paths |
| `resolution.dfy` | `Resolution` | picking the file to render, or the folder to list, or a 404 |
| `links.dfy` | `LinkRewrite` | `re.sub(r'\((.*?)\)', replace_relative_links, content)` |
| `titles.dfy` | `Titles` | the three title derivations |
| `render.dfy` | `Render` | the folder listing loops and the whole `render_md` view |
| `filtering.dfy` | `Filtering` | the "append f(x) where it is defined" loop, stated once |
| `sitemap.dfy` | `SiteMap` | the two `sitemap` loops and the `books_dict` assignment |
| `search.dfy` | `FullTextSearch` | matching, the snippet, and the two `search` loops |
| `tutorial.dfy` | `Tutorial` | `tutorial/02_markdown.py` |

The file system is the value `Tree`. It maps each path string to a
directory or a file:

- A directory carries the names `os.listdir` returns, in the order it
  returns them.
- A file carries its decoded text and whether reading it succeeds.

`os.walk('books')` is a sequence of `(root, files)` steps passed in by the
caller. `url_for('render_md', md_path=p)` is `"/books/" + p`, and the
route is its inverse (`Site.RouteOf`).

Three behaviours of the code are easy to misread:

- Titles, search paths and sitemap chapter paths remove every ".md" in
  the name, not only the extension. (`"a.mdx.md"` is titled `"Ax"`.)
- A listing shows only sub-folders and names that `*.md` matches, not
  every child. It does not leave out a lower-case `readme.md`.
- Link rewriting is the blind parenthesis match of the regular
  expression, not a Markdown-aware parse. It rewrites any `(...)` whose
  contents start with `./`.

## Model

| member | source | states |
|---|---|---|
| Strings.ReplaceChar | app.py:80 | `s.replace(a, b)` for one character: same length; each `a` becomes `b` in place and every other character stays in place; identity when `a` is absent |
| Strings.ReplaceAll | app.py:98 | `s.replace(pat, rep)`: only characters of `s` or `rep` appear; removing (`rep == ""`) never lengthens |
| Strings.ReplaceAllAbsent | app.py:98 | a text without the pattern is left unchanged |
| Strings.LowerStr | app.py:156 | `lower()`: same length; each upper-case ASCII letter becomes its lower-case letter in place, every other character stays in place |
| Strings.Title | app.py:98 | `title()`: same length, every non-letter kept in place; each letter keeps its letter and is upper-case exactly when it starts a run of letters (first position, or after a non-letter), lower-case otherwise |
| Strings.TitleIdempotent | app.py:98 | applying `title()` twice is applying it once |
| Strings.Strip | app.py:176 | `strip()`: a contiguous slice of the input with only blanks before and after it; empty exactly when the text is all blanks, otherwise it starts and ends with a non-blank |
| Strings.RemoveChars | app.py:199 | `re.sub('[...]+', '', s)` for a character class: a single character is dropped exactly when it is in the class; none of the class is left; unchanged when none occurs |
| Strings.RemoveCharsConcat | app.py:199 | the removal works on each part of a text separately, so the kept characters stay in their order |
| Strings.FirstSegment | app.py:208-209 | `parts[0]`: a prefix without '/', the whole text when it holds none |
| Strings.LastSegment | app.py:210 | `parts[-1]` (also `os.path.basename`): a suffix without '/' that starts right after a '/' or at the beginning |
| Sorting.Insert | app.py:106 | inserting into a sorted list keeps it sorted and adds exactly one element |
| Sorting.Sort | app.py:106 | `sorted`: sorted by code point, a permutation of its input |
| Sorting.LeTotal | app.py:106 | any two strings compare one way or the other |
| Sorting.LeTransitive | app.py:106 | the string order is transitive |
| Sorting.LeAntisymmetric | app.py:106 | strings in both orders are equal |
| Sorting.LeCommonPrefix | app.py:115 | paths that share a folder prefix compare like their names |
| Sorting.SortedUnique | app.py:106 | two sorted lists with the same elements are equal |
| Sorting.SortIgnoresOrder | app.py:144 | `sorted(os.listdir(...))` does not depend on the order of the listing |
| Site.IsDir | app.py:56 | `os.path.isdir`: the path is a directory of the tree (used by `Resolution.Resolve`, `Render.SubdirNames`) |
| Site.Exists | app.py:67 | `os.path.exists`: the path is in the tree (used by `Resolution.Resolve`) |
| Site.IsReadableFile | app.py:186-189 | opening and reading the path does not raise (used by `FullTextSearch.FileResult` and `Render.RenderMd`) |
| Site.Join | app.py:53 | `os.path.join` on POSIX; its meaning is stated by `Site.JoinParts` |
| Site.JoinParts | app.py:53 | an absolute second part replaces the first; otherwise the first part, then one '/' exactly when the first is non-empty and does not end in '/', then the second |
| Site.UrlFor | app.py:81 | `url_for('render_md', md_path=p)`; `Site.RouteOfUrlFor` states that routing inverts it |
| Site.JoinChild | app.py:107 | `os.path.join(dir, name)` is `dir/name` for a listed name |
| Site.RouteOf | app.py:43 | a routed URL is `/books/` followed by a request path the `path` converter accepts |
| Site.RouteOfUrlFor | app.py:81 | routing a URL built by `url_for` gives back the path it was built from |
| Site.FolderPath | app.py:53 | `os.path.join('books', md_path)` is `books/md_path` |
| Resolution.Candidate | app.py:53-64 | `md_file`: `README.md` in a folder; otherwise the path itself when it ends in ".md", else the path plus ".md" |
| Resolution.Resolve | app.py:66-126 | render exactly when `md_file` exists; list when it does not and the path is a folder; 404 exactly when neither holds |
| Resolution.FolderNeverMissing | app.py:56-58 | a folder is never a 404: its README.md is rendered or it is listed |
| Resolution.SuffixEquivalence | app.py:59-64 | outside folders, `P` and `P.md` pick the same file and the same outcome |
| LinkRewrite.CloseParen | app.py:84 | the lazy `.*?` stops at the first ')' and never crosses a newline; none when a newline comes first |
| LinkRewrite.Scan | app.py:84 | no match target holds ')' or a newline |
| LinkRewrite.ScanRoundTrip | app.py:84 | the scanned pieces spell the original text: nothing is lost or duplicated |
| LinkRewrite.EmitConcat | app.py:84 | the substitution works piece by piece |
| LinkRewrite.EmitIsSourceIff | app.py:74-84 | output equals input exactly when no matched target starts with "./" |
| LinkRewrite.RewriteUnchangedIff | app.py:74-84 | a document is left unchanged exactly when none of its matched targets is relative |
| LinkRewrite.RelativeTargetNeedsMarker | app.py:76 | a relative target can only come from a "(./" in the text |
| LinkRewrite.NoMarkerUnchanged | app.py:84 | a document without "(./" is left identical |
| LinkRewrite.RelativeTargetNeedsClosedMarker | app.py:76-84 | a relative target can only come from a "(./" closed by a ')' on the same line |
| LinkRewrite.ClosedMarkerUnchanged | app.py:84 | a document in which no "(./" is closed by a ')' on its own line is left identical |
| LinkRewrite.RewriteMatch | app.py:74-84 | a match `(x)` is replaced by `replace_relative_links`' value and scanning resumes after it |
| LinkRewrite.NonRelativeLinkKept | app.py:82 | a target not starting with "./" is emitted as it was |
| LinkRewrite.ReplaceTarget | app.py:74-82 | `replace_relative_links` for one target; `LinkRewrite.NonRelativeLinkKept` and `LinkRewrite.RelativeLinkRewritten` state both branches |
| LinkRewrite.Rewrite | app.py:84 | the whole `re.sub`; `LinkRewrite.RewriteMatch`, `LinkRewrite.RewriteUnchangedIff` and `LinkRewrite.RewriteLineLocal` state what it does |
| LinkRewrite.RelativeLinkRewritten | app.py:76-81 | any `(./y)` becomes `(` + the URL of `os.path.join(md_path, y)` with backslashes turned into '/' + `)`, and the produced link holds no backslash |
| LinkRewrite.RelativeLinkJoinsRequestPath | app.py:76-81 | `(./y)` in the page for `md_path` becomes the URL of `md_path/y`, joined to the whole request path, and routing it gives that path back |
| LinkRewrite.CloseParenStopsAtNewline | app.py:84 | text after a newline does not change where a match closes |
| LinkRewrite.ScanLineLocal | app.py:84 | scanning text across a newline is scanning each side on its own |
| LinkRewrite.RewriteLineLocal | app.py:84 | each line is rewritten on its own |
| Titles.EntryTitle | app.py:110 | `name.replace('-', ' ').title()`: same length, no '-', non-letters other than '-' kept in place |
| Titles.DocTitle | app.py:98 | the page title: no '-' and no '/', no longer than the base name |
| Titles.ChapterTitle | app.py:158 | the chapter title of a file: no '-', no longer than the name |
| Titles.StripMdAfter | app.py:98 | removing ".md" passes over a stem that holds none and drops the ".md" after it |
| Titles.StripMdSuffix | app.py:98 | for a stem without ".md", removing ".md" from `stem.md` gives the stem |
| Titles.ReplacementsCommute | app.py:158 | replacing '-' and removing ".md" commute, so the chapter and page orders agree |
| Titles.ChapterTitleIsDocTitle | app.py:158 | a sitemap chapter for a file is titled like the page of that file |
| Titles.DocTitleOfStem | app.py:118 | the page of `stem.md` is titled like the listing entry for `stem` |
| Titles.LastSegmentAfterSlash | app.py:98 | the base name of `dir/name` is `name` |
| Render.SubdirNames | app.py:106-108 | the names that are sub-folders: exactly those; a single name is kept exactly when it is a sub-folder |
| Render.SubdirNamesConcat | app.py:106-108 | the filter works on each part of the list separately, so the kept names stay in their order |
| Render.SubdirNamesSorted | app.py:106 | keeping sub-folders of a sorted list keeps it sorted |
| Render.MdNames | app.py:115 | what `glob('*.md')` finds: exactly the names that end in ".md" and are not hidden |
| Render.MdNamesCount | app.py:115 | each glob match occurs as often as among the names |
| Render.MdNamesIgnoresOrder | app.py:115 | the glob matches do not depend on the listing order, up to order |
| Render.StemOf | app.py:116 | `splitext(basename(f))[0]`: the match without its final ".md" |
| Render.GlobOrderIsNameOrder | app.py:115 | sorting the glob's `folder/name` paths orders them by name |
| Render.GlobBaseName | app.py:116 | the base name of a glob match is the listed name |
| Render.EntryLink | app.py:109-111 | the link the loop appends for a name; `Render.EntryLinkFacts` and `Render.ListedLinkRoutes` state its title and URL |
| Render.EntryLinkFacts | app.py:109-111 | a link is titled by the name, without '-', and its URL has no backslash and is the URL of `md_path/name` |
| Render.SubfolderLinks | app.py:106-112 | the first loop builds one link per sub-folder, in sorted order |
| Render.AppendFileLinks | app.py:115-120 | the second loop appends one link per Markdown file, in sorted order |
| Render.FolderLinks | app.py:102-120 | the listing: sub-folder links, then Markdown file links |
| Render.Listing | app.py:102-120 | the `links` list of a folder without README.md; `Render.FolderLinks` states that the two loops compute it |
| Render.ListedDirsExact | app.py:106-108 | the first group is exactly the folder's sub-folders, sorted |
| Render.ListedFilesExact | app.py:115 | the second group is exactly the folder's glob matches, sorted |
| Render.ListingLength | app.py:103-120 | one link per sub-folder plus one per Markdown file |
| Render.ListingDirsFirst | app.py:106-112 | the sub-folder links come first, in sorted order |
| Render.ListingFilesAfter | app.py:115-120 | the file links follow, each linking to the file's stem |
| Render.LinksConcat | app.py:103-120 | the positions of the two groups in `links` |
| Render.ListingTitlesHaveNoDash | app.py:110-119 | no listing title holds '-' and no listing URL a backslash |
| Render.ListingIgnoresListdirOrder | app.py:106-115 | the listing is the same whatever order `os.listdir` returns |
| Render.ListedLinkRoutes | app.py:111 | a listed link routes back to `md_path/name` |
| Render.SubfolderLinkResolves | app.py:106-112 | in a consistent tree, following a sub-folder link never gives a 404 |
| Render.FileLinkResolves | app.py:115-120 | in a consistent tree, a file link is never a 404 and renders that file under the link's title, unless a same-named folder takes over |
| Render.RenderMd | app.py:53-126 | the view: a readable file gives its rewritten text under its title, an unreadable one a server error, a folder without README its listing, and a 404 exactly when nothing exists |
| Filtering.KeepSome | app.py:182-218 | the generic append-when-defined loop never yields more values than inputs |
| Filtering.KeptFrom | app.py:182-192 | the contributing elements: exactly those where the loop body yields a value |
| Filtering.OnePerKept | app.py:182-218 | exactly one value per contributing element, in order, and it is that element's value |
| Filtering.KeepSomeMembers | app.py:182-218 | the loop appends exactly the values the body yields on the elements |
| Filtering.KeptFromSorted | app.py:149 | keeping some names of a sorted list keeps them sorted |
| SiteMap.IsReadme | app.py:156 | `item.lower() == 'readme.md'` (a predicate; `LowerStr` states what `lower()` does) |
| SiteMap.ChapterFor | app.py:150-160 | a chapter exactly for sub-folders and non-readme Markdown files; a folder keeps its name, a file loses ".md", both under the book and titled without '-' |
| SiteMap.BookChapters | app.py:149-160 | the inner loop's chapter list, never longer than the items; `SiteMap.OneChapterPerItem` states its contents |
| SiteMap.ChaptersOf | app.py:149-160 | a book's chapters from its sorted listing; `SiteMap.ChapterItemsSorted` and `SiteMap.OneChapterPerItem` state their order and contents |
| SiteMap.ChaptersBelowBook | app.py:152-160 | every chapter path is below its book, every title without '-' |
| SiteMap.BookChaptersKeepSome | app.py:149-160 | the inner loop is the generic append-when-defined loop |
| SiteMap.ChapterItems | app.py:149-160 | the items that become chapters: exactly the sub-folders and non-readme Markdown files |
| SiteMap.OneChapterPerItem | app.py:149-160 | exactly one chapter per such item, in item order |
| SiteMap.ChapterItemsSorted | app.py:149 | the chapter items come in sorted order |
| SiteMap.KeyIndex | app.py:161 | where a key of `books_dict` sits, or that it is absent |
| SiteMap.Lookup | app.py:161 | `books_dict[k]`: present exactly for the keys, with a value stored under that key |
| SiteMap.LookupAt | app.py:161 | with unique keys, a stored entry is what its key looks up |
| SiteMap.Put | app.py:161 | dictionary assignment: a new key goes last, an existing key keeps its place and gets the new value, keys stay unique, other keys look up as before |
| SiteMap.BooksFrom | app.py:144-161 | the dictionary after the outer loop has unique keys |
| SiteMap.BookTitles | app.py:144-161 | its keys are exactly the titles of the top-level folders |
| SiteMap.LastFolderWins | app.py:161 | of several folders with the same title, the last one's chapters are kept |
| SiteMap.CollectBooks | app.py:144-161 | the outer loop computes that dictionary |
| SiteMap.CollectChapters | app.py:149-160 | the inner loop computes a book's chapter list |
| SiteMap.Sitemap | app.py:140-163 | the view: no sitemap exactly when `books` is not a folder, otherwise the dictionary of its sorted names |
| SiteMap.BookPathIsChild | app.py:145 | a book's path is `books/name` |
| SiteMap.FileChapter | app.py:156-160 | for a stem without ".md", a non-readme `stem.md` becomes a chapter titled like a listing entry for the stem, linking to `book/stem` |
| SiteMap.FileChapterResolves | app.py:159 | for a stem without ".md", that link renders the file under the chapter's title, when no same-named folder takes over |
| SiteMap.InnerMdChapterPath | app.py:156-159 | an item `x.md` + `y.md` gets the chapter path `book/xy`: every ".md" is removed |
| SiteMap.InnerMdChapterLinkMissesFile | app.py:159 | that link never renders the item itself: it renders `xy.md` when that exists, otherwise it is a 404 |
| SiteMap.DocTitleOfFile | app.py:158 | a chapter file's page is titled like the chapter |
| SiteMap.CandidateOfStem | app.py:159 | the chapter link of a file picks that file |
| SiteMap.FolderChapterResolves | app.py:151-154 | a folder chapter links to a page that is never a 404 |
| FullTextSearch.FindFrom | app.py:192-194 | the leftmost case-insensitive match at or after a position, or none at all |
| FullTextSearch.FirstMatch | app.py:192-194 | `.start()` of the search; `FullTextSearch.FirstMatchIffOccurs` states that it is the leftmost match |
| FullTextSearch.FirstMatchIffOccurs | app.py:192-194 | `re.search` finds a position exactly when the query occurs, and `.start()` is the leftmost one |
| FullTextSearch.MatchIgnoresQueryCase | app.py:192 | matching ignores the case of letters in the query |
| FullTextSearch.Slice | app.py:196 | `s[i:j]` for non-negative bounds, all cases: `s[i..j]` inside the text, `s[i..]` when only `j` passes the end, empty when `j < i` or `i` passes the end |
| FullTextSearch.Window | app.py:195-196 | at most 180 characters, from 30 before the match to 150 after it, clamped |
| FullTextSearch.RemoveTags | app.py:200 | removing tags never lengthens or introduces a character |
| FullTextSearch.RemoveTagsWithoutGt | app.py:200 | text without '>' holds no tag to remove |
| FullTextSearch.RemoveTagsLeavesNoTag | app.py:200 | no '<' is left with a '>' after it |
| FullTextSearch.CleanWindow | app.py:199-200 | the cleaned window: no longer, no markup character, nothing not in the window |
| FullTextSearch.TagPassIsNoOp | app.py:199-200 | once markup characters are gone no '>' is left, so the tag pass changes nothing |
| FullTextSearch.Snippet | app.py:195-217 | ends in "...", at most 183 characters, holds no markup character, and is the stripped, cleaned window |
| FullTextSearch.RelPath | app.py:204 | `os.path.relpath(os.path.join(root, file), 'books')`; `FullTextSearch.RelPathJoin` states its promise |
| FullTextSearch.RelPathJoin | app.py:204 | joining the relative path back onto `books` gives `os.path.join(root, file)` again, for every root `os.walk('books')` yields |
| FullTextSearch.UrlPath | app.py:205 | no backslash, no longer than the relative path |
| FullTextSearch.FileResult | app.py:183-217 | a result exactly for readable ".md" files holding the query, with its path, URL, book and volume as derived, and the snippet of the window around the leftmost match |
| FullTextSearch.FilesResultsKeepSome | app.py:182-218 | the inner loop is the generic append-when-defined loop |
| FullTextSearch.FilesResultsMembers | app.py:182-218 | a step's results are exactly the results of its files |
| FullTextSearch.MatchingFiles | app.py:182-192 | the files that give a result: exactly the readable ".md" files holding the query |
| FullTextSearch.OneResultPerMatchingFile | app.py:182-218 | exactly one result per matching file, in file order, being that file's result |
| FullTextSearch.TopLevelFileIsItsOwnBook | app.py:204-210 | a file directly under `books`, with no backslash in its name, is its own book and volume |
| FullTextSearch.WalkResults | app.py:181-218 | the results of the whole walk, step after step |
| FullTextSearch.WalkResultsSteps | app.py:181-182 | a result of the walk is exactly a result of one of its steps |
| FullTextSearch.WalkResultsMembers | app.py:181-218 | the whole walk reports exactly the results of the files of its steps |
| FullTextSearch.SearchFiles | app.py:182-218 | the inner loop appends one step's results |
| FullTextSearch.Search | app.py:176-218 | the view: the stripped query, no results when it is empty, otherwise the results of the whole walk |
| FullTextSearch.BlankQueryFindsNothing | app.py:176-179 | a query of blanks only becomes `''`, so the search loop does not run |
| Tutorial.TutorialPage | tutorial/02_markdown.py:64-98 | a 404 exactly when the candidate is missing, the text under its title when it is readable, a server error otherwise, never a listing |
| Tutorial.FolderUsesReadme | tutorial/02_markdown.py:67-69 | a folder is always answered from its README.md, never from `P.md` |
| Tutorial.FolderWithoutReadmeIsMissing | tutorial/02_markdown.py:77-79 | a folder without README.md is a 404 here, where app.py lists it |
| Tutorial.TutorialSuffixEquivalence | tutorial/02_markdown.py:70-75 | outside folders, `P` and `P.md` give the same page |
| Tutorial.AgreesWithAppOnFiles | tutorial/02_markdown.py:64-95 | where the file exists, both versions pick it and title it alike |
| Tutorial.RemovalIsOnePass | tutorial/02_markdown.py:95 | removing ".md" is one left-to-right pass: `"..mdmd"` becomes `".md"` |

## Left out

- Markdown-to-HTML conversion (`markdown.markdown` with `nl2br`), templates and Flask's responses are not modelled. A document page carries the rewritten Markdown text, and a page is one of four values.
- The home page, the 404 handler and the rest of the Flask wiring are not modelled; they hold no logic beyond rendering a template.
- `url_for` percent-encoding is left out: a URL is `"/books/"` plus the path.
- Path normalisation and symbolic links are left out. Paths are literal strings, so `a//b`, `a/./b` and `..` are different keys of the tree.
- File I/O is the tree value. Reading a file succeeds or raises according to a flag, and `os.listdir('books')` failing is `Sitemap` returning `None`. A read that raises is a server error; the search loop's `except: continue` skips the file.
- Unicode case mapping and whitespace are modelled on ASCII only: `title()`, `lower()`, `strip()` and `re.IGNORECASE` treat other characters as uncased and non-blank.
- `os.walk` is an input: a sequence of steps in its order. Nothing ties the steps to the tree.
- `glob('*.md')` is modelled as a filter on the folder's names (ends in ".md", does not start with '.'). Glob metacharacters in folder names are not modelled.
- Snippet offsets count code points, as Python `str` does; no byte encoding is modelled.
- `Render.FileLinkResolves`: stated only for stems without ".md" and for paths without backslashes. A stem ending in ".md" (from `a.md.md`) makes the link request `a.md`, which picks a different file. A stem with an inner ".md" (from `x.mdy.md`) picks the same file, but the page title drops the inner ".md" and the link name keeps it. A backslash is turned into '/' in the link, so the link names a different path.
- `Render.SubfolderLinkResolves`: stated only for a request path without a trailing '/' or backslash.
- `SiteMap.FileChapterResolves`: stated only for stems without ".md", and only when no folder named like the stem shadows the file. A shadowing folder makes the link open the folder. A stem holding ".md" gets a link with every ".md" removed, which never renders the file (`SiteMap.InnerMdChapterLinkMissesFile`).
- `SiteMap.FileChapter`: stated only for stems without ".md". For other names the chapter path drops every ".md" (`SiteMap.InnerMdChapterPath`): `x.mdy.md` in book `b` links to `b/xy`, `a.md.md` to `b/a`.
- `FullTextSearch.TopLevelFileIsItsOwnBook`: stated only for names without a backslash. The backslash is turned into '/' first, so a top-level `a\b.md` gets book `a` and volume `b`.
