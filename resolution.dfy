/** How `render_md` turns a request path into the file it renders, the
    folder it lists, or a 404 (app.py, and the same conditionals in
    tutorial/02_markdown.py). */
module Resolution {
  import opened Strings
  import opened Site

  /** What a page request produces; Markdown-to-HTML conversion is not
      modelled, so a document carries the rewritten Markdown text */
  datatype Link = Link(name: string, url: string)
  datatype Page =
    | Document(title: string, body: string)
    | FolderIndex(title: string, links: seq<Link>)
    | NotFound
    | ServerError

  /** `md_file`: README.md inside a folder, otherwise the path itself with
      ".md" appended unless it already ends so */
  function Candidate(t: Tree, p: string): (r: string)
    requires ValidRequestPath(p)
    ensures IsDir(t, FolderPath(p)) ==>
              StartsWith(r, FolderPath(p)) && EndsWith(r, "/README.md") && r != FolderPath(p) + ".md"
    ensures !IsDir(t, FolderPath(p)) ==> EndsWith(r, ".md") && StartsWith(r, FolderPath(p))
    ensures !IsDir(t, FolderPath(p)) && EndsWith(p, ".md") ==> r == FolderPath(p)
    ensures !IsDir(t, FolderPath(p)) && !EndsWith(p, ".md") ==> r == FolderPath(p) + ".md"
  {
    var folder := FolderPath(p);
    if IsDir(t, folder) then
      var r := Join(folder, "README.md");
      assert |r| >= |folder| + 9;
      r
    else if !EndsWith(p, ".md") then
      folder + ".md"
    else
      assert folder[|folder| - 3..] == p[|p| - 3..];
      folder
  }

  datatype Target = RenderFile(path: string) | ListFolder(folder: string) | Missing

  /** The three outcomes of `render_md`: render the candidate when it
      exists, otherwise list the folder when there is one, otherwise 404 */
  function Resolve(t: Tree, p: string): (r: Target)
    requires ValidRequestPath(p)
    ensures r.Missing? <==> !IsDir(t, FolderPath(p)) && !Exists(t, Candidate(t, p))
    ensures r.RenderFile? <==> Exists(t, Candidate(t, p))
    ensures r.RenderFile? ==> r.path == Candidate(t, p)
    ensures r.ListFolder? ==> r.folder == FolderPath(p) && IsDir(t, r.folder)
  {
    var mdFile := Candidate(t, p);
    if Exists(t, mdFile) then RenderFile(mdFile)
    else if IsDir(t, FolderPath(p)) then ListFolder(FolderPath(p))
    else Missing
  }

  /** A folder never gives a 404: its README.md is rendered, or it is listed. */
  lemma FolderNeverMissing(t: Tree, p: string)
    requires ValidRequestPath(p) && IsDir(t, FolderPath(p))
    ensures Resolve(t, p) == RenderFile(Candidate(t, p)) || Resolve(t, p) == ListFolder(FolderPath(p))
    ensures Resolve(t, p).RenderFile? ==> EndsWith(Resolve(t, p).path, "/README.md")
  {
  }

  /** Outside folders, asking for P and for P.md renders the same file. */
  lemma SuffixEquivalence(t: Tree, p: string)
    requires ValidRequestPath(p) && !EndsWith(p, ".md")
    requires !IsDir(t, FolderPath(p)) && !IsDir(t, FolderPath(p + ".md"))
    ensures Candidate(t, p) == Candidate(t, p + ".md")
    ensures Resolve(t, p) == Resolve(t, p + ".md")
  {
    var q := p + ".md";
    assert q[|q| - 3..] == ".md";
    assert FolderPath(q) == FolderPath(p) + ".md";
  }
}
