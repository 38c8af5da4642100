/** The earlier `render_md` of tutorial/02_markdown.py: the same choice of
    candidate file as app.py, but no folder listing and no link rewriting. */
module Tutorial {
  import opened Strings
  import opened Site
  import opened Titles
  import opened Resolution

  /** The page for a request path: 404 when the candidate file does not
      exist, its text under its derived title when it can be read, and an
      error page when reading it raises */
  function TutorialPage(t: Tree, p: string): (r: Page)
    requires ValidRequestPath(p)
    ensures r == NotFound <==> !Exists(t, Candidate(t, p))
    ensures r.Document? <==> IsReadableFile(t, Candidate(t, p))
    ensures r == ServerError <==> Exists(t, Candidate(t, p)) && !IsReadableFile(t, Candidate(t, p))
    ensures r.Document? ==>
              r.title == DocTitle(Candidate(t, p)) && '-' !in r.title &&
              r.body == t[Candidate(t, p)].content
    ensures !r.FolderIndex?
  {
    var mdFile := Candidate(t, p);
    if !Exists(t, mdFile) then NotFound
    else if !IsReadableFile(t, mdFile) then ServerError
    else Document(DocTitle(mdFile), t[mdFile].content)
  }

  /** A folder is always answered from its README.md, never from P.md. */
  lemma FolderUsesReadme(t: Tree, p: string)
    requires ValidRequestPath(p) && IsDir(t, FolderPath(p))
    ensures Candidate(t, p) == Join(FolderPath(p), "README.md")
    ensures !EndsWith(p, "/") ==> Candidate(t, p) == FolderPath(p) + "/README.md"
    ensures Candidate(t, p) != FolderPath(p) + ".md"
  {
  }

  /** A folder without README.md is a 404 here, where app.py lists it. */
  lemma FolderWithoutReadmeIsMissing(t: Tree, p: string)
    requires ValidRequestPath(p) && IsDir(t, FolderPath(p))
    requires !Exists(t, Join(FolderPath(p), "README.md"))
    ensures TutorialPage(t, p) == NotFound
    ensures Resolve(t, p) == ListFolder(FolderPath(p))
  {
    FolderUsesReadme(t, p);
  }

  /** Outside folders, P and P.md give the same page. */
  lemma TutorialSuffixEquivalence(t: Tree, p: string)
    requires ValidRequestPath(p) && !EndsWith(p, ".md")
    requires !IsDir(t, FolderPath(p)) && !IsDir(t, FolderPath(p + ".md"))
    ensures TutorialPage(t, p) == TutorialPage(t, p + ".md")
  {
    SuffixEquivalence(t, p);
  }

  /** Where the file exists, both variants pick the same file and title it
      alike; only the body differs, by the link rewriting of app.py. */
  lemma AgreesWithAppOnFiles(t: Tree, p: string)
    requires ValidRequestPath(p) && Exists(t, Candidate(t, p))
    ensures Resolve(t, p) == RenderFile(Candidate(t, p))
    ensures TutorialPage(t, p).Document? ==> TutorialPage(t, p).title == DocTitle(Resolve(t, p).path)
  {
  }

  /** Every ".md" is removed from the base name, but only in one left-to-
      right pass: removing one can bring the pieces of another together. */
  lemma RemovalIsOnePass()
    ensures ReplaceAll("..mdmd", ".md", "") == ".md"
  {
    assert !StartsWith("..mdmd", ".md");
    assert "..mdmd"[1..] == ".mdmd";
    assert StartsWith(".mdmd", ".md");
    assert ".mdmd"[3..] == "md";
    NoDotNoMd("md");
    ReplaceAllAbsent("md", ".md", "");
  }
}
