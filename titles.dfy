/** The display titles the site derives from file and folder names
    (app.py and tutorial/02_markdown.py). */
module Titles {
  import opened Strings

  /** `name.replace('-', ' ').title()`: the title of a listing entry, a
      folder page, a sitemap book and a sitemap folder chapter */
  function EntryTitle(name: string): (r: string)
    ensures |r| == |name|
    ensures '-' !in r
    ensures forall k {:trigger r[k]} :: 0 <= k < |name| && name[k] != '-' && !IsAsciiLetter(name[k]) ==> r[k] == name[k]
  {
    Title(ReplaceChar(name, '-', ' '))
  }

  /** `os.path.basename(md_file).replace('-', ' ').replace('.md', '').title()`:
      the title of a rendered document */
  function DocTitle(mdFile: string): (r: string)
    ensures '-' !in r && '/' !in r
    ensures |r| <= |LastSegment(mdFile)|
  {
    var base := LastSegment(mdFile);
    var spaced := ReplaceChar(base, '-', ' ');
    assert '-' !in spaced && '/' !in spaced;
    var stem := ReplaceAll(spaced, ".md", "");
    assert '-' !in stem && '/' !in stem && |stem| <= |base|;
    TitleKeepsOut(stem, '-');
    TitleKeepsOut(stem, '/');
    Title(stem)
  }

  /** `item.replace('.md', '').replace('-', ' ').title()`: the title of a
      sitemap chapter for a Markdown file */
  function ChapterTitle(item: string): (r: string)
    ensures '-' !in r
    ensures |r| <= |item|
  {
    Title(ReplaceChar(ReplaceAll(item, ".md", ""), '-', ' '))
  }

  /** A name without '.' holds no ".md". */
  lemma {:induction false} NoDotNoMd(s: string)
    requires '.' !in s
    ensures !Contains(s, ".md")
    decreases |s|
  {
    if s != [] {
      assert !StartsWith(s, ".md") by {
        if |s| >= 3 { assert s[..3][0] == s[0]; }
      }
      NoDotNoMd(s[1..]);
    }
  }

  /** Removing every ".md" scans past a stem that holds none and drops the
      ".md" that follows it. */
  lemma {:induction false} StripMdAfter(stem: string, rest: string)
    requires !Contains(stem, ".md")
    ensures ReplaceAll(stem + ".md" + rest, ".md", "") == stem + ReplaceAll(rest, ".md", "")
    decreases |stem|
  {
    var s := stem + ".md" + rest;
    if stem == [] {
      assert s == ".md" + rest;
      assert s[3..] == rest;
    } else {
      NoMdAtFront(stem, rest);
      var tail := stem[1..] + ".md" + rest;
      assert s[1..] == tail;
      StripMdAfter(stem[1..], rest);
      calc {
        ReplaceAll(s, ".md", "");
        [s[0]] + ReplaceAll(tail, ".md", "");
        [stem[0]] + (stem[1..] + ReplaceAll(rest, ".md", ""));
        { assert stem == [stem[0]] + stem[1..]; }
        stem + ReplaceAll(rest, ".md", "");
      }
    }
  }

  /** A non-empty stem without ".md" does not start an ".md" even when one follows it. */
  lemma NoMdAtFront(stem: string, rest: string)
    requires stem != [] && !Contains(stem, ".md")
    ensures !StartsWith(stem + ".md" + rest, ".md")
    ensures !Contains(stem[1..], ".md")
  {
    var s := stem + ".md" + rest;
    assert !StartsWith(stem, ".md");
    if |stem| >= 3 {
      assert s[..3] == stem[..3];
    } else if |stem| == 1 {
      assert s[1] == '.';
    } else {
      assert s[2] == '.';
    }
  }

  /** Removing every ".md" from a name whose stem holds none removes exactly the extension. */
  lemma StripMdSuffix(stem: string)
    requires !Contains(stem, ".md")
    ensures ReplaceAll(stem + ".md", ".md", "") == stem
  {
    StripMdAfter(stem, "");
    assert stem + ".md" + "" == stem + ".md";
  }

  /** Turning '-' into ' ' neither creates nor destroys an ".md" at the front. */
  lemma DashSpaceKeepsMdPrefix(s: string)
    ensures StartsWith(ReplaceChar(s, '-', ' '), ".md") <==> StartsWith(s, ".md")
  {
    var h := ReplaceChar(s, '-', ' ');
    if |s| >= 3 {
      assert forall k :: 0 <= k < 3 ==> h[k] == (if s[k] == '-' then ' ' else s[k]);
      assert StartsWith(h, ".md") ==> s[..3] == ".md";
    }
  }

  lemma DashSpaceDrop(s: string, k: nat)
    requires k <= |s|
    ensures ReplaceChar(s, '-', ' ')[k..] == ReplaceChar(s[k..], '-', ' ')
  {
  }

  lemma DashSpaceCons(c: char, s: string)
    ensures ReplaceChar([c] + s, '-', ' ') == [if c == '-' then ' ' else c] + ReplaceChar(s, '-', ' ')
  {
  }

  /** Turning '-' into ' ' and removing ".md" can be done in either order. */
  lemma {:induction false} ReplacementsCommute(s: string)
    ensures ReplaceAll(ReplaceChar(s, '-', ' '), ".md", "") == ReplaceChar(ReplaceAll(s, ".md", ""), '-', ' ')
    decreases |s|
  {
    if s != [] {
      DashSpaceKeepsMdPrefix(s);
      if StartsWith(s, ".md") {
        DashSpaceDrop(s, 3);
        ReplacementsCommute(s[3..]);
      } else {
        DashSpaceDrop(s, 1);
        ReplacementsCommute(s[1..]);
        DashSpaceCons(s[0], ReplaceAll(s[1..], ".md", ""));
      }
    }
  }

  /** A sitemap chapter for a file gets the same title as the page of that file. */
  lemma ChapterTitleIsDocTitle(item: string)
    requires '/' !in item
    ensures ChapterTitle(item) == DocTitle(item)
  {
    ReplacementsCommute(item);
  }

  /** The page of `stem.md` is titled like a listing entry for `stem`. */
  lemma DocTitleOfStem(dir: string, stem: string)
    requires '/' !in stem && !Contains(stem, ".md")
    ensures DocTitle(dir + "/" + stem + ".md") == EntryTitle(stem)
  {
    var name := stem + ".md";
    assert dir + "/" + stem + ".md" == dir + "/" + name;
    LastSegmentAfterSlash(dir, name);
    ReplacementsCommute(name);
    StripMdSuffix(stem);
  }

  lemma LastSegmentAfterSlash(dir: string, name: string)
    requires '/' !in name
    ensures LastSegment(dir + "/" + name) == name
  {
    var s := dir + "/" + name;
    assert s[|s| - |name|..] == name;
    assert s[|s| - |name| - 1] == '/';
  }

}
