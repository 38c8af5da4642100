/** `replace_relative_links` and the `re.sub(r'\((.*?)\)', ...)` call that
    applies it to a document before it is converted to HTML (app.py). */
module LinkRewrite {
  import opened Strings
  import opened Site

  /** The text as the substitution sees it: a character copied as it is, or
      a match `(` target `)` */
  datatype Piece = Plain(c: char) | Paren(target: string)

  /** Where the lazy `.*?` stops for a match whose target starts at k: the
      first ')' at or after k, provided no newline comes first (`.` does not
      match a newline) */
  function CloseParen(s: string, k: nat): (r: Option<nat>)
    requires k <= |s|
    ensures r.Some? ==> k <= r.value < |s| && s[r.value] == ')'
    ensures r.Some? ==> forall m :: k <= m < r.value ==> s[m] != ')' && s[m] != '\n'
    ensures r.None? ==> forall j :: k <= j < |s| && s[j] == ')' ==> exists m :: k <= m < j && s[m] == '\n'
    decreases |s| - k
  {
    if k == |s| || s[k] == '\n' then None
    else if s[k] == ')' then Some(k)
    else CloseParen(s, k + 1)
  }

  /** The left-to-right search of `re.sub`: a '(' starts a match when a ')'
      follows on the same line, and the search resumes after that ')';
      otherwise the character is copied and the search moves on by one */
  function Scan(s: string): (ps: seq<Piece>)
    ensures forall p :: p in ps && p.Paren? ==> ')' !in p.target && '\n' !in p.target
    decreases |s|
  {
    if s == [] then []
    else if s[0] == '(' && CloseParen(s, 1).Some? then
      var j := CloseParen(s, 1).value;
      assert forall m :: 0 <= m < j - 1 ==> s[1..j][m] == s[m + 1];
      [Paren(s[1..j])] + Scan(s[j + 1..])
    else
      [Plain(s[0])] + Scan(s[1..])
  }

  function SourceOf(p: Piece): string {
    match p
    case Plain(c) => [c]
    case Paren(x) => "(" + x + ")"
  }

  /** The text the pieces were scanned from */
  function Source(ps: seq<Piece>): string
    decreases |ps|
  {
    if ps == [] then [] else SourceOf(ps[0]) + Source(ps[1..])
  }

  lemma SourceCons(p: Piece, ps: seq<Piece>)
    ensures Source([p] + ps) == SourceOf(p) + Source(ps)
  {
    assert ([p] + ps)[0] == p && ([p] + ps)[1..] == ps;
  }

  /** A text that opens with '(' and has its ')' at j is that match
      followed by the rest of the text. */
  lemma ParenSource(s: string, j: nat)
    requires 0 < j < |s| && s[0] == '(' && s[j] == ')'
    ensures SourceOf(Paren(s[1..j])) + s[j + 1..] == s
  {
    assert s[..j + 1] == "(" + s[1..j] + ")";
    assert s == s[..j + 1] + s[j + 1..];
  }

  /** Scanning loses nothing: the pieces spell the text again. */
  lemma {:induction false} ScanRoundTrip(s: string)
    ensures Source(Scan(s)) == s
    decreases |s|
  {
    if s != [] {
      if s[0] == '(' && CloseParen(s, 1).Some? {
        var j := CloseParen(s, 1).value;
        var rest := s[j + 1..];
        assert Scan(s) == [Paren(s[1..j])] + Scan(rest);
        SourceCons(Paren(s[1..j]), Scan(rest));
        ScanRoundTrip(rest);
        ParenSource(s, j);
      } else {
        SourceCons(Plain(s[0]), Scan(s[1..]));
        ScanRoundTrip(s[1..]);
        assert s == [s[0]] + s[1..];
      }
    }
  }

  predicate IsRelative(target: string) {
    StartsWith(target, "./")
  }

  /** `replace_relative_links(match)` for a match with this target */
  function ReplaceTarget(mdPath: string, target: string): string {
    if IsRelative(target) then
      "(" + UrlFor(ReplaceChar(Join(mdPath, target[2..]), '\\', '/')) + ")"
    else
      "(" + target + ")"
  }

  function EmitOf(mdPath: string, p: Piece): string {
    match p
    case Plain(c) => [c]
    case Paren(x) => ReplaceTarget(mdPath, x)
  }

  function Emit(mdPath: string, ps: seq<Piece>): string
    decreases |ps|
  {
    if ps == [] then [] else EmitOf(mdPath, ps[0]) + Emit(mdPath, ps[1..])
  }

  /** `re.sub(r'\((.*?)\)', replace_relative_links, content)` in the document at md_path */
  function Rewrite(mdPath: string, content: string): string {
    Emit(mdPath, Scan(content))
  }

  lemma {:induction false} EmitConcat(mdPath: string, x: seq<Piece>, y: seq<Piece>)
    ensures Emit(mdPath, x + y) == Emit(mdPath, x) + Emit(mdPath, y)
    decreases |x|
  {
    if x == [] {
      assert x + y == y;
    } else {
      var xy := x + y;
      assert xy != [] && xy[0] == x[0] && xy[1..] == x[1..] + y;
      EmitConcat(mdPath, x[1..], y);
      calc {
        Emit(mdPath, xy);
        EmitOf(mdPath, x[0]) + Emit(mdPath, x[1..] + y);
        EmitOf(mdPath, x[0]) + (Emit(mdPath, x[1..]) + Emit(mdPath, y));
        (EmitOf(mdPath, x[0]) + Emit(mdPath, x[1..])) + Emit(mdPath, y);
      }
    }
  }

  /** No piece is a match whose target starts with "./" */
  predicate NoRelative(ps: seq<Piece>) {
    forall p :: p in ps && p.Paren? ==> !IsRelative(p.target)
  }

  lemma NoRelativeCons(ps: seq<Piece>)
    requires ps != []
    ensures NoRelative(ps) <==> !(ps[0].Paren? && IsRelative(ps[0].target)) && NoRelative(ps[1..])
  {
    assert forall p :: p in ps <==> p == ps[0] || p in ps[1..] by {
      assert ps == [ps[0]] + ps[1..];
    }
  }

  /** A relative link is emitted differently from its source already at its
      second character. */
  lemma RelativePieceDiffers(mdPath: string, p: Piece, e': string, s': string)
    requires p.Paren? && IsRelative(p.target)
    ensures EmitOf(mdPath, p) + e' != SourceOf(p) + s'
  {
    var u := ReplaceChar(Join(mdPath, p.target[2..]), '\\', '/');
    var e, s := "(" + UrlFor(u) + ")", SourceOf(p);
    assert EmitOf(mdPath, p) == e;
    assert (e + e')[1] == e[1] == '/';
    assert (s + s')[1] == s[1] == '.';
  }

  lemma CancelPrefix(e: string, a: string, b: string)
    ensures e + a == e + b <==> a == b
  {
    if e + a == e + b {
      assert (e + a)[|e|..] == a && (e + b)[|e|..] == b;
    }
  }

  /** Emitting equals the source exactly when no piece is a relative link. */
  lemma {:induction false} EmitIsSourceIff(mdPath: string, ps: seq<Piece>)
    ensures Emit(mdPath, ps) == Source(ps) <==> NoRelative(ps)
    decreases |ps|
  {
    if ps != [] {
      EmitIsSourceIff(mdPath, ps[1..]);
      NoRelativeCons(ps);
      var e', s' := Emit(mdPath, ps[1..]), Source(ps[1..]);
      if ps[0].Paren? && IsRelative(ps[0].target) {
        RelativePieceDiffers(mdPath, ps[0], e', s');
      } else {
        assert EmitOf(mdPath, ps[0]) == SourceOf(ps[0]);
        CancelPrefix(SourceOf(ps[0]), e', s');
      }
    }
  }

  /** Rewriting leaves a document unchanged exactly when none of its
      matched targets starts with "./". */
  lemma RewriteUnchangedIff(mdPath: string, content: string)
    ensures Rewrite(mdPath, content) == content <==> NoRelative(Scan(content))
  {
    ScanRoundTrip(content);
    EmitIsSourceIff(mdPath, Scan(content));
  }

  /** A relative target can only come from a "(./" in the text. */
  lemma {:induction false} RelativeTargetNeedsMarker(s: string, p: Piece)
    requires p in Scan(s) && p.Paren? && !Contains(s, "(./")
    ensures !IsRelative(p.target)
    decreases |s|
  {
    if s[0] == '(' && CloseParen(s, 1).Some? {
      var j := CloseParen(s, 1).value;
      if j >= 3 {
        assert s[1..j][..2] == s[1..3];
        assert s[..3] == [s[0]] + s[1..3];
      }
      if p != Paren(s[1..j]) {
        assert !Contains(s[j + 1..], "(./") by {
          if Contains(s[j + 1..], "(./") { ContainsInSuffix(s, j + 1, "(./"); }
        }
        RelativeTargetNeedsMarker(s[j + 1..], p);
      }
    } else {
      RelativeTargetNeedsMarker(s[1..], p);
    }
  }

  /** Text in which no "(./" occurs is left identical. */
  /** A "(./" at i closed by a ')' at j on the same line */
  predicate ClosedMarkerAt(s: string, i: nat, j: nat) {
    i + 3 <= j < |s| && s[i..i + 3] == "(./" && s[j] == ')' &&
    forall m :: i < m < j ==> s[m] != '\n'
  }

  predicate HasClosedMarker(s: string) {
    exists i: nat, j: nat :: i < j < |s| && ClosedMarkerAt(s, i, j)
  }

  lemma ClosedMarkerInSuffix(s: string, k: nat)
    requires k <= |s| && HasClosedMarker(s[k..])
    ensures HasClosedMarker(s)
  {
    var i: nat, j: nat :| i < j < |s[k..]| && ClosedMarkerAt(s[k..], i, j);
    assert s[k..][i..i + 3] == s[k + i..k + i + 3];
    forall m | k + i < m < k + j ensures s[m] != '\n' {
      assert s[m] == s[k..][m - k];
    }
    assert ClosedMarkerAt(s, k + i, k + j);
  }

  /** A leading match whose target is relative is a closed marker. */
  lemma LeadingRelativeMatch(s: string, j: nat)
    requires 0 < |s| && s[0] == '(' && CloseParen(s, 1) == Some(j) && IsRelative(s[1..j])
    ensures ClosedMarkerAt(s, 0, j)
  {
    assert s[1..j][..2] == s[1..3];
    assert s[0..3] == [s[0]] + s[1..3];
  }

  /** A relative target can only come from a "(./" closed on its own line. */
  lemma {:induction false} RelativeTargetNeedsClosedMarker(s: string, p: Piece)
    requires p in Scan(s) && p.Paren? && IsRelative(p.target)
    ensures HasClosedMarker(s)
    decreases |s|
  {
    if s[0] == '(' && CloseParen(s, 1).Some? {
      var j := CloseParen(s, 1).value;
      assert Scan(s) == [Paren(s[1..j])] + Scan(s[j + 1..]);
      if p == Paren(s[1..j]) {
        LeadingRelativeMatch(s, j);
      } else {
        RelativeTargetNeedsClosedMarker(s[j + 1..], p);
        ClosedMarkerInSuffix(s, j + 1);
      }
    } else {
      assert Scan(s) == [Plain(s[0])] + Scan(s[1..]);
      RelativeTargetNeedsClosedMarker(s[1..], p);
      ClosedMarkerInSuffix(s, 1);
    }
  }

  /** A document in which no "(./" is closed by a ')' on the same line is
      left identical. */
  lemma ClosedMarkerUnchanged(mdPath: string, content: string)
    requires !HasClosedMarker(content)
    ensures Rewrite(mdPath, content) == content
  {
    forall p | p in Scan(content) && p.Paren? ensures !IsRelative(p.target) {
      if IsRelative(p.target) {
        RelativeTargetNeedsClosedMarker(content, p);
      }
    }
    RewriteUnchangedIff(mdPath, content);
  }

  lemma NoMarkerUnchanged(mdPath: string, content: string)
    requires !Contains(content, "(./")
    ensures Rewrite(mdPath, content) == content
  {
    forall p | p in Scan(content) && p.Paren? ensures !IsRelative(p.target) {
      RelativeTargetNeedsMarker(content, p);
    }
    RewriteUnchangedIff(mdPath, content);
  }

  lemma {:induction false} CloseParenAt(s: string, k: nat, j: nat)
    requires k <= j < |s| && s[j] == ')'
    requires forall m :: k <= m < j ==> s[m] != ')' && s[m] != '\n'
    ensures CloseParen(s, k) == Some(j)
    decreases j - k
  {
    if k < j {
      CloseParenAt(s, k + 1, j);
    }
  }

  /** A match `(x)` is replaced as `replace_relative_links` says and the
      search resumes right after it. */
  lemma RewriteMatch(mdPath: string, x: string, rest: string)
    requires ')' !in x && '\n' !in x
    ensures Rewrite(mdPath, "(" + x + ")" + rest) == ReplaceTarget(mdPath, x) + Rewrite(mdPath, rest)
  {
    var s := "(" + x + ")" + rest;
    var j := |x| + 1;
    assert forall m :: 1 <= m < j ==> s[m] == x[m - 1];
    CloseParenAt(s, 1, j);
    assert s[1..j] == x && s[j + 1..] == rest;
  }

  /** A target that does not start with "./" is emitted as it was. */
  lemma NonRelativeLinkKept(mdPath: string, x: string)
    requires ')' !in x && '\n' !in x && !IsRelative(x)
    ensures Rewrite(mdPath, "(" + x + ")") == "(" + x + ")"
  {
    RewriteMatch(mdPath, x, "");
    assert "(" + x + ")" + "" == "(" + x + ")";
  }

  /** Any "./y" link becomes the URL of `os.path.join(md_path, y)` with every
      backslash turned into '/', so the produced link holds no backslash. */
  lemma RelativeLinkRewritten(mdPath: string, y: string)
    requires ')' !in y && '\n' !in y
    ensures Rewrite(mdPath, "(./" + y + ")") == "(" + UrlFor(ReplaceChar(Join(mdPath, y), '\\', '/')) + ")"
    ensures '\\' !in Rewrite(mdPath, "(./" + y + ")")
  {
    var x := "./" + y;
    assert x[2..] == y && IsRelative(x);
    assert "(./" + y + ")" == "(" + x + ")" + "";
    RewriteMatch(mdPath, x, "");
    LinkWithoutBackslash(ReplaceChar(Join(mdPath, y), '\\', '/'));
  }

  lemma LinkWithoutBackslash(u: string)
    requires '\\' !in u
    ensures '\\' !in "(" + UrlFor(u) + ")"
  {
    var l := "(" + UrlFor(u) + ")";
    forall k | 0 <= k < |l| ensures l[k] != '\\' {
      if 8 <= k < 8 + |u| {
        assert l[k] == u[k - 8];
      }
    }
  }

  /** A "./y" link in the document at md_path points at md_path/y: the join
      is against the whole request path, not its parent folder, and routing
      the produced URL gives that path back. */
  lemma RelativeLinkJoinsRequestPath(mdPath: string, y: string)
    requires ValidRequestPath(mdPath) && !EndsWith(mdPath, "/") && '\\' !in mdPath
    requires ')' !in y && '\n' !in y && '\\' !in y && !StartsWith(y, "/")
    ensures Rewrite(mdPath, "(./" + y + ")") == "(" + UrlFor(mdPath + "/" + y) + ")"
    ensures RouteOf(UrlFor(mdPath + "/" + y)) == Some(mdPath + "/" + y)
  {
    var x := "./" + y;
    assert x[2..] == y && IsRelative(x);
    assert "(./" + y + ")" == "(" + x + ")" + "";
    RewriteMatch(mdPath, x, "");
    assert Join(mdPath, y) == mdPath + "/" + y;
    RouteOfUrlFor(mdPath + "/" + y);
  }

  lemma {:induction false} CloseParenStopsAtNewline(a: string, b: string, k: nat)
    requires k <= |a|
    ensures CloseParen(a + "\n" + b, k) == CloseParen(a, k)
    decreases |a| - k
  {
    var s := a + "\n" + b;
    if k < |a| {
      assert s[k] == a[k];
      if a[k] != '\n' && a[k] != ')' {
        CloseParenStopsAtNewline(a, b, k + 1);
      }
    } else {
      assert s[k] == '\n';
    }
  }

  lemma {:induction false} ScanLineLocal(a: string, b: string)
    ensures Scan(a + "\n" + b) == Scan(a) + [Plain('\n')] + Scan(b)
    decreases |a|, 1
  {
    if a == [] {
      var s := a + "\n" + b;
      assert s == "\n" + b && s[1..] == b;
    } else if a[0] == '(' && CloseParen(a, 1).Some? {
      ScanLineLocalParen(a, b, CloseParen(a, 1).value);
    } else {
      ScanLineLocalPlain(a, b);
    }
  }

  lemma {:induction false} ScanLineLocalParen(a: string, b: string, j: nat)
    requires a != [] && a[0] == '(' && CloseParen(a, 1) == Some(j)
    ensures Scan(a + "\n" + b) == Scan(a) + [Plain('\n')] + Scan(b)
    decreases |a|, 0
  {
    ScanParenBeforeNewline(a, b, j);
    ScanLineLocal(a[j + 1..], b);
    ConsAssoc(Paren(a[1..j]), Scan(a[j + 1..]), Plain('\n'), Scan(b));
  }

  lemma {:induction false} ScanLineLocalPlain(a: string, b: string)
    requires a != [] && !(a[0] == '(' && CloseParen(a, 1).Some?)
    ensures Scan(a + "\n" + b) == Scan(a) + [Plain('\n')] + Scan(b)
    decreases |a|, 0
  {
    ScanPlainBeforeNewline(a, b);
    ScanLineLocal(a[1..], b);
    ConsAssoc(Plain(a[0]), Scan(a[1..]), Plain('\n'), Scan(b));
  }

  lemma ScanParenBeforeNewline(a: string, b: string, j: nat)
    requires a != [] && a[0] == '(' && CloseParen(a, 1) == Some(j)
    ensures Scan(a) == [Paren(a[1..j])] + Scan(a[j + 1..])
    ensures Scan(a + "\n" + b) == [Paren(a[1..j])] + Scan(a[j + 1..] + "\n" + b)
  {
    var s := a + "\n" + b;
    CloseParenStopsAtNewline(a, b, 1);
    assert s[0] == '(';
    assert s[1..j] == a[1..j];
    assert s[j + 1..] == a[j + 1..] + "\n" + b;
  }

  lemma ScanPlainBeforeNewline(a: string, b: string)
    requires a != [] && !(a[0] == '(' && CloseParen(a, 1).Some?)
    ensures Scan(a) == [Plain(a[0])] + Scan(a[1..])
    ensures Scan(a + "\n" + b) == [Plain(a[0])] + Scan(a[1..] + "\n" + b)
  {
    var s := a + "\n" + b;
    CloseParenStopsAtNewline(a, b, 1);
    assert s[0] == a[0];
    assert s[1..] == a[1..] + "\n" + b;
  }

  lemma ConsAssoc(p: Piece, x: seq<Piece>, q: Piece, y: seq<Piece>)
    ensures [p] + (x + [q] + y) == [p] + x + [q] + y
  {
  }

  /** No match spans a line break, so each line is rewritten on its own. */
  lemma RewriteLineLocal(mdPath: string, a: string, b: string)
    ensures Rewrite(mdPath, a + "\n" + b) == Rewrite(mdPath, a) + "\n" + Rewrite(mdPath, b)
  {
    ScanLineLocal(a, b);
    EmitConcat(mdPath, Scan(a) + [Plain('\n')], Scan(b));
    EmitConcat(mdPath, Scan(a), [Plain('\n')]);
  }
}
