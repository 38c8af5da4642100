/** The operations on Python `str` values that the site relies on.
    Where Python consults the Unicode database (case mapping, whitespace)
    the model uses the ASCII part of it and passes other characters through. */
module Strings {

  datatype Option<T> = None | Some(value: T)

  predicate StartsWith(s: string, p: string) {
    |p| <= |s| && s[..|p|] == p
  }

  predicate EndsWith(s: string, p: string) {
    |p| <= |s| && s[|s| - |p|..] == p
  }

  /** `p in s` for strings: p occurs somewhere in s */
  predicate Contains(s: string, p: string)
    decreases |s|
  {
    StartsWith(s, p) || (s != [] && Contains(s[1..], p))
  }

  lemma {:induction false} ContainsInSuffix(s: string, k: nat, p: string)
    requires k <= |s| && Contains(s[k..], p)
    ensures Contains(s, p)
    decreases k
  {
    if k > 0 {
      assert s[1..][k - 1..] == s[k..];
      ContainsInSuffix(s[1..], k - 1, p);
    }
  }

  lemma EndsWithContains(s: string, p: string)
    requires EndsWith(s, p)
    ensures Contains(s, p)
  {
    var k := |s| - |p|;
    assert StartsWith(s[k..], p);
    assert Contains(s[k..], p);
    ContainsInSuffix(s, k, p);
  }

  /** `s.replace(a, b)` for single characters */
  function ReplaceChar(s: string, a: char, b: char): (r: string)
    ensures |r| == |s|
    ensures a != b ==> a !in r
    ensures forall c :: c in r ==> (c in s && c != a) || c == b
    ensures a !in s ==> r == s
    ensures forall k :: 0 <= k < |s| && s[k] != a ==> r[k] == s[k]
    ensures forall k :: 0 <= k < |s| && s[k] == a ==> r[k] == b
  {
    seq(|s|, k requires 0 <= k < |s| => if s[k] == a then b else s[k])
  }

  /** `s.replace(pat, rep)`: scanning left to right, every occurrence of pat
      that does not overlap an earlier replaced one becomes rep */
  function ReplaceAll(s: string, pat: string, rep: string): (r: string)
    requires pat != []
    ensures forall c :: c in r ==> c in s || c in rep
    ensures rep == [] ==> |r| <= |s|
    decreases |s|
  {
    if s == [] then []
    else if StartsWith(s, pat) then rep + ReplaceAll(s[|pat|..], pat, rep)
    else [s[0]] + ReplaceAll(s[1..], pat, rep)
  }

  /** A string without the pattern is left as it is. */
  lemma {:induction false} ReplaceAllAbsent(s: string, pat: string, rep: string)
    requires pat != [] && !Contains(s, pat)
    ensures ReplaceAll(s, pat, rep) == s
    decreases |s|
  {
    if s != [] {
      ReplaceAllAbsent(s[1..], pat, rep);
    }
  }

  predicate IsAsciiLetter(c: char) {
    'a' <= c <= 'z' || 'A' <= c <= 'Z'
  }

  predicate IsUpper(c: char) {
    'A' <= c <= 'Z'
  }

  function UpperChar(c: char): (d: char)
    ensures IsAsciiLetter(d) <==> IsAsciiLetter(c)
    ensures !IsAsciiLetter(c) ==> d == c
    ensures IsAsciiLetter(c) ==> IsUpper(d)
    ensures 'a' <= c <= 'z' ==> d as int == c as int - 32
  {
    if 'a' <= c <= 'z' then (c as int - 32) as char else c
  }

  function LowerChar(c: char): (d: char)
    ensures IsAsciiLetter(d) <==> IsAsciiLetter(c)
    ensures !IsAsciiLetter(c) ==> d == c
    ensures !IsUpper(d) && (!IsUpper(c) ==> d == c)
    ensures IsUpper(c) ==> d as int == c as int + 32
  {
    if 'A' <= c <= 'Z' then (c as int + 32) as char else c
  }

  /** `s.lower()`: no upper-case ASCII letter is left and every other character stays */
  function LowerStr(s: string): (r: string)
    ensures |r| == |s|
    ensures forall k :: 0 <= k < |r| ==> !IsUpper(r[k])
    ensures forall k :: 0 <= k < |s| && !IsUpper(s[k]) ==> r[k] == s[k]
    ensures forall k :: 0 <= k < |s| && IsUpper(s[k]) ==> r[k] as int == s[k] as int + 32
  {
    seq(|s|, k requires 0 <= k < |s| => LowerChar(s[k]))
  }

  /** What `str.title()` puts at position k: the upper-case form of s[k]
      when it starts a word (no cased character before it), the lower-case
      form otherwise */
  function TitleCharAt(s: string, k: nat): (c: char)
    requires k < |s|
    ensures !IsAsciiLetter(s[k]) ==> c == s[k]
    ensures IsAsciiLetter(s[k]) ==>
              LowerChar(c) == LowerChar(s[k]) && (IsUpper(c) <==> k == 0 || !IsAsciiLetter(s[k - 1]))
  {
    if k > 0 && IsAsciiLetter(s[k - 1]) then LowerChar(s[k]) else UpperChar(s[k])
  }

  /** `s.title()` */
  function Title(s: string): (r: string)
    ensures |r| == |s|
    ensures forall k {:trigger r[k]} :: 0 <= k < |s| && !IsAsciiLetter(s[k]) ==> r[k] == s[k]
    ensures forall c :: c in r && !IsAsciiLetter(c) ==> c in s
    ensures forall k {:trigger r[k]} :: 0 <= k < |s| && IsAsciiLetter(s[k]) ==>
              LowerChar(r[k]) == LowerChar(s[k]) && (IsUpper(r[k]) <==> k == 0 || !IsAsciiLetter(s[k - 1]))
  {
    var r := seq(|s|, k requires 0 <= k < |s| => TitleCharAt(s, k));
    assert forall k :: 0 <= k < |s| && !IsAsciiLetter(r[k]) ==> r[k] == s[k];
    r
  }
  /** Title case brings in no character that is not a letter. */
  lemma TitleKeepsOut(s: string, c: char)
    requires !IsAsciiLetter(c) && c !in s
    ensures c !in Title(s)
  {
  }


  /** Title-casing twice is title-casing once. */
  lemma TitleIdempotent(s: string)
    ensures Title(Title(s)) == Title(s)
  {
    var r := Title(s);
    forall k | 0 <= k < |s| ensures Title(r)[k] == r[k] {
      if k > 0 {
        assert IsAsciiLetter(r[k - 1]) <==> IsAsciiLetter(s[k - 1]);
      }
    }
  }

  /** `str.isspace()` on one character, restricted to the ASCII range */
  predicate IsSpace(c: char) {
    c == ' ' || 9 <= c as int <= 13 || 28 <= c as int <= 31
  }

  predicate AllSpace(s: string) {
    forall k :: 0 <= k < |s| ==> IsSpace(s[k])
  }

  /** The first position at or after i that does not hold a blank */
  function SkipBlanks(s: string, i: nat): (k: nat)
    requires i <= |s|
    ensures i <= k <= |s| && (k < |s| ==> !IsSpace(s[k]))
    ensures forall m :: i <= m < k ==> IsSpace(s[m])
    decreases |s| - i
  {
    if i < |s| && IsSpace(s[i]) then SkipBlanks(s, i + 1) else i
  }

  /** The end of s once the blanks before position j are dropped */
  function SkipBlanksBack(s: string, j: nat): (k: nat)
    requires j <= |s|
    ensures k <= j && (0 < k ==> !IsSpace(s[k - 1]))
    ensures forall m :: k <= m < j ==> IsSpace(s[m])
    decreases j
  {
    if 0 < j && IsSpace(s[j - 1]) then SkipBlanksBack(s, j - 1) else j
  }

  /** `s.strip()` */
  function Strip(s: string): (r: string)
    ensures r == [] <==> AllSpace(s)
    ensures r != [] ==> !IsSpace(r[0]) && !IsSpace(r[|r| - 1])
    ensures |r| <= |s|
    ensures forall c :: c in r ==> c in s
    ensures exists i, j :: 0 <= i <= j <= |s| && r == s[i..j] && AllSpace(s[..i]) && AllSpace(s[j..])
  {
    var i := SkipBlanks(s, 0);
    var j := SkipBlanksBack(s, |s|);
    if i < j then
      assert s[i..j][0] == s[i] && s[i..j][j - i - 1] == s[j - 1];
      assert forall c :: c in s[i..j] ==> c in s;
      assert AllSpace(s[..i]) && AllSpace(s[j..]);
      s[i..j]
    else
      assert s[0..0] == [] && s[..0] == [] && s[0..] == s;
      []
  }

  /** `re.sub('[...]+', '', s)` for a character class: every character of
      the class is dropped */
  function RemoveChars(s: string, cs: set<char>): (r: string)
    ensures |r| <= |s|
    ensures forall c :: c in r ==> c in s && c !in cs
    ensures (forall k :: 0 <= k < |s| ==> s[k] !in cs) ==> r == s
    ensures |s| == 1 ==> r == if s[0] in cs then [] else s
    decreases |s|
  {
    if s == [] then []
    else if s[0] in cs then RemoveChars(s[1..], cs)
    else [s[0]] + RemoveChars(s[1..], cs)
  }
  /** The removal treats each character on its own and keeps the order of
      the ones it keeps. */
  lemma {:induction false} RemoveCharsConcat(x: string, y: string, cs: set<char>)
    ensures RemoveChars(x + y, cs) == RemoveChars(x, cs) + RemoveChars(y, cs)
    decreases |x|
  {
    if x != [] {
      assert (x + y)[1..] == x[1..] + y;
      RemoveCharsConcat(x[1..], y, cs);
    } else {
      assert x + y == y;
    }
  }


  /** `s.split('/')[0]` */
  function FirstSegment(s: string): (r: string)
    ensures StartsWith(s, r) && '/' !in r
    ensures r == s || s[|r|] == '/'
    ensures '/' !in s ==> r == s
    decreases |s|
  {
    if s == [] || s[0] == '/' then [] else [s[0]] + FirstSegment(s[1..])
  }

  /** `s.split('/')[-1]`, which is also `os.path.basename(s)` */
  function LastSegment(s: string): (r: string)
    ensures EndsWith(s, r) && '/' !in r
    ensures r == s || s[|s| - |r| - 1] == '/'
    ensures '/' !in s ==> r == s
  {
    if s == [] || s[|s| - 1] == '/' then []
    else
      var rest := LastSegment(s[..|s| - 1]);
      LastSegmentGrows(s, rest);
      rest + [s[|s| - 1]]
  }

  /** The step of LastSegment: a character other than '/' extends it. */
  lemma LastSegmentGrows(s: string, rest: string)
    requires s != [] && s[|s| - 1] != '/'
    requires EndsWith(s[..|s| - 1], rest) && '/' !in rest
    requires rest == s[..|s| - 1] || s[|s| - |rest| - 2] == '/'
    ensures var r := rest + [s[|s| - 1]];
            EndsWith(s, r) && '/' !in r &&
            (r == s || s[|s| - |r| - 1] == '/') &&
            ('/' !in s ==> r == s)
  {
    var r := rest + [s[|s| - 1]];
    assert s == s[..|s| - 1] + [s[|s| - 1]];
    assert s[|s| - |r|..] == r;
    if rest != s[..|s| - 1] {
      assert s[|s| - |r| - 1] == '/';
    }
  }


}
