/** A loop that appends `f(x)` for the elements x where it is defined, the
    shape of the search and sitemap loops, stated once for any f. */
module Filtering {
  import opened Strings
  import opened Sorting

  /** The values the loop appends, in order */
  function KeepSome<A, B>(f: A -> Option<B>, xs: seq<A>): (r: seq<B>)
    ensures |r| <= |xs|
    decreases |xs|
  {
    if xs == [] then []
    else
      var prev := KeepSome(f, xs[..|xs| - 1]);
      match f(xs[|xs| - 1])
      case None => prev
      case Some(y) => prev + [y]
  }

  /** The elements that contribute a value, in order */
  function KeptFrom<A(==,!new), B>(f: A -> Option<B>, xs: seq<A>): (r: seq<A>)
    ensures forall x :: x in r <==> x in xs && f(x).Some?
    decreases |xs|
  {
    if xs == [] then []
    else
      var init := xs[..|xs| - 1];
      var x := xs[|xs| - 1];
      assert xs == init + [x];
      if f(x).Some? then KeptFrom(f, init) + [x] else KeptFrom(f, init)
  }

  /** One value per contributing element, in the same order: none is
      dropped, duplicated or reordered. */
  lemma {:induction false} OnePerKept<A(!new), B>(f: A -> Option<B>, xs: seq<A>)
    ensures |KeepSome(f, xs)| == |KeptFrom(f, xs)|
    ensures forall k :: 0 <= k < |KeptFrom(f, xs)| ==> Some(KeepSome(f, xs)[k]) == f(KeptFrom(f, xs)[k])
    decreases |xs|
  {
    if xs != [] {
      var init := xs[..|xs| - 1];
      OnePerKept(f, init);
      var r0 := KeepSome(f, init);
      var m0 := KeptFrom(f, init);
      var r := KeepSome(f, xs);
      var m := KeptFrom(f, xs);
      if f(xs[|xs| - 1]).Some? {
        assert r == r0 + [f(xs[|xs| - 1]).value];
        assert m == m0 + [xs[|xs| - 1]];
        forall k | 0 <= k < |m| ensures Some(r[k]) == f(m[k]) {
          if k < |m0| {
            assert r[k] == r0[k] && m[k] == m0[k];
          }
        }
      }
    }
  }

  /** The loop appends exactly the values f yields on the elements. */
  lemma {:induction false} KeepSomeMembers<A, B>(f: A -> Option<B>, xs: seq<A>)
    ensures forall y :: y in KeepSome(f, xs) <==> exists x :: x in xs && f(x) == Some(y)
    decreases |xs|
  {
    if xs != [] {
      var init := xs[..|xs| - 1];
      var last := xs[|xs| - 1];
      assert xs == init + [last];
      KeepSomeMembers(f, init);
    }
  }

  /** Keeping some of a sorted list of names keeps it sorted. */
  lemma {:induction false} KeptFromSorted<B>(f: string -> Option<B>, xs: seq<string>)
    requires Sorted(xs)
    ensures Sorted(KeptFrom(f, xs))
    decreases |xs|
  {
    if xs != [] {
      var init := xs[..|xs| - 1];
      var x := xs[|xs| - 1];
      assert xs == init + [x];
      KeptFromSorted(f, init);
      var r := KeptFrom(f, init);
      assert forall y :: y in r ==> Le(y, x) by {
        forall y | y in r ensures Le(y, x) {
          var i :| 0 <= i < |init| && init[i] == y;
          assert xs[i] == y;
        }
      }
    }
  }
}
