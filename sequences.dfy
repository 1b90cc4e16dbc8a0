/**
  Order-preserving filters. Each extraction loop of the scraper walks a list
  of page elements and appends a record for the ones it keeps; `FilterMap` is
  that pattern as a function.
 */
module Sequences {
  import opened Results

  /** The images of the elements `f` keeps, in the order of `s`. */
  function FilterMap<T, U>(s: seq<T>, f: T -> Option<U>): (r: seq<U>)
    ensures |r| <= |s|
  {
    if s == [] then [] else Kept(s[0], f) + FilterMap(s[1..], f)
  }

  /** What one element contributes: its image, or nothing. */
  function Kept<T, U>(x: T, f: T -> Option<U>): (r: seq<U>)
    ensures |r| <= 1
  {
    match f(x)
    case Some(u) => [u]
    case None => []
  }

  /** Filtering distributes over concatenation: the order of the input is the order of the output. */
  lemma {:induction false} FilterMapConcat<T, U>(a: seq<T>, b: seq<T>, f: T -> Option<U>)
    ensures FilterMap(a + b, f) == FilterMap(a, f) + FilterMap(b, f)
  {
    if a != [] {
      assert (a + b)[0] == a[0];
      assert (a + b)[1..] == a[1..] + b;
      FilterMapConcat(a[1..], b, f);
    } else {
      assert a + b == b;
    }
  }

  /** One more element at the end adds at most its own image at the end. */
  lemma FilterMapSnoc<T, U>(s: seq<T>, x: T, f: T -> Option<U>)
    ensures FilterMap(s + [x], f) == FilterMap(s, f) + Kept(x, f)
  {
    FilterMapConcat(s, [x], f);
    assert FilterMap([x], f) == Kept(x, f) + FilterMap([x][1..], f);
  }

  /** `u` is in the output exactly when some input element maps to it. */
  lemma {:induction false} FilterMapMember<T, U>(s: seq<T>, f: T -> Option<U>, u: U)
    ensures u in FilterMap(s, f) <==> exists k :: 0 <= k < |s| && f(s[k]) == Some(u)
  {
    if s != [] {
      FilterMapMember(s[1..], f, u);
      if exists k :: 0 <= k < |s| && f(s[k]) == Some(u) {
        var k :| 0 <= k < |s| && f(s[k]) == Some(u);
        if k > 0 {
          assert f(s[1..][k - 1]) == Some(u);
        }
      }
      if exists k :: 0 <= k < |s[1..]| && f(s[1..][k]) == Some(u) {
        var k :| 0 <= k < |s[1..]| && f(s[1..][k]) == Some(u);
        assert f(s[k + 1]) == Some(u);
      }
    }
  }

  /** Elements that map to None contribute nothing, wherever they are. */
  lemma FilterMapSkip<T, U>(a: seq<T>, x: T, b: seq<T>, f: T -> Option<U>)
    requires f(x).None?
    ensures FilterMap(a + [x] + b, f) == FilterMap(a, f) + FilterMap(b, f)
  {
    FilterMapConcat(a + [x], b, f);
    FilterMapSnoc(a, x, f);
  }
}
