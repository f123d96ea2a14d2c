/** Shared vocabulary: bytes, optional values, flattening, filtering, and the
    ASCII case folding used by SQLite's NOCASE and by the body search. */
module Common {

  /** One octet of the archive file. */
  newtype byte = x: int | 0 <= x < 256

  /** A value that may be absent: Python's `None`, or SQL's NULL. */
  datatype Option<+T> = None | Some(value: T)

  function Min(a: int, b: int): int
  {
    if a <= b then a else b
  }

  function Max(a: int, b: int): int
  {
    if a <= b then b else a
  }

  /** `b"".join(xss)`: the pieces laid end to end, in order. */
  function Concat<T>(xss: seq<seq<T>>): seq<T>
  {
    if |xss| == 0 then [] else xss[0] + Concat(xss[1..])
  }

  /** Joining a sequence of pieces split in two is joining each half. */
  lemma {:induction false} ConcatAppend<T>(xss: seq<seq<T>>, yss: seq<seq<T>>)
    ensures Concat(xss + yss) == Concat(xss) + Concat(yss)
  {
    if |xss| == 0 {
      assert xss + yss == yss;
    } else {
      assert (xss + yss)[1..] == xss[1..] + yss;
      ConcatAppend(xss[1..], yss);
    }
  }

  /** Appending one piece at the end appends its contents at the end. */
  lemma ConcatSnoc<T>(xss: seq<seq<T>>, xs: seq<T>)
    ensures Concat(xss + [xs]) == Concat(xss) + xs
  {
    ConcatAppend(xss, [xs]);
    assert Concat([xs]) == xs + Concat([xs][1..]);
  }

  /** The elements of `s` that satisfy `p`, in their original order. */
  function Filter<T>(s: seq<T>, p: T -> bool): seq<T>
  {
    if |s| == 0 then []
    else if p(s[0]) then [s[0]] + Filter(s[1..], p)
    else Filter(s[1..], p)
  }

  /** Filtering a sequence split in two filters each half. */
  lemma {:induction false} FilterAppend<T>(s: seq<T>, t: seq<T>, p: T -> bool)
    ensures Filter(s + t, p) == Filter(s, p) + Filter(t, p)
  {
    if |s| == 0 {
      assert s + t == t;
    } else {
      assert (s + t)[1..] == s[1..] + t;
      FilterAppend(s[1..], t, p);
    }
  }

  /** Extending the input by one element extends the filter by at most that element. */
  lemma FilterSnoc<T>(s: seq<T>, x: T, p: T -> bool)
    ensures Filter(s + [x], p) == if p(x) then Filter(s, p) + [x] else Filter(s, p)
  {
    FilterAppend(s, [x], p);
    assert Filter([x], p) == (if p(x) then [x] else []) by {
      assert [x][1..] == [];
    }
  }

  /** Exactly the elements of `s` satisfying `p` survive the filter. */
  lemma {:induction false} FilterMembers<T>(s: seq<T>, p: T -> bool)
    ensures forall x :: x in Filter(s, p) <==> x in s && p(x)
  {
    if |s| > 0 {
      FilterMembers(s[1..], p);
      assert s == [s[0]] + s[1..];
    }
  }

  /** Filtering a prefix of `s` yields a prefix of filtering `s`. */
  lemma {:induction false} FilterPrefix<T>(s: seq<T>, j: nat, p: T -> bool)
    requires j <= |s|
    ensures Filter(s[..j], p) <= Filter(s, p)
  {
    assert s[..j] + s[j..] == s;
    FilterAppend(s[..j], s[j..], p);
    var a, b := Filter(s[..j], p), Filter(s[j..], p);
    assert (a + b)[..|a|] == a;
  }

  /** Filtering twice is filtering once by the conjunction `r`. */
  lemma {:induction false} FilterFilter<T>(s: seq<T>, p: T -> bool, q: T -> bool, r: T -> bool)
    requires forall x :: r(x) == (p(x) && q(x))
    ensures Filter(Filter(s, p), q) == Filter(s, r)
  {
    if |s| > 0 {
      FilterFilter(s[1..], p, q, r);
    }
  }

  /** Predicates that agree on the elements of `s` filter it alike. */
  lemma {:induction false} FilterAgree<T>(s: seq<T>, p: T -> bool, q: T -> bool)
    requires forall i :: 0 <= i < |s| ==> p(s[i]) == q(s[i])
    ensures Filter(s, p) == Filter(s, q)
  {
    if |s| > 0 {
      FilterAgree(s[1..], p, q);
    }
  }

  /** A predicate that holds throughout `s` keeps all of it. */
  lemma {:induction false} FilterAll<T>(s: seq<T>, p: T -> bool)
    requires forall i :: 0 <= i < |s| ==> p(s[i])
    ensures Filter(s, p) == s
  {
    if |s| > 0 {
      FilterAll(s[1..], p);
    }
  }

  /** Every element of `s` stands in `before` to every later one. */
  predicate Pairwise<T>(s: seq<T>, before: (T, T) -> bool)
  {
    forall i, j :: 0 <= i < j < |s| ==> before(s[i], s[j])
  }

  /** Where the `j`-th survivor of a filter sits in the input. */
  lemma {:induction false} FilterOrigin<T>(s: seq<T>, p: T -> bool, j: nat) returns (k: nat)
    requires j < |Filter(s, p)|
    ensures k < |s| && s[k] == Filter(s, p)[j] && p(s[k])
  {
    if p(s[0]) && j == 0 {
      k := 0;
    } else {
      var k' := FilterOrigin(s[1..], p, if p(s[0]) then j - 1 else j);
      k := k' + 1;
    }
  }

  /** Filtering keeps a pairwise ordering. */
  lemma {:induction false} FilterPairwise<T>(s: seq<T>, p: T -> bool, before: (T, T) -> bool)
    requires Pairwise(s, before)
    ensures Pairwise(Filter(s, p), before)
  {
    if |s| > 0 {
      FilterPairwise(s[1..], p, before);
      var rest := Filter(s[1..], p);
      forall j | 0 <= j < |rest|
        ensures before(s[0], rest[j])
      {
        var k := FilterOrigin(s[1..], p, j);
        assert s[k + 1] == rest[j];
      }
      if p(s[0]) {
        var r := [s[0]] + rest;
        forall i, j | 0 <= i < j < |r|
          ensures before(r[i], r[j])
        {
          assert r[j] == rest[j - 1];
          if i > 0 {
            assert r[i] == rest[i - 1];
          }
        }
      }
    }
  }

  /** `needle` occurs in `hay` starting at position `i`. */
  predicate OccursAt<T(==)>(hay: seq<T>, needle: seq<T>, i: int)
  {
    0 <= i && i + |needle| <= |hay| && hay[i..i + |needle|] == needle
  }

  /** Python's `needle in hay` on strings and bytes. */
  predicate Contains<T(==)>(hay: seq<T>, needle: seq<T>)
  {
    exists i :: 0 <= i <= |hay| - |needle| && OccursAt(hay, needle, i)
  }

  /** ASCII lower-casing of one character; every other character is kept. */
  function LowerChar(c: char): char
  {
    if 'A' <= c <= 'Z' then (c as int + 32) as char else c
  }

  /** ASCII lower-casing of a string, character by character. */
  function Lower(s: string): (r: string)
    ensures |r| == |s|
    ensures forall i :: 0 <= i < |s| ==> r[i] == LowerChar(s[i])
  {
    if |s| == 0 then [] else [LowerChar(s[0])] + Lower(s[1..])
  }

  /** Lower-casing commutes with slicing. */
  lemma {:induction false} LowerSlice(s: string, lo: nat, hi: nat)
    requires lo <= hi <= |s|
    ensures Lower(s[lo..hi]) == Lower(s)[lo..hi]
  {
    var l, t := Lower(s[lo..hi]), Lower(s)[lo..hi];
    forall k | 0 <= k < hi - lo
      ensures l[k] == t[k]
    {
      assert l[k] == LowerChar(s[lo + k]);
    }
  }

  /** Case-insensitive (ASCII) substring test. */
  predicate ContainsNoCase(hay: string, needle: string)
  {
    Contains(Lower(hay), Lower(needle))
  }

  /** A non-empty sequence is its front followed by its last element. */
  lemma LastSplit<T>(s: seq<T>)
    requires |s| > 0
    ensures s == s[..|s| - 1] + [s[|s| - 1]]
  {
  }

  /** An occurrence inside `s[lo..hi]` is an occurrence in the slice. */
  lemma OccursInSlice<T>(s: seq<T>, needle: seq<T>, lo: nat, hi: nat, i: nat)
    requires lo <= i && i + |needle| <= hi <= |s| && OccursAt(s, needle, i)
    ensures OccursAt(s[lo..hi], needle, i - lo)
  {
    SliceOfSlice(s, lo, hi, i - lo, i - lo + |needle|);
  }

  /** A slice of a slice is a slice of the whole. */
  lemma SliceOfSlice<T>(s: seq<T>, lo: nat, hi: nat, i: nat, j: nat)
    requires lo <= hi <= |s| && i <= j <= hi - lo
    ensures s[lo..hi][i..j] == s[lo + i..lo + j]
  {
    forall k | 0 <= k < j - i
      ensures s[lo..hi][i..j][k] == s[lo + i..lo + j][k]
    {
    }
  }
}
