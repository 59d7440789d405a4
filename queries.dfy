/** The collection operators the application's queries are written with: LINQ's
    `Where`, `FirstOrDefault` and `Any` on the server, `Array.prototype.findIndex`
    on the client. A collection is an ordered sequence (a database table in its
    storage order, or a JavaScript array). */
module Queries {

  /** A reference that may be null (`FirstOrDefault` on a sequence of entities). */
  datatype Option<T> = None | Some(value: T)

  /** `Where`: keeps, in their order, the elements that satisfy `keep`. */
  function Where<T>(s: seq<T>, keep: T -> bool): (r: seq<T>)
    ensures |r| <= |s|
    ensures multiset(r) <= multiset(s)
    ensures forall k :: 0 <= k < |r| ==> r[k] in s && keep(r[k])
    ensures forall k :: 0 <= k < |s| && keep(s[k]) ==> s[k] in r
  {
    if s == [] then []
    else
      assert s == [s[0]] + s[1..];
      if keep(s[0]) then [s[0]] + Where(s[1..], keep) else Where(s[1..], keep)
  }

  /** Filtering a concatenation filters each part, so `Where` keeps the kept
      elements in their order. */
  lemma {:induction false} WhereConcat<T>(a: seq<T>, b: seq<T>, keep: T -> bool)
    ensures Where(a + b, keep) == Where(a, keep) + Where(b, keep)
  {
    if a == [] {
      assert a + b == b;
    } else {
      assert (a + b)[0] == a[0];
      assert (a + b)[1..] == a[1..] + b;
      WhereConcat(a[1..], b, keep);
    }
  }

  /** `findIndex`: the position of the first element satisfying `p`, or -1. */
  function FindIndex<T>(s: seq<T>, p: T -> bool): (i: int)
    ensures -1 <= i < |s|
    ensures i == -1 <==> forall k :: 0 <= k < |s| ==> !p(s[k])
    ensures 0 <= i ==> p(s[i]) && forall k :: 0 <= k < i ==> !p(s[k])
  {
    if s == [] then -1
    else if p(s[0]) then 0
    else
      var j := FindIndex(s[1..], p);
      if j == -1 then -1 else j + 1
  }

  /** `FirstOrDefault`: the first element satisfying `p`, or null. */
  function FirstOrDefault<T>(s: seq<T>, p: T -> bool): (r: Option<T>)
    ensures r.None? <==> forall k :: 0 <= k < |s| ==> !p(s[k])
    ensures r.Some? ==> r.value in s && p(r.value)
    ensures r.Some? ==> exists i :: 0 <= i < |s| && s[i] == r.value && forall k :: 0 <= k < i ==> !p(s[k])
  {
    var i := FindIndex(s, p);
    if i == -1 then None else Some(s[i])
  }

  /** `Any`: whether some element satisfies `p`. */
  function Any<T>(s: seq<T>, p: T -> bool): (b: bool)
    ensures b <==> exists k :: 0 <= k < |s| && p(s[k])
  {
    FirstOrDefault(s, p).Some?
  }

  /** `ok` holds of every pair of elements, taken in their order in `s`. */
  predicate Pairwise<T>(s: seq<T>, ok: (T, T) -> bool)
  {
    forall i, j :: 0 <= i < j < |s| ==> ok(s[i], s[j])
  }

  /** Filtering never breaks a property that held of every pair. */
  lemma {:induction false} WherePreservesPairwise<T>(s: seq<T>, keep: T -> bool, ok: (T, T) -> bool)
    requires Pairwise(s, ok)
    ensures Pairwise(Where(s, keep), ok)
  {
    if s != [] {
      var tail := s[1..];
      assert Pairwise(tail, ok) by {
        forall i, j | 0 <= i < j < |tail| ensures ok(tail[i], tail[j]) {
          assert tail[i] == s[i + 1] && tail[j] == s[j + 1];
        }
      }
      WherePreservesPairwise(tail, keep, ok);
      if keep(s[0]) {
        var w := Where(tail, keep);
        forall j | 0 <= j < |w| ensures ok(s[0], w[j]) {
          assert w[j] in tail;
          var k :| 0 <= k < |tail| && tail[k] == w[j];
          assert s[k + 1] == w[j];
        }
        var r := [s[0]] + w;
        forall i, j | 0 <= i < j < |r| ensures ok(r[i], r[j]) {
          if i == 0 {
            assert r[j] == w[j - 1];
          } else {
            assert r[i] == w[i - 1] && r[j] == w[j - 1];
          }
        }
      }
    }
  }

  /** Filtering with a predicate that every element satisfies gives the sequence back. */
  lemma {:induction false} WhereKeepsAll<T>(s: seq<T>, keep: T -> bool)
    requires forall k :: 0 <= k < |s| ==> keep(s[k])
    ensures Where(s, keep) == s
  {
    if s != [] {
      assert keep(s[0]);
      WhereKeepsAll(s[1..], keep);
      assert s == [s[0]] + s[1..];
    }
  }

  /** Filtering with a predicate that rejects exactly the element at position `k`
      removes that element and keeps the others in order. */
  lemma {:induction false} WhereDropsExactlyOne<T>(s: seq<T>, keep: T -> bool, k: int)
    requires 0 <= k < |s|
    requires forall i :: 0 <= i < |s| ==> (keep(s[i]) <==> i != k)
    ensures Where(s, keep) == s[..k] + s[k + 1..]
  {
    var tail := s[1..];
    if k == 0 {
      assert forall i :: 0 <= i < |tail| ==> keep(tail[i]) by {
        forall i | 0 <= i < |tail| ensures keep(tail[i]) {
          assert tail[i] == s[i + 1];
        }
      }
      WhereKeepsAll(tail, keep);
    } else {
      assert forall i :: 0 <= i < |tail| ==> (keep(tail[i]) <==> i != k - 1) by {
        forall i | 0 <= i < |tail| ensures keep(tail[i]) <==> i != k - 1 {
          assert tail[i] == s[i + 1];
        }
      }
      WhereDropsExactlyOne(tail, keep, k - 1);
      WhereConsKept(s, keep);
      SplitAround(s, k);
    }
  }

  /** Removing position `k` from a sequence, seen from its tail. */
  lemma SplitAround<T>(s: seq<T>, k: int)
    requires 0 < k < |s|
    ensures [s[0]] + (s[1..][..k - 1] + s[1..][k..]) == s[..k] + s[k + 1..]
  {
  }

  /** One step of `Where` on a sequence whose head is kept, with the slices spelled out. */
  lemma WhereConsKept<T>(s: seq<T>, keep: T -> bool)
    requires s != [] && keep(s[0])
    ensures Where(s, keep) == [s[0]] + Where(s[1..], keep)
  {
  }
}
