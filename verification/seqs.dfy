/** Order-preserving selection from a sequence, as `Array.prototype.filter` performs it. */
module Seqs {

  /** The elements of `s` that satisfy `f`, in their original order. */
  function Filter<T>(s: seq<T>, f: T -> bool): (r: seq<T>)
    ensures |r| <= |s|
    ensures forall i :: 0 <= i < |r| ==> r[i] in s && f(r[i])
    ensures forall i :: 0 <= i < |s| && f(s[i]) ==> s[i] in r
    decreases |s|
  {
    if |s| == 0 then []
    else (if f(s[0]) then [s[0]] else []) + Filter(s[1..], f)
  }

  /** Filtering distributes over concatenation: the relative order of survivors is kept. */
  lemma {:induction false} FilterAppend<T>(s: seq<T>, t: seq<T>, f: T -> bool)
    ensures Filter(s + t, f) == Filter(s, f) + Filter(t, f)
    decreases |s|
  {
    if |s| > 0 {
      assert (s + t)[0] == s[0];
      assert (s + t)[1..] == s[1..] + t;
      FilterAppend(s[1..], t, f);
      var head := if f(s[0]) then [s[0]] else [];
      assert Filter(s + t, f) == head + (Filter(s[1..], f) + Filter(t, f));
    } else {
      assert s + t == t;
    }
  }

  /** A sequence whose every element passes is returned unchanged. */
  lemma {:induction false} FilterAllKept<T>(s: seq<T>, f: T -> bool)
    requires forall i :: 0 <= i < |s| ==> f(s[i])
    ensures Filter(s, f) == s
    decreases |s|
  {
    if |s| > 0 {
      FilterAllKept(s[1..], f);
    }
  }

  /** Filtering by a predicate and by its negation splits the sequence's length. */
  lemma {:induction false} FilterPartition<T>(s: seq<T>, f: T -> bool, g: T -> bool)
    requires forall x :: g(x) == !f(x)
    ensures |Filter(s, f)| + |Filter(s, g)| == |s|
    decreases |s|
  {
    if |s| > 0 {
      FilterPartition(s[1..], f, g);
    }
  }

  /** Filtering twice by the same predicate is filtering once. */
  lemma FilterIdempotent<T>(s: seq<T>, f: T -> bool)
    ensures Filter(Filter(s, f), f) == Filter(s, f)
  {
    var r := Filter(s, f);
    FilterAllKept(r, f);
  }

  /** A slice of `s + t` that lies in one part is a slice of that part. */
  lemma SliceOfAppend<T>(s: seq<T>, t: seq<T>, i: int, j: int)
    requires 0 <= i <= j <= |s| + |t|
    requires j <= |s| || |s| <= i
    ensures j <= |s| ==> (s + t)[i..j] == s[i..j]
    ensures |s| <= i ==> (s + t)[i..j] == t[i - |s|..j - |s|]
  {
  }
}
