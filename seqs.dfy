/** Sequence operations that the source performs with JavaScript array
    built-ins (`filter`, `indexOf`, `findIndex`, `reverse`), and the facts
    about them that the rest of the model relies on. */
module Seqs {

  /** `s.filter(f)`: the elements of `s` that satisfy `f`, in their order. */
  function Filter<T>(s: seq<T>, f: T -> bool): (r: seq<T>)
    ensures |r| <= |s|
    decreases |s|
  {
    if s == [] then [] else (if f(s[0]) then [s[0]] else []) + Filter(s[1..], f)
  }

  /** Everything the filter keeps satisfies the predicate. */
  lemma {:induction false} FilterSatisfies<T>(s: seq<T>, f: T -> bool)
    ensures forall i :: 0 <= i < |Filter(s, f)| ==> f(Filter(s, f)[i])
    decreases |s|
  {
    if s != [] {
      FilterSatisfies(s[1..], f);
      var r := Filter(s, f);
      var rest := Filter(s[1..], f);
      forall i | 0 <= i < |r| ensures f(r[i]) {
        if !(f(s[0]) && i == 0) {
          assert r[i] == rest[if f(s[0]) then i - 1 else i];
        }
      }
    }
  }

  /** What the filter keeps: only elements of `s` that satisfy `f`, and every
      such element. */
  lemma {:induction false} FilterSpec<T>(s: seq<T>, f: T -> bool)
    ensures forall i :: 0 <= i < |Filter(s, f)| ==> Filter(s, f)[i] in s && f(Filter(s, f)[i])
    ensures forall i :: 0 <= i < |s| && f(s[i]) ==> s[i] in Filter(s, f)
    decreases |s|
  {
    if s != [] {
      FilterSpec(s[1..], f);
      var r := Filter(s, f);
      var rest := Filter(s[1..], f);
      forall i | 0 <= i < |r| ensures r[i] in s && f(r[i]) {
        if !(f(s[0]) && i == 0) {
          var j := if f(s[0]) then i - 1 else i;
          assert r[i] == rest[j];
        }
      }
      forall i | 0 <= i < |s| && f(s[i]) ensures s[i] in r {
        if i > 0 {
          assert s[i] == s[1..][i - 1];
        }
      }
    }
  }

  lemma {:induction false} FilterConcat<T>(a: seq<T>, b: seq<T>, f: T -> bool)
    ensures Filter(a + b, f) == Filter(a, f) + Filter(b, f)
    decreases |a|
  {
    if a != [] {
      assert (a + b)[0] == a[0] && (a + b)[1..] == a[1..] + b;
      FilterConcat(a[1..], b, f);
    } else {
      assert a + b == b;
    }
  }

  /** Filtering twice with the same predicate changes nothing the second time. */
  lemma {:induction false} FilterIdempotent<T>(s: seq<T>, f: T -> bool)
    ensures Filter(Filter(s, f), f) == Filter(s, f)
    decreases |s|
  {
    if s != [] {
      FilterIdempotent(s[1..], f);
      FilterConcat(if f(s[0]) then [s[0]] else [], Filter(s[1..], f), f);
    }
  }

  /** A filter only looks at the predicate on the elements of `s`. */
  lemma {:induction false} FilterExtensional<T>(s: seq<T>, f: T -> bool, g: T -> bool)
    requires forall x :: x in s ==> f(x) == g(x)
    ensures Filter(s, f) == Filter(s, g)
    decreases |s|
  {
    if s != [] {
      FilterExtensional(s[1..], f, g);
    }
  }

  /** Keeping everything keeps the sequence. */
  lemma {:induction false} FilterKeepsAll<T>(s: seq<T>, f: T -> bool)
    requires forall x :: x in s ==> f(x)
    ensures Filter(s, f) == s
    decreases |s|
  {
    if s != [] {
      FilterKeepsAll(s[1..], f);
    }
  }

  /** Two filters with disjoint predicates together keep, counted with
      multiplicity, exactly what the filter by their disjunction keeps. */
  lemma {:induction false} FilterDisjointUnion<T>(s: seq<T>, f: T -> bool, g: T -> bool, h: T -> bool)
    requires forall x :: x in s ==> !(f(x) && g(x))
    requires forall x :: x in s ==> h(x) == (f(x) || g(x))
    ensures multiset(Filter(s, f)) + multiset(Filter(s, g)) == multiset(Filter(s, h))
    decreases |s|
  {
    if s != [] {
      FilterDisjointUnion(s[1..], f, g, h);
    }
  }

  /** How often a value occurs after filtering. */
  lemma {:induction false} FilterMultiplicity<T>(s: seq<T>, f: T -> bool, x: T)
    ensures multiset(Filter(s, f))[x] == if f(x) then multiset(s)[x] else 0
    decreases |s|
  {
    if s != [] {
      FilterMultiplicity(s[1..], f, x);
      assert s == [s[0]] + s[1..];
    }
  }

  /** How often every value occurs after filtering. */
  lemma FilterMultiplicities<T>(s: seq<T>, f: T -> bool)
    ensures forall x :: multiset(Filter(s, f))[x] == if f(x) then multiset(s)[x] else 0
  {
    forall x ensures multiset(Filter(s, f))[x] == if f(x) then multiset(s)[x] else 0 {
      FilterMultiplicity(s, f, x);
    }
  }

  /** `a` is `b` with some elements deleted, the rest in the same order. */
  predicate IsSubsequence<T(==)>(a: seq<T>, b: seq<T>)
    decreases |b|
  {
    if a == [] then true
    else if b == [] then false
    else if a[0] == b[0] then IsSubsequence(a[1..], b[1..])
    else IsSubsequence(a, b[1..])
  }

  lemma {:induction false} SubsequenceOfTail<T>(a: seq<T>, b: seq<T>)
    requires b != [] && IsSubsequence(a, b[1..])
    ensures IsSubsequence(a, b)
    decreases |a| + |b|
  {
    if a != [] && a[0] == b[0] {
      SubsequenceDropHead(a, b[1..]);
    }
  }

  lemma {:induction false} SubsequenceDropHead<T>(a: seq<T>, b: seq<T>)
    requires IsSubsequence(a, b) && a != []
    ensures IsSubsequence(a[1..], b)
    decreases |a| + |b|
  {
    if a[0] == b[0] {
      SubsequenceOfTail(a[1..], b);
    } else {
      SubsequenceDropHead(a, b[1..]);
      SubsequenceOfTail(a[1..], b);
    }
  }

  /** Being a subsequence is transitive. */
  lemma {:induction false} SubsequenceTransitive<T>(a: seq<T>, b: seq<T>, c: seq<T>)
    requires IsSubsequence(a, b) && IsSubsequence(b, c)
    ensures IsSubsequence(a, c)
    decreases |c|
  {
    if a != [] {
      assert b != [] && c != [];
      if b[0] == c[0] {
        if a[0] == b[0] {
          SubsequenceTransitive(a[1..], b[1..], c[1..]);
        } else {
          SubsequenceTransitive(a, b[1..], c[1..]);
          SubsequenceOfTail(a, c);
        }
      } else {
        SubsequenceTransitive(a, b, c[1..]);
        SubsequenceOfTail(a, c);
      }
    }
  }

  /** Filtering preserves the order of what it keeps. */
  lemma {:induction false} FilterIsSubsequence<T>(s: seq<T>, f: T -> bool)
    ensures IsSubsequence(Filter(s, f), s)
    decreases |s|
  {
    if s != [] {
      FilterIsSubsequence(s[1..], f);
      if !f(s[0]) {
        assert Filter(s, f) == Filter(s[1..], f);
        SubsequenceOfTail(Filter(s, f), s);
      } else {
        assert Filter(s, f) == [s[0]] + Filter(s[1..], f);
      }
    }
  }

  lemma {:induction false} SubsequenceReflexive<T>(s: seq<T>)
    ensures IsSubsequence(s, s)
    decreases |s|
  {
    if s != [] {
      SubsequenceReflexive(s[1..]);
    }
  }

  /** Removing one position keeps the others in order. */
  lemma {:induction false} RemoveAtIsSubsequence<T>(s: seq<T>, i: nat)
    requires i < |s|
    ensures IsSubsequence(s[..i] + s[i + 1..], s)
    decreases i
  {
    if i == 0 {
      assert s[..0] + s[1..] == s[1..];
      SubsequenceReflexive(s[1..]);
      SubsequenceOfTail(s[1..], s);
    } else {
      RemoveAtIsSubsequence(s[1..], i - 1);
      assert s[1..][..i - 1] + s[1..][i..] == (s[..i] + s[i + 1..])[1..];
    }
  }

  /** `s.splice(i, 1)`: the sequence without position `i`. */
  function RemoveAt<T>(s: seq<T>, i: nat): (r: seq<T>)
    requires i < |s|
    ensures |r| == |s| - 1
    ensures forall j :: 0 <= j < |r| ==> r[j] == if j < i then s[j] else s[j + 1]
    ensures multiset(r) + multiset{s[i]} == multiset(s)
  {
    assert s == s[..i] + [s[i]] + s[i + 1..];
    s[..i] + s[i + 1..]
  }

  /** Removing the only position that fails `f` is filtering by `f`. */
  lemma RemoveAtFilter<T>(s: seq<T>, i: nat, f: T -> bool)
    requires i < |s| && !f(s[i])
    requires forall j :: 0 <= j < |s| && j != i ==> f(s[j])
    ensures RemoveAt(s, i) == Filter(s, f)
  {
    FilterSkipsOne(s, i, f);
  }

  lemma {:induction false} FilterSkipsOne<T>(s: seq<T>, i: nat, f: T -> bool)
    requires i < |s| && !f(s[i])
    requires forall j :: 0 <= j < |s| && j != i ==> f(s[j])
    ensures Filter(s, f) == s[..i] + s[i + 1..]
  {
    FilterConcat(s[..i], s[i..], f);
    assert s[..i] + s[i..] == s;
    FilterKeepsRange(s, 0, i, f);
    assert s[0..i] == s[..i];
    FilterDropsHead(s, i, f);
  }

  lemma FilterDropsHead<T>(s: seq<T>, i: nat, f: T -> bool)
    requires i < |s| && !f(s[i])
    requires forall j :: i < j < |s| ==> f(s[j])
    ensures Filter(s[i..], f) == s[i + 1..]
  {
    var back := s[i..];
    assert back[0] == s[i] && back[1..] == s[i + 1..];
    FilterKeepsRange(s, i + 1, |s|, f);
    assert s[i + 1..|s|] == s[i + 1..];
  }

  /** Filtering a slice all of whose elements pass keeps the slice. */
  lemma {:induction false} FilterKeepsRange<T>(s: seq<T>, lo: nat, hi: nat, f: T -> bool)
    requires lo <= hi <= |s|
    requires forall j :: lo <= j < hi ==> f(s[j])
    ensures Filter(s[lo..hi], f) == s[lo..hi]
    decreases hi - lo
  {
    if lo < hi {
      FilterKeepsRange(s, lo + 1, hi, f);
      assert s[lo..hi][1..] == s[lo + 1..hi];
    }
  }

  /** No value occurs twice. */
  predicate NoDuplicates<T(==)>(s: seq<T>) {
    forall i, j :: 0 <= i < j < |s| ==> s[i] != s[j]
  }

  lemma {:induction false} FilterNoDuplicates<T>(s: seq<T>, f: T -> bool)
    requires NoDuplicates(s)
    ensures NoDuplicates(Filter(s, f))
    decreases |s|
  {
    if s != [] {
      FilterNoDuplicates(s[1..], f);
      FilterSpec(s[1..], f);
      var rest := Filter(s[1..], f);
      assert s[0] !in s[1..] by {
        forall k | 0 <= k < |s[1..]| ensures s[1..][k] != s[0] {
          assert s[1..][k] == s[k + 1];
        }
      }
      assert s[0] !in rest;
    }
  }

  /** A duplicate-free sequence has as many distinct elements as positions. */
  lemma {:induction false} DistinctCardinality<T>(s: seq<T>)
    requires NoDuplicates(s)
    ensures |set x | x in s| == |s|
    decreases |s|
  {
    if s != [] {
      var tail := s[1..];
      DistinctCardinality(tail);
      assert s[0] !in tail by {
        forall k | 0 <= k < |tail| ensures tail[k] != s[0] {
          assert tail[k] == s[k + 1];
        }
      }
      assert (set x | x in s) == (set x | x in tail) + {s[0]} by {
        assert s == [s[0]] + tail;
      }
    }
  }

  /** `s.indexOf(x)`: the first position holding `x`, or -1. */
  function IndexOf<T(==)>(s: seq<T>, x: T): (r: int)
    ensures -1 <= r < |s|
    ensures r == -1 <==> x !in s
    ensures r >= 0 ==> s[r] == x && x !in s[..r]
    decreases |s|
  {
    if s == [] then -1
    else if s[0] == x then 0
    else
      var k := IndexOf(s[1..], x);
      if k == -1 then -1
      else
        assert s[..k + 1] == [s[0]] + s[1..][..k];
        k + 1
  }

  /** `s.findIndex(f)`: the first position whose element satisfies `f`, or -1. */
  function FindIndex<T>(s: seq<T>, f: T -> bool): (r: int)
    ensures -1 <= r < |s|
    ensures r == -1 <==> forall j :: 0 <= j < |s| ==> !f(s[j])
    ensures r >= 0 ==> f(s[r]) && forall j :: 0 <= j < r ==> !f(s[j])
    decreases |s|
  {
    if s == [] then -1
    else if f(s[0]) then 0
    else
      var k := FindIndex(s[1..], f);
      if k == -1 then -1 else k + 1
  }

  /** `s.reverse()`. */
  function Reverse<T>(s: seq<T>): (r: seq<T>)
    ensures |r| == |s|
    ensures forall i :: 0 <= i < |s| ==> r[i] == s[|s| - 1 - i]
    decreases |s|
  {
    if s == [] then [] else Reverse(s[1..]) + [s[0]]
  }
}
