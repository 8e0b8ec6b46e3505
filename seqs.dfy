/**
 * The array operations the TypeScript code relies on (`filter`, `map`, `every`,
 * `new Set(...)` read back in insertion order), as functions on sequences.
 * They are written by recursion on the LAST element, so that each one matches
 * a loop that walks its input from left to right and appends.
 */
module Seqs {

  function Last<T>(s: seq<T>): T
    requires |s| > 0
  {
    s[|s| - 1]
  }

  function DropLast<T>(s: seq<T>): seq<T>
    requires |s| > 0
  {
    s[..|s| - 1]
  }

  lemma SnocParts<T>(s: seq<T>, x: T)
    ensures DropLast(s + [x]) == s && Last(s + [x]) == x
  {
  }

  lemma DropLastAndLast<T>(s: seq<T>)
    requires |s| > 0
    ensures DropLast(s) + [Last(s)] == s
  {
  }

  /** `Array.prototype.map`. */
  function Map<A, B>(f: A -> B, s: seq<A>): (r: seq<B>)
    ensures |r| == |s|
    ensures forall i :: 0 <= i < |s| ==> r[i] == f(s[i])
  {
    seq(|s|, i requires 0 <= i < |s| => f(s[i]))
  }

  lemma MapSnoc<A, B>(f: A -> B, s: seq<A>, x: A)
    ensures Map(f, s + [x]) == Map(f, s) + [f(x)]
  {
  }

  /** `Array.prototype.filter`: the elements that satisfy p, in their original order. */
  function Filter<T>(p: T -> bool, s: seq<T>): (r: seq<T>)
    ensures |r| <= |s|
    ensures forall i :: 0 <= i < |r| ==> p(r[i])
    decreases |s|
  {
    if s == [] then []
    else Filter(p, DropLast(s)) + (if p(Last(s)) then [Last(s)] else [])
  }

  /** Filter keeps exactly the elements that satisfy p. */
  lemma {:induction false} FilterMembers<T>(p: T -> bool, s: seq<T>)
    ensures forall x :: x in Filter(p, s) <==> x in s && p(x)
    decreases |s|
  {
    if s != [] {
      FilterMembers(p, DropLast(s));
      assert s == DropLast(s) + [Last(s)];
    }
  }

  lemma FilterSnoc<T>(p: T -> bool, s: seq<T>, x: T)
    ensures Filter(p, s + [x]) == Filter(p, s) + (if p(x) then [x] else [])
  {
    SnocParts(s, x);
  }

  /** a is obtained from b by deleting elements: order kept, nothing invented. */
  ghost predicate IsSubsequence<T>(a: seq<T>, b: seq<T>)
    decreases |b|
  {
    || a == []
    || (&& b != []
        && (|| IsSubsequence(a, DropLast(b))
            || (a != [] && Last(a) == Last(b) && IsSubsequence(DropLast(a), DropLast(b)))))
  }

  lemma {:induction false} FilterIsSubsequence<T>(p: T -> bool, s: seq<T>)
    ensures IsSubsequence(Filter(p, s), s)
    decreases |s|
  {
    if s != [] {
      FilterIsSubsequence(p, DropLast(s));
      var r := Filter(p, s);
      var r' := Filter(p, DropLast(s));
      if p(Last(s)) {
        assert r == r' + [Last(s)];
        SnocParts(r', Last(s));
      } else {
        assert r == r';
      }
    }
  }

  /** Filtering a sequence whose every element passes changes nothing. */
  lemma {:induction false} FilterKeepsAll<T>(p: T -> bool, s: seq<T>)
    requires forall i :: 0 <= i < |s| ==> p(s[i])
    ensures Filter(p, s) == s
    decreases |s|
  {
    if s != [] {
      assert s == DropLast(s) + [Last(s)];
      FilterKeepsAll(p, DropLast(s));
    }
  }

  /** Filtering a sequence whose every element fails yields nothing. */
  lemma {:induction false} FilterDropsAll<T>(p: T -> bool, s: seq<T>)
    requires forall i :: 0 <= i < |s| ==> !p(s[i])
    ensures Filter(p, s) == []
    decreases |s|
  {
    if s != [] {
      assert s == DropLast(s) + [Last(s)];
      FilterDropsAll(p, DropLast(s));
    }
  }

  lemma FilterIdempotent<T>(p: T -> bool, s: seq<T>)
    ensures Filter(p, Filter(p, s)) == Filter(p, s)
  {
    FilterKeepsAll(p, Filter(p, s));
  }

  /** Filters with predicates that agree on every element give the same result. */
  lemma {:induction false} FilterExtensional<T>(p: T -> bool, q: T -> bool, s: seq<T>)
    requires forall i :: 0 <= i < |s| ==> p(s[i]) == q(s[i])
    ensures Filter(p, s) == Filter(q, s)
    decreases |s|
  {
    if s != [] {
      FilterExtensional(p, q, DropLast(s));
    }
  }

  /** Filtering away the first element leaves the filtered rest. */
  lemma {:induction false} PrependDropped<T>(p: T -> bool, x: T, s: seq<T>)
    requires !p(x)
    ensures Filter(p, [x] + s) == Filter(p, s)
    decreases |s|
  {
    if s != [] {
      PrependDropped(p, x, DropLast(s));
      assert DropLast([x] + s) == [x] + DropLast(s);
    }
  }

  /** Two complementary filters split a sequence: their lengths add up to its length. */
  lemma {:induction false} FilterComplement<T>(p: T -> bool, q: T -> bool, s: seq<T>)
    requires forall x :: q(x) == !p(x)
    ensures |Filter(p, s)| + |Filter(q, s)| == |s|
    decreases |s|
  {
    if s != [] {
      FilterComplement(p, q, DropLast(s));
    }
  }

  /** `Array.prototype.every`. */
  function Every<T>(p: T -> bool, s: seq<T>): (r: bool)
    ensures r <==> forall i :: 0 <= i < |s| ==> p(s[i])
    decreases |s|
  {
    if s == [] then true
    else
      assert forall i :: 0 <= i < |s| - 1 ==> DropLast(s)[i] == s[i];
      Every(p, DropLast(s)) && p(Last(s))
  }

  /** The position of the first occurrence of x in s. */
  function FirstIndex<T(==)>(s: seq<T>, x: T): (r: nat)
    requires x in s
    ensures r < |s| && s[r] == x && x !in s[..r]
  {
    if s[0] == x then 0
    else
      var k := FirstIndex(s[1..], x);
      assert s[..k + 1] == [s[0]] + s[1..][..k];
      k + 1
  }

  lemma FirstIndexUnique<T>(s: seq<T>, x: T, k: nat)
    requires k < |s| && s[k] == x && x !in s[..k]
    ensures FirstIndex(s, x) == k
  {
  }

  /**
   * The distinct elements of s in order of first occurrence, as
   * `Array.from(new Set(s))` gives them.
   */
  function Distinct<T(==)>(s: seq<T>): (r: seq<T>)
    ensures forall i :: 0 <= i < |r| ==> r[i] in s
    ensures forall i, j :: 0 <= i < j < |r| ==> r[i] != r[j]
    decreases |s|
  {
    if s == [] then []
    else
      var d := Distinct(DropLast(s));
      assert s == DropLast(s) + [Last(s)];
      if Last(s) in d then d else d + [Last(s)]
  }

  /** Every element of s is listed by Distinct. */
  lemma {:induction false} DistinctComplete<T>(s: seq<T>)
    ensures forall i :: 0 <= i < |s| ==> s[i] in Distinct(s)
    decreases |s|
  {
    if s != [] {
      DistinctComplete(DropLast(s));
      assert forall i :: 0 <= i < |s| - 1 ==> s[i] == DropLast(s)[i];
    }
  }

  /** Distinct lists the elements in the order in which they first occur in s. */
  lemma {:induction false} DistinctInFirstOccurrenceOrder<T>(s: seq<T>)
    ensures forall i, j :: 0 <= i < j < |Distinct(s)| ==> FirstIndex(s, Distinct(s)[i]) < FirstIndex(s, Distinct(s)[j])
    decreases |s|
  {
    if s != [] {
      var init := DropLast(s);
      var d := Distinct(init);
      DistinctInFirstOccurrenceOrder(init);
      DistinctComplete(init);
      FirstIndexInPrefix(s, d);
      var r := Distinct(s);
      if Last(s) !in d {
        assert r == d + [Last(s)];
        FirstIndexOfNewLast(s, d);
        forall i, j | 0 <= i < j < |r|
          ensures FirstIndex(s, r[i]) < FirstIndex(s, r[j])
        {
          if j < |d| {
            assert r[i] == d[i] && r[j] == d[j];
          } else {
            assert r[i] == d[i];
          }
        }
      }
    }
  }

  /** First occurrences in the prefix of s are first occurrences in s. */
  lemma FirstIndexInPrefix<T>(s: seq<T>, d: seq<T>)
    requires |s| > 0
    requires forall i :: 0 <= i < |d| ==> d[i] in DropLast(s)
    ensures forall i :: 0 <= i < |d| ==> d[i] in s && FirstIndex(s, d[i]) == FirstIndex(DropLast(s), d[i])
  {
    forall i | 0 <= i < |d|
      ensures d[i] in s && FirstIndex(s, d[i]) == FirstIndex(DropLast(s), d[i])
    {
      FirstIndexInInit(s, d[i]);
    }
  }

  lemma FirstIndexInInit<T>(s: seq<T>, x: T)
    requires |s| > 0 && x in DropLast(s)
    ensures x in s && FirstIndex(s, x) == FirstIndex(DropLast(s), x)
  {
    var init := DropLast(s);
    var k := FirstIndex(init, x);
    assert s[..k] == init[..k];
    FirstIndexUnique(s, x, k);
  }

  /** An element that is new at the end of s first occurs there. */
  lemma FirstIndexOfNewLast<T>(s: seq<T>, d: seq<T>)
    requires |s| > 0
    requires forall i :: 0 <= i < |s| - 1 ==> s[i] in d
    requires Last(s) !in d
    ensures FirstIndex(s, Last(s)) == |s| - 1
  {
    assert Last(s) !in s[..|s| - 1];
    FirstIndexUnique(s, Last(s), |s| - 1);
  }
}
