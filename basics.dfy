/** Small shared vocabulary: an optional value and the JavaScript array filter. */
module Basics {

  /** A value that may be missing: an empty form field, a `NaN` from parseInt, an absent key. */
  datatype Option<T> = None | Some(value: T) {
    function GetOr(default: T): T {
      match this
      case Some(v) => v
      case None => default
    }
  }

  /** `s.filter(p)`: the elements of `s` that satisfy `p`, in their original order. */
  function Filter<T>(s: seq<T>, p: T -> bool): seq<T>
  {
    if s == [] then [] else (if p(s[0]) then [s[0]] else []) + Filter(s[1..], p)
  }

  /** `sub` is `s` with some elements dropped and the rest kept in order. */
  predicate IsSubsequence<T(==)>(sub: seq<T>, s: seq<T>)
  {
    if sub == [] then true
    else if s == [] then false
    else if sub[0] == s[0] then IsSubsequence(sub[1..], s[1..])
    else IsSubsequence(sub, s[1..])
  }

  /** Every element a filter keeps satisfies the predicate, and it keeps exactly the
      occurrences of those elements: as many copies as `s` has, none of the others. */
  lemma {:induction false} FilterMultiset<T>(s: seq<T>, p: T -> bool, x: T)
    ensures multiset(Filter(s, p))[x] == if p(x) then multiset(s)[x] else 0
  {
    if s != [] {
      FilterMultiset(s[1..], p, x);
      assert s == [s[0]] + s[1..];
    }
  }

  lemma FilterMembership<T>(s: seq<T>, p: T -> bool, x: T)
    ensures x in Filter(s, p) <==> x in s && p(x)
  {
    FilterMultiset(s, p, x);
  }

  /** The filter never lengthens the sequence, keeps everything when the predicate
      holds throughout and nothing when it never holds. */
  lemma {:induction false} FilterLength<T>(s: seq<T>, p: T -> bool)
    ensures |Filter(s, p)| <= |s|
    ensures (forall x | x in s :: p(x)) ==> Filter(s, p) == s
    ensures (forall x | x in s :: !p(x)) ==> Filter(s, p) == []
  {
    if s != [] {
      FilterLength(s[1..], p);
      assert forall x | x in s[1..] :: x in s;
    }
  }

  /** The survivors of a filter keep their relative order. */
  lemma {:induction false} FilterIsSubsequence<T>(s: seq<T>, p: T -> bool)
    ensures IsSubsequence(Filter(s, p), s)
  {
    if s != [] {
      FilterIsSubsequence(s[1..], p);
      if p(s[0]) {
        assert Filter(s, p) == [s[0]] + Filter(s[1..], p);
        assert ([s[0]] + Filter(s[1..], p))[1..] == Filter(s[1..], p);
      } else {
        assert Filter(s, p) == Filter(s[1..], p);
        SubsequenceDropFront(Filter(s[1..], p), s);
      }
    }
  }

  lemma {:induction false} SubsequenceDropFront<T>(sub: seq<T>, s: seq<T>)
    requires s != [] && IsSubsequence(sub, s[1..])
    ensures IsSubsequence(sub, s)
    decreases |s|, 1
  {
    if sub != [] && sub[0] == s[0] {
      // s[0] matches the head of sub; the tail still embeds into s[1..]
      SubsequenceTail(sub, s[1..]);
    }
  }

  lemma {:induction false} SubsequenceTail<T>(sub: seq<T>, s: seq<T>)
    requires sub != [] && IsSubsequence(sub, s)
    ensures IsSubsequence(sub[1..], s)
    decreases |s| + 1, 0
  {
    assert s != [];
    if sub[0] == s[0] {
      if sub[1..] != [] {
        SubsequenceDropFront(sub[1..], s);
      }
    } else {
      SubsequenceTail(sub, s[1..]);
      if sub[1..] != [] {
        SubsequenceDropFront(sub[1..], s);
      }
    }
  }

  /** A sequence holding `x` once and nothing else is `[x]`. */
  lemma SingleElement<T>(s: seq<T>, x: T)
    requires forall y :: multiset(s)[y] == if y == x then 1 else 0
    ensures s == [x]
  {
    assert multiset(s) == multiset{x};
    assert |s| == |multiset(s)| == 1;
    assert s[0] in multiset(s);
  }

  /** Filtering a sequence that holds `x` once, with a predicate only `x` satisfies,
      leaves `[x]`. */
  lemma FilterSingle<T>(s: seq<T>, p: T -> bool, x: T)
    requires multiset(s)[x] == 1
    requires forall y :: p(y) <==> y == x
    ensures Filter(s, p) == [x]
  {
    forall y
      ensures multiset(Filter(s, p))[y] == if y == x then 1 else 0
    {
      FilterMultiset(s, p, y);
    }
    SingleElement(Filter(s, p), x);
  }

  /** Filtering a sequence that starts with `x` keeps one more element exactly when `x`
      satisfies `p`. */
  lemma FilterCons<T>(x: T, s: seq<T>, p: T -> bool)
    ensures |Filter([x] + s, p)| == (if p(x) then 1 else 0) + |Filter(s, p)|
  {
    assert ([x] + s)[1..] == s;
  }

  /** Filtering an appended element: the new element is kept exactly when it satisfies `p`. */
  lemma {:induction false} FilterAppend<T>(s: seq<T>, x: T, p: T -> bool)
    ensures Filter(s + [x], p) == Filter(s, p) + (if p(x) then [x] else [])
  {
    if s == [] {
      assert [x][1..] == [];
    } else {
      FilterAppend(s[1..], x, p);
      assert (s + [x])[1..] == s[1..] + [x];
    }
  }

  /** Two predicates that never hold together split at most the whole sequence between them. */
  lemma {:induction false} FilterDisjointSum<T>(s: seq<T>, p: T -> bool, q: T -> bool)
    requires forall x | x in s :: !(p(x) && q(x))
    ensures |Filter(s, p)| + |Filter(s, q)| <= |s|
  {
    if s != [] {
      assert forall x | x in s[1..] :: x in s;
      FilterDisjointSum(s[1..], p, q);
    }
  }

  /** Predicates that agree on the elements of `s` filter it the same way. */
  lemma {:induction false} FilterCongruent<T>(s: seq<T>, p: T -> bool, q: T -> bool)
    requires forall x | x in s :: p(x) == q(x)
    ensures Filter(s, p) == Filter(s, q)
  {
    if s != [] {
      assert forall x | x in s[1..] :: x in s;
      FilterCongruent(s[1..], p, q);
    }
  }

  /** When exactly one of two predicates holds of each element, their filters split
      the sequence between them. */
  lemma {:induction false} FilterPartition<T>(s: seq<T>, p: T -> bool, q: T -> bool)
    requires forall x | x in s :: p(x) != q(x)
    ensures |Filter(s, p)| + |Filter(s, q)| == |s|
  {
    if s != [] {
      assert forall x | x in s[1..] :: x in s;
      FilterPartition(s[1..], p, q);
    }
  }

  /** A weaker predicate keeps at least as many elements. */
  lemma {:induction false} FilterMonotone<T>(s: seq<T>, p: T -> bool, q: T -> bool)
    requires forall x | x in s :: p(x) ==> q(x)
    ensures |Filter(s, p)| <= |Filter(s, q)|
  {
    if s != [] {
      assert forall x | x in s[1..] :: x in s;
      FilterMonotone(s[1..], p, q);
    }
  }
}
