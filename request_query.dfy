/** The request list page: a case-insensitive search on the proposed delegate, then a
    sort, newest first by creation date or descending by the status string. */
module RequestQuery {
  import opened Basics
  import opened Text
  import opened StatusCatalog
  import opened Delegation

  /** The two sort keys the page toggles between. */
  datatype SortBy = ByDate | ByStatus

  /** The search keeps a request when its lower-cased proposed delegate includes the
      lower-cased search term. */
  predicate Matches(r: DelegationRequest, term: string)
  {
    Includes(ToLower(r.proposedDelegate), ToLower(term))
  }

  /** The list before sorting: every request when the search term is empty, otherwise
      the matching requests in list order. */
  function Searched(requests: seq<DelegationRequest>, term: string): seq<DelegationRequest>
  {
    if term == "" then requests else Filter(requests, (r: DelegationRequest) => Matches(r, term))
  }

  /** Skipping the search for an empty term changes nothing: every request matches the
      empty term, so filtering by it would keep the whole list. */
  lemma EmptyTermKeepsAll(requests: seq<DelegationRequest>)
    ensures Filter(requests, (r: DelegationRequest) => Matches(r, "")) == requests
    ensures Searched(requests, "") == requests
  {
    forall r | r in requests
      ensures Matches(r, "")
    {
      IncludesEmpty(ToLower(r.proposedDelegate));
    }
    FilterLength(requests, (r: DelegationRequest) => Matches(r, ""));
  }

  /** The comparator answers -1, putting `a` first, exactly when `a`'s key is greater. */
  predicate Before(a: DelegationRequest, b: DelegationRequest, key: SortBy)
  {
    match key
    case ByDate => a.date > b.date
    case ByStatus => Greater(Value(a.status), Value(b.status))
  }

  /** No request is followed by one with a greater key. */
  predicate SortedDescending(s: seq<DelegationRequest>, key: SortBy)
  {
    forall i, j | 0 <= i < j < |s| :: !Before(s[j], s[i], key)
  }

  /** The comparator orders keys strictly, and two keys that are not ordered either
      way are equal, so "not before" chains: the facts the sort relies on. */
  lemma BeforeIsStrictWeakOrder(a: DelegationRequest, b: DelegationRequest, c: DelegationRequest, key: SortBy)
    ensures !Before(a, a, key)
    ensures Before(a, b, key) ==> !Before(b, a, key)
    ensures !Before(a, b, key) && !Before(b, c, key) ==> !Before(a, c, key)
  {
    if key == ByStatus {
      var x, y, z := Value(a.status), Value(b.status), Value(c.status);
      GreaterIrreflexive(x);
      GreaterAsymmetric(x, y);
      if !Greater(x, y) && !Greater(y, z) && Greater(x, z) {
        if x != y { GreaterTotal(x, y); }
        if y != z { GreaterTotal(y, z); }
        if x != y && y != z { GreaterTransitive(z, y, x); }
        GreaterAsymmetric(x, z);
        assert false;
      }
    }
  }

  /** Search is insensitive to the case of the term. */
  lemma SearchIgnoresCase(requests: seq<DelegationRequest>, term: string)
    ensures Searched(requests, ToUpper(term)) == Searched(requests, term)
    ensures Searched(requests, ToLower(term)) == Searched(requests, term)
  {
    ToLowerOfToUpper(term);
    ToLowerIdempotent(term);
    FilterCongruent(requests, (r: DelegationRequest) => Matches(r, ToUpper(term)),
                              (r: DelegationRequest) => Matches(r, term));
    FilterCongruent(requests, (r: DelegationRequest) => Matches(r, ToLower(term)),
                              (r: DelegationRequest) => Matches(r, term));
  }

  /** The search keeps exactly the matching requests, as many times as they occur. */
  lemma SearchedSpec(requests: seq<DelegationRequest>, term: string)
    ensures forall r :: multiset(Searched(requests, term))[r]
                     == if term == "" || Matches(r, term) then multiset(requests)[r] else 0
  {
    forall r
      ensures multiset(Searched(requests, term))[r]
           == if term == "" || Matches(r, term) then multiset(requests)[r] else 0
    {
      if term != "" {
        FilterMultiset(requests, (q: DelegationRequest) => Matches(q, term), r);
      }
    }
  }

  /** The first `n` elements are sorted. */
  predicate SortedPrefix(s: seq<DelegationRequest>, n: int, key: SortBy)
    requires 0 <= n <= |s|
  {
    forall p, q | 0 <= p < q < n :: !Before(s[q], s[p], key)
  }

  /** While the element at `j` is being moved left through the sorted prefix `s[..i+1]`:
      the prefix without it is sorted, and it belongs before everything it has passed. */
  predicate Inserting(s: seq<DelegationRequest>, i: int, j: int, key: SortBy)
    requires 0 <= j <= i < |s|
  {
    && (forall p, q | 0 <= p < q <= i && p != j && q != j :: !Before(s[q], s[p], key))
    && (forall q | j < q <= i :: Before(s[j], s[q], key))
  }

  /** Swapping the moving element with a smaller left neighbour keeps the insertion
      invariant one place further left. */
  lemma SwapStep(s: seq<DelegationRequest>, i: int, j: int, key: SortBy)
    requires 0 < j <= i < |s| && Inserting(s, i, j, key) && Before(s[j], s[j - 1], key)
    ensures Inserting(s[j - 1 := s[j]][j := s[j - 1]], i, j - 1, key)
  {
  }

  /** Once the moving element meets a left neighbour it does not belong before (or the
      front), the whole prefix `s[..i+1]` is sorted. */
  lemma InsertDone(s: seq<DelegationRequest>, i: int, j: int, key: SortBy)
    requires 0 <= j <= i < |s| && Inserting(s, i, j, key)
    requires j == 0 || !Before(s[j], s[j - 1], key)
    ensures SortedPrefix(s, i + 1, key)
  {
    forall p, q | 0 <= p < q <= i
      ensures !Before(s[q], s[p], key)
    {
      if q == j {
        BeforeIsStrictWeakOrder(s[j], s[j - 1], s[p], key);
      } else if p == j {
        BeforeIsStrictWeakOrder(s[p], s[q], s[q], key);
      }
    }
  }

  /** `Array.prototype.sort` with the page's comparator, as an insertion sort: each
      element moves left past every element whose key is smaller. */
  method SortDescending(a: array<DelegationRequest>, key: SortBy)
    modifies a
    ensures SortedDescending(a[..], key)
    ensures multiset(a[..]) == old(multiset(a[..]))
  {
    var i := 0;
    while i < a.Length
      invariant 0 <= i <= a.Length
      invariant SortedPrefix(a[..], i, key)
      invariant multiset(a[..]) == old(multiset(a[..]))
    {
      var j := i;
      while j > 0 && Before(a[j], a[j - 1], key)
        invariant 0 <= j <= i
        invariant Inserting(a[..], i, j, key)
        invariant multiset(a[..]) == old(multiset(a[..]))
      {
        SwapStep(a[..], i, j, key);
        a[j - 1], a[j] := a[j], a[j - 1];
        j := j - 1;
      }
      InsertDone(a[..], i, j, key);
      i := i + 1;
    }
  }

  /** The request list: the searched requests, sorted. The result holds exactly the
      requests the search keeps, each as often as in the store, and no request in it is
      followed by one with a greater key. */
  method ListRequests(requests: seq<DelegationRequest>, term: string, key: SortBy)
    returns (result: seq<DelegationRequest>)
    ensures multiset(result) == multiset(Searched(requests, term))
    ensures SortedDescending(result, key)
    ensures forall r :: r in result <==> r in requests && (term == "" || Matches(r, term))
  {
    var kept := Searched(requests, term);
    var a := new DelegationRequest[|kept|](k requires 0 <= k < |kept| => kept[k]);
    assert a[..] == kept;
    SortDescending(a, key);
    result := a[..];
    SearchedSpec(requests, term);
    forall r
      ensures r in result <==> r in requests && (term == "" || Matches(r, term))
    {
      assert r in result <==> multiset(result)[r] > 0;
      assert r in requests <==> multiset(requests)[r] > 0;
    }
  }
}
