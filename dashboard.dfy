/** The dashboard's counters and its bottleneck-risk estimate, recomputed from the
    current requests and instances on every read. */
module Dashboard {
  import opened Basics
  import opened StatusCatalog
  import opened InstanceRegistry
  import opened Delegation

  datatype Stats = Stats(totalRequests: nat, pending: nat, approved: nat,
                         activeInstances: nat, overdue: nat)

  predicate IsPending(r: DelegationRequest)
  {
    r.status == Solicitada
  }

  /** `['firmado', 'publicado'].includes(r.status)`. */
  predicate IsApproved(r: DelegationRequest)
  {
    r.status == Firmado || r.status == Publicado
  }

  /** A request is overdue at `now` when it has an expiry date earlier than `now`. */
  predicate IsOverdue(r: DelegationRequest, now: int)
  {
    r.fechaVencimiento.Some? && r.fechaVencimiento.value < now
  }

  predicate IsActive(i: Instance)
  {
    i.status == "Activa"
  }

  predicate IsUrgent(r: DelegationRequest)
  {
    r.urgency == "Alta"
  }

  /** The five counters at time `now`. Pending and approved requests never overlap, so
      together they never exceed the total; neither do the overdue ones. */
  function ComputeStats(requests: seq<DelegationRequest>, instances: seq<Instance>, now: int)
    : (st: Stats)
    ensures st.totalRequests == |requests|
    ensures st.pending + st.approved <= st.totalRequests
    ensures st.overdue <= st.totalRequests
    ensures st.activeInstances <= |instances|
  {
    FilterDisjointSum(requests, IsPending, IsApproved);
    FilterLength(requests, (r: DelegationRequest) => IsOverdue(r, now));
    FilterLength(instances, IsActive);
    Stats(|requests|,
          |Filter(requests, IsPending)|,
          |Filter(requests, IsApproved)|,
          |Filter(instances, IsActive)|,
          |Filter(requests, (r: DelegationRequest) => IsOverdue(r, now))|)
  }

  /** As time passes the overdue count can only grow. */
  lemma OverdueMonotone(requests: seq<DelegationRequest>, instances: seq<Instance>, t1: int, t2: int)
    requires t1 <= t2
    ensures ComputeStats(requests, instances, t1).overdue <= ComputeStats(requests, instances, t2).overdue
  {
    FilterMonotone(requests, (r: DelegationRequest) => IsOverdue(r, t1),
                             (r: DelegationRequest) => IsOverdue(r, t2));
  }

  /** Adding a request counts one more request and one more pending request; the
      approved and active counts stay, and the overdue count grows exactly when the new
      request is already overdue. */
  lemma StatsAfterAdd(requests: seq<DelegationRequest>, instances: seq<Instance>, now: int,
                      data: Submission, stamp: int, date: int, user: string)
    ensures var before := ComputeStats(requests, instances, now);
            var r := Created(data, stamp, date, user);
            ComputeStats(requests + [r], instances, now)
              == before.(totalRequests := before.totalRequests + 1,
                         pending := before.pending + 1,
                         overdue := before.overdue + if IsOverdue(r, now) then 1 else 0)
  {
    var r := Created(data, stamp, date, user);
    FilterAppend(requests, r, IsPending);
    FilterAppend(requests, r, IsApproved);
    FilterAppend(requests, r, (q: DelegationRequest) => IsOverdue(q, now));
  }

  /** Deleting an id lowers the total by the number of requests that had it. */
  lemma StatsAfterDelete(requests: seq<DelegationRequest>, instances: seq<Instance>, now: int, id: string)
    ensures ComputeStats(RemoveById(requests, id), instances, now).totalRequests
         == |requests| - |Filter(requests, (q: DelegationRequest) => HasId(q, id))|
  {
    RemoveSpec(requests, id);
  }

  /** While every request is still `solicitada`, every request counts as pending and
      none as approved. */
  lemma NothingApprovedWhileRequested(requests: seq<DelegationRequest>, instances: seq<Instance>, now: int)
    requires AllRequested(requests)
    ensures ComputeStats(requests, instances, now).pending == |requests|
    ensures ComputeStats(requests, instances, now).approved == 0
  {
    FilterLength(requests, IsPending);
    FilterLength(requests, IsApproved);
  }

  datatype Risk = Alto | Bajo

  /** The share of urgent requests, dividing by 1 instead of 0 for an empty list. */
  function UrgencyRatio(requests: seq<DelegationRequest>): (ratio: real)
    ensures 0.0 <= ratio <= 1.0
    ensures requests == [] ==> ratio == 0.0
  {
    var urgent := |Filter(requests, IsUrgent)|;
    var n := if |requests| == 0 then 1 else |requests|;
    FilterLength(requests, IsUrgent);
    RatioAtMostOne(urgent, n);
    (urgent as real) / (n as real)
  }

  /** A count no larger than a positive total gives a ratio between 0 and 1. */
  lemma RatioAtMostOne(a: nat, n: nat)
    requires 0 < n && a <= n
    ensures 0.0 <= (a as real) / (n as real) <= 1.0
  {
    var r := n as real;
    var q := (a as real) / r;
    assert q * r == a as real;
    if q < 0.0 {
      ProductSign(-q, r);
    }
    if q > 1.0 {
      ProductSign(q - 1.0, r);
    }
  }

  /** The risk is high when more than half of the requests are urgent; in whole numbers,
      when twice the urgent count exceeds the total. An empty list is low risk. */
  function BottleneckRisk(requests: seq<DelegationRequest>): (risk: Risk)
    ensures risk == Alto <==> 2 * |Filter(requests, IsUrgent)| > |requests|
    ensures requests == [] ==> risk == Bajo
  {
    var urgent := |Filter(requests, IsUrgent)|;
    var n := if |requests| == 0 then 1 else |requests|;
    RatioAboveHalf(urgent, n);
    if UrgencyRatio(requests) > 0.5 then Alto else Bajo
  }

  /** For a positive total, the ratio exceeds one half exactly when twice the count
      exceeds the total. */
  lemma RatioAboveHalf(a: nat, n: nat)
    requires n > 0
    ensures (a as real) / (n as real) > 0.5 <==> 2 * a > n
  {
    var r := n as real;
    var q := (a as real) / r;
    assert q * r == a as real;
    assert q * r - 0.5 * r == (q - 0.5) * r;
    if q > 0.5 {
      ProductSign(q - 0.5, r);
      assert (2 * a) as real == 2.0 * (a as real) > r;
    } else {
      ProductSign(0.5 - q, r);
      assert (0.5 - q) * r == 0.5 * r - q * r;
      assert (2 * a) as real == 2.0 * (a as real) <= r;
    }
  }

  /** A non-negative factor times a positive one is non-negative, and positive when it is. */
  lemma ProductSign(x: real, y: real)
    requires x >= 0.0 && y > 0.0
    ensures x * y >= 0.0
    ensures x > 0.0 ==> x * y > 0.0
  {
  }

  /** Six urgent requests out of ten are high risk. */
  lemma SixOfTenIsHighRisk(requests: seq<DelegationRequest>)
    requires |requests| == 10 && |Filter(requests, IsUrgent)| == 6
    ensures BottleneckRisk(requests) == Alto
  {
  }
}
