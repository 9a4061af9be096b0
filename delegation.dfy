/** Delegation requests and the three ways the application changes its list of them:
    appending a new request, replacing a request by id after an edit, and removing
    every request with a given id. */
module Delegation {
  import opened Basics
  import opened Text
  import opened StatusCatalog

  /** One entry of a request's audit trail (`trazabilidad`): the status recorded and when. */
  datatype TraceEntry = TraceEntry(estado: Status, fecha: int)

  /** A delegation request as the application stores it. Dates are instants on one
      integer time line; an empty date field is `None`; `instanceId` is `None` when
      `parseInt` produced `NaN`. */
  datatype DelegationRequest = DelegationRequest(
    id: string,
    instanceId: Option<int>,
    proposedDelegate: string,
    justification: string,
    fechaDesignacion: Option<int>,
    fechaVencimiento: Option<int>,
    urgency: string,
    status: Status,
    date: int,
    requestedBy: string,
    trazabilidad: seq<TraceEntry>)

  /** What the request form hands on when it is submitted: the form's values with the
      instance id parsed and the audit trail extended. `status` is `None` when the
      values carry no status. */
  datatype Submission = Submission(
    instanceId: Option<int>,
    proposedDelegate: string,
    justification: string,
    fechaDesignacion: Option<int>,
    fechaVencimiento: Option<int>,
    urgency: string,
    status: Option<Status>,
    trazabilidad: seq<TraceEntry>)

  /** The name of the signed-in user, recorded as the requester of new requests. */
  const CurrentUserName: string := "Albert Buitrago"

  /** `req-${Date.now()}` for the clock reading `stamp`. */
  function RequestId(stamp: int): string
  {
    "req-" + Decimal(stamp)
  }

  /** Requests created at different clock readings get different ids. */
  lemma RequestIdInjective(a: int, b: int)
    requires RequestId(a) == RequestId(b)
    ensures a == b
  {
    assert RequestId(a)[4..] == Decimal(a);
    assert RequestId(b)[4..] == Decimal(b);
    DecimalInjective(a, b);
  }

  /** The record a new request becomes: the submitted values with a fresh id, status
      `solicitada`, the creation date and the requester. */
  function Created(data: Submission, stamp: int, date: int, user: string): DelegationRequest
  {
    DelegationRequest(RequestId(stamp), data.instanceId, data.proposedDelegate, data.justification,
                      data.fechaDesignacion, data.fechaVencimiento, data.urgency,
                      Solicitada, date, user, data.trazabilidad)
  }

  /** `{...old, ...data}`: every value the form submitted replaces the old one; the id,
      creation date and requester stay, and so does the status when none was submitted. */
  function Merge(prev: DelegationRequest, data: Submission): DelegationRequest
  {
    prev.(instanceId := data.instanceId,
         proposedDelegate := data.proposedDelegate,
         justification := data.justification,
         fechaDesignacion := data.fechaDesignacion,
         fechaVencimiento := data.fechaVencimiento,
         urgency := data.urgency,
         status := data.status.GetOr(prev.status),
         trazabilidad := data.trazabilidad)
  }

  /** `s.map(q => q.id === id ? r : q)`: every request with id `id` becomes `r`, every
      other request stays where and what it was. */
  function ReplaceById(s: seq<DelegationRequest>, id: string, r: DelegationRequest)
    : (out: seq<DelegationRequest>)
    ensures |out| == |s|
    ensures forall k | 0 <= k < |s| :: out[k] == if s[k].id == id then r else s[k]
  {
    if s == [] then [] else [if s[0].id == id then r else s[0]] + ReplaceById(s[1..], id, r)
  }

  predicate HasId(r: DelegationRequest, id: string)
  {
    r.id == id
  }

  /** `s.filter(q => q.id !== id)`. */
  function RemoveById(s: seq<DelegationRequest>, id: string): seq<DelegationRequest>
  {
    Filter(s, (q: DelegationRequest) => q.id != id)
  }

  function Ids(s: seq<DelegationRequest>): (ids: seq<string>)
    ensures |ids| == |s| && forall k | 0 <= k < |s| :: ids[k] == s[k].id
  {
    if s == [] then [] else [s[0].id] + Ids(s[1..])
  }

  predicate DistinctIds(s: seq<DelegationRequest>)
  {
    forall j, k | 0 <= j < k < |s| :: s[j].id != s[k].id
  }

  /** No request has left `solicitada`: each has that status, and so does every entry of
      its audit trail. */
  predicate AllRequested(s: seq<DelegationRequest>)
  {
    forall r | r in s :: r.status == Solicitada && forall e | e in r.trazabilidad :: e.estado == Solicitada
  }

  /** An update whose id matches nothing leaves the list as it was. */
  lemma ReplaceAbsent(s: seq<DelegationRequest>, id: string, r: DelegationRequest)
    requires forall q | q in s :: q.id != id
    ensures ReplaceById(s, id, r) == s
  {
  }

  /** Replacing by id with a record of the same id keeps the id list as it was, so
      distinct ids stay distinct; with distinct ids exactly one position changes. */
  lemma ReplaceKeepsIds(s: seq<DelegationRequest>, id: string, r: DelegationRequest)
    requires r.id == id
    ensures Ids(ReplaceById(s, id, r)) == Ids(s)
    ensures DistinctIds(s) ==> DistinctIds(ReplaceById(s, id, r))
    ensures forall k | 0 <= k < |s| && s[k].id == id && DistinctIds(s) :: ReplaceById(s, id, r) == s[k := r]
  {
  }

  /** Deleting removes every request with the id and only those: no survivor has the id,
      each other request keeps all its occurrences, and the survivors keep their order. */
  lemma RemoveSpec(s: seq<DelegationRequest>, id: string)
    ensures forall q | q in RemoveById(s, id) :: q.id != id
    ensures forall q :: multiset(RemoveById(s, id))[q] == if q.id == id then 0 else multiset(s)[q]
    ensures IsSubsequence(RemoveById(s, id), s)
    ensures |RemoveById(s, id)| == |s| - |Filter(s, (q: DelegationRequest) => HasId(q, id))|
  {
    var keep := (q: DelegationRequest) => q.id != id;
    forall q
      ensures multiset(RemoveById(s, id))[q] == if q.id == id then 0 else multiset(s)[q]
      ensures q in RemoveById(s, id) ==> q.id != id
    {
      FilterMultiset(s, keep, q);
      FilterMembership(s, keep, q);
    }
    FilterIsSubsequence(s, keep);
    FilterPartition(s, keep, (q: DelegationRequest) => HasId(q, id));
  }

  /** After a delete, an update of the deleted id finds nothing to change. */
  lemma UpdateAfterRemove(s: seq<DelegationRequest>, id: string, r: DelegationRequest)
    ensures ReplaceById(RemoveById(s, id), id, r) == RemoveById(s, id)
  {
    RemoveSpec(s, id);
    ReplaceAbsent(RemoveById(s, id), id, r);
  }

  /** Deleting keeps distinct ids distinct. */
  lemma {:induction false} RemoveKeepsDistinct(s: seq<DelegationRequest>, id: string)
    requires DistinctIds(s)
    ensures DistinctIds(RemoveById(s, id))
  {
    if s != [] {
      RemoveKeepsDistinct(s[1..], id);
      var keep := (q: DelegationRequest) => q.id != id;
      if keep(s[0]) {
        var rest := RemoveById(s[1..], id);
        assert RemoveById(s, id) == [s[0]] + rest;
        forall k | 0 <= k < |rest|
          ensures rest[k].id != s[0].id
        {
          FilterMembership(s[1..], keep, rest[k]);
          var m :| 0 <= m < |s[1..]| && s[1..][m] == rest[k];
          assert s[m + 1] == rest[k];
        }
      }
    }
  }

  /** Adding a request whose id is not yet in use keeps ids distinct. */
  lemma AddKeepsDistinct(s: seq<DelegationRequest>, r: DelegationRequest)
    requires DistinctIds(s) && r.id !in Ids(s)
    ensures DistinctIds(s + [r])
  {
    forall j | 0 <= j < |s|
      ensures s[j].id != r.id
    {
      assert Ids(s)[j] == s[j].id;
    }
  }

  /** Deleting the id of a request just appended, when no earlier request had that id,
      gives back the list as it was before the add. */
  lemma RemoveUndoesAdd(s: seq<DelegationRequest>, r: DelegationRequest)
    requires r.id !in Ids(s)
    ensures RemoveById(s + [r], r.id) == s
  {
    var keep := (q: DelegationRequest) => q.id != r.id;
    FilterAppend(s, r, keep);
    forall q | q in s
      ensures keep(q)
    {
      var k :| 0 <= k < |s| && s[k] == q;
      assert Ids(s)[k] == q.id;
    }
    FilterLength(s, keep);
  }

  /** Deleting never brings back a status other than `solicitada`. */
  lemma RemoveKeepsRequested(s: seq<DelegationRequest>, id: string)
    requires AllRequested(s)
    ensures AllRequested(RemoveById(s, id))
  {
    forall q | q in RemoveById(s, id)
      ensures q in s
    {
      FilterMembership(s, (q: DelegationRequest) => q.id != id, q);
    }
  }

  /** Adding a record created from a submission whose trail is all `solicitada` keeps
      every request `solicitada`. */
  lemma AddKeepsRequested(s: seq<DelegationRequest>, data: Submission, stamp: int, date: int, user: string)
    requires AllRequested(s)
    requires forall e | e in data.trazabilidad :: e.estado == Solicitada
    ensures AllRequested(s + [Created(data, stamp, date, user)])
  {
  }

  /** Replacing records by a `solicitada` one keeps every request `solicitada`. */
  lemma ReplaceKeepsRequested(s: seq<DelegationRequest>, id: string, r: DelegationRequest)
    requires AllRequested(s) && AllRequested([r])
    ensures AllRequested(ReplaceById(s, id, r))
  {
    forall q | q in ReplaceById(s, id, r)
      ensures q in s || q == r
    {
      var k :| 0 <= k < |s| && ReplaceById(s, id, r)[k] == q;
    }
  }

  /** An edit's merge keeps the record's identity (id, creation date, requester) and
      takes every submitted value. */
  lemma MergeSpec(prev: DelegationRequest, data: Submission)
    ensures Merge(prev, data).id == prev.id
    ensures Merge(prev, data).date == prev.date && Merge(prev, data).requestedBy == prev.requestedBy
    ensures data.status.Some? ==> Merge(prev, data).status == data.status.value
    ensures data.status.None? ==> Merge(prev, data).status == prev.status
    ensures Merge(prev, data).trazabilidad == data.trazabilidad
  {
  }
}
