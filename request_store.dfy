/** The application's state: the registry of instances it started with and the list of
    delegation requests, which the add, update and delete handlers replace step by step. */
module RequestStore {
  import opened Basics
  import opened InstanceRegistry
  import opened Delegation
  import opened RequestForm

  class Store {
    /** `delegationRequests`, in insertion order. */
    var requests: seq<DelegationRequest>
    /** `instances`: seeded at start-up and never replaced. */
    const instances: seq<Instance>
    /** The signed-in user's name. */
    const currentUser: string

    /** The state at start-up: the seed catalogue and no requests. */
    constructor ()
      ensures requests == [] && instances == InitialInstances() && currentUser == CurrentUserName
    {
      requests := [];
      instances := InitialInstances();
      currentUser := CurrentUserName;
    }

    /** `handleAddRequest`: append the submitted request as a new `solicitada` record whose
        id comes from the clock reading `stamp`; every earlier record stays as it was. */
    method AddRequest(data: Submission, stamp: int, date: int) returns (created: DelegationRequest)
      modifies this
      ensures created == Created(data, stamp, date, currentUser)
      ensures requests == old(requests) + [created]
      ensures created.id == RequestId(stamp) && created.status.Solicitada?
      ensures created.requestedBy == currentUser && created.trazabilidad == data.trazabilidad
    {
      created := Created(data, stamp, date, currentUser);
      requests := requests + [created];
    }

    /** `handleUpdateRequest`: the record being edited, merged with the submitted values,
        takes the place of every record with its id. */
    method UpdateRequest(editing: DelegationRequest, data: Submission)
      modifies this
      ensures requests == ReplaceById(old(requests), editing.id, Merge(editing, data))
      ensures |requests| == |old(requests)| && Ids(requests) == Ids(old(requests))
    {
      MergeSpec(editing, data);
      ReplaceKeepsIds(requests, editing.id, Merge(editing, data));
      requests := ReplaceById(requests, editing.id, Merge(editing, data));
    }

    /** `handleDeleteRequest`: drop every record with the id. */
    method DeleteRequest(id: string)
      modifies this
      ensures requests == RemoveById(old(requests), id)
      ensures forall r | r in requests :: r.id != id
      ensures AllRequested(old(requests)) ==> AllRequested(requests)
    {
      RemoveSpec(requests, id);
      if AllRequested(requests) {
        RemoveKeepsRequested(requests, id);
      }
      requests := RemoveById(requests, id);
    }

    /** Submitting the new-request form: a rejected form leaves the list alone; an
        accepted one adds exactly one record at the end. */
    method SubmitNew(f: FormValues, now: int, stamp: int, date: int) returns (outcome: SubmitOutcome)
      modifies this
      ensures outcome == Submit(f, None, now)
      ensures outcome.Submitted? ==> requests == old(requests) + [Created(outcome.data, stamp, date, currentUser)]
      ensures !outcome.Submitted? ==> requests == old(requests)
      ensures AllRequested(old(requests)) ==> AllRequested(requests)
    {
      outcome := Submit(f, None, now);
      if outcome.Submitted? {
        if AllRequested(requests) {
          AddKeepsRequested(requests, outcome.data, stamp, date, currentUser);
        }
        var _ := AddRequest(outcome.data, stamp, date);
      }
    }

    /** Submitting the form opened on `editing`: a rejected form leaves the list alone;
        an accepted one replaces the edited record by id. */
    method SubmitEdit(editing: DelegationRequest, f: FormValues, now: int) returns (outcome: SubmitOutcome)
      modifies this
      ensures outcome == Submit(f, Some(editing), now)
      ensures outcome.Submitted? ==> requests == ReplaceById(old(requests), editing.id, Merge(editing, outcome.data))
      ensures !outcome.Submitted? ==> requests == old(requests)
      ensures AllRequested(old(requests)) && editing in old(requests) && OpenedOn(f, Some(editing))
              ==> AllRequested(requests)
    {
      outcome := Submit(f, Some(editing), now);
      if outcome.Submitted? {
        if AllRequested(requests) && editing in requests && OpenedOn(f, Some(editing)) {
          SubmissionStaysRequested(f, Some(editing), now);
          ReplaceKeepsRequested(requests, editing.id, Merge(editing, outcome.data));
        }
        UpdateRequest(editing, outcome.data);
      }
    }
  }

  /** Creating a request under a fresh id and deleting it again leaves the store as it
      was. */
  method CreateThenDelete(store: Store, f: FormValues, t: int)
    requires RulesHold(f) && RequestId(t) !in Ids(store.requests)
    modifies store
    ensures store.requests == old(store.requests)
  {
    var before := store.requests;
    var o := store.SubmitNew(f, t, t, t);
    var r := Created(o.data, t, t, store.currentUser);
    RemoveUndoesAdd(before, r);
    store.DeleteRequest(r.id);
  }

  /** Editing the one request of a store keeps its id and position and grows its trail by
      one entry, the first entry unchanged. */
  method EditOnlyRequest(store: Store, r: DelegationRequest, g: FormValues, t: int)
    requires store.requests == [r] && RulesHold(g)
    modifies store
    ensures |store.requests| == 1 && store.requests[0].id == r.id
    ensures |store.requests[0].trazabilidad| == |r.trazabilidad| + 1
    ensures store.requests[0].trazabilidad[..|r.trazabilidad|] == r.trazabilidad
  {
    var o := store.SubmitEdit(r, g, t);
    TraceGrowsByOne(g, Some(r), t);
    MergeSpec(r, o.data);
  }
}
