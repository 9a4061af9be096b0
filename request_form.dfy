/** The delegation request form: its field rules, the expiry guard of its submit
    handler, and the submission it hands on. */
module RequestForm {
  import opened Basics
  import opened Text
  import opened StatusCatalog
  import opened InstanceRegistry
  import opened Delegation

  /** The form's values as the browser reports them. `instanceId` and `urgency` are the
      values of two select elements; date inputs are `None` when left empty; `status` is
      present only when the form was opened on an existing request. */
  datatype FormValues = FormValues(
    instanceId: string,
    proposedDelegate: string,
    justification: string,
    fechaDesignacion: Option<int>,
    fechaVencimiento: Option<int>,
    urgency: string,
    status: Option<Status>)

  /** The message each field rule shows when it fails; a field shows at most one. */
  datatype FieldError =
    | InstanceRequired        // "Seleccione una instancia"
    | DelegateRequired        // "Ingrese el nombre"
    | DelegateTooShort        // "Mínimo 3 caracteres"
    | DesignationRequired     // "Seleccione una fecha"
    | ExpiryInvalid           // "Fecha inválida"
    | UrgencyRequired         // "Seleccione urgencia"
    | JustificationRequired   // "Ingrese justificación"
    | JustificationTooShort   // "Mínimo 10 caracteres"

  const DelegateMinLength: nat := 3
  const JustificationMinLength: nat := 10

  /** The expiry rule: an empty expiry passes; otherwise it must not be earlier than the
      designation date (an empty designation date compares as an invalid date, which
      fails the rule). */
  predicate ExpiryRuleHolds(f: FormValues)
  {
    f.fechaVencimiento.None?
    || (f.fechaDesignacion.Some? && f.fechaVencimiento.value >= f.fechaDesignacion.value)
  }

  /** When each rule fails. A minimum length is only checked on a non-empty value, so a
      field's `required` and `minLength` rules never fail together. */
  predicate Fails(f: FormValues, e: FieldError)
  {
    match e
    case InstanceRequired => f.instanceId == ""
    case DelegateRequired => f.proposedDelegate == ""
    case DelegateTooShort => 0 < |f.proposedDelegate| < DelegateMinLength
    case DesignationRequired => f.fechaDesignacion.None?
    case ExpiryInvalid => !ExpiryRuleHolds(f)
    case UrgencyRequired => f.urgency == ""
    case JustificationRequired => f.justification == ""
    case JustificationTooShort => 0 < |f.justification| < JustificationMinLength
  }

  /** Every rule's message, in the order of the fields and, within a field, of its rules. */
  function FieldOrder(): seq<FieldError>
  {
    [InstanceRequired, DelegateRequired, DelegateTooShort, DesignationRequired,
     ExpiryInvalid, UrgencyRequired, JustificationRequired, JustificationTooShort]
  }

  /** Every message appears once in the field order. */
  lemma FieldOrderOnce(e: FieldError)
    ensures multiset(FieldOrder())[e] == 1
  {
  }

  /** Keeping the messages of the failing rules keeps each failing message exactly once
      and nothing else. */
  lemma FailingMessagesOnce(fails: FieldError -> bool, e: FieldError)
    ensures multiset(Filter(FieldOrder(), fails))[e] == if fails(e) then 1 else 0
  {
    FilterMultiset(FieldOrder(), fails, e);
    FieldOrderOnce(e);
  }

  /** No message is kept exactly when no rule fails. */
  lemma NoFailingMessages(fails: FieldError -> bool)
    ensures Filter(FieldOrder(), fails) == []
        <==> !fails(InstanceRequired) && !fails(DelegateRequired) && !fails(DelegateTooShort)
             && !fails(DesignationRequired) && !fails(ExpiryInvalid) && !fails(UrgencyRequired)
             && !fails(JustificationRequired) && !fails(JustificationTooShort)
  {
    FilterLength(FieldOrder(), fails);
    forall e | e in FieldOrder() && fails(e)
      ensures e in Filter(FieldOrder(), fails)
    {
      FilterMembership(FieldOrder(), fails, e);
    }
  }

  /** When no field has two failing rules, at most six messages are kept. */
  lemma AtMostSixFailingMessages(fails: FieldError -> bool)
    requires !(fails(DelegateRequired) && fails(DelegateTooShort))
    requires !(fails(JustificationRequired) && fails(JustificationTooShort))
    ensures |Filter(FieldOrder(), fails)| <= 6
  {
    var s8 := [JustificationTooShort];
    var s7 := [JustificationRequired] + s8;
    var s6 := [UrgencyRequired] + s7;
    var s5 := [ExpiryInvalid] + s6;
    var s4 := [DesignationRequired] + s5;
    var s3 := [DelegateTooShort] + s4;
    var s2 := [DelegateRequired] + s3;
    var s1 := [InstanceRequired] + s2;
    assert FieldOrder() == s1;
    FilterCons(InstanceRequired, s2, fails);
    FilterCons(DelegateRequired, s3, fails);
    FilterCons(DelegateTooShort, s4, fails);
    FilterCons(DesignationRequired, s5, fails);
    FilterCons(ExpiryInvalid, s6, fails);
    FilterCons(UrgencyRequired, s7, fails);
    FilterCons(JustificationRequired, s8, fails);
    FilterCons(JustificationTooShort, [], fails);
    assert [JustificationTooShort] + [] == s8;
  }

  /** The errors the form shows: the message of every failing rule, in the order of the
      fields. */
  function Validate(f: FormValues): (errors: seq<FieldError>)
    ensures errors == [] <==> RulesHold(f)
    ensures |errors| <= 6
  {
    var fails := (e: FieldError) => Fails(f, e);
    NoFailingMessages(fails);
    AtMostSixFailingMessages(fails);
    Filter(FieldOrder(), fails)
  }

  /** The message `e` appears exactly when its rule fails, and then exactly once. */
  lemma ValidateMessage(f: FormValues, e: FieldError)
    ensures multiset(Validate(f))[e] == if Fails(f, e) then 1 else 0
    ensures e in Validate(f) <==> Fails(f, e)
  {
    FailingMessagesOnce((e: FieldError) => Fails(f, e), e);
    assert e in Validate(f) <==> e in multiset(Validate(f));
  }

  /** Each message appears exactly when its rule fails, and then exactly once: a required
      message for an empty field, a length message for a value that is present but too
      short, the expiry message when the expiry rule fails. */
  lemma ValidateMessages(f: FormValues)
    ensures forall e :: multiset(Validate(f))[e] == if Fails(f, e) then 1 else 0
    ensures forall e :: e in Validate(f) <==> Fails(f, e)
  {
    forall e
      ensures multiset(Validate(f))[e] == if Fails(f, e) then 1 else 0
      ensures e in Validate(f) <==> Fails(f, e)
    {
      ValidateMessage(f, e);
    }
  }

  /** A field's required rule and its length rule never fail together. */
  lemma FieldRulesExclusive(f: FormValues)
    ensures !(Fails(f, DelegateRequired) && Fails(f, DelegateTooShort))
    ensures !(Fails(f, JustificationRequired) && Fails(f, JustificationTooShort))
  {
  }

  /** A field never shows both its required message and its length message. */
  lemma OneMessagePerField(f: FormValues)
    ensures !(DelegateRequired in Validate(f) && DelegateTooShort in Validate(f))
    ensures !(JustificationRequired in Validate(f) && JustificationTooShort in Validate(f))
  {
    FieldRulesExclusive(f);
    ValidateMessages(f);
  }

  /** Every field rule, stated field by field. */
  predicate RulesHold(f: FormValues)
  {
    && f.instanceId != ""
    && |f.proposedDelegate| >= DelegateMinLength
    && f.fechaDesignacion.Some?
    && ExpiryRuleHolds(f)
    && f.urgency != ""
    && |f.justification| >= JustificationMinLength
  }

  /** The submit handler's own guard: an expiry date earlier than the designation date. */
  predicate ExpiryBeforeDesignation(f: FormValues)
  {
    f.fechaVencimiento.Some? && f.fechaDesignacion.Some?
    && f.fechaVencimiento.value < f.fechaDesignacion.value
  }

  /** The audit trail a submission carries: a new request starts with one `solicitada`
      entry; an edit appends one entry, with the submitted status or `solicitada`. */
  function NextTrace(f: FormValues, initial: Option<DelegationRequest>, now: int): seq<TraceEntry>
  {
    match initial
    case None => [TraceEntry(Solicitada, now)]
    case Some(r) => r.trazabilidad + [TraceEntry(f.status.GetOr(Solicitada), now)]
  }

  datatype SubmitOutcome =
    | Invalid(errors: seq<FieldError>)   // field rules failed: the submit handler never runs
    | DateOrderRejected                  // the handler's guard fired: nothing is submitted
    | Submitted(data: Submission)        // `onSubmit` receives `data`

  /** Submitting the form at time `now`, opened on `initial` when editing. */
  function Submit(f: FormValues, initial: Option<DelegationRequest>, now: int): (r: SubmitOutcome)
    ensures r.Submitted? <==> RulesHold(f)
    ensures r.Invalid? ==> r.errors == Validate(f) && r.errors != []
    ensures r.Submitted? ==> r.data.instanceId == ParseInt(f.instanceId)
    ensures r.Submitted? ==> r.data.trazabilidad == NextTrace(f, initial, now)
    ensures r.Submitted? ==> r.data.status == f.status
  {
    var errors := Validate(f);
    if errors != [] then Invalid(errors)
    else if ExpiryBeforeDesignation(f) then DateOrderRejected
    else Submitted(Submission(ParseInt(f.instanceId), f.proposedDelegate, f.justification,
                              f.fechaDesignacion, f.fechaVencimiento, f.urgency, f.status,
                              NextTrace(f, initial, now)))
  }

  /** The handler's expiry guard can never fire: the expiry field rule already rejects
      every expiry earlier than the designation date before the handler runs. */
  lemma ExpiryGuardUnreachable(f: FormValues, initial: Option<DelegationRequest>, now: int)
    ensures Validate(f) == [] ==> !ExpiryBeforeDesignation(f)
    ensures !Submit(f, initial, now).DateOrderRejected?
  {
  }

  /** An expiry earlier than the designation date is never submitted; the form shows
      the expiry rule's message instead. */
  lemma ExpiryBeforeDesignationRejected(f: FormValues, initial: Option<DelegationRequest>, now: int)
    requires ExpiryBeforeDesignation(f)
    ensures Submit(f, initial, now) == Invalid(Validate(f))
    ensures ExpiryInvalid in Validate(f)
  {
  }

  /** A new request's trail holds exactly one `solicitada` entry; an edit keeps the old
      trail as it was and appends exactly one entry with the submitted status, or
      `solicitada` when none was submitted. */
  lemma TraceGrowsByOne(f: FormValues, initial: Option<DelegationRequest>, now: int)
    ensures initial.None? ==> |NextTrace(f, initial, now)| == 1
                              && NextTrace(f, initial, now)[0].estado == Solicitada
    ensures initial.Some? ==>
              var t := NextTrace(f, initial, now);
              var before := initial.value.trazabilidad;
              |t| == |before| + 1 && t[..|before|] == before
              && t[|before|] == TraceEntry(if f.status.Some? then f.status.value else Solicitada, now)
  {
  }

  /** The form has no status field, so its status is whatever its default values carried:
      none for a new request, the edited record's own status for an edit. */
  predicate OpenedOn(f: FormValues, initial: Option<DelegationRequest>)
  {
    f.status == if initial.Some? then Some(initial.value.status) else None
  }

  /** A submission from a form opened on `initial` carries `initial`'s status back
      unchanged (none for a new request), and its new trail entry records that status. */
  lemma SubmittedStatusIsInitial(f: FormValues, initial: Option<DelegationRequest>, now: int)
    requires OpenedOn(f, initial) && Submit(f, initial, now).Submitted?
    ensures initial.None? ==> Submit(f, initial, now).data.status == None
    ensures initial.Some? ==> Submit(f, initial, now).data.status == Some(initial.value.status)
    ensures initial.Some? ==>
              var t := Submit(f, initial, now).data.trazabilidad;
              t[|t| - 1].estado == initial.value.status
  {
  }

  /** A form opened on a `solicitada` request, or on no request, builds a trail that is
      all `solicitada`. */
  lemma NextTraceStaysRequested(f: FormValues, initial: Option<DelegationRequest>, now: int)
    requires OpenedOn(f, initial)
    requires initial.Some? ==> AllRequested([initial.value])
    ensures forall e | e in NextTrace(f, initial, now) :: e.estado == Solicitada
  {
    if initial.Some? {
      var r := initial.value;
      assert r in [r];
      forall e | e in NextTrace(f, initial, now)
        ensures e.estado == Solicitada
      {
        assert e in r.trazabilidad || e == TraceEntry(Solicitada, now);
      }
    }
  }

  /** So such a form submits a trail that is all `solicitada`, and the edited record stays
      `solicitada` after the merge. */
  lemma SubmissionStaysRequested(f: FormValues, initial: Option<DelegationRequest>, now: int)
    requires OpenedOn(f, initial) && Submit(f, initial, now).Submitted?
    requires initial.Some? ==> AllRequested([initial.value])
    ensures forall e | e in Submit(f, initial, now).data.trazabilidad :: e.estado == Solicitada
    ensures initial.Some? ==> AllRequested([Merge(initial.value, Submit(f, initial, now).data)])
  {
    var data := Submit(f, initial, now).data;
    NextTraceStaysRequested(f, initial, now);
    if initial.Some? {
      assert initial.value in [initial.value];
      SubmittedStatusIsInitial(f, initial, now);
      MergeSpec(initial.value, data);
    }
  }

  /** The values the two select elements can produce: the placeholder or one of the
      offered instances' ids, and one of the two urgency options. */
  predicate Selectable(f: FormValues, offered: seq<Instance>)
  {
    (f.instanceId == "" || exists i | i in offered :: f.instanceId == Decimal(i.id))
    && (f.urgency == "Normal" || f.urgency == "Alta")
  }

  /** A submission made through the form names a delegable instance of the registry,
      and its urgency is `Normal` or `Alta`. */
  lemma SubmittedInstanceIsDelegable(f: FormValues, instances: seq<Instance>,
                                     initial: Option<DelegationRequest>, now: int)
    requires Selectable(f, DelegableInstances(instances))
    requires Submit(f, initial, now).Submitted?
    ensures exists i | i in instances :: IsDelegable(i) && Submit(f, initial, now).data.instanceId == Some(i.id)
    ensures Submit(f, initial, now).data.urgency in {"Normal", "Alta"}
  {
    var i :| i in DelegableInstances(instances) && f.instanceId == Decimal(i.id);
    DelegableInstancesSpec(instances);
    ParseDecimal(i.id);
  }

  /** A well-formed new request is submitted with a single `solicitada` entry. */
  lemma ExampleSubmission(now: int)
    ensures var f := FormValues("1", "Juan Perez", "Cobertura temporal por ausencia", Some(20098), None, "Normal", None);
            Submit(f, None, now) == Submitted(Submission(Some(1), "Juan Perez", "Cobertura temporal por ausencia",
                                                         Some(20098), None, "Normal", None,
                                                         [TraceEntry(Solicitada, now)]))
  {
    ParseDecimal(1);
    assert Decimal(1) == "1";
  }

  /** When exactly one rule fails, its message is the only error shown. */
  lemma SingleFailure(f: FormValues, failing: FieldError)
    requires forall e :: Fails(f, e) <==> e == failing
    ensures Validate(f) == [failing]
  {
    FieldOrderOnce(failing);
    FilterSingle(FieldOrder(), (e: FieldError) => Fails(f, e), failing);
  }

  /** With a two-letter delegate the only complaint is the delegate's length. */
  lemma ExampleShortDelegate()
    ensures var f := FormValues("1", "Jo", "Cobertura temporal por ausencia", Some(20098), None, "Normal", None);
            Validate(f) == [DelegateTooShort]
  {
    var f := FormValues("1", "Jo", "Cobertura temporal por ausencia", Some(20098), None, "Normal", None);
    forall e
      ensures Fails(f, e) <==> e == DelegateTooShort
    {
    }
    SingleFailure(f, DelegateTooShort);
  }
}
