/** The catalogue of decision-making bodies (`INITIAL_INSTANCES`) and the two ways the
    application narrows it: the delegable list offered by the request form and the
    filter of the instances page. */
module InstanceRegistry {
  import opened Basics
  import opened Text

  datatype InstanceMetadata = InstanceMetadata(lastUpdated: string, version: string)

  /** A decision-making body; `delegable` is the string `DELEGABLE` or `INDELEGABLE` and
      `status` is `Activa` for an active body. */
  datatype Instance = Instance(
    id: int,
    nombre: string,
    delegable: string,
    status: string,
    createdAt: string,
    dependenciaResponsable: string,
    miembroPrincipal: string,
    actoAdministrativo: string,
    periodicidadReuniones: string,
    powerBIIntegration: bool,
    orfeoIntegration: bool,
    metadata: InstanceMetadata)

  /** The seed catalogue the application starts with. */
  function InitialInstances(): seq<Instance>
  {
    [ Instance(1, "Consejo de Ministros", "INDELEGABLE", "Activa", "2025-01-01",
               "Dirección General", "Director General", "Resolución 001-2025",
               "Cuando se requiera", true, false, InstanceMetadata("2025-01-02", "1.0")),
      Instance(2, "Consejo Superior de Comercio Exterior", "DELEGABLE", "Activa", "2025-01-01",
               "Subdirección General", "Subdirector General", "Resolución 002-2025",
               "Mensual", true, true, InstanceMetadata("2025-01-03", "1.1")) ]
  }

  predicate IsDelegable(i: Instance)
  {
    i.delegable == "DELEGABLE"
  }

  /** The instances the request form offers: those whose `delegable` is `DELEGABLE`. */
  function DelegableInstances(instances: seq<Instance>): seq<Instance>
  {
    Filter(instances, IsDelegable)
  }

  /** The instances page filter: `all` shows everything, any other choice keeps the
      instances whose `delegable` equals the upper-cased choice. */
  function FilterInstances(instances: seq<Instance>, choice: string): seq<Instance>
  {
    if choice == "all" then instances
    else Filter(instances, (i: Instance) => i.delegable == ToUpper(choice))
  }

  /** The delegable list holds exactly the delegable instances, each as often as the
      catalogue holds it, in catalogue order. */
  lemma DelegableInstancesSpec(instances: seq<Instance>)
    ensures forall i :: i in DelegableInstances(instances) <==> i in instances && IsDelegable(i)
    ensures forall i :: multiset(DelegableInstances(instances))[i]
                     == if IsDelegable(i) then multiset(instances)[i] else 0
    ensures IsSubsequence(DelegableInstances(instances), instances)
  {
    forall i
      ensures i in DelegableInstances(instances) <==> i in instances && IsDelegable(i)
      ensures multiset(DelegableInstances(instances))[i]
           == if IsDelegable(i) then multiset(instances)[i] else 0
    {
      FilterMembership(instances, IsDelegable, i);
      FilterMultiset(instances, IsDelegable, i);
    }
    FilterIsSubsequence(instances, IsDelegable);
  }

  lemma UpperCasedDelegable()
    ensures ToUpper("delegable") == "DELEGABLE"
  {
    UpperCaseOf("delegable", "DELEGABLE");
  }

  lemma UpperCasedIndelegable()
    ensures ToUpper("indelegable") == "INDELEGABLE"
  {
    UpperCaseOf("indelegable", "INDELEGABLE");
  }

  /** The page filter's `delegable` choice shows the same list the request form offers,
      and its `indelegable` choice shows exactly the `INDELEGABLE` instances. */
  lemma FilterChoices(instances: seq<Instance>)
    ensures FilterInstances(instances, "all") == instances
    ensures FilterInstances(instances, "delegable") == DelegableInstances(instances)
    ensures FilterInstances(instances, "indelegable")
         == Filter(instances, (i: Instance) => i.delegable == "INDELEGABLE")
  {
    UpperCasedDelegable();
    UpperCasedIndelegable();
    FilterCongruent(instances, (i: Instance) => i.delegable == ToUpper("delegable"), IsDelegable);
  }

  /** When every instance is flagged one way or the other, the `delegable` and
      `indelegable` views together show each instance exactly once. */
  lemma FilterViewsPartition(instances: seq<Instance>)
    requires forall i | i in instances :: i.delegable == "DELEGABLE" || i.delegable == "INDELEGABLE"
    ensures |FilterInstances(instances, "delegable")| + |FilterInstances(instances, "indelegable")|
         == |instances|
  {
    FilterChoices(instances);
    FilterPartition(instances, IsDelegable, (i: Instance) => i.delegable == "INDELEGABLE");
  }

  /** Of the seed catalogue only the second body may be delegated; both are active and
      their ids are distinct. */
  lemma InitialCatalogue()
    ensures DelegableInstances(InitialInstances()) == [InitialInstances()[1]]
    ensures InitialInstances()[1].id == 2
    ensures forall i | i in InitialInstances() :: i.status == "Activa"
    ensures InitialInstances()[0].id != InitialInstances()[1].id
  {
    var xs := InitialInstances();
    assert xs[1..][1..] == [];
    assert DelegableInstances(xs) == Filter(xs[1..], IsDelegable);
  }
}
