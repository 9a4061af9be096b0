/** The fixed catalogue of request statuses (`STATUS_OPTIONS`). */
module StatusCatalog {
  import opened Basics
  import opened Text

  /** The six statuses a delegation request can be in. */
  datatype Status = Solicitada | AutorizadaDG | EnElaboracion | Firmado | Publicado | Rechazado

  /** One catalogue entry: the stored value, its display label (`label`), its colour classes and
      its priority. */
  datatype StatusOption = StatusOption(value: string, labelText: string, color: string, priority: int)

  /** `STATUS_OPTIONS`, in declaration order. */
  function StatusOptions(): seq<StatusOption>
  {
    [ StatusOption("solicitada", "Solicitada", "bg-blue-100 text-blue-800", 1),
      StatusOption("autorizadaDG", "Autorizada DG", "bg-yellow-100 text-yellow-800", 2),
      StatusOption("enElaboracion", "En Elaboración", "bg-orange-100 text-orange-800", 3),
      StatusOption("firmado", "Firmado", "bg-green-100 text-green-800", 4),
      StatusOption("publicado", "Publicado", "bg-green-200 text-green-900", 5),
      StatusOption("rechazado", "Rechazado", "bg-red-100 text-red-800", 0) ]
  }

  /** Position of a status's entry in the catalogue. */
  function Index(s: Status): (k: nat)
    ensures k < |StatusOptions()|
  {
    match s
    case Solicitada => 0
    case AutorizadaDG => 1
    case EnElaboracion => 2
    case Firmado => 3
    case Publicado => 4
    case Rechazado => 5
  }

  function Definition(s: Status): StatusOption
  {
    StatusOptions()[Index(s)]
  }

  /** The string a request stores in its `status` field. */
  function Value(s: Status): string
  {
    Definition(s).value
  }

  function Priority(s: Status): int
  {
    Definition(s).priority
  }

  /** The status whose entry sits at position `k` of the catalogue. */
  function StatusAt(k: nat): Status
    requires k < 6
  {
    [Solicitada, AutorizadaDG, EnElaboracion, Firmado, Publicado, Rechazado][k]
  }

  /** Every entry of the catalogue belongs to exactly one status. */
  lemma CatalogueCoversStatuses()
    ensures |StatusOptions()| == 6
    ensures forall k | 0 <= k < 6 :: Index(StatusAt(k)) == k
    ensures forall s :: StatusAt(Index(s)) == s
  {
  }

  /** Priorities run from `rechazado` at 0 to `publicado` at 5 and no two statuses share
      one, so the priority totally orders the statuses. */
  lemma PriorityIsRanking()
    ensures Priority(Rechazado) == 0 && Priority(Publicado) == 5
    ensures forall s :: 0 <= Priority(s) <= 5
    ensures forall a: Status, b: Status :: Priority(a) == Priority(b) ==> a == b
  {
    assert Priority(Rechazado) == 0 && Priority(Solicitada) == 1 && Priority(AutorizadaDG) == 2;
    assert Priority(EnElaboracion) == 3 && Priority(Firmado) == 4 && Priority(Publicado) == 5;
  }

  /** No two statuses store the same string. */
  lemma ValueInjective(a: Status, b: Status)
    requires Value(a) == Value(b)
    ensures a == b
  {
    assert Value(a)[0] == Value(b)[0];
    if Value(a)[0] == 'a' || Value(a)[0] == 'e' || Value(a)[0] == 'f' || Value(a)[0] == 'r' {
    } else {
      assert Value(a)[1] == Value(b)[1];
    }
  }

  /** `options.find(o => o.value === v)`: the first entry whose value is `v`. */
  function FindByValue(options: seq<StatusOption>, v: string): (r: Option<StatusOption>)
    ensures r.Some? ==> r.value.value == v && r.value in options
    ensures r.Some? ==> exists k | 0 <= k < |options| ::
              options[k] == r.value && forall j | 0 <= j < k :: options[j].value != v
    ensures r.None? <==> forall k | 0 <= k < |options| :: options[k].value != v
  {
    if options == [] then None
    else if options[0].value == v then Some(options[0])
    else
      var r := FindByValue(options[1..], v);
      if r.Some? then
        var k :| 0 <= k < |options[1..]| && options[1..][k] == r.value
                 && forall j | 0 <= j < k :: options[1..][j].value != v;
        assert options[k + 1] == r.value && forall j | 0 <= j < k + 1 :: options[j].value != v;
        r
      else
        r
  }

  /** Looking up a stored status in the catalogue (as the request list does for its label
      and colour) finds that status's own entry; a string outside the catalogue finds nothing. */
  lemma FindStatusEntry(v: string)
    ensures forall s :: Value(s) == v ==> FindByValue(StatusOptions(), v) == Some(Definition(s))
    ensures (forall s :: Value(s) != v) ==> FindByValue(StatusOptions(), v) == None
  {
    var opts := StatusOptions();
    forall s | Value(s) == v
      ensures FindByValue(opts, v) == Some(Definition(s))
    {
      var r := FindByValue(opts, v);
      assert opts[Index(s)].value == v;
      var k :| 0 <= k < |opts| && opts[k] == r.value && forall j | 0 <= j < k :: opts[j].value != v;
      CatalogueCoversStatuses();
      ValueInjective(s, StatusAt(k));
    }
    if forall s :: Value(s) != v {
      CatalogueCoversStatuses();
      forall k | 0 <= k < |opts|
        ensures opts[k].value != v
      {
        assert Value(StatusAt(k)) != v;
      }
    }
  }

  /** The request list's status sort compares these strings with `>`, and the resulting
      order is alphabetical, not the catalogue priority: `solicitada` comes before
      `rechazado`, which comes before `publicado`, although `publicado` has the highest
      priority and `rechazado` the lowest. */
  lemma StatusStringOrder()
    ensures Greater(Value(Solicitada), Value(Rechazado))
    ensures Greater(Value(Rechazado), Value(Publicado))
    ensures Greater(Value(Publicado), Value(Firmado))
    ensures Greater(Value(Firmado), Value(EnElaboracion))
    ensures Greater(Value(EnElaboracion), Value(AutorizadaDG))
    ensures Priority(Solicitada) < Priority(Publicado) && Priority(Rechazado) < Priority(Publicado)
  {
  }
}
