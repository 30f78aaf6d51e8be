/** The registry of backends: built once from a registration list, or refused naming the offender. */
module Registry {
  import opened Wrappers
  import opened Dialects

  /** A backend's declaration; capability answers and limits are carried, not read, here. */
  datatype Descriptor = Descriptor(id: DialectId, displayName: string)

  datatype RegistryError =
    | MalformedId(id: DialectId, displayName: string, index: nat)
    | DuplicateId(id: DialectId, firstDisplayName: string, firstIndex: nat,
                  secondDisplayName: string, secondIndex: nat)

  function Ids(ds: seq<Descriptor>): (ids: seq<DialectId>)
    ensures |ids| == |ds| && forall i | 0 <= i < |ds| :: ids[i] == ds[i].id
  {
    seq(|ds|, i requires 0 <= i < |ds| => ds[i].id)
  }

  predicate AllWellFormed(ds: seq<Descriptor>) {
    forall d | d in ds :: WellFormed(d.id)
  }

  predicate AllDistinct(ds: seq<Descriptor>) {
    forall i, j | 0 <= i < j < |ds| :: ds[i].id != ds[j].id
  }

  /** The report names the earliest malformed entry; failing any, the earliest clash and its earliest claimant. */
  predicate Names(e: RegistryError, ds: seq<Descriptor>) {
    match e
    case MalformedId(id, name, k) =>
      && k < |ds| && ds[k] == Descriptor(id, name)
      && !WellFormed(id) && AllWellFormed(ds[..k])
    case DuplicateId(id, firstName, i, secondName, j) =>
      && AllWellFormed(ds)
      && i < j < |ds| && ds[i] == Descriptor(id, firstName) && ds[j] == Descriptor(id, secondName)
      && AllDistinct(ds[..j]) && id !in Ids(ds[..i])
  }

  method FindId(ds: seq<Descriptor>, id: DialectId) returns (at: Option<nat>)
    ensures at.None? ==> id !in Ids(ds)
    ensures at.Some? ==> at.value < |ds| && ds[at.value].id == id && id !in Ids(ds[..at.value])
  {
    for i := 0 to |ds|
      invariant forall j | 0 <= j < i :: ds[j].id != id
    {
      if ds[i].id == id { return Some(i); }
    }
    return None;
  }

  method Build(ds: seq<Descriptor>) returns (r: Result<seq<Descriptor>, RegistryError>)
    ensures r.Ok? <==> AllWellFormed(ds) && AllDistinct(ds)
    ensures r.Ok? ==> r.value == ds
    ensures r.Err? ==> Names(r.error, ds)
  {
    for index := 0 to |ds|
      invariant AllWellFormed(ds[..index])
    {
      var ok := IsWellFormed(ds[index].id);
      if !ok {
        assert ds[index] in ds;
        return Err(MalformedId(ds[index].id, ds[index].displayName, index));
      }
      assert ds[..index + 1] == ds[..index] + [ds[index]];
    }
    assert ds[..|ds|] == ds;
    for index := 0 to |ds|
      invariant AllDistinct(ds[..index])
    {
      var earlier := FindId(ds[..index], ds[index].id);
      if earlier.Some? {
        var first := earlier.value;
        assert ds[..index][..first] == ds[..first];
        return Err(DuplicateId(ds[index].id, ds[first].displayName, first, ds[index].displayName, index));
      }
      StaysDistinct(ds, index);
    }
    return Ok(ds);
  }

  lemma StaysDistinct(ds: seq<Descriptor>, index: nat)
    requires index < |ds| && AllDistinct(ds[..index]) && ds[index].id !in Ids(ds[..index])
    ensures AllDistinct(ds[..index + 1])
  {
    var seen := Ids(ds[..index]);
    assert forall j | 0 <= j < index :: seen[j] == ds[j].id && seen[j] in seen;
    assert forall i, j | 0 <= i < j < index :: ds[..index][i].id != ds[..index][j].id;
  }

  /** `get`: on a built registry, the one descriptor filed under the id. */
  method Get(entries: seq<Descriptor>, id: DialectId) returns (d: Option<Descriptor>)
    ensures d.Some? <==> id in Ids(entries)
    ensures AllDistinct(entries) ==> forall e | e in entries && e.id == id :: d == Some(e)
  {
    var at := FindId(entries, id);
    if at.None? { return None; }
    assert Ids(entries)[at.value] == id;
    assert entries == entries[..at.value] + entries[at.value..];
    return Some(entries[at.value]);
  }

  /** `ids`: the set a registry reports. */
  method RegisteredIds(entries: seq<Descriptor>) returns (members: seq<DialectId>)
    ensures Represents(members, Ids(entries))
  {
    members := FromIds(Ids(entries));
  }

  /**
   Looking an id up and asking the reported id set about it give one answer, and a registry
   that was built hands every registrant its own descriptor back.
   */
  method LookupAgreesWithIds(ds: seq<Descriptor>, id: DialectId)
    returns (built: bool, found: Option<Descriptor>, reported: bool)
    ensures built <==> AllWellFormed(ds) && AllDistinct(ds)
    ensures built ==> (found.Some? <==> reported)
    ensures built ==> forall e | e in ds && e.id == id :: found == Some(e)
    ensures built && found.Some? ==> WellFormed(id)
  {
    var r := Build(ds);
    if r.Err? { return false, None, false; }
    found := Get(r.value, id);
    var members := RegisteredIds(r.value);
    reported := ContainsId(members, id);
    built := true;
    if found.Some? {
      var i :| 0 <= i < |ds| && Ids(ds)[i] == id;
      assert ds[i] in ds;
    }
  }
}
