/**
 * The registry's table and its read-only handlers. Each query is a function
 * of the table: it validates its argument (where the handler does), reads
 * the table through `get` or `values()`, and returns a result.
 */
module Queries {

  import opened Wrappers
  import opened Records
  import opened KeyOrder
  import opened Lists

  /** The ordered key-value store: record id to record. */
  type Table = map<string, BirthRegister>

  /** What the handlers keep true of the table: each record is stored under
      its own, non-empty id and has all nine payload fields filled in. */
  ghost predicate WellFormed(table: Table)
  {
    forall k :: k in table ==> k != "" && table[k].id == k && IsComplete(PayloadOf(table[k]))
  }

  /** The records stored under `keys`, in the order of `keys`. */
  function Project(table: Table, keys: seq<string>): (r: seq<BirthRegister>)
    requires forall k :: k in keys ==> k in table
    ensures |r| == |keys|
  {
    seq(|keys|, i requires 0 <= i < |keys| => table[keys[i]])
  }

  /** The store's `values()`: every stored record, by ascending key. */
  function Values(table: Table): (r: seq<BirthRegister>)
    ensures |r| == |table|
    ensures forall x :: x in r <==> x in table.Values
  {
    var keys := SortedKeys(table.Keys);
    var r := Project(table, keys);
    assert forall x :: x in table.Values ==> x in r by {
      forall x | x in table.Values
        ensures x in r
      {
        var k :| k in table && table[k] == x;
        var i :| 0 <= i < |keys| && keys[i] == k;
        assert r[i] == x;
      }
    }
    r
  }

  /** Storing a complete record under its own, non-empty id keeps the table
      well formed. */
  lemma InsertWellFormed(table: Table, v: BirthRegister)
    requires WellFormed(table)
    requires v.id != "" && IsComplete(PayloadOf(v))
    ensures WellFormed(table[v.id := v])
  {
  }

  /** Removing an entry keeps the table well formed. */
  lemma RemoveWellFormed(table: Table, k: string)
    requires WellFormed(table)
    ensures WellFormed(table - {k})
  {
  }

  /** In a well-formed table, `values()` lists the records by ascending id. */
  lemma ValuesByAscendingId(table: Table)
    requires WellFormed(table)
    ensures forall i, j :: 0 <= i < j < |Values(table)| ==> Less(Values(table)[i].id, Values(table)[j].id)
  {
  }

  /** Records whose name equals `name` up to case. */
  function NameIs(name: string): BirthRegister -> bool
  {
    (x: BirthRegister) => SameIgnoringCase(x.name, name)
  }

  /** Records whose place of birth equals `location` up to case. */
  function PlaceIs(location: string): BirthRegister -> bool
  {
    (x: BirthRegister) => SameIgnoringCase(x.placeOfBirth, location)
  }

  /** getBirthRegisterById: the record stored under `id`. */
  function GetBirthRegisterById(table: Table, id: string): (r: Result<BirthRegister, Error>)
    ensures id == "" ==> r == Err(InvalidId)
    ensures r.Ok? <==> id != "" && id in table
    ensures r.Ok? ==> r.value == table[id]
    ensures id != "" && id !in table ==> r == Err(IdNotFound(id))
  {
    if id == "" then Err(InvalidId)
    else if id in table then Ok(table[id])
    else Err(IdNotFound(id))
  }

  /** getBirthRegisterByName: the first record, in `values()` order, whose
      name matches `name` up to case. */
  function GetBirthRegisterByName(table: Table, name: string): (r: Result<BirthRegister, Error>)
    ensures name == "" ==> r == Err(InvalidName)
    ensures name != "" && r.Err? ==>
              r.error == NameNotFound(name) &&
              forall x :: x in table.Values ==> !SameIgnoringCase(x.name, name)
    ensures r.Ok? ==>
              name != "" &&
              exists i :: 0 <= i < |Values(table)| && Values(table)[i] == r.value &&
                          SameIgnoringCase(r.value.name, name) &&
                          forall j :: 0 <= j < i ==> !SameIgnoringCase(Values(table)[j].name, name)
  {
    if name == "" then Err(InvalidName)
    else
      match Find(NameIs(name), Values(table))
      case Some(found) => Ok(found)
      case None => Err(NameNotFound(name))
  }

  /** getAllBirthRegister: every stored record, in `values()` order. */
  function GetAllBirthRegister(table: Table): (r: Result<seq<BirthRegister>, Error>)
    ensures r == Ok(Values(table))
    ensures r.Ok? && |r.value| == |table|
    ensures forall x :: x in r.value <==> x in table.Values
  {
    Ok(Values(table))
  }

  /** getAllBirthRegisterByName: every record whose name matches `name` up to
      case, in `values()` order; an error instead of an empty list. */
  function GetAllBirthRegisterByName(table: Table, name: string): (r: Result<seq<BirthRegister>, Error>)
    ensures r.Ok? <==> exists x :: x in table.Values && SameIgnoringCase(x.name, name)
    ensures r.Err? ==> r.error == NameDoesNotExist
    ensures r.Ok? ==> r.value != [] && r.value == Filter(NameIs(name), Values(table))
    ensures r.Ok? ==> forall x :: x in r.value <==> x in table.Values && SameIgnoringCase(x.name, name)
  {
    var matches := Filter(NameIs(name), Values(table));
    assert matches != [] ==> matches[0] in matches;
    if |matches| == 0 then Err(NameDoesNotExist) else Ok(matches)
  }

  /** getBirthRegisterByPlaceOfBirth: every record whose place of birth
      matches `location` up to case, in `values()` order; an error instead of
      an empty list. */
  function GetBirthRegisterByPlaceOfBirth(table: Table, location: string): (r: Result<seq<BirthRegister>, Error>)
    ensures r.Ok? <==> exists x :: x in table.Values && SameIgnoringCase(x.placeOfBirth, location)
    ensures r.Err? ==> r.error == PlaceDoesNotExist
    ensures r.Ok? ==> r.value != [] && r.value == Filter(PlaceIs(location), Values(table))
    ensures r.Ok? ==> forall x :: x in r.value <==> x in table.Values && SameIgnoringCase(x.placeOfBirth, location)
  {
    var matches := Filter(PlaceIs(location), Values(table));
    assert matches != [] ==> matches[0] in matches;
    if |matches| == 0 then Err(PlaceDoesNotExist) else Ok(matches)
  }

  /** The single-record name lookup returns the first record of the
      all-records name query, and fails exactly when that query does. */
  lemma ByNameIsFirstOfAllByName(table: Table, name: string)
    requires name != ""
    ensures GetBirthRegisterByName(table, name).Ok? <==> GetAllBirthRegisterByName(table, name).Ok?
    ensures GetBirthRegisterByName(table, name).Ok? ==>
              GetBirthRegisterByName(table, name).value == GetAllBirthRegisterByName(table, name).value[0]
  {
    FindIsFirstOfFilter(NameIs(name), Values(table));
  }

  /** The two list queries do not validate their argument, yet on a
      well-formed table an empty argument matches nothing, since no stored
      name or place is empty. */
  lemma EmptyArgumentMatchesNothing(table: Table)
    requires WellFormed(table)
    ensures GetAllBirthRegisterByName(table, "") == Err(NameDoesNotExist)
    ensures GetBirthRegisterByPlaceOfBirth(table, "") == Err(PlaceDoesNotExist)
  {
  }

  /** Looking a record up by id finds it under its own id in a well-formed
      table. */
  lemma LookupFindsOwnId(table: Table, x: BirthRegister)
    requires WellFormed(table) && x in table.Values
    ensures GetBirthRegisterById(table, x.id) == Ok(x)
  {
  }

  lemma ProjectWithout(table: Table, keys: seq<string>, i: nat)
    requires i < |keys| && forall k :: k in keys ==> k in table
    requires forall p :: 0 <= p < |keys| && p != i ==> keys[p] != keys[i]
    ensures Project(table - {keys[i]}, keys[..i] + keys[i + 1..]) ==
            Project(table, keys)[..i] + Project(table, keys)[i + 1..]
  {
  }

  /** Removing a key takes exactly its record out of the `values()` order. */
  lemma ValuesRemove(table: Table, k: string) returns (i: nat)
    requires k in table
    ensures i < |Values(table)| && Values(table)[i] == table[k]
    ensures Values(table - {k}) == Values(table)[..i] + Values(table)[i + 1..]
  {
    i := SortedKeysRemove(table.Keys, k);
    assert (table - {k}).Keys == table.Keys - {k};
    LessIrreflexive(k);
    ProjectWithout(table, SortedKeys(table.Keys), i);
  }

  /** Inserting a record under a new key puts it at one place in the
      `values()` order and leaves the others in their order. */
  lemma ValuesInsert(table: Table, k: string, v: BirthRegister) returns (i: nat)
    requires k !in table
    ensures i <= |Values(table)|
    ensures Values(table[k := v]) == Values(table)[..i] + [v] + Values(table)[i..]
  {
    var t := table[k := v];
    assert t - {k} == table;
    i := ValuesRemove(t, k);
    Splice(Values(t), Values(table), i);
  }

  /** A sequence is what is left without its `i`-th element, with that
      element put back at position `i`. */
  lemma Splice<T>(s: seq<T>, rest: seq<T>, i: nat)
    requires i < |s| && rest == s[..i] + s[i + 1..]
    ensures i <= |rest| && s == rest[..i] + [s[i]] + rest[i..]
  {
  }

  lemma ProjectReplace(table: Table, keys: seq<string>, i: nat, v: BirthRegister)
    requires i < |keys| && forall k :: k in keys ==> k in table
    requires forall p :: 0 <= p < |keys| && p != i ==> keys[p] != keys[i]
    ensures Project(table[keys[i] := v], keys) == Project(table, keys)[i := v]
  {
  }

  /** Overwriting the record under an existing key replaces it in place in
      the `values()` order. */
  lemma ValuesReplace(table: Table, k: string, v: BirthRegister) returns (i: nat)
    requires k in table
    ensures i < |Values(table)| && Values(table)[i] == table[k]
    ensures Values(table[k := v]) == Values(table)[i := v]
  {
    var keys := SortedKeys(table.Keys);
    assert table[k := v].Keys == table.Keys;
    i :| 0 <= i < |keys| && keys[i] == k;
    LessIrreflexive(k);
    ProjectReplace(table, keys, i, v);
  }
}
