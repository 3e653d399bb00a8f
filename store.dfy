/**
 * The registry's state and its three writing handlers. The table is the one
 * shared, mutable object: create, update and delete each validate their
 * input first and then make one `insert` or `remove` on it. The fresh id,
 * the clock and the caller's identity come from the host and are passed in
 * as parameters.
 */
module Store {

  import opened Wrappers
  import opened Records
  import opened Queries

  class BirthRegisterStore {
    /** `BirthRegisterStorage`: record id to record. */
    var storage: Table

    ghost predicate Valid()
      reads this
    {
      WellFormed(storage)
    }

    constructor ()
      ensures Valid() && storage == map[]
    {
      storage := map[];
    }

    /** createBirthRegister: validate the payload, then store a new record
        under the fresh id `freshId`, stamped with `now` and owned by
        `caller`. */
    method CreateBirthRegister(payload: BirthRegisterPayload, freshId: string, now: nat64, caller: Principal)
      returns (r: Result<BirthRegister, Error>)
      requires Valid()
      requires freshId != "" && freshId !in storage
      modifies this
      ensures Valid()
      ensures r.Ok? <==> IsComplete(payload)
      ensures r.Err? ==> r.error == MissingFields && storage == old(storage)
      ensures r.Ok? ==>
                && r.value.id == freshId
                && PayloadOf(r.value) == payload
                && r.value.owner == caller
                && r.value.createdAt == now
                && r.value.updatedAt == None
      ensures r.Ok? ==> storage == old(storage)[freshId := r.value]
      ensures r.Ok? ==> |storage| == |old(storage)| + 1
      ensures r.Ok? ==> GetBirthRegisterById(storage, freshId) == Ok(r.value)
      ensures r.Ok? ==> exists i :: 0 <= i <= |Values(old(storage))| &&
                          Values(storage) == Values(old(storage))[..i] + [r.value] + Values(old(storage))[i..]
    {
      if !IsComplete(payload) {
        return Err(MissingFields);
      }
      var record := BirthRegister(
        freshId,
        payload.placeOfBirth,
        payload.name,
        payload.sex,
        payload.surname,
        payload.parentsAddress,
        payload.mothersName,
        payload.dateOfBirth,
        payload.fathersName,
        payload.parentsJob,
        caller,
        now,
        None);
      InsertWellFormed(storage, record);
      ghost var i := ValuesInsert(storage, record.id, record);
      storage := storage[record.id := record];
      r := Ok(record);
    }

    /** updateBirthRegister: validate the id and the payload, then overwrite
        the stored record's payload fields and stamp it with `now`. */
    method UpdateBirthRegister(id: string, payload: BirthRegisterPayload, now: nat64)
      returns (r: Result<BirthRegister, Error>)
      requires Valid()
      modifies this
      ensures Valid()
      ensures id == "" ==> r == Err(InvalidId)
      ensures id != "" && !IsComplete(payload) ==> r == Err(MissingFields)
      ensures id != "" && IsComplete(payload) && id !in old(storage) ==> r == Err(IdNotFound(id))
      ensures r.Ok? <==> id != "" && IsComplete(payload) && id in old(storage)
      ensures r.Err? ==> storage == old(storage)
      ensures r.Ok? ==>
                && r.value.id == id
                && r.value.owner == old(storage)[id].owner
                && r.value.createdAt == old(storage)[id].createdAt
                && PayloadOf(r.value) == payload
                && r.value.updatedAt == Some(now)
      ensures r.Ok? ==> storage == old(storage)[id := r.value]
      ensures r.Ok? ==> exists i :: 0 <= i < |Values(old(storage))| &&
                          Values(old(storage))[i] == old(storage)[id] &&
                          Values(storage) == Values(old(storage))[i := r.value]
    {
      if id == "" {
        return Err(InvalidId);
      }
      if !IsComplete(payload) {
        return Err(MissingFields);
      }
      if id !in storage {
        return Err(IdNotFound(id));
      }
      var existing := storage[id];
      assert existing.id == id;
      var updated := existing.(
        placeOfBirth := payload.placeOfBirth,
        name := payload.name,
        sex := payload.sex,
        surname := payload.surname,
        parentsAddress := payload.parentsAddress,
        mothersName := payload.mothersName,
        dateOfBirth := payload.dateOfBirth,
        fathersName := payload.fathersName,
        parentsJob := payload.parentsJob,
        updatedAt := Some(now));
      InsertWellFormed(storage, updated);
      ghost var i := ValuesReplace(storage, id, updated);
      storage := storage[id := updated];
      r := Ok(updated);
    }

    /** deleteBirthRegister: validate the id, then remove the record stored
        under it and hand it back. */
    method DeleteBirthRegister(id: string) returns (r: Result<BirthRegister, Error>)
      requires Valid()
      modifies this
      ensures Valid()
      ensures id == "" ==> r == Err(InvalidId)
      ensures id != "" && id !in old(storage) ==> r == Err(IdNotFound(id))
      ensures r.Ok? <==> id != "" && id in old(storage)
      ensures r.Err? ==> storage == old(storage)
      ensures r.Ok? ==> r.value == old(storage)[id] && storage == old(storage) - {id}
      ensures r.Ok? ==> |storage| == |old(storage)| - 1
      ensures r.Ok? ==> GetBirthRegisterById(storage, id) == Err(IdNotFound(id))
      ensures r.Ok? ==> exists i :: 0 <= i < |Values(old(storage))| &&
                          Values(old(storage))[i] == r.value &&
                          Values(storage) == Values(old(storage))[..i] + Values(old(storage))[i + 1..]
    {
      if id == "" {
        return Err(InvalidId);
      }
      if id !in storage {
        return Err(IdNotFound(id));
      }
      var existing := storage[id];
      RemoveWellFormed(storage, id);
      ghost var i := ValuesRemove(storage, id);
      storage := storage - {id};
      r := Ok(existing);
    }
  }

  /** The payload of the worked example: Ada Lovelace, born in London. */
  function AdaPayload(): BirthRegisterPayload
  {
    BirthRegisterPayload("London", "Ada", "F", "Lovelace", "X", "Anne", "1815-12-10", "Lord Byron", "Nobility")
  }

  /** A session on a fresh registry: create Ada's record, find it by her
      lower-cased name, delete it, and look its id up again. */
  method AdaSession(freshId: string, now: nat64, caller: Principal)
    returns (created: Result<BirthRegister, Error>, found: Result<BirthRegister, Error>,
             deleted: Result<BirthRegister, Error>, afterwards: Result<BirthRegister, Error>)
    requires freshId != ""
    ensures created.Ok? && created.value.id == freshId && PayloadOf(created.value) == AdaPayload()
    ensures found == created
    ensures deleted == created
    ensures afterwards == Err(IdNotFound(freshId))
  {
    var store := new BirthRegisterStore();
    created := store.CreateBirthRegister(AdaPayload(), freshId, now, caller);
    assert Values(store.storage) == [created.value] by {
      var v := Values(store.storage);
      assert |v| == 1 && v[0] in store.storage.Values;
    }
    assert Lower("ada") == Lower("Ada");
    found := GetBirthRegisterByName(store.storage, "ada");
    deleted := store.DeleteBirthRegister(freshId);
    afterwards := GetBirthRegisterById(store.storage, freshId);
  }
}
