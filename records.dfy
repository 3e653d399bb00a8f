/**
 * The birth-register entity, the payload a caller supplies for it, the
 * validation applied to payloads, the errors the handlers report and the
 * case folding used by the name and place queries.
 */
module Records {

  import opened Wrappers

  /** The host's 64-bit unsigned timestamp (nanoseconds). */
  newtype nat64 = x: int | 0 <= x < 0x1_0000_0000_0000_0000

  /** The identity of a caller, as the host encodes it. */
  datatype Principal = Principal(bytes: seq<bv8>)

  /** One stored birth register. `id`, `owner` and `createdAt` are set once,
      at creation; `updatedAt` is absent until the first update. */
  datatype BirthRegister = BirthRegister(
    id: string,
    placeOfBirth: string,
    name: string,
    sex: string,
    surname: string,
    parentsAddress: string,
    mothersName: string,
    dateOfBirth: string,
    fathersName: string,
    parentsJob: string,
    owner: Principal,
    createdAt: nat64,
    updatedAt: Option<nat64>)

  /** The nine caller-supplied fields of a birth register. */
  datatype BirthRegisterPayload = BirthRegisterPayload(
    placeOfBirth: string,
    name: string,
    sex: string,
    surname: string,
    parentsAddress: string,
    mothersName: string,
    dateOfBirth: string,
    fathersName: string,
    parentsJob: string)

  /** The caller-supplied part of a stored record. */
  function PayloadOf(r: BirthRegister): BirthRegisterPayload
  {
    BirthRegisterPayload(r.placeOfBirth, r.name, r.sex, r.surname, r.parentsAddress,
                         r.mothersName, r.dateOfBirth, r.fathersName, r.parentsJob)
  }

  /** The nine fields of a payload, in the order the handlers check them. */
  function Fields(p: BirthRegisterPayload): seq<string>
  {
    [p.placeOfBirth, p.name, p.sex, p.surname, p.parentsAddress,
     p.mothersName, p.dateOfBirth, p.fathersName, p.parentsJob]
  }

  /** Payload validation: no field may be the empty string (the one string
      value that is falsy). */
  predicate IsComplete(p: BirthRegisterPayload): (b: bool)
    ensures b <==> "" !in Fields(p)
  {
    && p.placeOfBirth != ""
    && p.name != ""
    && p.sex != ""
    && p.surname != ""
    && p.parentsAddress != ""
    && p.mothersName != ""
    && p.dateOfBirth != ""
    && p.fathersName != ""
    && p.parentsJob != ""
  }

  /** The failures a handler reports. */
  datatype Error =
    | InvalidId
    | InvalidName
    | MissingFields
    | IdNotFound(id: string)
    | NameNotFound(name: string)
    | NameDoesNotExist
    | PlaceDoesNotExist

  /** The text a handler returns for each failure. */
  function Message(e: Error): (r: string)
    ensures e.IdNotFound? ==> |r| == 33 + |e.id| && r[22..22 + |e.id|] == e.id
    ensures e.NameNotFound? ==> |r| == 37 + |e.name| && r[25..25 + |e.name|] == e.name
  {
    match e
    case InvalidId => "Invalid ID parameter."
    case InvalidName => "Invalid name parameter."
    case MissingFields => "All required fields must be present in the payload."
    case IdNotFound(id) => "BirthRegister with ID=" + id + " not found."
    case NameNotFound(name) => "BirthRegister with name=\"" + name + "\" not found."
    case NameDoesNotExist => "Name does not exist"
    case PlaceDoesNotExist => "place does not exist"
  }

  function LowerChar(c: char): char
  {
    if 'A' <= c <= 'Z' then (c as int + 32) as char else c
  }

  /** Lower-casing, restricted to the ASCII letters. */
  function Lower(s: string): (r: string)
    ensures |r| == |s|
    ensures forall i :: 0 <= i < |r| ==> !('A' <= r[i] <= 'Z')
    ensures forall i :: 0 <= i < |s| && 'A' <= s[i] <= 'Z' ==> r[i] == (s[i] as int + 32) as char
    ensures forall i :: 0 <= i < |s| && !('A' <= s[i] <= 'Z') ==> r[i] == s[i]
  {
    seq(|s|, i requires 0 <= i < |s| => LowerChar(s[i]))
  }

  /** Lower-casing twice is lower-casing once, so a folded string matches
      the string it came from up to case. */
  lemma LowerIdempotent(s: string)
    ensures Lower(Lower(s)) == Lower(s)
    ensures SameIgnoringCase(Lower(s), s)
  {
  }

  /** Distinct failures have distinct texts, so a caller can tell from the
      text alone which failure occurred (and for which id or name). */
  lemma MessageInjective(e1: Error, e2: Error)
    requires Message(e1) == Message(e2)
    ensures e1 == e2
  {
    var m := Message(e1);
    if e1.IdNotFound? && e2.IdNotFound? {
      assert e1.id == m[22..22 + |e1.id|] == e2.id;
    } else if e1.NameNotFound? && e2.NameNotFound? {
      assert e1.name == m[25..25 + |e1.name|] == e2.name;
    } else if m[0] == 'I' {
      assert m[8] == Message(e2)[8];
    } else if m[0] == 'B' {
      assert m[19] == Message(e2)[19];
    }
  }

  /** The comparison the queries use: equal after lower-casing both sides. */
  predicate SameIgnoringCase(a: string, b: string)
  {
    Lower(a) == Lower(b)
  }
}
