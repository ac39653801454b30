/** The person records the store keeps, the errors its operations report, and
    the reference definitions its operations are specified against: where the
    first record with a given ID sits, and what the collection becomes after
    a create, an update or a delete.
 */
module People {

  /** A person record. Only the ID is interpreted by the store; `profile`
      stands for every other field, which the store carries untouched. */
  datatype Person = Person(id: int, profile: string)

  datatype Option<T> = None | Some(value: T)

  /** The kinds of error the store reports. */
  datatype Error =
    | DuplicateId   // Create on an ID that is already registered
    | NotFound      // GetByID, Update or DeleteByID on an ID that is not there
    | SaveFailed    // encoding the collection or writing the file failed

  /** What a mutating operation returns: nothing, or an error. */
  datatype Outcome = Ok | Fail(error: Error)

  /** What a lookup returns: the record found, or an error. */
  datatype Result<T> = Found(value: T) | Failure(error: Error)

  /** Some record in `people` carries `id`. */
  predicate HasId(people: seq<Person>, id: int) {
    exists k :: 0 <= k < |people| && people[k].id == id
  }

  /** No two records in `people` share an ID. */
  predicate DistinctIds(people: seq<Person>) {
    forall j, k :: 0 <= j < k < |people| ==> people[j].id != people[k].id
  }

  /** The position of the first record carrying `id`, if any. */
  function IndexOf(people: seq<Person>, id: int): (r: Option<nat>)
    ensures r.Some? ==> r.value < |people| && people[r.value].id == id
    ensures r.Some? ==> forall k :: 0 <= k < r.value ==> people[k].id != id
    ensures r.None? <==> !HasId(people, id)
  {
    if people == [] then None
    else if people[0].id == id then Some(0)
    else match IndexOf(people[1..], id)
      case None => None
      case Some(i) => Some(i + 1)
  }

  /** The first record carrying `id`, if any: what a lookup by ID finds. */
  function Lookup(people: seq<Person>, id: int): (r: Option<Person>)
    ensures r.None? <==> !HasId(people, id)
    ensures r.Some? ==> r.value.id == id && r.value in people
    ensures r.Some? ==>
      exists i :: 0 <= i < |people| && people[i] == r.value &&
                  (forall k :: 0 <= k < i ==> people[k].id != id)
  {
    match IndexOf(people, id)
    case None => None
    case Some(i) => Some(people[i])
  }

  /** `people` with the element at position `i` taken out and the gap closed. */
  function RemoveAt(people: seq<Person>, i: nat): (r: seq<Person>)
    requires i < |people|
    ensures |r| == |people| - 1
    ensures forall k :: 0 <= k < i ==> r[k] == people[k]
    ensures forall k :: i <= k < |r| ==> r[k] == people[k + 1]
  {
    people[..i] + people[i + 1..]
  }

  /** The collection after creating `p`: unchanged when `p.id` is taken,
      otherwise `p` appended at the end. */
  function Created(people: seq<Person>, p: Person): seq<Person> {
    if HasId(people, p.id) then people else people + [p]
  }

  /** The collection after updating with `p`: the first record with `p.id`
      replaced by `p`, or unchanged when there is none. */
  function Updated(people: seq<Person>, p: Person): seq<Person> {
    match IndexOf(people, p.id)
    case None => people
    case Some(i) => people[i := p]
  }

  /** The collection after deleting `id`: the first record with `id` removed,
      or unchanged when there is none. */
  function Deleted(people: seq<Person>, id: int): seq<Person> {
    match IndexOf(people, id)
    case None => people
    case Some(i) => RemoveAt(people, i)
  }

  /** The collection after creating each of `ps` in turn. */
  function CreatedAll(people: seq<Person>, ps: seq<Person>): seq<Person>
    decreases |ps|
  {
    if ps == [] then people else CreatedAll(Created(people, ps[0]), ps[1..])
  }

  // ---------------------------------------------------------------------
  // Properties of the reference definitions

  /** When IDs are distinct, the first record with a record's ID is that
      record itself: lookups by ID are unambiguous. */
  lemma DistinctIndexOf(people: seq<Person>, k: nat)
    requires DistinctIds(people)
    requires k < |people|
    ensures IndexOf(people, people[k].id) == Some(k)
  {
    var r := IndexOf(people, people[k].id);
    assert r.Some? by { assert people[k].id == people[k].id; }
  }

  /** Create: a taken ID leaves the collection as it was; a fresh one is
      appended at the end, every earlier record staying in its position. */
  lemma CreatedAppends(people: seq<Person>, p: Person)
    ensures HasId(people, p.id) ==> Created(people, p) == people
    ensures !HasId(people, p.id) ==>
      |Created(people, p)| == |people| + 1 &&
      Created(people, p)[|people|] == p &&
      Created(people, p)[..|people|] == people
  {
    if !HasId(people, p.id) {
      assert (people + [p])[..|people|] == people;
    }
  }

  /** Create keeps IDs pairwise distinct. */
  lemma CreatedKeepsDistinct(people: seq<Person>, p: Person)
    requires DistinctIds(people)
    ensures DistinctIds(Created(people, p))
  {
    if !HasId(people, p.id) {
      var r := people + [p];
      forall j, k | 0 <= j < k < |r| ensures r[j].id != r[k].id {
        if k == |people| {
          assert people[j].id != p.id;
        }
      }
    }
  }

  /** Update: when `p.id` is present, exactly the first record carrying it
      is replaced by `p`, the length is unchanged, and a lookup by `p.id`
      then finds `p` at the same position; otherwise nothing changes. */
  lemma UpdatedReplacesFirst(people: seq<Person>, p: Person)
    ensures !HasId(people, p.id) ==> Updated(people, p) == people
    ensures HasId(people, p.id) ==>
      var i := IndexOf(people, p.id).value;
      var r := Updated(people, p);
      |r| == |people| && r[i] == p &&
      (forall k :: 0 <= k < |r| && k != i ==> r[k] == people[k]) &&
      IndexOf(r, p.id) == Some(i) && Lookup(r, p.id) == Some(p)
  {
    if HasId(people, p.id) {
      var i := IndexOf(people, p.id).value;
      var r := people[i := p];
      assert r[i].id == p.id;
    }
  }

  /** Update keeps IDs pairwise distinct, since the replacement carries the
      same ID as the record it replaces. */
  lemma UpdatedKeepsDistinct(people: seq<Person>, p: Person)
    requires DistinctIds(people)
    ensures DistinctIds(Updated(people, p))
  {
    match IndexOf(people, p.id)
    case None =>
    case Some(i) =>
      var r := people[i := p];
      forall j, k | 0 <= j < k < |r| ensures r[j].id != r[k].id {
        assert r[j].id == people[j].id && r[k].id == people[k].id;
      }
  }

  /** Delete keeps IDs pairwise distinct, and afterwards the deleted ID is
      gone, so a lookup by it reports not found. */
  lemma DeletedKeepsDistinct(people: seq<Person>, id: int)
    requires DistinctIds(people)
    ensures DistinctIds(Deleted(people, id))
    ensures !HasId(Deleted(people, id), id)
    ensures Lookup(Deleted(people, id), id) == None
  {
    match IndexOf(people, id)
    case None =>
    case Some(i) =>
      var r := RemoveAt(people, i);
      forall j, k | 0 <= j < k < |r| ensures r[j].id != r[k].id {
        var j' := if j < i then j else j + 1;
        var k' := if k < i then k else k + 1;
        assert r[j] == people[j'] && r[k] == people[k'] && j' < k';
      }
      forall k | 0 <= k < |r| ensures r[k].id != id {
        var k' := if k < i then k else k + 1;
        assert r[k] == people[k'] && k' != i;
      }
  }

  /** Creating records with pairwise distinct, fresh IDs one after another
      lists them after the existing ones, in the order they were created. */
  lemma {:induction false} CreatedAllInOrder(people: seq<Person>, ps: seq<Person>)
    requires DistinctIds(people + ps)
    ensures CreatedAll(people, ps) == people + ps
    decreases |ps|
  {
    if ps != [] {
      var p := ps[0];
      var all := people + ps;
      assert all[|people|] == p;
      forall k | 0 <= k < |people| ensures people[k].id != p.id {
        assert all[k] == people[k];
      }
      assert Created(people, p) == people + [p];
      assert (people + [p]) + ps[1..] == all;
      CreatedAllInOrder(people + [p], ps[1..]);
    }
  }
}
