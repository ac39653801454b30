/** The person store of person/person.go: an ordered, in-memory collection
    of person records that is written back to its backing file after every
    change.

    The backing file is abstracted as the ghost field `persisted`, the
    collection the file last received in full. Each mutating operation takes
    a `saveOk` flag that decides, on behalf of the environment, whether that
    write succeeds. A failed write is reported, but the in-memory change it
    followed is kept: nothing is rolled back.
 */
module PersonService {
  import opened People

  class Service {
    /** The collection, in insertion order. */
    var people: seq<Person>
    /** What the backing file holds; unspecified after a failed write. */
    ghost var persisted: seq<Person>

    /** A store opened on a path where no file existed: the file is created
        holding the empty collection, and the store starts empty. */
    constructor ()
      ensures people == [] && persisted == []
    {
      people := [];
      persisted := [];
    }

    /** A store opened on an existing file, whose decoded contents are
        `stored`. `persisted` is then the file's meaning only when the file
        decodes cleanly: a decoding error is ignored, so a malformed file
        yields an empty or partly decoded `stored` while the file itself is
        left as it was. */
    constructor Loaded(stored: seq<Person>)
      ensures people == stored && persisted == stored
    {
      people := stored;
      persisted := stored;
    }

    /** Writes the whole collection to the backing file. When the write
        succeeds the file holds exactly the collection; when it fails, what
        the file holds is not specified. */
    method SaveFile(saveOk: bool) returns (outcome: Outcome)
      modifies this
      ensures people == old(people)
      ensures saveOk ==> outcome == Ok && persisted == people
      ensures !saveOk ==> outcome == Fail(SaveFailed)
    {
      if saveOk {
        persisted := people;
        outcome := Ok;
      } else {
        outcome := Fail(SaveFailed);
      }
    }

    /** Appends `person` and writes the collection out. The append stays
        even when the write fails. */
    method AddPerson(person: Person, saveOk: bool) returns (outcome: Outcome)
      modifies this
      ensures people == old(people) + [person]
      ensures saveOk ==> outcome == Ok && persisted == people
      ensures !saveOk ==> outcome == Fail(SaveFailed)
    {
      people := people + [person];
      outcome := SaveFile(saveOk);
    }

    /** Registers `person`. A taken ID is rejected with nothing changed and
        nothing written; otherwise `person` is appended and the collection
        written out, and a failed write is reported with the append kept. */
    method Create(person: Person, saveOk: bool) returns (outcome: Outcome)
      modifies this
      ensures people == Created(old(people), person)
      ensures HasId(old(people), person.id) ==>
        outcome == Fail(DuplicateId) && people == old(people) && persisted == old(persisted)
      ensures !HasId(old(people), person.id) ==>
        people == old(people) + [person] &&
        outcome == (if saveOk then Ok else Fail(SaveFailed))
      ensures outcome == Ok ==> persisted == people
      ensures DistinctIds(old(people)) ==> DistinctIds(people)
    {
      ghost var before := people;
      var taken := Exists(person);
      if taken {
        return Fail(DuplicateId);
      }
      var saved := AddPerson(person, saveOk);
      if saved.Fail? {
        outcome := Fail(SaveFailed);
      } else {
        outcome := Ok;
      }
      if DistinctIds(before) {
        CreatedKeepsDistinct(before, person);
      }
    }

    /** Whether some stored record carries the ID of `person`. */
    method Exists(person: Person) returns (found: bool)
      ensures found <==> HasId(people, person.id)
    {
      for i := 0 to |people|
        invariant forall k :: 0 <= k < i ==> people[k].id != person.id
      {
        if people[i].id == person.id {
          return true;
        }
      }
      return false;
    }

    /** The whole collection, in insertion order. */
    function List(): (r: seq<Person>)
      reads this
      ensures r == people
    {
      people
    }

    /** The first record whose ID is `personId`, or NotFound when there is
        none. Nothing changes. */
    method GetByID(personId: int) returns (r: Result<Person>)
      ensures r.Failure? <==> !HasId(people, personId)
      ensures r.Failure? ==> r.error == NotFound
      ensures r.Found? ==> Lookup(people, personId) == Some(r.value)
    {
      for i := 0 to |people|
        invariant forall k :: 0 <= k < i ==> people[k].id != personId
      {
        if people[i].id == personId {
          return Found(people[i]);
        }
      }
      return Failure(NotFound);
    }

    /** Removes the first record whose ID is `personId`, closing the gap,
        and writes the collection out; NotFound, with nothing changed and
        nothing written, when there is no such record. */
    method DeleteByID(personId: int, saveOk: bool) returns (outcome: Outcome)
      modifies this
      ensures people == Deleted(old(people), personId)
      ensures !HasId(old(people), personId) ==>
        outcome == Fail(NotFound) && people == old(people) && persisted == old(persisted)
      ensures HasId(old(people), personId) ==>
        var i := IndexOf(old(people), personId).value;
        people == old(people)[..i] + old(people)[i + 1..] &&
        outcome == (if saveOk then Ok else Fail(SaveFailed))
      ensures outcome == Ok ==> persisted == people
      ensures DistinctIds(old(people)) ==> DistinctIds(people) && !HasId(people, personId)
    {
      var indexToRemove := -1;
      for index := 0 to |people|
        invariant indexToRemove == -1
        invariant forall k :: 0 <= k < index ==> people[k].id != personId
      {
        if people[index].id == personId {
          indexToRemove := index;
          break;
        }
      }
      if indexToRemove < 0 {
        return Fail(NotFound);
      }
      ghost var before := people;
      people := people[..indexToRemove] + people[indexToRemove + 1..];
      outcome := SaveFile(saveOk);
      if DistinctIds(before) {
        DeletedKeepsDistinct(before, personId);
      }
    }

    /** Replaces the first record whose ID is that of `person` by `person`,
        in place, and writes the collection out; NotFound, with nothing
        changed and nothing written, when there is no such record. */
    method Update(person: Person, saveOk: bool) returns (outcome: Outcome)
      modifies this
      ensures people == Updated(old(people), person)
      ensures !HasId(old(people), person.id) ==>
        outcome == Fail(NotFound) && people == old(people) && persisted == old(persisted)
      ensures HasId(old(people), person.id) ==>
        var i := IndexOf(old(people), person.id).value;
        |people| == |old(people)| && people[i] == person &&
        (forall k :: 0 <= k < |people| && k != i ==> people[k] == old(people)[k]) &&
        outcome == (if saveOk then Ok else Fail(SaveFailed))
      ensures outcome == Ok ==> persisted == people
      ensures DistinctIds(old(people)) ==> DistinctIds(people)
    {
      var indexToUpdate := -1;
      for index := 0 to |people|
        invariant indexToUpdate == -1
        invariant forall k :: 0 <= k < index ==> people[k].id != person.id
      {
        if people[index].id == person.id {
          indexToUpdate := index;
          break;
        }
      }
      if indexToUpdate < 0 {
        return Fail(NotFound);
      }
      ghost var before := people;
      people := people[indexToUpdate := person];
      outcome := SaveFile(saveOk);
      if DistinctIds(before) {
        UpdatedKeepsDistinct(before, person);
      }
    }
  }

  /** A client run: create 1 and 2, update 1, delete 2. Whatever the file
      writes do, the store then lists only the updated record 1, since a
      failed write never undoes the change in memory. */
  method CrudScenario(save1: bool, save2: bool, save3: bool, save4: bool)
    returns (listed: seq<Person>)
    ensures listed == [Person(1, "A2")]
  {
    var store := new Service();
    var o1 := store.Create(Person(1, "A"), save1);
    assert store.people == [Person(1, "A")];
    var o2 := store.Create(Person(2, "B"), save2);
    assert store.people == [Person(1, "A"), Person(2, "B")];
    var o3 := store.Update(Person(1, "A2"), save3);
    assert store.people == [Person(1, "A2"), Person(2, "B")];
    assert IndexOf(store.people, 2) == Some(1) by { DistinctIndexOf(store.people, 1); }
    var o4 := store.DeleteByID(2, save4);
    listed := store.List();
  }
}
