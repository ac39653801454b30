/** The earlier, partial person store of domain/person/person.go. It offers
    only Create, with the duplicate check it relies on and the whole-file
    write after it, with the same semantics as the later store: a taken ID
    is rejected with nothing changed, a fresh record is appended and the
    collection written out, and a failed write is reported without undoing
    the append.

    The file, as written, does not build: its constructor and its
    empty-file helper mix up two spellings of the file-path variable. One
    error message there also lacks its format argument, which compiles but
    garbles the message. What is modelled here is the behaviour
    its Create and exists evidently intend; the backing file is abstracted
    as in the later store.
 */
module DomainPersonService {
  import opened People

  class Service {
    /** The collection, in insertion order. */
    var people: seq<Person>
    /** What the backing file holds; unspecified after a failed write. */
    ghost var persisted: seq<Person>

    /** A store opened on a path where no file existed: it starts empty. */
    constructor ()
      ensures people == [] && persisted == []
    {
      people := [];
      persisted := [];
    }

    /** A store opened on an existing file, whose decoded contents are
        `stored`. As in the later store, a decoding error is ignored, so
        `persisted` is the file's meaning only when the file decodes
        cleanly. */
    constructor Loaded(stored: seq<Person>)
      ensures people == stored && persisted == stored
    {
      people := stored;
      persisted := stored;
    }

    /** Registers `person`. A taken ID is rejected with nothing appended and
        nothing written; otherwise `person` is appended and the collection
        written out, and a failed write is reported with the append kept. */
    method Create(person: Person, saveOk: bool) returns (outcome: Outcome)
      modifies this
      ensures people == Created(old(people), person)
      ensures HasId(old(people), person.id) ==>
        outcome == Fail(DuplicateId) && people == old(people) && persisted == old(persisted)
      ensures !HasId(old(people), person.id) ==>
        people == old(people) + [person] &&
        outcome == (if saveOk then Ok else Fail(SaveFailed))
      ensures outcome == Ok ==> persisted == people
      ensures DistinctIds(old(people)) ==> DistinctIds(people)
    {
      ghost var before := people;
      var taken := Exists(person);
      if taken {
        return Fail(DuplicateId);
      }
      people := people + [person];
      var saved := SaveFile(saveOk);
      if saved.Fail? {
        outcome := Fail(SaveFailed);
      } else {
        outcome := Ok;
      }
      if DistinctIds(before) {
        CreatedKeepsDistinct(before, person);
      }
    }

    /** Whether some stored record carries the ID of `person`. */
    method Exists(person: Person) returns (found: bool)
      ensures found <==> HasId(people, person.id)
    {
      for i := 0 to |people|
        invariant forall k :: 0 <= k < i ==> people[k].id != person.id
      {
        if people[i].id == person.id {
          return true;
        }
      }
      return false;
    }

    /** Writes the whole collection to the backing file. When the write
        succeeds the file holds exactly the collection; when it fails, what
        the file holds is not specified. */
    method SaveFile(saveOk: bool) returns (outcome: Outcome)
      modifies this
      ensures people == old(people)
      ensures saveOk ==> outcome == Ok && persisted == people
      ensures !saveOk ==> outcome == Fail(SaveFailed)
    {
      if saveOk {
        persisted := people;
        outcome := Ok;
      } else {
        outcome := Fail(SaveFailed);
      }
    }
  }

  /** A client run: registering the same ID twice leaves one record, and the
      second attempt reports the duplicate. */
  method DuplicateScenario(save1: bool, save2: bool) returns (listed: seq<Person>, second: Outcome)
    ensures listed == [Person(7, "first")]
    ensures second == Fail(DuplicateId)
  {
    var store := new Service();
    var first := store.Create(Person(7, "first"), save1);
    assert store.people[0].id == 7;
    second := store.Create(Person(7, "second"), save2);
    listed := store.people;
  }
}
