# Person store

A model of the persistence service behind a small CRUD HTTP service for
"person" records. The service keeps the whole collection of records in
memory, in insertion order, each record identified by an integer ID. It
offers Create (rejects a taken ID, otherwise appends), GetByID (first record
with the ID), Update (replaces the first record with the ID, in place),
DeleteByID (removes the first record with the ID and closes the gap) and
List. After every change it rewrites the whole backing JSON file.

Files:

- `people.dfy`, module `People`: the `Person` record (an ID plus an opaque
  `profile` standing for every other field), the error kinds, and the
  reference definitions the store is specified against: `HasId`,
  `DistinctIds`, `IndexOf` (first position with an ID), `Lookup`,
  `RemoveAt`, and the collection after a create, update or delete
  (`Created`, `Updated`, `Deleted`, `CreatedAll`), with lemmas about them.
- `person_service.dfy`, module `PersonService`: class `Service` for
  `person/person.go`. Its methods update the `people` field in place, as
  the Go methods do on their slice. The scans of `DeleteByID` and `Update`
  keep their index-tracking loops with `break`.
- `domain_person_service.dfy`, module `DomainPersonService`: class `Service`
  for `domain/person/person.go`, the earlier copy that has only `Create`,
  `exists` and `saveFile`.

The backing file is abstracted as the ghost field `persisted`, the
collection the file last received in full. Each mutating method takes a
`saveOk` flag that stands for whether the write succeeds; the environment
chooses it. When it fails, the error is reported but the in-memory change
stays: nothing is rolled back (`person/person.go:53-56`, `71-74`, `118`,
`134`; `domain/person/person.go:73-78`). After a failed write, the model
says nothing about what the file holds, because the write truncates the file
before writing it.

The store does not require IDs to be distinct on entry: a loaded file may
hold duplicates, and the code never checks for them. Each mutating method
therefore promises that IDs distinct before the call are still distinct
after it.

## Model

| member | source | states |
|---|---|---|
| People.IndexOf | person/person.go:102-111 | the result is the first position whose record has the ID; it is absent exactly when no record has the ID |
| People.Lookup | person/person.go:92-99 | a lookup finds nothing exactly when no record has the ID; otherwise it finds the first stored record with that ID |
| People.RemoveAt | person/person.go:113-116 | removing position i shortens the collection by one, keeps the records before i in place and shifts the later ones down by one |
| People.DistinctIndexOf | person/person.go:92-99 | when IDs are distinct, the first record with a record's ID is that record itself, so lookups by ID are unambiguous |
| People.CreatedAppends | person/person.go:66-77 | Create with a taken ID leaves the collection unchanged; with a fresh ID it grows by one, the new record is last and every earlier record stays in its position |
| People.CreatedKeepsDistinct | person/person.go:66-77 | Create keeps IDs pairwise distinct |
| People.CreatedAllInOrder | person/person.go:66-77 | creating records with pairwise distinct fresh IDs one after another lists them after the existing records in creation order |
| People.UpdatedReplacesFirst | person/person.go:121-135 | Update with an unknown ID changes nothing; otherwise only the first record with the ID is replaced, the length is unchanged, and a lookup by the ID then finds the new record at the same position |
| People.UpdatedKeepsDistinct | person/person.go:121-135 | Update keeps IDs pairwise distinct |
| People.DeletedKeepsDistinct | person/person.go:101-119 | Delete keeps IDs pairwise distinct, and afterwards the deleted ID is gone, so a lookup by it finds nothing |
| PersonService.Service.constructor | person/person.go:25-28 | a store opened where no file existed starts empty, with an empty file |
| PersonService.Service.Loaded | person/person.go:44-50 | a store opened on an existing file holds the decoded contents of that file |
| PersonService.Service.SaveFile | person/person.go:58-64 | a write leaves the collection alone; on success the file holds exactly the collection, on failure the error is reported |
| PersonService.Service.AddPerson | person/person.go:53-56 | the record is appended at the end, and the append stays whether or not the write then succeeds |
| PersonService.Service.Create | person/person.go:66-77 | a taken ID is rejected with DuplicateId, with the collection and the file unchanged; a fresh ID is appended at the end; a failed write is reported with the append kept; success leaves the file equal to the collection; distinct IDs stay distinct |
| PersonService.Service.Exists | person/person.go:79-86 | true exactly when some stored record has the ID of the argument |
| PersonService.Service.List | person/person.go:88-90 | returns the collection itself, in insertion order |
| PersonService.Service.GetByID | person/person.go:92-99 | fails with NotFound exactly when no record has the ID; otherwise returns the first record with the ID; changes nothing |
| PersonService.Service.DeleteByID | person/person.go:101-119 | an unknown ID fails with NotFound and changes nothing; otherwise the collection becomes old[..i] + old[i+1..] for the first matching index i; a failed write is reported with the removal kept; success leaves the file equal to the collection; distinct IDs stay distinct and the ID is then gone |
| PersonService.Service.Update | person/person.go:121-135 | an unknown ID fails with NotFound and changes nothing; otherwise only the first matching index gets the new record, every other index keeps its value and the length is unchanged; a failed write is reported with the change kept; success leaves the file equal to the collection; distinct IDs stay distinct |
| PersonService.CrudScenario | person/person.go:66-135 | create 1, create 2, update 1, delete 2 leaves exactly the updated record 1, whatever the four writes do |
| DomainPersonService.Service.constructor | domain/person/person.go:27-30 | a store opened where no file existed starts empty |
| DomainPersonService.Service.Loaded | domain/person/person.go:43-49 | a store opened on an existing file holds the decoded contents of that file |
| DomainPersonService.Service.Create | domain/person/person.go:67-81 | a taken ID is rejected with DuplicateId, with nothing appended and nothing written; a fresh ID is appended at the end; a failed write is reported with the append kept; success leaves the file equal to the collection; distinct IDs stay distinct |
| DomainPersonService.Service.Exists | domain/person/person.go:82-89 | true exactly when some stored record has the ID of the argument |
| DomainPersonService.Service.SaveFile | domain/person/person.go:90-97 | a write leaves the collection alone; on success the file holds exactly the collection, on failure the error is reported |
| DomainPersonService.DuplicateScenario | domain/person/person.go:67-71 | registering the same ID twice keeps only the first record and reports DuplicateId for the second |

## Left out

- Opening a store (`NewService`, `createEmptyFile` in both files): the file-system calls and the JSON decoding are not modelled. Only their results are: an empty store for a missing file, and a store holding given decoded contents otherwise. The error paths of opening are not modelled: an `os.Stat` failure other than a missing file (`person/person.go:29-31`), a failed write of the empty file by `createEmptyFile` (`person/person.go:21-24`, `141-149`), and failures to open or read an existing file (`person/person.go:34-42`); each returns an error and no store. The empty-store constructor is the case where creating the empty file succeeded. In `domain/person/person.go` the `os.Stat` check has no `else` (`domain/person/person.go:31-32`), so a failure other than a missing file falls through to opening the file instead of returning; that fall-through is not modelled either, and its `Loaded` covers only a successful open and read.
- The JSON decoding error that `NewService` ignores (`person/person.go:45`) is not modelled; `Loaded` takes already-decoded contents, and its `persisted` is the file's meaning only when the file decodes cleanly.
- The JSON encoding in `saveFile` is not modelled; the file is a snapshot of the collection. A failed encoding and a failed write both appear as the one `SaveFailed` outcome.
- Error messages are reduced to their kinds (`DuplicateId`, `NotFound`, `SaveFailed`); the wrapping of the write error in `Create` is not distinguished.
- What the file holds after a failed write is left unspecified.
- Slice aliasing is not modelled. In Go, `List` returns a slice that shares storage with the store. `DeleteByID` shifts elements within that storage, and `Update` assigns into it. A caller holding an earlier `List` result can therefore see those changes, or alter the store through it. The model's collection is a value.
- The HTTP layer (`main.go`) is not part of this model. This includes its `ID > 0` check: the store itself accepts any integer ID, as the code does. It also includes the 500 error the handler attempts after writing 201: the status stays 201 and the error text is appended to the body.
- Concurrency: the code has no locking, and concurrent use of the store from HTTP handlers is not modelled.
- The build errors in `domain/person/person.go` (the undefined `dbFilePath` in `NewService` and the undefined `dbFilepath` in `createEmptyFile`) affect only those two functions, which are left out; its `Create` and `exists` are modelled as intended. The `Errorf` call in its `createEmptyFile` compiles but is missing its format argument, so its message would be garbled; error messages are not modelled.
- Go's `int` is 32 or 64 bits wide depending on the platform; IDs are only compared, never computed with, so unbounded integers model them exactly.
