# Group/student store, modelled in Dafny

The server keeps groups of students in memory and exposes five routes: list
groups, list students, create a group (which creates its students), delete a
group, get one group. Its whole state is a student counter `totalStudents`
and an insertion-ordered array `groups`. This project models that state as an
immutable `Store(groups, totalStudents)` and each route handler's body as a
pure function over it, then proves what the handlers promise.

Modules:

- `Entities` (entities.dfy): `Student`, `Group`, `GroupSummary`, the id
  projection `MemberIds`, `Summarize`, and `Flatten` (all members of all groups,
  group order then member order) with its append/split lemmas.
- `GroupStore` (store.dfy): `Store`, `Initial`, and the five operations
  `ListGroups`, `ListStudents`, `CreateGroup`, `DeleteGroup`, `GetGroup`.
  Deletion follows `Array.prototype.splice(id, 1)`, modelled by `SpliceStart`.
- `StoreInvariant` (invariant.dfy): the invariant `Valid`, its preservation by
  create and delete, and lemmas relating the operations to each other.
- `Handlers` (handlers.dfy): the three handlers that build replies with
  loops, written as those loops and proved equal to the pure operations.
- `Api` (api.dfy): requests and responses with their status codes, one
  `Handle` step, and `Run` over a sequence of requests from process start.
- `Scenarios` (scenarios.dfy): concrete request sequences, including the
  effects of using a group's array position as its id.

The invariant `Valid` says three things. Student ids, read in listing order,
are strictly increasing, so no id appears twice. Every id lies in
`0 .. totalStudents-1`. No group sits at a position past its own stored id.

The model follows what the handlers' code does, not what their doc comments
suggest. Delete with a negative id is not a no-op: `splice` counts it back
from the end of the array, and the model does the same. Delete answers 204
whether or not anything was removed. A group's "id" is its array position at
creation time, so after a delete two groups can carry the same id, and a
lookup by a group's stored id can miss it (see `Scenarios`).

## Model

| member | source | states |
|---|---|---|
| Entities.MemberIds | server/server.ts:43-46 | the projection has one id per student, and the i-th id is the i-th student's id |
| Entities.Summarize | server/server.ts:49-53 | a summary keeps the group's id and name; its members list has the group's length, and entry i is member i's id |
| Entities.Flatten | server/server.ts:67-71 | a student is in the flattening exactly when some group holds it |
| Entities.FlattenAppend | server/server.ts:67-71 | flattening groups a then b gives a's students followed by b's |
| Entities.FlattenSplit | server/server.ts:67-71 | each group's members form one contiguous block of the flattening, between the earlier and the later groups' students |
| GroupStore.ListGroups | server/server.ts:38-56 | one summary per stored group, in store order; each keeps id and groupName, and its members are that group's member ids in order |
| GroupStore.ListStudents | server/server.ts:64-73 | the listing is every group's members in group order then member order; each group is one block at its place; a student is listed iff some group holds it |
| GroupStore.NewStudents | server/server.ts:90-97 | n names give n students, and the i-th gets id first + i and the i-th name |
| GroupStore.CreateGroup | server/server.ts:83-112 | the counter rises by the number of names; exactly one group is appended and earlier groups are unchanged; its id is the old group count and member i is Student(totalStudents + i, name i); the reply has that id and name, member ids totalStudents + i, and equals the summary of the new group |
| GroupStore.DeleteGroup | server/server.ts:120-125 | the counter is untouched; for 0 <= id < count, exactly the group at id is removed, earlier groups stay put and later ones move down one with their contents (and stored ids) intact; id >= count, or any id on an empty store, changes nothing; a negative id removes the group that far from the end, or the first when it reaches past the start |
| GroupStore.GetGroup | server/server.ts:133-142 | found exactly when 0 <= id < count, and then the result is the group at that position with full member records |
| StoreInvariant.CreatePreservesValid | server/server.ts:90-105 | creating a group keeps student ids strictly increasing, below the counter, and positions within stored group ids |
| StoreInvariant.DeletePreservesValid | server/server.ts:121-122 | deleting, at any id, keeps the invariant |
| StoreInvariant.ValidStudentsUnique | server/server.ts:59-73 | in a valid store no two listed students share an id, and every id is below the counter |
| StoreInvariant.ListingsAgree | server/server.ts:38-73 | the summaries' member ids, concatenated in listing order, are exactly the ids of the student listing |
| StoreInvariant.GetAgreesWithListing | server/server.ts:38-56 | a group found at a position summarizes to the group listing's entry at that position |
| StoreInvariant.GetAfterCreate | server/server.ts:100-111 | after a create, looking up the returned id finds the new group, whose summary is the reply |
| StoreInvariant.GetAfterDelete | server/server.ts:120-142 | after deleting position id, lookups below it are unchanged, lookups at or above it see the next group, and the old last position is not found |
| Handlers.GetGroups | server/server.ts:38-56 | the nested push loops produce exactly ListGroups |
| Handlers.GetStudents | server/server.ts:64-73 | the nested push loops produce exactly ListStudents |
| Handlers.PostGroup | server/server.ts:83-112 | the loop that builds ids, members and the counter side by side, then the append, gives exactly CreateGroup's store and reply |
| Api.Handle | server/server.ts:38-142 | only create and delete change the store; the counter never falls; the status is 204 iff the request is a delete; it is 404 iff the request is a lookup at an out-of-range position; an in-range lookup returns that group |
| Api.RunPreservesValid | server/server.ts:24-25 | any sequence of requests from a valid store ends in a valid store |
| Api.RunCounterMonotone | server/server.ts:96 | the student counter never decreases over a run |
| Api.IdsNeverReused | server/server.ts:90-97 | after any requests from a valid store, every id a create hands out is greater than every id that store held, including ids of groups deleted since, so no id is reused |
| Api.ReachableStudentsUnique | server/server.ts:59-73 | after any requests since process start, listed student ids are unique and below the counter |
| Scenarios.FirstCreate | server/server.ts:83-112 | on a fresh store, creating "A" with Alice and Bob replies id 0 with member ids [0, 1] and lists Alice as 0 and Bob as 1 |
| Scenarios.TwoCreates | server/server.ts:90-105 | two creates get group ids 0 and 1 and student ids 0 and 1 |
| Scenarios.DeleteFirstOfTwo | server/server.ts:120-125 | deleting position 0 of two groups leaves only the second, now first in the listing |
| Scenarios.GroupIdReused | server/server.ts:101 | create, create, delete 0, create leaves two groups that both carry id 1 |
| Scenarios.StoredIdNotFoundAfterDelete | server/server.ts:134-137 | after deleting position 0, the group whose stored id is 1 is not found under id 1 |
| Scenarios.DeleteMinusOneRemovesLast | server/server.ts:122 | a delete at -1 removes the last group |

## Left out

- Express setup, CORS, JSON body parsing, `res.json`, `res.sendStatus`, `app.listen` and the console message (server/server.ts:1-2, 27-31, 144-146): HTTP plumbing over a library outside this model. Routes are the `Request` and `Response` datatypes of `Api`.
- `Number(...)` coercion of the route and body ids (server/server.ts:121, 134): ids are modelled as integers. A non-numeric id gives NaN, and is not modelled. For delete, `splice` treats NaN as 0. For get, the range check lets NaN through.
- Where DELETE takes its id from (the request body rather than the `:id` path): the id is a plain integer argument.
- The fallthrough in the get handler after the 404 (server/server.ts:137-141), which goes on to attempt a second response: an out-of-range lookup is modelled as `NotFound` answered with 404 and no body.
- Validation of missing or ill-typed `groupName` and `members`: the server does none, so inputs are already-typed strings and sequences of strings.
- Number precision: `totalStudents` and ids are unbounded naturals. A JavaScript number stops counting exactly past 2^53, which is not modelled.
- Concurrency: handlers run one at a time to completion, as in the single-threaded server.
