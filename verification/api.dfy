/**
 The five routes as one request/response step over the store, and runs of
 requests from process start: every store a run can reach satisfies the
 store invariant, and the student counter never goes down.
 */
module Api {
  import opened Entities
  import opened GroupStore
  import opened StoreInvariant

  /** One call to the API, with the HTTP encoding stripped away. */
  datatype Request =
    | ListGroupsRequest
    | ListStudentsRequest
    | CreateGroupRequest(groupName: string, members: seq<string>)
    | DeleteGroupRequest(id: int)
    | GetGroupRequest(id: int)

  /** What the route sends back. */
  datatype Response =
    | GroupList(summaries: seq<GroupSummary>)
    | StudentList(students: seq<Student>)
    | CreatedGroup(summary: GroupSummary)
    | NoContent
    | GroupBody(group: Group)
    | GroupNotFound

  datatype Reply = Reply(store: Store, response: Response)

  /** The HTTP status a response goes out with. */
  function Status(r: Response): int {
    match r
    case NoContent => 204
    case GroupNotFound => 404
    case _ => 200
  }

  /**
   One request against the store. Only create and delete change the store;
   the counter never decreases; delete answers 204 whether or not anything
   was removed; a lookup answers 404 exactly when the position is out of range.
   */
  function Handle(s: Store, req: Request): (r: Reply)
    ensures !req.CreateGroupRequest? && !req.DeleteGroupRequest? ==> r.store == s
    ensures r.store.totalStudents >= s.totalStudents
    ensures Status(r.response) == 204 <==> req.DeleteGroupRequest?
    ensures Status(r.response) == 404 <==> req.GetGroupRequest? && !(0 <= req.id < |s.groups|)
    ensures req.GetGroupRequest? && 0 <= req.id < |s.groups| ==> r.response == GroupBody(s.groups[req.id])
  {
    match req
    case ListGroupsRequest => Reply(s, GroupList(ListGroups(s)))
    case ListStudentsRequest => Reply(s, StudentList(ListStudents(s)))
    case CreateGroupRequest(name, members) =>
      var c := CreateGroup(s, name, members);
      Reply(c.store, CreatedGroup(c.summary))
    case DeleteGroupRequest(id) => Reply(DeleteGroup(s, id), NoContent)
    case GetGroupRequest(id) =>
      match GetGroup(s, id)
      case Found(g) => Reply(s, GroupBody(g))
      case NotFound => Reply(s, GroupNotFound)
  }

  /** The store after handling `reqs` in order, one at a time. */
  function Run(s: Store, reqs: seq<Request>): Store
    decreases |reqs|
  {
    if reqs == [] then s else Run(Handle(s, reqs[0]).store, reqs[1..])
  }

  lemma HandlePreservesValid(s: Store, req: Request)
    requires Valid(s)
    ensures Valid(Handle(s, req).store)
  {
    match req
    case CreateGroupRequest(name, members) => CreatePreservesValid(s, name, members);
    case DeleteGroupRequest(id) => DeletePreservesValid(s, id);
    case _ =>
  }

  /** Any sequence of requests keeps the store invariant. */
  lemma {:induction false} RunPreservesValid(s: Store, reqs: seq<Request>)
    requires Valid(s)
    ensures Valid(Run(s, reqs))
    decreases |reqs|
  {
    if reqs != [] {
      HandlePreservesValid(s, reqs[0]);
      RunPreservesValid(Handle(s, reqs[0]).store, reqs[1..]);
    }
  }

  /** The student counter never decreases over a run. */
  lemma {:induction false} RunCounterMonotone(s: Store, reqs: seq<Request>)
    ensures Run(s, reqs).totalStudents >= s.totalStudents
    decreases |reqs|
  {
    if reqs != [] {
      RunCounterMonotone(Handle(s, reqs[0]).store, reqs[1..]);
    }
  }

  /**
   Whatever requests have been served since process start, the student
   listing holds no two students with the same id, and every id is below the
   counter.
   */
  lemma ReachableStudentsUnique(reqs: seq<Request>)
    ensures var s := Run(Initial, reqs);
            var students := ListStudents(s);
            && (forall i, j :: 0 <= i < |students| && 0 <= j < |students| && i != j ==>
                  students[i].id != students[j].id)
            && (forall i :: 0 <= i < |students| ==> 0 <= students[i].id < s.totalStudents)
  {
    InitialValid();
    RunPreservesValid(Initial, reqs);
    ValidStudentsUnique(Run(Initial, reqs));
  }

  /**
   Student ids are never reused, even across deletions: after any requests
   from a valid store, a create hands out ids above every id that store held,
   whether or not those students' groups have since been deleted.
   */
  lemma IdsNeverReused(s: Store, reqs: seq<Request>, groupName: string, names: seq<string>)
    requires Valid(s)
    ensures var c := CreateGroup(Run(s, reqs), groupName, names);
            forall i, x :: 0 <= i < |c.summary.members| && x in StudentIds(s) ==> x < c.summary.members[i]
  {
    RunCounterMonotone(s, reqs);
  }
}
