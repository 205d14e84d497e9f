/**
 The in-memory store behind the five routes: the student counter and the
 ordered sequence of groups, with each route handler's body as a pure
 transition (create, delete) or query (list groups, list students, get one).
 */
module GroupStore {
  import opened Entities

  /**
   The whole server state. `totalStudents` is the next student id to hand out;
   `groups` is kept in insertion order, and a group's position in it is what
   delete and get address.
   */
  datatype Store = Store(groups: seq<Group>, totalStudents: nat)

  /** The state at process start: no groups, counter at zero. */
  const Initial: Store := Store([], 0)

  /** Outcome of looking a group up by position. */
  datatype Lookup = Found(group: Group) | NotFound

  /** What creating a group yields: the new state and the summary sent back. */
  datatype Created = Created(store: Store, summary: GroupSummary)

  function Summaries(groups: seq<Group>): (summaries: seq<GroupSummary>)
    ensures |summaries| == |groups|
    ensures forall k :: 0 <= k < |groups| ==> summaries[k] == Summarize(groups[k])
  {
    if groups == [] then [] else [Summarize(groups[0])] + Summaries(groups[1..])
  }

  /**
   GET /api/groups: one summary per stored group, in store order, keeping the
   group's id and name and listing its members' ids in member order.
   */
  function ListGroups(s: Store): (summaries: seq<GroupSummary>)
    ensures |summaries| == |s.groups|
    ensures forall k :: 0 <= k < |s.groups| ==>
              && summaries[k].id == s.groups[k].id
              && summaries[k].groupName == s.groups[k].groupName
              && summaries[k].members == MemberIds(s.groups[k].members)
  {
    Summaries(s.groups)
  }

  /**
   GET /api/students: every group's members, in group order and then member
   order; each group contributes exactly its own members as one block, placed
   after the blocks of the groups before it.
   */
  function ListStudents(s: Store): (students: seq<Student>)
    ensures forall k :: 0 <= k < |s.groups| ==>
              students == Flatten(s.groups[..k]) + s.groups[k].members + Flatten(s.groups[k + 1..])
    ensures forall st :: st in students <==> exists k :: 0 <= k < |s.groups| && st in s.groups[k].members
  {
    forall k | 0 <= k < |s.groups|
      ensures Flatten(s.groups) == Flatten(s.groups[..k]) + s.groups[k].members + Flatten(s.groups[k + 1..])
    {
      FlattenSplit(s.groups, k);
    }
    Flatten(s.groups)
  }

  /**
   The students created for `names` when the counter stands at `first`: the
   i-th name gets id `first + i`.
   */
  function NewStudents(names: seq<string>, first: nat): (students: seq<Student>)
    ensures |students| == |names|
    ensures forall i :: 0 <= i < |names| ==> students[i] == Student(first + i, names[i])
  {
    if names == [] then [] else [Student(first, names[0])] + NewStudents(names[1..], first + 1)
  }

  /**
   POST /api/groups: the i-th name becomes a student with id `totalStudents + i`,
   the counter advances by the number of names, and a group whose id is the
   number of groups before the call is appended after the unchanged earlier
   groups. The reply lists the new group's member ids.
   */
  function CreateGroup(s: Store, groupName: string, names: seq<string>): (r: Created)
    ensures r.store.totalStudents == s.totalStudents + |names|
    ensures |r.store.groups| == |s.groups| + 1
    ensures r.store.groups[..|s.groups|] == s.groups
    ensures var g := r.store.groups[|s.groups|];
            && g.id == |s.groups|
            && g.groupName == groupName
            && |g.members| == |names|
            && forall i :: 0 <= i < |names| ==> g.members[i] == Student(s.totalStudents + i, names[i])
    ensures r.summary.id == |s.groups| && r.summary.groupName == groupName
    ensures |r.summary.members| == |names|
    ensures forall i :: 0 <= i < |names| ==> r.summary.members[i] == s.totalStudents + i
    ensures r.summary == Summarize(r.store.groups[|s.groups|])
  {
    var members := NewStudents(names, s.totalStudents);
    var g := Group(|s.groups|, groupName, members);
    assert (s.groups + [g])[..|s.groups|] == s.groups;
    Created(Store(s.groups + [g], s.totalStudents + |names|), GroupSummary(g.id, g.groupName, MemberIds(members)))
  }

  /**
   The position `Array.prototype.splice` starts from for an integer start and
   an array of length `len`: a negative start counts back from the end and is
   clamped at 0, a start past the end is clamped to `len`.
   */
  function SpliceStart(start: int, len: nat): (k: nat)
    ensures k <= len
    ensures 0 <= start <= len ==> k == start
    ensures start > len ==> k == len
    ensures start < 0 && 0 <= len + start ==> k == len + start
    ensures len + start < 0 ==> k == 0
  {
    if start < 0 then (if len + start < 0 then 0 else len + start)
    else if start < len then start else len
  }

  /**
   DELETE /api/groups/:id, as `groups.splice(id, 1)`: for `0 <= id < |groups|`
   exactly the group at position `id` is removed and every other group keeps
   its contents (those after it move down one place); a negative `id` removes
   the group that many places from the end (the first one when it reaches past
   the start); an `id` at or past the end, or any `id` on an empty store,
   changes nothing. The counter is never
   touched.
   */
  function DeleteGroup(s: Store, id: int): (r: Store)
    ensures r.totalStudents == s.totalStudents
    ensures 0 <= id < |s.groups| ==>
              && |r.groups| == |s.groups| - 1
              && (forall j :: 0 <= j < id ==> r.groups[j] == s.groups[j])
              && (forall j :: id <= j < |r.groups| ==> r.groups[j] == s.groups[j + 1])
    ensures id >= |s.groups| || s.groups == [] ==> r == s
    ensures -|s.groups| <= id < 0 ==> r.groups == s.groups[..|s.groups| + id] + s.groups[|s.groups| + id + 1..]
    ensures id < -|s.groups| && s.groups != [] ==> r.groups == s.groups[1..]
  {
    var k := SpliceStart(id, |s.groups|);
    if k < |s.groups| then s.(groups := s.groups[..k] + s.groups[k + 1..]) else s
  }

  /**
   GET /api/groups/:id: the group at position `id` with its full member
   records, or NotFound when `id` is negative or not below the number of groups.
   */
  function GetGroup(s: Store, id: int): (r: Lookup)
    ensures r.Found? <==> 0 <= id < |s.groups|
    ensures r.Found? ==> r.group == s.groups[id]
  {
    if id < 0 || id >= |s.groups| then NotFound else Found(s.groups[id])
  }
}
