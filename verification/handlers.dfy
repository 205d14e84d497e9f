/**
 The three route handlers that build their replies with loops, written as
 those loops: a list pushed to element by element. Each is proved to compute
 exactly what the matching pure operation of the store says.
 */
module Handlers {
  import opened Entities
  import opened GroupStore

  /** GET /api/groups: for each group, collect its members' ids, then push a summary. */
  method GetGroups(s: Store) returns (allGroups: seq<GroupSummary>)
    ensures allGroups == ListGroups(s)
  {
    allGroups := [];
    var i := 0;
    while i < |s.groups|
      invariant 0 <= i <= |s.groups|
      invariant |allGroups| == i
      invariant forall k :: 0 <= k < i ==> allGroups[k] == Summarize(s.groups[k])
    {
      var group := s.groups[i];
      var studentNumber: seq<int> := [];
      var j := 0;
      while j < |group.members|
        invariant 0 <= j <= |group.members|
        invariant |studentNumber| == j
        invariant forall m :: 0 <= m < j ==> studentNumber[m] == group.members[m].id
      {
        studentNumber := studentNumber + [group.members[j].id];
        j := j + 1;
      }
      allGroups := allGroups + [GroupSummary(group.id, group.groupName, studentNumber)];
      i := i + 1;
    }
  }

  /** GET /api/students: push every member of every group, group by group. */
  method GetStudents(s: Store) returns (allStudents: seq<Student>)
    ensures allStudents == ListStudents(s)
  {
    allStudents := [];
    var i := 0;
    while i < |s.groups|
      invariant 0 <= i <= |s.groups|
      invariant allStudents == Flatten(s.groups[..i])
    {
      var group := s.groups[i];
      var j := 0;
      while j < |group.members|
        invariant 0 <= j <= |group.members|
        invariant allStudents == Flatten(s.groups[..i]) + group.members[..j]
      {
        assert group.members[..j + 1] == group.members[..j] + [group.members[j]];
        allStudents := allStudents + [group.members[j]];
        j := j + 1;
      }
      assert group.members[..j] == group.members;
      FlattenPrefixStep(s.groups, i);
      i := i + 1;
    }
    assert s.groups[..i] == s.groups;
  }

  /**
   POST /api/groups: for each name, record the counter as the next id, push the
   student, and bump the counter; then append the group with id `|groups|` and
   reply with the collected ids.
   */
  method PostGroup(s: Store, groupName: string, studentNames: seq<string>)
    returns (s': Store, reply: GroupSummary)
    ensures Created(s', reply) == CreateGroup(s, groupName, studentNames)
  {
    var totalStudents := s.totalStudents;
    var studentIds: seq<int> := [];
    var groupMembers: seq<Student> := [];
    var i := 0;
    while i < |studentNames|
      invariant 0 <= i <= |studentNames|
      invariant totalStudents == s.totalStudents + i
      invariant |groupMembers| == i && |studentIds| == i
      invariant forall m :: 0 <= m < i ==> groupMembers[m] == Student(s.totalStudents + m, studentNames[m])
      invariant forall m :: 0 <= m < i ==> studentIds[m] == s.totalStudents + m
    {
      studentIds := studentIds + [totalStudents];
      groupMembers := groupMembers + [Student(totalStudents, studentNames[i])];
      totalStudents := totalStudents + 1;
      i := i + 1;
    }
    var newGroup := Group(|s.groups|, groupName, groupMembers);
    s' := Store(s.groups + [newGroup], totalStudents);
    reply := GroupSummary(newGroup.id, newGroup.groupName, studentIds);
    var expected := CreateGroup(s, groupName, studentNames);
    assert groupMembers == expected.store.groups[|s.groups|].members;
    assert s'.groups == expected.store.groups;
  }
}
