/**
 The record shapes of the group/student API: a student, a stored group with its
 full member records, and the summary of a group that lists member ids only.
 */
module Entities {

  /** A student: a numeric id handed out by the store and a name. */
  datatype Student = Student(id: int, name: string)

  /** A group as the store keeps it: id, name and the full member records, in order. */
  datatype Group = Group(id: int, groupName: string, members: seq<Student>)

  /** A group as it is listed: same id and name, members reduced to their ids. */
  datatype GroupSummary = GroupSummary(id: int, groupName: string, members: seq<int>)

  /** The ids of `students`, one per student, in the same order. */
  function MemberIds(students: seq<Student>): (ids: seq<int>)
    ensures |ids| == |students|
    ensures forall i :: 0 <= i < |students| ==> ids[i] == students[i].id
  {
    if students == [] then [] else [students[0].id] + MemberIds(students[1..])
  }

  /** Projecting ids distributes over concatenation. */
  lemma MemberIdsAppend(a: seq<Student>, b: seq<Student>)
    ensures MemberIds(a + b) == MemberIds(a) + MemberIds(b)
  {
    var l, r := MemberIds(a + b), MemberIds(a) + MemberIds(b);
    assert |l| == |r|;
    forall i | 0 <= i < |l|
      ensures l[i] == r[i]
    {
      if i < |a| {
        assert (a + b)[i] == a[i];
      } else {
        assert (a + b)[i] == b[i - |a|];
      }
    }
  }

  /** The summary of a group: its id and name kept, each member replaced by its id. */
  function Summarize(g: Group): (s: GroupSummary)
    ensures s.id == g.id && s.groupName == g.groupName
    ensures |s.members| == |g.members|
    ensures forall i :: 0 <= i < |g.members| ==> s.members[i] == g.members[i].id
  {
    GroupSummary(g.id, g.groupName, MemberIds(g.members))
  }

  /**
   Every member of every group, in group order and then member order: a student
   is listed exactly when some group holds it.
   */
  function Flatten(groups: seq<Group>): (students: seq<Student>)
    ensures forall k, st :: 0 <= k < |groups| && st in groups[k].members ==> st in students
    ensures forall st :: st in students ==> exists k :: 0 <= k < |groups| && st in groups[k].members
  {
    if groups == [] then []
    else
      var rest := Flatten(groups[1..]);
      assert forall k :: 1 <= k < |groups| ==> groups[k] == groups[1..][k - 1];
      groups[0].members + rest
  }

  lemma FlattenSingle(g: Group)
    ensures Flatten([g]) == g.members
  {
    assert [g][1..] == [];
  }

  /** Flattening distributes over concatenation of group sequences. */
  lemma {:induction false} FlattenAppend(a: seq<Group>, b: seq<Group>)
    ensures Flatten(a + b) == Flatten(a) + Flatten(b)
  {
    if a == [] {
      assert a + b == b;
    } else {
      assert (a + b)[0] == a[0];
      assert (a + b)[1..] == a[1..] + b;
      FlattenAppend(a[1..], b);
    }
  }

  /**
   The members of the group at position `k` form one contiguous block of the
   flattening, preceded by the groups before it and followed by those after it.
   */
  lemma FlattenSplit(groups: seq<Group>, k: int)
    requires 0 <= k < |groups|
    ensures Flatten(groups) == Flatten(groups[..k]) + groups[k].members + Flatten(groups[k + 1..])
  {
    var pre, post := groups[..k + 1], groups[k + 1..];
    assert groups == pre + post;
    FlattenAppend(pre, post);
    FlattenPrefixStep(groups, k);
  }

  /** Flattening a prefix one group longer appends that group's members. */
  lemma FlattenPrefixStep(groups: seq<Group>, i: int)
    requires 0 <= i < |groups|
    ensures Flatten(groups[..i + 1]) == Flatten(groups[..i]) + groups[i].members
  {
    assert groups[..i + 1] == groups[..i] + [groups[i]];
    FlattenAppend(groups[..i], [groups[i]]);
    FlattenSingle(groups[i]);
  }
}
