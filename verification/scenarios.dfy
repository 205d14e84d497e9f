/**
 Concrete request sequences and what the store answers after them, including
 the consequences of using a group's position as its id.
 */
module Scenarios {
  import opened Entities
  import opened GroupStore

  /** Creating group "A" with Alice and Bob on a fresh store. */
  lemma FirstCreate()
    ensures var c := CreateGroup(Initial, "A", ["Alice", "Bob"]);
            && c.summary == GroupSummary(0, "A", [0, 1])
            && ListStudents(c.store) == [Student(0, "Alice"), Student(1, "Bob")]
  {
    var c := CreateGroup(Initial, "A", ["Alice", "Bob"]);
    var g := c.store.groups[0];
    assert g.members == [Student(0, "Alice"), Student(1, "Bob")];
    assert c.summary.members == [0, 1];
    assert c.store.groups == [g];
    FlattenSingle(g);
  }

  /** Two creates in a row: group ids 0 and 1, student ids 0 and 1. */
  lemma TwoCreates()
    ensures var c1 := CreateGroup(Initial, "A", ["X"]);
            var c2 := CreateGroup(c1.store, "B", ["Y"]);
            && c1.summary == GroupSummary(0, "A", [0])
            && c2.summary == GroupSummary(1, "B", [1])
            && c2.store.totalStudents == 2
  {
    var c1 := CreateGroup(Initial, "A", ["X"]);
    var c2 := CreateGroup(c1.store, "B", ["Y"]);
    assert c1.summary.members == [0];
    assert c2.summary.members == [1];
  }

  /** Deleting position 0 of two groups leaves the former second group first. */
  lemma DeleteFirstOfTwo()
    ensures var c1 := CreateGroup(Initial, "A", ["X"]);
            var c2 := CreateGroup(c1.store, "B", ["Y"]);
            var d := DeleteGroup(c2.store, 0);
            ListGroups(d) == [c2.summary]
  {
    var c1 := CreateGroup(Initial, "A", ["X"]);
    var c2 := CreateGroup(c1.store, "B", ["Y"]);
    var d := DeleteGroup(c2.store, 0);
    assert d.groups == [c2.store.groups[1]];
  }

  /**
   Group ids are positions at creation time, so after a delete the next
   create reuses an id that a surviving group still carries.
   */
  lemma GroupIdReused()
    ensures var c1 := CreateGroup(Initial, "A", ["X"]);
            var c2 := CreateGroup(c1.store, "B", ["Y"]);
            var d := DeleteGroup(c2.store, 0);
            var c3 := CreateGroup(d, "C", ["Z"]);
            && |c3.store.groups| == 2
            && c3.store.groups[0].id == 1
            && c3.store.groups[1].id == 1
  {
    var c1 := CreateGroup(Initial, "A", ["X"]);
    var c2 := CreateGroup(c1.store, "B", ["Y"]);
    var d := DeleteGroup(c2.store, 0);
    assert d.groups == [c2.store.groups[1]];
  }

  /**
   Because lookup is by position, the surviving group with stored id 1 is no
   longer found under id 1 after the group before it is deleted.
   */
  lemma StoredIdNotFoundAfterDelete()
    ensures var c1 := CreateGroup(Initial, "A", ["X"]);
            var c2 := CreateGroup(c1.store, "B", ["Y"]);
            var d := DeleteGroup(c2.store, 0);
            && d.groups[0].id == 1
            && GetGroup(d, 1) == NotFound
  {
    var c1 := CreateGroup(Initial, "A", ["X"]);
    var c2 := CreateGroup(c1.store, "B", ["Y"]);
    var d := DeleteGroup(c2.store, 0);
    assert d.groups == [c2.store.groups[1]];
  }

  /** A delete at -1 removes the last group, as splice counts back from the end. */
  lemma DeleteMinusOneRemovesLast()
    ensures var c1 := CreateGroup(Initial, "A", ["X"]);
            var c2 := CreateGroup(c1.store, "B", ["Y"]);
            DeleteGroup(c2.store, -1).groups == [c2.store.groups[0]]
  {
  }
}
