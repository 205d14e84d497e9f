/**
 What every reachable store satisfies, and the lemmas that create and delete
 keep it: student ids, read in listing order, are non-negative, strictly
 increasing (so no student is listed twice) and all below the counter; and no
 group sits at a position past its own stored id.
 */
module StoreInvariant {
  import opened Entities
  import opened GroupStore

  predicate StrictlyIncreasing(xs: seq<int>) {
    forall i, j :: 0 <= i < j < |xs| ==> xs[i] < xs[j]
  }

  /**
   The ids of all students, in the order GET /api/students lists them (see
   StudentIdsOfListing). Written over `Flatten` directly so that proofs about
   the invariant do not carry the listing's block-by-block contract.
   */
  function StudentIds(s: Store): seq<int> {
    MemberIds(Flatten(s.groups))
  }

  lemma StudentIdsOfListing(s: Store)
    ensures StudentIds(s) == MemberIds(ListStudents(s))
  {
  }

  predicate IdsBelow(ids: seq<int>, bound: int) {
    forall i :: 0 <= i < |ids| ==> 0 <= ids[i] < bound
  }

  /**
   Deletion shifts groups down, creation appends at `|groups|`, so a group's
   position never exceeds the id it was given.
   */
  predicate PositionsWithinIds(groups: seq<Group>) {
    forall k :: 0 <= k < |groups| ==> k <= groups[k].id
  }

  predicate Valid(s: Store) {
    && StrictlyIncreasing(StudentIds(s))
    && IdsBelow(StudentIds(s), s.totalStudents)
    && PositionsWithinIds(s.groups)
  }

  lemma InitialValid()
    ensures Valid(Initial)
  {
    assert Flatten(Initial.groups) == [];
  }

  /** Appending ids that all exceed every earlier id keeps the order strict. */
  lemma StrictlyIncreasingAppend(a: seq<int>, b: seq<int>, bound: int)
    requires StrictlyIncreasing(a) && StrictlyIncreasing(b)
    requires forall i :: 0 <= i < |a| ==> a[i] < bound
    requires forall j :: 0 <= j < |b| ==> bound <= b[j]
    ensures StrictlyIncreasing(a + b)
  {
    var c := a + b;
    forall i, j | 0 <= i < j < |c|
      ensures c[i] < c[j]
    {
      if j < |a| {
        assert c[i] == a[i] && c[j] == a[j];
      } else if i < |a| {
        assert c[i] == a[i] && c[j] == b[j - |a|];
      } else {
        assert c[i] == b[i - |a|] && c[j] == b[j - |a|];
      }
    }
  }

  /** Cutting a contiguous block out of a strictly increasing sequence keeps it so. */
  lemma StrictlyIncreasingCut(x: seq<int>, y: seq<int>, z: seq<int>)
    requires StrictlyIncreasing(x + y + z)
    ensures StrictlyIncreasing(x + z)
  {
    var whole, cut := x + y + z, x + z;
    forall i, j | 0 <= i < j < |cut|
      ensures cut[i] < cut[j]
    {
      var i' := if i < |x| then i else i + |y|;
      var j' := if j < |x| then j else j + |y|;
      assert cut[i] == whole[i'] && cut[j] == whole[j'];
    }
  }

  /** The ids handed out to one batch of new students. */
  lemma NewStudentIds(names: seq<string>, first: nat)
    ensures var ids := MemberIds(NewStudents(names, first));
            && StrictlyIncreasing(ids)
            && (forall j :: 0 <= j < |ids| ==> first <= ids[j] < first + |names|)
  {
  }

  /**
   Creating a group keeps the invariant: the new students' ids continue the
   counter, so they exceed every earlier id and stay below the advanced counter.
   */
  lemma CreatePreservesValid(s: Store, groupName: string, names: seq<string>)
    requires Valid(s)
    ensures Valid(CreateGroup(s, groupName, names).store)
  {
    var r := CreateGroup(s, groupName, names).store;
    var g := r.groups[|s.groups|];
    assert r.groups == s.groups + [g];
    FlattenAppend(s.groups, [g]);
    FlattenSingle(g);
    MemberIdsAppend(Flatten(s.groups), g.members);
    var oldIds, newIds := StudentIds(s), MemberIds(g.members);
    assert StudentIds(r) == oldIds + newIds;
    NewStudentIds(names, s.totalStudents);
    assert newIds == MemberIds(NewStudents(names, s.totalStudents));
    StrictlyIncreasingAppend(oldIds, newIds, s.totalStudents);
    assert IdsBelow(oldIds + newIds, r.totalStudents) by {
      var all := oldIds + newIds;
      forall i | 0 <= i < |all|
        ensures 0 <= all[i] < r.totalStudents
      {
        if i < |oldIds| {
          assert all[i] == oldIds[i];
        } else {
          assert all[i] == newIds[i - |oldIds|];
        }
      }
    }
  }

  /** Cutting a contiguous block out of a sequence of bounded ids keeps the bound. */
  lemma IdsBelowCut(x: seq<int>, y: seq<int>, z: seq<int>, bound: int)
    requires IdsBelow(x + y + z, bound)
    ensures IdsBelow(x + z, bound)
  {
    forall i | 0 <= i < |x + z|
      ensures 0 <= (x + z)[i] < bound
    {
      if i < |x| {
        assert (x + z)[i] == (x + y + z)[i];
      } else {
        assert (x + z)[i] == (x + y + z)[i + |y|];
      }
    }
  }

  /** The ids of the students before, inside and after the group at position `k`. */
  lemma StudentIdsAround(groups: seq<Group>, k: nat)
    requires k < |groups|
    ensures MemberIds(Flatten(groups)) ==
            MemberIds(Flatten(groups[..k])) + MemberIds(groups[k].members) + MemberIds(Flatten(groups[k + 1..]))
    ensures MemberIds(Flatten(groups[..k] + groups[k + 1..])) ==
            MemberIds(Flatten(groups[..k])) + MemberIds(Flatten(groups[k + 1..]))
  {
    var a, m, b := Flatten(groups[..k]), groups[k].members, Flatten(groups[k + 1..]);
    FlattenSplit(groups, k);
    FlattenAppend(groups[..k], groups[k + 1..]);
    MemberIdsAppend(a + m, b);
    MemberIdsAppend(a, m);
    MemberIdsAppend(a, b);
  }

  lemma PositionsWithinIdsCut(groups: seq<Group>, k: nat)
    requires k < |groups| && PositionsWithinIds(groups)
    ensures PositionsWithinIds(groups[..k] + groups[k + 1..])
  {
    var r := groups[..k] + groups[k + 1..];
    forall j | 0 <= j < |r|
      ensures j <= r[j].id
    {
      if j < k {
        assert r[j] == groups[j];
      } else {
        assert r[j] == groups[j + 1];
      }
    }
  }

  /** Removing the group at position `k` keeps the invariant. */
  lemma RemoveAtPreservesValid(s: Store, k: nat)
    requires Valid(s) && k < |s.groups|
    ensures Valid(s.(groups := s.groups[..k] + s.groups[k + 1..]))
  {
    var r := s.(groups := s.groups[..k] + s.groups[k + 1..]);
    StudentIdsAround(s.groups, k);
    var x, y, z := MemberIds(Flatten(s.groups[..k])), MemberIds(s.groups[k].members), MemberIds(Flatten(s.groups[k + 1..]));
    assert StudentIds(s) == x + y + z;
    assert StudentIds(r) == x + z;
    StrictlyIncreasingCut(x, y, z);
    IdsBelowCut(x, y, z, s.totalStudents);
    PositionsWithinIdsCut(s.groups, k);
  }

  /** Deleting keeps the invariant, whatever position splice resolves `id` to. */
  lemma DeletePreservesValid(s: Store, id: int)
    requires Valid(s)
    ensures Valid(DeleteGroup(s, id))
  {
    var k := SpliceStart(id, |s.groups|);
    if k < |s.groups| {
      RemoveAtPreservesValid(s, k);
    }
  }

  /**
   In a valid store no two listed students share an id, and every id was
   handed out before the counter's current value.
   */
  lemma ValidStudentsUnique(s: Store)
    requires Valid(s)
    ensures var students := ListStudents(s);
            && (forall i, j :: 0 <= i < |students| && 0 <= j < |students| && i != j ==>
                  students[i].id != students[j].id)
            && (forall i :: 0 <= i < |students| ==> 0 <= students[i].id < s.totalStudents)
  {
    var students := ListStudents(s);
    var ids := StudentIds(s);
    StudentIdsOfListing(s);
    forall i, j | 0 <= i < |students| && 0 <= j < |students| && i != j
      ensures students[i].id != students[j].id
    {
      if i < j {
        assert ids[i] < ids[j];
      } else {
        assert ids[j] < ids[i];
      }
    }
    assert forall i :: 0 <= i < |students| ==> students[i].id == ids[i];
  }

  /** The member ids of all summaries, concatenated in listing order. */
  function ConcatMembers(summaries: seq<GroupSummary>): seq<int> {
    if summaries == [] then [] else summaries[0].members + ConcatMembers(summaries[1..])
  }

  lemma {:induction false} SummariesMatchFlatten(groups: seq<Group>)
    ensures ConcatMembers(Summaries(groups)) == MemberIds(Flatten(groups))
  {
    if groups != [] {
      var sums := Summaries(groups);
      assert sums[1..] == Summaries(groups[1..]);
      SummariesMatchFlatten(groups[1..]);
      MemberIdsAppend(groups[0].members, Flatten(groups[1..]));
    }
  }

  /**
   The two listings agree: the member ids of GET /api/groups, read group by
   group, are exactly the ids of GET /api/students in the same order.
   */
  lemma ListingsAgree(s: Store)
    ensures ConcatMembers(ListGroups(s)) == MemberIds(ListStudents(s))
  {
    SummariesMatchFlatten(s.groups);
  }

  /** A group fetched by position summarizes to the listing's entry at that position. */
  lemma GetAgreesWithListing(s: Store, id: int)
    requires GetGroup(s, id).Found?
    ensures Summarize(GetGroup(s, id).group) == ListGroups(s)[id]
  {
  }

  /** Right after a create, the new group is found at the position its id names. */
  lemma GetAfterCreate(s: Store, groupName: string, names: seq<string>)
    ensures var c := CreateGroup(s, groupName, names);
            && GetGroup(c.store, c.summary.id).Found?
            && Summarize(GetGroup(c.store, c.summary.id).group) == c.summary
  {
  }

  /**
   After deleting position `id`, lookups below it are unchanged, lookups at
   or above it see the group that was one place further on, and the last
   position is no longer found.
   */
  lemma GetAfterDelete(s: Store, id: int, j: int)
    requires 0 <= id < |s.groups|
    ensures 0 <= j < id ==> GetGroup(DeleteGroup(s, id), j) == GetGroup(s, j)
    ensures id <= j ==> GetGroup(DeleteGroup(s, id), j) == GetGroup(s, j + 1)
    ensures j < 0 || j == |s.groups| - 1 ==> GetGroup(DeleteGroup(s, id), j) == NotFound
  {
  }
}
