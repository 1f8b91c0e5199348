/**
 * Contact groups of the pool game. Each thread collects the contacts it finds into groups of
 * objects that touch, so that one group can be solved apart from the others. Row `t` of
 * `createdGroups` maps every object index to the group holding it (-1: none), and
 * `contactGroups[t]` holds the groups. Only its first `contactGroupsSizes[t]` entries count:
 * the vector outlives the frame, so the entries past that are stale groups from earlier frames,
 * and they are reused. `SolveCollisionGroups` then concatenates the counted groups of every
 * thread. The contacts' floating-point normal and penetration are carried along and never
 * inspected.
 */
module ContactGroups {
  const MaxNumThreads: nat := 10

  datatype ContactData = ContactData(a: nat, b: nat, normalX: real, normalY: real, penetration: real)
  datatype ContactGroup = ContactGroup(objectIndexes: seq<nat>, contacts: seq<ContactData>)

  /**
   * The shape the arrays have: the group count is within the vector, a row entry is -1 or a
   * group of the vector, and every listed object is an object of the row.
   */
  predicate Shaped(created: seq<int>, groups: seq<ContactGroup>, size: nat) {
    && size <= |groups|
    && (forall o :: 0 <= o < |created| ==> -1 <= created[o] < |groups|)
    && (forall g, o :: 0 <= g < |groups| && o in groups[g].objectIndexes ==> o < |created|)
  }

  /**
   * The counted groups partition the grouped objects: an object mapped to a group is a counted
   * group's member, and a counted group's members are mapped to it.
   */
  predicate Consistent(created: seq<int>, groups: seq<ContactGroup>, size: nat) {
    && Shaped(created, groups, size)
    && (forall o :: 0 <= o < |created| && created[o] != -1 ==> created[o] < size && o in groups[created[o]].objectIndexes)
    && (forall g, o :: 0 <= g < size && o in groups[g].objectIndexes ==> o < |created| && created[o] == g)
  }

  /** Every object in `xs` remapped to group `g`. */
  function Remap(created: seq<int>, xs: seq<nat>, g: int): (r: seq<int>)
    ensures |r| == |created|
    ensures forall o :: 0 <= o < |created| ==> r[o] == if o in xs then g else created[o]
  {
    seq(|created|, o requires 0 <= o < |created| => if o in xs then g else created[o])
  }

  /** `xs` without the occurrences of `v`, in order. */
  function Without(xs: seq<nat>, v: nat): (r: seq<nat>)
    ensures forall o :: o in r <==> o in xs && o != v
    ensures |r| <= |xs|
  {
    if xs == [] then []
    else Without(xs[..|xs| - 1], v) + (if xs[|xs| - 1] != v then [xs[|xs| - 1]] else [])
  }

  /** A group joined by contact `c` and the objects `xs`. */
  function Joined(group: ContactGroup, c: ContactData, xs: seq<nat>): (r: ContactGroup)
    ensures r.objectIndexes == group.objectIndexes + xs && r.contacts == group.contacts + [c]
  {
    ContactGroup(group.objectIndexes + xs, group.contacts + [c])
  }

  /**
   * `GenerateContactGroups` for one contact, on one thread's row, groups and group count, as it
   * is evidently meant: a contact between two ungrouped objects opens a group in the first
   * uncounted slot (reusing a stale one or appending), counts it and maps both objects to it.
   * A contact with one grouped endpoint joins that group, and so does the other endpoint. A
   * contact between two groups merges the second into the first: its contacts and its objects
   * (except `c.a`) are appended, its objects are remapped, and it is emptied.
   */
  function Grouped(created: seq<int>, groups: seq<ContactGroup>, size: nat, c: ContactData): (r: (seq<int>, seq<ContactGroup>, nat))
    requires Shaped(created, groups, size) && c.a < |created| && c.b < |created|
    ensures Shaped(r.0, r.1, r.2) && |r.0| == |created|
  {
    var ia := created[c.a];
    var ib := created[c.b];
    if ia == -1 && ib == -1 then
      var group := ContactGroup([c.a, c.b], [c]);
      var groups' := if size < |groups| then groups[size := group] else groups + [group];
      (created[c.a := size][c.b := size], groups', size + 1)
    else if ia == -1 then
      (created[c.a := ib], groups[ib := Joined(groups[ib], c, [c.a])], size)
    else if ib == -1 then
      (created[c.b := ia], groups[ia := Joined(groups[ia], c, [c.b])], size)
    else if ia == ib then
      (created, groups[ia := groups[ia].(contacts := groups[ia].contacts + [c])], size)
    else
      var A, B := groups[ia], groups[ib];
      var merged := ContactGroup(A.objectIndexes + Without(B.objectIndexes, c.a), A.contacts + [c] + B.contacts);
      (Remap(created, B.objectIndexes, ia), groups[ia := merged][ib := ContactGroup([], [])], size)
  }

  /** The number of contacts in a sequence of groups. */
  function TotalContacts(groups: seq<ContactGroup>): (r: nat)
    ensures groups == [] ==> r == 0
  {
    if groups == [] then 0 else TotalContacts(groups[..|groups| - 1]) + |groups[|groups| - 1].contacts|
  }

  lemma {:induction false} TotalContactsAppend(groups: seq<ContactGroup>, g: ContactGroup)
    ensures TotalContacts(groups + [g]) == TotalContacts(groups) + |g.contacts|
  {
    assert (groups + [g])[..|groups|] == groups;
  }

  /** Replacing one group changes the total by the difference of the two groups' contacts. */
  lemma {:induction false} TotalContactsUpdate(groups: seq<ContactGroup>, i: nat, g: ContactGroup)
    requires i < |groups|
    ensures TotalContacts(groups[i := g]) + |groups[i].contacts| == TotalContacts(groups) + |g.contacts|
    decreases |groups|
  {
    var n := |groups| - 1;
    assert groups[i := g][..n] == if i < n then groups[..n][i := g] else groups[..n];
    if i < n {
      TotalContactsUpdate(groups[..n], i, g);
    }
  }

  /** Taking one group more of a prefix adds that group's contacts. */
  lemma TotalContactsPrefix(groups: seq<ContactGroup>, n: nat)
    requires n < |groups|
    ensures TotalContacts(groups[..n + 1]) == TotalContacts(groups[..n]) + |groups[n].contacts|
  {
    assert groups[..n + 1][..n] == groups[..n];
  }

  /**
   * Grouping a contact keeps the counted groups a partition, leaves both endpoints in the same
   * counted group, and adds exactly one contact to the counted groups: none is lost or doubled
   * by a merge.
   */
  lemma GroupedKeeps(created: seq<int>, groups: seq<ContactGroup>, size: nat, c: ContactData)
    requires Consistent(created, groups, size) && c.a < |created| && c.b < |created|
    ensures var r := Grouped(created, groups, size, c);
      && Consistent(r.0, r.1, r.2)
      && r.0[c.a] == r.0[c.b] != -1
      && TotalContacts(r.1[..r.2]) == TotalContacts(groups[..size]) + 1
  {
    var ia, ib := created[c.a], created[c.b];
    if ia == -1 && ib == -1 {
      NewGroupKeeps(created, groups, size, c);
    } else if ia == -1 || ib == -1 || ia == ib {
      var g := if ia == -1 then ib else ia;
      JoinKeeps(created, groups, size, c, g);
    } else {
      MergeKeeps(created, groups, size, c);
    }
  }

  lemma NewGroupKeeps(created: seq<int>, groups: seq<ContactGroup>, size: nat, c: ContactData)
    requires Consistent(created, groups, size) && c.a < |created| && c.b < |created|
    requires created[c.a] == -1 && created[c.b] == -1
    ensures var r := Grouped(created, groups, size, c);
      && Consistent(r.0, r.1, r.2)
      && r.0[c.a] == r.0[c.b] != -1
      && TotalContacts(r.1[..r.2]) == TotalContacts(groups[..size]) + 1
  {
    var r := Grouped(created, groups, size, c);
    assert r.1[..size] == groups[..size];
    TotalContactsPrefix(r.1, size);
    forall g, o | 0 <= g < size && o in r.1[g].objectIndexes
      ensures o < |created| && r.0[o] == g
    {
      assert o in groups[g].objectIndexes;
    }
  }

  /** A contact with exactly one grouped endpoint, or both in the same group `g`. */
  lemma JoinKeeps(created: seq<int>, groups: seq<ContactGroup>, size: nat, c: ContactData, g: int)
    requires Consistent(created, groups, size) && c.a < |created| && c.b < |created|
    requires created[c.a] != -1 || created[c.b] != -1
    requires created[c.a] == -1 || created[c.b] == -1 || created[c.a] == created[c.b]
    requires g == if created[c.a] == -1 then created[c.b] else created[c.a]
    ensures var r := Grouped(created, groups, size, c);
      && Consistent(r.0, r.1, r.2)
      && r.0[c.a] == r.0[c.b] != -1
      && TotalContacts(r.1[..r.2]) == TotalContacts(groups[..size]) + 1
  {
    var r := Grouped(created, groups, size, c);
    assert 0 <= g < size;
    assert r.1[..size] == groups[..size][g := r.1[g]];
    TotalContactsUpdate(groups[..size], g, r.1[g]);
    forall h, o | 0 <= h < size && o in r.1[h].objectIndexes
      ensures o < |created| && r.0[o] == h
    {
      if h != g || o in groups[g].objectIndexes {
        assert o in groups[h].objectIndexes;
      }
    }
  }

  lemma MergeKeeps(created: seq<int>, groups: seq<ContactGroup>, size: nat, c: ContactData)
    requires Consistent(created, groups, size) && c.a < |created| && c.b < |created|
    requires created[c.a] != -1 && created[c.b] != -1 && created[c.a] != created[c.b]
    ensures var r := Grouped(created, groups, size, c);
      && Consistent(r.0, r.1, r.2)
      && r.0[c.a] == r.0[c.b] != -1
      && TotalContacts(r.1[..r.2]) == TotalContacts(groups[..size]) + 1
  {
    var r := Grouped(created, groups, size, c);
    var ia, ib := created[c.a], created[c.b];
    var A, B := groups[ia], groups[ib];
    var merged := ContactGroup(A.objectIndexes + Without(B.objectIndexes, c.a), A.contacts + [c] + B.contacts);
    assert r.1 == groups[ia := merged][ib := ContactGroup([], [])];
    assert r.1[..size] == groups[..size][ia := merged][ib := ContactGroup([], [])];
    TotalContactsUpdate(groups[..size], ia, merged);
    TotalContactsUpdate(groups[..size][ia := merged], ib, ContactGroup([], []));
    forall o | 0 <= o < |created| && r.0[o] != -1
      ensures r.0[o] < size && o in r.1[r.0[o]].objectIndexes
    {
      if o !in B.objectIndexes {
        assert r.0[o] == created[o];
      }
    }
    forall h, o | 0 <= h < size && o in r.1[h].objectIndexes
      ensures o < |created| && r.0[o] == h
    {
      if h != ia {
        assert o in groups[h].objectIndexes;
      } else if o !in B.objectIndexes {
        assert o in A.objectIndexes;
      }
    }
  }

  /**
   * `GenerateContactGroups`'s new-group branch as written: the contact goes into the first
   * uncounted slot when there is a stale one and is appended otherwise. The count goes up only
   * in the first case, and both objects are mapped to the vector's last slot in either case.
   * The other branches are those of `Grouped`.
   */
  function GroupedAsWritten(created: seq<int>, groups: seq<ContactGroup>, size: nat, c: ContactData): (r: (seq<int>, seq<ContactGroup>, nat))
    requires Shaped(created, groups, size) && c.a < |created| && c.b < |created|
    ensures Shaped(r.0, r.1, r.2) && |r.0| == |created|
  {
    if created[c.a] == -1 && created[c.b] == -1 then
      var group := ContactGroup([c.a, c.b], [c]);
      var groups' := if size < |groups| then groups[size := group] else groups + [group];
      var size' := if size < |groups| then size + 1 else size;
      (created[c.a := |groups'| - 1][c.b := |groups'| - 1], groups', size')
    else
      Grouped(created, groups, size, c)
  }

  /**
   * As written, opening a group keeps the counted groups a partition only when the new group
   * lands in the last slot of the vector, that is when exactly one stale group was left over.
   * With none (the group is appended but not counted) or with two or more (both objects point
   * past the counted groups) the partition is broken.
   */
  lemma AsWrittenBreaksPartition(created: seq<int>, groups: seq<ContactGroup>, size: nat, c: ContactData)
    requires Consistent(created, groups, size) && c.a < |created| && c.b < |created|
    requires created[c.a] == -1 && created[c.b] == -1
    ensures var r := GroupedAsWritten(created, groups, size, c);
      Consistent(r.0, r.1, r.2) <==> size + 1 == |groups|
  {
    var r := GroupedAsWritten(created, groups, size, c);
    if size + 1 == |groups| {
      assert r == Grouped(created, groups, size, c);
      GroupedKeeps(created, groups, size, c);
    } else {
      assert r.0[c.a] == |r.1| - 1 >= r.2;
    }
  }

  /** No object grouped yet, no group: the state at the start of the first frame. */
  function Empty(n: nat): (seq<int>, seq<ContactGroup>, nat) {
    (seq(n, _ => -1), [], 0)
  }

  /**
   * In the first frame the appended group is never counted, so `SolveCollisionGroups` does not
   * see the contact, while the objects point at that group.
   */
  lemma AsWrittenDropsNewGroup(c: ContactData)
    requires c == ContactData(0, 1, 0.0, 0.0, 0.0)
    ensures var e := Empty(2);
      var r := GroupedAsWritten(e.0, e.1, e.2, c);
      && TotalContacts(r.1[..r.2]) == 0
      && !Consistent(r.0, r.1, r.2)
      && var s := Grouped(e.0, e.1, e.2, c); TotalContacts(s.1[..s.2]) == 1
  {
    var e := Empty(2);
    AsWrittenBreaksPartition(e.0, e.1, e.2, c);
    var s := Grouped(e.0, e.1, e.2, c);
    assert s.1[..s.2] == [ContactGroup([0, 1], [c])];
    TotalContactsAppend([], ContactGroup([0, 1], [c]));
  }

  /**
   * In a later frame, with two stale groups left over, the contact is written to slot 0 but its
   * objects are mapped to slot 1, a group that is not counted.
   */
  lemma AsWrittenMisroutesReusedGroup(c: ContactData, stale: ContactGroup)
    requires c == ContactData(0, 1, 0.0, 0.0, 0.0) && stale == ContactGroup([], [])
    ensures var r := GroupedAsWritten([-1, -1], [stale, stale], 0, c);
      && r.1[0] == ContactGroup([0, 1], [c]) && r.2 == 1
      && r.0[0] == 1 && r.0[1] == 1
      && !Consistent(r.0, r.1, r.2)
  {
  }

  /** The groups `SolveCollisionGroups` gathers: each thread's counted groups, thread by thread. */
  function Merged(groups: seq<seq<ContactGroup>>, sizes: seq<nat>): (r: seq<ContactGroup>)
    requires |groups| == |sizes| && forall i :: 0 <= i < |sizes| ==> sizes[i] <= |groups[i]|
  {
    if groups == [] then []
    else Merged(groups[..|groups| - 1], sizes[..|sizes| - 1]) + groups[|groups| - 1][..sizes[|sizes| - 1]]
  }

  function Sum(s: seq<nat>): (r: nat) {
    if s == [] then 0 else Sum(s[..|s| - 1]) + s[|s| - 1]
  }

  /** The gathered vector has one entry per counted group. */
  lemma {:induction false} MergedLength(groups: seq<seq<ContactGroup>>, sizes: seq<nat>)
    requires |groups| == |sizes| && forall i :: 0 <= i < |sizes| ==> sizes[i] <= |groups[i]|
    ensures |Merged(groups, sizes)| == Sum(sizes)
    decreases |groups|
  {
    if groups != [] {
      var n := |groups| - 1;
      MergedLength(groups[..n], sizes[..n]);
    }
  }

  /**
   * Thread `i`'s counted group `g` is in the gathered vector at position `Sum(sizes[..i]) + g`:
   * after the counted groups of the threads before it.
   */
  lemma {:induction false} MergedAt(groups: seq<seq<ContactGroup>>, sizes: seq<nat>, i: nat, g: nat)
    requires |groups| == |sizes| && forall k :: 0 <= k < |sizes| ==> sizes[k] <= |groups[k]|
    requires i < |sizes| && g < sizes[i]
    ensures Sum(sizes[..i]) + g < |Merged(groups, sizes)|
    ensures Merged(groups, sizes)[Sum(sizes[..i]) + g] == groups[i][g]
    decreases |groups|
  {
    var n := |groups| - 1;
    MergedLength(groups[..n], sizes[..n]);
    MergedLength(groups, sizes);
    if i < n {
      MergedAt(groups[..n], sizes[..n], i, g);
      assert sizes[..n][..i] == sizes[..i];
    } else {
      assert sizes[..i] == sizes[..n];
    }
  }

  /** `GameData`'s contact-group state: one vector of groups and one count per thread. */
  class GameData {
    var contactGroups: seq<seq<ContactGroup>>
    var contactGroupsSizes: seq<nat>

    ghost predicate Valid()
      reads this
    {
      && |contactGroups| == MaxNumThreads && |contactGroupsSizes| == MaxNumThreads
      && forall i :: 0 <= i < MaxNumThreads ==> contactGroupsSizes[i] <= |contactGroups[i]|
    }

    constructor ()
      ensures Valid()
      ensures contactGroups == seq(MaxNumThreads, _ => []) && contactGroupsSizes == seq(MaxNumThreads, _ => 0)
    {
      contactGroups := seq(MaxNumThreads, _ => []);
      contactGroupsSizes := seq(MaxNumThreads, _ => 0);
    }
  }

  /** Row `t` of `createdGroups`. */
  ghost function Row(createdGroups: array2<int>, t: nat): (r: seq<int>)
    reads createdGroups
    requires t < createdGroups.Length0
    ensures |r| == createdGroups.Length1
    ensures forall j :: 0 <= j < createdGroups.Length1 ==> r[j] == createdGroups[t, j]
  {
    seq(createdGroups.Length1, j requires 0 <= j < createdGroups.Length1 reads createdGroups => createdGroups[t, j])
  }

  /**
   * The merge's second loop: group B's objects other than `skip` are appended to `dst`, and
   * every one of them is remapped to `g` in row `t`.
   */
  method MoveObjects(createdGroups: array2<int>, t: nat, dst: seq<nat>, src: seq<nat>, skip: nat, g: int) returns (r: seq<nat>)
    requires t < createdGroups.Length0
    requires forall o :: o in src ==> o < createdGroups.Length1
    modifies createdGroups
    ensures r == dst + Without(src, skip)
    ensures Row(createdGroups, t) == Remap(old(Row(createdGroups, t)), src, g)
    ensures forall u, j :: 0 <= u < createdGroups.Length0 && u != t && 0 <= j < createdGroups.Length1 ==>
      createdGroups[u, j] == old(createdGroups[u, j])
  {
    ghost var row := Row(createdGroups, t);
    r := dst;
    for k := 0 to |src|
      invariant r == dst + Without(src[..k], skip)
      invariant Row(createdGroups, t) == Remap(row, src[..k], g)
      invariant forall u, j :: 0 <= u < createdGroups.Length0 && u != t && 0 <= j < createdGroups.Length1 ==>
        createdGroups[u, j] == old(createdGroups[u, j])
    {
      assert src[..k + 1] == src[..k] + [src[k]] && src[..k + 1][..k] == src[..k];
      if src[k] != skip {
        r := r + [src[k]];
      }
      assert src[k] in src;
      SetGroup(createdGroups, t, src[k], g);
      RemapSnoc(row, src[..k], src[k], g);
    }
    assert src[..|src|] == src;
  }

  /** Remapping one object more is one more update of the row. */
  lemma RemapSnoc(created: seq<int>, xs: seq<nat>, x: nat, g: int)
    requires x < |created|
    ensures Remap(created, xs + [x], g) == Remap(created, xs, g)[x := g]
  {
  }

  /** The merge's first loop: group B's contacts are appended to group A's, in order. */
  method AppendContacts(dst: seq<ContactData>, src: seq<ContactData>) returns (r: seq<ContactData>)
    ensures r == dst + src
  {
    r := dst;
    for k := 0 to |src|
      invariant r == dst + src[..k]
    {
      assert src[..k + 1] == src[..k] + [src[k]];
      r := r + [src[k]];
    }
    assert src[..|src|] == src;
  }

  /** `createdGroups[t][o] = g`: one entry of row `t` changes; every other entry stays. */
  method SetGroup(createdGroups: array2<int>, t: nat, o: nat, g: int)
    requires t < createdGroups.Length0 && o < createdGroups.Length1
    modifies createdGroups
    ensures Row(createdGroups, t) == old(Row(createdGroups, t))[o := g]
    ensures forall u, j :: 0 <= u < createdGroups.Length0 && u != t && 0 <= j < createdGroups.Length1 ==>
      createdGroups[u, j] == old(createdGroups[u, j])
  {
    createdGroups[t, o] := g;
  }

  /**
   * `GenerateContactGroups(gameData, createdGroups, contact, context)`: groups one contact on
   * thread `t`, as `Grouped` says, touching nothing of the other threads.
   */
  method GenerateContactGroups(gameData: GameData, createdGroups: array2<int>, contact: ContactData, t: nat)
    requires gameData.Valid() && t < MaxNumThreads && createdGroups.Length0 == MaxNumThreads
    requires contact.a < createdGroups.Length1 && contact.b < createdGroups.Length1
    requires Shaped(Row(createdGroups, t), gameData.contactGroups[t], gameData.contactGroupsSizes[t])
    modifies gameData, createdGroups
    ensures gameData.Valid()
    ensures var r := Grouped(old(Row(createdGroups, t)), old(gameData.contactGroups[t]), old(gameData.contactGroupsSizes[t]), contact);
      && Row(createdGroups, t) == r.0
      && gameData.contactGroups == old(gameData.contactGroups)[t := r.1]
      && gameData.contactGroupsSizes == old(gameData.contactGroupsSizes)[t := r.2]
    ensures forall u, j :: 0 <= u < MaxNumThreads && u != t && 0 <= j < createdGroups.Length1 ==>
      createdGroups[u, j] == old(createdGroups[u, j])
  {
    ghost var row := Row(createdGroups, t);
    var groups := gameData.contactGroups[t];
    var size := gameData.contactGroupsSizes[t];
    ghost var target := Grouped(row, groups, size, contact);
    var it := createdGroups[t, contact.a];
    if it == -1 {
      it := createdGroups[t, contact.b];
      if it == -1 {
        var group := ContactGroup([contact.a, contact.b], [contact]);
        if size < |groups| {
          groups := groups[size := group];
        } else {
          groups := groups + [group];
        }
        SetGroup(createdGroups, t, contact.a, size);
        SetGroup(createdGroups, t, contact.b, size);
        assert Row(createdGroups, t) == row[contact.a := size][contact.b := size] == target.0;
        size := size + 1;
        assert groups == target.1;
      } else {
        groups := groups[it := groups[it].(contacts := groups[it].contacts + [contact])];
        groups := groups[it := groups[it].(objectIndexes := groups[it].objectIndexes + [contact.a])];
        SetGroup(createdGroups, t, contact.a, it);
        assert Row(createdGroups, t) == row[contact.a := it] == target.0;
        assert groups == target.1;
      }
    } else {
      var groupA := it;
      groups := groups[groupA := groups[groupA].(contacts := groups[groupA].contacts + [contact])];
      var itB := createdGroups[t, contact.b];
      if itB == -1 {
        groups := groups[groupA := groups[groupA].(objectIndexes := groups[groupA].objectIndexes + [contact.b])];
        SetGroup(createdGroups, t, contact.b, groupA);
        assert Row(createdGroups, t) == row[contact.b := groupA] == target.0;
        assert groups == target.1;
      } else {
        var groupB := itB;
        if groupA != groupB {
          var contacts := AppendContacts(groups[groupA].contacts, groups[groupB].contacts);
          var objects := MoveObjects(createdGroups, t, groups[groupA].objectIndexes, groups[groupB].objectIndexes, contact.a, groupA);
          groups := groups[groupA := ContactGroup(objects, contacts)];
          groups := groups[groupB := ContactGroup([], [])];
        }
        assert Row(createdGroups, t) == target.0;
        assert groups == target.1;
      }
    }
    gameData.contactGroups := gameData.contactGroups[t := groups];
    gameData.contactGroupsSizes := gameData.contactGroupsSizes[t := size];
  }

  /**
   * `SolveCollisionGroups`'s gathering loop: the counted groups of threads 0 .. 9, in thread
   * order, into one vector.
   */
  method MergeContactGroups(gameData: GameData) returns (merged: seq<ContactGroup>)
    requires gameData.Valid()
    ensures merged == Merged(gameData.contactGroups, gameData.contactGroupsSizes)
  {
    merged := [];
    for i := 0 to MaxNumThreads
      invariant merged == Merged(gameData.contactGroups[..i], gameData.contactGroupsSizes[..i])
    {
      assert gameData.contactGroups[..i + 1][..i] == gameData.contactGroups[..i];
      assert gameData.contactGroupsSizes[..i + 1][..i] == gameData.contactGroupsSizes[..i];
      if gameData.contactGroupsSizes[i] != 0 {
        merged := merged + gameData.contactGroups[i][..gameData.contactGroupsSizes[i]];
      }
    }
    assert gameData.contactGroups[..MaxNumThreads] == gameData.contactGroups;
    assert gameData.contactGroupsSizes[..MaxNumThreads] == gameData.contactGroupsSizes;
  }
}
