/** The application's handlers: they keep the in-memory list that the views render and
    the list in the record store in step when an activity is added, deleted by id, or
    deleted together with every other activity of the same name. */
module App {
  import opened Types
  import opened Storage

  /** The ids of the records, in order. */
  function IdsOf(acts: seq<Activity>): (ids: seq<string>)
    ensures |ids| == |acts| && forall i :: 0 <= i < |acts| ==> ids[i] == acts[i].id
  {
    seq(|acts|, i requires 0 <= i < |acts| => acts[i].id)
  }

  /** The list after one store delete per id, in the order of ids. */
  function WithoutIds(acts: seq<Activity>, ids: seq<string>): seq<Activity>
  {
    if ids == [] then acts
    else Without(WithoutIds(acts, ids[..|ids| - 1]), ById(ids[|ids| - 1]))
  }

  /** One more store delete, by the next id. */
  lemma WithoutIdsSnoc(acts: seq<Activity>, ids: seq<string>, k: nat)
    requires k < |ids|
    ensures WithoutIds(acts, ids[..k + 1]) == Without(WithoutIds(acts, ids[..k]), ById(ids[k]))
  {
    assert ids[..k + 1][..k] == ids[..k];
  }

  /** The records whose id is not among ids, in their order. */
  function WithoutIdIn(acts: seq<Activity>, ids: seq<string>): seq<Activity>
  {
    if acts == [] then []
    else
      var p := WithoutIdIn(acts[..|acts| - 1], ids);
      if acts[|acts| - 1].id in ids then p else p + [acts[|acts| - 1]]
  }

  lemma {:induction false} WithoutOneMoreId(acts: seq<Activity>, ids: seq<string>, id: string)
    ensures Without(WithoutIdIn(acts, ids), ById(id)) == WithoutIdIn(acts, ids + [id])
  {
    if acts != [] {
      var front, a := acts[..|acts| - 1], acts[|acts| - 1];
      WithoutOneMoreId(front, ids, id);
      var p := WithoutIdIn(front, ids);
      if a.id !in ids {
        assert (p + [a])[..|p + [a]| - 1] == p;
      }
    }
  }

  lemma {:induction false} WithoutNoId(acts: seq<Activity>)
    ensures WithoutIdIn(acts, []) == acts
  {
    if acts != [] {
      WithoutNoId(acts[..|acts| - 1]);
      assert acts == acts[..|acts| - 1] + [acts[|acts| - 1]];
    }
  }

  /** Deleting the ids one at a time removes the records whose id is among them. */
  lemma {:induction false} WithoutIdsAtOnce(acts: seq<Activity>, ids: seq<string>)
    ensures WithoutIds(acts, ids) == WithoutIdIn(acts, ids)
  {
    if ids == [] {
      WithoutNoId(acts);
    } else {
      var front := ids[..|ids| - 1];
      WithoutIdsAtOnce(acts, front);
      WithoutOneMoreId(acts, front, ids[|ids| - 1]);
      assert ids == front + [ids[|ids| - 1]];
    }
  }

  /** When a record's id is among ids exactly when the record has the name, removing by
      ids and removing by name agree. */
  lemma {:induction false} IdsSelectName(acts: seq<Activity>, ids: seq<string>, name: string)
    requires forall a :: a in acts ==> (a.id in ids <==> a.name == name)
    ensures WithoutIdIn(acts, ids) == Without(acts, ByName(name))
  {
    if acts != [] {
      var front := acts[..|acts| - 1];
      assert forall a :: a in front ==> a in acts;
      IdsSelectName(front, ids, name);
    }
  }

  /** With unique ids, the store deletes that delete-by-name issues, one per record of
      that name, remove exactly the records of that name. */
  lemma DeleteByIdsIsDeleteByName(acts: seq<Activity>, name: string)
    requires UniqueIds(acts)
    ensures WithoutIds(acts, IdsOf(Matching(acts, ByName(name)))) == Without(acts, ByName(name))
  {
    var named := Matching(acts, ByName(name));
    var ids := IdsOf(named);
    WithoutIdsAtOnce(acts, ids);
    forall a | a in acts ensures a.id in ids <==> a.name == name {
      if a.name == name {
        assert a in named;
        var k :| 0 <= k < |named| && named[k] == a;
        assert ids[k] == a.id;
      }
      if a.id in ids {
        var k :| 0 <= k < |ids| && ids[k] == a.id;
        var b := named[k];
        assert b in named;
        var i :| 0 <= i < |acts| && acts[i] == a;
        var j :| 0 <= j < |acts| && acts[j] == b;
        assert i == j;
      }
    }
    IdsSelectName(acts, ids, name);
  }

  /** Without unique ids the two copies can part: a record of another name that shares an
      id with a deleted record disappears from the store but not from memory. */
  lemma SharedIdBreaksDeleteByName()
    ensures exists acts: seq<Activity>, name: string ::
      WithoutIds(acts, IdsOf(Matching(acts, ByName(name)))) != Without(acts, ByName(name))
  {
    var when := Dates.Date(2024, 1, 5, 0);
    var coffee := Activity("1", "Coffee", None, when, QuantityKind);
    var gym := Activity("1", "Gym", None, when, QuantityKind);
    var acts := [coffee, gym];
    assert acts[..1] == [coffee];
    assert Matching(acts, ByName("Coffee")) == [coffee];
    assert IdsOf([coffee]) == ["1"];
    assert Without(acts, ById("1")) == [];
    assert Without(acts, ByName("Coffee")) == [gym];
  }

  /** The application state: the list the views render and the store it mirrors. */
  class AppState {
    var activities: seq<Activity>
    const storage: LocalStorage

    /** `useState<Activity[]>([])`: the list is empty until the mount effect runs. */
    constructor (storage: LocalStorage)
      ensures this.storage == storage && activities == []
    {
      this.storage := storage;
      activities := [];
    }

    /** The in-memory list equals the stored one. */
    predicate InSync()
      reads this, storage
    {
      activities == storage.Contents()
    }

    /** The mount effect: the in-memory list becomes the stored list. */
    method Mount()
      modifies this
      ensures activities == storage.Contents() && InSync()
    {
      var data := storage.LoadFromLocalStorage();
      activities := data.activities;
    }

    method HandleAddActivity(activity: Activity)
      modifies this, storage
      ensures storage.items == old(storage.items)[StorageKey := ActivityLog(old(storage.Contents()) + [activity])]
      ensures storage.Contents() == old(storage.Contents()) + [activity]
      ensures activities == old(activities) + [activity]
      ensures old(InSync()) ==> InSync()
      ensures old(UniqueIds(activities)) && (forall a :: a in old(activities) ==> a.id != activity.id)
              ==> UniqueIds(activities)
    {
      storage.AddActivity(activity);
      activities := activities + [activity];
    }

    method HandleDeleteActivity(id: string)
      modifies this, storage
      ensures storage.items == old(storage.items)[StorageKey := ActivityLog(Without(old(storage.Contents()), ById(id)))]
      ensures storage.Contents() == Without(old(storage.Contents()), ById(id))
      ensures activities == Without(old(activities), ById(id))
      ensures old(InSync()) ==> InSync()
      ensures old(UniqueIds(activities)) ==> UniqueIds(activities)
    {
      storage.DeleteActivity(id);
      if UniqueIds(activities) {
        WithoutKeepsUniqueIds(activities, ById(id));
      }
      activities := Without(activities, ById(id));
    }

    method HandleDeleteActivityByName(name: string)
      modifies this, storage
      ensures storage.Contents()
              == WithoutIds(old(storage.Contents()), IdsOf(Matching(old(activities), ByName(name))))
      ensures activities == Without(old(activities), ByName(name))
      ensures storage.items - {StorageKey} == old(storage.items) - {StorageKey}
      ensures Matching(old(activities), ByName(name)) == [] ==> storage.items == old(storage.items)
      ensures Matching(old(activities), ByName(name)) != [] ==> StorageKey in storage.items
      ensures old(InSync() && UniqueIds(activities)) ==> InSync() && UniqueIds(activities)
    {
      ghost var stored0, synced := storage.Contents(), InSync() && UniqueIds(activities);
      var toDelete := Matching(activities, ByName(name));
      ghost var ids := IdsOf(toDelete);
      var i := 0;
      while i < |toDelete|
        invariant 0 <= i <= |toDelete|
        invariant storage.Contents() == WithoutIds(stored0, ids[..i])
        invariant storage.items - {StorageKey} == old(storage.items) - {StorageKey}
        invariant i == 0 ==> storage.items == old(storage.items)
        invariant i > 0 ==> StorageKey in storage.items
        modifies storage
      {
        WithoutIdsSnoc(stored0, ids, i);
        storage.DeleteActivity(toDelete[i].id);
        i := i + 1;
      }
      assert ids[..|toDelete|] == ids;
      if synced {
        DeleteByIdsIsDeleteByName(activities, name);
        WithoutKeepsUniqueIds(activities, ByName(name));
      }
      activities := Without(activities, ByName(name));
    }
  }
}
