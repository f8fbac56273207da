/** The record store: one activity log kept under one key of the browser's local
    storage, read whole and written back whole by every operation. The JSON text is
    modelled by the log it encodes, since serialising a well-formed log and parsing it
    back gives the same log. */
module Storage {
  import opened Types

  /** The key the log is stored under. */
  const StorageKey: string := "activity_log"

  /** Which records a delete removes: the ones with a given id, or with a given name. */
  datatype Match = ById(id: string) | ByName(name: string)

  predicate Matches(a: Activity, m: Match) {
    match m
    case ById(id) => a.id == id
    case ByName(name) => a.name == name
  }

  /** `acts.filter(a => !matches(a))`: the records that do not match, in their order. */
  function Without(acts: seq<Activity>, m: Match): (r: seq<Activity>)
    ensures |r| <= |acts|
    ensures forall a :: a in r <==> a in acts && !Matches(a, m)
    ensures |r| == |acts| <==> forall a :: a in acts ==> !Matches(a, m)
  {
    if acts == [] then []
    else
      var front, a := acts[..|acts| - 1], acts[|acts| - 1];
      assert acts == front + [a];
      var p := Without(front, m);
      if Matches(a, m) then p else p + [a]
  }

  /** A delete keeps ids unique: the kept records are a subsequence of the list. */
  lemma {:induction false} WithoutKeepsUniqueIds(acts: seq<Activity>, m: Match)
    requires UniqueIds(acts)
    ensures UniqueIds(Without(acts, m))
  {
    if acts != [] {
      var front, a := acts[..|acts| - 1], acts[|acts| - 1];
      assert UniqueIds(front);
      WithoutKeepsUniqueIds(front, m);
      var p := Without(front, m);
      if !Matches(a, m) {
        forall b | b in p ensures b.id != a.id {
          var i :| 0 <= i < |front| && front[i] == b;
          assert acts[i] == b;
        }
        assert (p + [a])[..|p|] == p;
      }
    }
  }

  /** `acts.filter(a => matches(a))`: the records that match, in their order. */
  function Matching(acts: seq<Activity>, m: Match): (r: seq<Activity>)
    ensures forall a :: a in r <==> a in acts && Matches(a, m)
    ensures |r| + |Without(acts, m)| == |acts|
  {
    if acts == [] then []
    else
      var front, a := acts[..|acts| - 1], acts[|acts| - 1];
      assert acts == front + [a];
      var p := Matching(front, m);
      if Matches(a, m) then p + [a] else p
  }

  /** Filtering a list with one more record at its end. */
  lemma WithoutSnoc(acts: seq<Activity>, a: Activity, m: Match)
    ensures Without(acts + [a], m) == Without(acts, m) + (if Matches(a, m) then [] else [a])
  {
    assert (acts + [a])[..|acts|] == acts;
  }

  /** Filtering a concatenation filters each part: the records kept stay in order. */
  lemma {:induction false} WithoutConcat(s: seq<Activity>, t: seq<Activity>, m: Match)
    ensures Without(s + t, m) == Without(s, m) + Without(t, m)
    decreases |t|
  {
    if t == [] {
      assert s + t == s;
    } else {
      var front, a := t[..|t| - 1], t[|t| - 1];
      var last := if Matches(a, m) then [] else [a];
      assert t == front + [a];
      calc {
        Without(s + t, m);
        { assert s + t == (s + front) + [a]; }
        Without((s + front) + [a], m);
        { WithoutSnoc(s + front, a, m); }
        Without(s + front, m) + last;
        { WithoutConcat(s, front, m); }
        Without(s, m) + Without(front, m) + last;
        { WithoutSnoc(front, a, m); }
        Without(s, m) + Without(t, m);
      }
    }
  }

  /** A delete whose records are absent leaves the list as it was. */
  lemma {:induction false} WithoutAbsent(acts: seq<Activity>, m: Match)
    requires forall a :: a in acts ==> !Matches(a, m)
    ensures Without(acts, m) == acts
  {
    if acts != [] {
      var front := acts[..|acts| - 1];
      assert acts == front + [acts[|acts| - 1]];
      WithoutAbsent(front, m);
    }
  }

  /** Deleting twice is deleting once. */
  lemma WithoutTwice(acts: seq<Activity>, m: Match)
    ensures Without(Without(acts, m), m) == Without(acts, m)
  {
    WithoutAbsent(Without(acts, m), m);
  }

  /** `localStorage`, restricted to what the store uses: a map from keys to the logs
      their JSON text encodes. */
  class LocalStorage {
    var items: map<string, ActivityLog>

    constructor (initial: map<string, ActivityLog>)
      ensures items == initial
    {
      items := initial;
    }

    /** The log the store reads: the stored one, or an empty log when the key is unset. */
    function Stored(): ActivityLog
      reads this
    {
      if StorageKey in items then items[StorageKey] else ActivityLog([])
    }

    /** The activities the store reads. */
    function Contents(): seq<Activity>
      reads this
    {
      Stored().activities
    }

    method LoadFromLocalStorage() returns (log: ActivityLog)
      ensures StorageKey !in items ==> log.activities == []
      ensures StorageKey in items ==> log == items[StorageKey]
      ensures log == Stored()
    {
      if StorageKey !in items {
        return ActivityLog([]);
      }
      log := items[StorageKey];
    }

    method SaveToLocalStorage(data: ActivityLog)
      modifies this
      ensures items == old(items)[StorageKey := data]
      ensures Stored() == data
      ensures StorageKey in items
    {
      items := items[StorageKey := data];
    }

    method AddActivity(activity: Activity)
      modifies this
      ensures items == old(items)[StorageKey := ActivityLog(old(Contents()) + [activity])]
      ensures Contents() == old(Contents()) + [activity]
    {
      var data := LoadFromLocalStorage();
      data := data.(activities := data.activities + [activity]);
      SaveToLocalStorage(data);
    }

    method DeleteActivity(id: string)
      modifies this
      ensures items == old(items)[StorageKey := ActivityLog(Without(old(Contents()), ById(id)))]
      ensures Contents() == Without(old(Contents()), ById(id))
    {
      var data := LoadFromLocalStorage();
      data := data.(activities := Without(data.activities, ById(id)));
      SaveToLocalStorage(data);
    }

    method DeleteActivityByName(name: string)
      modifies this
      ensures items == old(items)[StorageKey := ActivityLog(Without(old(Contents()), ByName(name)))]
      ensures Contents() == Without(old(Contents()), ByName(name))
    {
      var data := LoadFromLocalStorage();
      data := data.(activities := Without(data.activities, ByName(name)));
      SaveToLocalStorage(data);
    }
  }
}
