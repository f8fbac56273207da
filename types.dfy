/** The record shape every component shares: an activity with a quantity, a date and a
    type tag, inside an activity log. */
module Types {
  import opened Dates

  datatype Option<T> = None | Some(value: T)

  /** A JavaScript number as a stored record can carry it: a finite value, or NaN. */
  datatype Number = Finite(r: real) | NaN

  datatype Quantity = Quantity(value: Number, unit: string)

  /** The record's `type` tag; `'quantity'` is its only value. */
  datatype ActivityType = QuantityKind

  /** One logged activity. The quantity is optional because the dashboard reads it
      through `?.` and so copes with records that lack one. */
  datatype Activity = Activity(
    id: string,
    name: string,
    quantity: Option<Quantity>,
    date: Date,
    kind: ActivityType)

  /** The document kept in storage. */
  datatype ActivityLog = ActivityLog(activities: seq<Activity>)

  /** No two records of the list share an id. */
  predicate UniqueIds(acts: seq<Activity>) {
    forall i, j :: 0 <= i < j < |acts| ==> acts[i].id != acts[j].id
  }

  /** `activities.map(a => a.name)` */
  function Names(acts: seq<Activity>): (r: seq<string>)
    ensures |r| == |acts| && forall i :: 0 <= i < |acts| ==> r[i] == acts[i].name
  {
    seq(|acts|, i requires 0 <= i < |acts| => acts[i].name)
  }

  /** The position of the first occurrence of x in xs. */
  function IndexOf<T(==)>(xs: seq<T>, x: T): (k: nat)
    requires x in xs
    ensures k < |xs| && xs[k] == x && forall j :: 0 <= j < k ==> xs[j] != x
  {
    if xs[0] == x then 0 else 1 + IndexOf(xs[1..], x)
  }

  /** `Array.from(new Set(xs))`: every distinct element once, in the order of its first
      occurrence in xs. */
  function Distinct(xs: seq<string>): (r: seq<string>)
    ensures forall x :: x in r <==> x in xs
    ensures forall i, j :: 0 <= i < j < |r| ==> r[i] != r[j]
  {
    if xs == [] then []
    else
      var front, x := xs[..|xs| - 1], xs[|xs| - 1];
      var p := Distinct(front);
      assert xs == front + [x];
      if x in p then p else p + [x]
  }

  /** Distinct lists the elements in the order of their first occurrence in xs. */
  lemma {:induction false} DistinctKeepsFirstOccurrenceOrder(xs: seq<string>)
    ensures forall i, j :: 0 <= i < j < |Distinct(xs)| ==> IndexOf(xs, Distinct(xs)[i]) < IndexOf(xs, Distinct(xs)[j])
  {
    if xs != [] {
      var front, x := xs[..|xs| - 1], xs[|xs| - 1];
      var p := Distinct(front);
      DistinctKeepsFirstOccurrenceOrder(front);
      assert xs == front + [x];
      assert forall y :: y in front ==> IndexOf(xs, y) == IndexOf(front, y);
      if x !in p {
        assert x !in front;
        assert IndexOf(xs, x) == |xs| - 1;
      }
    }
  }

  /** The distinct names of the whole list, in first-occurrence order: the dashboard's
      chart labels and the entry form's suggestions. */
  function ActivityNames(acts: seq<Activity>): (r: seq<string>)
    ensures forall n :: n in r <==> exists a :: a in acts && a.name == n
    ensures forall i, j :: 0 <= i < j < |r| ==> r[i] != r[j]
  {
    var names := Names(acts);
    assert forall a :: a in acts ==> a.name in names;
    Distinct(names)
  }
}
