/** The read/write transform registries of the telnet protocol: lists of
    handlers kept sorted by each handler's order key, and the pipeline that
    passes bytes through them in list order. What a transform does to the
    bytes (zlib compression for MCCP2) is a parameter. */
module TelnetTransforms {
  import opened TelnetCodes
  import opened Sorting

  /** A registered handler, identified by its option code, with the order
      key the registry sorts by. */
  datatype Transform = Transform(handler: byte, order: int)

  function OrderOf(t: Transform): int {
    t.order
  }

  predicate NoDuplicates(ts: seq<Transform>) {
    forall t | t in ts :: multiset(ts)[t] == 1
  }

  /** The shape every registry keeps. */
  predicate WellFormed(ts: seq<Transform>) {
    NoDuplicates(ts) && SortedBy(ts, OrderOf)
  }

  /** `add_write_transform` / `add_read_transform`: append when absent, then
      re-sort by order key. */
  function Add(ts: seq<Transform>, t: Transform): (r: seq<Transform>)
    ensures WellFormed(ts) ==> WellFormed(r)
    ensures forall x :: x in r <==> x in ts || x == t
    ensures t in ts ==> r == ts
    ensures |r| == if t in ts then |ts| else |ts| + 1
  {
    if t in ts then ts
    else
      var r := SortBy(ts + [t], OrderOf);
      assert multiset(r) == multiset(ts) + multiset{t};
      assert NoDuplicates(ts) ==> multiset(r)[t] == 1;
      r
  }

  /** `list.remove`: drops the first occurrence. */
  function RemoveFirst(ts: seq<Transform>, t: Transform): (r: seq<Transform>)
    requires t in ts
    ensures multiset(r) == multiset(ts) - multiset{t}
    ensures |r| == |ts| - 1
  {
    if ts[0] == t then
      assert ts == [ts[0]] + ts[1..];
      ts[1..]
    else
      assert ts == [ts[0]] + ts[1..];
      [ts[0]] + RemoveFirst(ts[1..], t)
  }

  /** `remove_write_transform` / `remove_read_transform`: delete when
      present, then re-sort by order key. */
  function Remove(ts: seq<Transform>, t: Transform): (r: seq<Transform>)
    ensures WellFormed(ts) ==> WellFormed(r)
    ensures forall x :: x in r ==> x in ts
    ensures forall x :: x in ts && x != t ==> x in r
    ensures NoDuplicates(ts) ==> t !in r
    ensures t !in ts ==> r == ts
    ensures |r| == if t in ts then |ts| - 1 else |ts|
  {
    if t in ts then
      var r := SortBy(RemoveFirst(ts, t), OrderOf);
      assert multiset(r) == multiset(ts) - multiset{t};
      forall x ensures (x in r ==> x in ts) && (x in ts && x != t ==> x in r) && (NoDuplicates(ts) && x == t ==> x !in r) {
        assert x in r <==> multiset(r)[x] > 0;
        assert x in ts <==> multiset(ts)[x] > 0;
      }
      r
    else ts
  }

  /** `send_data` / the read loop of `handle_reader`: each transform is
      applied in list order, the output of one feeding the next. */
  function Pipeline(ts: seq<Transform>, data: seq<byte>, apply: (Transform, seq<byte>) -> seq<byte>): seq<byte>
    decreases |ts|
  {
    if |ts| == 0 then data else Pipeline(ts[1..], apply(ts[0], data), apply)
  }

  /** Running through a concatenated registry is running through the first
      part, then through the second. */
  lemma {:induction false} PipelineConcat(a: seq<Transform>, b: seq<Transform>, data: seq<byte>, apply: (Transform, seq<byte>) -> seq<byte>)
    ensures Pipeline(a + b, data, apply) == Pipeline(b, Pipeline(a, data, apply), apply)
    decreases |a|
  {
    if |a| > 0 {
      assert (a + b)[0] == a[0] && (a + b)[1..] == a[1..] + b;
      PipelineConcat(a[1..], b, apply(a[0], data), apply);
    } else {
      assert a + b == b;
    }
  }

  /** With nothing registered, bytes pass unchanged; with one handler, its
      transform is applied once. */
  lemma PipelineSmall(t: Transform, data: seq<byte>, apply: (Transform, seq<byte>) -> seq<byte>)
    ensures Pipeline([], data, apply) == data
    ensures Pipeline([t], data, apply) == apply(t, data)
  {
  }
}
