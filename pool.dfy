/**
 * `Pool<T>`: a fixed-capacity list of pre-built objects, handed out by a
 * linear scan for the first one whose `IsUsing` flag is false. The objects
 * are identified by their position in the list; engine placement values
 * (transforms, positions, rotations) are opaque identifiers.
 */
module Pooling {
  import opened Wrappers

  type TransformId = nat
  type PositionId = nat
  type RotationId = nat

  /** The placement an object receives from the positioning overloads of `Get`. */
  datatype Pose = Pose(position: PositionId, rotation: RotationId)

  /** One pooled object: its `IsUsing` flag, its parent transform and the pose last given to it. */
  datatype Entry = Entry(isUsing: bool, parent: TransformId, pose: Option<Pose>)

  /** The index of the first entry not in use, if there is one. */
  function FirstFree(flags: seq<bool>): (r: Option<nat>)
    ensures r.Some? ==> r.value < |flags| && !flags[r.value] &&
                        forall j :: 0 <= j < r.value ==> flags[j]
    ensures r.None? <==> forall j :: 0 <= j < |flags| ==> flags[j]
  {
    FirstFreeFrom(flags, 0)
  }

  function FirstFreeFrom(flags: seq<bool>, i: nat): (r: Option<nat>)
    requires i <= |flags|
    requires forall j :: 0 <= j < i ==> flags[j]
    ensures r.Some? ==> i <= r.value < |flags| && !flags[r.value] &&
                        forall j :: 0 <= j < r.value ==> flags[j]
    ensures r.None? <==> forall j :: 0 <= j < |flags| ==> flags[j]
    decreases |flags| - i
  {
    if i == |flags| then None
    else if !flags[i] then Some(i)
    else FirstFreeFrom(flags, i + 1)
  }

  /** The flags after one `Get`: the first free entry, if any, becomes used. */
  function Claim(flags: seq<bool>): (r: seq<bool>)
    ensures |r| == |flags|
    ensures forall j :: 0 <= j < |flags| && flags[j] ==> r[j]
    ensures FirstFree(flags).Some? ==> r[FirstFree(flags).value] && FirstFree(r) != FirstFree(flags)
    ensures forall j :: 0 <= j < |flags| && FirstFree(flags) != Some(j) ==> r[j] == flags[j]
  {
    match FirstFree(flags)
    case Some(k) => flags[k := true]
    case None => flags
  }

  /** The flags after `n` successive `Get`s with no release in between. */
  function ClaimN(flags: seq<bool>, n: nat): (r: seq<bool>)
    ensures |r| == |flags|
    ensures forall j :: 0 <= j < |flags| && flags[j] ==> r[j]
  {
    if n == 0 then flags else Claim(ClaimN(flags, n - 1))
  }

  /** After `k` gets from a pool of `m` free objects, exactly the first `k` are in use. */
  lemma {:induction false} ClaimNFromFresh(m: nat, k: nat)
    requires k <= m
    ensures ClaimN(seq(m, _ => false), k) == seq(m, j => j < k)
  {
    if k > 0 {
      ClaimNFromFresh(m, k - 1);
      var before := seq(m, j => j < k - 1);
      assert FirstFree(before) == Some(k - 1) by {
        assert !before[k - 1];
      }
      assert before[k - 1 := true] == seq(m, j => j < k);
    }
  }

  /**
   * A fresh pool of `maxCount` objects serves `maxCount` successive gets,
   * the i-th of them yielding object i.
   */
  lemma PoolCapacity(maxCount: nat, i: nat)
    requires i < maxCount
    ensures FirstFree(ClaimN(seq(maxCount, _ => false), i)) == Some(i)
  {
    ClaimNFromFresh(maxCount, i);
    var claimed := seq(maxCount, j => j < i);
    assert !claimed[i] && forall j :: 0 <= j < i ==> claimed[j];
    var r := FirstFree(claimed);
    assert r.Some?;
    assert !(r.value < i) && !(r.value > i);
  }

  /** Once `maxCount` gets have been served from a fresh pool, the next get yields nothing. */
  lemma PoolExhausted(maxCount: nat)
    ensures FirstFree(ClaimN(seq(maxCount, _ => false), maxCount)) == None
  {
    ClaimNFromFresh(maxCount, maxCount);
    var full := seq(maxCount, j => j < maxCount);
    assert forall j :: 0 <= j < maxCount ==> full[j];
  }

  class Pool {
    const maxCount: nat
    /** The pool's own transform, the parent every object is instantiated under. */
    const home: TransformId
    const list: array<Entry>

    ghost predicate Valid()
      reads this
    {
      list.Length == maxCount
    }

    /** The `IsUsing` flags, in list order. */
    ghost function Flags(): seq<bool>
      reads this, list
    {
      seq(list.Length, j requires 0 <= j < list.Length reads list => list[j].isUsing)
    }

    /**
     * `Awake`: builds `maxCount` objects under the pool's transform, each not in use.
     */
    constructor (maxCount: nat, home: TransformId)
      ensures Valid() && fresh(list)
      ensures this.maxCount == maxCount && this.home == home
      ensures forall j :: 0 <= j < list.Length ==> list[j] == Entry(false, home, None)
      ensures Flags() == seq(maxCount, _ => false)
    {
      this.maxCount := maxCount;
      this.home := home;
      var a := new Entry[maxCount];
      var i := 0;
      while i < maxCount
        invariant 0 <= i <= maxCount
        invariant forall j :: 0 <= j < i ==> a[j] == Entry(false, home, None)
      {
        a[i] := Entry(false, home, None);
        i := i + 1;
      }
      list := a;
    }

    /**
     * `Get()`: marks the first object not in use as used and returns it,
     * or returns null when every object is in use. No other object changes.
     */
    method Get() returns (r: Option<nat>)
      requires Valid()
      modifies list
      ensures r == FirstFree(old(Flags()))
      ensures r.Some? ==> r.value < list.Length && list[r.value] == old(list[r.value]).(isUsing := true)
      ensures forall j :: 0 <= j < list.Length && r != Some(j) ==> list[j] == old(list[j])
      ensures Flags() == Claim(old(Flags()))
    {
      ghost var flags := Flags();
      var i := 0;
      while i < list.Length
        invariant 0 <= i <= list.Length
        invariant forall j :: 0 <= j < i ==> list[j].isUsing
        invariant FirstFree(flags) == FirstFreeFrom(flags, i)
      {
        if !list[i].isUsing {
          list[i] := list[i].(isUsing := true);
          r := Some(i);
          assert Flags() == flags[i := true];
          return;
        }
        i := i + 1;
      }
      r := None;
    }

    /** `Get(parent)`: the object `Get()` yields, reparented. */
    method GetWithParent(parent: TransformId) returns (r: Option<nat>)
      requires Valid()
      modifies list
      ensures r == FirstFree(old(Flags()))
      ensures r.Some? ==> (r.value < list.Length &&
        list[r.value] == old(list[r.value]).(isUsing := true, parent := parent))
      ensures forall j :: 0 <= j < list.Length && r != Some(j) ==> list[j] == old(list[j])
      ensures Flags() == Claim(old(Flags()))
    {
      r := Get();
      if r.Some? {
        list[r.value] := list[r.value].(parent := parent);
        assert Flags() == Claim(old(Flags()));
      }
    }

    /** `Get(position, rotation)`: the object `Get()` yields, placed. */
    method GetPlaced(pose: Pose) returns (r: Option<nat>)
      requires Valid()
      modifies list
      ensures r == FirstFree(old(Flags()))
      ensures r.Some? ==> (r.value < list.Length &&
        list[r.value] == old(list[r.value]).(isUsing := true, pose := Some(pose)))
      ensures forall j :: 0 <= j < list.Length && r != Some(j) ==> list[j] == old(list[j])
      ensures Flags() == Claim(old(Flags()))
    {
      r := Get();
      if r.Some? {
        list[r.value] := list[r.value].(pose := Some(pose));
        assert Flags() == Claim(old(Flags()));
      }
    }

    /** `Get(position, rotation, parent)`: the object `Get()` yields, placed and reparented. */
    method GetPlacedWithParent(pose: Pose, parent: TransformId) returns (r: Option<nat>)
      requires Valid()
      modifies list
      ensures r == FirstFree(old(Flags()))
      ensures r.Some? ==> (r.value < list.Length &&
        list[r.value] == old(list[r.value]).(isUsing := true, pose := Some(pose), parent := parent))
      ensures forall j :: 0 <= j < list.Length && r != Some(j) ==> list[j] == old(list[j])
      ensures Flags() == Claim(old(Flags()))
    {
      r := Get();
      if r.Some? {
        list[r.value] := list[r.value].(pose := Some(pose), parent := parent);
        assert Flags() == Claim(old(Flags()));
      }
    }
  }
}
