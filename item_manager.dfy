/**
 * `ItemManager`: decides when an item drops (a time trigger and a score
 * trigger), which item drops (a weighted draw over items still in stock),
 * and tracks each dropped item together with the field block holding it.
 *
 * Engine collaborators are inputs: the free block `FieldManager` picks
 * (`block`), the value `Random.Range(0, weightSum)` yields for a given sum
 * (`rand`), the `ItemBase` that `Instantiate` produced, if any (`spawned`),
 * and the frame's `Time.deltaTime` (`deltaTime`). Calls to blocks and to
 * the engine are recorded in `notices`.
 */
module ItemManagement {
  import opened Wrappers
  import opened ItemDrops
  import Int2s
  import opened Timing

  /**
   * `nextDropItemScore += itemDropScoreInterval` on C# `int`s: unchecked, so
   * the cursor moves up by the interval while that fits, and otherwise wraps
   * round to a negative value.
   */
  function AdvanceCursor(cursor: Int2s.Int32, interval: Int2s.Int32): (r: Int2s.Int32)
    ensures Int2s.InRange(cursor as int + interval as int) ==> r as int == cursor as int + interval as int
    ensures interval > 0 && cursor as int + interval as int > Int2s.MaxInt32 ==>
      r as int == cursor as int + interval as int - Int2s.Modulus && r < 0
  {
    var v := cursor as int + interval as int;
    if v > Int2s.MaxInt32 then
      Int2s.WrapShift(v - Int2s.Modulus, 1);
      Int2s.Wrap(v)
    else Int2s.Wrap(v)
  }

  /**
   * A wrapped cursor sits far below the scores: a cursor of 2147483500 with
   * an interval of 500 becomes -2147483296, so a score of 0 draws an item.
   * Each such drop raises the cursor by one interval again, and once it has
   * climbed back past the score (here from -296 to 204, about 2^32 / 500
   * drops later) a score of 0 no longer reaches it.
   */
  lemma CursorOverflowExample()
    ensures AdvanceCursor(2147483500, 500) as int == -2147483296
    ensures 0 >= AdvanceCursor(2147483500, 500)
    ensures AdvanceCursor(-296, 500) as int == 204
    ensures !(0 >= AdvanceCursor(-296, 500))
  {
  }

  class ItemManager {
    // Configuration, fixed once loaded.
    const itemInfos: seq<ItemInfo>
    const itemDropTimeInterval: real
    const itemDropScoreInterval: Int2s.Int32
    const timeDropWeightTable: seq<DropWeightParam>
    const scoreDropWeightTable: seq<DropWeightParam>

    const timer: Timer
    var nextDropItemScore: Int2s.Int32
    var itemFieldMap: map<ItemId, BlockId>
    var itemStock: seq<int>
    var notices: seq<Notice>

    /** One stock entry per catalog item, and a timer whose progress is current. */
    ghost predicate Valid()
      reads this, timer
    {
      timer.Valid() && |itemStock| == |itemInfos|
    }

    /** The bookkeeping the drop and exit operations change. */
    function State(): Ledger
      reads this
    {
      Ledger(itemStock, itemFieldMap, notices)
    }

    /**
     * `Awake`: the score cursor starts one score interval up, the timer runs
     * over the time interval, nothing is tracked and the stock is full.
     */
    constructor Awake(infos: seq<ItemInfo>, timeInterval: real, scoreInterval: Int2s.Int32,
                      timeTable: seq<DropWeightParam>, scoreTable: seq<DropWeightParam>)
      requires timeInterval != 0.0
      ensures Valid() && fresh(timer)
      ensures itemInfos == infos && itemDropTimeInterval == timeInterval
      ensures itemDropScoreInterval == scoreInterval
      ensures timeDropWeightTable == timeTable && scoreDropWeightTable == scoreTable
      ensures nextDropItemScore == scoreInterval
      ensures timer.interval == timeInterval && timer.elapsed == 0.0
      ensures itemFieldMap == map[] && notices == []
      ensures itemStock == InitialStock(infos)
    {
      itemInfos := infos;
      itemDropTimeInterval := timeInterval;
      itemDropScoreInterval := scoreInterval;
      timeDropWeightTable := timeTable;
      scoreDropWeightTable := scoreTable;
      nextDropItemScore := scoreInterval;
      timer := new Timer(timeInterval);
      itemFieldMap := map[];
      itemStock := [];
      notices := [];
      new;
      InitStock();
    }

    /** `InitStock`: the stock list is cleared and refilled from the catalog's limits. */
    method InitStock()
      modifies this`itemStock
      ensures itemStock == InitialStock(itemInfos)
    {
      itemStock := [];
      for i := 0 to |itemInfos|
        invariant |itemStock| == i
        invariant forall j :: 0 <= j < i ==> itemStock[j] == itemInfos[j].maxDropNum
      {
        itemStock := itemStock + [itemInfos[i].maxDropNum];
      }
    }

    /**
     * `DrawItemType`: `-1` for an empty list; otherwise the first entry whose
     * running weight sum exceeds the random value, or the last entry.
     */
    method DrawItemType(weightParam: seq<DropWeightParam>, rand: real -> real) returns (id: int)
      ensures id == Drawn(weightParam, rand)
    {
      if |weightParam| == 0 {
        return -1;
      }

      var weightSum := 0.0;
      for i := 0 to |weightParam|
        invariant weightSum == Prefix(weightParam, i)
      {
        weightSum := weightSum + weightParam[i].weight;
      }

      var random := rand(weightSum);
      var currentWeight := 0.0;
      for i := 0 to |weightParam|
        invariant currentWeight == Prefix(weightParam, i)
        invariant i < |weightParam| ==> DrawIndex(weightParam, random) == DrawIndexFrom(weightParam, random, i)
        invariant i == |weightParam| ==> DrawIndex(weightParam, random) == |weightParam| - 1
      {
        currentWeight := currentWeight + weightParam[i].weight;
        if random < currentWeight {
          return weightParam[i].itemID;
        }
      }

      return weightParam[|weightParam| - 1].itemID;
    }

    /** `DropItem`: one drop attempt drawing from `weightParam`. */
    method DropItem(weightParam: seq<DropWeightParam>, block: Option<BlockId>,
                    rand: real -> real, spawned: Option<ItemId>)
      requires Valid() && IdsWithin(weightParam, |itemInfos|)
      requires spawned.Some? ==> spawned.value !in itemFieldMap
      modifies this
      ensures Valid() && nextDropItemScore == old(nextDropItemScore)
      ensures State() == AttemptDrop(old(State()), itemInfos, weightParam, block, rand, spawned)
    {
      if block.None? {
        return;
      }

      var filteredWeightParam := Filter(weightParam, itemStock);

      var itemID := DrawItemType(filteredWeightParam, rand);
      if itemID < 0 || itemID >= |itemInfos| {
        return;
      }

      if itemStock[itemID] > 0 {
        itemStock := itemStock[itemID := itemStock[itemID] - 1];
      }

      notices := notices + [Instantiated(itemInfos[itemID].prefab)];

      if spawned.Some? {
        notices := notices + [ItemDropped(block.value, spawned.value)];
        itemFieldMap := itemFieldMap[spawned.value := block.value];
      }
    }

    /**
     * `Update`: the timer advances by one frame; when it completes, one drop
     * attempt from the time table follows and the timer restarts at zero.
     */
    method Update(deltaTime: real, block: Option<BlockId>, rand: real -> real, spawned: Option<ItemId>)
      requires Valid() && IdsWithin(timeDropWeightTable, |itemInfos|)
      requires spawned.Some? ==> spawned.value !in itemFieldMap
      modifies this, timer
      ensures Valid() && nextDropItemScore == old(nextDropItemScore)
      ensures timer.interval == old(timer.interval)
      ensures var stepped := old(timer.elapsed) + deltaTime;
        var complete := stepped / timer.interval >= 1.0;
        && timer.elapsed == (if complete then 0.0 else stepped)
        && State() == (if complete
                       then AttemptDrop(old(State()), itemInfos, timeDropWeightTable, block, rand, spawned)
                       else old(State()))
      ensures timer.interval > 0.0 ==>
        ((old(timer.elapsed) + deltaTime) / timer.interval >= 1.0 <==> old(timer.elapsed) + deltaTime >= timer.interval)
    {
      timer.Step(deltaTime);
      if timer.IsComplete() {
        DropItem(timeDropWeightTable, block, rand, spawned);
        timer.Reset();
      }
    }

    /**
     * `OnScoreChanged`: a score at or past the cursor makes one drop attempt
     * from the score table and moves the cursor up by exactly one interval,
     * however far the score overshoots, with 32-bit wrap-around; a lower
     * score changes nothing.
     */
    method OnScoreChanged(newScore: Int2s.Int32, block: Option<BlockId>, rand: real -> real, spawned: Option<ItemId>)
      requires Valid() && IdsWithin(scoreDropWeightTable, |itemInfos|)
      requires spawned.Some? ==> spawned.value !in itemFieldMap
      modifies this
      ensures Valid()
      ensures nextDropItemScore ==
        if newScore >= old(nextDropItemScore) then AdvanceCursor(old(nextDropItemScore), itemDropScoreInterval)
        else old(nextDropItemScore)
      ensures State() ==
        if newScore >= old(nextDropItemScore)
        then AttemptDrop(old(State()), itemInfos, scoreDropWeightTable, block, rand, spawned)
        else old(State())
    {
      if newScore >= nextDropItemScore {
        DropItem(scoreDropWeightTable, block, rand, spawned);
        nextDropItemScore := AdvanceCursor(nextDropItemScore, itemDropScoreInterval);
      }
    }

    /**
     * `OnItemExitField(item, removeFormMap)`: a tracked item's block is told
     * the item left, and the entry is removed when `removeFromMap` holds.
     */
    method OnItemExitField(item: ItemId, removeFromMap: bool := true)
      modifies this`itemFieldMap, this`notices
      ensures State() == ExitField(old(State()), item, removeFromMap)
    {
      if item in itemFieldMap {
        notices := notices + [ItemExited(itemFieldMap[item])];
        if removeFromMap {
          itemFieldMap := itemFieldMap - {item};
        }
      }
    }

    /** `OnItemApplied`, without its UI counters: the applied item leaves the field. */
    method OnItemApplied(item: ItemId)
      modifies this`itemFieldMap, this`notices
      ensures State() == ExitField(old(State()), item, true)
    {
      OnItemExitField(item);
    }

    /**
     * `OnNewGameStarted`: each tracked item, in the map's enumeration order
     * `order`, has its block told it left and is destroyed; then the map is
     * cleared and the stock refilled. Neither the score cursor nor the timer
     * is reset.
     */
    method OnNewGameStarted() returns (ghost order: seq<ItemId>)
      requires Valid()
      modifies this
      ensures Valid()
      ensures Distinct(order) && (forall i :: 0 <= i < |order| ==> order[i] in old(itemFieldMap))
      ensures forall x :: x in old(itemFieldMap) ==> x in order
      ensures State() == NewGame(old(State()), order, itemInfos)
      ensures nextDropItemScore == old(nextDropItemScore)
    {
      var pending := itemFieldMap.Keys;
      order := [];
      while pending != {}
        invariant itemFieldMap == old(itemFieldMap) && itemStock == old(itemStock)
        invariant pending <= itemFieldMap.Keys
        invariant Distinct(order) && forall i :: 0 <= i < |order| ==> order[i] in itemFieldMap && order[i] !in pending
        invariant forall x :: x in itemFieldMap ==> x in pending || x in order
        invariant notices == old(notices) + TeardownLog(order, itemFieldMap)
        invariant nextDropItemScore == old(nextDropItemScore)
        decreases pending
      {
        var item :| item in pending;
        TeardownLogSnoc(order, item, itemFieldMap);
        ghost var before := notices;
        OnItemExitField(item, false);
        assert itemFieldMap == old(itemFieldMap) && notices == before + [ItemExited(itemFieldMap[item])];
        notices := notices + [ItemDestroyed(item)];
        pending := pending - {item};
        order := order + [item];
      }

      itemFieldMap := map[];
      InitStock();
    }
  }
}
