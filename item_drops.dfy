/**
 * The values behind the item-drop manager: the catalog and weight tables,
 * the cumulative-weight draw, the out-of-stock filter, and the effect of
 * each manager operation on the stock list, the item-to-block map and the
 * log of notifications sent to blocks and the engine.
 */
module ItemDrops {
  import opened Wrappers

  /** Opaque identities of engine objects: a spawned `ItemBase`, a `FieldBlock`, a prefab. */
  type ItemId = nat
  type BlockId = nat
  type PrefabId = nat

  /** `ItemInfo`: the prefab to instantiate and the drop limit, `-1` meaning unlimited. */
  datatype ItemInfo = ItemInfo(prefab: PrefabId, maxDropNum: int)

  /** `DropWeightParm`: one entry of a weight table. */
  datatype DropWeightParam = DropWeightParam(itemID: int, weight: real)

  /** What the manager tells the outside world, in order. */
  datatype Notice =
    | Instantiated(prefab: PrefabId)          // `Instantiate(itemInfos[id].prefab)`
    | ItemDropped(block: BlockId, item: ItemId) // `block.OnItemDropped(item)`
    | ItemExited(block: BlockId)               // `block.OnItemExit()`
    | ItemDestroyed(item: ItemId)              // `Destroy(item.gameObject)`

  /** The manager's mutable bookkeeping: `itemStock`, `itemFieldMap` and the notices sent so far. */
  datatype Ledger = Ledger(stock: seq<int>, field: map<ItemId, BlockId>, log: seq<Notice>)

  /** Every id of the table indexes a list of length `n`. */
  predicate IdsWithin(ps: seq<DropWeightParam>, n: int) {
    forall k :: 0 <= k < |ps| ==> 0 <= ps[k].itemID < n
  }

  predicate NonNegativeWeights(ps: seq<DropWeightParam>) {
    forall k :: 0 <= k < |ps| ==> ps[k].weight >= 0.0
  }

  // ---------------------------------------------------------------------------
  // Stock

  /** `InitStock`: one entry per catalog item, its `maxDropNum`. */
  function InitialStock(infos: seq<ItemInfo>): (stock: seq<int>)
    ensures |stock| == |infos|
    ensures forall i :: 0 <= i < |infos| ==> stock[i] == infos[i].maxDropNum
  {
    seq(|infos|, i requires 0 <= i < |infos| => infos[i].maxDropNum)
  }

  /** An item can still be drawn when its stock is unlimited (negative) or positive. */
  predicate Eligible(stock: seq<int>, id: int) {
    0 <= id < |stock| && stock[id] != 0
  }

  /** The stock update after a successful draw: a positive count drops by one, anything else stays. */
  function Consume(stock: seq<int>, id: nat): (t: seq<int>)
    requires id < |stock|
    ensures |t| == |stock|
    ensures forall j :: 0 <= j < |stock| && j != id ==> t[j] == stock[j]
    ensures stock[id] > 0 ==> t[id] == stock[id] - 1
    ensures stock[id] <= 0 ==> t[id] == stock[id]
  {
    if stock[id] > 0 then stock[id := stock[id] - 1] else stock
  }

  /** Consuming never exhausts an unlimited item and never takes a finite count below zero. */
  lemma ConsumeKeepsStockSound(stock: seq<int>, id: nat)
    requires id < |stock|
    ensures forall j :: 0 <= j < |stock| && stock[j] < 0 ==> Consume(stock, id)[j] == stock[j]
    ensures forall j :: 0 <= j < |stock| && stock[j] >= 0 ==> 0 <= Consume(stock, id)[j] <= stock[j]
    ensures stock[id] == 1 ==> !Eligible(Consume(stock, id), id)
    ensures stock[id] < 0 ==> Eligible(Consume(stock, id), id)
  {
  }

  // ---------------------------------------------------------------------------
  // The out-of-stock filter

  /** `filtered.RemoveAll(param => itemStock[param.itemID] == 0)`: order is kept. */
  function Filter(ps: seq<DropWeightParam>, stock: seq<int>): (fs: seq<DropWeightParam>)
    requires IdsWithin(ps, |stock|)
    ensures |fs| <= |ps|
    ensures forall k :: 0 <= k < |fs| ==> fs[k] in ps && Eligible(stock, fs[k].itemID)
    ensures forall k :: 0 <= k < |ps| && stock[ps[k].itemID] != 0 ==> ps[k] in fs
  {
    if |ps| == 0 then []
    else
      var rest := Filter(ps[1..], stock);
      if stock[ps[0].itemID] == 0 then rest else [ps[0]] + rest
  }

  /** A one-entry table keeps its entry exactly when the entry is in stock. */
  lemma FilterOne(p: DropWeightParam, stock: seq<int>)
    requires 0 <= p.itemID < |stock|
    ensures Filter([p], stock) == if stock[p.itemID] == 0 then [] else [p]
  {
  }

  /**
   * Filtering distributes over concatenation: together with `FilterOne`
   * this fixes the order and the multiplicity of the kept entries.
   */
  lemma {:induction false} FilterAppend(ps: seq<DropWeightParam>, qs: seq<DropWeightParam>, stock: seq<int>)
    requires IdsWithin(ps, |stock|) && IdsWithin(qs, |stock|)
    ensures IdsWithin(ps + qs, |stock|)
    ensures Filter(ps + qs, stock) == Filter(ps, stock) + Filter(qs, stock)
    decreases |ps|
  {
    if |ps| > 0 {
      assert (ps + qs)[1..] == ps[1..] + qs;
      FilterAppend(ps[1..], qs, stock);
    } else {
      assert ps + qs == qs;
    }
  }

  /** The filter is empty exactly when no entry of the table is eligible. */
  lemma FilterEmptyIff(ps: seq<DropWeightParam>, stock: seq<int>)
    requires IdsWithin(ps, |stock|)
    ensures |Filter(ps, stock)| == 0 <==> forall k :: 0 <= k < |ps| ==> stock[ps[k].itemID] == 0
  {
    var fs := Filter(ps, stock);
    if |fs| > 0 {
      assert fs[0] in ps;
      var k :| 0 <= k < |ps| && ps[k] == fs[0];
      assert stock[ps[k].itemID] != 0;
    }
  }

  // ---------------------------------------------------------------------------
  // The cumulative-weight draw

  /** The running weight sum of the first `n` entries. */
  function Prefix(ps: seq<DropWeightParam>, n: nat): (r: real)
    requires n <= |ps|
    ensures NonNegativeWeights(ps) ==> r >= 0.0
    ensures NonNegativeWeights(ps) && n > 0 ==> r >= ps[n - 1].weight
  {
    if n == 0 then 0.0 else Prefix(ps, n - 1) + ps[n - 1].weight
  }

  /** `weightSum`: the total weight of a table. */
  function Sum(ps: seq<DropWeightParam>): (r: real)
    ensures |ps| == 0 ==> r == 0.0
    ensures NonNegativeWeights(ps) ==> r >= 0.0
    ensures NonNegativeWeights(ps) ==> forall k :: 0 <= k < |ps| ==> Prefix(ps, k) <= r
  {
    PrefixBoundedBySum(ps, |ps|);
    Prefix(ps, |ps|)
  }

  /** With non-negative weights, every running sum is at most the total. */
  lemma {:induction false} PrefixBoundedBySum(ps: seq<DropWeightParam>, n: nat)
    requires n <= |ps|
    ensures NonNegativeWeights(ps) ==> forall k :: 0 <= k <= n ==> Prefix(ps, k) <= Prefix(ps, n)
    decreases n
  {
    if n > 0 && NonNegativeWeights(ps) {
      PrefixBoundedBySum(ps, n - 1);
    }
  }

  /** The running sum through entry `j` is strictly greater than `x`: the loop's `random < currentWeight`. */
  predicate Above(ps: seq<DropWeightParam>, x: real, j: nat)
    requires j < |ps|
  {
    x < Prefix(ps, j + 1)
  }

  /**
   * The index the second loop of `DrawItemType` stops at when started from
   * `i`: the first index whose running sum is strictly greater than `x`, or
   * the last index when none is.
   */
  function DrawIndexFrom(ps: seq<DropWeightParam>, x: real, i: nat): (k: nat)
    requires i < |ps|
    ensures i <= k < |ps|
    ensures forall j :: i <= j < k ==> !Above(ps, x, j)
    ensures Above(ps, x, k) || k == |ps| - 1
    decreases |ps| - i
  {
    if Above(ps, x, i) || i == |ps| - 1 then i else DrawIndexFrom(ps, x, i + 1)
  }

  function DrawIndex(ps: seq<DropWeightParam>, x: real): nat
    requires |ps| > 0
  {
    DrawIndexFrom(ps, x, 0)
  }

  /**
   * What `DrawItemType` returns when `Random.Range(0, weightSum)` yields
   * `rand(weightSum)`: `-1` for an empty list, else the id of the drawn entry.
   */
  function Drawn(ps: seq<DropWeightParam>, rand: real -> real): (id: int)
    ensures |ps| == 0 ==> id == -1
    ensures |ps| > 0 ==> exists k :: 0 <= k < |ps| && id == ps[k].itemID
  {
    if |ps| == 0 then -1 else ps[DrawIndex(ps, rand(Sum(ps)))].itemID
  }

  /** With non-negative ids, the draw yields `-1` exactly when the list is empty. */
  lemma DrawnNoneIffEmpty(ps: seq<DropWeightParam>, rand: real -> real)
    requires forall k :: 0 <= k < |ps| ==> ps[k].itemID >= 0
    ensures Drawn(ps, rand) == -1 <==> |ps| == 0
    ensures |ps| > 0 ==> Drawn(ps, rand) >= 0
  {
  }

  /**
   * The drawn index is the first whose running sum exceeds `x`; when no
   * running sum does, it is the last index.
   */
  lemma DrawIndexIsFirstAbove(ps: seq<DropWeightParam>, x: real, k: nat)
    requires |ps| > 0
    ensures DrawIndex(ps, x) == k <==>
      || (k < |ps| && Above(ps, x, k) && forall j :: 0 <= j < k ==> !Above(ps, x, j))
      || (k == |ps| - 1 && forall j :: 0 <= j < |ps| ==> !Above(ps, x, j))
  {
  }

  /** With non-negative weights the running sums never decrease. */
  lemma {:induction false} PrefixMonotone(ps: seq<DropWeightParam>, i: nat, j: nat)
    requires NonNegativeWeights(ps)
    requires i <= j <= |ps|
    ensures Prefix(ps, i) <= Prefix(ps, j)
    decreases j
  {
    if i < j {
      PrefixMonotone(ps, i, j - 1);
    }
  }

  /** All-zero weights add up to zero. */
  lemma {:induction false} ZeroWeightsSumToZero(ps: seq<DropWeightParam>, n: nat)
    requires n <= |ps|
    requires forall k :: 0 <= k < |ps| ==> ps[k].weight == 0.0
    ensures Prefix(ps, n) == 0.0
  {
    if n > 0 {
      ZeroWeightsSumToZero(ps, n - 1);
    }
  }

  /**
   * The fallback: with non-negative weights, a random value at or above the
   * total (`Random.Range` includes its upper bound) selects the last entry.
   */
  lemma DrawFallbackIsLast(ps: seq<DropWeightParam>, x: real)
    requires |ps| > 0 && NonNegativeWeights(ps)
    requires x >= Sum(ps)
    ensures DrawIndex(ps, x) == |ps| - 1
  {
    var d := DrawIndex(ps, x);
    PrefixMonotone(ps, d + 1, |ps|);
  }

  /** When every weight is zero, any non-negative random value selects the last entry. */
  lemma DrawAllZeroWeightsIsLast(ps: seq<DropWeightParam>, x: real)
    requires |ps| > 0 && x >= 0.0
    requires forall k :: 0 <= k < |ps| ==> ps[k].weight == 0.0
    ensures DrawIndex(ps, x) == |ps| - 1
  {
    ZeroWeightsSumToZero(ps, |ps|);
    DrawFallbackIsLast(ps, x);
  }

  /**
   * A random value strictly inside `[0, total)` never selects an entry of
   * weight zero: only positively weighted entries can be drawn.
   */
  lemma DrawSelectsPositiveWeight(ps: seq<DropWeightParam>, x: real)
    requires |ps| > 0 && NonNegativeWeights(ps)
    requires 0.0 <= x < Sum(ps)
    ensures ps[DrawIndex(ps, x)].weight > 0.0
  {
    var d := DrawIndex(ps, x);
    if !Above(ps, x, d) {
      assert false;
    }
    assert Prefix(ps, d + 1) == Prefix(ps, d) + ps[d].weight;
    if d > 0 {
      assert !Above(ps, x, d - 1);
    }
  }

  // ---------------------------------------------------------------------------
  // One drop attempt

  /** The id a drop attempt draws from `table` given the current stock. */
  function DrawnFor(stock: seq<int>, table: seq<DropWeightParam>, rand: real -> real): (id: int)
    requires IdsWithin(table, |stock|)
    ensures id == -1 || (Eligible(stock, id) && exists k :: 0 <= k < |table| && table[k].itemID == id)
  {
    var fs := Filter(table, stock);
    var id := Drawn(fs, rand);
    if |fs| > 0 then
      var k :| 0 <= k < |fs| && id == fs[k].itemID;
      assert fs[k] in table;
      id
    else id
  }

  /**
   * `DropItem`: with a free block, filter out exhausted items, draw, bound
   * check, consume one unit of stock, instantiate, and — when the instance
   * is an `ItemBase` — drop it into the block and track it.
   */
  function AttemptDrop(s: Ledger, infos: seq<ItemInfo>, table: seq<DropWeightParam>,
                       block: Option<BlockId>, rand: real -> real, spawned: Option<ItemId>): (t: Ledger)
    requires |s.stock| == |infos| && IdsWithin(table, |infos|)
    ensures |t.stock| == |s.stock|
    ensures |s.log| <= |t.log| <= |s.log| + 2 && t.log[..|s.log|] == s.log
    ensures forall item :: item in s.field && Some(item) != spawned ==> item in t.field && t.field[item] == s.field[item]
    ensures t.field.Keys <= s.field.Keys + (if spawned.Some? then {spawned.value} else {})
    ensures spawned.None? ==> t.field == s.field
  {
    if block.None? then s
    else
      var id := DrawnFor(s.stock, table, rand);
      if id < 0 || id >= |infos| then s
      else
        var stock := Consume(s.stock, id);
        var log := s.log + [Instantiated(infos[id].prefab)];
        match spawned
        case None => Ledger(stock, s.field, log)
        case Some(item) => Ledger(stock, s.field[item := block.value], log + [ItemDropped(block.value, item)])
  }

  /** The drawn id is either `-1`, when nothing is eligible, or an eligible id of the table. */
  lemma DrawnForIsEligible(stock: seq<int>, table: seq<DropWeightParam>, rand: real -> real)
    requires IdsWithin(table, |stock|)
    ensures var id := DrawnFor(stock, table, rand);
      && (id == -1 <==> forall k :: 0 <= k < |table| ==> stock[table[k].itemID] == 0)
      && (id != -1 ==> Eligible(stock, id) && exists k :: 0 <= k < |table| && table[k].itemID == id)
  {
    var fs := Filter(table, stock);
    FilterEmptyIff(table, stock);
    if |fs| > 0 {
      var k :| 0 <= k < |fs| && Drawn(fs, rand) == fs[k].itemID;
      assert fs[k] in table && Eligible(stock, fs[k].itemID);
    }
  }

  /**
   * A drop attempt leaves everything unchanged exactly when there is no free
   * block or no eligible item; the bound check never rejects a drawn id.
   */
  lemma AttemptDropNoOpIff(s: Ledger, infos: seq<ItemInfo>, table: seq<DropWeightParam>,
                           block: Option<BlockId>, rand: real -> real, spawned: Option<ItemId>)
    requires |s.stock| == |infos| && IdsWithin(table, |infos|)
    ensures AttemptDrop(s, infos, table, block, rand, spawned) == s <==>
      block.None? || forall k :: 0 <= k < |table| ==> s.stock[table[k].itemID] == 0
  {
    DrawnForIsEligible(s.stock, table, rand);
    var id := DrawnFor(s.stock, table, rand);
    if block.Some? && id != -1 {
      assert |AttemptDrop(s, infos, table, block, rand, spawned).log| > |s.log|;
    }
  }

  /**
   * A successful attempt: the drawn item was eligible; its stock drops by one
   * if finite and stays if unlimited, no other entry changes; it is
   * instantiated once; it is tracked in the drawn block exactly when the
   * instance is an `ItemBase`, stock being consumed either way.
   */
  lemma AttemptDropEffect(s: Ledger, infos: seq<ItemInfo>, table: seq<DropWeightParam>,
                          block: Option<BlockId>, rand: real -> real, spawned: Option<ItemId>)
    requires |s.stock| == |infos| && IdsWithin(table, |infos|)
    requires block.Some?
    requires exists k :: 0 <= k < |table| && s.stock[table[k].itemID] != 0
    ensures var id := DrawnFor(s.stock, table, rand);
      var t := AttemptDrop(s, infos, table, block, rand, spawned);
      && 0 <= id < |infos| && s.stock[id] != 0
      && (exists k :: 0 <= k < |table| && table[k].itemID == id)
      && |t.stock| == |s.stock|
      && (s.stock[id] > 0 ==> t.stock[id] == s.stock[id] - 1)
      && (s.stock[id] < 0 ==> t.stock[id] == s.stock[id])
      && (forall j :: 0 <= j < |s.stock| && j != id ==> t.stock[j] == s.stock[j])
      && t.field == (if spawned.Some? then s.field[spawned.value := block.value] else s.field)
      && t.log == s.log + [Instantiated(infos[id].prefab)] +
                  (if spawned.Some? then [ItemDropped(block.value, spawned.value)] else [])
  {
    DrawnForIsEligible(s.stock, table, rand);
  }

  /** An item whose stock is exhausted is never drawn. */
  lemma ExhaustedNeverDrawn(stock: seq<int>, table: seq<DropWeightParam>, rand: real -> real, id: nat)
    requires IdsWithin(table, |stock|)
    requires id < |stock| && stock[id] == 0
    ensures DrawnFor(stock, table, rand) != id
  {
    DrawnForIsEligible(stock, table, rand);
  }

  /**
   * A catalog of one single-drop item and one unlimited item, drawn from with
   * equal weights: once item 0 has dropped, every further draw yields item 1.
   */
  lemma SingleDropThenUnlimited(rand: real -> real)
    ensures var table := [DropWeightParam(0, 1.0), DropWeightParam(1, 1.0)];
      && Consume([1, -1], 0) == [0, -1]
      && DrawnFor([0, -1], table, rand) == 1
      && Consume([0, -1], 1) == [0, -1]
  {
    var table := [DropWeightParam(0, 1.0), DropWeightParam(1, 1.0)];
    assert Filter(table[1..], [0, -1]) == [DropWeightParam(1, 1.0)];
  }

  // ---------------------------------------------------------------------------
  // Items leaving the field, and a new game

  /**
   * `OnItemExitField(item, removeFromMap)`: a tracked item's block is told the
   * item left, and the entry is removed unless `removeFromMap` is false.
   */
  function ExitField(s: Ledger, item: ItemId, removeFromMap: bool): (t: Ledger)
    ensures t.stock == s.stock && t.field.Keys <= s.field.Keys
    ensures |s.log| <= |t.log| <= |s.log| + 1 && t.log[..|s.log|] == s.log
    ensures t.field.Keys == (if removeFromMap then s.field.Keys - {item} else s.field.Keys)
  {
    if item in s.field then
      Ledger(s.stock,
             if removeFromMap then s.field - {item} else s.field,
             s.log + [ItemExited(s.field[item])])
    else s
  }

  /**
   * Leaving the field: nothing happens for an untracked item; a tracked one
   * notifies its block exactly once and stays tracked iff `removeFromMap` is
   * false; the stock and every other entry are untouched.
   */
  lemma ExitFieldEffect(s: Ledger, item: ItemId, removeFromMap: bool)
    ensures var t := ExitField(s, item, removeFromMap);
      && t.stock == s.stock
      && (item !in s.field ==> t == s)
      && (item in s.field ==> t.log == s.log + [ItemExited(s.field[item])])
      && (item in t.field <==> item in s.field && !removeFromMap)
      && (forall other :: other != item ==> (other in t.field <==> other in s.field))
      && (forall other :: other in t.field ==> t.field[other] == s.field[other])
  {
  }

  /** Leaving the field twice sends the block one notification: the second exit is a no-op. */
  lemma ExitFieldIdempotent(s: Ledger, item: ItemId)
    ensures ExitField(ExitField(s, item, true), item, true) == ExitField(s, item, true)
  {
  }

  predicate Distinct(order: seq<ItemId>) {
    forall i, j :: 0 <= i < j < |order| ==> order[i] != order[j]
  }

  /** The notices of tearing down the tracked items in enumeration order: block told, then item destroyed. */
  function TeardownLog(order: seq<ItemId>, field: map<ItemId, BlockId>): (log: seq<Notice>)
    requires forall i :: 0 <= i < |order| ==> order[i] in field
    ensures |log| == 2 * |order|
  {
    if |order| == 0 then []
    else
      var last := order[|order| - 1];
      TeardownLog(order[..|order| - 1], field) + [ItemExited(field[last]), ItemDestroyed(last)]
  }

  /** Tearing down one more item appends its block's exit notice and then its destruction. */
  lemma TeardownLogSnoc(order: seq<ItemId>, item: ItemId, field: map<ItemId, BlockId>)
    requires forall i :: 0 <= i < |order| ==> order[i] in field
    requires item in field
    ensures forall i :: 0 <= i < |order + [item]| ==> (order + [item])[i] in field
    ensures TeardownLog(order + [item], field) == TeardownLog(order, field) + [ItemExited(field[item]), ItemDestroyed(item)]
  {
    assert (order + [item])[..|order|] == order;
  }

  /** The teardown log holds, for the i-th item, its block's exit notice and then its destruction. */
  lemma {:induction false} TeardownLogAt(order: seq<ItemId>, field: map<ItemId, BlockId>)
    requires forall i :: 0 <= i < |order| ==> order[i] in field
    ensures |TeardownLog(order, field)| == 2 * |order|
    ensures forall i :: 0 <= i < |order| ==>
      TeardownLog(order, field)[2 * i] == ItemExited(field[order[i]]) &&
      TeardownLog(order, field)[2 * i + 1] == ItemDestroyed(order[i])
  {
    if |order| > 0 {
      TeardownLogAt(order[..|order| - 1], field);
    }
  }

  /** Each enumerated item is destroyed exactly once, and nothing else is. */
  lemma {:induction false} TeardownDestroysEachOnce(order: seq<ItemId>, field: map<ItemId, BlockId>, item: ItemId)
    requires forall i :: 0 <= i < |order| ==> order[i] in field
    requires Distinct(order)
    ensures multiset(TeardownLog(order, field))[ItemDestroyed(item)] == if item in order then 1 else 0
  {
    if |order| > 0 {
      var init, last := order[..|order| - 1], order[|order| - 1];
      assert order == init + [last];
      assert Distinct(init) && last !in init by {
        assert forall i :: 0 <= i < |init| ==> init[i] == order[i];
      }
      TeardownDestroysEachOnce(init, field, item);
      var tail := [ItemExited(field[last]), ItemDestroyed(last)];
      CountAppend(TeardownLog(init, field), tail, ItemDestroyed(item));
    }
  }

  /** Occurrences in a concatenation add up. */
  lemma CountAppend(log: seq<Notice>, tail: seq<Notice>, n: Notice)
    ensures multiset(log + tail)[n] == multiset(log)[n] + multiset(tail)[n]
  {
  }

  /**
   * `OnNewGameStarted`, the items enumerated in `order`: every tracked item
   * is torn down, the map is emptied and the stock is refilled.
   */
  function NewGame(s: Ledger, order: seq<ItemId>, infos: seq<ItemInfo>): (t: Ledger)
    requires forall i :: 0 <= i < |order| ==> order[i] in s.field
    ensures t.field == map[]
    ensures |t.stock| == |infos| && forall i :: 0 <= i < |infos| ==> t.stock[i] == infos[i].maxDropNum
  {
    Ledger(InitialStock(infos), map[], s.log + TeardownLog(order, s.field))
  }

  /**
   * A new game started with `order` enumerating the tracked items once each:
   * every tracked item's block gets one exit notice, immediately followed by
   * the item's destruction, and each item is destroyed exactly once.
   */
  lemma NewGameTearsDownEveryItem(s: Ledger, order: seq<ItemId>, infos: seq<ItemInfo>, item: ItemId)
    requires Distinct(order) && (forall i :: 0 <= i < |order| ==> order[i] in s.field)
    requires forall x :: x in s.field ==> x in order
    requires item in s.field
    ensures var t := NewGame(s, order, infos);
      && |order| == |s.field|
      && |t.log| == |s.log| + 2 * |order|
      && (exists i :: 0 <= i < |order| && order[i] == item &&
            t.log[|s.log| + 2 * i] == ItemExited(s.field[item]) &&
            t.log[|s.log| + 2 * i + 1] == ItemDestroyed(item))
      && multiset(t.log[|s.log|..])[ItemDestroyed(item)] == 1
  {
    var t := NewGame(s, order, infos);
    TeardownLogAt(order, s.field);
    TeardownDestroysEachOnce(order, s.field, item);
    assert t.log[|s.log|..] == TeardownLog(order, s.field);
    DistinctCoversKeys(order, s.field);
    var i :| 0 <= i < |order| && order[i] == item;
  }

  /** A duplicate-free enumeration of exactly the keys of a map is as long as the map. */
  lemma {:induction false} DistinctCoversKeys(order: seq<ItemId>, field: map<ItemId, BlockId>)
    requires Distinct(order) && (forall i :: 0 <= i < |order| ==> order[i] in field)
    requires forall x :: x in field ==> x in order
    ensures |order| == |field|
    decreases |order|
  {
    if |order| == 0 {
      assert field.Keys == {};
    } else {
      var last := order[|order| - 1];
      var init := order[..|order| - 1];
      var rest := field - {last};
      forall x | x in rest ensures x in init {
        var i :| 0 <= i < |order| && order[i] == x;
        assert i != |order| - 1;
      }
      forall i | 0 <= i < |init| ensures init[i] in rest {
        assert order[i] != last;
      }
      DistinctCoversKeys(init, rest);
    }
  }
}
