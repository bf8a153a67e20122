# NineSquareShoot item drops, in Dafny

This project models the item-drop core of the game NineSquareShoot and
proves properties of that model.

- The item manager `ItemManager` decides when an item drops. Two
  independent triggers start a drop: a timer that completes and a score
  that reaches the next threshold.
- It decides which item drops. A cumulative-weight draw runs over a weight
  table after the items whose stock ran out are filtered away. A stock of
  `-1` means unlimited.
- It tracks every dropped item together with the field block that holds
  it, until the item leaves the field or a new game starts.
- It relies on three utility types. `Timer` accumulates elapsed time
  against an interval. `Pool<T>` is a fixed-capacity object pool. `Int2`
  is a pair of `int`s.

Modules:

- `Wrappers` (wrappers.dfy) defines `Option` and `Result`.
- `Int2s` (int2.dfy) models the integer operators of `Int2` as pure
  functions. They use 32-bit wrap-around and C#'s truncating `/`. The
  `==` operator is modelled exactly as written.
- `Timing` (timer.dfy) models the `Timer` class. Its invariant is that
  `progress == elapsed / interval`.
- `Pooling` (pool.dfy) models the `Pool` class over an array of `IsUsing`
  flags, each with its parent transform and pose.
- `ItemDrops` (item_drops.dfy) holds the values behind the manager: the
  catalog, the weight tables, the draw, the out-of-stock filter, and the
  effect of each operation on a `Ledger`. A `Ledger` is the stock list, the
  item-to-block map and the log of notices.
- `ItemManagement` (item_manager.dfy) models the `ItemManager` class. Its
  methods promise that the new `State()` equals an `ItemDrops` function of
  the old state. The properties are proved as lemmas about those
  functions.

Engine collaborators become inputs:

- `block` is the block `FieldManager.PickOneAvailableBlockRandomly`
  returns. It may be absent.
- `rand` is a function. `rand(weightSum)` is the value
  `Random.Range(0, weightSum)` yields.
- `spawned` is the `ItemBase` that `Instantiate` and `GetComponent`
  produce, if any.
- `deltaTime` is `Time.deltaTime`.
- Calls out of the manager are appended to `notices`: `Instantiate`,
  `block.OnItemDropped`, `block.OnItemExit` and `Destroy`.
- Items, blocks, prefabs and transforms are opaque natural numbers.
- The C# `float` values (weights, times) are modelled as `real`.

Behaviour of the code that a reader might not expect, kept as written:

- `OnNewGameStarted` resets the stock and the map. It does not reset the
  score cursor or the timer
  (Assets/Scripts/Item/ItemManager.cs:185-196).
- The stock is decremented only when it is positive. No failure is raised
  for an exhausted entry. Under the model's preconditions an exhausted
  entry cannot be drawn anyway (`ItemDrops.ExhaustedNeverDrawn`).
- Stock is consumed before instantiation is known to succeed
  (Assets/Scripts/Item/ItemManager.cs:99-114). A failed instantiation
  therefore loses one unit of stock. The model keeps this behaviour, and
  `ItemDrops.AttemptDropEffect` states it.
- `Random.Range(float, float)` may return its upper bound. `rand` is
  therefore unconstrained, and the lemmas name the range they need.
- The score cursor `nextDropItemScore` is a C# `int` advanced by an unchecked
  `+=` (Assets/Scripts/Item/ItemManager.cs:169). Once it passes
  `int.MaxValue` it wraps to a negative value. Every score change at or
  above that value then triggers a drop, until the cursor, rising one
  interval per drop, climbs back past the score, about 2^32 / interval drops
  later (`ItemManagement.AdvanceCursor`, `ItemManagement.CursorOverflowExample`).
- `Int2.Equals(obj)` evaluates `(Int2)obj == this`. The argument is
  therefore on the left of the as-written `==`.

## Model

| member | source | states |
|---|---|---|
| `Int2s.Wrap` | Assets/Scripts/Utility.cs:236-254 | unchecked 32-bit arithmetic: the result differs from the exact value by a multiple of 2^32, and equals it when the exact value fits in an `int` |
| `Int2s.Add` | Assets/Scripts/Utility.cs:236-239 | `+` is componentwise, and exact whenever the exact component sums fit in an `int` |
| `Int2s.Neg` | Assets/Scripts/Utility.cs:241-244 | unary `-` negates each component; `int.MinValue` is its own negation |
| `Int2s.Sub` | Assets/Scripts/Utility.cs:246-249 | `a - b`, defined as `a + (-b)`, is the componentwise wrapped difference, `int.MinValue` included |
| `Int2s.NegNeg` | Assets/Scripts/Utility.cs:241-244 | negating twice gives back the original value, with wrap-around |
| `Int2s.SubSelf` | Assets/Scripts/Utility.cs:246-249 | `a - a` is `(0, 0)` for every `a` |
| `Int2s.Scale` | Assets/Scripts/Utility.cs:251-254 | `v * i` is componentwise, and exact when each product fits in an `int` |
| `Int2s.ScaleLeft` | Assets/Scripts/Utility.cs:261-264 | `i * v` equals `v * i`, componentwise `Wrap(i * v.x)` and `Wrap(i * v.y)` |
| `Int2s.TruncDiv` | Assets/Scripts/Utility.cs:271-274 | C# integer `/`: the remainder `a - q*d` is smaller than `d` in magnitude and zero or of the sign of `a` (truncation toward zero) |
| `Int2s.QuotientInRange` | Assets/Scripts/Utility.cs:271-274 | a truncated quotient of an `int` fits in an `int`, except for `int.MinValue / -1` |
| `Int2s.Div` | Assets/Scripts/Utility.cs:271-274 | `a / d` throws on `d == 0`, fails on `int.MinValue / -1`, and otherwise is the componentwise truncated quotient |
| `Int2s.Equal` | Assets/Scripts/Utility.cs:281-284 | the as-written `==` can hold only when `rhs` lies on the diagonal and `lhs.x` equals it, and compares a value with itself by `v.x == v.y` |
| `Int2s.NotEqual` | Assets/Scripts/Utility.cs:286-289 | `!=` is the negation of the as-written `==` (`lhs.x == rhs.x && lhs.x == rhs.y`) |
| `Int2s.Equals` | Assets/Scripts/Utility.cs:291-300 | `Equals` is false for null or another type, and for a boxed `Int2` it is `obj == this` with the argument on the left |
| `Int2s.EqualReflexiveOnlyOnDiagonal` | Assets/Scripts/Utility.cs:281-284 | as written, `v == v` holds if and only if `v.x == v.y` |
| `Int2s.EqualAsWrittenCounterexamples` | Assets/Scripts/Utility.cs:281-284 | `(0,1) == (0,1)` is false and `(1,0) == (1,1)` is true as written; the intended comparison decides both the other way |
| `Int2s.EqualsDisagreesWithOperator` | Assets/Scripts/Utility.cs:291-300 | `(1,1).Equals((1,2))` is true while `(1,1) == (1,2)` is false |
| `Int2s.EqualIntended` | Assets/Scripts/Utility.cs:281-284 | the evidently intended `==` holds if and only if both components are equal |
| `Timing.CompleteIffElapsedReachesInterval` | Assets/Scripts/Utility.cs:81 | with a positive interval, `Progress >= 1` holds exactly when elapsed has reached the interval |
| `Timing.Timer.IsComplete` | Assets/Scripts/Utility.cs:81 | with a positive interval and current progress, the timer is complete exactly when elapsed has reached the interval |
| `Timing.Timer.constructor` | Assets/Scripts/Utility.cs:83-86 | the interval is stored, elapsed and progress start at zero, and the progress invariant holds |
| `Timing.Timer.UpdateProgress` | Assets/Scripts/Utility.cs:109-112 | progress becomes `elapsed / interval` |
| `Timing.Timer.SetInterval` | Assets/Scripts/Utility.cs:61-69 | the `Interval` setter stores the value, keeps elapsed, and recomputes progress |
| `Timing.Timer.SetElapsed` | Assets/Scripts/Utility.cs:70-78 | the `Elapsed` setter stores the value, keeps the interval, and recomputes progress |
| `Timing.Timer.Step` | Assets/Scripts/Utility.cs:88-91 | `Step()` adds `deltaTime` to elapsed; with a positive interval, the timer is then complete exactly when elapsed has reached the interval |
| `Timing.Timer.Increment` | Assets/Scripts/Utility.cs:113-117 | `timer++` steps by `deltaTime` and yields the same timer |
| `Timing.Timer.StepScaled` | Assets/Scripts/Utility.cs:93-96 | `Step(s)` adds `deltaTime * s` to elapsed |
| `Timing.Timer.Reset` | Assets/Scripts/Utility.cs:98-101 | elapsed and progress become zero, the interval is kept, and the timer is not complete |
| `Timing.Timer.ResetInterval` | Assets/Scripts/Utility.cs:103-107 | the interval is replaced, elapsed and progress become zero, and the timer is not complete |
| `Pooling.FirstFree` | Assets/Scripts/Utility.cs:150-164 | the chosen index is the first one not in use; there is none exactly when every object is in use |
| `Pooling.Claim` | Assets/Scripts/Utility.cs:150-164 | the flags after one `Get`: the first free object becomes used, no flag is cleared, no other flag changes |
| `Pooling.ClaimN` | Assets/Scripts/Utility.cs:150-164 | the flags after `n` successive `Get`s: same length, and an object in use stays in use |
| `Pooling.FirstFreeFrom` | Assets/Scripts/Utility.cs:152-161 | the scan from position `i` finds the first free index at or after `i`, given that all before `i` are in use |
| `Pooling.ClaimNFromFresh` | Assets/Scripts/Utility.cs:139-163 | `k` gets from a fresh pool of `m` objects leave exactly the first `k` objects in use |
| `Pooling.PoolCapacity` | Assets/Scripts/Utility.cs:139-163 | for `i < maxCount`, the i-th get from a fresh pool of `maxCount` objects yields object i |
| `Pooling.PoolExhausted` | Assets/Scripts/Utility.cs:139-163 | after `maxCount` gets from a fresh pool of `maxCount` objects, the next get yields null |
| `Pooling.Pool.constructor` | Assets/Scripts/Utility.cs:139-148 | `Awake` builds `maxCount` objects under the pool's transform, none in use |
| `Pooling.Pool.Get` | Assets/Scripts/Utility.cs:150-164 | returns the first object not in use and marks it used, or null when all are used; no other object changes |
| `Pooling.Pool.GetWithParent` | Assets/Scripts/Utility.cs:166-174 | returns what `Get()` returns; a returned object is also reparented |
| `Pooling.Pool.GetPlaced` | Assets/Scripts/Utility.cs:176-186 | returns what `Get()` returns; a returned object also receives the pose |
| `Pooling.Pool.GetPlacedWithParent` | Assets/Scripts/Utility.cs:188-198 | returns what `Get()` returns; a returned object also receives the pose and the parent |
| `ItemDrops.InitialStock` | Assets/Scripts/Item/ItemManager.cs:70-77 | one stock entry per catalog item, equal to its `maxDropNum` |
| `ItemDrops.Consume` | Assets/Scripts/Item/ItemManager.cs:99-103 | a positive entry drops by one, a zero or unlimited entry stays, and no other entry changes |
| `ItemDrops.ConsumeKeepsStockSound` | Assets/Scripts/Item/ItemManager.cs:99-103 | unlimited entries stay unlimited and eligible, finite ones never go below zero, and a last unit leaves the item ineligible |
| `ItemDrops.Filter` | Assets/Scripts/Item/ItemManager.cs:88-90 | every kept entry comes from the table and is in stock, and every in-stock entry of the table is kept |
| `ItemDrops.FilterOne` | Assets/Scripts/Item/ItemManager.cs:88-90 | a one-entry table keeps its entry exactly when the item's stock is not 0 |
| `ItemDrops.FilterAppend` | Assets/Scripts/Item/ItemManager.cs:88-90 | filtering a concatenation is the concatenation of the filtered parts, so with `FilterOne` the kept entries keep their order and their duplicates |
| `ItemDrops.FilterEmptyIff` | Assets/Scripts/Item/ItemManager.cs:88-90 | the filtered list is empty exactly when every table entry is out of stock |
| `ItemDrops.Prefix` | Assets/Scripts/Item/ItemManager.cs:130-134 | `currentWeight` after `n` entries: non-negative, and at least the last added weight, when the weights are non-negative |
| `ItemDrops.Sum` | Assets/Scripts/Item/ItemManager.cs:124-128 | `weightSum`: zero for an empty list; with non-negative weights it is non-negative and bounds every running sum |
| `ItemDrops.PrefixBoundedBySum` | Assets/Scripts/Item/ItemManager.cs:124-134 | with non-negative weights, no running sum at or before `n` exceeds the running sum at `n` |
| `ItemDrops.DrawIndexFrom` | Assets/Scripts/Item/ItemManager.cs:131-141 | the second loop stops at the first index whose running sum exceeds the random value, else at the last index |
| `ItemDrops.Drawn` | Assets/Scripts/Item/ItemManager.cs:117-142 | `-1` for an empty list, otherwise the `itemID` of some entry of the list |
| `ItemDrops.DrawnNoneIffEmpty` | Assets/Scripts/Item/ItemManager.cs:117-122 | with non-negative ids, the draw yields `-1` exactly when the list is empty |
| `ItemDrops.DrawIndexIsFirstAbove` | Assets/Scripts/Item/ItemManager.cs:130-141 | `k` is drawn if and only if it is the first index whose running sum is strictly above the random value, or the last index when no running sum is |
| `ItemDrops.PrefixMonotone` | Assets/Scripts/Item/ItemManager.cs:124-134 | with non-negative weights the running weight sums never decrease |
| `ItemDrops.DrawFallbackIsLast` | Assets/Scripts/Item/ItemManager.cs:130-141 | with non-negative weights, a random value at or above the total selects the last entry |
| `ItemDrops.DrawAllZeroWeightsIsLast` | Assets/Scripts/Item/ItemManager.cs:130-141 | when every weight is zero, any non-negative random value selects the last entry |
| `ItemDrops.DrawSelectsPositiveWeight` | Assets/Scripts/Item/ItemManager.cs:124-139 | a random value in `[0, total)` never selects an entry of weight zero |
| `ItemDrops.DrawnFor` | Assets/Scripts/Item/ItemManager.cs:88-93 | the id drawn after filtering is `-1` or an in-stock id that occurs in the table |
| `ItemDrops.DrawnForIsEligible` | Assets/Scripts/Item/ItemManager.cs:88-93 | the drawn id is `-1` exactly when nothing in the table is in stock, and otherwise an in-stock id of the table |
| `ItemDrops.ExhaustedNeverDrawn` | Assets/Scripts/Item/ItemManager.cs:88-93 | an item whose stock is 0 is never drawn |
| `ItemDrops.AttemptDrop` | Assets/Scripts/Item/ItemManager.cs:79-115 | one drop attempt keeps the stock's length, only appends up to two notices, and keeps every tracked item other than the spawned one where it was |
| `ItemDrops.AttemptDropNoOpIff` | Assets/Scripts/Item/ItemManager.cs:79-97 | a drop attempt changes nothing exactly when no block is free or nothing is in stock; the bound check never rejects a drawn id |
| `ItemDrops.AttemptDropEffect` | Assets/Scripts/Item/ItemManager.cs:99-114 | on a successful draw: a finite stock drops by one, an unlimited one stays, no other entry changes; one instantiation; the item is tracked in the block only when it is an `ItemBase` |
| `ItemDrops.SingleDropThenUnlimited` | Assets/Scripts/Item/ItemManager.cs:88-103 | with items of limit 1 and unlimited at equal weight, once item 0 has dropped every draw yields item 1 |
| `ItemDrops.ExitField` | Assets/Scripts/Item/ItemManager.cs:173-183 | leaving the field keeps the stock, appends at most one notice, and removes the item from the map exactly when `removeFormMap` holds |
| `ItemDrops.ExitFieldEffect` | Assets/Scripts/Item/ItemManager.cs:173-183 | no-op for an untracked item; a tracked one notifies its block once and stays tracked exactly when `removeFormMap` is false; other entries and the stock are untouched |
| `ItemDrops.ExitFieldIdempotent` | Assets/Scripts/Item/ItemManager.cs:173-183 | a second exit of the same item changes nothing, so its block is notified once |
| `ItemDrops.TeardownLog` | Assets/Scripts/Item/ItemManager.cs:187-191 | tearing down `n` items logs exactly two notices per item |
| `ItemDrops.TeardownLogSnoc` | Assets/Scripts/Item/ItemManager.cs:187-191 | one more loop iteration appends that item's block exit notice and then its destruction |
| `ItemDrops.TeardownLogAt` | Assets/Scripts/Item/ItemManager.cs:187-191 | during teardown, the i-th enumerated item's block is told the item left, and then the item is destroyed |
| `ItemDrops.TeardownDestroysEachOnce` | Assets/Scripts/Item/ItemManager.cs:187-191 | each enumerated item is destroyed exactly once |
| `ItemDrops.NewGame` | Assets/Scripts/Item/ItemManager.cs:185-196 | after a new game the map is empty, the stock has one entry per catalog item, and each entry equals its `maxDropNum` |
| `ItemDrops.NewGameTearsDownEveryItem` | Assets/Scripts/Item/ItemManager.cs:185-196 | every tracked item's block gets one exit notice, followed by that item's destruction, and each item is destroyed exactly once |
| `ItemManagement.AdvanceCursor` | Assets/Scripts/Item/ItemManager.cs:169 | unchecked `int` `+=`: the cursor rises by the interval while the sum fits in an `int`, and a positive interval that overflows wraps it to the sum minus 2^32, a negative value |
| `ItemManagement.CursorOverflowExample` | Assets/Scripts/Item/ItemManager.cs:164-171 | a cursor of 2147483500 with an interval of 500 wraps to -2147483296, so a score of 0 reaches it; a cursor of -296 rises to 204, which a score of 0 no longer reaches |
| `ItemManagement.ItemManager.Awake` | Assets/Scripts/Item/ItemManager.cs:48-58 | the cursor starts at the score interval, the timer runs on the time interval from zero, nothing is tracked, and the stock is full |
| `ItemManagement.ItemManager.InitStock` | Assets/Scripts/Item/ItemManager.cs:70-77 | the stock list is rebuilt from the catalog's limits |
| `ItemManagement.ItemManager.DrawItemType` | Assets/Scripts/Item/ItemManager.cs:117-142 | both loops compute the draw that `ItemDrops.Drawn` specifies |
| `ItemManagement.ItemManager.DropItem` | Assets/Scripts/Item/ItemManager.cs:79-115 | the new stock, map and notices are those of one `AttemptDrop`; the cursor and the timer are unchanged |
| `ItemManagement.ItemManager.Update` | Assets/Scripts/Item/ItemManager.cs:60-68 | the timer steps; if it is then complete, exactly one drop attempt from the time table follows and elapsed returns to 0, however many intervals passed; otherwise only the timer changes |
| `ItemManagement.ItemManager.OnScoreChanged` | Assets/Scripts/Item/ItemManager.cs:164-171 | a score at or past the cursor makes exactly one attempt from the score table and advances the cursor once by `AdvanceCursor`, with 32-bit wrap-around; a lower score changes nothing |
| `ItemManagement.ItemManager.OnItemExitField` | Assets/Scripts/Item/ItemManager.cs:173-183 | the new state is `ExitField` of the old one |
| `ItemManagement.ItemManager.OnItemApplied` | Assets/Scripts/Item/ItemManager.cs:161 | the applied item leaves the field and is removed from the map |
| `ItemManagement.ItemManager.OnNewGameStarted` | Assets/Scripts/Item/ItemManager.cs:185-196 | the items are enumerated once each; the new state is `NewGame` of the old one for that order; the cursor is unchanged |

## Left out

- `Singleton<T>` (Assets/Scripts/Utility.cs:8-54) is not modelled. It is about the engine's object lifecycle and a static global instance. Each model object is reached explicitly instead.
- The subscription of `OnScoreChanged` to `ScoreManager` in `Awake` is not modelled. The score path is a method that callers invoke.
- `OnItemApplied` is modelled without its UI counters (`GameUIManager`). They are outside this core.
- Engine calls are not modelled. `Instantiate`, `GetComponent`, `Destroy`, `SetActive`, `Init`, the transform updates, `Time.deltaTime` and `Random.Range` become parameters or logged notices.
- Floating point is not modelled: weights and times are exact reals, so rounding and NaN are not covered.
- The `Vector2` and `float` overloads and conversions of `Int2` are not modelled. They are floating-point operations.
- The bit-level `GetHashCode` of `Int2` is not modelled.
- Int2s.Div: the C# language leaves `int.MinValue / -1` in an unchecked context implementation-defined; it may throw or yield `int.MinValue`. The model follows the .NET runtime, which throws, and does not cover the other choice.
- The two-argument `Int2` constructor is the `Int2s.Int2` datatype constructor.
- `Timer`'s implicit conversions to `float` and `bool` are only accessors. They read `elapsed` and `IsComplete()`, which the model exposes directly.
- The `Dictionary` enumeration order in `OnNewGameStarted` is unspecified. It is a ghost out-parameter `order`, and the contract holds for every order.
- A pooled object's initial `IsUsing` is not set by `Awake`. The model assumes that it starts false.
- Pooling.Pool.constructor: a negative `maxCount` makes `new List<T>(maxCount)` in `Awake` throw `ArgumentOutOfRangeException` (Assets/Scripts/Utility.cs:141). The model excludes that case by giving `maxCount` the type `nat`, so it does not model the throw.
- `Pool` does not release objects. Callers clear `IsUsing`, and that write is outside the pool.
- Timing.Timer.constructor: requires a nonzero interval, because with floats a zero interval makes `Progress` infinite or NaN, which reals cannot express.
- Timing.Timer.SetInterval: requires a nonzero value, for the same reason.
- Timing.Timer.SetElapsed: requires a nonzero interval, for the same reason.
- Timing.Timer.UpdateProgress: requires a nonzero interval, for the same reason.
- ItemManagement.ItemManager.Awake: requires a nonzero time interval, for the same reason. With `itemDropTimeInterval = 0` the source's progress is infinite and an item drops every frame; that case is outside the model.
- Timing.Timer.ResetInterval: requires a nonzero interval, for the same reason.
- ItemManagement.ItemManager.DropItem: requires every id of the table to index `itemInfos`. The filter at Assets/Scripts/Item/ItemManager.cs:90 indexes `itemStock` before the bound check, and throws otherwise.
- ItemManagement.ItemManager.DropItem: requires that the spawned item is not already tracked. A freshly instantiated item never is, and `Dictionary.Add` would throw.
- ItemManagement.ItemManager.Update: requires the time table to satisfy the same id bound as `DropItem`.
- ItemManagement.ItemManager.OnScoreChanged: requires the score table to satisfy the same id bound as `DropItem`.
- Assets/Excel/Editor/StageDataInUnityEditor.cs is not part of this model. It is generated editor code doing file and spreadsheet I/O.
- Assets/Scripts/ProjectCommon.cs is not part of this model. It holds only an enum.

## Findings

| source | as written | input that shows it | evidently intended | confidence | as-written member | corrected member |
|---|---|---|---|---|---|---|
| Assets/Scripts/Utility.cs:283 | `lhs.x == rhs.x && lhs.x == rhs.y` | `(0,1) == (0,1)` is false; `(1,0) == (1,1)` is true | `lhs.x == rhs.x && lhs.y == rhs.y` | high, not executed | `Int2s.EqualAsWrittenCounterexamples` | `Int2s.EqualIntended` |
