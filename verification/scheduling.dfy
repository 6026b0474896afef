/**
 * Bookkeeping of the animation slots ("actions") of the emoji terrain:
 * how a slot picks a tile, which tiles the slots hold, and what the
 * per-tile `inAction` flags can be proved to mean.
 *
 * A slot is `Unscheduled` before it is first invoked, `Waiting` between
 * the selection of its tile and the tween's `onStart` (the delay window),
 * and `Running` from `onStart` to `onComplete`.
 */
module Scheduling {
  import opened Wrappers

  /** Number of animation slots created by the terrain builder. */
  const ActionCount: nat := 5000

  datatype SlotState = Unscheduled | Waiting(tile: nat, delay: real) | Running(tile: nat)
  {
    /** The slot has selected `tile` and has not completed yet. */
    predicate Holds(t: nat)
    {
      !Unscheduled? && tile == t
    }
  }

  /** `Math.floor(r * n)` for a draw `r` of `Math.random()`. */
  function DrawIndex(r: real, n: nat): (i: nat)
    requires 0.0 <= r < 1.0 && n > 0
    ensures i < n
  {
    assert 0.0 <= r * n as real < n as real by {
      assert n as real - r * n as real == (1.0 - r) * n as real;
    }
    (r * n as real).Floor
  }

  ghost predicate ValidDraws(draws: seq<real>)
  {
    forall k :: 0 <= k < |draws| ==> 0.0 <= draws[k] < 1.0
  }

  /**
   * `getFreeLetterIndex` run on the successive draws `draws`: the first
   * drawn index whose flag is clear.  `None` means every supplied draw hit a
   * busy tile; the source would go on drawing.
   */
  function GetFreeLetterIndex(draws: seq<real>, busy: seq<bool>): (r: Option<nat>)
    requires |busy| > 0 && ValidDraws(draws)
    ensures r.Some? ==> r.value < |busy| && !busy[r.value]
    ensures r.Some? ==> exists k :: 0 <= k < |draws| && DrawIndex(draws[k], |busy|) == r.value
                          && forall j :: 0 <= j < k ==> busy[DrawIndex(draws[j], |busy|)]
    ensures r.None? <==> forall k :: 0 <= k < |draws| ==> busy[DrawIndex(draws[k], |busy|)]
    decreases |draws|
  {
    if |draws| == 0 then None
    else
      var idx := DrawIndex(draws[0], |busy|);
      if !busy[idx] then Some(idx)
      else
        var rest := GetFreeLetterIndex(draws[1..], busy);
        assert forall k :: 1 <= k < |draws| ==> draws[k] == draws[1..][k - 1];
        rest
  }

  /** Once every tile is busy no supply of draws ever yields an index: the
      source's retry recursion only ends if some tile is idle. */
  lemma AllBusyNeverSelects(draws: seq<real>, busy: seq<bool>)
    requires |busy| > 0 && ValidDraws(draws)
    requires forall i :: 0 <= i < |busy| ==> busy[i]
    ensures GetFreeLetterIndex(draws, busy) == None
  {
  }

  // ---------------------------------------------------------------------
  // What the flags mean

  /** Tiles whose `inAction` flag is set. */
  function BusyTiles(busy: seq<bool>): set<nat>
  {
    set i: nat | i < |busy| && busy[i]
  }

  /** Tiles some slot is animating. */
  function RunningTiles(slots: seq<SlotState>): (tiles: set<nat>)
    ensures |tiles| <= |slots|
    ensures forall s :: 0 <= s < |slots| && slots[s].Running? ==> slots[s].tile in tiles
    ensures forall t :: t in tiles ==> exists s :: 0 <= s < |slots| && slots[s] == Running(t)
  {
    if |slots| == 0 then {}
    else
      var rest := RunningTiles(slots[1..]);
      assert forall s :: 1 <= s < |slots| ==> slots[s] == slots[1..][s - 1];
      rest + if slots[0].Running? then {slots[0].tile} else {}
  }

  /** Every set flag belongs to a slot that is animating that tile.  This is
      what the terrain's callbacks keep true. */
  ghost predicate BusyOwned(busy: seq<bool>, slots: seq<SlotState>)
  {
    forall i :: 0 <= i < |busy| && busy[i] ==> exists s :: 0 <= s < |slots| && slots[s] == Running(i)
  }

  /** The tile indices [0, n). */
  function Range(n: nat): (r: set<nat>)
    ensures |r| == n
    ensures forall i: nat :: i in r <==> i < n
  {
    if n == 0 then {} else Range(n - 1) + {n - 1}
  }

  lemma SubsetSize<T>(a: set<T>, b: set<T>)
    requires a <= b
    ensures |a| <= |b|
  {
    if a != {} {
      var x :| x in a;
      SubsetSize(a - {x}, b - {x});
    }
  }

  /** No more tiles are flagged busy than there are slots. */
  lemma BusyCountBounded(busy: seq<bool>, slots: seq<SlotState>)
    requires BusyOwned(busy, slots)
    ensures |BusyTiles(busy)| <= |slots|
  {
    SubsetSize(BusyTiles(busy), RunningTiles(slots));
  }

  /** With fewer slots than tiles some tile is always idle, so the retry
      loop of the selection has something to find. */
  lemma IdleTileExists(busy: seq<bool>, slots: seq<SlotState>)
    requires BusyOwned(busy, slots) && |slots| < |busy|
    ensures exists i :: 0 <= i < |busy| && !busy[i]
  {
    if forall i :: 0 <= i < |busy| ==> busy[i] {
      assert BusyTiles(busy) == Range(|busy|);
      BusyCountBounded(busy, slots);
      assert false;
    }
  }

  /** Selection leaves the flags alone and does not disturb running slots. */
  lemma SelectKeepsBusyOwned(busy: seq<bool>, slots: seq<SlotState>, s: nat, idx: nat, delay: real)
    requires BusyOwned(busy, slots) && s < |slots| && !slots[s].Running?
    ensures BusyOwned(busy, slots[s := Waiting(idx, delay)])
  {
    var slots' := slots[s := Waiting(idx, delay)];
    forall i | 0 <= i < |busy| && busy[i]
      ensures exists w :: 0 <= w < |slots'| && slots'[w] == Running(i)
    {
      var w :| 0 <= w < |slots| && slots[w] == Running(i);
      assert slots'[w] == Running(i);
    }
  }

  /** `onStart` sets the flag of the tile the slot starts animating. */
  lemma StartKeepsBusyOwned(busy: seq<bool>, slots: seq<SlotState>, s: nat)
    requires BusyOwned(busy, slots) && s < |slots| && slots[s].Waiting? && slots[s].tile < |busy|
    ensures BusyOwned(busy[slots[s].tile := true], slots[s := Running(slots[s].tile)])
  {
    var t := slots[s].tile;
    var busy', slots' := busy[t := true], slots[s := Running(t)];
    forall i | 0 <= i < |busy'| && busy'[i]
      ensures exists s' :: 0 <= s' < |slots'| && slots'[s'] == Running(i)
    {
      if i == t {
        assert slots'[s] == Running(i);
      } else {
        var w :| 0 <= w < |slots| && slots[w] == Running(i);
        assert slots'[w] == Running(i);
      }
    }
  }

  /** `onComplete` clears the flag of the tile the slot animated. */
  lemma CompleteKeepsBusyOwned(busy: seq<bool>, slots: seq<SlotState>, s: nat)
    requires BusyOwned(busy, slots) && s < |slots| && slots[s].Running? && slots[s].tile < |busy|
    ensures BusyOwned(busy[slots[s].tile := false], slots[s := Unscheduled])
  {
    var t := slots[s].tile;
    var busy', slots' := busy[t := false], slots[s := Unscheduled];
    forall i | 0 <= i < |busy'| && busy'[i]
      ensures exists s' :: 0 <= s' < |slots'| && slots'[s'] == Running(i)
    {
      var w :| 0 <= w < |slots| && slots[w] == Running(i);
      assert w != s;
      assert slots'[w] == Running(i);
    }
  }

  // ---------------------------------------------------------------------
  // Exclusive ownership (what the flag is meant to guarantee)

  /** No two slots hold the same tile, a held tile is flagged, and a flagged
      tile is held. */
  ghost predicate Exclusive(busy: seq<bool>, slots: seq<SlotState>)
  {
    && (forall s, s' ::
          (0 <= s < |slots| && 0 <= s' < |slots| && s != s' && !slots[s].Unscheduled? && !slots[s'].Unscheduled?)
          ==> slots[s].tile != slots[s'].tile)
    && (forall s :: 0 <= s < |slots| && !slots[s].Unscheduled? ==> slots[s].tile < |busy| && busy[slots[s].tile])
    && (forall i :: 0 <= i < |busy| && busy[i] ==> exists s :: 0 <= s < |slots| && slots[s].Holds(i))
  }

  /** Claiming the selected tile at selection time keeps ownership exclusive. */
  lemma ClaimKeepsExclusive(busy: seq<bool>, slots: seq<SlotState>, s: nat, idx: nat, delay: real)
    requires Exclusive(busy, slots) && s < |slots| && slots[s].Unscheduled?
    requires idx < |busy| && !busy[idx]
    ensures Exclusive(busy[idx := true], slots[s := Waiting(idx, delay)])
  {
    var busy', slots' := busy[idx := true], slots[s := Waiting(idx, delay)];
    forall i | 0 <= i < |busy'| && busy'[i]
      ensures exists w :: 0 <= w < |slots'| && slots'[w].Holds(i)
    {
      if i == idx {
        assert slots'[s].Holds(i);
      } else {
        var w :| 0 <= w < |slots| && slots[w].Holds(i);
        assert slots'[w].Holds(i);
      }
    }
  }

  /** With the claim made at selection, `onStart` changes nothing that matters. */
  lemma StartKeepsExclusive(busy: seq<bool>, slots: seq<SlotState>, s: nat)
    requires Exclusive(busy, slots) && s < |slots| && slots[s].Waiting?
    ensures Exclusive(busy[slots[s].tile := true], slots[s := Running(slots[s].tile)])
  {
    var t := slots[s].tile;
    assert busy[t := true] == busy;
    var slots' := slots[s := Running(t)];
    forall i | 0 <= i < |busy| && busy[i]
      ensures exists w :: 0 <= w < |slots'| && slots'[w].Holds(i)
    {
      var w :| 0 <= w < |slots| && slots[w].Holds(i);
      assert slots'[w].Holds(i);
    }
  }

  /** Releasing an exclusively held tile keeps ownership exclusive. */
  lemma ReleaseKeepsExclusive(busy: seq<bool>, slots: seq<SlotState>, s: nat)
    requires Exclusive(busy, slots) && s < |slots| && slots[s].Running?
    ensures Exclusive(busy[slots[s].tile := false], slots[s := Unscheduled])
  {
    var t := slots[s].tile;
    var busy', slots' := busy[t := false], slots[s := Unscheduled];
    forall i | 0 <= i < |busy'| && busy'[i]
      ensures exists w :: 0 <= w < |slots'| && slots'[w].Holds(i)
    {
      var w :| 0 <= w < |slots| && slots[w].Holds(i);
      assert w != s;
      assert slots'[w].Holds(i);
    }
  }

  /** Exclusive ownership implies the weaker property the source keeps. */
  lemma ExclusiveBoundsBusy(busy: seq<bool>, slots: seq<SlotState>)
    requires Exclusive(busy, slots)
    ensures |BusyTiles(busy)| <= |slots|
  {
    SubsetSize(BusyTiles(busy), HeldTiles(slots));
  }

  /** Tiles some slot holds (waiting or running). */
  function HeldTiles(slots: seq<SlotState>): (tiles: set<nat>)
    ensures |tiles| <= |slots|
    ensures forall s :: 0 <= s < |slots| && !slots[s].Unscheduled? ==> slots[s].tile in tiles
    ensures forall t :: t in tiles ==> exists s :: 0 <= s < |slots| && slots[s].Holds(t)
  {
    if |slots| == 0 then {}
    else
      var rest := HeldTiles(slots[1..]);
      assert forall s :: 1 <= s < |slots| ==> slots[s] == slots[1..][s - 1];
      rest + if slots[0].Unscheduled? then {} else {slots[0].tile}
  }

  /** Before kick-off every flag is clear, so every slot takes the tile of
      its first draw, whatever the other slots took. */
  lemma ClearFlagsTakeFirstDraw(draws: seq<real>, busy: seq<bool>)
    requires |busy| > 0 && ValidDraws(draws) && |draws| > 0
    requires forall i :: 0 <= i < |busy| ==> !busy[i]
    ensures GetFreeLetterIndex(draws, busy) == Some(DrawIndex(draws[0], |busy|))
  {
  }

  /** The state right after the terrain is built satisfies both invariants. */
  lemma InitialStateOwned(n: nat, pool: nat)
    ensures BusyOwned(seq(n, _ => false), seq(pool, _ => Unscheduled))
    ensures Exclusive(seq(n, _ => false), seq(pool, _ => Unscheduled))
  {
  }
}
