/**
 * The terrain object built once per mount: the `finals` records, their
 * `inAction` flags and scratch vectors, the instanced mesh's matrix slots
 * and the animation slots ("actions").  The tween callbacks of one action
 * (`onStart`, `onUpdate`, `onComplete`) are the methods below; the tween
 * library's clock only decides in which order they are called.
 */
module Terrain {
  import opened Wrappers
  import opened TileGrid
  import opened TileAnimation
  import opened Scheduling
  import GlyphAtlas

  /** The `Math.random()` draws one invocation of an action consumes: the
      successive draws of the tile selection, the three components of
      `v2.random()` and the draw whose sign turns the spin. */
  datatype Draws = Draws(picks: seq<real>, spin: Vec3, coin: real)

  /** The spin and coin draws lie in [0, 1), as `Math.random()` promises. */
  ghost predicate ValidSpin(d: Draws)
  {
    0.0 <= d.spin.x < 1.0 && 0.0 <= d.spin.y < 1.0 && 0.0 <= d.spin.z < 1.0 && 0.0 <= d.coin < 1.0
  }

  /** The `v2` vectors after the actions `0 .. |picked| - 1` have run in
      order, action `s` writing the start rotation of its draws into the
      tile it picked. */
  function SpinsAfter(base: seq<Vec3>, picked: seq<Option<nat>>, draws: seq<Draws>): (spins: seq<Vec3>)
    requires |picked| <= |draws|
    ensures |spins| == |base|
    decreases |picked|
  {
    if |picked| == 0 then base
    else
      var n := |picked| - 1;
      var prev := SpinsAfter(base, picked[..n], draws);
      if picked[n].Some? && picked[n].value < |prev| then
        prev[picked[n].value := StartRotation(draws[n].spin, draws[n].coin)]
      else prev
  }

  /** Slot `sl` after its kick-off action, drawing `d` against the flags
      `flags`, picked `pick`: waiting for its initial delay on that tile, or
      unscheduled when no tile was free. */
  ghost predicate SlotKicked(sl: SlotState, pick: Option<nat>, delay: real, d: Draws, flags: seq<bool>)
  {
    && |flags| > 0 && 0.0 <= delay < 1.0 && ValidDraws(d.picks)
    && pick == GetFreeLetterIndex(d.picks, flags)
    && sl == if pick.Some? then Waiting(pick.value, InitialDelay(delay)) else Unscheduled
  }

  /** The slots after the kick-off has invoked the first `|picked|` actions
      against the flags `flags`: each of those holds what its action picked. */
  ghost predicate KickedOff(sl: seq<SlotState>, picked: seq<Option<nat>>, delays: seq<real>, draws: seq<Draws>, flags: seq<bool>)
    requires |picked| <= |sl| && |picked| <= |delays| && |picked| <= |draws|
  {
    forall j :: 0 <= j < |picked| ==> SlotKicked(sl[j], picked[j], delays[j], draws[j], flags)
  }

  /** Every slot from `n` on is still unscheduled. */
  ghost predicate UnscheduledFrom(sl: seq<SlotState>, n: nat)
  {
    forall j :: n <= j < |sl| ==> sl[j].Unscheduled?
  }

  /** One more kick-off action leaves the earlier slots as they were. */
  lemma KickedOffStep(sl: seq<SlotState>, sl': seq<SlotState>, picked: seq<Option<nat>>, delays: seq<real>, draws: seq<Draws>,
                      flags: seq<bool>, p: Option<nat>)
    requires |picked| < |sl| && |picked| < |delays| && |picked| < |draws|
    requires KickedOff(sl, picked, delays, draws, flags)
    requires |sl'| == |sl| && forall j :: 0 <= j < |sl| && j != |picked| ==> sl'[j] == sl[j]
    requires SlotKicked(sl'[|picked|], p, delays[|picked|], draws[|picked|], flags)
    ensures KickedOff(sl', picked + [p], delays, draws, flags)
  {
    var n := |picked|;
    var picked' := picked + [p];
    forall j | 0 <= j < |picked'|
      ensures SlotKicked(sl'[j], picked'[j], delays[j], draws[j], flags)
    {
      if j < n {
        assert picked'[j] == picked[j] && sl'[j] == sl[j];
      } else {
        assert j == n && picked'[j] == p;
      }
    }
  }

  /** One more kick-off action leaves the later slots unscheduled. */
  lemma UnscheduledFromStep(sl: seq<SlotState>, sl': seq<SlotState>, n: nat)
    requires UnscheduledFrom(sl, n)
    requires |sl'| == |sl| && forall j :: 0 <= j < |sl| && j != n ==> sl'[j] == sl[j]
    ensures UnscheduledFrom(sl', n + 1)
  {
    forall j | n + 1 <= j < |sl'|
      ensures sl'[j].Unscheduled?
    {
      assert sl'[j] == sl[j];
    }
  }

  /** One more action: it writes the start rotation of its draws into the
      tile it picked, if any. */
  lemma SpinsAfterSnoc(base: seq<Vec3>, picked: seq<Option<nat>>, draws: seq<Draws>, p: Option<nat>)
    requires |picked| < |draws|
    ensures SpinsAfter(base, picked + [p], draws) ==
      if p.Some? && p.value < |base| then
        SpinsAfter(base, picked, draws)[p.value := StartRotation(draws[|picked|].spin, draws[|picked|].coin)]
      else SpinsAfter(base, picked, draws)
  {
    assert (picked + [p])[..|picked|] == picked;
  }

  /** A tile no action picked keeps its `v2`. */
  lemma {:induction false} SpinsAfterUnpicked(base: seq<Vec3>, picked: seq<Option<nat>>, draws: seq<Draws>, t: nat)
    requires |picked| <= |draws| && t < |base|
    requires forall s :: 0 <= s < |picked| ==> picked[s] != Some(t)
    ensures SpinsAfter(base, picked, draws)[t] == base[t]
    decreases |picked|
  {
    if |picked| > 0 {
      var n := |picked| - 1;
      assert forall s :: 0 <= s < n ==> picked[..n][s] == picked[s];
      SpinsAfterUnpicked(base, picked[..n], draws, t);
    }
  }

  /** A picked tile holds the start rotation of the last action that picked it. */
  lemma {:induction false} SpinsAfterLastPick(base: seq<Vec3>, picked: seq<Option<nat>>, draws: seq<Draws>, t: nat, s: nat)
    requires |picked| <= |draws| && t < |base|
    requires s < |picked| && picked[s] == Some(t)
    requires forall s' :: s < s' < |picked| ==> picked[s'] != Some(t)
    ensures SpinsAfter(base, picked, draws)[t] == StartRotation(draws[s].spin, draws[s].coin)
    decreases |picked|
  {
    var n := |picked| - 1;
    if s < n {
      var front := picked[..n];
      assert front[s] == Some(t);
      assert forall s' :: s < s' < |front| ==> front[s'] == picked[s'];
      SpinsAfterLastPick(base, front, draws, t, s);
    }
  }

  /** Over all tiles: an unpicked tile keeps its `v2`, a picked one holds the
      start rotation of its last picker. */
  lemma SpinsAfterLastWriter(base: seq<Vec3>, picked: seq<Option<nat>>, draws: seq<Draws>)
    requires |picked| <= |draws|
    ensures forall t :: (0 <= t < |base| && (forall s :: 0 <= s < |picked| ==> picked[s] != Some(t))) ==>
      SpinsAfter(base, picked, draws)[t] == base[t]
    ensures forall t, s ::
      (0 <= t < |base| && 0 <= s < |picked| && picked[s] == Some(t)
       && (forall s' :: s < s' < |picked| ==> picked[s'] != Some(t))) ==>
      SpinsAfter(base, picked, draws)[t] == StartRotation(draws[s].spin, draws[s].coin)
  {
    forall t | 0 <= t < |base| && (forall s :: 0 <= s < |picked| ==> picked[s] != Some(t))
      ensures SpinsAfter(base, picked, draws)[t] == base[t]
    {
      SpinsAfterUnpicked(base, picked, draws, t);
    }
    forall t, s | 0 <= t < |base| && 0 <= s < |picked| && picked[s] == Some(t)
        && (forall s' :: s < s' < |picked| ==> picked[s'] != Some(t))
      ensures SpinsAfter(base, picked, draws)[t] == StartRotation(draws[s].spin, draws[s].coin)
    {
      SpinsAfterLastPick(base, picked, draws, t, s);
    }
  }

  class TextTerrain {
    const dim: nat
    /** Resting height, position and rotation of each `finals` record. */
    const finals: seq<Tile>
    /** The per-instance `letterIdx` attribute. */
    const letterIdx: seq<int>
    /** `finals[i].inAction`. */
    const inAction: array<bool>
    /** `finals[i].mediators.v2`: the start rotation of the tile's animation. */
    const spins: array<Vec3>
    /** `finals[i].mediators.v`: the interpolated rotation. */
    const lerped: array<Vec3>
    /** `finals[i].dummy`: the object whose matrix is written for the tile. */
    const dummies: array<Pose>
    /** The instanced mesh's matrix slots. */
    const matrices: array<Pose>
    /** The actions. */
    const slots: array<SlotState>

    ghost predicate Valid()
      reads this, slots
    {
      && dim > 0
      && |finals| == dim * dim && |letterIdx| == dim * dim
      && inAction.Length == dim * dim && spins.Length == dim * dim && lerped.Length == dim * dim
      && dummies.Length == dim * dim && matrices.Length == dim * dim
      && spins != lerped && dummies != matrices
      && (forall k :: 0 <= k < |finals| ==> finals[k].pos.y == finals[k].y)
      && (forall s :: 0 <= s < slots.Length && !slots[s].Unscheduled? ==> slots[s].tile < dim * dim)
    }

    /** What the terrain builder leaves behind: the grid of rest records and
        matrices, one random glyph per tile, every flag clear, every action
        not yet invoked. */
    constructor (dim: nat, height: (real, real) -> real, aim: (real, real) -> Vec3,
                 glyphDraws: seq<real>, pool: nat)
      requires dim > 0 && |glyphDraws| == dim * dim && ValidDraws(glyphDraws)
      ensures Valid()
      ensures this.dim == dim && slots.Length == pool
      ensures forall x, z :: 0 <= x < dim && 0 <= z < dim ==>
        finals[Slot(x, z, dim)] == RestTile(x, z, dim, height, aim)
      ensures forall k :: 0 <= k < dim * dim ==>
        && matrices[k] == RestPose(finals[k]) && !inAction[k] && dummies[k] == Identity
        && spins[k] == Origin && lerped[k] == Origin
      ensures letterIdx == GlyphAtlas.LetterIndices(glyphDraws)
      ensures forall s :: 0 <= s < pool ==> slots[s].Unscheduled?
      ensures fresh(inAction) && fresh(spins) && fresh(lerped) && fresh(dummies) && fresh(matrices) && fresh(slots)
    {
      var f, m := BuildGrid(dim, height, aim);
      var n := dim * dim;
      this.dim := dim;
      finals := f;
      letterIdx := GlyphAtlas.LetterIndices(glyphDraws);
      matrices := new Pose[n](k requires 0 <= k < n => m[k]);
      inAction := new bool[n](_ => false);
      spins := new Vec3[n](_ => Origin);
      lerped := new Vec3[n](_ => Origin);
      dummies := new Pose[n](_ => Identity);
      slots := new SlotState[pool](_ => Unscheduled);
    }

    /** The flags as a sequence. */
    ghost function Busy(): (busy: seq<bool>)
      reads this, inAction
    {
      inAction[..]
    }

    /**
     * `action(delay)` as written: select a tile whose flag is clear, draw
     * its start rotation into its `v2`, and schedule the tween.  The flag
     * is NOT set here; only the index's idleness at selection is promised.
     * `None` means the supplied draws all hit busy tiles.
     */
    method Action(s: nat, delay: real, d: Draws) returns (picked: Option<nat>)
      requires Valid() && s < slots.Length && slots[s].Unscheduled? && ValidDraws(d.picks) && ValidSpin(d)
      modifies spins, slots
      ensures Valid()
      ensures picked == GetFreeLetterIndex(d.picks, inAction[..])
      ensures picked.Some? ==> picked.value < dim * dim && !inAction[picked.value]
      ensures picked.Some? ==>
        && slots[..] == old(slots[..])[s := Waiting(picked.value, delay)]
        && spins[..] == old(spins[..])[picked.value := StartRotation(d.spin, d.coin)]
      ensures picked.None? ==> slots[..] == old(slots[..]) && spins[..] == old(spins[..])
      ensures old(BusyOwned(inAction[..], slots[..])) ==> BusyOwned(inAction[..], slots[..])
    {
      picked := GetFreeLetterIndex(d.picks, inAction[..]);
      if picked.Some? {
        var idx := picked.value;
        if BusyOwned(inAction[..], slots[..]) {
          SelectKeepsBusyOwned(inAction[..], slots[..], s, idx, delay);
        }
        spins[idx] := StartRotation(d.spin, d.coin);
        slots[s] := Waiting(idx, delay);
      }
    }

    /** The tween's `onStart`: the slot's delay is over and its tile is flagged busy. */
    method OnStart(s: nat)
      requires Valid() && s < slots.Length && slots[s].Waiting?
      modifies inAction, slots
      ensures Valid()
      ensures inAction[..] == old(inAction[..])[old(slots[s].tile) := true]
      ensures slots[..] == old(slots[..])[s := Running(old(slots[s].tile))]
      ensures old(BusyOwned(inAction[..], slots[..])) ==> BusyOwned(inAction[..], slots[..])
      ensures old(Exclusive(inAction[..], slots[..])) ==> Exclusive(inAction[..], slots[..])
    {
      var t := slots[s].tile;
      if BusyOwned(inAction[..], slots[..]) {
        StartKeepsBusyOwned(inAction[..], slots[..], s);
      }
      if Exclusive(inAction[..], slots[..]) {
        StartKeepsExclusive(inAction[..], slots[..], s);
      }
      inAction[t] := true;
      slots[s] := Running(t);
    }

    /** The tween's `onUpdate` for tween value `val`: interpolate the tile's
        pose and write it to the tile's own matrix slot, and nowhere else. */
    method OnUpdate(s: nat, val: real)
      requires Valid() && s < slots.Length && slots[s].Running? && 0.0 <= val <= 1.0
      modifies lerped, dummies, matrices
      ensures var t := slots[s].tile;
        && lerped[..] == old(lerped[..])[t := LerpVectors(spins[t], finals[t].rot, val)]
        && dummies[..] == old(dummies[..])[t := AnimatedPose(finals[t], spins[t], val)]
        && matrices[..] == old(matrices[..])[t := AnimatedPose(finals[t], spins[t], val)]
    {
      var t := slots[s].tile;
      var letter := finals[t];
      lerped[t] := LerpVectors(spins[t], letter.rot, val);
      dummies[t] := Pose(Vec3(letter.pos.x, Lerp(LaunchHeight, letter.y, val), letter.pos.z), lerped[t]);
      matrices[t] := dummies[t];
    }

    /** The first step of the tween's `onComplete`: the running tile's flag
        is cleared and the action's slot is free to be scheduled again.
        Both the as-written and the claiming invariant survive it. */
    method Release(s: nat)
      requires Valid() && s < slots.Length && slots[s].Running?
      modifies inAction, slots
      ensures Valid()
      ensures inAction[..] == old(inAction[..])[old(slots[s].tile) := false]
      ensures slots[..] == old(slots[..])[s := Unscheduled]
      ensures old(BusyOwned(inAction[..], slots[..])) ==> BusyOwned(inAction[..], slots[..])
      ensures old(Exclusive(inAction[..], slots[..])) ==> Exclusive(inAction[..], slots[..])
    {
      var t := slots[s].tile;
      if BusyOwned(inAction[..], slots[..]) {
        CompleteKeepsBusyOwned(inAction[..], slots[..], s);
      }
      if Exclusive(inAction[..], slots[..]) {
        ReleaseKeepsExclusive(inAction[..], slots[..], s);
      }
      inAction[t] := false;
      slots[s] := Unscheduled;
    }

    /** The tween's `onComplete`: clear the tile's flag and invoke the same
        action again with a fresh delay drawn from [0, 10000). */
    method OnComplete(s: nat, r: real, d: Draws) returns (picked: Option<nat>)
      requires Valid() && s < slots.Length && slots[s].Running? && 0.0 <= r < 1.0 && ValidDraws(d.picks) && ValidSpin(d)
      modifies inAction, spins, slots
      ensures Valid()
      ensures inAction[..] == old(inAction[..])[old(slots[s].tile) := false]
      ensures picked == GetFreeLetterIndex(d.picks, inAction[..])
      ensures slots[..] == old(slots[..])[s :=
        if picked.Some? then Waiting(picked.value, RescheduleDelay(r)) else Unscheduled]
      ensures picked.Some? ==> spins[..] == old(spins[..])[picked.value := StartRotation(d.spin, d.coin)]
      ensures picked.None? ==> spins[..] == old(spins[..])
      ensures old(BusyOwned(inAction[..], slots[..])) ==> BusyOwned(inAction[..], slots[..])
    {
      Release(s);
      picked := Action(s, RescheduleDelay(r), d);
    }

    /**
     * The kick-off at mount: every action is invoked once, in order, with
     * a delay drawn from [1000, 10000).  No flag is set during kick-off, so
     * every action selects against the initial flags; the `v2` vectors end
     * as `SpinsAfter` says (see `SpinsAfterLastWriter`).
     */
    method KickOff(delayDraws: seq<real>, draws: seq<Draws>) returns (picked: seq<Option<nat>>)
      requires Valid() && |delayDraws| == slots.Length && |draws| == slots.Length
      requires forall s :: 0 <= s < slots.Length ==> slots[s].Unscheduled?
      requires forall s :: 0 <= s < |delayDraws| ==> 0.0 <= delayDraws[s] < 1.0
      requires forall s :: 0 <= s < |draws| ==> ValidDraws(draws[s].picks) && ValidSpin(draws[s])
      modifies spins, slots
      ensures Valid() && |picked| == slots.Length
      ensures forall s :: 0 <= s < slots.Length ==>
        && picked[s] == GetFreeLetterIndex(draws[s].picks, inAction[..])
        && slots[s] == if picked[s].Some? then Waiting(picked[s].value, InitialDelay(delayDraws[s])) else Unscheduled
      ensures spins[..] == SpinsAfter(old(spins[..]), picked, draws)
      ensures old(BusyOwned(inAction[..], slots[..])) ==> BusyOwned(inAction[..], slots[..])
    {
      ghost var flags, base := inAction[..], spins[..];
      picked := [];
      var s := 0;
      while s < slots.Length
        invariant 0 <= s <= slots.Length && |picked| == s
        invariant Valid()
        invariant inAction[..] == flags
        invariant KickedOff(slots[..], picked, delayDraws, draws, flags)
        invariant UnscheduledFrom(slots[..], s)
        invariant spins[..] == SpinsAfter(base, picked, draws)
        invariant old(BusyOwned(inAction[..], slots[..])) ==> BusyOwned(inAction[..], slots[..])
      {
        ghost var prior := slots[..];
        var p := Action(s, InitialDelay(delayDraws[s]), draws[s]);
        assert SlotKicked(slots[s], p, delayDraws[s], draws[s], flags);
        KickedOffStep(prior, slots[..], picked, delayDraws, draws, flags, p);
        UnscheduledFromStep(prior, slots[..], s);
        SpinsAfterSnoc(base, picked, draws, p);
        picked := picked + [p];
        s := s + 1;
      }
    }

    // -------------------------------------------------------------------
    // Claiming at selection (the corrected scheduler)

    /** `action` with the flag set as soon as the tile is selected. */
    method ActionClaiming(s: nat, delay: real, d: Draws) returns (picked: Option<nat>)
      requires Valid() && s < slots.Length && slots[s].Unscheduled? && ValidDraws(d.picks) && ValidSpin(d)
      modifies inAction, spins, slots
      ensures Valid()
      ensures picked == GetFreeLetterIndex(d.picks, old(inAction[..]))
      ensures picked.Some? ==>
        && picked.value < dim * dim && !old(inAction[picked.value])
        && inAction[..] == old(inAction[..])[picked.value := true]
        && slots[..] == old(slots[..])[s := Waiting(picked.value, delay)]
        && spins[..] == old(spins[..])[picked.value := StartRotation(d.spin, d.coin)]
      ensures picked.None? ==> inAction[..] == old(inAction[..]) && slots[..] == old(slots[..]) && spins[..] == old(spins[..])
      ensures old(Exclusive(inAction[..], slots[..])) ==> Exclusive(inAction[..], slots[..])
    {
      picked := GetFreeLetterIndex(d.picks, inAction[..]);
      if picked.Some? {
        var idx := picked.value;
        if Exclusive(inAction[..], slots[..]) {
          ClaimKeepsExclusive(inAction[..], slots[..], s, idx, delay);
        }
        inAction[idx] := true;
        spins[idx] := StartRotation(d.spin, d.coin);
        slots[s] := Waiting(idx, delay);
      }
    }

    /** `onComplete` followed by the claiming `action`. */
    method OnCompleteClaiming(s: nat, r: real, d: Draws) returns (picked: Option<nat>)
      requires Valid() && s < slots.Length && slots[s].Running? && 0.0 <= r < 1.0 && ValidDraws(d.picks) && ValidSpin(d)
      modifies inAction, spins, slots
      ensures Valid()
      ensures picked == GetFreeLetterIndex(d.picks, old(inAction[..])[old(slots[s].tile) := false])
      ensures picked.Some? ==>
        && inAction[..] == old(inAction[..])[old(slots[s].tile) := false][picked.value := true]
        && spins[..] == old(spins[..])[picked.value := StartRotation(d.spin, d.coin)]
        && slots[..] == old(slots[..])[s := Waiting(picked.value, RescheduleDelay(r))]
      ensures picked.None? ==>
        && inAction[..] == old(inAction[..])[old(slots[s].tile) := false]
        && spins[..] == old(spins[..])
        && slots[..] == old(slots[..])[s := Unscheduled]
      ensures old(Exclusive(inAction[..], slots[..])) ==> Exclusive(inAction[..], slots[..])
    {
      Release(s);
      picked := ActionClaiming(s, RescheduleDelay(r), d);
    }
  }

  /**
   * Two actions on a one-tile terrain, as written: both select the idle
   * tile during their delay windows, both start animating it, and when the
   * first completes the tile reads idle (and is selected again) while the
   * second is still animating it.
   */
  method SharedTileScenario() returns (first: SlotState, second: SlotState, flagAfter: bool,
                                        reselected: Option<nat>, secondAfter: SlotState)
    ensures first == Running(0) && second == Running(0)
    ensures !flagAfter && reselected == Some(0) && secondAfter == Running(0)
  {
    var t := new TextTerrain(1, (x: real, z: real) => 0.0, (x: real, z: real) => Origin, [0.0], 2);
    var d := Draws([0.0], Origin, 0.0);
    var p0 := t.Action(0, 1000.0, d);
    var p1 := t.Action(1, 2000.0, d);
    t.OnStart(0);
    t.OnStart(1);
    first, second := t.slots[0], t.slots[1];
    reselected := t.OnComplete(0, 0.0, d);
    flagAfter, secondAfter := t.inAction[0], t.slots[1];
  }

  /** The same two actions with claiming at selection: the second finds the
      only tile busy and selects nothing. */
  method ClaimingScenario() returns (first: Option<nat>, second: Option<nat>)
    ensures first == Some(0) && second == None
  {
    var t := new TextTerrain(1, (x: real, z: real) => 0.0, (x: real, z: real) => Origin, [0.0], 2);
    var d := Draws([0.0], Origin, 0.0);
    first := t.ActionClaiming(0, 1000.0, d);
    second := t.ActionClaiming(1, 2000.0, d);
  }

  /** The terrain's own configuration has fewer actions than tiles, so while
      the flags are owned some tile is always idle. */
  lemma SourceConfigurationLeavesIdleTile(busy: seq<bool>, slots: seq<SlotState>)
    requires |busy| == TileDim * TileDim && |slots| == ActionCount
    requires BusyOwned(busy, slots)
    ensures exists i :: 0 <= i < |busy| && !busy[i]
  {
    IdleTileExists(busy, slots);
  }
}
