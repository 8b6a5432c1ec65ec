/**
 Forward-mode AD level bookkeeping.

 A `ForwardADLevel` is one nesting level of forward-mode differentiation; it
 keeps the set of `ForwardGrad`s that hold a gradient for it. A `ForwardGrad`
 belongs to one variable and maps level indices to gradients. The two register
 with each other: a grad that stores a gradient for level `l` inserts itself
 into level `l`'s set, and the level, when released, resets its entry on every
 grad registered to it.

 The process-wide table of active levels is modelled by `LevelRegistry`, a map
 from index to level that the caller passes in. Locks are modelled away: each
 operation is one sequential step. The gradient payload is the type parameter
 `T`; it is stored and returned, never inspected. Grad identity is object
 identity, as the shared pointers in the level's set compare by address.
 */
module ForwardAD {

  /** A level index: an unsigned 64-bit integer. */
  type LevelIdx = i: int | 0 <= i < 0x1_0000_0000_0000_0000

  datatype Option<T> = None | Some(value: T)

  /** One nesting level, with the grads registered to it. */
  class ForwardADLevel<T> {
    const idx: LevelIdx
    var grads: set<ForwardGrad<T>>

    constructor (idx: LevelIdx)
      ensures this.idx == idx && grads == {}
    {
      this.idx := idx;
      grads := {};
    }

    /** Unregisters `grad`; a grad that is not registered leaves the set as it was. */
    method Erase(grad: ForwardGrad<T>)
      modifies this`grads
      ensures grads == old(grads) - {grad}
      ensures grad !in grads
      ensures grad !in old(grads) ==> grads == old(grads)
    {
      grads := grads - {grad};
    }

    /** Registers `grad`; registering it again is a no-op. */
    method Insert(grad: ForwardGrad<T>)
      modifies this`grads
      ensures grads == old(grads) + {grad}
      ensures grad in grads
      ensures grad in old(grads) ==> grads == old(grads)
    {
      grads := grads + {grad};
    }
  }

  /** The table of active levels, looked up by index. */
  class LevelRegistry<T> {
    var levels: map<LevelIdx, ForwardADLevel<T>>

    /** Every active level sits at its own index. */
    ghost predicate Valid()
      reads this
    {
      forall i :: i in levels ==> levels[i].idx == i
    }

    /**
     The two-sided registration invariant, for the grads in `gs`: grad `g`
     holds a gradient for index `l` exactly when `l` is active and `g` is in
     the set of level `l`.
     */
    ghost predicate Consistent(gs: set<ForwardGrad<T>>)
      reads this, levels.Values, gs
    {
      && (forall g, l :: g in gs && l in g.content ==> l in levels && g in levels[l].grads)
      && (forall l, g :: l in levels && g in levels[l].grads && g in gs ==> l in g.content)
    }

    /** The active levels whose index is in `keys`. */
    ghost function LevelsAt(keys: set<LevelIdx>): (r: set<ForwardADLevel<T>>)
      reads this
      ensures forall i :: i in keys && i in levels ==> levels[i] in r
    {
      set i | i in keys && i in levels :: levels[i]
    }

    constructor ()
      ensures Valid() && levels == map[]
    {
      levels := map[];
    }

    /** Strict lookup: the caller guarantees that level `idx` is active. */
    method GetByIdx(idx: LevelIdx) returns (level: ForwardADLevel<T>)
      requires Valid() && idx in levels
      ensures level == levels[idx] && level.idx == idx
    {
      level := levels[idx];
    }

    /** Tolerant lookup: a level that is gone gives `None`. */
    method TryGetByIdx(idx: LevelIdx) returns (level: Option<ForwardADLevel<T>>)
      requires Valid()
      ensures level.Some? <==> idx in levels
      ensures level.Some? ==> level.value == levels[idx] && level.value.idx == idx
    {
      if idx in levels {
        level := Some(levels[idx]);
      } else {
        level := None;
      }
    }

    /**
     Enters a new level at index `idx`. Which index the allocator picks is not
     modelled: the caller chooses any index that is not active.
     */
    method EnterLevel(idx: LevelIdx, ghost gs: set<ForwardGrad<T>>) returns (level: ForwardADLevel<T>)
      requires Valid() && idx !in levels
      modifies this
      ensures Valid() && fresh(level)
      ensures levels == old(levels)[idx := level] && level.grads == {}
      ensures old(Consistent(gs)) ==> Consistent(gs)
    {
      level := new ForwardADLevel(idx);
      levels := levels[idx := level];
    }

    /**
     Releases level `idx`: it leaves the table, and every grad registered to
     it forgets its gradient for `idx` without calling back into the level.
     */
    method ReleaseIdx(idx: LevelIdx, ghost gs: set<ForwardGrad<T>>)
      requires Valid() && idx in levels
      modifies this, levels[idx].grads
      ensures Valid()
      ensures levels == old(levels) - {idx}
      ensures forall g :: g in old(levels[idx].grads) ==> g.content == old(g.content) - {idx}
      ensures old(Consistent(gs)) ==> forall g :: g in gs ==> idx !in g.content
      ensures old(Consistent(gs)) ==> Consistent(gs)
    {
      var level := levels[idx];
      levels := levels - {idx};
      var pending := level.grads;
      ghost var done: set<ForwardGrad<T>> := {};
      while pending != {}
        invariant pending + done == level.grads && pending !! done
        invariant levels == old(levels) - {idx}
        invariant forall g :: g in done ==> g.content == old(g.content) - {idx}
        invariant forall g :: g in pending ==> g.content == old(g.content)
        decreases pending
      {
        var g :| g in pending;
        g.Reset(idx, false, this, {});
        pending := pending - {g};
        done := done + {g};
      }
    }
  }

  /** The gradients of one variable, one per level. */
  class ForwardGrad<T> {
    var content: map<LevelIdx, T>

    constructor ()
      ensures content == map[]
    {
      content := map[];
    }

    /** The level indices this grad holds a gradient for, each exactly once. */
    method SnapshotKeys() returns (keys: seq<LevelIdx>)
      ensures forall l :: l in keys <==> l in content
      ensures forall i, j :: 0 <= i < j < |keys| ==> keys[i] != keys[j]
    {
      keys := [];
      var rest := content.Keys;
      while rest != {}
        invariant rest <= content.Keys
        invariant forall l :: l in keys <==> l in content && l !in rest
        invariant forall i, j :: 0 <= i < j < |keys| ==> keys[i] != keys[j]
        decreases rest
      {
        var l :| l in rest;
        keys := keys + [l];
        rest := rest - {l};
      }
    }

    /**
     Teardown before the owning variable goes away: unregisters this grad from
     every level it holds a gradient for that is still active, skipping levels
     already released. The gradients themselves are left in place.
     */
    method Clear(reg: LevelRegistry<T>, ghost gs: set<ForwardGrad<T>>)
      requires reg.Valid()
      modifies reg.LevelsAt(content.Keys)
      ensures content == old(content)
      ensures forall i :: i in reg.levels && i in content ==>
                reg.levels[i].grads == old(reg.levels[i].grads) - {this}
      ensures forall i :: i in reg.levels && i in content ==> this !in reg.levels[i].grads
      ensures forall i :: i in reg.levels && i !in content ==>
                reg.levels[i].grads == old(reg.levels[i].grads)
      ensures old(reg.Consistent(gs)) ==> reg.Consistent(gs - {this})
      ensures old(reg.Consistent(gs)) && this in gs ==>
                forall i :: i in reg.levels ==> this !in reg.levels[i].grads
    {
      var levelsIdx := SnapshotKeys();
      var k := 0;
      while k < |levelsIdx|
        invariant 0 <= k <= |levelsIdx|
        invariant forall i :: i in reg.levels && i in levelsIdx[..k] ==>
                    reg.levels[i].grads == old(reg.levels[i].grads) - {this}
        invariant forall i :: i in reg.levels && i !in levelsIdx[..k] ==>
                    reg.levels[i].grads == old(reg.levels[i].grads)
      {
        var level := reg.TryGetByIdx(levelsIdx[k]);
        if level.Some? {
          level.value.Erase(this);
        }
        assert levelsIdx[..k + 1] == levelsIdx[..k] + [levelsIdx[k]];
        k := k + 1;
      }
      assert levelsIdx[..k] == levelsIdx;
    }

    /**
     Stores `value` for level `level` and registers with that level, which must
     be active. An existing gradient for the level is kept: only a first store
     records `value`.
     */
    method SetValue(value: T, level: LevelIdx, reg: LevelRegistry<T>, ghost gs: set<ForwardGrad<T>>)
      requires reg.Valid() && level in reg.levels
      modifies this, reg.levels[level]
      ensures level in content
      ensures content == if level in old(content) then old(content) else old(content)[level := value]
      ensures reg.levels[level].grads == old(reg.levels[level].grads) + {this}
      ensures old(reg.Consistent(gs)) ==> reg.Consistent(gs)
    {
      var l := reg.GetByIdx(level);
      l.Insert(this);
      if level !in content {
        content := content[level := value];
      }
    }

    /**
     Drops the gradient for `level`. With `updateLevel` the level must be
     active and this grad leaves its set; without it (the path a released
     level takes) no level is touched.
     */
    method Reset(level: LevelIdx, updateLevel: bool, reg: LevelRegistry<T>, ghost gs: set<ForwardGrad<T>>)
      requires updateLevel ==> reg.Valid() && level in reg.levels
      modifies this, if updateLevel then {reg.levels[level]} else {}
      ensures level !in content
      ensures content == old(content) - {level}
      ensures updateLevel ==> reg.levels[level].grads == old(reg.levels[level].grads) - {this}
      ensures old(reg.Consistent(gs)) && (updateLevel || level !in reg.levels) ==> reg.Consistent(gs)
    {
      if updateLevel {
        var l := reg.GetByIdx(level);
        l.Erase(this);
      }
      content := content - {level};
    }

    /** Whether this grad holds a gradient for `level`. */
    method Contains(level: LevelIdx) returns (b: bool)
      ensures b <==> level in content
    {
      b := level in content;
    }

    /** Whether this grad holds no gradient at all. */
    method Empty() returns (b: bool)
      ensures b <==> content == map[]
      ensures b <==> forall l :: l !in content
    {
      b := |content| == 0;
    }
  }
}
