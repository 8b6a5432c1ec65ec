/**
 Clients of the level bookkeeping: each method drives a fresh registry and
 fresh grads through a sequence of operations and states, as its result, what
 the contracts of those operations guarantee about the outcome.
 */
module ForwardADScenarios {
  import opened ForwardAD

  /** A gradient stored for an active level is visible until that level is released. */
  method ReleaseResetsRegisteredGrad<T>(t: T) returns (stored: bool, afterRelease: bool)
    ensures stored && !afterRelease
  {
    var reg := new LevelRegistry<T>();
    var g := new ForwardGrad<T>();
    var _ := reg.EnterLevel(0, {g});
    g.SetValue(t, 0, reg, {g});
    stored := g.Contains(0);
    reg.ReleaseIdx(0, {g});
    afterRelease := g.Contains(0);
  }

  /** A second store for the same level keeps the first gradient. */
  method FirstStoreWins<T>(a: T, b: T) returns (kept: T, registered: bool)
    ensures kept == a && registered
  {
    var reg := new LevelRegistry<T>();
    var g := new ForwardGrad<T>();
    var level := reg.EnterLevel(0, {g});
    g.SetValue(a, 0, reg, {g});
    g.SetValue(b, 0, reg, {g});
    kept := g.content[0];
    registered := g in level.grads;
  }

  /**
   Two nested levels: releasing the inner one drops only its gradient, and
   the outer one can be released afterwards, leaving the grad empty.
   */
  method NestedLevels<T>(ta: T, tb: T) returns (outer: bool, inner: bool, emptyAtEnd: bool)
    ensures outer && !inner && emptyAtEnd
  {
    var reg := new LevelRegistry<T>();
    var g := new ForwardGrad<T>();
    var _ := reg.EnterLevel(0, {g});
    var _ := reg.EnterLevel(1, {g});
    g.SetValue(ta, 0, reg, {g});
    g.SetValue(tb, 1, reg, {g});
    reg.ReleaseIdx(1, {g});
    outer := g.Contains(0);
    inner := g.Contains(1);
    reg.ReleaseIdx(0, {g});
    emptyAtEnd := g.Empty();
  }

  /** An explicit reset with level update undoes the registration on both sides. */
  method ResetUnregisters<T>(t: T) returns (present: bool, registered: bool, isEmpty: bool)
    ensures !present && !registered && isEmpty
  {
    var reg := new LevelRegistry<T>();
    var g := new ForwardGrad<T>();
    var level := reg.EnterLevel(0, {g});
    g.SetValue(t, 0, reg, {g});
    g.Reset(0, true, reg, {g});
    present := g.Contains(0);
    registered := g in level.grads;
    isEmpty := g.Empty();
  }

  /**
   A grad registered to two levels is torn down; the levels no longer hold it,
   so releasing them afterwards leaves its gradients in place.
   */
  method ClearThenRelease<T>(ta: T, tb: T) returns (held0: bool, held1: bool, kept0: bool, kept1: bool)
    ensures !held0 && !held1 && kept0 && kept1
  {
    var reg := new LevelRegistry<T>();
    var g := new ForwardGrad<T>();
    var l0 := reg.EnterLevel(0, {g});
    var l1 := reg.EnterLevel(1, {g});
    g.SetValue(ta, 0, reg, {g});
    g.SetValue(tb, 1, reg, {g});
    g.Clear(reg, {g});
    held0 := g in l0.grads;
    held1 := g in l1.grads;
    reg.ReleaseIdx(1, {});
    reg.ReleaseIdx(0, {});
    kept0 := g.Contains(0);
    kept1 := g.Contains(1);
  }

  /** Tearing one grad down leaves the other grads of the same level registered. */
  method ClearLeavesOtherGrads<T>(ta: T, tb: T) returns (heldG: bool, heldH: bool, hasGradient: bool)
    ensures !heldG && heldH && hasGradient
  {
    var reg := new LevelRegistry<T>();
    var g := new ForwardGrad<T>();
    var h := new ForwardGrad<T>();
    var level := reg.EnterLevel(0, {g, h});
    g.SetValue(ta, 0, reg, {g, h});
    h.SetValue(tb, 0, reg, {g, h});
    g.Clear(reg, {g, h});
    heldG := g in level.grads;
    heldH := h in level.grads;
    hasGradient := h.Contains(0);
  }
}
