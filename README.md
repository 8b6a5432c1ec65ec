# Forward-mode AD levels and gradients

A model of the level bookkeeping of PyTorch's forward-mode automatic
differentiation (`torch/csrc/autograd/forward_grad.h`). Forward AD runs nested
invocations, each a *level* with an integer index. A `ForwardADLevel` keeps the
set of `ForwardGrad`s registered to it. A `ForwardGrad` holds one variable's
gradients, one per level index. The two objects register with each other.
Storing a gradient registers the grad with its level, and resetting it
unregisters the grad. A grad that is torn down (`clear`) unregisters itself from
every level still alive. A level that is released resets its gradient on every
grad registered to it.

The model is imperative, as the source is:

- `ForwardAD.ForwardADLevel<T>` has a constant `idx` and a `grads` set field that `Insert` and `Erase` reassign.
- `ForwardAD.ForwardGrad<T>` has a `content` map field from level index to gradient.
- `ForwardAD.LevelRegistry<T>` stands for the static table of active levels. It is a map from index to level, passed explicitly to the operations that look levels up.

The gradient tensor is the type parameter `T`; it is stored, never inspected.
Grad identity is object identity, as in the source's set of shared pointers.
Level indices are unsigned 64-bit integers (`LevelIdx`).

The central invariant is `LevelRegistry.Consistent(gs)`: for each grad `g` in
`gs`, `g` holds a gradient for index `l` exactly when `l` is active and `g` is
in level `l`'s set. `EnterLevel`, `ReleaseIdx` and `SetValue` state that they
preserve it. `Reset` states it when it updates the level, or when the level is
already released; `Reset` without the level update on an active level is the
inner step of a release and breaks the invariant until the release finishes.
`Clear` keeps `content` and drops the registrations, so after it the invariant
holds for the other grads, and no active level lists the torn-down grad.
`Insert` and `Erase` are the level-side halves of these operations and carry no
invariant clause of their own.

Module `ForwardADScenarios` holds client methods. Each one drives fresh objects
through the operations and proves, from the contracts alone, what the caller
observes.

## Model

| member | source | states |
|---|---|---|
| `ForwardAD.ForwardADLevel.constructor` | torch/csrc/autograd/forward_grad.h:42 | a new level carries the given index and has no registered grads |
| `ForwardAD.ForwardGrad.constructor` | torch/csrc/autograd/forward_grad.h:69 | a new grad holds no gradient |
| `ForwardAD.LevelRegistry.constructor` | torch/csrc/autograd/forward_grad.h:45-48 | the table of active levels starts empty and every level sits at its own index |
| `ForwardAD.ForwardADLevel.Insert` | torch/csrc/autograd/forward_grad.h:55-58 | the grad joins `grads`; if it was already registered the set is unchanged (idempotent) |
| `ForwardAD.ForwardADLevel.Erase` | torch/csrc/autograd/forward_grad.h:50-53 | exactly that grad leaves `grads`, every other grad stays; erasing an absent grad is a no-op |
| `ForwardAD.LevelRegistry.GetByIdx` | torch/csrc/autograd/forward_grad.h:47 | strict lookup: the index must be active, and the level returned is the one at that index and carries that index |
| `ForwardAD.LevelRegistry.TryGetByIdx` | torch/csrc/autograd/forward_grad.h:48 | tolerant lookup: returns a level iff the index is active, and then the level at that index |
| `ForwardAD.LevelRegistry.EnterLevel` | torch/csrc/autograd/forward_grad.h:42-45 | a fresh level with no grads becomes active at an index that was inactive; other levels unchanged; the registration invariant is preserved |
| `ForwardAD.LevelRegistry.ReleaseIdx` | torch/csrc/autograd/forward_grad.h:29-32 | the level leaves the table, every grad registered to it loses exactly its entry for that index, no other grad or level changes; under the registration invariant no grad holds a gradient for the released index afterwards, and the invariant is preserved |
| `ForwardAD.ForwardGrad.SnapshotKeys` | torch/csrc/autograd/forward_grad.h:79-86 | the snapshot lists every key of `content`, each exactly once, and nothing else |
| `ForwardAD.ForwardGrad.Clear` | torch/csrc/autograd/forward_grad.h:78-98 | `content` is unchanged; each active level whose index was a key loses exactly this grad and no longer holds it; inactive indices are skipped; other levels unchanged; the invariant still holds for all other grads, and if it held for this grad no active level lists it afterwards |
| `ForwardAD.ForwardGrad.SetValue` | torch/csrc/autograd/forward_grad.h:100-105 | requires the level active; afterwards the grad has the key and is in that level's set; a first store records the value, a later store keeps the existing one; no other key or level changes; the invariant is preserved |
| `ForwardAD.ForwardGrad.Reset` | torch/csrc/autograd/forward_grad.h:107-114 | the key is dropped and every other key kept (absent key: no-op); with `updateLevel` the level must be active and loses this grad; without it no level is touched; the invariant is preserved when the level is updated or already gone |
| `ForwardAD.ForwardGrad.Contains` | torch/csrc/autograd/forward_grad.h:118-121 | true iff the index is a key of `content`; changes nothing |
| `ForwardAD.ForwardGrad.Empty` | torch/csrc/autograd/forward_grad.h:123-125 | true iff `content` has no key; changes nothing |
| `ForwardADScenarios.ReleaseResetsRegisteredGrad` | torch/csrc/autograd/forward_grad.h:29-32 | a stored gradient is visible, and releasing its level makes `contains` false without a call on the grad |
| `ForwardADScenarios.FirstStoreWins` | torch/csrc/autograd/forward_grad.h:100-105 | two stores for one level keep the first value, and the grad is registered once |
| `ForwardADScenarios.NestedLevels` | torch/csrc/autograd/forward_grad.h:16-32 | with two levels, releasing the inner one drops only its gradient; releasing the outer one then leaves the grad empty |
| `ForwardADScenarios.ResetUnregisters` | torch/csrc/autograd/forward_grad.h:107-114 | reset with level update removes the gradient and the registration, leaving the grad empty |
| `ForwardADScenarios.ClearThenRelease` | torch/csrc/autograd/forward_grad.h:71-98 | after teardown neither level holds the grad, and releasing both levels afterwards leaves its gradients untouched |
| `ForwardADScenarios.ClearLeavesOtherGrads` | torch/csrc/autograd/forward_grad.h:78-98 | tearing down one grad keeps another grad of the same level registered with its gradient |

## Left out

- Mutexes and lock guards: each operation is modelled as one atomic sequential step, so interleavings are not verified. The `try_get_by_idx` skip in `clear` is modelled, but under the registration invariant every key of `content` is an active index, so the skip is reachable only through such an interleaving.
- `shared_ptr` and `enable_shared_from_this`: reference counts and object lifetimes are replaced by object identity. The level's destructor cascade is part of `ReleaseIdx`, as if the registry held the last reference.
- `get_next_idx`: its body is not part of this model. `EnterLevel` takes the new index as a parameter and requires only that it is inactive, so no allocation or reuse policy is assumed.
- `release_idx`: its body is not part of this model. `ReleaseIdx` requires the index to be active and does what the comment at lines 29-32 promises. It does not enforce any order of release.
- `get_by_idx` on an inactive index: its body is not part of this model, so `GetByIdx` (and `SetValue`, and `Reset` with `updateLevel`) require the index to be active instead of modelling a failure.
- `value` and `undef_grad`: their bodies are not part of this model. The stored gradient is read directly from `content` instead.
- `isForwardADEnabled` / `setForwardADEnabled`: a global flag with no logic shown.
- `EXPECTED_MAX_LEVEL`: only a capacity hint for the snapshot vector, not a bound.
- The iteration order of `content_` in `clear`: `SnapshotKeys` picks keys in an unspecified order, and `Clear` does not depend on it.
