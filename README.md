# nn::Matrix<T>: a reference-counted matrix handle, in Dafny

`nn::Matrix<T>` (matrix.h) is a handle on a 2D dense matrix whose storage is
shared. Every non-empty handle points at a shared cell holding the element
buffer, the width, the height and a reference count. Copying or assigning a
handle shares the cell and counts one more reference. Releasing a handle
(`gc`, the destructor) counts one fewer and frees the cell when none remain.
`create_local` gives the handle a private new cell. `create_global` replaces
the buffer and dimensions inside the shared cell, so every alias sees the new
matrix. `get` returns a reference to an element after a bounds check,
`get_unchecked` without one. `clone` makes an independent deep copy.

The model has four modules:

- `Indexing` (indexing.dfy): where element (x, y) lives in the buffer.
- `ReleaseRule` (release.dfy): how a release decides to free the cell.
- `SharedMatrix` (matrix.dfy): the classes `Cell` (the shared cell) and
  `Matrix` (the handle), whose methods update them in place.
- `Scenarios` (scenarios.dfy): client methods that drive concrete handles
  through the operations and promise the values they read back.

`SharedMatrix` also has a ghost `Registry` of the live handles, the live cells
and the cells freed so far. Its `Valid()` is the invariant that every
operation requires and preserves:

- each live handle's cell is live;
- a live cell has not been freed;
- a live cell has `width >= 0`, `height >= 0` and a buffer of
  `width * height` elements;
- a live cell's `refct` equals the number of live handles that reference
  it, and is at least 1;
- no two live cells share a buffer.

An empty handle is a `Matrix` whose `cell` is `null`. `get` returns a `Ref`:
the buffer and an offset in it. A caller writes `buf[offset]`, so a write is
seen by every handle on the same cell, as with the source's `T&`.

Allocation failure is a caller-supplied flag `oom`. The two error kinds are
`AllocationFailure` and `OutOfRange`. `get` reports `OutOfRange` as a result
value instead of throwing. The create operations return a success flag, as
in the source.

## Behaviour that differs from matrix.h

The model corrects these defects in matrix.h:

- Element offset. matrix.h:142 and matrix.h:154 use `width * x + y`. That is a
  bijection onto the buffer only for square matrices. The model uses
  `x * height + y` in both accessors (see Findings).
- Release. `gc` tests `*_refct-- <= 0` (matrix.h:44). Postfix `--` binds
  tighter than `*`, so the line compares the count with zero and then moves
  the pointer `_refct` back by one `long`. The count itself is never lowered.
  It only ever rises (matrix.h:208, matrix.h:225), so a cell whose count is at
  least 1 is never freed. The model decrements the count and frees the cell
  when it reaches zero (see Findings). In the model, release always empties
  the handle.
- `clone` passes the pointers `_width` and `_height` to the constructor
  instead of their values (matrix.h:165). The model passes the dimensions.
- Copying or assigning from an empty handle dereferences a null count
  (matrix.h:208, matrix.h:225). In the model the target ends up empty.
  Cloning an empty handle reads the null dimensions (matrix.h:165-166). In the
  model it gives an empty handle.
- Clone under allocation failure. When the new matrix cannot be allocated,
  `memcpy` writes into a buffer that was never allocated (matrix.h:165-166).
  In the model the clone is an empty handle.
- Self-assignment. In `a = a` the argument `m` is `*this`. So `construct()`
  (matrix.h:220) also nulls `m`'s pointers. Lines 221-224 then copy nulls,
  and line 225 dereferences a null count, whatever the release rule. The
  model's `Assign` does nothing when both handles already share a cell, or
  are both empty.
- Failure in `create_local`. When one of the four field allocations fails
  (matrix.h:76-84), the cleanup deletes only the pointers that are null,
  which does nothing. The handle keeps the fields that were allocated,
  uninitialised, and nulls for the rest. They leak, and the handle is left
  half-built. The branch at matrix.h:92-100 cannot run, because line 90 uses
  throwing `new`: a failed buffer allocation throws `bad_alloc` out of
  `create_local`. In the model every allocation failure returns false and
  leaves the handle empty. Its previous cell has already been released, as
  in the source.
- Negative dimensions. The source passes `width * height` to `new`. The model
  treats a negative width or height as an allocation failure. This keeps
  `width >= 0` and `height >= 0` as invariants.

## Model

| member | source | states |
|---|---|---|
| `Indexing.OffsetInBounds` | matrix.h:142 | every in-range (x, y) has an offset in [0, width * height) |
| `Indexing.OffsetInjective` | matrix.h:154 | two in-range coordinates with the same offset are the same coordinate |
| `Indexing.OffsetOnto` | matrix.h:142 | every offset below width * height is the offset of an in-range coordinate (k / height, k % height), so the mapping is a bijection |
| `Indexing.SourceOffsetSquare` | matrix.h:154 | for a square matrix the source's `width * x + y` is the model's offset |
| `Indexing.SourceOffsetEscapesBuffer` | matrix.h:142 | as written, the in-range (2, 1) of a 3-by-2 matrix maps to offset 7, past the 6-element buffer |
| `Indexing.SourceOffsetCollides` | matrix.h:154 | as written, (0, 2) and (1, 0) of a 2-by-3 matrix share offset 2 |
| `ReleaseRule.FreedExactlyByLastOwner` | matrix.h:41-59 | with the corrected rule, when k of a cell's n >= k owners release it in turn, it is freed exactly once if k = n > 0 and never otherwise |
| `ReleaseRule.SourceNeverFreesOwnedCell` | matrix.h:44 | with the source's rule, which compares the count with zero and never lowers it, a cell with count at least 1 is never freed, however many releases follow |
| `SharedMatrix.SoleHolder` | matrix.h:17 | in a valid registry, a cell with count 1 is referenced by exactly one live handle |
| `SharedMatrix.NoDanglingHandle` | matrix.h:41-59 | in a valid registry, a live handle's cell is live, not freed, counts the handle among its holders and has count >= 1 |
| `SharedMatrix.Cell.constructor` | matrix.h:87-90 | a new cell has the given buffer, width and height, and count 1 |
| `SharedMatrix.Matrix.Empty` | matrix.h:176-179 | `Matrix()` with `construct()`: the new handle is empty and registered; no cell is created or changed; the invariant holds |
| `SharedMatrix.Matrix.constructor` | matrix.h:188-192 | `Matrix(w, h)`: on success a fresh cell with count 1, dimensions w and h, a fresh w*h buffer, and this handle as its only holder; on failure an empty handle; the invariant holds |
| `SharedMatrix.Matrix.Copy` | matrix.h:200-209 | the new handle shares the source's cell, whose count rises by exactly one; copying an empty handle gives an empty handle |
| `SharedMatrix.Matrix.Attach` | matrix.h:203-208 | an empty handle takes the source's cell, and that cell's count rises by one; the invariant holds |
| `SharedMatrix.Matrix.Gc` | matrix.h:41-59 | on an empty handle returns false and changes nothing; otherwise returns true, lowers the count by one, frees the cell (moves it from live to freed) exactly when the count was 1, and leaves the handle empty |
| `SharedMatrix.Matrix.Release` | matrix.h:236-239 | the destructor: the release of `Gc`, and the handle leaves the live set |
| `SharedMatrix.Matrix.CreateLocal` | matrix.h:69-103 | releases the previous cell first; on success a brand-new cell with count 1, the given dimensions, a w*h buffer and no other holder; on failure returns false and leaves the handle empty |
| `SharedMatrix.Matrix.AttachFresh` | matrix.h:72-97 | an empty handle gets a fresh cell with count 1, the given dimensions and a fresh w*h buffer, held by it alone |
| `SharedMatrix.Matrix.CreateGlobal` | matrix.h:112-129 | on an empty handle acts as `CreateLocal`; otherwise keeps the same cell, count and holders, and on success installs a fresh w*h buffer and the new dimensions, seen by every holder; on failure returns false and the cell is unchanged |
| `SharedMatrix.Matrix.Assign` | matrix.h:217-228 | the target ends up on the source's cell; if the two differed, the target's old cell is released first (freed exactly when it was the last reference) and the source's count rises by one; if they were already shared, nothing changes |
| `SharedMatrix.Matrix.Get` | matrix.h:138-143 | fails with OutOfRange exactly when the handle is empty or (x, y) is outside [0, width) x [0, height); otherwise a reference into the cell's buffer at `Offset`, which is inside the buffer; nothing is modified |
| `SharedMatrix.Matrix.GetUnchecked` | matrix.h:152-155 | for an in-range (x, y), the same reference as `Get`, inside the buffer |
| `SharedMatrix.Matrix.Clone` | matrix.h:163-168 | a new handle on a fresh cell with count 1, a fresh buffer, the same dimensions and the same elements; the source's cell and buffer are unchanged; empty source or failed allocation gives an empty handle |
| `SharedMatrix.CopyElements` | matrix.h:166 | the `memcpy`: the destination holds the source's elements |
| `Scenarios.CopySharesWrites` | matrix.h:200-209 | after B = A, a 5 written through B is read back through A |
| `Scenarios.CloneCopiesElements` | matrix.h:163-168 | a clone holds the element written into the original before the clone |
| `Scenarios.CloneIsolatesWrites` | matrix.h:166 | a 9 written through a clone leaves the original's element unchanged |
| `Scenarios.CreateGlobalResizesAliases` | matrix.h:120-126 | after B = A and A.create_global(3, 3), B's (2, 2) is in range |
| `Scenarios.FailedCreateGlobalKeepsCell` | matrix.h:120-121 | a failed create_global on an alias keeps the shared 2-by-2 dimensions |
| `Scenarios.CreateLocalIsolates` | matrix.h:69-103 | after B = A and B.create_local(4, 4), (3, 3) is in range for B only |
| `Scenarios.FailedCreateLocalLeavesEmpty` | matrix.h:76-84 | after a failed create_local, get reports OutOfRange |
| `Scenarios.SelfAssignKeepsCell` | matrix.h:217-228 | A = A keeps A's cell, its contents and count 1 |
| `Scenarios.AssignFromEmpty` | matrix.h:217-225 | assigning an empty handle leaves the target empty |
| `Scenarios.LastHandleKeepsCell` | matrix.h:236-239 | after n copies of A are made and then destroyed in any order, A still reads what was written and its count is 1 |

## Findings

| source | as written | input that shows it | evidently intended | confidence | as-written member | corrected member |
|---|---|---|---|---|---|---|
| matrix.h:142 | offset `width * x + y` | 3-by-2 matrix, (x, y) = (2, 1): offset 7 in a 6-element buffer | every in-range element inside the buffer | high; not executed | `Indexing.SourceOffsetEscapesBuffer` | `Indexing.OffsetInBounds` |
| matrix.h:154 | offset `width * x + y` | 2-by-3 matrix, (0, 2) and (1, 0) both at offset 2 | distinct elements at distinct offsets | high; not executed | `Indexing.SourceOffsetCollides` | `Indexing.OffsetInjective` |
| matrix.h:44 | `if(*_refct-- <= 0)` compares the count with 0 and decrements the pointer `_refct`, not the count | `Matrix<int> a(2, 2);` then a's destructor: count 1, `1 <= 0` is false, the count stays 1, the cell is never freed | free when the last reference goes (count reaches 0) | high; not executed | `ReleaseRule.SourceNeverFreesOwnedCell` | `ReleaseRule.FreedExactlyByLastOwner` |

## Left out

- Thread safety. The source has no synchronisation and assumes one thread.
- The memory layout: four separately allocated fields, `new (std::nothrow)`
  versus throwing `new`, `delete` versus `delete[]` (matrix.h:123), and the
  `deleteif` macro (matrix.h:78-83). The cell is one object. Freeing a cell
  moves it from the live set to the freed set of the ghost registry.
- Allocation failure as a real event. It is the caller's `oom` flag.
- `memcpy` byte-copy semantics (matrix.h:166). The copy is element by element.
- The old buffer that `create_global` deletes (matrix.h:123). A `Ref` taken
  before the call still points at the old array in the model. In the source
  that reference dangles.
- The contents of a new buffer. `new T[n]` leaves them unspecified, and the
  model promises nothing about them.
- 64-bit `long` arithmetic. Widths, heights and `width * height` are unbounded
  integers, so overflow of the product is not modelled.
- The pointer `_refct` moving back one `long` on each release (matrix.h:44).
  The model of the source's rule keeps only its effect on the count, which
  is none.
- The numeric matrix operations, the `core.h` include (matrix.h:4), and the
  virtual destructor. core.h is not part of this model.
- `construct()` (matrix.h:27-33) is not a separate member. Its effect, setting
  the handle empty, is part of `Empty`, of the dimension constructor and of
  every release.
