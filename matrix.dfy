/** nn::Matrix<T>: a handle on a 2D dense matrix whose storage cell is shared
    by reference counting.

    A `Cell` is the shared state: the element buffer, width, height and
    reference count. A `Matrix` is a handle that references a cell or none
    (the empty handle). Copying a handle shares its cell; releasing a handle
    drops one reference and frees the cell when the last one goes.

    A ghost `Registry` records the live handles, the live cells and the
    cells freed so far. Its `Valid()` is the invariant every operation
    preserves: each live cell's count equals the number of live handles on
    it and is at least one, its buffer holds width * height elements, and no
    two live cells share a buffer. */
module SharedMatrix {
  import opened Indexing
  import opened ReleaseRule

  /** The two ways an operation fails. */
  datatype Error = AllocationFailure | OutOfRange

  datatype Result<T> = Ok(value: T) | Err(error: Error)

  /** A mutable reference to one element (the source's `T&`): the buffer and
      the offset of the element in it. Writing `buf[offset]` writes the
      element for every handle that shares the buffer's cell. */
  datatype Ref<T> = Ref(buf: array<T>, offset: int)

  /** Whether allocating a width-by-height buffer succeeds; `oom` stands for
      the allocator reporting failure. Negative dimensions fail too. */
  predicate AllocSucceeds(width: int, height: int, oom: bool)
  {
    !oom && 0 <= width && 0 <= height
  }

  /** The shared state of all handles on one matrix. */
  class Cell<T> {
    var buf: array<T>
    var width: int
    var height: int
    var refct: int

    constructor (buf: array<T>, width: int, height: int)
      ensures this.buf == buf && this.width == width && this.height == height
      ensures refct == 1
    {
      this.buf := buf;
      this.width := width;
      this.height := height;
      refct := 1;
    }
  }

  /** Ghost bookkeeping of which handles and cells are live. */
  class Registry<T(0)> {
    ghost var handles: set<Matrix<T>>
    ghost var cells: set<Cell<T>>
    ghost var freed: set<Cell<T>>

    /** The live handles that reference `c`. */
    ghost function Holders(c: Cell<T>): set<Matrix<T>>
      reads this, handles
    {
      set h | h in handles && h.cell == c
    }

    ghost predicate Valid()
      reads this, handles, cells
    {
      && (forall h :: h in handles && h.cell != null ==> h.cell in cells)
      && (forall c :: c in cells ==> c !in freed)
      && (forall c :: c in cells ==>
            0 <= c.width && 0 <= c.height && c.buf.Length == c.width * c.height)
      && (forall c :: c in cells ==> c.refct == |Holders(c)| && 1 <= c.refct)
      && (forall c, d :: c in cells && d in cells && c != d ==> c.buf != d.buf)
    }

    constructor ()
      ensures Valid()
      ensures handles == {} && cells == {} && freed == {}
    {
      handles, cells, freed := {}, {}, {};
    }
  }

  /** A cell whose count is one has exactly one live holder. */
  lemma SoleHolder<T(0)>(reg: Registry<T>, h: Matrix<T>)
    requires reg.Valid() && h in reg.handles
    requires h.cell != null && h.cell.refct == 1
    ensures reg.Holders(h.cell) == {h}
  {
    var s := reg.Holders(h.cell);
    var rest := s - {h};
    assert s == rest + {h};
    assert |rest| == 0;
  }

  /** No live handle references a freed cell, and the cell it references
      counts it among at least one reference. */
  lemma NoDanglingHandle<T(0)>(reg: Registry<T>, h: Matrix<T>)
    requires reg.Valid() && h in reg.handles && h.cell != null
    ensures h.cell in reg.cells && h.cell !in reg.freed
    ensures h in reg.Holders(h.cell) && 1 <= h.cell.refct
  {
  }

  /** Taking `x` out of a set lowers its size by one exactly when `x` was in it. */
  lemma SizeWithout<X>(a: set<X>, x: X)
    ensures |a| == |a - {x}| + (if x in a then 1 else 0)
  {
    if x in a {
      assert a == (a - {x}) + {x};
    } else {
      assert a - {x} == a;
    }
  }

  /** Two sets that agree except on `x` differ in size by `x` alone. */
  lemma SizeAfterMove<X>(before: set<X>, after: set<X>, x: X)
    requires forall y :: y != x ==> (y in before <==> y in after)
    ensures |after| == |before| - (if x in before then 1 else 0) + (if x in after then 1 else 0)
  {
    assert before - {x} == after - {x};
    SizeWithout(before, x);
    SizeWithout(after, x);
  }

  /** The handle. */
  class Matrix<T(0)> {
    var cell: Cell?<T>

    /** The number of columns this handle sees (0 when empty). */
    ghost function Width(): int
      reads this, cell
    {
      if cell == null then 0 else cell.width
    }

    /** The number of rows this handle sees (0 when empty). */
    ghost function Height(): int
      reads this, cell
    {
      if cell == null then 0 else cell.height
    }

    /** The cell this handle holds, as a set (empty for the empty handle). */
    ghost function Held(): set<Cell<T>>
      reads this
    {
      if cell == null then {} else {cell}
    }

    /** The cell this handle frees if it releases now: its cell when it is
        the last reference to it, and none otherwise. */
    ghost function LastRef(): set<Cell<T>>
      reads this, cell
    {
      if cell != null && cell.refct == 1 then {cell} else {}
    }

    /** Matrix(): an empty handle; nothing is allocated. */
    constructor Empty(ghost reg: Registry<T>)
      requires reg.Valid()
      modifies reg
      ensures cell == null
      ensures reg.Valid()
      ensures reg.handles == old(reg.handles) + {this}
      ensures reg.cells == old(reg.cells) && reg.freed == old(reg.freed)
    {
      cell := null;
      new;
      reg.handles := reg.handles + {this};
      forall c | c in reg.cells
        ensures reg.Holders(c) == old(reg.Holders(c))
      {
      }
    }

    /** Matrix(width, height): an empty handle that then allocates. */
    constructor (width: int, height: int, oom: bool, ghost reg: Registry<T>)
      requires reg.Valid()
      modifies reg
      ensures reg.Valid()
      ensures reg.handles == old(reg.handles) + {this}
      ensures reg.freed == old(reg.freed)
      ensures AllocSucceeds(width, height, oom) ==>
        && cell != null && fresh(cell) && fresh(cell.buf)
        && cell.width == width && cell.height == height
        && cell.buf.Length == width * height && cell.refct == 1
        && reg.Holders(cell) == {this}
        && reg.cells == old(reg.cells) + {cell}
      ensures !AllocSucceeds(width, height, oom) ==>
        cell == null && reg.cells == old(reg.cells)
    {
      cell := null;
      new;
      reg.handles := reg.handles + {this};
      forall c | c in reg.cells
        ensures reg.Holders(c) == old(reg.Holders(c))
      {
      }
      var _ := CreateGlobal(width, height, oom, reg);
    }

    /** The copy constructor: share the source handle's cell. */
    constructor Copy(src: Matrix<T>, ghost reg: Registry<T>)
      requires reg.Valid() && src in reg.handles
      modifies reg, src.Held()`refct
      ensures reg.Valid()
      ensures cell == src.cell
      ensures cell != null ==> cell.refct == old(src.cell.refct) + 1
      ensures reg.handles == old(reg.handles) + {this}
      ensures reg.cells == old(reg.cells) && reg.freed == old(reg.freed)
    {
      cell := null;
      new;
      reg.handles := reg.handles + {this};
      forall c | c in reg.cells
        ensures reg.Holders(c) == old(reg.Holders(c))
      {
      }
      Attach(src, reg);
    }

    /** Share `src`'s cell with this empty handle, counting one more
        reference to it; the one way a handle joins an existing cell. */
    method Attach(src: Matrix<T>, ghost reg: Registry<T>)
      requires reg.Valid() && this in reg.handles && src in reg.handles
      requires cell == null
      modifies this, src.Held()`refct
      ensures reg.Valid()
      ensures cell == old(src.cell)
      ensures cell != null ==> cell.refct == old(src.cell.refct) + 1
    {
      cell := src.cell;
      if cell != null {
        cell.refct := cell.refct + 1;
      }
      forall d | d in reg.cells
        ensures d.refct == |reg.Holders(d)|
      {
        SizeAfterMove(old(reg.Holders(d)), reg.Holders(d), this);
      }
    }

    /** gc: drop this handle's reference, free the cell when it was the
        last one, and leave the handle empty. Reports whether there was a
        reference to drop. */
    method Gc(ghost reg: Registry<T>) returns (released: bool)
      requires reg.Valid() && this in reg.handles
      modifies this, reg, Held()`refct
      ensures reg.Valid() && cell == null
      ensures released == (old(cell) != null)
      ensures old(cell) != null ==> old(cell).refct == old(cell.refct) - 1
      ensures reg.cells == old(reg.cells) - old(LastRef())
      ensures reg.freed == old(reg.freed) + old(LastRef())
      ensures reg.handles == old(reg.handles)
    {
      if cell == null {
        return false;
      }
      var c := cell;
      if c.refct == 1 {
        SoleHolder(reg, this);
      }
      var step := ReleaseStep(c.refct);
      c.refct := step.0;
      cell := null;
      if step.1 {
        reg.cells := reg.cells - {c};
        reg.freed := reg.freed + {c};
      }
      forall d | d in reg.cells
        ensures d.refct == |reg.Holders(d)|
      {
        SizeAfterMove(old(reg.Holders(d)), reg.Holders(d), this);
      }
      forall h | h in reg.handles && h.cell != null
        ensures h.cell in reg.cells
      {
        assert h != this && h.cell == old(h.cell);
        assert h in old(reg.Holders(h.cell));
        if step.1 {
          assert h !in old(reg.Holders(c));
        }
      }
      released := true;
    }

    /** ~Matrix: release the reference and retire the handle. */
    method Release(ghost reg: Registry<T>)
      requires reg.Valid() && this in reg.handles
      modifies this, reg, Held()`refct
      ensures reg.Valid() && cell == null
      ensures old(cell) != null ==> old(cell).refct == old(cell.refct) - 1
      ensures reg.cells == old(reg.cells) - old(LastRef())
      ensures reg.freed == old(reg.freed) + old(LastRef())
      ensures reg.handles == old(reg.handles) - {this}
    {
      var _ := Gc(reg);
      label Emptied:
      reg.handles := reg.handles - {this};
      forall d | d in reg.cells
        ensures d.refct == |reg.Holders(d)|
      {
        SizeAfterMove(old@Emptied(reg.Holders(d)), reg.Holders(d), this);
      }
    }

    /** create_local: release the current cell, then give the handle a
        brand-new private cell; on failure the handle is left empty. */
    method CreateLocal(width: int, height: int, oom: bool, ghost reg: Registry<T>)
      returns (ok: bool)
      requires reg.Valid() && this in reg.handles
      modifies this, reg, Held()`refct
      ensures reg.Valid()
      ensures ok == AllocSucceeds(width, height, oom)
      ensures old(cell) != null ==> old(cell).refct == old(cell.refct) - 1
      ensures reg.freed == old(reg.freed) + old(LastRef())
      ensures reg.handles == old(reg.handles)
      ensures ok ==>
        && cell != null && fresh(cell) && fresh(cell.buf)
        && cell.width == width && cell.height == height
        && cell.buf.Length == width * height && cell.refct == 1
        && reg.Holders(cell) == {this}
        && reg.cells == old(reg.cells) - old(LastRef()) + {cell}
      ensures !ok ==> cell == null && reg.cells == old(reg.cells) - old(LastRef())
    {
      var _ := Gc(reg);
      if !AllocSucceeds(width, height, oom) {
        return false;
      }
      AttachFresh(width, height, reg);
      ok := true;
    }

    /** Give this empty handle a brand-new cell of the given dimensions,
        whose only reference is this handle. */
    method AttachFresh(width: int, height: int, ghost reg: Registry<T>)
      requires reg.Valid() && this in reg.handles && cell == null
      requires 0 <= width && 0 <= height
      modifies this, reg
      ensures reg.Valid()
      ensures reg.handles == old(reg.handles) && reg.freed == old(reg.freed)
      ensures cell != null && fresh(cell) && fresh(cell.buf)
      ensures cell.width == width && cell.height == height
      ensures cell.buf.Length == width * height && cell.refct == 1
      ensures reg.Holders(cell) == {this}
      ensures reg.cells == old(reg.cells) + {cell}
    {
      var buf := new T[width * height];
      var c := new Cell(buf, width, height);
      cell := c;
      reg.cells := reg.cells + {c};
      forall d | d in reg.cells && d != c
        ensures d.refct == |reg.Holders(d)|
      {
        SizeAfterMove(old(reg.Holders(d)), reg.Holders(d), this);
      }
      assert reg.Holders(c) == {this};
    }

    /** create_global: an empty handle allocates as create_local does; a
        handle on a cell replaces that cell's buffer and dimensions in place,
        so every handle sharing the cell sees the new matrix. On allocation
        failure the cell is left as it was. */
    method CreateGlobal(width: int, height: int, oom: bool, ghost reg: Registry<T>)
      returns (ok: bool)
      requires reg.Valid() && this in reg.handles
      modifies this, reg, cell
      ensures reg.Valid()
      ensures ok == AllocSucceeds(width, height, oom)
      ensures reg.handles == old(reg.handles) && reg.freed == old(reg.freed)
      ensures old(cell) == null && ok ==>
        && cell != null && fresh(cell) && fresh(cell.buf)
        && cell.width == width && cell.height == height
        && cell.buf.Length == width * height && cell.refct == 1
        && reg.Holders(cell) == {this}
        && reg.cells == old(reg.cells) + {cell}
      ensures old(cell) == null && !ok ==> cell == null && reg.cells == old(reg.cells)
      ensures old(cell) != null ==>
        && cell == old(cell) && cell.refct == old(cell.refct)
        && reg.Holders(cell) == old(reg.Holders(cell))
        && reg.cells == old(reg.cells)
      ensures old(cell) != null && ok ==>
        && fresh(cell.buf) && cell.buf.Length == width * height
        && forall g :: g in old(reg.Holders(cell)) ==> g.Width() == width && g.Height() == height
      ensures old(cell) != null && !ok ==>
        cell.buf == old(cell.buf) && cell.width == old(cell.width) && cell.height == old(cell.height)
    {
      if cell == null {
        ok := CreateLocal(width, height, oom, reg);
        return;
      }
      if !AllocSucceeds(width, height, oom) {
        return false;
      }
      var arr := new T[width * height];
      cell.buf := arr;
      cell.width := width;
      cell.height := height;
      forall d | d in reg.cells
        ensures reg.Holders(d) == old(reg.Holders(d))
      {
      }
      ok := true;
    }

    /** operator=: release the current cell and share the source's. When
        both handles already share a cell (or are both empty) nothing
        changes, so assigning a handle to itself never frees its cell. */
    method Assign(src: Matrix<T>, ghost reg: Registry<T>)
      requires reg.Valid() && this in reg.handles && src in reg.handles
      modifies this, reg, Held()`refct, src.Held()`refct
      ensures reg.Valid() && reg.handles == old(reg.handles)
      ensures cell == old(src.cell)
      ensures old(cell) == old(src.cell) ==>
        && reg.cells == old(reg.cells) && reg.freed == old(reg.freed)
        && (cell != null ==> cell.refct == old(cell.refct))
      ensures old(cell) != old(src.cell) ==>
        && reg.cells == old(reg.cells) - old(LastRef())
        && reg.freed == old(reg.freed) + old(LastRef())
        && (old(cell) != null ==> old(cell).refct == old(cell.refct) - 1)
        && (cell != null ==> cell.refct == old(src.cell.refct) + 1)
    {
      if cell == src.cell {
        return;
      }
      var _ := Gc(reg);
      Attach(src, reg);
    }

    /** get: a reference to element (x, y), or OutOfRange when the handle is
        empty or (x, y) is outside the matrix. */
    method Get(x: int, y: int, ghost reg: Registry<T>) returns (r: Result<Ref<T>>)
      requires reg.Valid() && this in reg.handles
      ensures r.Err? <==> cell == null || !InRange(cell.width, cell.height, x, y)
      ensures r.Err? ==> r.error == OutOfRange
      ensures r.Ok? ==>
        && r.value.buf == cell.buf
        && r.value.offset == Offset(cell.height, x, y)
        && 0 <= r.value.offset < cell.buf.Length
    {
      if cell == null || !InRange(cell.width, cell.height, x, y) {
        return Err(OutOfRange);
      }
      OffsetInBounds(cell.width, cell.height, x, y);
      r := Ok(Ref(cell.buf, Offset(cell.height, x, y)));
    }

    /** get_unchecked: the same reference as `Get`, for callers that have
        already established that (x, y) is in range. */
    method GetUnchecked(x: int, y: int, ghost reg: Registry<T>) returns (r: Ref<T>)
      requires reg.Valid() && this in reg.handles
      requires cell != null && InRange(cell.width, cell.height, x, y)
      ensures r.buf == cell.buf
      ensures r.offset == Offset(cell.height, x, y)
      ensures 0 <= r.offset < cell.buf.Length
    {
      OffsetInBounds(cell.width, cell.height, x, y);
      r := Ref(cell.buf, Offset(cell.height, x, y));
    }

    /** clone: a new handle on a fresh private cell with the same dimensions
        and the same elements. Cloning an empty handle, or failing to
        allocate, gives an empty handle. */
    method Clone(oom: bool, ghost reg: Registry<T>) returns (m: Matrix<T>)
      requires reg.Valid() && this in reg.handles
      modifies reg
      ensures reg.Valid() && fresh(m)
      ensures reg.handles == old(reg.handles) + {m}
      ensures reg.freed == old(reg.freed)
      ensures cell == null || oom ==> m.cell == null && reg.cells == old(reg.cells)
      ensures cell != null && !oom ==>
        && m.cell != null && fresh(m.cell) && fresh(m.cell.buf)
        && m.cell.refct == 1 && reg.Holders(m.cell) == {m}
        && m.cell.width == cell.width && m.cell.height == cell.height
        && m.cell.buf[..] == cell.buf[..]
        && reg.cells == old(reg.cells) + {m.cell}
      ensures cell != null ==> unchanged(cell) && unchanged(cell.buf)
    {
      if cell == null {
        m := new Matrix.Empty(reg);
        return;
      }
      m := new Matrix(cell.width, cell.height, oom, reg);
      if m.cell != null {
        CopyElements(cell.buf, m.cell.buf);
      }
    }
  }

  /** memcpy: copy every element of `src` into `dst`. */
  method CopyElements<T>(src: array<T>, dst: array<T>)
    requires src.Length == dst.Length
    modifies dst
    ensures dst[..] == old(src[..])
  {
    var i := 0;
    while i < src.Length
      invariant 0 <= i <= src.Length
      invariant forall k :: 0 <= k < i ==> dst[k] == old(src[k])
      invariant forall k :: i <= k < src.Length ==> src[k] == old(src[k])
    {
      dst[i] := src[i];
      i := i + 1;
    }
  }
}
