/** What a caller can rely on, shown on concrete handles: each method builds
    a few handles, drives them through the public operations, and promises
    the values it reads back. */
module Scenarios {
  import opened Indexing
  import opened SharedMatrix

  /** A(2, 2); B = A; writing 5 at (0, 0) through B is seen through A. */
  method CopySharesWrites() returns (seen: int)
    ensures seen == 5
  {
    var reg := new Registry<int>();
    var a := new Matrix<int>(2, 2, false, reg);
    var b := new Matrix<int>.Copy(a, reg);
    var rb := b.Get(0, 0, reg);
    rb.value.buf[rb.value.offset] := 5;
    var ra := a.Get(0, 0, reg);
    seen := ra.value.buf[ra.value.offset];
  }

  /** A(2, 2) holding 1 at (0, 0); C = A.clone() holds 1 at (0, 0) too. */
  method CloneCopiesElements() returns (copied: int)
    ensures copied == 1
  {
    var reg := new Registry<int>();
    var a := new Matrix<int>(2, 2, false, reg);
    var ra := a.Get(0, 0, reg);
    ra.value.buf[ra.value.offset] := 1;
    var c := a.Clone(false, reg);
    assert c.cell.buf[..][0] == a.cell.buf[..][0];
    var rc := c.Get(0, 0, reg);
    copied := rc.value.buf[rc.value.offset];
  }

  /** C = A.clone(); writing 9 at (0, 0) through C leaves A's element as it
      was. */
  method CloneIsolatesWrites() returns (before: int, after: int, cloned: int)
    ensures after == before && cloned == 9
  {
    var reg := new Registry<int>();
    var a := new Matrix<int>(2, 2, false, reg);
    var ra := a.Get(0, 0, reg);
    before := ra.value.buf[ra.value.offset];
    var c := a.Clone(false, reg);
    var rc := c.Get(0, 0, reg);
    rc.value.buf[rc.value.offset] := 9;
    after := ra.value.buf[ra.value.offset];
    cloned := rc.value.buf[rc.value.offset];
  }

  /** A(2, 2); B = A; A.create_global(3, 3): B now has a (2, 2) element too. */
  method CreateGlobalResizesAliases() returns (before: bool, after: bool)
    ensures !before && after
  {
    var reg := new Registry<int>();
    var a := new Matrix<int>(2, 2, false, reg);
    var b := new Matrix<int>.Copy(a, reg);
    var r := b.Get(2, 2, reg);
    before := r.Ok?;
    var _ := a.CreateGlobal(3, 3, false, reg);
    r := b.Get(2, 2, reg);
    after := r.Ok?;
  }

  /** A(2, 2); B = A; a failed B.create_global(3, 3) leaves the shared cell
      as it was: A still has its (1, 1) element and no (2, 2) one. */
  method FailedCreateGlobalKeepsCell() returns (ok: bool, inside: bool, outside: bool)
    ensures !ok && inside && !outside
  {
    var reg := new Registry<int>();
    var a := new Matrix<int>(2, 2, false, reg);
    var b := new Matrix<int>.Copy(a, reg);
    ok := b.CreateGlobal(3, 3, true, reg);
    var r := a.Get(1, 1, reg);
    inside := r.Ok?;
    r := a.Get(2, 2, reg);
    outside := r.Ok?;
  }

  /** A(2, 2); B = A; B.create_local(4, 4): only B has a (3, 3) element. */
  method CreateLocalIsolates() returns (aSeesLarge: bool, bSeesLarge: bool)
    ensures !aSeesLarge && bSeesLarge
  {
    var reg := new Registry<int>();
    var a := new Matrix<int>(2, 2, false, reg);
    var b := new Matrix<int>.Copy(a, reg);
    var _ := b.CreateLocal(4, 4, false, reg);
    var ra := a.Get(3, 3, reg);
    aSeesLarge := ra.Ok?;
    var rb := b.Get(3, 3, reg);
    bSeesLarge := rb.Ok?;
  }

  /** A failed create_local leaves the handle empty, so the checked accessor
      reports OutOfRange for every coordinate. */
  method FailedCreateLocalLeavesEmpty() returns (r: Result<Ref<int>>)
    ensures r == Err(OutOfRange)
  {
    var reg := new Registry<int>();
    var a := new Matrix<int>(2, 2, false, reg);
    var _ := a.CreateLocal(3, 3, true, reg);
    r := a.Get(0, 0, reg);
  }

  /** A = A keeps A's cell and what was written to it. */
  method SelfAssignKeepsCell() returns (seen: int, count: int)
    ensures seen == 4 && count == 1
  {
    var reg := new Registry<int>();
    var a := new Matrix<int>(2, 2, false, reg);
    var r := a.Get(1, 0, reg);
    r.value.buf[r.value.offset] := 4;
    a.Assign(a, reg);
    r := a.Get(1, 0, reg);
    seen := r.value.buf[r.value.offset];
    count := a.cell.refct;
  }

  /** B = E for an empty E leaves B empty; the cell B held before is freed. */
  method AssignFromEmpty() returns (r: Result<Ref<int>>)
    ensures r == Err(OutOfRange)
  {
    var reg := new Registry<int>();
    var e := new Matrix<int>.Empty(reg);
    var b := new Matrix<int>(2, 2, false, reg);
    b.Assign(e, reg);
    r := b.Get(0, 0, reg);
  }

  /** A(2, 2) holding 7 at (1, 1); n copies of A are made and then destroyed
      in any order (`order` lists the copies' indices, each once); A still
      reads 7 and is again the only reference. */
  method LastHandleKeepsCell(n: nat, order: seq<nat>) returns (seen: int, count: int)
    requires |order| == n
    requires forall j :: 0 <= j < |order| ==> order[j] < n
    requires forall i, j :: 0 <= i < j < |order| ==> order[i] != order[j]
    ensures seen == 7 && count == 1
  {
    var reg := new Registry<int>();
    var a := new Matrix<int>(2, 2, false, reg);
    var r := a.Get(1, 1, reg);
    r.value.buf[r.value.offset] := 7;
    ghost var c := a.cell;
    var copies: seq<Matrix<int>> := [];
    while |copies| < n
      invariant reg.Valid() && a in reg.handles && a.cell == c && c in reg.cells
      invariant r.value.buf == c.buf && 0 <= r.value.offset < c.buf.Length
      invariant c.buf[r.value.offset] == 7
      invariant |copies| <= n && c.refct == 1 + |copies| && c.width == 2 && c.height == 2
      invariant forall i :: 0 <= i < |copies| ==> copies[i] in reg.handles && copies[i].cell == c
      invariant forall i :: 0 <= i < |copies| ==> copies[i] != a
      invariant forall i, j :: 0 <= i < j < |copies| ==> copies[i] != copies[j]
    {
      var b := new Matrix<int>.Copy(a, reg);
      copies := copies + [b];
    }
    var k := 0;
    ghost var gone: set<nat> := {};
    while k < n
      invariant 0 <= k <= n
      invariant reg.Valid() && a in reg.handles && a.cell == c && c in reg.cells
      invariant r.value.buf == c.buf && 0 <= r.value.offset < c.buf.Length
      invariant c.buf[r.value.offset] == 7
      invariant c.refct == 1 + n - k && c.width == 2 && c.height == 2
      invariant |copies| == n
      invariant forall j :: k <= j < n ==> order[j] !in gone
      invariant forall i :: 0 <= i < n && i !in gone ==>
        copies[i] in reg.handles && copies[i].cell == c
      invariant forall i :: 0 <= i < n ==> copies[i] != a
      invariant forall i, j :: 0 <= i < j < n ==> copies[i] != copies[j]
    {
      copies[order[k]].Release(reg);
      gone := gone + {order[k]};
      k := k + 1;
    }
    r := a.Get(1, 1, reg);
    seen := r.value.buf[r.value.offset];
    count := a.cell.refct;
  }
}
