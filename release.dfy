/** The rule by which releasing one reference decides whether a cell is freed.

    A release takes the cell's reference count before the release and gives
    the count after it together with whether the cell is freed now. The
    model's rule decrements first and frees when the count has reached zero.
    The source's `*_refct-- <= 0` applies the postfix decrement to the
    pointer `_refct`, not to the count it points at: it compares the count
    with zero and leaves the count as it was. */
module ReleaseRule {

  /** The model's rule: decrement, then free exactly when the count is zero. */
  function ReleaseStep(refct: int): (int, bool)
  {
    (refct - 1, refct - 1 == 0)
  }

  /** The source's rule, as written: free when the count is at most zero;
      the count itself is never lowered (only the handle's pointer to it
      moves). */
  function SourceReleaseStep(refct: int): (int, bool)
  {
    (refct, refct <= 0)
  }

  /** How many times the cell is freed when `k` owners release it in turn,
      starting from count `refct`, under the model's rule. */
  function FreesOver(refct: int, k: nat): nat
    decreases k
  {
    if k == 0 then 0
    else
      var (next, frees) := ReleaseStep(refct);
      (if frees then 1 else 0) + FreesOver(next, k - 1)
  }

  /** The same count under the source's rule. */
  function SourceFreesOver(refct: int, k: nat): nat
    decreases k
  {
    if k == 0 then 0
    else
      var (next, frees) := SourceReleaseStep(refct);
      (if frees then 1 else 0) + SourceFreesOver(next, k - 1)
  }

  /** Under the model's rule, when up to `refct` of the `refct` owners
      release the cell, it is freed once if all of them did (and there was
      at least one), and never otherwise: never early and never twice. */
  lemma {:induction false} FreedExactlyByLastOwner(refct: int, k: nat)
    requires k <= refct
    ensures FreesOver(refct, k) == if 0 < k && k == refct then 1 else 0
  {
    if k > 0 {
      FreedExactlyByLastOwner(refct - 1, k - 1);
    }
  }

  /** Under the source's rule, a cell that was ever owned (count at least
      one) is never freed, however many releases follow: it leaks. */
  lemma {:induction false} SourceNeverFreesOwnedCell(refct: int, k: nat)
    requires 1 <= refct
    ensures SourceFreesOver(refct, k) == 0
  {
    if k > 0 {
      SourceNeverFreesOwnedCell(refct, k - 1);
    }
  }
}
