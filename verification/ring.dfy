/** The index arithmetic of `switchChannel`: the catalog is walked as a ring
    of `n` positions. The current position comes from `findIndex`, so it
    is -1 when the selected name is not in the catalog. */
module Ring {
  import JsArith

  /** `(current + 1) % n`, with JavaScript's remainder. */
  function NextIndex(current: int, n: int): (r: int)
    requires n > 0 && -1 <= current < n
    ensures 0 <= r < n
    ensures current < n - 1 ==> r == current + 1
    ensures current == n - 1 ==> r == 0
  {
    JsArith.Rem(current + 1, n)
  }

  /** `(current - 1 + n) % n`, with JavaScript's remainder. From an unknown
      position (-1) it lands on n - 2, the second-to-last entry, or on 0
      when the ring has a single entry. */
  function PrevIndex(current: int, n: int): (r: int)
    requires n > 0 && -1 <= current < n
    ensures 0 <= r < n
    ensures 0 < current ==> r == current - 1
    ensures current == 0 ==> r == n - 1
    ensures current == -1 ==> r == (if n == 1 then 0 else n - 2)
  {
    JsArith.Rem(current - 1 + n, n)
  }

  /** For every position `findIndex` can return, both dividends are either
      non-negative or the single value -1 with divisor 1, and on all of
      them JavaScript's remainder equals Dafny's Euclidean one. */
  lemma RemAgreesOnSwitchOperands(current: int, n: int)
    requires n > 0 && -1 <= current < n
    ensures JsArith.Rem(current + 1, n) == (current + 1) % n
    ensures JsArith.Rem(current - 1 + n, n) == (current - 1 + n) % n
  {
  }

  /** Stepping forward then back returns to the start. */
  lemma PrevAfterNext(i: int, n: int)
    requires 0 <= i < n
    ensures PrevIndex(NextIndex(i, n), n) == i
  {
  }

  /** Stepping back then forward returns to the start. */
  lemma NextAfterPrev(i: int, n: int)
    requires 0 <= i < n
    ensures NextIndex(PrevIndex(i, n), n) == i
  {
  }

  /** The position reached after `k` forward steps from `i`. */
  function Advance(i: int, k: nat, n: int): (r: int)
    requires n > 0 && 0 <= i < n
    ensures 0 <= r < n
  {
    if k == 0 then i else NextIndex(Advance(i, k - 1, n), n)
  }

  /** `k` forward steps move `k` places around the ring. */
  lemma {:induction false} AdvanceIsModular(i: int, k: nat, n: int)
    requires n > 0 && 0 <= i < n
    ensures Advance(i, k, n) == (i + k) % n
  {
    if k == 0 {
      JsArith.MultipleMod(0, n);
      JsArith.UniqueRemainder(i, i, n);
    } else {
      AdvanceIsModular(i, k - 1, n);
      var x := i + k - 1;
      var p := Advance(i, k - 1, n);
      assert p == x % n;
      assert Advance(i, k, n) == NextIndex(p, n);
      ModSuccessor(x, n);
      assert Advance(i, k, n) == (x + 1) % n;
    }
  }

  /** Adding one to a number advances its remainder by one place on the ring. */
  lemma ModSuccessor(x: int, n: int)
    requires n > 0
    ensures (x + 1) % n == if x % n == n - 1 then 0 else x % n + 1
  {
    var q := x / n;
    var p := x % n;
    assert x == n * q + p;
    if p == n - 1 {
      assert x + 1 == n * (q + 1);
      JsArith.MultipleMod(q + 1, n);
      JsArith.UniqueRemainder(x + 1, 0, n);
    } else {
      assert (x + 1) - (p + 1) == n * q;
      JsArith.MultipleMod(q, n);
      JsArith.UniqueRemainder(x + 1, p + 1, n);
    }
  }

  /** `n` forward steps on a ring of `n` positions return to the start. */
  lemma AdvanceFullCircle(i: int, n: int)
    requires n > 0 && 0 <= i < n
    ensures Advance(i, n, n) == i
  {
    AdvanceIsModular(i, n, n);
    assert i + n == n * 1 + i;
    JsArith.MultipleMod(1, n);
    JsArith.UniqueRemainder(i + n, i, n);
  }
}
