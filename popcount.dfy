/** countSetBits: the number of 1 bits of a 32-bit `unsigned long`, counted
    by clearing the lowest set bit (`n &= n - 1`) until nothing is left. */
module PopCount {

  /** The reference count: bit 0 plus the count of the word shifted right. */
  function Ones(n: bv32): (c: nat)
    decreases n
  {
    if n == 0 then 0 else (if n & 1 == 1 then 1 else 0) + Ones(n >> 1)
  }

  lemma EvenOnes(c: bv32)
    requires c & 1 == 0
    ensures Ones(c) == Ones(c >> 1)
  {
  }

  lemma OddOnes(c: bv32)
    requires c & 1 == 1
    ensures Ones(c) == Ones(c >> 1) + 1
  {
  }

  /** For odd n, n - 1 only clears bit 0. */
  lemma OddStep(n: bv32)
    requires n & 1 == 1
    ensures (n & (n - 1)) & 1 == 0 && (n & (n - 1)) >> 1 == n >> 1
  {
  }

  /** For even non-zero n, clearing the lowest set bit commutes with the
      shift by one. */
  lemma EvenStep(n: bv32)
    requires n != 0 && n & 1 == 0
    ensures (n & (n - 1)) & 1 == 0 && (n & (n - 1)) >> 1 == (n >> 1) & ((n >> 1) - 1)
  {
  }

  lemma HalfSmaller(n: bv32)
    requires n != 0 && n & 1 == 0
    ensures n >> 1 != 0 && n >> 1 < n
  {
  }

  lemma OddCase(n: bv32)
    requires n & 1 == 1
    ensures Ones(n & (n - 1)) + 1 == Ones(n)
  {
    OddStep(n);
    EvenOnes(n & (n - 1));
    OddOnes(n);
  }

  lemma EvenCase(n: bv32, m: bv32)
    requires n != 0 && n & 1 == 0 && m == n >> 1
    requires Ones(m & (m - 1)) + 1 == Ones(m)
    ensures Ones(n & (n - 1)) + 1 == Ones(n)
  {
    EvenStep(n);
    EvenOnes(n & (n - 1));
    EvenOnes(n);
  }

  /** `n &= (n - 1)` on a non-zero word removes exactly one set bit. */
  lemma {:induction false} DropLowest(n: bv32)
    requires n != 0
    ensures Ones(n & (n - 1)) + 1 == Ones(n)
    decreases n
  {
    if n & 1 == 1 {
      OddCase(n);
    } else {
      var m := n >> 1;
      HalfSmaller(n);
      DropLowest(m);
      EvenCase(n, m);
    }
  }

  /** A word has no set bits exactly when it is 0 (the loop's exit test). */
  lemma NoOnes(n: bv32)
    ensures Ones(n) == 0 <==> n == 0
  {
    if n != 0 {
      DropLowest(n);
    }
  }

  lemma ShiftStep(n: bv32, k: bv8)
    requires 1 <= k <= 32 && n >> k == 0
    ensures (n >> 1) >> (k - 1) == 0
  {
  }

  /** A word whose bits from k up are clear has at most k set bits. */
  lemma {:induction false} OnesAtMost(n: bv32, w: nat, k: bv8)
    requires k <= 32 && w == k as int && n >> k == 0
    ensures Ones(n) <= w
    decreases n
  {
    if n != 0 {
      assert k != 0;
      ShiftStep(n, k);
      var j: bv8 := k - 1;
      var v: nat := w - 1;
      OnesAtMost(n >> 1, v, j);
    }
  }

  /** At most 32 bits are set, so the count fits the 16-bit result. */
  lemma OnesBound(n: bv32)
    ensures Ones(n) <= 32
  {
    OnesAtMost(n, 32, 32);
  }

  /** countSetBits: while n is non-zero, clear its lowest set bit and count
      one. */
  method CountSetBits(n: bv32) returns (count: nat)
    ensures count == Ones(n)
    ensures count <= 32
  {
    count := 0;
    var m := n;
    while m != 0
      invariant count + Ones(m) == Ones(n)
      decreases Ones(m)
    {
      DropLowest(m);
      m := m & (m - 1);
      count := count + 1;
    }
    OnesBound(n);
  }
}
