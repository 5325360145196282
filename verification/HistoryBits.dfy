/** The arithmetic of the history bit mask used by src/libcoopy_core/MeasureMan.cpp. */
module HistoryBits {

  function Pow2(n: nat): (p: nat)
    ensures p > 0
  {
    if n == 0 then 1 else 2 * Pow2(n - 1)
  }

  predicate Bit(k: nat, j: nat) {
    if j == 0 then k % 2 == 1 else Bit(k / 2, j - 1)
  }

  /** `(a & b) != 0`. */
  predicate Overlaps(a: nat, b: nat) {
    a > 0 && b > 0 && ((a % 2 == 1 && b % 2 == 1) || Overlaps(a / 2, b / 2))
  }

  lemma {:induction false} NoBitsInZero(j: nat)
    ensures !Bit(0, j)
  {
    if j > 0 {
      NoBitsInZero(j - 1);
    }
  }

  /** Masking with a power of two tests one bit. */
  lemma {:induction false} OverlapIsBit(j: nat, k: nat)
    ensures Overlaps(Pow2(j), k) <==> Bit(k, j)
  {
    if k == 0 {
      NoBitsInZero(j);
    } else if j > 0 {
      OverlapIsBit(j - 1, k / 2);
      assert Pow2(j) / 2 == Pow2(j - 1) && Pow2(j) % 2 == 0;
    } else if k > 0 {
      assert Pow2(0) == 1;
      assert !Overlaps(0, k / 2);
    }
  }

  /** Adding a power of two whose bit is clear sets that bit and keeps the others. */
  lemma {:induction false} AddSetsBit(k: nat, j: nat, i: nat)
    requires !Bit(k, j)
    ensures Bit(k + Pow2(j), i) <==> i == j || Bit(k, i)
  {
    if j > 0 {
      assert (k + Pow2(j)) / 2 == k / 2 + Pow2(j - 1) && (k + Pow2(j)) % 2 == k % 2;
      if i > 0 {
        AddSetsBit(k / 2, j - 1, i - 1);
      }
    } else {
      assert (k + 1) / 2 == k / 2;
    }
  }

  /** It also stays within the mask. */
  lemma {:induction false} AddStaysBelow(k: nat, j: nat, n: nat)
    requires !Bit(k, j) && j < n && k < Pow2(n)
    ensures k + Pow2(j) < Pow2(n)
  {
    if j > 0 {
      AddStaysBelow(k / 2, j - 1, n - 1);
    } else {
      assert k % 2 == 0 && Pow2(n) % 2 == 0;
    }
  }

  lemma Distribute(a: int, b: int, w: int)
    ensures (a + b) * w == a * w + b * w
  {
  }

  lemma TimesAtLeast(a: nat, w: nat)
    requires a > 0
    ensures a * w >= w
  {
    Distribute(a - 1, 1, w);
  }

  /** A state packs a history and a column; both can be read back. */
  lemma Unpack(h: nat, x: nat, stride: nat)
    requires x < stride
    ensures (h * stride + x) / stride == h && (h * stride + x) % stride == x
  {
    var n := h * stride + x;
    var q, r := n / stride, n % stride;
    assert q * stride + r == n;
    if q < h {
      Distribute(q, h - q, stride);
      TimesAtLeast(h - q, stride);
    } else if h < q {
      Distribute(h, q - h, stride);
      TimesAtLeast(q - h, stride);
    }
  }

  lemma PackBelow(h: nat, x: nat, stride: nat, histories: nat)
    requires x < stride && h < histories
    ensures h * stride + x < stride * histories
  {
    Distribute(h, 1, stride);
    Distribute(h + 1, histories - h - 1, stride);
    assert (h + 1) * stride <= histories * stride;
  }
}
