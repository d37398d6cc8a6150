/** Rounding up to a power of two by shifts on 64-bit words. */
module PowerOfTwo {
  import opened Prelude

  const WORD_BITS: nat := 64

  /** The values that the original's unsigned 64-bit integers can take. */
  predicate IsWord(x: nat)
  {
    x < Pow2(WORD_BITS)
  }

  lemma SmallIsWord(x: nat, o: nat)
    requires x <= Pow2(o) && o < WORD_BITS
    ensures IsWord(x)
  {
    Pow2Monotone(o, WORD_BITS);
  }

  /** The least order whose power of two is at least `pages`. */
  function LeastOrder(pages: nat, from: nat): (o: nat)
    requires from == 0 || Pow2(from - 1) < pages
    ensures pages <= Pow2(o) && (o == 0 || Pow2(o - 1) < pages)
    decreases if Pow2(from) >= pages then 0 else pages - Pow2(from)
  {
    if pages <= Pow2(from) then from else LeastOrder(pages, from + 1)
  }

  /** There is only one such order. */
  lemma LeastOrderIs(x: nat, o: nat)
    requires x <= Pow2(o) && (o == 0 || Pow2(o - 1) < x)
    ensures LeastOrder(x, 0) == o
  {
    var l := LeastOrder(x, 0);
    if l < o { Pow2Monotone(l, o - 1); }
    if o < l { Pow2Monotone(o, l - 1); }
  }

  // ------------------------------------------------------------------ words as bits, the lowest first

  function Bits(n: nat, k: nat): (w: seq<bool>)
    ensures |w| == k
  {
    if k == 0 then [] else [n % 2 == 1] + Bits(n / 2, k - 1)
  }

  function Value(w: seq<bool>): nat
  {
    if w == [] then 0 else (if w[0] then 1 else 0) + 2 * Value(w[1..])
  }

  function ShiftRight(w: seq<bool>, k: nat): (r: seq<bool>)
    ensures |r| == |w| && forall i | 0 <= i < |w| :: r[i] <==> i + k < |w| && w[i + k]
  {
    seq(|w|, i requires 0 <= i < |w| => i + k < |w| && w[i + k])
  }

  function Or(a: seq<bool>, b: seq<bool>): (r: seq<bool>)
    requires |a| == |b|
    ensures |r| == |a| && forall i | 0 <= i < |a| :: r[i] <==> a[i] || b[i]
  {
    seq(|a|, i requires 0 <= i < |a| => a[i] || b[i])
  }

  function And(a: seq<bool>, b: seq<bool>): (r: seq<bool>)
    requires |a| == |b|
    ensures |r| == |a| && forall i | 0 <= i < |a| :: r[i] <==> a[i] && b[i]
  {
    seq(|a|, i requires 0 <= i < |a| => a[i] && b[i])
  }

  lemma {:induction false} ValueOfBits(n: nat, k: nat)
    requires n < Pow2(k)
    ensures Value(Bits(n, k)) == n
  {
    if k > 0 { ValueOfBits(n / 2, k - 1); }
  }

  lemma {:induction false} ValueZero(w: seq<bool>)
    ensures Value(w) == 0 <==> forall i | 0 <= i < |w| :: !w[i]
  {
    if w != [] {
      ValueZero(w[1..]);
      assert forall i | 0 < i < |w| :: w[i] == w[1..][i - 1];
    }
  }

  // ------------------------------------------------------------------ is_power_of_two

  ghost predicate IsPower(x: nat)
  {
    exists o: nat :: x == Pow2(o)
  }

  lemma AndZero(a: seq<bool>, b: seq<bool>)
    requires |a| == |b|
    ensures Value(And(a, b)) == 0 <==> forall i | 0 <= i < |a| :: !(a[i] && b[i])
  {
    ValueZero(And(a, b));
  }

  lemma AndZeroTail(a: seq<bool>, b: seq<bool>)
    requires |a| == |b| > 0 && !(a[0] && b[0])
    ensures Value(And(a, b)) == 0 <==> Value(And(a[1..], b[1..])) == 0
  {
    AndZero(a, b);
    AndZero(a[1..], b[1..]);
    assert forall i | 0 < i < |a| :: a[i] == a[1..][i - 1] && b[i] == b[1..][i - 1];
    assert forall i | 0 <= i < |a| - 1 :: a[1..][i] == a[i + 1] && b[1..][i] == b[i + 1];
  }

  lemma AndSelf(w: seq<bool>)
    ensures And(w, w) == w
  {
  }

  /** A number and its predecessor share no bit if and only if it is a power of two. */
  lemma {:induction false} SharesNoBitExactly(x: nat, k: nat)
    requires 0 < x < Pow2(k)
    ensures Value(And(Bits(x, k), Bits(x - 1, k))) == 0 <==> IsPower(x)
  {
    var a, b := Bits(x, k), Bits(x - 1, k);
    AndZeroTail(a, b);
    if x % 2 == 1 {
      assert (x - 1) / 2 == x / 2 && a[1..] == b[1..] == Bits(x / 2, k - 1);
      AndSelf(a[1..]);
      ValueOfBits(x / 2, k - 1);
      OddIsPower(x);
    } else {
      assert (x - 1) / 2 == x / 2 - 1 && a[1..] == Bits(x / 2, k - 1) && b[1..] == Bits(x / 2 - 1, k - 1);
      SharesNoBitExactly(x / 2, k - 1);
      EvenIsPower(x);
    }
  }

  lemma OddIsPower(x: nat)
    requires x % 2 == 1
    ensures IsPower(x) <==> x == 1
  {
    assert Pow2(0) == 1;
  }

  lemma EvenIsPower(x: nat)
    requires x % 2 == 0 && x > 0
    ensures IsPower(x) <==> IsPower(x / 2)
  {
    if o: nat :| x == Pow2(o) {
      assert x / 2 == Pow2(o - 1);
    }
    if o: nat :| x / 2 == Pow2(o) {
      assert x == Pow2(o + 1);
    }
  }

  method IsPowerOfTwo(x: nat) returns (b: bool)
    requires IsWord(x)
    ensures b <==> IsPower(x)
  {
    b := x != 0 && Value(And(Bits(x, WORD_BITS), Bits(x - 1, WORD_BITS))) == 0;
    if x > 0 {
      SharesNoBitExactly(x, WORD_BITS);
    }
  }

  // ------------------------------------------------------------------ next_power_of_two

  /** Bit `i` of `y` says whether one of the `window` bits of `x` from `i` on is set. */
  ghost predicate Smeared(x: seq<bool>, y: seq<bool>, window: nat)
  {
    |y| == |x| && forall i | 0 <= i < |x| :: y[i] <==> exists j | i <= j < |x| && j < i + window :: x[j]
  }

  lemma SmearStep(x: seq<bool>, y: seq<bool>, window: nat)
    requires Smeared(x, y, window)
    ensures Smeared(x, Or(y, ShiftRight(y, window)), 2 * window)
  {
  }

  lemma SmearedTail(x: seq<bool>, y: seq<bool>, window: nat)
    requires Smeared(x, y, window) && x != []
    ensures Smeared(x[1..], y[1..], window)
  {
    forall i | 0 <= i < |x| - 1 ensures y[1..][i] <==> exists j | i <= j < |x| - 1 && j < i + window :: x[1..][j] {
      if y[i + 1] {
        var j :| i + 1 <= j < |x| && j < i + 1 + window && x[j];
        assert x[1..][j - 1];
      }
      if j :| i <= j < |x| - 1 && j < i + window && x[1..][j] {
        assert x[j + 1];
      }
    }
  }

  lemma SmearedLowest(x: seq<bool>, y: seq<bool>, window: nat)
    requires Smeared(x, y, window) && 0 < |x| <= window
    ensures y[0] <==> x[0] || Value(x[1..]) > 0
  {
    ValueZero(x[1..]);
    if y[0] {
      var j :| 0 <= j < |x| && x[j];
      assert j > 0 ==> x[1..][j - 1];
    }
    if i :| 0 <= i < |x| - 1 && x[1..][i] {
      assert x[i + 1];
    }
  }

  /** Smeared over its whole length, a word is one less than the power of two above it. */
  lemma {:induction false} SmearedValue(x: seq<bool>, y: seq<bool>, window: nat) returns (m: nat)
    requires Smeared(x, y, window) && |x| <= window
    ensures m <= |x| && Value(y) == Pow2(m) - 1 && Value(x) < Pow2(m) && (m > 0 ==> Pow2(m - 1) <= Value(x))
  {
    if x == [] {
      return 0;
    }
    SmearedTail(x, y, window);
    SmearedLowest(x, y, window);
    m := SmearedValue(x[1..], y[1..], window);
    m := if m > 0 then m + 1 else if x[0] then 1 else 0;
  }

  lemma Remainder(a: nat, b: nat)
    requires 0 < b
    ensures a < b ==> a % b == a
    ensures a == b ==> a % b == 0
  {
    assert a == b ==> a == 1 * b + 0;
  }

  lemma WrappedPower(m: nat, bits: nat)
    requires m <= bits
    ensures Pow2(m) % Pow2(bits) == if m == bits then 0 else Pow2(m)
  {
    Pow2Monotone(m, bits);
    Remainder(Pow2(m), Pow2(bits));
  }

  /** The whole smearing, on words of `bits` bits. */
  lemma SmearedRoundsUp(x: nat, bits: nat, w: seq<bool>, y: seq<bool>)
    requires 0 < x < Pow2(bits) && w == Bits(x - 1, bits) && Smeared(w, y, bits)
    ensures bits > 0 && (Value(y) + 1) % Pow2(bits) == if x <= Pow2(bits - 1) then Pow2(LeastOrder(x, 0)) else 0
  {
    var m := SmearedValue(w, y, bits);
    ValueOfBits(x - 1, bits);
    LeastOrderIs(x, m);
    WrappedPower(m, bits);
    assert x <= Pow2(bits - 1) <==> m < bits by {
      if m < bits { Pow2Monotone(m, bits - 1); }
    }
  }

  method NextPowerOfTwo(x: nat) returns (r: nat)
    requires IsWord(x)
    ensures r == if x <= Pow2(WORD_BITS - 1) then Pow2(LeastOrder(x, 0)) else 0
  {
    if x == 0 {
      return 1;
    }
    var y := SmearWord(x - 1, WORD_BITS);
    SmearedRoundsUp(x, WORD_BITS, Bits(x - 1, WORD_BITS), y);
    r := (Value(y) + 1) % Pow2(WORD_BITS);
  }

  /** The six shifts. */
  method SmearWord(x: nat, bits: nat) returns (y: seq<bool>)
    ensures Smeared(Bits(x, bits), y, 64)
  {
    y := Bits(x, bits);
    ghost var w := y;
    SmearStep(w, y, 1);
    y := Or(y, ShiftRight(y, 1));
    SmearStep(w, y, 2);
    y := Or(y, ShiftRight(y, 2));
    SmearStep(w, y, 4);
    y := Or(y, ShiftRight(y, 4));
    SmearStep(w, y, 8);
    y := Or(y, ShiftRight(y, 8));
    SmearStep(w, y, 16);
    y := Or(y, ShiftRight(y, 16));
    SmearStep(w, y, 32);
    y := Or(y, ShiftRight(y, 32));
  }

  /** Comparing the rounded number with a small power finds the least order. */
  lemma RoundedIs(x: nat, rounded: nat)
    requires if IsPower(x) then rounded == x else rounded == if x <= Pow2(WORD_BITS - 1) then Pow2(LeastOrder(x, 0))
      else 0
    ensures forall i: nat | i < WORD_BITS :: rounded == Pow2(i) <==> LeastOrder(x, 0) == i
  {
    var o := LeastOrder(x, 0);
    if IsPower(x) {
      var e: nat :| x == Pow2(e);
      if e > 0 { Pow2Monotone(e - 1, e); }
      LeastOrderIs(x, e);
    }
    if !IsPower(x) && x > Pow2(WORD_BITS - 1) && o < WORD_BITS {
      Pow2Monotone(o, WORD_BITS - 1);
    }
    forall i: nat | i < WORD_BITS && rounded == Pow2(i) ensures o == i {
      if i < o { Pow2Monotone(i, o); }
      if o < i { Pow2Monotone(o, i); }
    }
  }
}
