/** Rounding offsets up with a bit mask, and exactly when that aligns them. */
module Alignment {
  import opened MachineInts
  import opened Wrappers

  /** `x & !mask`, bit by bit. */
  function AndNot(x: nat, mask: nat): nat {
    if x == 0 then 0
    else 2 * AndNot(x / 2, mask / 2) + (if x % 2 == 1 && mask % 2 == 0 then 1 else 0)
  }

  predicate IsPowerOfTwo(a: nat) {
    a == 1 || (a > 0 && a % 2 == 0 && IsPowerOfTwo(a / 2))
  }

  /** Rounds `value` up; nothing if the sum does not fit. */
  function AlignUp(value: nat, align: nat): Option<nat> {
    if align <= 1 then Some(value)
    else if value + (align - 1) > USIZE_MAX then None
    else Some(AndNot(value + (align - 1), align - 1))
  }

  lemma {:induction false} AndNotBounds(x: nat, mask: nat)
    ensures x - mask <= AndNot(x, mask) <= x
  {
    if x > 0 {
      AndNotBounds(x / 2, mask / 2);
    }
  }

  lemma HalvesDivide(x: nat, b: nat)
    requires b > 0
    ensures x / 2 / b == x / (2 * b)
  {
    var q := x / 2 / b;
    var r := x / 2 % b;
    assert x / 2 == q * b + r;
    assert x == (2 * b) * q + (2 * r + x % 2);
    DivisionIsUnique(x, 2 * b, q, 2 * r + x % 2);
  }

  lemma SmallerQuotient(d: nat, q: nat, r: nat, q': nat)
    requires r < d && q < q'
    ensures d * q + r < d * q'
  {
    var k := q' - q - 1;
    assert d * q' == d * q + d + d * k;
  }

  lemma DivisionIsUnique(x: nat, d: nat, q: nat, r: nat)
    requires r < d && x == d * q + r
    ensures x / d == q && x % d == r
  {
    var q', r' := x / d, x % d;
    if q < q' {
      SmallerQuotient(d, q, r, q');
    } else if q' < q {
      SmallerQuotient(d, q', r', q);
    }
  }

  lemma MaskHalves(x: nat, b: nat)
    requires b > 0
    ensures AndNot(x, 2 * b - 1) == 2 * AndNot(x / 2, b - 1)
  {
    assert (2 * b - 1) / 2 == b - 1 && (2 * b - 1) % 2 == 1;
  }

  lemma RoundingHalves(x: nat, b: nat)
    requires b > 0
    ensures x / (2 * b) * (2 * b) == 2 * (x / 2 / b * b)
  {
    HalvesDivide(x, b);
    var q := x / 2 / b;
    assert q * (2 * b) == 2 * (q * b);
  }

  lemma {:induction false} MaskRoundsDown(x: nat, a: nat)
    requires IsPowerOfTwo(a)
    ensures AndNot(x, a - 1) == x / a * a
    decreases a
  {
    if a == 1 {
      ZeroMask(x);
    } else {
      var b := a / 2;
      MaskHalves(x, b);
      MaskRoundsDown(x / 2, b);
      RoundingHalves(x, b);
      assert a == 2 * b;
    }
  }

  lemma {:induction false} ZeroMask(x: nat)
    ensures AndNot(x, 0) == x
  {
    if x > 0 {
      ZeroMask(x / 2);
    }
  }

  lemma {:induction false} SelfMask(x: nat)
    ensures AndNot(x, x) == 0
  {
    if x > 0 {
      SelfMask(x / 2);
    }
  }

  /**
   Masking a number with its predecessor leaves the lowest set bit, which is the number itself only for powers
   of two.
   */
  lemma {:induction false} LowestBit(a: nat)
    requires a > 0
    ensures 0 < AndNot(a, a - 1) <= a
    ensures AndNot(a, a - 1) == a <==> IsPowerOfTwo(a)
  {
    if a % 2 == 1 {
      assert (a - 1) / 2 == a / 2;
      SelfMask(a / 2);
    } else {
      assert (a - 1) / 2 == a / 2 - 1;
      LowestBit(a / 2);
    }
  }

  lemma AlignUpBounds(value: nat, align: nat)
    requires AlignUp(value, align).Some?
    ensures value <= AlignUp(value, align).value < value + (if align <= 1 then 1 else align)
    ensures value <= USIZE_MAX ==> AlignUp(value, align).value <= USIZE_MAX
  {
    if align > 1 {
      AndNotBounds(value + (align - 1), align - 1);
    }
  }

  lemma MultipleHasNoRemainder(q: nat, d: nat)
    requires d > 0
    ensures q * d % d == 0
  {
    assert q * d == d * q + 0;
    DivisionIsUnique(q * d, d, q, 0);
  }

  lemma AlignUpAligns(value: nat, align: nat)
    requires IsPowerOfTwo(align) && AlignUp(value, align).Some?
    ensures AlignUp(value, align).value % align == 0
  {
    if align > 1 {
      var x := value + (align - 1);
      MaskRoundsDown(x, align);
      MultipleHasNoRemainder(x / align, align);
    }
  }

  /** The mask aligns every offset exactly when the alignment is a power of two. */
  lemma AlignsExactlyPowersOfTwo(align: nat)
    requires 1 <= align < USIZE_MAX
    ensures (forall v: nat :: AlignUp(v, align).Some? ==> AlignUp(v, align).value % align == 0) <==> IsPowerOfTwo(align)
  {
    if IsPowerOfTwo(align) {
      forall v: nat | AlignUp(v, align).Some? ensures AlignUp(v, align).value % align == 0 {
        AlignUpAligns(v, align);
      }
    } else {
      LowestBit(align);
      var r := AndNot(align, align - 1);
      assert AlignUp(1, align) == Some(r);
      DivisionIsUnique(r, align, 0, r);
    }
  }

  lemma {:induction false} PowersDivide(a: nat, b: nat)
    requires IsPowerOfTwo(a) && IsPowerOfTwo(b) && a <= b
    ensures b % a == 0
  {
    if a > 1 {
      PowersDivide(a / 2, b / 2);
      var q := b / 2 / (a / 2);
      assert b / 2 == a / 2 * q;
      assert b == a * q;
      DivisionIsUnique(b, a, q, 0);
    }
  }

  lemma MultipleOfMultiple(x: nat, b: nat, a: nat)
    requires a > 0 && b > 0 && x % b == 0 && b % a == 0
    ensures x % a == 0
  {
    var p, q := x / b, b / a;
    assert x == b * p && b == a * q;
    assert x == a * (q * p);
    DivisionIsUnique(x, a, q * p, 0);
  }

  lemma SumOfMultiples(x: nat, y: nat, a: nat)
    requires a > 0 && x % a == 0 && y % a == 0
    ensures (x + y) % a == 0
  {
    var p, q := x / a, y / a;
    assert x + y == a * (p + q);
    DivisionIsUnique(x + y, a, p + q, 0);
  }
}
