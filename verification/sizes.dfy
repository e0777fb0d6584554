/** `format_file_size`: the unit a file size is shown in, and the value shown before it is
    formatted with one decimal. The division by 1024 is exact in binary floating point, so
    the value is modelled as a real number; the decimal formatting is not part of this model. */
module Sizes {

  const Units: seq<string> := ["B", "KB", "MB", "GB", "TB"]

  function Pow1024(k: nat): (r: nat)
    ensures r >= 1
  {
    if k == 0 then 1 else 1024 * Pow1024(k - 1)
  }

  /** The index in `Units` of the unit `size` is shown in: the first of B, KB, MB and GB at
      which the scaled size is below 1024, or TB. */
  function UnitIndex(size: nat): (k: nat)
    ensures k <= 4
  {
    if size < Pow1024(1) then 0
    else if size < Pow1024(2) then 1
    else if size < Pow1024(3) then 2
    else if size < Pow1024(4) then 3
    else 4
  }

  /** The unit is the one at which the size is at least one unit and below 1024 units
      (only the first bound for TB, only the second for B). */
  lemma UnitIndexSpec(size: nat)
    ensures var k := UnitIndex(size);
            && (k < 4 ==> size < Pow1024(k + 1))
            && (k > 0 ==> size >= Pow1024(k))
  {
  }

  /** Those two bounds determine the unit. */
  lemma UnitIndexIs(size: nat, k: nat)
    requires k <= 4
    requires k < 4 ==> size < Pow1024(k + 1)
    requires k > 0 ==> size >= Pow1024(k)
    ensures UnitIndex(size) == k
  {
    assert Pow1024(1) == 1024 && Pow1024(2) == 1024 * 1024;
    assert Pow1024(3) == 1024 * Pow1024(2) && Pow1024(4) == 1024 * Pow1024(3);
  }

  /** A larger size is never shown in a smaller unit. */
  lemma UnitMonotone(a: nat, b: nat)
    requires a <= b
    ensures UnitIndex(a) <= UnitIndex(b)
  {
  }

  /** Multiplying by a positive number keeps the order. */
  lemma ScaleOrder(v: real, c: real, p: real)
    requires p > 0.0
    ensures v < c <==> v * p < c * p
  {
    if v < c {
      assert (c - v) * p > 0.0;
    } else {
      assert (v - c) * p >= 0.0;
    }
  }

  /** Dividing by a positive number and multiplying back gives the number. */
  lemma DivMul(a: real, p: real)
    requires p > 0.0
    ensures (a / p) * p == a
  {
  }

  /** The scaled value is below 1024 exactly when the size is below the next unit. */
  lemma BelowScaled(size: nat, k: nat, v: real)
    requires v * Pow1024(k) as real == size as real
    ensures v < 1024.0 <==> size < Pow1024(k + 1)
  {
    var p := Pow1024(k) as real;
    var q := Pow1024(k + 1) as real;
    assert q == 1024.0 * p;
    ScaleOrder(v, 1024.0, p);
    assert v < 1024.0 <==> size as real < q;
  }

  /** The scaled value is at least 1 exactly when the size is at least one of the unit. */
  lemma AtLeastOneScaled(size: nat, k: nat, v: real)
    requires v * Pow1024(k) as real == size as real
    ensures v >= 1.0 <==> size >= Pow1024(k)
  {
    var p := Pow1024(k) as real;
    ScaleOrder(v, 1.0, p);
    assert v >= 1.0 <==> size as real >= p;
  }

  /** The size in units of `1024^k`. */
  function Scaled(size: nat, k: nat): real {
    size as real / Pow1024(k) as real
  }

  lemma ScaledSpec(size: nat, k: nat)
    ensures Scaled(size, k) * Pow1024(k) as real == size as real
    ensures Scaled(size, k) < 1024.0 <==> size < Pow1024(k + 1)
    ensures Scaled(size, k) >= 1.0 <==> size >= Pow1024(k)
  {
    DivMul(size as real, Pow1024(k) as real);
    BelowScaled(size, k, Scaled(size, k));
    AtLeastOneScaled(size, k, Scaled(size, k));
  }

  /** The value shown is the size in the unit chosen: below 1024 unless the unit is TB, and
      at least 1 unless the unit is B. */
  lemma ShownValueBounds(size: nat)
    ensures UnitIndex(size) < 4 ==> Scaled(size, UnitIndex(size)) < 1024.0
    ensures UnitIndex(size) > 0 ==> Scaled(size, UnitIndex(size)) >= 1.0
  {
    UnitIndexSpec(size);
    ScaledSpec(size, UnitIndex(size));
  }

  /** The loop of `format_file_size`: divide by 1024 until the value drops below 1024, at
      most four times. Each division is exact, so the test `size < 1024.0` after `k`
      divisions is the test `size < 1024^(k+1)` on the original size, which the loop makes
      on integers. */
  method FormatFileSize(size: nat) returns (value: real, unit: string)
    ensures unit == Units[UnitIndex(size)]
    ensures value == Scaled(size, UnitIndex(size))
  {
    var scale: nat := 1;
    var k := 0;
    while k < 4 && size >= 1024 * scale
      invariant 0 <= k <= 4 && scale == Pow1024(k)
      invariant k > 0 ==> size >= scale
    {
      scale := 1024 * scale;
      k := k + 1;
    }
    UnitIndexIs(size, k);
    value := Scaled(size, k);
    unit := Units[k];
  }
}
