/**
 * `get_file_size`: a byte count shown in megabytes rounded to one decimal,
 * `round(bytes / 1048576, 1)`.  The quotient is exact in binary floating point,
 * so the rounding is round-half-even on the exact value; a size is kept as the
 * whole number of tenths it rounds to.
 */
module Sizes {
  import opened Wrappers
  import opened Numbers

  const BytesPerMB: nat := 1024 * 1024

  /** `round(bytes / 1048576, 1)`, as a count of tenths of a megabyte. */
  function RoundedTenths(bytes: nat): (t: nat)
    ensures 2 * (bytes * 10 - t * BytesPerMB) <= BytesPerMB
    ensures 2 * (t * BytesPerMB - bytes * 10) <= BytesPerMB
    ensures 2 * (bytes * 10 - t * BytesPerMB) == BytesPerMB ==> t % 2 == 0
    ensures 2 * (t * BytesPerMB - bytes * 10) == BytesPerMB ==> t % 2 == 0
  {
    var q, r := bytes * 10 / BytesPerMB, bytes * 10 % BytesPerMB;
    if 2 * r > BytesPerMB then q + 1
    else if 2 * r < BytesPerMB then q
    else if q % 2 == 0 then q else q + 1
  }

  /** The megabytes a count of tenths stands for. */
  function MB(tenths: nat): real { tenths as real / 10.0 }

  /** The rounded size is within a twentieth of a megabyte of the exact one. */
  lemma RoundedTenthsClose(bytes: nat)
    ensures -0.05 <= MB(RoundedTenths(bytes)) - bytes as real / BytesPerMB as real <= 0.05
  {
    var t := RoundedTenths(bytes);
    var d := (t * BytesPerMB - bytes * 10) as real;
    assert -(BytesPerMB as real) <= 2.0 * d <= BytesPerMB as real;
    assert MB(t) - bytes as real / BytesPerMB as real == d / (10.0 * BytesPerMB as real);
  }

  /** `f"{size}"` for a rounded size: Python prints such a float as its decimal with one fractional digit. */
  function ShowTenths(tenths: nat): string {
    NatStr(tenths / 10) + "." + [DigitChar(tenths % 10)]
  }

  /** The printed size reads back as the same number of megabytes. */
  lemma ShowTenthsParses(tenths: nat)
    ensures ParseUnsigned(ShowTenths(tenths)) == Some(MB(tenths))
  {
    var whole := NatStr(tenths / 10);
    var s := ShowTenths(tenths);
    var f := [DigitChar(tenths % 10)];
    assert s == whole + "." + f;
    FirstDotAfter(whole, f);
    assert s[..|whole|] == whole;
    assert s[|whole| + 1..] == [DigitChar(tenths % 10)];
    NatStrValue(tenths / 10);
    assert f[..0] == [];
    assert DigitsValue(f) == tenths % 10;
    assert FractionValue(f) == Shifted(tenths % 10, 0) / 10.0;
    assert AllDigits(whole) && AllDigits(f);
    assert tenths == 10 * (tenths / 10) + tenths % 10;
    assert DecimalValue(whole, f) == (tenths / 10) as real + (tenths % 10) as real / 10.0 == MB(tenths);
    assert s != [] && AllDigits(whole);
  }

}
