/** The size shown beside a file in a listing: a size below one kilobyte as
    an exact count of bytes, a larger one in the largest binary unit that it
    reaches (KB = 1024 bytes, up to TB), with two, one or no decimals as the
    scaled value is below 10, below 100 or larger. */
module FileSize {
  import opened Bytes

  /** std::uintmax_t: sizes are unsigned 64-bit counts. */
  type UInt64 = n: nat | n < 0x1_0000_0000_0000_0000

  datatype Unit = KB | MB | GB | TB

  /** How many times 1024 the unit is. */
  function Rank(u: Unit): nat
  {
    match u
    case KB => 1
    case MB => 2
    case GB => 3
    case TB => 4
  }

  /** The number of bytes in a unit: 1024 to the power of its rank. */
  function UnitSize(u: Unit): nat
  {
    match u
    case KB => 1024
    case MB => 1024 * 1024
    case GB => 1024 * 1024 * 1024
    case TB => 1024 * 1024 * 1024 * 1024
  }

  function UnitName(u: Unit): ByteString
  {
    match u
    case KB => "KB"
    case MB => "MB"
    case GB => "GB"
    case TB => "TB"
  }

  /** What is shown: the exact text of a small size, or the value in a unit
      and the number of decimals it is printed with. */
  datatype SizeText = Exact(text: ByteString) | Scaled(value: real, unit: Unit, decimals: nat)

  /** The unit shown for a size of at least one kilobyte. */
  function UnitOf(bytes: nat): Unit
    requires bytes >= 1024
  {
    if bytes >= UnitSize(TB) then TB
    else if bytes >= UnitSize(GB) then GB
    else if bytes >= UnitSize(MB) then MB
    else KB
  }

  /** formatWithUnit: the value, and the precision picked by its magnitude. */
  function WithUnit(value: real, u: Unit): SizeText
  {
    Scaled(value, u, if value < 10.0 then 2 else if value < 100.0 then 1 else 0)
  }

  /** formatFileSize. */
  function FormatFileSize(bytes: UInt64): SizeText
  {
    if bytes >= 1024 then
      var u := UnitOf(bytes);
      WithUnit(bytes as real / UnitSize(u) as real, u)
    else Exact(NatToDecimal(bytes) + " B")
  }

  /** The unit is the largest one the size reaches: the size is at least
      one unit, and below 1024 units unless the unit is the largest. */
  lemma UnitIsLargestReached(bytes: UInt64)
    ensures FormatFileSize(bytes).Exact? <==> bytes < 1024
    ensures var r := FormatFileSize(bytes);
            r.Scaled? ==>
              && UnitSize(r.unit) <= bytes
              && (r.unit != TB ==> bytes < 1024 * UnitSize(r.unit))
              && r.value * UnitSize(r.unit) as real == bytes as real
  {
  }

  /** The scaled value lies in [1, 1024), except in terabytes where it is
      only bounded below. */
  lemma ScaledValueRange(bytes: UInt64)
    ensures var r := FormatFileSize(bytes);
            r.Scaled? ==> 1.0 <= r.value && (r.unit != TB ==> r.value < 1024.0)
  {
    if bytes >= 1024 {
      var u := UnitOf(bytes);
      var s := UnitSize(u) as real;
      assert s > 0.0;
      assert bytes as real >= s;
      if u != TB {
        assert (bytes as real) < 1024.0 * s;
      }
    }
  }

  /** The magnitude of what is shown: 0 for a count of bytes, else the
      rank of the unit. */
  function Magnitude(r: SizeText): nat
  {
    if r.Exact? then 0 else Rank(r.unit)
  }

  /** A larger size is never shown in a smaller unit. */
  lemma UnitMonotone(a: UInt64, b: UInt64)
    requires a <= b
    ensures Magnitude(FormatFileSize(a)) <= Magnitude(FormatFileSize(b))
  {
  }

  /** A size below one kilobyte is shown as its decimal count followed by
      " B", and the count reads back as the size. */
  lemma ExactCount(bytes: UInt64)
    requires bytes < 1024
    ensures var r := FormatFileSize(bytes);
            && r.Exact?
            && |r.text| >= 3 && r.text[|r.text| - 2..] == " B"
            && (forall i :: 0 <= i < |r.text| - 2 ==> IsDigit(r.text[i]))
            && DecimalValue(r.text[..|r.text| - 2]) == bytes
  {
    var d := NatToDecimal(bytes);
    var t := d + " B";
    assert t[..|t| - 2] == d;
    assert t[|t| - 2..] == " B";
    DecimalRoundTrip(bytes);
  }

  /** The number of digits of n, by magnitude. */
  lemma {:induction false} DecimalLength(n: nat)
    ensures n < 10 ==> |NatToDecimal(n)| == 1
    ensures 10 <= n < 100 ==> |NatToDecimal(n)| == 2
    ensures 100 <= n ==> |NatToDecimal(n)| >= 3
    decreases n
  {
    if n >= 10 {
      DecimalLength(n / 10);
    }
  }

  /** The integer part of the scaled value. */
  function WholeUnits(bytes: nat, u: Unit): nat
  {
    bytes / UnitSize(u)
  }

  lemma WholeBelow(bytes: nat, u: Unit, k: nat)
    ensures bytes as real / UnitSize(u) as real < k as real <==> WholeUnits(bytes, u) < k
  {
    var s := UnitSize(u);
    var q := bytes / s;
    assert bytes == q * s + bytes % s;
    assert bytes as real / s as real == q as real + (bytes % s) as real / s as real;
  }

  /** The precision keeps three significant digits: a value with one digit
      before the point gets two decimals, one with two digits gets one, and
      one with three or more gets none. */
  lemma ThreeSignificantDigits(bytes: UInt64)
    requires bytes >= 1024
    ensures var r := FormatFileSize(bytes);
            && r.Scaled?
            && var digits := |NatToDecimal(WholeUnits(bytes, r.unit))|;
               if digits >= 3 then r.decimals == 0 else digits + r.decimals == 3
  {
    var u := UnitOf(bytes);
    WholeBelow(bytes, u, 10);
    WholeBelow(bytes, u, 100);
    DecimalLength(WholeUnits(bytes, u));
  }

  /** Sizes as a listing shows them. */
  lemma Examples()
    ensures FormatFileSize(0) == Exact("0 B")
    ensures FormatFileSize(1536) == Scaled(1.5, KB, 2)
    ensures FormatFileSize(5 * 1024 * 1024) == Scaled(5.0, MB, 2)
    ensures FormatFileSize(123 * 1024 * 1024 * 1024) == Scaled(123.0, GB, 0)
  {
  }
}
