/** DataVolume.java: non-negative amounts of data in B, KB, MB, GB or TB, with
    power-of-1024 unit factors. BigDecimal division by a unit factor always terminates,
    so exact reals model it; byte sizes are the unit of exchange. */
module Volumes {
  import opened Wrappers

  datatype Unit = Bytes | Kilobytes | Megabytes | Gigabytes | Terabytes

  /** The unit's factor: how many bytes one of it holds. */
  function Factor(u: Unit): (f: nat)
    ensures f >= 1
  {
    match u
    case Bytes => 1
    case Kilobytes => 1024
    case Megabytes => 1024 * 1024
    case Gigabytes => 1024 * 1024 * 1024
    case Terabytes => 1024 * 1024 * 1024 * 1024
  }

  /** Each unit but the largest is followed by the one 1024 times bigger. */
  lemma FactorsArePowersOf1024()
    ensures Factor(Bytes) == 1
    ensures Factor(Kilobytes) == 1024 * Factor(Bytes)
    ensures Factor(Megabytes) == 1024 * Factor(Kilobytes)
    ensures Factor(Gigabytes) == 1024 * Factor(Megabytes)
    ensures Factor(Terabytes) == 1024 * Factor(Gigabytes)
  {
  }

  /** The unit comparator: the sign of the difference of the factors. */
  function CompareUnits(a: Unit, b: Unit): (r: int)
    ensures r == -1 || r == 0 || r == 1
    ensures r == 0 <==> a == b
    ensures r < 0 <==> Factor(a) < Factor(b)
  {
    if Factor(a) < Factor(b) then -1 else if Factor(a) > Factor(b) then 1 else 0
  }

  /** getUnitsFromSmallestToLargest(): every unit once, by strictly increasing factor. */
  function UnitsFromSmallestToLargest(): (r: seq<Unit>)
    ensures |r| == 5
    ensures forall u: Unit :: r[Position(u)] == u
    ensures forall i, j :: 0 <= i < j < |r| ==> CompareUnits(r[i], r[j]) < 0
    ensures r[0] == Bytes && r[4] == Terabytes
  {
    var r := [Bytes, Kilobytes, Megabytes, Gigabytes, Terabytes];
    r
  }

  /** The position of each unit in declaration order. */
  function Position(u: Unit): (i: nat)
    ensures i < 5
  {
    match u
    case Bytes => 0
    case Kilobytes => 1
    case Megabytes => 2
    case Gigabytes => 3
    case Terabytes => 4
  }

  type NonNegative = r: real | r >= 0.0

  /** A data volume: a non-negative value in a unit. */
  datatype DataVolume = DataVolume(value: NonNegative, unit: Unit)

  /** The IllegalArgumentExceptions of the constructor and of convertTo. */
  datatype VolumeError = NullUnit | NullValue | NegativeValue

  /** The constructor: a null unit, a null value and a negative value are rejected, in
      that order. */
  function NewDataVolume(value: Option<real>, unit: Option<Unit>): (r: Result<DataVolume, VolumeError>)
    ensures r.Success? <==> unit.Some? && value.Some? && value.value >= 0.0
    ensures r.Success? ==> r.value.value == value.value && r.value.unit == unit.value
    ensures unit.None? ==> r == Failure(NullUnit)
    ensures unit.Some? && value.None? ==> r == Failure(NullValue)
    ensures unit.Some? && value.Some? && value.value < 0.0 ==> r == Failure(NegativeValue)
  {
    if unit.None? then Failure(NullUnit)
    else if value.None? then Failure(NullValue)
    else if value.value < 0.0 then Failure(NegativeValue)
    else Success(DataVolume(value.value, unit.value))
  }

  /** getSizeInBytes(): the value times the unit's factor. */
  function SizeInBytes(v: DataVolume): (r: real)
    ensures r >= v.value
    ensures r == 0.0 <==> v.value == 0.0
  {
    v.value * Factor(v.unit) as real
  }

  /** bytes(n): `n` bytes; negative counts are rejected by the constructor. */
  function BytesOf(n: int): (r: Result<DataVolume, VolumeError>)
    ensures r.Success? <==> n >= 0
    ensures r.Success? ==> r.value.unit == Bytes && SizeInBytes(r.value) == n as real
    ensures n < 0 ==> r == Failure(NegativeValue)
  {
    NewDataVolume(Some(n as real), Some(Bytes))
  }

  /** ZERO. */
  const Zero: DataVolume := DataVolume(0.0, Bytes)

  lemma ZeroIsNoBytes()
    ensures BytesOf(0) == Success(Zero)
    ensures SizeInBytes(Zero) == 0.0
  {
  }

  /** Unit.convert(volume): the volume's byte size divided by the unit's factor, in that
      unit. The byte size is preserved exactly. */
  function Convert(u: Unit, v: DataVolume): (r: DataVolume)
    ensures r.unit == u
    ensures SizeInBytes(r) == SizeInBytes(v)
  {
    var f := Factor(u) as real;
    var value := SizeInBytes(v) / f;
    assert value * f == SizeInBytes(v);
    DataVolume(value, u)
  }

  /** convertTo(unit): a null unit is rejected; the volume's own unit returns the volume
      itself; any other unit converts. */
  function ConvertTo(v: DataVolume, u: Option<Unit>): (r: Result<DataVolume, VolumeError>)
    ensures r.Success? <==> u.Some?
    ensures u.None? ==> r == Failure(NullUnit)
    ensures r.Success? ==> r.value.unit == u.value && SizeInBytes(r.value) == SizeInBytes(v)
    ensures u == Some(v.unit) ==> r == Success(v)
  {
    if u.None? then Failure(NullUnit)
    else if v.unit == u.value then Success(v)
    else Success(Convert(u.value, v))
  }

  /** The value of a volume in unit `u` is its byte size divided by `u`'s factor. */
  lemma ConvertedValue(v: DataVolume, u: Unit)
    ensures ConvertTo(v, Some(u)).value.value == SizeInBytes(v) / Factor(u) as real
  {
    var r := ConvertTo(v, Some(u)).value;
    var f := Factor(u) as real;
    assert SizeInBytes(r) == r.value * f;
    assert r.value == r.value * f / f;
  }

  /** Converting to any unit and back gives the original volume. */
  lemma ConvertRoundTrip(v: DataVolume, u: Unit)
    ensures ConvertTo(ConvertTo(v, Some(u)).value, Some(v.unit)) == Success(v)
  {
    var w := ConvertTo(v, Some(u)).value;
    var back := ConvertTo(w, Some(v.unit)).value;
    var f := Factor(v.unit) as real;
    assert back.value * f == v.value * f;
    assert back.value == v.value;
  }

  /** The loop of determineBestDisplayUnit from position `i`: the first unit whose factor
      is not below `bytes` makes its predecessor the answer (or itself at position 0); past
      the end, the largest unit. */
  function PickUnit(bytes: real, i: nat): (u: Unit)
    requires i <= 5
    requires forall j :: 0 <= j < i ==> (Factor(UnitsFromSmallestToLargest()[j]) as real) < bytes
    ensures bytes <= 1.0 ==> u == Bytes
    ensures bytes > 1.0 ==> (Factor(u) as real) < bytes
    ensures bytes > 1.0 ==> forall w: Unit :: (Factor(w) as real) < bytes ==> Factor(w) <= Factor(u)
    decreases 5 - i
  {
    var units := UnitsFromSmallestToLargest();
    if i == |units| then units[|units| - 1]
    else if bytes <= Factor(units[i]) as real then
      if i - 1 >= 0 then
        assert forall w: Unit :: (Factor(w) as real) < bytes ==> Factor(w) < Factor(units[i]);
        assert forall w: Unit :: Factor(w) < Factor(units[i]) ==> Factor(w) <= Factor(units[i - 1]);
        units[i - 1]
      else units[i]
    else PickUnit(bytes, i + 1)
  }

  /** determineBestDisplayUnit(volume): B when no factor lies strictly below the byte size
      (at most one byte); otherwise the largest unit whose factor does. */
  function BestDisplayUnit(v: DataVolume): (u: Unit)
    ensures SizeInBytes(v) <= 1.0 ==> u == Bytes
    ensures SizeInBytes(v) > 1.0 ==> (Factor(u) as real) < SizeInBytes(v)
    ensures SizeInBytes(v) > 1.0 ==>
              forall w: Unit :: (Factor(w) as real) < SizeInBytes(v) ==> Factor(w) <= Factor(u)
  {
    PickUnit(SizeInBytes(v), 0)
  }

  /** Exactly 1024 bytes display as bytes; anything above 1024^4 bytes displays as TB. */
  lemma DisplayUnitEdges(v: DataVolume)
    ensures SizeInBytes(v) == 1024.0 ==> BestDisplayUnit(v) == Bytes
    ensures SizeInBytes(v) > Factor(Terabytes) as real ==> BestDisplayUnit(v) == Terabytes
  {
    var u := BestDisplayUnit(v);
    if SizeInBytes(v) == 1024.0 {
      assert Factor(u) < 1024;
    }
  }

  /** For byte sizes in (1, 1024^4], the value in the display unit lies in (1, 1024]. */
  lemma DisplayValueInRange(v: DataVolume)
    requires 1.0 < SizeInBytes(v) <= Factor(Terabytes) as real
    ensures var u := BestDisplayUnit(v);
            1.0 < ConvertTo(v, Some(u)).value.value <= 1024.0
  {
    var u := BestDisplayUnit(v);
    var b := SizeInBytes(v);
    var f := Factor(u) as real;
    ConvertedValue(v, u);
    assert u != Terabytes;
    var next := match u
      case Bytes => Kilobytes
      case Kilobytes => Megabytes
      case Megabytes => Gigabytes
      case _ => Terabytes;
    assert Factor(next) as real == 1024.0 * f;
    assert b <= 1024.0 * f;
    assert f < b;
    DivisionBounds(b, f);
  }

  lemma DivisionBounds(b: real, f: real)
    requires 0.0 < f < b <= 1024.0 * f
    ensures 1.0 < b / f <= 1024.0
  {
    assert b / f * f == b;
  }

  /** compareTo(other): both volumes converted to MB, then the values compared. */
  function CompareTo(a: DataVolume, b: DataVolume): (r: int)
    ensures r == -1 || r == 0 || r == 1
    ensures r < 0 <==> SizeInBytes(a) < SizeInBytes(b)
    ensures r == 0 <==> SizeInBytes(a) == SizeInBytes(b)
    ensures r > 0 <==> SizeInBytes(a) > SizeInBytes(b)
  {
    var va := ConvertTo(a, Some(Megabytes)).value.value;
    var vb := ConvertTo(b, Some(Megabytes)).value.value;
    ConvertedValue(a, Megabytes);
    ConvertedValue(b, Megabytes);
    DivisionMonotone(SizeInBytes(a), SizeInBytes(b), Factor(Megabytes) as real);
    if va < vb then -1 else if va > vb then 1 else 0
  }

  lemma DivisionMonotone(x: real, y: real, f: real)
    requires f > 0.0
    ensures x < y <==> x / f < y / f
    ensures x == y <==> x / f == y / f
  {
    assert x / f * f == x;
    assert y / f * f == y;
  }

  /** isGreaterThan(other): compareTo(other) > 0. */
  function IsGreaterThan(a: DataVolume, b: DataVolume): (r: bool)
    ensures r <==> SizeInBytes(a) > SizeInBytes(b)
  {
    CompareTo(a, b) > 0
  }

  /** isLessThan(other): compareTo(other) < 0. */
  function IsLessThan(a: DataVolume, b: DataVolume): (r: bool)
    ensures r <==> SizeInBytes(a) < SizeInBytes(b)
  {
    CompareTo(a, b) < 0
  }

  /** The order is a total preorder by byte size: swapping the operands negates the
      comparison, and volumes of equal byte size in different units compare equal. */
  lemma CompareToIsByteOrder(a: DataVolume, b: DataVolume, u: Unit)
    ensures CompareTo(a, b) == -CompareTo(b, a)
    ensures IsGreaterThan(a, b) <==> IsLessThan(b, a)
    ensures CompareTo(a, ConvertTo(a, Some(u)).value) == 0
  {
  }
}
