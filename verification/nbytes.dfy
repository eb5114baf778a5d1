/** The ggml tensor byte-size formula (`ggml_nbytes`).

    With block size 1 the size is the type size plus `(ne[i] - 1) * nb[i]`
    over all four axes. Otherwise axis 0 contributes `ne[0] * nb[0] // blck`
    (Python floor division) and axes 1..3 the same stride terms. Nothing is
    sanitised: zero or negative dimensions and strides give whatever integer
    the formula yields. */
module NBytes {
  import opened Wrappers
  import opened TypeTraits

  /** `GGML_MAX_DIMS`: only this many axes take part in the formula. */
  const MaxDims: nat := 4

  /** Python's `a // b`: the floor of the exact quotient, for either sign of `b`. */
  function FloorDiv(a: int, b: int): (q: int)
    requires b != 0
    ensures b > 0 ==> b * q <= a < b * q + b
    ensures b < 0 ==> b * q + b < a <= b * q
  {
    if b > 0 then a / b else (-a) / (-b)
  }

  /** The offset axis `i` adds: `(ne[i] - 1) * nb[i]`. */
  function AxisTerm(ne: seq<int>, nb: seq<int>, i: nat): int
    requires i < |ne| && i < |nb|
  {
    (ne[i] - 1) * nb[i]
  }

  /** Sum of the axis terms for axes `lo .. hi-1`. */
  function StrideSum(ne: seq<int>, nb: seq<int>, lo: nat, hi: nat): int
    requires lo <= hi <= |ne| && hi <= |nb|
    decreases hi - lo
  {
    if lo == hi then 0 else StrideSum(ne, nb, lo, hi - 1) + AxisTerm(ne, nb, hi - 1)
  }

  /** The formula written out axis by axis for resolved block and type sizes:
      the reference the loop in `ComputeNBytes` is proved against. */
  function Formula(ne: seq<int>, nb: seq<int>, blck: int, tsize: int): (r: Result<int, Error>)
    requires |ne| >= MaxDims && |nb| >= MaxDims
    ensures r.Failure? <==> blck == 0
    ensures r.Failure? ==> r.error == ZeroDivision
  {
    var rest := AxisTerm(ne, nb, 1) + AxisTerm(ne, nb, 2) + AxisTerm(ne, nb, 3);
    if blck == 1 then Success(tsize + AxisTerm(ne, nb, 0) + rest)
    else if blck == 0 then Failure(ZeroDivision)
    else Success(FloorDiv(ne[0] * nb[0], blck) + rest)
  }

  /** The body of `ggml_nbytes` once the two sizes are resolved: the same
      branch and the same accumulating loop over the axes. */
  method ComputeNBytes(ne: seq<int>, nb: seq<int>, blck: int, tsize: int) returns (r: Result<int, Error>)
    requires |ne| >= MaxDims && |nb| >= MaxDims
    ensures r == Formula(ne, nb, blck, tsize)
  {
    var nbytes: int;
    var i: nat;
    if blck == 1 {
      nbytes := tsize;
      i := 0;
    } else {
      if blck == 0 {
        return Failure(ZeroDivision);
      }
      nbytes := FloorDiv(ne[0] * nb[0], blck);
      i := 1;
    }
    ghost var start, base := i, nbytes;
    while i < MaxDims
      invariant start <= i <= MaxDims
      invariant nbytes == base + StrideSum(ne, nb, start, i)
    {
      nbytes := nbytes + AxisTerm(ne, nb, i);
      i := i + 1;
    }
    assert StrideSum(ne, nb, start, MaxDims) ==
      (if start == 0 then AxisTerm(ne, nb, 0) else 0)
      + AxisTerm(ne, nb, 1) + AxisTerm(ne, nb, 2) + AxisTerm(ne, nb, 3);
    return Success(nbytes);
  }

  /** `ggml_nbytes(ne, nb, type_name)`: resolve the block size (a `KeyError`
      for an unknown name), then apply the formula. */
  function GgmlNBytes(table: Table, name: string, ne: seq<int>, nb: seq<int>): (r: Result<int, Error>)
    requires |ne| >= MaxDims && |nb| >= MaxDims
    ensures r == Failure(UnknownType(name)) <==> !HasKey(table, name)
    ensures r == Failure(ZeroDivision) <==> BlckSize(table, name) == Success(0)
    ensures r.Failure? ==> r.error == UnknownType(name) || r.error == ZeroDivision
    ensures r.Success? ==>
      r == Formula(ne, nb, BlckSize(table, name).value, TypeSize(table, name).value)
  {
    var blck :- BlckSize(table, name);
    Formula(ne, nb, blck, TypeSize(table, name).value)
  }

  /** Block size 1 and unit dimensions: every stride term vanishes and the
      result is the type size, whatever the strides. */
  lemma UnitDimsGiveTypeSize(table: Table, name: string, nb: seq<int>)
    requires |nb| >= MaxDims
    requires BlckSize(table, name) == Success(1)
    ensures GgmlNBytes(table, name, [1, 1, 1, 1], nb) == TypeSize(table, name)
  {
  }

  /** One full block along axis 0 with stride `S`: `B * S // B == S` and the
      other axes vanish, for any block size other than 0 and 1. */
  lemma OneBlockGivesStride(blck: int, tsize: int, nb: seq<int>)
    requires blck != 0 && blck != 1
    requires |nb| >= MaxDims
    ensures Formula([blck, 1, 1, 1], nb, blck, tsize) == Success(nb[0])
  {
    ExactFloorDiv(nb[0], blck);
  }

  /** Dividing an exact multiple gives the factor back. */
  lemma ExactFloorDiv(s: int, b: int)
    requires b != 0
    ensures FloorDiv(b * s, b) == s
  {
    var q := FloorDiv(b * s, b);
    var d := q - s;
    assert b * q - b * s == b * d;
    if d > 0 {
      MulAtLeast(b, d);
    } else if d < 0 {
      MulAtLeast(b, -d);
    }
  }

  /** A positive factor scales `b` by at least itself in magnitude. */
  lemma MulAtLeast(b: int, d: int)
    requires d >= 1
    ensures b > 0 ==> b * d >= b
    ensures b < 0 ==> b * d <= b
  {
    assert b * d == b * (d - 1) + b;
    if b > 0 { assert b * (d - 1) >= 0; } else if b < 0 { assert b * (d - 1) <= 0; }
  }

  /** The fixture noted at the top of nbytes.py: quantised block size 32,
      `ne = {96, 96, 96, 64}`, `nb = {10, 1, 1, 1}` gives 0x11b. */
  lemma QuantisedFixture(tsize: int)
    ensures Formula([96, 96, 96, 64], [10, 1, 1, 1], 32, tsize) == Success(0x11b)
  {
  }

  /** Unquantised 4-byte scalar, same shape: 4 + 950 + 95 + 95 + 63. */
  lemma UnquantisedFixture()
    ensures Formula([96, 96, 96, 64], [10, 1, 1, 1], 1, 4) == Success(1207)
  {
  }

  /** Axis 0 of the quantised branch rounds towards minus infinity, not towards
      zero: one element with stride -1 in 32-element blocks takes -1 bytes. */
  lemma QuantisedAxisZeroFloors(tsize: int)
    ensures Formula([1, 1, 1, 1], [-1, 1, 1, 1], 32, tsize) == Success(-1)
    ensures Formula([64, 1, 1, 1], [1, 1, 1, 1], 32, tsize) == Success(2)
  {
  }

  /** Growing axis `i` by one element adds exactly `nb[i]` bytes, for axes 1..3
      always and for axis 0 when the block size is 1. */
  lemma AxisIncrement(ne: seq<int>, nb: seq<int>, blck: int, tsize: int, i: nat)
    requires |ne| >= MaxDims && |nb| >= MaxDims
    requires 1 <= i < MaxDims || (i == 0 && blck == 1)
    requires blck != 0
    ensures Formula(ne[i := ne[i] + 1], nb, blck, tsize).Success?
    ensures Formula(ne[i := ne[i] + 1], nb, blck, tsize).value
         == Formula(ne, nb, blck, tsize).value + nb[i]
  {
  }

  /** Entries beyond `GGML_MAX_DIMS` never affect the result. */
  lemma OnlyFirstFourAxes(ne: seq<int>, nb: seq<int>, blck: int, tsize: int)
    requires |ne| >= MaxDims && |nb| >= MaxDims
    ensures Formula(ne, nb, blck, tsize) == Formula(ne[..MaxDims], nb[..MaxDims], blck, tsize)
  {
  }
}
