/**
 * Pixel brush masks: a `d`-by-`d` grid of coverage bytes in row-major order.
 * The square mask covers every pixel; the round mask covers the pixels whose
 * centre lies in the disc inscribed in the square.
 *
 * The round test compares `(x - d/2 + 0.5)^2 + (y - d/2 + 0.5)^2` with
 * `(d/2)^2`.  Every quantity there is a multiple of one half, so multiplying
 * both sides by 4 gives the exact integer test
 * `(2x - d + 1)^2 + (2y - d + 1)^2 <= d^2`, which the model uses.
 */
module PixelBrush {
  import opened Common

  /** A brush mask: its diameter and its row-major coverage bytes. */
  datatype BrushMask = BrushMask(diameter: int, data: seq<Byte>)

  function Sq(n: int): (r: int)
    ensures r >= 0
  {
    n * n
  }

  /** `square` on reals. */
  function SqR(r: real): real
  {
    r * r
  }

  lemma SqReal(n: int)
    ensures Sq(n) as real == SqR(n as real)
  {
  }

  lemma SqNeg(n: int)
    ensures Sq(-n) == Sq(n)
  {
  }

  lemma Quarter(a: real)
    ensures SqR(a / 2.0) == SqR(a) / 4.0
  {
  }

  /** The round test scaled by 4: the centre of pixel (x, y) lies in the disc. */
  predicate Covered(d: int, x: int, y: int)
  {
    Sq(2 * x - d + 1) + Sq(2 * y - d + 1) <= Sq(d)
  }

  /** The round test as written, over the reals: the squared distances of
    * the pixel centre from the disc centre, against the squared radius. */
  predicate CoveredReal(d: int, x: int, y: int)
  {
    var radius := d as real / 2.0;
    var rr := SqR(radius);
    var offset := 0.5;
    var yy := SqR(y as real - radius + offset);
    var xx := SqR(x as real - radius + offset);
    yy + xx <= rr
  }

  /** A half-pixel offset squared is a quarter of the scaled integer square. */
  lemma OffsetSquare(n: int, d: int)
    ensures SqR(n as real - d as real / 2.0 + 0.5) == Sq(2 * n - d + 1) as real / 4.0
  {
    var k := 2 * n - d + 1;
    assert n as real - d as real / 2.0 + 0.5 == k as real / 2.0;
    Quarter(k as real);
    SqReal(k);
  }

  lemma RadiusSquare(d: int)
    ensures SqR(d as real / 2.0) == Sq(d) as real / 4.0
  {
    Quarter(d as real);
    SqReal(d);
  }

  /** Scaling by 4 changes nothing: the integer test holds exactly when the
    * real one does. */
  lemma CoveredIsScaledTest(d: int, x: int, y: int)
    ensures Covered(d, x, y) <==> CoveredReal(d, x, y)
  {
    OffsetSquare(x, d);
    OffsetSquare(y, d);
    RadiusSquare(d);
  }

  /** Row `y` of the round mask of diameter `d`. */
  function Row(d: nat, opacity: Byte, y: int): (r: seq<Byte>)
    ensures |r| == d
  {
    seq(d, x => if Covered(d, x, y) then opacity else 0)
  }

  /** Rows 0 to `k - 1`, one after the other. */
  function Rows(d: nat, opacity: Byte, k: nat): seq<Byte>
  {
    if k == 0 then [] else Rows(d, opacity, k - 1) + Row(d, opacity, k - 1)
  }

  lemma {:induction false} RowsLength(d: nat, opacity: Byte, k: nat)
    ensures |Rows(d, opacity, k)| == k * d
  {
    if k > 0 {
      RowsLength(d, opacity, k - 1);
      assert (k - 1) * d + d == k * d;
    }
  }

  lemma {:induction false} RowsGrow(d: nat, opacity: Byte, j: nat, k: nat)
    requires j <= k
    ensures |Rows(d, opacity, j)| <= |Rows(d, opacity, k)|
    decreases k
  {
    if j < k {
      RowsGrow(d, opacity, j, k - 1);
    }
  }

  /** Column `x` of row `y` sits right after the rows before `y`. */
  lemma {:induction false} RowsAt(d: nat, opacity: Byte, k: nat, y: nat, x: nat)
    requires y < k && x < d
    ensures |Rows(d, opacity, y)| + x < |Rows(d, opacity, k)|
    ensures Rows(d, opacity, k)[|Rows(d, opacity, y)| + x] == Row(d, opacity, y)[x]
  {
    if y < k - 1 {
      RowsAt(d, opacity, k - 1, y, x);
    }
  }

  /** The content of the round mask: `d * d` bytes, row by row; all zero for
    * a negative diameter. */
  function RoundData(d: int, opacity: Byte): seq<Byte>
  {
    if d <= 0 then seq(Sq(d), _ => 0) else Rows(d, opacity, d)
  }

  /** `makeRoundPixelBrushMask`: a zeroed `d * d` grid in which the nested
    * row and column loops set each covered pixel to the opacity.  A negative
    * diameter still gets `d * d` bytes, all zero, since the loops do not run. */
  method MakeRoundPixelBrushMask(diameter: int, opacity: Byte) returns (mask: BrushMask)
    ensures mask == BrushMask(diameter, RoundData(diameter, opacity))
  {
    var rr := Sq(diameter);
    var data := new Byte[rr](_ => 0);
    if diameter <= 0 {
      return BrushMask(diameter, data[..]);
    }
    RowsLength(diameter, opacity, diameter);
    var ptr := 0;
    var y := 0;
    while y < diameter
      invariant 0 <= y <= diameter
      invariant ptr == |Rows(diameter, opacity, y)| <= data.Length
      invariant forall i :: 0 <= i < ptr ==> data[i] == Rows(diameter, opacity, y)[i]
      invariant forall i :: ptr <= i < data.Length ==> data[i] == 0
    {
      RowsGrow(diameter, opacity, y + 1, diameter);
      RowFill(data, diameter, opacity, y, ptr);
      ptr := ptr + diameter;
      y := y + 1;
    }
    assert ptr == data.Length;
    assert data[..] == Rows(diameter, opacity, diameter);
    mask := BrushMask(diameter, data[..]);
  }

  /** The inner loop of `makeRoundPixelBrushMask`: row `y` written from `ptr`
    * on, with the rows before it kept. */
  method RowFill(data: array<Byte>, diameter: nat, opacity: Byte, y: nat, ptr: nat)
    requires y < diameter && data.Length == |Rows(diameter, opacity, diameter)|
    requires ptr == |Rows(diameter, opacity, y)| && ptr + diameter <= data.Length
    requires forall i :: 0 <= i < ptr ==> data[i] == Rows(diameter, opacity, y)[i]
    requires forall i :: ptr <= i < data.Length ==> data[i] == 0
    modifies data
    ensures forall i :: 0 <= i < ptr + diameter ==> data[i] == Rows(diameter, opacity, y + 1)[i]
    ensures forall i :: ptr + diameter <= i < data.Length ==> data[i] == 0
  {
    var yy := Sq(2 * y - diameter + 1);
    var rr := Sq(diameter);
    var x := 0;
    while x < diameter
      invariant 0 <= x <= diameter
      invariant forall i :: 0 <= i < ptr ==> data[i] == Rows(diameter, opacity, y)[i]
      invariant forall j :: 0 <= j < x ==> data[ptr + j] == Row(diameter, opacity, y)[j]
      invariant forall i :: ptr + x <= i < data.Length ==> data[i] == 0
    {
      var xx := Sq(2 * x - diameter + 1);
      assert (yy + xx <= rr) == Covered(diameter, x, y);
      if yy + xx <= rr {
        data[ptr + x] := opacity;
      }
      assert data[ptr + x] == Row(diameter, opacity, y)[x];
      x := x + 1;
    }
    forall i | 0 <= i < ptr + diameter
      ensures data[i] == Rows(diameter, opacity, y + 1)[i]
    {
      if i >= ptr {
        assert data[ptr + (i - ptr)] == Row(diameter, opacity, y)[i - ptr];
      }
    }
  }

  /** `makeSquarePixelBrushMask`: `d * d` bytes, each the opacity. */
  function MakeSquarePixelBrushMask(diameter: int, opacity: Byte): (mask: BrushMask)
    ensures mask.diameter == diameter && |mask.data| == Sq(diameter)
    ensures forall i :: 0 <= i < |mask.data| ==> mask.data[i] == opacity
  {
    BrushMask(diameter, seq(Sq(diameter), _ => opacity))
  }

  /** The byte of pixel (x, y) of the round mask. */
  function Pixel(d: int, opacity: Byte, x: int, y: int): Byte
    requires 0 <= x < d && 0 <= y < d
  {
    Row(d, opacity, y)[x]
  }

  /** The byte of pixel (x, y) sits at row-major position `y * d + x` and is
    * the opacity when the pixel is covered and 0 otherwise. */
  lemma RoundMaskAt(d: int, opacity: Byte, x: int, y: int)
    requires 0 <= x < d && 0 <= y < d
    ensures 0 <= y * d + x < |RoundData(d, opacity)|
    ensures RoundData(d, opacity)[y * d + x] == Pixel(d, opacity, x, y)
    ensures Pixel(d, opacity, x, y) == if Covered(d, x, y) then opacity else 0
  {
    RowsLength(d, opacity, y);
    RowsAt(d, opacity, d, y, x);
  }

  /** The round mask has `d * d` bytes, each either 0 or the opacity. */
  lemma {:induction false} RoundMaskBytes(d: int, opacity: Byte)
    ensures |RoundData(d, opacity)| == Sq(d)
    ensures forall i :: 0 <= i < Sq(d) ==> RoundData(d, opacity)[i] == 0 || RoundData(d, opacity)[i] == opacity
  {
    if d > 0 {
      RowsLength(d, opacity, d);
      RowsBytes(d, opacity, d);
    }
  }

  lemma {:induction false} RowsBytes(d: nat, opacity: Byte, k: nat)
    ensures forall i :: 0 <= i < |Rows(d, opacity, k)| ==>
      Rows(d, opacity, k)[i] == 0 || Rows(d, opacity, k)[i] == opacity
  {
    if k > 0 {
      RowsBytes(d, opacity, k - 1);
    }
  }

  /** The disc is symmetric: mirroring either axis or swapping the axes
    * keeps a pixel covered or uncovered. */
  lemma CoveredSymmetric(d: int, x: int, y: int)
    ensures Covered(d, x, y) == Covered(d, d - 1 - x, y)
    ensures Covered(d, x, y) == Covered(d, x, d - 1 - y)
    ensures Covered(d, x, y) == Covered(d, y, x)
  {
    assert 2 * (d - 1 - x) - d + 1 == -(2 * x - d + 1);
    assert 2 * (d - 1 - y) - d + 1 == -(2 * y - d + 1);
    SqNeg(2 * x - d + 1);
    SqNeg(2 * y - d + 1);
  }

  /** The round mask itself is symmetric in the same three ways. */
  lemma RoundMaskSymmetric(d: int, opacity: Byte, x: int, y: int)
    requires 0 <= x < d && 0 <= y < d
    ensures Pixel(d, opacity, x, y) == Pixel(d, opacity, d - 1 - x, y)
    ensures Pixel(d, opacity, x, y) == Pixel(d, opacity, x, d - 1 - y)
    ensures Pixel(d, opacity, x, y) == Pixel(d, opacity, y, x)
  {
    CoveredSymmetric(d, x, y);
  }

  lemma SqAtLeastTwice(d: int)
    requires d >= 2
    ensures Sq(d) >= 2 * d
  {
    assert d * d == d * (d - 2) + 2 * d;
  }

  /** For any positive diameter the centre pixel is covered (the central
    * two-by-two block when the diameter is even). */
  lemma CentreCovered(d: int)
    requires d >= 1
    ensures Covered(d, (d - 1) / 2, (d - 1) / 2) && Covered(d, d / 2, d / 2)
    ensures Covered(d, (d - 1) / 2, d / 2) && Covered(d, d / 2, (d - 1) / 2)
  {
    var lo := 2 * ((d - 1) / 2) - d + 1;
    var hi := 2 * (d / 2) - d + 1;
    assert -1 <= lo <= 0 && 0 <= hi <= 1;
    assert Sq(lo) <= 1 && Sq(hi) <= 1;
    if d == 1 {
      assert lo == 0 && hi == 0;
    } else {
      SqAtLeastTwice(d);
    }
  }

  /** So the round mask of a positive diameter is not empty. */
  lemma RoundMaskNotEmpty(d: int, opacity: Byte)
    requires d >= 1
    ensures var c := (d - 1) / 2;
      0 <= c * d + c < |RoundData(d, opacity)| && RoundData(d, opacity)[c * d + c] == opacity
      && Pixel(d, opacity, c, c) == opacity
  {
    var c := (d - 1) / 2;
    CentreCovered(d);
    RoundMaskAt(d, opacity, c, c);
  }

  /** A zero diameter gives two empty masks. */
  lemma ZeroDiameterMasks(opacity: Byte)
    ensures RoundData(0, opacity) == [] && MakeSquarePixelBrushMask(0, opacity).data == []
  {
  }

  /** The round mask lies inside the square one: both have `d * d` bytes and
    * every byte the round mask sets is the square mask's byte there. */
  lemma RoundWithinSquare(d: int, opacity: Byte)
    ensures |RoundData(d, opacity)| == |MakeSquarePixelBrushMask(d, opacity).data|
    ensures forall i :: 0 <= i < |RoundData(d, opacity)| && RoundData(d, opacity)[i] != 0 ==>
      RoundData(d, opacity)[i] == MakeSquarePixelBrushMask(d, opacity).data[i]
  {
    RoundMaskBytes(d, opacity);
  }
}
