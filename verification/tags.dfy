/** The integer tag each cell receives when the board is set up: cells are
    numbered 0, 1, 2, … in scan order, so the tag of `(x, y, z)` reads as the
    base-`n` number `x y z`. The mouse-picking ray reports a clicked sphere
    by its tag, which the game decodes back into coordinates. */
module Tags {
  import Arith
  import opened Geometry

  function Cube(n: nat): nat
  {
    Arith.Mul(n, Arith.Mul(n, n))
  }

  /** The tag of a cell. */
  function Tag(n: nat, c: Coord): int
    requires InBounds(n, c)
  {
    Arith.Mul(c.x, Arith.Mul(n, n)) + Arith.Mul(c.y, n) + c.z
  }

  /** Decoding of a tag back into the coordinates of its cell: the quotient
      by `n²`, then the two base-`n` digits below it. The body divides with
      the recursive `Arith.Div` and `Arith.Mod` rather than `/` and `%`, so
      that unfolding it brings no nonlinear arithmetic into other proofs;
      the contract gives the result in terms of `/` and `%`. */
  function Components(n: nat, t: nat): (c: Coord)
    requires n > 0
    ensures c == Coord(t / (n * n), (t / n) % n, t % n)
  {
    CubeProduct(n);
    Arith.DivModProduct(t, n * n);
    Arith.DivModProduct(t, n);
    Arith.DivModProduct(t / n, n);
    Coord(Arith.Div(t, Arith.Mul(n, n)), Arith.Mod(Arith.Div(t, n), n), Arith.Mod(t, n))
  }

  // ---------------------------------------------------------------------
  // The same functions in terms of `*`
  // ---------------------------------------------------------------------

  lemma CubeProduct(n: nat)
    ensures Arith.Mul(n, n) == n * n && Cube(n) == n * (n * n)
  {
    Arith.MulProduct(n, n);
    Arith.MulProduct(n, n * n);
  }

  lemma TagProduct(n: nat, c: Coord)
    requires InBounds(n, c)
    ensures Tag(n, c) == c.x * (n * n) + c.y * n + c.z
  {
    CubeProduct(n);
    Arith.MulProduct(c.x, n * n);
    Arith.MulProduct(c.y, n);
  }

  /** The low part `y * n + z` of a tag lies in `[0, n²)`. */
  lemma LowBound(n: nat, y: int, z: int)
    requires 0 <= y < n && 0 <= z < n
    ensures 0 <= y * n + z < n * n
  {
    Arith.MulMonotone(y, n - 1, n);
    Arith.MulMonotone(0, y, n);
    assert (n - 1) * n + n == n * n;
  }

  lemma Regroup(n: nat, x: int, y: int, z: int)
    ensures x * (n * n) + y * n + z == (x * n + y) * n + z
  {
    assert (x * n + y) * n == (x * n) * n + y * n;
    assert (x * n) * n == x * (n * n);
  }

  // ---------------------------------------------------------------------
  // Round trips
  // ---------------------------------------------------------------------

  /** Every in-bounds cell has a tag in `[0, n³)`. */
  lemma TagInRange(n: nat, c: Coord)
    requires InBounds(n, c)
    ensures 0 <= Tag(n, c) < Cube(n)
  {
    CubeProduct(n);
    TagProduct(n, c);
    var nn := n * n;
    LowBound(n, c.y, c.z);
    Arith.MulMonotone(c.x, n - 1, nn);
    Arith.MulMonotone(0, c.x, nn);
    assert (n - 1) * nn + nn == n * nn;
  }

  /** Decoding the tag of a cell gives the cell back. */
  lemma TagRoundTrip(n: nat, c: Coord)
    requires InBounds(n, c)
    ensures 0 <= Tag(n, c) < Cube(n)
    ensures Components(n, Tag(n, c)) == c
  {
    TagInRange(n, c);
    TagProduct(n, c);
    var t := Tag(n, c);
    LowBound(n, c.y, c.z);
    Arith.DivModUnique(t, n * n, c.x, c.y * n + c.z);
    Regroup(n, c.x, c.y, c.z);
    Arith.DivModUnique(t, n, c.x * n + c.y, c.z);
    Arith.DivModUnique(c.x * n + c.y, n, c.x, c.y);
  }

  /** Every tag in `[0, n³)` decodes to an in-bounds cell whose tag it is. */
  lemma ComponentsRoundTrip(n: nat, t: nat)
    requires n > 0 && t < Cube(n)
    ensures InBounds(n, Components(n, t))
    ensures Tag(n, Components(n, t)) == t
  {
    CubeProduct(n);
    DecodeDigits(n, t);
    TagProduct(n, Components(n, t));
  }

  /** Base-`n` digits of a number below `n³`. */
  lemma DecodeDigits(n: nat, t: nat)
    requires n > 0 && t < n * (n * n)
    ensures 0 <= t / (n * n) < n && 0 <= (t / n) % n < n && 0 <= t % n < n
    ensures (t / (n * n)) * (n * n) + ((t / n) % n) * n + t % n == t
  {
    Recompose(n, t);
    var x := t / (n * n);
    LowBound(n, (t / n) % n, t % n);
    assert x * (n * n) <= t;
    if x >= n {
      Arith.MulMonotone(n, x, n * n);
    }
  }

  lemma Recompose(n: nat, t: nat)
    requires n > 0
    ensures (t / (n * n)) * (n * n) + ((t / n) % n) * n + t % n == t
  {
    var a, z := t / n, t % n;
    var x, y := a / n, a % n;
    assert t == a * n + z;
    assert a == x * n + y;
    Regroup(n, x, y, z);
    LowBound(n, y, z);
    Arith.DivModUnique(t, n * n, x, y * n + z);
  }

  // ---------------------------------------------------------------------
  // Scan order is tag order
  // ---------------------------------------------------------------------

  /** Tags count up by one along the scan, and the last cell has the last
      tag. */
  lemma TagNext(n: nat, c: Coord)
    requires InBounds(n, c)
    ensures InBounds(n, Next(n, c)) ==> Tag(n, Next(n, c)) == Tag(n, c) + 1
    ensures Next(n, c) == End(n) ==> Tag(n, c) == Cube(n) - 1
  {
    var d := Next(n, c);
    TagProduct(n, c);
    CubeProduct(n);
    if InBounds(n, d) {
      TagProduct(n, d);
      if c.z + 1 < n {
      } else if c.y + 1 < n {
        assert (c.y + 1) * n == c.y * n + n;
      } else {
        assert (c.x + 1) * (n * n) == c.x * (n * n) + n * n;
        assert (n - 1) * n == n * n - n;
      }
    } else {
      assert c.x == n - 1 && c.y == n - 1 && c.z == n - 1;
      assert (n - 1) * (n * n) == n * (n * n) - n * n;
      assert (n - 1) * n == n * n - n;
    }
  }

  /** A scan from cell `c` visits the cells with tags `Tag(c), Tag(c)+1, …`
      up to the last tag. */
  lemma {:induction false} ScanShape(n: nat, c: Coord)
    requires InBounds(n, c)
    decreases n - c.x, n - c.y, n - c.z
    ensures |Scan(n, c)| == Cube(n) - Tag(n, c)
    ensures forall i :: 0 <= i < |Scan(n, c)| ==> Scan(n, c)[i] == Components(n, Tag(n, c) + i)
  {
    var d := Next(n, c);
    TagNext(n, c);
    TagRoundTrip(n, c);
    var s := Scan(n, c);
    if d != End(n) {
      ScanShape(n, d);
      assert s == [c] + Scan(n, d);
      forall i | 0 <= i < |s|
        ensures s[i] == Components(n, Tag(n, c) + i)
      {
        if i > 0 {
          assert s[i] == Scan(n, d)[i - 1];
        }
      }
    }
  }

  /** The game's enumeration of all cells, last coordinate fastest: the
      three-fold Cartesian product of `0..n-1`. */
  function Product(n: nat): (p: seq<Coord>)
    ensures |p| == Cube(n)
  {
    if n == 0 then
      Scan(n, Origin)
    else
      ScanShape(n, Origin);
      TagProduct(n, Origin);
      Scan(n, Origin)
  }

  /** The enumeration lists `n³` cells, and the cell at position `i` is the
      one that `i` decodes to, whose tag is `i`: cells are tagged in
      enumeration order. */
  lemma ProductOrder(n: nat)
    requires n > 0
    ensures |Product(n)| == Cube(n)
    ensures forall i :: 0 <= i < Cube(n) ==>
              Product(n)[i] == Components(n, i) && InBounds(n, Product(n)[i]) && Tag(n, Product(n)[i]) == i
  {
    ScanShape(n, Origin);
    TagProduct(n, Origin);
    forall i | 0 <= i < Cube(n)
      ensures InBounds(n, Components(n, i)) && Tag(n, Components(n, i)) == i
    {
      ComponentsRoundTrip(n, i);
    }
  }

  /** The enumeration visits every cell exactly once. */
  lemma ProductCoversOnce(n: nat)
    requires n > 0
    ensures forall c :: c in Product(n) <==> InBounds(n, c)
    ensures forall i, j :: 0 <= i < j < |Product(n)| ==> Product(n)[i] != Product(n)[j]
  {
    ProductOrder(n);
    var p := Product(n);
    forall i, j | 0 <= i < j < |p|
      ensures p[i] != p[j]
    {
      assert Tag(n, p[i]) == i && Tag(n, p[j]) == j;
    }
  }
}
