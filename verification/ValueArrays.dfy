/** Converting an array value with any number of dimensions to nested lists. */
module ValueArrays {
  import opened OpcUa

  /** A nested list; a leaf is the index of the cell that was read. */
  datatype Nested = Cell(index: nat) | List(items: seq<Nested>)

  function Product(dims: seq<nat>): nat {
    if dims == [] then 1 else dims[0] * Product(dims[1..])
  }

  // ---------- the program ----------

  /** The stride of dimension `d`: the loop of the program leaves out the last dimension,
      and multiplies in 32 bits. */
  function Stride(dims: seq<nat>, d: nat): nat
    requires d + 1 < |dims|
  {
    Wrapped(dims[d + 1..|dims| - 1])
  }

  function Wrapped(dims: seq<nat>): nat {
    if dims == [] then 1 else (Wrapped(dims[..|dims| - 1]) * dims[|dims| - 1]) % UINT32_MOD
  }

  /** The items pushed for dimension `d`, reading from cell `base` on. */
  function Convert(dims: seq<nat>, d: nat, base: nat): seq<Nested>
    requires d < |dims|
    decreases |dims| - d
  {
    if d == |dims| - 1 then seq(dims[d], i requires 0 <= i < dims[d] => Cell(base + i))
    else seq(dims[d], i requires 0 <= i < dims[d] => List(Convert(dims, d + 1, base + i * Stride(dims, d))))
  }

  method ConvertArray(dims: seq<nat>, d: nat, base: nat) returns (items: seq<Nested>)
    requires d < |dims|
    ensures items == Convert(dims, d, base)
    decreases |dims| - d
  {
    items := [];
    if d == |dims| - 1 {
      for i := 0 to dims[d]
        invariant items == seq(i, k requires 0 <= k < i => Cell(base + k))
      {
        items := items + [Cell(base + i)];
      }
      return;
    }
    var offset: nat := 1;
    for i := d + 1 to |dims| - 1
      invariant offset == Wrapped(dims[d + 1..i])
    {
      assert dims[d + 1..i + 1][..i - d - 1] == dims[d + 1..i];
      offset := (offset * dims[i]) % UINT32_MOD;
    }
    for i := 0 to dims[d]
      invariant items == seq(i, k requires 0 <= k < i => List(Convert(dims, d + 1, base + k * Stride(dims, d))))
    {
      var nested := ConvertArray(dims, d + 1, base + i * offset);
      items := items + [List(nested)];
    }
  }

  /** An array without dimensions has one, its length. */
  function Dimensions(arrayDimensions: seq<nat>, arrayLength: nat): seq<nat> {
    if arrayDimensions == [] then [arrayLength] else arrayDimensions
  }

  /** `setValueFromDataValue`: without dimensions all cells are listed in order. */
  method ConvertValue(arrayDimensions: seq<nat>, arrayLength: nat) returns (items: seq<Nested>)
    ensures items == Convert(Dimensions(arrayDimensions, arrayLength), 0, 0)
    ensures arrayDimensions == [] ==> items == seq(arrayLength, i requires 0 <= i < arrayLength => Cell(i))
  {
    var dims := arrayDimensions;
    if |dims| == 0 {
      dims := [arrayLength];
    }
    items := ConvertArray(dims, 0, 0);
  }

  // ---------- the cells that are read ----------

  /** A multi-index into the dimensions from `d` on. */
  predicate IndexOf(dims: seq<nat>, d: nat, index: seq<nat>)
    requires d <= |dims|
  {
    |index| == |dims| - d && forall k :: 0 <= k < |index| ==> index[k] < dims[d + k]
  }

  /** The item at a multi-index. */
  function ItemAt(items: seq<Nested>, index: seq<nat>): Option<Nested>
    decreases |index|
  {
    if index == [] || index[0] >= |items| then None
    else if |index| == 1 then Some(items[index[0]])
    else if items[index[0]].List? then ItemAt(items[index[0]].items, index[1..])
    else None
  }

  /** Row-major position over `dims`. */
  function RowMajor(dims: seq<nat>, index: seq<nat>): nat
    requires |dims| == |index|
  {
    if dims == [] then 0 else index[0] * Product(dims[1..]) + RowMajor(dims[1..], index[1..])
  }

  /** The cell the program reads: row-major over all but the last dimension, plus the last index. */
  function CellRead(dims: seq<nat>, index: seq<nat>): nat
    requires |dims| == |index| > 0
  {
    RowMajor(dims[..|dims| - 1], index[..|index| - 1]) + index[|index| - 1]
  }

  // ---------- products ----------

  lemma {:induction false} ProductSnoc(dims: seq<nat>, l: nat)
    ensures Product(dims + [l]) == Product(dims) * l
  {
    if dims == [] {
      assert ([] + [l])[1..] == [];
    } else {
      ProductSnoc(dims[1..], l);
      assert (dims + [l])[1..] == dims[1..] + [l];
      assert dims[0] * (Product(dims[1..]) * l) == (dims[0] * Product(dims[1..])) * l;
    }
  }

  lemma {:induction false} ProductOfFront(dims: seq<nat>)
    requires dims != []
    ensures Product(dims) == Product(dims[..|dims| - 1]) * dims[|dims| - 1]
  {
    ProductSnoc(dims[..|dims| - 1], dims[|dims| - 1]);
    assert dims[..|dims| - 1] + [dims[|dims| - 1]] == dims;
  }

  predicate AllPositive(dims: seq<nat>) {
    forall k :: 0 <= k < |dims| ==> dims[k] > 0
  }

  lemma {:induction false} ProductPositive(dims: seq<nat>)
    ensures AllPositive(dims) <==> Product(dims) > 0
  {
    if dims != [] {
      ProductPositive(dims[1..]);
      assert AllPositive(dims) <==> dims[0] > 0 && AllPositive(dims[1..]);
      if dims[0] > 0 && Product(dims[1..]) > 0 {
        assert dims[0] * Product(dims[1..]) > 0;
      }
    }
  }

  lemma AtLeast(p: nat, a: nat)
    requires a > 0
    ensures p <= a * p && p <= p * a
  {
    assert a * p == p + (a - 1) * p;
  }

  lemma ProductOfEnds(dims: seq<nat>)
    requires dims != [] && AllPositive(dims)
    ensures Product(dims[1..]) <= Product(dims) && Product(dims[..|dims| - 1]) <= Product(dims)
  {
    AtLeast(Product(dims[1..]), dims[0]);
    ProductOfFront(dims);
    AtLeast(Product(dims[..|dims| - 1]), dims[|dims| - 1]);
  }

  lemma SliceOfDrop<T>(s: seq<T>, d: nat, i: nat, j: nat)
    requires i <= j && d + j <= |s|
    ensures s[d..][i..j] == s[d + i..d + j]
  {
    var a, b := s[d..][i..j], s[d + i..d + j];
    assert |a| == |b| && forall k :: 0 <= k < |a| ==> a[k] == b[k];
  }

  lemma {:induction false} ProductOfSlice(dims: seq<nat>, i: nat, j: nat)
    requires i <= j <= |dims| && AllPositive(dims)
    ensures Product(dims[i..j]) <= Product(dims)
    decreases |dims|
  {
    if i > 0 {
      ProductOfSlice(dims[1..], i - 1, j - 1);
      SliceOfDrop(dims, 1, i - 1, j - 1);
      ProductOfEnds(dims);
    } else if j < |dims| {
      var front := dims[..|dims| - 1];
      ProductOfSlice(front, 0, j);
      assert front[0..j] == dims[0..j];
      ProductOfEnds(dims);
    } else {
      assert dims[0..j] == dims;
    }
  }

  lemma {:induction false} NoWrap(dims: seq<nat>)
    requires AllPositive(dims) && Product(dims) < UINT32_MOD
    ensures Wrapped(dims) == Product(dims)
    decreases |dims|
  {
    if dims != [] {
      var front := dims[..|dims| - 1];
      ProductOfFront(dims);
      ProductOfSlice(dims, 0, |dims| - 1);
      assert dims[0..|dims| - 1] == front;
      NoWrap(front);
    }
  }

  lemma MultipleIsFar(m: int, d: int)
    requires m > 0
    ensures d > 0 ==> m * d >= m
    ensures d < 0 ==> m * d <= -m
  {
  }

  lemma Factor(m: int, x: int, y: int)
    ensures m * x + m * y == m * (x + y) && m * x - m * y == m * (x - y)
  {
  }

  lemma RemainderIs(z: nat, m: nat, q: nat, r: nat)
    requires z == m * q + r && r < m
    ensures z % m == r
  {
    assert z == m * (z / m) + z % m;
    Factor(m, z / m, q);
    MultipleIsFar(m, z / m - q);
  }

  lemma Parts(a: nat, m: nat)
    requires m > 0
    ensures a == m * (a / m) + a % m
  {
  }

  lemma RemainderOfSum(z: nat, m: nat, x: nat, y: nat, r: nat)
    requires z == m * x + (m * y + r) && r < m
    ensures z % m == r
  {
    Factor(m, x, y);
    RemainderIs(z, m, x + y, r);
  }

  lemma SameRemainder(z: nat, s: nat, m: nat, x: nat)
    requires m > 0 && z == m * x + s
    ensures z % m == s % m
  {
    Parts(s, m);
    RemainderOfSum(z, m, x, s / m, s % m);
  }

  lemma ReduceFactor(a: nat, b: nat, m: nat)
    requires m > 0
    ensures ((a % m) * b) % m == (a * b) % m
  {
    Parts(a, m);
    Distribute(m, a / m, a % m, b);
    SameRemainder(a * b, (a % m) * b, m, (a / m) * b);
  }

  /** For dimensions of any size the stride is the product modulo 2^32. */
  lemma {:induction false} StrideWrapsAround(dims: seq<nat>)
    ensures Wrapped(dims) == Product(dims) % 0x1_0000_0000
    decreases |dims|
  {
    if dims != [] {
      var front, last := dims[..|dims| - 1], dims[|dims| - 1];
      StrideWrapsAround(front);
      ProductOfFront(dims);
      ReduceFactor(Product(front), last, 0x1_0000_0000);
    }
  }

  // ---------- shape ----------

  predicate Shaped(items: seq<Nested>, dims: seq<nat>)
    requires dims != []
    decreases |dims|
  {
    && |items| == dims[0]
    && forall i :: 0 <= i < |items| ==>
         if |dims| == 1 then items[i].Cell? else items[i].List? && Shaped(items[i].items, dims[1..])
  }

  /** For any number of dimensions, the nested lists have the shape of the dimensions. */
  lemma {:induction false} ConvertIsShaped(dims: seq<nat>, d: nat, base: nat)
    requires d < |dims|
    ensures Shaped(Convert(dims, d, base), dims[d..])
    decreases |dims| - d
  {
    if d < |dims| - 1 {
      assert dims[d..][1..] == dims[d + 1..];
      var items := Convert(dims, d, base);
      forall i | 0 <= i < |items|
        ensures items[i].List? && Shaped(items[i].items, dims[d + 1..])
      {
        ConvertIsShaped(dims, d + 1, base + i * Stride(dims, d));
      }
    }
  }

  // ---------- which cell lands where ----------

  lemma IndexMeansPositive(dims: seq<nat>, index: seq<nat>)
    requires IndexOf(dims, 0, index)
    ensures AllPositive(dims)
  {
    assert forall k :: 0 <= k < |dims| ==> index[k] < dims[k];
  }

  /** The item at a multi-index is the cell `CellRead` names. */
  lemma {:induction false} ItemIsCellRead(dims: seq<nat>, d: nat, base: nat, index: seq<nat>)
    requires d < |dims| && AllPositive(dims) && Product(dims) < UINT32_MOD && IndexOf(dims, d, index)
    ensures ItemAt(Convert(dims, d, base), index) == Some(Cell(base + CellRead(dims[d..], index)))
    decreases |dims| - d
  {
    if |dims| - d == 1 {
      assert dims[d..][..0] == [] && index[..0] == [];
    } else {
      assert IndexOf(dims, d + 1, index[1..]);
      ItemIsCellRead(dims, d + 1, base + index[0] * Stride(dims, d), index[1..]);
      SliceNoWrap(dims, d + 1, |dims| - 1);
      CellReadStep(dims, d, index, dims[d + 1..|dims| - 1]);
    }
  }

  lemma SliceNoWrap(dims: seq<nat>, i: nat, j: nat)
    requires i <= j <= |dims| && AllPositive(dims) && Product(dims) < UINT32_MOD
    ensures Wrapped(dims[i..j]) == Product(dims[i..j])
  {
    ProductOfSlice(dims, i, j);
    assert AllPositive(dims[i..j]);
    NoWrap(dims[i..j]);
  }

  lemma CellReadStep(dims: seq<nat>, d: nat, index: seq<nat>, slice: seq<nat>)
    requires d < |dims| - 1 && |index| == |dims| - d && slice == dims[d + 1..|dims| - 1]
    ensures CellRead(dims[d..], index) == index[0] * Product(slice) + CellRead(dims[d + 1..], index[1..])
  {
    SliceOfDrop(dims, d, 1, |dims| - d - 1);
    assert dims[d..][1..] == dims[d + 1..];
    CellReadSplit(dims[d..], index, slice);
  }

  lemma CellReadSplit(rest: seq<nat>, index: seq<nat>, slice: seq<nat>)
    requires |rest| == |index| > 1 && slice == rest[1..|rest| - 1]
    ensures CellRead(rest, index) == index[0] * Product(slice) + CellRead(rest[1..], index[1..])
  {
    var front, ahead := rest[..|rest| - 1], index[..|rest| - 1];
    RowMajorStep(front, ahead);
    assert front[1..] == slice == rest[1..][..|rest| - 2];
    assert ahead[1..] == index[1..][..|rest| - 2];
  }

  lemma RowMajorStep(dims: seq<nat>, index: seq<nat>)
    requires |dims| == |index| > 0
    ensures RowMajor(dims, index) == index[0] * Product(dims[1..]) + RowMajor(dims[1..], index[1..])
  {
  }

  lemma {:induction false} RowMajorBound(dims: seq<nat>, index: seq<nat>)
    requires IndexOf(dims, 0, index)
    ensures RowMajor(dims, index) < Product(dims)
    decreases |dims|
  {
    if dims != [] {
      assert IndexOf(dims[1..], 0, index[1..]);
      RowMajorBound(dims[1..], index[1..]);
      RowBound(index[0], dims[0], Product(dims[1..]), RowMajor(dims[1..], index[1..]));
    }
  }

  lemma RowBound(a: nat, n: nat, p: nat, q: nat)
    requires a < n && q < p
    ensures a * p + q < n * p
  {
    assert (a + 1) * p <= n * p;
  }

  lemma Distribute(a: nat, p: nat, q: nat, l: nat)
    ensures (a * p + q) * l == a * (p * l) + q * l
  {
  }

  lemma SnocSum(i: nat, p: nat, q: nat, l: nat, last: nat)
    ensures i * (p * l) + (q * l + last) == (i * p + q) * l + last
  {
    Distribute(i, p, q, l);
  }

  lemma {:induction false} RowMajorSnoc(dims: seq<nat>, index: seq<nat>, n: nat)
    requires |dims| == |index| == n + 1
    ensures RowMajor(dims, index) == RowMajor(dims[..n], index[..n]) * dims[n] + index[n]
    decreases n
  {
    if n == 0 {
      assert dims[1..] == [] && index[1..] == [];
    } else {
      RowMajorSnoc(dims[1..], index[1..], n - 1);
      RestOfFront(dims, n);
      RestOfFront(index, n);
      RowMajorStep(dims, index);
      RowMajorStep(dims[..n], index[..n]);
      ProductOfFront(dims[1..]);
      SnocSum(index[0], Product(dims[..n][1..]), RowMajor(dims[..n][1..], index[..n][1..]), dims[n], index[n]);
    }
  }

  lemma RestOfFront(s: seq<nat>, n: nat)
    requires 0 < n == |s| - 1
    ensures s[1..][..n - 1] == s[..n][1..] && s[1..][n - 1] == s[n] && s[..n][0] == s[0]
  {
  }

  function LastIndex(dims: seq<nat>): (r: seq<nat>)
    requires AllPositive(dims)
    ensures IndexOf(dims, 0, r)
  {
    seq(|dims|, k requires 0 <= k < |dims| => dims[k] - 1)
  }

  lemma {:induction false} RowMajorOfLast(dims: seq<nat>)
    requires AllPositive(dims)
    ensures RowMajor(dims, LastIndex(dims)) == Product(dims) - 1
    decreases |dims|
  {
    if dims != [] {
      assert LastIndex(dims)[1..] == LastIndex(dims[1..]);
      RowMajorOfLast(dims[1..]);
      assert (dims[0] - 1) * Product(dims[1..]) == dims[0] * Product(dims[1..]) - Product(dims[1..]);
    }
  }

  lemma GrowsWithFactor(a: nat, l: nat)
    requires l > 1
    ensures a * l >= a
    ensures a > 0 ==> a * l > a
  {
    assert a * l == a + a * (l - 1);
    if a > 0 {
      assert a * (l - 1) > 0;
    }
  }

  lemma Rectangle(p: nat, l: nat)
    requires p > 0 && l > 0
    ensures p + l - 1 <= p * l
    ensures p > 1 && l > 1 ==> (p - 1) * l > p - 1
  {
    assert p * l == (p - 1) * l + l;
    if l > 1 {
      GrowsWithFactor(p - 1, l);
    } else {
      assert (p - 1) * l == p - 1;
    }
  }

  /** `p` is the number of rows, the product of all but the last dimension, and `l` the row length. */
  predicate Rows(dims: seq<nat>, p: nat, l: nat) {
    dims != [] && p == Product(dims[..|dims| - 1]) && l == dims[|dims| - 1]
  }

  lemma FrontIndex(dims: seq<nat>, index: seq<nat>, p: nat, l: nat)
    requires Rows(dims, p, l) && IndexOf(dims, 0, index)
    ensures AllPositive(dims) && p > 0 && l > 0
    ensures var q := RowMajor(dims[..|dims| - 1], index[..|dims| - 1]);
            q < p && CellRead(dims, index) == q + index[|dims| - 1] && RowMajor(dims, index) == q * l + index[|dims| - 1]
  {
    var n := |dims| - 1;
    IndexMeansPositive(dims, index);
    assert IndexOf(dims[..n], 0, index[..n]);
    RowMajorBound(dims[..n], index[..n]);
    RowMajorSnoc(dims, index, n);
  }

  lemma LastIndexCell(dims: seq<nat>, p: nat, l: nat)
    requires Rows(dims, p, l) && AllPositive(dims)
    ensures p > 0 && CellRead(dims, LastIndex(dims)) == p + l - 2 && RowMajor(dims, LastIndex(dims)) == (p - 1) * l + (l - 1)
  {
    var n := |dims| - 1;
    FrontIndex(dims, LastIndex(dims), p, l);
    assert LastIndex(dims)[..n] == LastIndex(dims[..n]);
    RowMajorOfLast(dims[..n]);
  }

  /** Cells up to `p + l - 2` are read, that one is read, and it lies inside the array. */
  lemma CellsReadAreInBounds(dims: seq<nat>, index: seq<nat>, p: nat, l: nat)
    requires Rows(dims, p, l) && IndexOf(dims, 0, index)
    ensures AllPositive(dims) && CellRead(dims, index) <= p + l - 2 < Product(dims)
    ensures CellRead(dims, LastIndex(dims)) == p + l - 2
  {
    FrontIndex(dims, index, p, l);
    LastIndexCell(dims, p, l);
    ProductOfFront(dims);
    Rectangle(p, l);
  }

  /** The cells are the row-major ones for every multi-index exactly if there is at most one
      row or a row has at most one cell. */
  lemma RowMajorIff(dims: seq<nat>, p: nat, l: nat)
    requires Rows(dims, p, l)
    ensures (forall index :: IndexOf(dims, 0, index) ==> CellRead(dims, index) == RowMajor(dims, index)) <==>
            p <= 1 || l <= 1
  {
    if p <= 1 || l <= 1 {
      forall index | IndexOf(dims, 0, index)
        ensures CellRead(dims, index) == RowMajor(dims, index)
      {
        FrontIndex(dims, index, p, l);
      }
    } else {
      RowsPositive(dims, p, l);
      LastIndexCell(dims, p, l);
      Rectangle(p, l);
      assert CellRead(dims, LastIndex(dims)) != RowMajor(dims, LastIndex(dims));
    }
  }

  lemma RowsPositive(dims: seq<nat>, p: nat, l: nat)
    requires Rows(dims, p, l) && p > 0 && l > 0
    ensures AllPositive(dims)
  {
    ProductPositive(dims[..|dims| - 1]);
  }

  /** The converted value at every multi-index is the row-major cell exactly if the same
      condition holds. */
  lemma ConversionIsRowMajorIff(dims: seq<nat>, p: nat, l: nat)
    requires Rows(dims, p, l) && Product(dims) < UINT32_MOD
    ensures (forall index :: IndexOf(dims, 0, index) ==>
               ItemAt(Convert(dims, 0, 0), index) == Some(Cell(RowMajor(dims, index)))) <==>
            p <= 1 || l <= 1
  {
    RowMajorIff(dims, p, l);
    forall index | IndexOf(dims, 0, index)
      ensures ItemAt(Convert(dims, 0, 0), index) == Some(Cell(CellRead(dims, index)))
    {
      IndexMeansPositive(dims, index);
      ItemIsCellRead(dims, 0, 0, index);
      assert dims[0..] == dims;
    }
  }
}
