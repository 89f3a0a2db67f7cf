/** A model of the colour histogram of palcalc: a dense 256 x 256 x 256 table
    holding, for every 8-bit RGB triple, the number of pixels seen with that colour. */
module ColorCalc {

  /** One 8-bit colour channel (the `u8` of an `image::Rgb<u8>` pixel). */
  type Byte = x: int | 0 <= x < 256

  /** The number of values a channel can take, and so the length of each table dimension. */
  const Side: nat := 256

  /** A decoded pixel: red, green and blue channels. */
  datatype Rgb = Rgb(r: Byte, g: Byte, b: Byte)

  /** How the image reader can fail: the file cannot be opened, or its contents cannot be decoded. */
  datatype ImageError = OpenFailed | DecodeFailed

  /** The outcome of a fallible operation (`anyhow::Result`). */
  datatype Result<T> = Ok(value: T) | Err(error: ImageError)

  // ---------------------------------------------------------------------------
  // Sum of all cells of a histogram, taken in the table's own nesting order:
  // over red, then green, then blue.
  // ---------------------------------------------------------------------------

  /** Sum of the cells (r, g, 0) .. (r, g, n - 1). */
  function SumB(m: multiset<Rgb>, r: Byte, g: Byte, n: nat): nat
    requires n <= Side
  {
    if n == 0 then 0 else SumB(m, r, g, n - 1) + m[Rgb(r, g, n - 1)]
  }

  /** Sum of the rows (r, 0, _) .. (r, n - 1, _). */
  function SumG(m: multiset<Rgb>, r: Byte, n: nat): nat
    requires n <= Side
  {
    if n == 0 then 0 else SumG(m, r, n - 1) + SumB(m, r, n - 1, Side)
  }

  /** Sum of the planes (0, _, _) .. (n - 1, _, _). */
  function SumR(m: multiset<Rgb>, n: nat): nat
    requires n <= Side
  {
    if n == 0 then 0 else SumR(m, n - 1) + SumG(m, n - 1, Side)
  }

  /** Sum of every one of the 256^3 cells of the histogram `m`. */
  function CellSum(m: multiset<Rgb>): nat {
    SumR(m, Side)
  }

  lemma {:induction false} SumBEmpty(r: Byte, g: Byte, n: nat)
    requires n <= Side
    ensures SumB(multiset{}, r, g, n) == 0
  {
    if n > 0 { SumBEmpty(r, g, n - 1); }
  }

  lemma {:induction false} SumGEmpty(r: Byte, n: nat)
    requires n <= Side
    ensures SumG(multiset{}, r, n) == 0
  {
    if n > 0 { SumGEmpty(r, n - 1); SumBEmpty(r, n - 1, Side); }
  }

  lemma {:induction false} SumREmpty(n: nat)
    requires n <= Side
    ensures SumR(multiset{}, n) == 0
  {
    if n > 0 { SumREmpty(n - 1); SumGEmpty(n - 1, Side); }
  }

  /** Counting one more pixel of colour `x` raises the partial row sum by one exactly when `x` lies in it. */
  lemma {:induction false} SumBAdd(m: multiset<Rgb>, x: Rgb, r: Byte, g: Byte, n: nat)
    requires n <= Side
    ensures SumB(m + multiset{x}, r, g, n) == SumB(m, r, g, n) + (if x.r == r && x.g == g && x.b < n then 1 else 0)
  {
    if n > 0 { SumBAdd(m, x, r, g, n - 1); }
  }

  lemma {:induction false} SumGAdd(m: multiset<Rgb>, x: Rgb, r: Byte, n: nat)
    requires n <= Side
    ensures SumG(m + multiset{x}, r, n) == SumG(m, r, n) + (if x.r == r && x.g < n then 1 else 0)
  {
    if n > 0 {
      SumGAdd(m, x, r, n - 1);
      SumBAdd(m, x, r, n - 1, Side);
      assert SumG(m + multiset{x}, r, n) == SumG(m + multiset{x}, r, n - 1) + SumB(m + multiset{x}, r, n - 1, Side);
    }
  }

  lemma {:induction false} SumRAdd(m: multiset<Rgb>, x: Rgb, n: nat)
    requires n <= Side
    ensures SumR(m + multiset{x}, n) == SumR(m, n) + (if x.r < n then 1 else 0)
  {
    if n > 0 {
      SumRAdd(m, x, n - 1);
      SumGAdd(m, x, n - 1, Side);
      assert SumR(m + multiset{x}, n) == SumR(m + multiset{x}, n - 1) + SumG(m + multiset{x}, n - 1, Side);
    }
  }

  /** One `+= 1` on any cell raises the sum of all cells by exactly one. */
  lemma {:induction false} CellSumAdd(m: multiset<Rgb>, x: Rgb)
    ensures CellSum(m + multiset{x}) == CellSum(m) + 1
  {
    SumRAdd(m, x, Side);
  }

  /** The sum of all cells is the number of pixels the histogram has counted. */
  lemma {:induction false} CellSumIsSize(m: multiset<Rgb>)
    ensures CellSum(m) == |m|
    decreases |m|
  {
    if m == multiset{} {
      SumREmpty(Side);
    } else {
      var x :| x in m;
      var rest := m - multiset{x};
      assert m == rest + multiset{x};
      CellSumIsSize(rest);
      CellSumAdd(rest, x);
    }
  }

  // ---------------------------------------------------------------------------
  // The table itself.
  // ---------------------------------------------------------------------------

  /** `ColorData`: the pixel count of every RGB triple, stored as a dense table
      indexed `[r][g][b]`. `Counts` is the histogram the table represents. */
  class ColorData {
    var table: array3<nat>
    ghost var Counts: multiset<Rgb>

    /** The table has 256 entries in each dimension and cell [r, g, b] holds how many
        pixels of colour (r, g, b) have been counted. */
    ghost predicate Valid()
      reads this, table
    {
      table.Length0 == Side && table.Length1 == Side && table.Length2 == Side &&
      forall c: Rgb :: table[c.r, c.g, c.b] == Counts[c]
    }

    /** The count stored for colour `c`. */
    function Cell(c: Rgb): nat
      reads this, table
      requires Valid()
    {
      table[c.r, c.g, c.b]
    }

    /** The sum of all cells of the table. */
    ghost function Total(): nat
      reads this, table
      requires Valid()
    {
      CellSum(Counts)
    }

    /** `ColorData::new`: a 256 x 256 x 256 table with every cell zero. */
    constructor ()
      ensures Valid() && fresh(table)
      ensures table.Length0 == Side && table.Length1 == Side && table.Length2 == Side
      ensures forall i, j, k | 0 <= i < Side && 0 <= j < Side && 0 <= k < Side :: table[i, j, k] == 0
      ensures Counts == multiset{}
      ensures Total() == 0
    {
      table := new nat[Side, Side, Side]((i, j, k) => 0);
      Counts := multiset{};
      new;
      CellSumIsSize(Counts);
    }

    /** `ColorData::add`: `decoded` is what opening and decoding the image file to RGB8
        produced. On failure the error is returned and nothing changes; otherwise the cell
        of every pixel, taken in enumeration order, is incremented once. */
    method Add(decoded: Result<seq<Rgb>>) returns (res: Result<()>)
      requires Valid()
      modifies this, table
      ensures Valid() && table == old(table)
      ensures res.Ok? <==> decoded.Ok?
      ensures decoded.Ok? ==> res == Ok(())
      ensures decoded.Err? ==> res == Err(decoded.error) && Counts == old(Counts) && unchanged(table)
      ensures decoded.Ok? ==> Counts == old(Counts) + multiset(decoded.value)
      ensures decoded.Ok? ==> forall c: Rgb :: Cell(c) == old(Cell(c)) + multiset(decoded.value)[c]
      ensures decoded.Ok? ==> forall c: Rgb :: c !in decoded.value ==> Cell(c) == old(Cell(c))
      ensures forall c: Rgb :: old(Cell(c)) <= Cell(c)
      ensures Total() == old(Total()) + (if decoded.Ok? then |decoded.value| else 0)
    {
      if decoded.Err? {
        return Err(decoded.error);
      }
      var pixels := decoded.value;
      var i := 0;
      while i < |pixels|
        invariant 0 <= i <= |pixels|
        invariant Valid() && table == old(table)
        invariant Counts == old(Counts) + multiset(pixels[..i])
      {
        var color := pixels[i];
        table[color.r, color.g, color.b] := table[color.r, color.g, color.b] + 1;
        Counts := Counts + multiset{color};
        assert pixels[..i + 1] == pixels[..i] + [color];
        i := i + 1;
      }
      assert pixels[..i] == pixels;
      CellSumIsSize(old(Counts));
      CellSumIsSize(Counts);
      return Ok(());
    }
  }

  /** The colours an image contributes to the histogram: its pixels, or none if it could not be read. */
  function Contribution(decoded: Result<seq<Rgb>>): multiset<Rgb> {
    if decoded.Ok? then multiset(decoded.value) else multiset{}
  }

  /** Two tables that hold the same counts still agree after one receives `first` then
      `second` and the other `second` then `first`: only the per-colour pixel counts
      matter, not the order in which images or pixels arrive. */
  method AddEitherOrder(t: ColorData, u: ColorData, first: Result<seq<Rgb>>, second: Result<seq<Rgb>>)
    requires t.Valid() && u.Valid()
    requires t != u && t.table != u.table
    requires t.Counts == u.Counts
    modifies t, t.table, u, u.table
    ensures t.Valid() && u.Valid()
    ensures t.Counts == old(t.Counts) + Contribution(first) + Contribution(second)
    ensures u.Counts == old(u.Counts) + Contribution(second) + Contribution(first)
    ensures forall c: Rgb :: t.Cell(c) == u.Cell(c)
  {
    ghost var h, a, b := t.Counts, Contribution(first), Contribution(second);
    var _ := t.Add(first);
    assert t.Counts == h + a;
    var _ := t.Add(second);
    assert t.Counts == h + a + b;
    assert u.Valid() && u.Counts == h;
    var _ := u.Add(second);
    assert u.Counts == h + b;
    var _ := u.Add(first);
    assert u.Counts == h + b + a;
    assert t.Valid() && t.Counts == u.Counts;
  }
}
