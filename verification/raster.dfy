/** Grey-scale rasters as used by the preprocessing pipeline: a numpy `uint8`
    matrix is a sequence of rows of bytes. Pixel counting and its transfer
    lemmas live here because the polarity step and the stroke thinner both
    count pixels of one value. */
module Raster {

  /** An 8-bit unsigned sample. */
  type Byte = v: int | 0 <= v <= 255

  /** Row-major image: `g[y][x]` is the pixel in row `y`, column `x`. */
  type Image = seq<seq<Byte>>

  /** The background value of a binary image under the canonical polarity. */
  const White: Byte := 255
  /** The ink value of a binary image under the canonical polarity. */
  const Black: Byte := 0

  datatype Option<+T> = None | Some(value: T)

  /** The smaller of two integers. */
  function Min(a: int, b: int): int {
    if a <= b then a else b
  }

  /** `g` has `h` rows of `w` pixels each. */
  predicate IsRect(g: Image, h: nat, w: nat) {
    |g| == h && forall y :: 0 <= y < h ==> |g[y]| == w
  }

  /** Width of an image (a matrix with no rows reports width 0). */
  function Width(g: Image): nat {
    if |g| == 0 then 0 else |g[0]|
  }

  /** Every row has the same length, as in a 2-D numpy array. */
  predicate Rectangular(g: Image) {
    IsRect(g, |g|, Width(g))
  }

  /** Number of pixels of a row equal to `v`. */
  function CountRow(row: seq<Byte>, v: Byte): (n: nat)
    ensures n <= |row|
  {
    if |row| == 0 then 0
    else (if row[0] == v then 1 else 0) + CountRow(row[1..], v)
  }

  /** Number of pixels of an image equal to `v` (`np.sum(image == v)`). It
      never exceeds the number of pixels, so a pixel fraction is at most one. */
  function Count(g: Image, v: Byte): (n: nat)
    ensures Rectangular(g) ==> n <= |g| * Width(g)
  {
    if |g| == 0 then 0
    else
      var rest := g[1..];
      assert Rectangular(g) && |g| > 1 ==> |rest[0]| == Width(g) && Rectangular(rest);
      assert |g| * Width(g) == Width(g) + |rest| * Width(g);
      CountRow(g[0], v) + Count(rest, v)
  }

  /** Two rows related pixel by pixel by "`a` here exactly when `b` there"
      have the same counts of `a` and `b`. */
  lemma {:induction false} CountRowTransfer(s: seq<Byte>, t: seq<Byte>, a: Byte, b: Byte)
    requires |s| == |t|
    requires forall x :: 0 <= x < |s| ==> (s[x] == a <==> t[x] == b)
    ensures CountRow(s, a) == CountRow(t, b)
  {
    if |s| > 0 {
      CountRowTransfer(s[1..], t[1..], a, b);
    }
  }

  lemma {:induction false} CountTransfer(g: Image, e: Image, a: Byte, b: Byte)
    requires |g| == |e|
    requires forall y :: 0 <= y < |g| ==> |g[y]| == |e[y]|
    requires forall y, x :: 0 <= y < |g| && 0 <= x < |g[y]| ==> (g[y][x] == a <==> e[y][x] == b)
    ensures Count(g, a) == Count(e, b)
  {
    if |g| > 0 {
      CountRowTransfer(g[0], e[0], a, b);
      CountTransfer(g[1..], e[1..], a, b);
    }
  }

  /** If every `a` in `s` sits where `t` holds `b`, `t` has at least as many `b`s. */
  lemma {:induction false} CountRowMonotone(s: seq<Byte>, t: seq<Byte>, a: Byte, b: Byte)
    requires |s| == |t|
    requires forall x :: 0 <= x < |s| && s[x] == a ==> t[x] == b
    ensures CountRow(s, a) <= CountRow(t, b)
  {
    if |s| > 0 {
      CountRowMonotone(s[1..], t[1..], a, b);
    }
  }

  lemma {:induction false} CountMonotone(g: Image, e: Image, a: Byte, b: Byte)
    requires |g| == |e|
    requires forall y :: 0 <= y < |g| ==> |g[y]| == |e[y]|
    requires forall y, x :: 0 <= y < |g| && 0 <= x < |g[y]| && g[y][x] == a ==> e[y][x] == b
    ensures Count(g, a) <= Count(e, b)
  {
    if |g| > 0 {
      CountRowMonotone(g[0], e[0], a, b);
      CountMonotone(g[1..], e[1..], a, b);
    }
  }

  /** A positive count is witnessed by a pixel. */
  lemma {:induction false} CountRowWitness(row: seq<Byte>, v: Byte)
    requires CountRow(row, v) > 0
    ensures exists x :: 0 <= x < |row| && row[x] == v
  {
    if row[0] != v {
      CountRowWitness(row[1..], v);
      var x :| 0 <= x < |row[1..]| && row[1..][x] == v;
      assert row[x + 1] == v;
    }
  }

  lemma {:induction false} CountWitness(g: Image, v: Byte)
    requires Count(g, v) > 0
    ensures exists y, x :: 0 <= y < |g| && 0 <= x < |g[y]| && g[y][x] == v
  {
    if CountRow(g[0], v) > 0 {
      CountRowWitness(g[0], v);
      var x :| 0 <= x < |g[0]| && g[0][x] == v;
      assert g[0][x] == v;
    } else {
      CountWitness(g[1..], v);
      var y, x :| 0 <= y < |g[1..]| && 0 <= x < |g[1..][y]| && g[1..][y][x] == v;
      assert g[y + 1][x] == v;
    }
  }

  /** A row with no sample equal to `v` counts zero of them. */
  lemma {:induction false} CountRowNone(row: seq<Byte>, v: Byte)
    requires forall x :: 0 <= x < |row| ==> row[x] != v
    ensures CountRow(row, v) == 0
  {
    if |row| > 0 {
      CountRowNone(row[1..], v);
    }
  }

  /** An image with no pixel equal to `v` counts zero of them. */
  lemma {:induction false} CountNone(g: Image, v: Byte)
    requires forall y, x :: 0 <= y < |g| && 0 <= x < |g[y]| ==> g[y][x] != v
    ensures Count(g, v) == 0
  {
    if |g| > 0 {
      CountRowNone(g[0], v);
      CountNone(g[1..], v);
    }
  }

  /** Setting one sample that differs from `v` to `v` adds exactly one to the count. */
  lemma {:induction false} CountRowSet(row: seq<Byte>, x: nat, v: Byte)
    requires x < |row| && row[x] != v
    ensures CountRow(row[x := v], v) == CountRow(row, v) + 1
  {
    if x == 0 {
      assert row[x := v][1..] == row[1..];
    } else {
      CountRowSet(row[1..], x - 1, v);
      assert row[x := v][1..] == row[1..][x - 1 := v];
    }
  }

  /** Setting one pixel that differs from `v` to `v` adds exactly one to the
      count. With `CountNone` this fixes `Count(g, v)` as the number of pixels
      equal to `v`. */
  lemma {:induction false} CountSet(g: Image, y: nat, x: nat, v: Byte)
    requires y < |g| && x < |g[y]| && g[y][x] != v
    ensures var row: seq<Byte> := g[y][x := v]; Count(g[y := row], v) == Count(g, v) + 1
  {
    var row: seq<Byte> := g[y][x := v];
    var e := g[y := row];
    if y == 0 {
      CountRowSet(g[0], x, v);
      assert e[1..] == g[1..];
    } else {
      CountSet(g[1..], y - 1, x, v);
      assert e[1..] == g[1..][y - 1 := row];
    }
  }
}
