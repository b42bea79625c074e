/** The three whole-board loops of the main loop in src/main.rs: re-randomising every pixel,
    complementing every pixel, and the paint sweep's ASCII rendering of the board. */
module Board {
  import opened GameOfLife

  // ----- re-randomisation: each pixel becomes a random byte modulo 2 -----

  /** The board the re-randomisation loop builds when the random source yields `rand(base)`,
      `rand(base + 1)`, ... : one byte per pixel, row by row, keeping its lowest bit. */
  function Reseed(rand: nat -> u8, base: nat): Grid {
    seq(Size, i requires 0 <= i < Size => seq(Size, j requires 0 <= j < Size => rand(base + Size * i + j) % 2))
  }

  /** A re-randomised board is a 0/1 board, and pixel `(i, j)` is the low bit of the
      `(5 * i + j)`-th byte drawn. */
  lemma ReseedBinary(rand: nat -> u8, base: nat)
    ensures Binary(Reseed(rand, base))
    ensures forall i, j :: 0 <= i < Size && 0 <= j < Size ==>
      (Reseed(rand, base)[i][j] == 1 <==> rand(base + Size * i + j) % 2 == 1)
  {
  }

  /** Every 0/1 board is what some run of 25 random bytes produces. */
  lemma ReseedReachesEveryBoard(g: Grid, base: nat)
    requires Binary(g)
    ensures exists rand: nat -> u8 :: Reseed(rand, base) == g
  {
    var rand: nat -> u8 := k =>
      if base <= k < base + Size * Size then g[(k - base) / Size][(k - base) % Size] else 0;
    forall i, j | 0 <= i < Size && 0 <= j < Size
      ensures Reseed(rand, base)[i][j] == g[i][j]
    {
      var k := Size * i + j;
      assert k / Size == i && k % Size == j;
    }
    GridsEqual(Reseed(rand, base), g);
  }

  /** The re-randomisation loop, in place, drawing bytes `base .. base + 24` in order. */
  method ReseedInPlace(world: array2<u8>, rand: nat -> u8, base: nat)
    requires world.Length0 == Size && world.Length1 == Size
    modifies world
    ensures Snapshot(world) == Reseed(rand, base)
  {
    for i := 0 to Size
      invariant forall r, c :: 0 <= r < i && 0 <= c < Size ==> world[r, c] == rand(base + Size * r + c) % 2
    {
      for j := 0 to Size
        invariant forall r, c :: 0 <= r < i && 0 <= c < Size ==> world[r, c] == rand(base + Size * r + c) % 2
        invariant forall c :: 0 <= c < j ==> world[i, c] == rand(base + Size * i + c) % 2
      {
        world[i, j] := rand(base + Size * i + j) % 2;
      }
    }
    GridsEqual(Snapshot(world), Reseed(rand, base));
  }

  // ----- complement: 1 becomes 0, anything else becomes 1 -----

  function Complement(g: Grid): Grid {
    seq(Size, i requires 0 <= i < Size => seq(Size, j requires 0 <= j < Size => if g[i][j] == 1 then 0 else 1))
  }

  /** Whatever the board held, its complement is a 0/1 board, and on a 0/1 board it swaps
      live and dead pixels. */
  lemma ComplementFlips(g: Grid)
    ensures Binary(Complement(g))
    ensures Binary(g) ==> forall i, j :: 0 <= i < Size && 0 <= j < Size ==> Complement(g)[i][j] == 1 - g[i][j]
  {
  }

  /** Complementing twice gives the board back exactly when the board is a 0/1 board: a pixel
      holding 2 or more comes back as 0. */
  lemma ComplementInvolution(g: Grid)
    ensures Complement(Complement(g)) == g <==> Binary(g)
  {
    if Binary(g) {
      GridsEqual(Complement(Complement(g)), g);
    } else {
      var i, j :| 0 <= i < Size && 0 <= j < Size && g[i][j] != 0 && g[i][j] != 1;
      assert Complement(Complement(g))[i][j] != g[i][j];
    }
  }

  /** The complement loop, in place. */
  method ComplementInPlace(world: array2<u8>)
    requires world.Length0 == Size && world.Length1 == Size
    modifies world
    ensures Snapshot(world) == Complement(old(Snapshot(world)))
  {
    ghost var before := Snapshot(world);
    for i := 0 to Size
      invariant forall r, c :: 0 <= r < i && 0 <= c < Size ==> world[r, c] == (if before[r][c] == 1 then 0 else 1)
      invariant forall r, c :: i <= r < Size && 0 <= c < Size ==> world[r, c] == before[r][c]
    {
      for j := 0 to Size
        invariant forall r, c :: 0 <= r < i && 0 <= c < Size ==> world[r, c] == (if before[r][c] == 1 then 0 else 1)
        invariant forall c :: 0 <= c < j ==> world[i, c] == (if before[i][c] == 1 then 0 else 1)
        invariant forall r, c :: i <= r < Size && 0 <= c < Size && (r > i || c >= j) ==> world[r, c] == before[r][c]
      {
        if world[i, j] == 1 {
          world[i, j] := 0;
        } else {
          world[i, j] := 1;
        }
      }
    }
    GridsEqual(Snapshot(world), Complement(before));
  }

  // ----- serial rendering -----

  const LiveGlyph: u8 := 0x58   // 'X'
  const DeadGlyph: u8 := 0x2E   // '.'
  const LineFeed: u8 := 0x0A    // '\n'
  const CarriageReturn: u8 := 0x0D   // '\r'

  /** Bytes per rendered row: five glyphs, then `\n\r`. */
  const LineLength := 7

  function Glyph(v: u8): u8 {
    if v == 1 then LiveGlyph else DeadGlyph
  }

  function Glyphs(row: seq<u8>): (out: seq<u8>)
    ensures |out| == |row|
  {
    if row == [] then [] else Glyphs(row[..|row| - 1]) + [Glyph(row[|row| - 1])]
  }

  function RenderRow(row: seq<u8>): (out: seq<u8>)
    ensures |out| == |row| + 2
  {
    Glyphs(row) + [LineFeed, CarriageReturn]
  }

  function RenderRows(rows: seq<seq<u8>>): seq<u8> {
    if rows == [] then [] else RenderRows(rows[..|rows| - 1]) + RenderRow(rows[|rows| - 1])
  }

  /** What the paint sweep writes to the serial port when `update_serial` is set. */
  function Render(g: Grid): seq<u8> {
    RenderRows(g)
  }

  lemma {:induction false} GlyphsLayout(row: seq<u8>)
    ensures forall j :: 0 <= j < |row| ==> Glyphs(row)[j] == Glyph(row[j])
  {
    if row != [] {
      GlyphsLayout(row[..|row| - 1]);
    }
  }

  /** A rendered row is its five glyphs, then `\n` and `\r`. */
  lemma RenderRowLayout(row: seq<u8>)
    requires |row| == Size
    ensures |RenderRow(row)| == LineLength
    ensures forall j :: 0 <= j < Size ==> RenderRow(row)[j] == Glyph(row[j])
    ensures RenderRow(row)[Size] == LineFeed && RenderRow(row)[Size + 1] == CarriageReturn
  {
    GlyphsLayout(row);
  }

  lemma {:induction false} RenderRowsLength(rows: seq<seq<u8>>)
    requires forall i :: 0 <= i < |rows| ==> |rows[i]| == Size
    ensures |RenderRows(rows)| == LineLength * |rows|
  {
    if rows != [] {
      RenderRowsLength(rows[..|rows| - 1]);
    }
  }

  /** Row i of the rendering sits at offsets 7i .. 7i+6. */
  lemma {:induction false} RenderRowsAt(rows: seq<seq<u8>>, i: nat, o: nat)
    requires forall i :: 0 <= i < |rows| ==> |rows[i]| == Size
    requires i < |rows| && o < LineLength
    ensures LineLength * i + o < |RenderRows(rows)|
    ensures RenderRows(rows)[LineLength * i + o] == RenderRow(rows[i])[o]
  {
    var n := |rows| - 1;
    var init := rows[..n];
    RenderRowsLength(rows);
    RenderRowsLength(init);
    assert RenderRows(rows) == RenderRows(init) + RenderRow(rows[n]);
    if i < n {
      RenderRowsAt(init, i, o);
    }
  }

  /** The rendering is 35 bytes: row `i` is at offsets `7i .. 7i+6`, an `X` for each pixel equal
      to 1 and a `.` for every other pixel, then `\n` and `\r`. */
  lemma RenderLayout(g: Grid)
    ensures |Render(g)| == LineLength * Size == 35
    ensures forall i, j :: 0 <= i < Size && 0 <= j < Size ==>
      Render(g)[LineLength * i + j] == (if g[i][j] == 1 then LiveGlyph else DeadGlyph)
    ensures forall i :: 0 <= i < Size ==>
      Render(g)[LineLength * i + Size] == LineFeed && Render(g)[LineLength * i + Size + 1] == CarriageReturn
  {
    RenderRowsLength(g);
    forall i | 0 <= i < Size
      ensures forall j :: 0 <= j < Size ==>
        Render(g)[LineLength * i + j] == (if g[i][j] == 1 then LiveGlyph else DeadGlyph)
      ensures Render(g)[LineLength * i + Size] == LineFeed
      ensures Render(g)[LineLength * i + Size + 1] == CarriageReturn
    {
      RenderRowLayout(g[i]);
      forall j | 0 <= j < Size
        ensures Render(g)[LineLength * i + j] == (if g[i][j] == 1 then LiveGlyph else DeadGlyph)
      {
        RenderRowsAt(g, i, j);
      }
      RenderRowsAt(g, i, Size);
      RenderRowsAt(g, i, Size + 1);
    }
  }

  /** Two 0/1 boards with the same rendering are the same board: the serial frame shows the
      whole world. */
  lemma RenderDeterminesBoard(g: Grid, h: Grid)
    requires Binary(g) && Binary(h)
    requires Render(g) == Render(h)
    ensures g == h
  {
    RenderLayout(g);
    RenderLayout(h);
    forall i, j | 0 <= i < Size && 0 <= j < Size
      ensures g[i][j] == h[i][j]
    {
      assert Render(g)[LineLength * i + j] == Render(h)[LineLength * i + j];
    }
    GridsEqual(g, h);
  }

  /** The serial half of the paint sweep: nothing when `update_serial` is clear, the rendering
      of the board when it is set. (The LED half carries no state; see the README.) */
  method Paint(world: array2<u8>, updateSerial: bool) returns (out: seq<u8>)
    requires world.Length0 == Size && world.Length1 == Size
    ensures out == if updateSerial then Render(Snapshot(world)) else []
  {
    ghost var g := Snapshot(world);
    out := [];
    for i := 0 to Size
      invariant out == if updateSerial then RenderRows(g[..i]) else []
    {
      var line := PaintRow(world, i, updateSerial);
      out := out + line;
      assert g[..i + 1][..i] == g[..i];
    }
    assert g[..Size] == g;
  }

  /** One row of the sweep: its five glyphs and the line end, when `update_serial` is set. */
  method PaintRow(world: array2<u8>, i: Index, updateSerial: bool) returns (out: seq<u8>)
    requires world.Length0 == Size && world.Length1 == Size
    ensures out == if updateSerial then RenderRow(Snapshot(world)[i]) else []
  {
    ghost var row := Snapshot(world)[i];
    ghost var line: seq<u8> := [];
    out := [];
    for j := 0 to Size
      invariant line == Glyphs(row[..j])
      invariant out == if updateSerial then line else []
    {
      assert row[..j + 1][..j] == row[..j];
      if world[i, j] == 1 {
        if updateSerial {
          out := out + [LiveGlyph];
        }
      } else {
        if updateSerial {
          out := out + [DeadGlyph];
        }
      }
      line := line + [Glyph(world[i, j])];
    }
    if updateSerial {
      out := out + [LineFeed, CarriageReturn];
    }
    assert row[..Size] == row;
  }
}
