/**
 * The packed 1-bit framebuffer and the sprite drawing algorithm of DRW
 * (`Dxyn`): pixel addressing, the XOR of one sprite row and of a whole
 * sprite, and what a drawing does to every pixel and to the collision flag.
 */
module Display {
  import opened State

  /** The mask of bit `k` counted from the most significant end (`0x80 >> k`). */
  function BitMask(k: nat): bv8
    requires k < 8
  {
    0x80 >> k
  }

  /** The framebuffer byte holding pixel (px, py): 8 bytes per row, 8 pixels per byte. */
  function PixelIndex(px: nat, py: nat): (idx: nat)
    requires px < Width && py < Height
    ensures idx < ScreenBytes
    ensures idx / (Width / 8) == py && idx % (Width / 8) == px / 8
  {
    py * (Width / 8) + px / 8
  }

  /** Whether pixel (px, py) is lit. */
  predicate PixelOn(screen: seq<bv8>, px: nat, py: nat)
    requires |screen| == ScreenBytes && px < Width && py < Height
  {
    screen[PixelIndex(px, py)] & BitMask(px % 8) != 0
  }

  /** Whether bit `col` of a sprite row is set; column 0 is the most significant bit. */
  predicate SpriteBit(b: Byte, col: nat)
    requires col < 8
  {
    (b as bv8) & BitMask(col) != 0
  }

  /** XOR with the mask of one bit leaves every other bit as it was. */
  lemma XorOtherBit(s: bv8, a: nat, b: nat)
    requires a < 8 && b < 8 && a != b
    ensures (s ^ BitMask(a)) & BitMask(b) == s & BitMask(b)
  {
  }

  /** XOR with the mask of one bit inverts that bit. */
  lemma XorSameBit(s: bv8, a: nat)
    requires a < 8
    ensures ((s ^ BitMask(a)) & BitMask(a) != 0) == (s & BitMask(a) == 0)
  {
  }

  /**
   * Pixel addressing is one-to-one: two pixels that share a byte and a bit
   * mask are the same pixel.
   */
  lemma PixelAddressInjective(px: nat, py: nat, qx: nat, qy: nat)
    requires px < Width && py < Height && qx < Width && qy < Height
    ensures (PixelIndex(px, py) == PixelIndex(qx, qy) && px % 8 == qx % 8) <==> (px == qx && py == qy)
  {
  }

  /** XORs pixel (px, py) and reports whether it was lit before. */
  function FlipPixel(screen: seq<bv8>, px: nat, py: nat): (r: (seq<bv8>, bool))
    requires |screen| == ScreenBytes && px < Width && py < Height
    ensures |r.0| == ScreenBytes
    ensures r.1 == PixelOn(screen, px, py)
  {
    var idx := PixelIndex(px, py);
    var mask := BitMask(px % 8);
    (screen[idx := screen[idx] ^ mask], screen[idx] & mask != 0)
  }

  /** Flipping a pixel toggles that pixel and no other. */
  lemma FlipPixelEffect(screen: seq<bv8>, px: nat, py: nat, qx: nat, qy: nat)
    requires |screen| == ScreenBytes && px < Width && py < Height && qx < Width && qy < Height
    ensures PixelOn(FlipPixel(screen, px, py).0, qx, qy) == (PixelOn(screen, qx, qy) != (qx == px && qy == py))
  {
    var s' := FlipPixel(screen, px, py).0;
    var p, q := PixelIndex(px, py), PixelIndex(qx, qy);
    PixelAddressInjective(px, py, qx, qy);
    if p != q {
      assert s'[q] == screen[q];
    } else if px % 8 != qx % 8 {
      XorOtherBit(screen[p], px % 8, qx % 8);
    } else {
      XorSameBit(screen[p], px % 8);
    }
  }

  /** Column `col` of a sprite placed at column x0 lands on screen column (x0 + col) mod 64. */
  lemma ColumnOffset(x0: nat, col: nat, qx: nat)
    requires x0 < Width && col < Width && qx < Width
    ensures (qx == (x0 + col) % Width) == ((qx - x0) % Width == col)
  {
  }

  /** Row `row` of a sprite placed at row y0 lands on screen row (y0 + row) mod 32. */
  lemma RowOffset(y0: nat, row: nat, qy: nat)
    requires y0 < Height && row < Height && qy < Height
    ensures (qy == (y0 + row) % Height) == ((qy - y0) % Height == row)
  {
  }

  /**
   * Draws the first `cols` columns of a sprite row on screen row `py`, with
   * its left edge at column x0, wrapping around horizontally. Reports
   * whether a lit pixel was hit.
   */
  function DrawCols(screen: seq<bv8>, sprite: Byte, x0: nat, py: nat, cols: nat): (r: (seq<bv8>, bool))
    requires |screen| == ScreenBytes && x0 < Width && py < Height && cols <= 8
    ensures |r.0| == ScreenBytes
    decreases cols
  {
    if cols == 0 then (screen, false)
    else
      var prev := DrawCols(screen, sprite, x0, py, cols - 1);
      if !SpriteBit(sprite, cols - 1) then prev
      else
        var flip := FlipPixel(prev.0, (x0 + cols - 1) % Width, py);
        (flip.0, prev.1 || flip.1)
  }

  /** Set bit `col` of the row lands on a pixel that is lit in `screen`. */
  predicate ColHit(screen: seq<bv8>, sprite: Byte, x0: nat, py: nat, col: nat)
    requires |screen| == ScreenBytes && x0 < Width && py < Height
  {
    col < 8 && SpriteBit(sprite, col) && PixelOn(screen, (x0 + col) % Width, py)
  }

  /** Whether a set bit among the first `cols` columns of the row lands on pixel (qx, qy). */
  predicate RowCovers(sprite: Byte, x0: nat, py: nat, cols: nat, qx: nat, qy: nat)
  {
    var col := (qx - x0) % Width;
    qy == py && col < cols && col < 8 && SpriteBit(sprite, col)
  }

  /**
   * After drawing the first `cols` columns of a row, a pixel is toggled
   * exactly when a set sprite bit among those columns lands on it.
   */
  lemma {:induction false} DrawColsPixel(screen: seq<bv8>, sprite: Byte, x0: nat, py: nat, cols: nat, qx: nat, qy: nat)
    requires |screen| == ScreenBytes && x0 < Width && py < Height && cols <= 8
    requires qx < Width && qy < Height
    ensures PixelOn(DrawCols(screen, sprite, x0, py, cols).0, qx, qy)
      == (PixelOn(screen, qx, qy) != RowCovers(sprite, x0, py, cols, qx, qy))
    decreases cols
  {
    if cols > 0 {
      var col := cols - 1;
      var prev := DrawCols(screen, sprite, x0, py, col);
      DrawColsPixel(screen, sprite, x0, py, col, qx, qy);
      ColumnOffset(x0, col, qx);
      var here := qy == py && (qx - x0) % Width == col;
      if SpriteBit(sprite, col) {
        var px := (x0 + col) % Width;
        assert DrawCols(screen, sprite, x0, py, cols).0 == FlipPixel(prev.0, px, py).0;
        FlipPixelEffect(prev.0, px, py, qx, qy);
        assert RowCovers(sprite, x0, py, cols, qx, qy) == (RowCovers(sprite, x0, py, col, qx, qy) || here);
      } else {
        assert DrawCols(screen, sprite, x0, py, cols) == prev;
        assert RowCovers(sprite, x0, py, cols, qx, qy) == RowCovers(sprite, x0, py, col, qx, qy);
      }
    }
  }

  /**
   * Drawing one more column reports a collision when the earlier columns did
   * or the new column's bit lands on a pixel that was lit beforehand.
   */
  lemma DrawColsLastCollision(screen: seq<bv8>, sprite: Byte, x0: nat, py: nat, col: nat)
    requires |screen| == ScreenBytes && x0 < Width && py < Height && col < 8
    ensures DrawCols(screen, sprite, x0, py, col + 1).1
      == (DrawCols(screen, sprite, x0, py, col).1 || ColHit(screen, sprite, x0, py, col))
  {
    var px := (x0 + col) % Width;
    var prev := DrawCols(screen, sprite, x0, py, col);
    if SpriteBit(sprite, col) {
      DrawColsPixel(screen, sprite, x0, py, col, px, py);
      ColumnOffset(x0, col, px);
      assert PixelOn(prev.0, px, py) == PixelOn(screen, px, py);
      assert DrawCols(screen, sprite, x0, py, col + 1).1 == (prev.1 || PixelOn(prev.0, px, py));
    } else {
      assert DrawCols(screen, sprite, x0, py, col + 1).1 == prev.1;
    }
  }

  /**
   * Drawing the first `cols` columns of a row reports a collision exactly
   * when one of their set bits lands on a pixel that was lit beforehand.
   */
  lemma {:induction false} DrawColsCollision(screen: seq<bv8>, sprite: Byte, x0: nat, py: nat, cols: nat)
    requires |screen| == ScreenBytes && x0 < Width && py < Height && cols <= 8
    ensures DrawCols(screen, sprite, x0, py, cols).1 <==> exists col :: 0 <= col < cols && ColHit(screen, sprite, x0, py, col)
    decreases cols
  {
    if cols > 0 {
      var col := cols - 1;
      DrawColsCollision(screen, sprite, x0, py, col);
      DrawColsLastCollision(screen, sprite, x0, py, col);
      if exists c :: 0 <= c < cols && ColHit(screen, sprite, x0, py, c) {
        var c :| 0 <= c < cols && ColHit(screen, sprite, x0, py, c);
        assert c < col || c == col;
      }
    }
  }

  /**
   * Draws the first `rows` rows of the sprite stored at memory[addr..], with
   * its top left corner at (x0, y0), wrapping around both edges. Reports
   * whether a lit pixel was hit.
   */
  function DrawRows(screen: seq<bv8>, memory: seq<Byte>, addr: nat, x0: nat, y0: nat, rows: nat): (r: (seq<bv8>, bool))
    requires |screen| == ScreenBytes && x0 < Width && y0 < Height && (rows == 0 || addr + rows <= |memory|)
    ensures |r.0| == ScreenBytes
    decreases rows
  {
    if rows == 0 then (screen, false)
    else
      var prev := DrawRows(screen, memory, addr, x0, y0, rows - 1);
      var row := DrawCols(prev.0, memory[addr + rows - 1], x0, (y0 + rows - 1) % Height, 8);
      (row.0, prev.1 || row.1)
  }

  /** Whether a set bit of the first `rows` sprite rows lands on pixel (qx, qy). */
  predicate Covers(memory: seq<Byte>, addr: nat, x0: nat, y0: nat, rows: nat, qx: nat, qy: nat)
    requires rows == 0 || addr + rows <= |memory|
  {
    var row, col := (qy - y0) % Height, (qx - x0) % Width;
    row < rows && col < 8 && SpriteBit(memory[addr + row], col)
  }

  /** Set bit `col` of sprite row `row` lands on a pixel that is lit in `screen`. */
  predicate Hit(screen: seq<bv8>, memory: seq<Byte>, addr: nat, x0: nat, y0: nat, row: nat, col: nat)
    requires |screen| == ScreenBytes && x0 < Width && y0 < Height && addr + row < |memory|
  {
    ColHit(screen, memory[addr + row], x0, (y0 + row) % Height, col)
  }

  /** Drawing one more row toggles exactly the pixels that row covers. */
  lemma DrawRowsLastPixel(screen: seq<bv8>, memory: seq<Byte>, addr: nat, x0: nat, y0: nat, rows: nat, qx: nat, qy: nat)
    requires |screen| == ScreenBytes && x0 < Width && y0 < Height && 0 < rows && addr + rows <= |memory|
    requires qx < Width && qy < Height
    ensures PixelOn(DrawRows(screen, memory, addr, x0, y0, rows).0, qx, qy)
      == (PixelOn(DrawRows(screen, memory, addr, x0, y0, rows - 1).0, qx, qy)
          != RowCovers(memory[addr + rows - 1], x0, (y0 + rows - 1) % Height, 8, qx, qy))
  {
    var prev := DrawRows(screen, memory, addr, x0, y0, rows - 1);
    var py := (y0 + rows - 1) % Height;
    var line := DrawCols(prev.0, memory[addr + rows - 1], x0, py, 8);
    assert DrawRows(screen, memory, addr, x0, y0, rows).0 == line.0;
    DrawColsPixel(prev.0, memory[addr + rows - 1], x0, py, 8, qx, qy);
  }

  /**
   * The pixels a sprite covers are those its earlier rows cover together
   * with those its last row covers, and no pixel is covered twice.
   */
  lemma CoversLastRow(memory: seq<Byte>, addr: nat, x0: nat, y0: nat, rows: nat, qx: nat, qy: nat)
    requires x0 < Width && y0 < Height && 0 < rows <= Height && addr + rows <= |memory|
    requires qx < Width && qy < Height
    ensures var before := Covers(memory, addr, x0, y0, rows - 1, qx, qy);
      var last := RowCovers(memory[addr + rows - 1], x0, (y0 + rows - 1) % Height, 8, qx, qy);
      Covers(memory, addr, x0, y0, rows, qx, qy) == (before || last) && !(before && last)
  {
    RowOffset(y0, rows - 1, qy);
  }

  /** Toggling by `first` and then by `second`, which never both hold, toggles by either. */
  lemma ToggleTwice(now: bool, mid: bool, start: bool, first: bool, second: bool, either: bool)
    requires mid == (start != first) && now == (mid != second)
    requires either == (first || second) && !(first && second)
    ensures now == (start != either)
  {
  }

  /**
   * After drawing the first `rows` rows, a pixel is toggled exactly when a
   * set sprite bit lands on it. Rows never overlap, because a sprite has no
   * more rows than the screen.
   */
  lemma {:induction false} DrawRowsPixel(screen: seq<bv8>, memory: seq<Byte>, addr: nat, x0: nat, y0: nat, rows: nat, qx: nat, qy: nat)
    requires |screen| == ScreenBytes && x0 < Width && y0 < Height && addr + rows <= |memory|
    requires rows <= Height && qx < Width && qy < Height
    ensures PixelOn(DrawRows(screen, memory, addr, x0, y0, rows).0, qx, qy)
      == (PixelOn(screen, qx, qy) != Covers(memory, addr, x0, y0, rows, qx, qy))
    decreases rows
  {
    if rows > 0 {
      var row := rows - 1;
      DrawRowsPixel(screen, memory, addr, x0, y0, row, qx, qy);
      DrawRowsLastPixel(screen, memory, addr, x0, y0, rows, qx, qy);
      CoversLastRow(memory, addr, x0, y0, rows, qx, qy);
      var now := PixelOn(DrawRows(screen, memory, addr, x0, y0, rows).0, qx, qy);
      var prev := PixelOn(DrawRows(screen, memory, addr, x0, y0, row).0, qx, qy);
      var last := RowCovers(memory[addr + row], x0, (y0 + row) % Height, 8, qx, qy);
      var before := Covers(memory, addr, x0, y0, row, qx, qy);
      ToggleTwice(now, prev, PixelOn(screen, qx, qy), before, last, Covers(memory, addr, x0, y0, rows, qx, qy));
    }
  }

  /** The earlier rows of a sprite leave the pixels of a later row as they were. */
  lemma RowUntouched(screen: seq<bv8>, memory: seq<Byte>, addr: nat, x0: nat, y0: nat, row: nat, col: nat)
    requires |screen| == ScreenBytes && x0 < Width && y0 < Height && addr + row < |memory|
    requires row < Height && col < 8
    ensures ColHit(DrawRows(screen, memory, addr, x0, y0, row).0, memory[addr + row], x0, (y0 + row) % Height, col)
      == Hit(screen, memory, addr, x0, y0, row, col)
  {
    var px, py := (x0 + col) % Width, (y0 + row) % Height;
    DrawRowsPixel(screen, memory, addr, x0, y0, row, px, py);
    RowOffset(y0, row, py);
    assert !Covers(memory, addr, x0, y0, row, px, py);
  }

  /**
   * Drawing one more row reports a collision when the earlier rows did or a
   * set bit of the new row lands on a pixel that was lit before the drawing.
   */
  lemma DrawRowsLastCollision(screen: seq<bv8>, memory: seq<Byte>, addr: nat, x0: nat, y0: nat, row: nat)
    requires |screen| == ScreenBytes && x0 < Width && y0 < Height && row < Height && addr + row < |memory|
    ensures DrawRows(screen, memory, addr, x0, y0, row + 1).1
      == (DrawRows(screen, memory, addr, x0, y0, row).1
          || exists col :: 0 <= col < 8 && Hit(screen, memory, addr, x0, y0, row, col))
  {
    var py := (y0 + row) % Height;
    var sprite := memory[addr + row];
    var prev := DrawRows(screen, memory, addr, x0, y0, row);
    var last := DrawCols(prev.0, sprite, x0, py, 8);
    assert DrawRows(screen, memory, addr, x0, y0, row + 1).1 == (prev.1 || last.1);
    DrawColsCollision(prev.0, sprite, x0, py, 8);
    forall col | 0 <= col < 8
      ensures ColHit(prev.0, sprite, x0, py, col) == Hit(screen, memory, addr, x0, y0, row, col)
    {
      RowUntouched(screen, memory, addr, x0, y0, row, col);
    }
  }

  /**
   * Drawing a sprite reports a collision exactly when one of its set bits
   * lands on a pixel that was lit before the drawing.
   */
  lemma {:induction false} DrawRowsCollision(screen: seq<bv8>, memory: seq<Byte>, addr: nat, x0: nat, y0: nat, rows: nat)
    requires |screen| == ScreenBytes && x0 < Width && y0 < Height && addr + rows <= |memory|
    requires rows <= Height
    ensures DrawRows(screen, memory, addr, x0, y0, rows).1
      <==> exists row, col :: 0 <= row < rows && 0 <= col < 8 && Hit(screen, memory, addr, x0, y0, row, col)
    decreases rows
  {
    if rows > 0 {
      var row := rows - 1;
      DrawRowsCollision(screen, memory, addr, x0, y0, row);
      DrawRowsLastCollision(screen, memory, addr, x0, y0, row);
      if DrawRows(screen, memory, addr, x0, y0, row).1 {
        var r, c :| 0 <= r < row && 0 <= c < 8 && Hit(screen, memory, addr, x0, y0, r, c);
        assert 0 <= r < rows;
      } else if DrawRows(screen, memory, addr, x0, y0, rows).1 {
        var c :| 0 <= c < 8 && Hit(screen, memory, addr, x0, y0, row, c);
        assert 0 <= row < rows;
      }
      if exists r, c :: 0 <= r < rows && 0 <= c < 8 && Hit(screen, memory, addr, x0, y0, r, c) {
        var r, c :| 0 <= r < rows && 0 <= c < 8 && Hit(screen, memory, addr, x0, y0, r, c);
        if r < row {
          assert exists r', c' :: 0 <= r' < row && 0 <= c' < 8 && Hit(screen, memory, addr, x0, y0, r', c');
        } else {
          assert r == row;
          assert Hit(screen, memory, addr, x0, y0, row, c);
        }
      }
    }
  }

  /** A masked byte holds either nothing or exactly the masked bit. */
  lemma MaskedBit(s: bv8, k: nat)
    requires k < 8
    ensures s & BitMask(k) == 0 || s & BitMask(k) == BitMask(k)
  {
  }

  /** Two bytes that agree on all eight bits are equal. */
  lemma ByteFromBits(a: bv8, b: bv8)
    requires forall k :: 0 <= k < 8 ==> a & BitMask(k) == b & BitMask(k)
    ensures a == b
  {
    assert a & BitMask(0) == b & BitMask(0);
    assert a & BitMask(1) == b & BitMask(1);
    assert a & BitMask(2) == b & BitMask(2);
    assert a & BitMask(3) == b & BitMask(3);
    assert a & BitMask(4) == b & BitMask(4);
    assert a & BitMask(5) == b & BitMask(5);
    assert a & BitMask(6) == b & BitMask(6);
    assert a & BitMask(7) == b & BitMask(7);
  }

  /** Two framebuffers that light the same pixels are the same framebuffer. */
  lemma ScreenExtensionality(a: seq<bv8>, b: seq<bv8>)
    requires |a| == ScreenBytes && |b| == ScreenBytes
    requires forall px: nat, py: nat :: px < Width && py < Height ==> PixelOn(a, px, py) == PixelOn(b, px, py)
    ensures a == b
  {
    forall idx | 0 <= idx < ScreenBytes
      ensures a[idx] == b[idx]
    {
      var py := idx / (Width / 8);
      forall k | 0 <= k < 8
        ensures a[idx] & BitMask(k) == b[idx] & BitMask(k)
      {
        var px := idx % (Width / 8) * 8 + k;
        assert PixelIndex(px, py) == idx && px % 8 == k;
        assert PixelOn(a, px, py) == PixelOn(b, px, py);
        MaskedBit(a[idx], k);
        MaskedBit(b[idx], k);
      }
      ByteFromBits(a[idx], b[idx]);
    }
  }

  /**
   * Drawing the same sprite twice at the same place gives back the screen
   * it was drawn on: this is how programs erase a sprite.
   */
  lemma DrawRowsTwice(screen: seq<bv8>, memory: seq<Byte>, addr: nat, x0: nat, y0: nat, rows: nat)
    requires |screen| == ScreenBytes && x0 < Width && y0 < Height && addr + rows <= |memory|
    requires rows <= Height
    ensures var once := DrawRows(screen, memory, addr, x0, y0, rows).0;
      DrawRows(once, memory, addr, x0, y0, rows).0 == screen
  {
    var once := DrawRows(screen, memory, addr, x0, y0, rows).0;
    var twice := DrawRows(once, memory, addr, x0, y0, rows).0;
    forall px: nat, py: nat | px < Width && py < Height
      ensures PixelOn(twice, px, py) == PixelOn(screen, px, py)
    {
      DrawRowsPixel(screen, memory, addr, x0, y0, rows, px, py);
      DrawRowsPixel(once, memory, addr, x0, y0, rows, px, py);
    }
    ScreenExtensionality(twice, screen);
  }
}
