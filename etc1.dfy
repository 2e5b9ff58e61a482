/**
 * The ETC1 texture expander of src/pica/etc1.c as the repository has it.
 *
 * A texture is a sequence of 64-bit blocks, each stored byte-reversed, one per
 * 4x4 tile of an RGB8 image of width x height pixels. The decoder reverses
 * each block's bytes, unpacks its fields and runs two loops of 8 iterations,
 * one per subblock, writing 3 bytes per iteration. In this revision the
 * differential mode is switched off, the intensity modifier is zeroed and the
 * colour of every visited pixel is overwritten with a debug colour: red for
 * the first subblock, blue for the second. The loops step x and y together,
 * so each visits only the 4 pixels of its 2x4 subblock whose x and y have the
 * same parity.
 */
module Etc1 {
  import opened Bits

  // ---------------------------------------------------------------------------
  // The block

  /** etc1table: the intensity modifiers, one row of four per table codeword. */
  const Etc1Table: seq<seq<int>> := [
    [-8, -2, 2, 8], [-17, -5, 5, 17],
    [-29, -9, 9, 29], [-42, -13, 13, 42],
    [-60, -18, 18, 60], [-80, -24, 24, 80],
    [-106, -33, 33, 106], [-183, -47, 47, 183]
  ]

  /** A 3-bit table codeword. */
  type Codeword = x: nat | x < 8
  /** A 4-bit colour component of individual mode. */
  type Nibble = x: nat | x < 16

  /** The fields of an etc1block the decoder reads in individual mode. The
      bit layout of the block is given by etc1.h, which is not part of this
      model: the decoder takes the unpacking as a parameter. */
  datatype Fields = Fields(flip: bool, table1: Codeword, table2: Codeword,
                           idxlo: bv16, idxhi: bv16,
                           r1: Nibble, g1: Nibble, b1: Nibble,
                           r2: Nibble, g2: Nibble, b2: Nibble)

  /** The three masked swaps applied to each block before it is unpacked. */
  function ByteSwap(b: bv64): bv64
  {
    var b1 := ((b & 0xffff_ffff_0000_0000) >> 32) | ((b & 0x0000_0000_ffff_ffff) << 32);
    var b2 := ((b1 & 0xffff_0000_ffff_0000) >> 16) | ((b1 & 0x0000_ffff_0000_ffff) << 16);
    ((b2 & 0xff00_ff00_ff00_ff00) >> 8) | ((b2 & 0x00ff_00ff_00ff_00ff) << 8)
  }

  /** Byte k of b, counting from the least significant. */
  function ByteOf(b: bv64, k: bv64): bv64
    requires k < 8
  {
    (b >> (8 * k)) & 0xff
  }

  /** The swaps reverse the order of the eight bytes. */
  lemma ByteSwapReverses(b: bv64, k: bv64)
    requires k < 8
    ensures ByteOf(ByteSwap(b), k) == ByteOf(b, 7 - k)
  {
  }

  /** Reversing twice gives the block back. */
  lemma ByteSwapInvolution(b: bv64)
    ensures ByteSwap(ByteSwap(b)) == b
  {
  }

  /** The bit of a 16-bit index plane that belongs to pixel p. */
  function Bit(p: nat): bv16
    requires p < 16
  {
    1 << p
  }

  /** The 2-bit pixel index: bit p of idxlo is its low bit, bit p of idxhi its high bit. */
  function TexelIndex(lo: bv16, hi: bv16, p: nat): (idx: nat)
    requires p < 16
    ensures idx < 4
    ensures idx % 2 == 1 <==> lo & Bit(p) != 0
    ensures idx >= 2 <==> hi & Bit(p) != 0
  {
    (if lo & Bit(p) != 0 then 1 else 0) + (if hi & Bit(p) != 0 then 2 else 0)
  }

  /** The modifier etc1table[t][idx]: indices 0 and 1 darken and 2 and 3 lighten,
      by the same amounts in mirror order. */
  function Modifier(t: Codeword, idx: nat): (d: int)
    requires idx < 4
    ensures |Etc1Table| == 8 && |Etc1Table[t]| == 4
    ensures d < 0 <==> idx < 2
    ensures d == -Etc1Table[t][3 - idx] && 2 <= d * d
  {
    Etc1Table[t][idx]
  }

  /** u8 truncation of a C int. */
  function Byte(v: int): bv8
  {
    (v % 256) as bv8
  }

  // ---------------------------------------------------------------------------
  // Pixels visited by the two loops

  /** The pixel (x, y) that iteration i of the loop for subblock sub visits. */
  function PixelOf(flip: bool, sub: nat, i: nat): (p: (nat, nat))
    requires sub < 2
    ensures p.0 < 4 && p.1 < 4 && p.1 + 4 * p.0 < 16
    ensures InSubblock(flip, sub, p.0, p.1)
  {
    if flip then (i % 4, i % 2 + 2 * sub) else (i % 2 + 2 * sub, i % 4)
  }

  /** Subblock sub of a block: columns 2sub and 2sub + 1, or those rows when flipped. */
  predicate InSubblock(flip: bool, sub: nat, x: nat, y: nat)
  {
    if flip then y / 2 == sub else x / 2 == sub
  }

  /** The pixels a subblock loop writes: those of its subblock whose x and y
      have the same parity. */
  predicate Written(flip: bool, sub: nat, x: nat, y: nat)
  {
    x < 4 && y < 4 && InSubblock(flip, sub, x, y) && x % 2 == y % 2
  }

  /** Iterations i and i + 4 visit the same pixel. */
  lemma PixelPeriod(flip: bool, sub: nat, i: nat)
    requires sub < 2
    ensures PixelOf(flip, sub, i + 4) == PixelOf(flip, sub, i)
  {
    DivModUnique(i + 4, 4, i / 4 + 1, i % 4);
    DivModUnique(i + 4, 2, i / 2 + 2, i % 2);
  }

  /** The eight iterations of a loop visit exactly the Written pixels. */
  lemma VisitedPixels(flip: bool, sub: nat, x: nat, y: nat)
    requires sub < 2
    ensures (exists i :: 0 <= i < 8 && PixelOf(flip, sub, i) == (x, y)) <==> Written(flip, sub, x, y)
  {
    if Written(flip, sub, x, y) {
      var i := if flip then x else y;
      assert PixelOf(flip, sub, i) == (x, y);
    }
  }

  /** The two subblocks never share a pixel. */
  lemma SubblocksDisjoint(flip: bool, i: nat, k: nat)
    ensures PixelOf(flip, 0, i) != PixelOf(flip, 1, k)
  {
  }

  /** The colour the debug writes leave: red in subblock 0, blue in subblock 1. */
  function Colour(sub: nat, c: nat): bv8
  {
    if sub == 0 then (if c == 0 then 0xff else 0) else (if c == 2 then 0xff else 0)
  }

  // ---------------------------------------------------------------------------
  // The writes of etc1_decompress_block as a function of the buffer

  /** The bytes a block may touch from its start: up to pixel (3, 3). */
  function Span(w: nat): nat
  {
    3 * (3 * w + 3) + 3
  }

  /** The byte offset of pixel (x, y) from the block start in a w-pixel-wide RGB8 image. */
  function Off(at: nat, w: nat, x: nat, y: nat): (o: nat)
    ensures x < 4 && y < 4 ==> o + 3 <= at + Span(w)
  {
    RowsBelow(y, w);
    at + 3 * (y * w + x)
  }

  lemma RowsBelow(y: nat, w: nat)
    ensures y < 4 ==> y * w <= 3 * w
  {
    if y < 4 {
      assert (3 - y) * w >= 0;
    }
  }

  /** Byte j lies in the pixel starting at o. */
  predicate Hits(o: nat, j: nat)
  {
    o <= j < o + 3
  }

  /** The three bytes of the pixel at o set to c0, c1, c2. */
  function Paint(s: seq<bv8>, o: nat, c0: bv8, c1: bv8, c2: bv8): (r: seq<bv8>)
    requires o + 3 <= |s|
    ensures |r| == |s|
  {
    s[o := c0][o + 1 := c1][o + 2 := c2]
  }

  /** The buffer after the first n iterations of the loop for subblock sub. */
  ghost function Loop(s: seq<bv8>, at: nat, w: nat, flip: bool, sub: nat, n: nat): (r: seq<bv8>)
    requires sub < 2 && n <= 8 && at + Span(w) <= |s|
    ensures |r| == |s|
  {
    if n == 0 then s
    else
      var p := PixelOf(flip, sub, n - 1);
      Paint(Loop(s, at, w, flip, sub, n - 1), Off(at, w, p.0, p.1), Colour(sub, 0), Colour(sub, 1), Colour(sub, 2))
  }

  /** The buffer after both loops of etc1_decompress_block. */
  ghost function BlockImage(s: seq<bv8>, at: nat, w: nat, flip: bool): (r: seq<bv8>)
    requires at + Span(w) <= |s|
    ensures |r| == |s|
  {
    Loop(Loop(s, at, w, flip, 0, 8), at, w, flip, 1, 8)
  }

  /** Every pixel visited by the first n iterations holds the loop's colour. */
  lemma {:induction false} LoopPaints(s: seq<bv8>, at: nat, w: nat, flip: bool, sub: nat, n: nat, k: nat, c: nat)
    requires sub < 2 && k < n <= 8 && c < 3 && at + Span(w) <= |s|
    ensures Loop(s, at, w, flip, sub, n)[Off(at, w, PixelOf(flip, sub, k).0, PixelOf(flip, sub, k).1) + c] == Colour(sub, c)
  {
    var p, q := PixelOf(flip, sub, k), PixelOf(flip, sub, n - 1);
    var j, o := Off(at, w, p.0, p.1) + c, Off(at, w, q.0, q.1);
    PaintAt(Loop(s, at, w, flip, sub, n - 1), o, Colour(sub, 0), Colour(sub, 1), Colour(sub, 2), j);
    if Hits(o, j) {
      SamePixel(at, w, p.0, p.1, q.0, q.1, c);
    } else {
      LoopPaints(s, at, w, flip, sub, n - 1, k, c);
    }
  }

  /** Byte j after painting the pixel at o. */
  lemma PaintAt(s: seq<bv8>, o: nat, c0: bv8, c1: bv8, c2: bv8, j: nat)
    requires o + 3 <= |s| && j < |s|
    ensures Paint(s, o, c0, c1, c2)[j] == if j == o then c0 else if j == o + 1 then c1 else if j == o + 2 then c2 else s[j]
  {
  }

  /** Pixels start three bytes apart, so a byte c < 3 into one pixel lies in
      another only when the two start together. */
  lemma SamePixel(at: nat, w: nat, x: nat, y: nat, x2: nat, y2: nat, c: nat)
    requires c < 3 && Hits(Off(at, w, x2, y2), Off(at, w, x, y) + c)
    ensures Off(at, w, x2, y2) == Off(at, w, x, y)
  {
  }

  /** A byte outside every pixel the first n iterations visit is untouched. */
  lemma {:induction false} LoopKeeps(s: seq<bv8>, at: nat, w: nat, flip: bool, sub: nat, n: nat, j: nat)
    requires sub < 2 && n <= 8 && at + Span(w) <= |s| && j < |s|
    requires forall i :: 0 <= i < n ==> !Hits(Off(at, w, PixelOf(flip, sub, i).0, PixelOf(flip, sub, i).1), j)
    ensures Loop(s, at, w, flip, sub, n)[j] == s[j]
  {
    if n > 0 {
      LoopKeeps(s, at, w, flip, sub, n - 1, j);
      var q := PixelOf(flip, sub, n - 1);
      assert !Hits(Off(at, w, q.0, q.1), j);
    }
  }

  /** In a row-major image at least as wide as the column range, distinct
      pixels have distinct indices. */
  lemma RowMajorInjective(w: nat, x: nat, y: nat, x2: nat, y2: nat)
    requires x < w && x2 < w && y * w + x == y2 * w + x2
    ensures x == x2 && y == y2
  {
    DivModUnique(y * w + x, w, y, x);
    DivModUnique(y2 * w + x2, w, y2, x2);
  }

  /** A byte of pixel (x, y) is outside the pixel at another position. */
  lemma OtherPixelMisses(at: nat, w: nat, x: nat, y: nat, x2: nat, y2: nat, c: nat)
    requires 4 <= w && x < 4 && y < 4 && x2 < 4 && y2 < 4 && c < 3 && (x, y) != (x2, y2)
    ensures !Hits(Off(at, w, x2, y2), Off(at, w, x, y) + c)
  {
    if y * w + x == y2 * w + x2 {
      RowMajorInjective(w, x, y, x2, y2);
    }
  }

  /** A loop whose visited pixels avoid (x, y) leaves its bytes alone. */
  lemma LoopMisses(s: seq<bv8>, at: nat, w: nat, flip: bool, sub: nat, x: nat, y: nat, c: nat)
    requires sub < 2 && at + Span(w) <= |s| && 4 <= w && x < 4 && y < 4 && c < 3
    requires !Written(flip, sub, x, y)
    ensures Loop(s, at, w, flip, sub, 8)[Off(at, w, x, y) + c] == s[Off(at, w, x, y) + c]
  {
    VisitedPixels(flip, sub, x, y);
    forall i | 0 <= i < 8
      ensures !Hits(Off(at, w, PixelOf(flip, sub, i).0, PixelOf(flip, sub, i).1), Off(at, w, x, y) + c)
    {
      var p := PixelOf(flip, sub, i);
      OtherPixelMisses(at, w, x, y, p.0, p.1, c);
    }
    LoopKeeps(s, at, w, flip, sub, 8, Off(at, w, x, y) + c);
  }

  /** A Written pixel holds the loop's colour after all eight iterations. */
  lemma LoopHits(s: seq<bv8>, at: nat, w: nat, flip: bool, sub: nat, x: nat, y: nat, c: nat)
    requires sub < 2 && at + Span(w) <= |s| && c < 3
    requires Written(flip, sub, x, y)
    ensures Loop(s, at, w, flip, sub, 8)[Off(at, w, x, y) + c] == Colour(sub, c)
  {
    VisitedPixels(flip, sub, x, y);
    var k :| 0 <= k < 8 && PixelOf(flip, sub, k) == (x, y);
    LoopPaints(s, at, w, flip, sub, 8, k, c);
  }

  /** The colour of a block pixel once both loops have run: red where the
      first loop writes, blue where the second does, 0 where neither does. */
  function Shade(flip: bool, x: nat, y: nat, c: nat): bv8
  {
    if Written(flip, 0, x, y) then Colour(0, c)
    else if Written(flip, 1, x, y) then Colour(1, c)
    else 0
  }

  /** What etc1_decompress_block leaves in each byte of its 4x4 tile. */
  lemma BlockShade(s: seq<bv8>, at: nat, w: nat, flip: bool, x: nat, y: nat, c: nat)
    requires at + Span(w) <= |s| && 4 <= w && x < 4 && y < 4 && c < 3
    ensures BlockImage(s, at, w, flip)[Off(at, w, x, y) + c]
            == if Written(flip, 0, x, y) || Written(flip, 1, x, y) then Shade(flip, x, y, c) else s[Off(at, w, x, y) + c]
  {
    var s1 := Loop(s, at, w, flip, 0, 8);
    if Written(flip, 1, x, y) {
      LoopHits(s1, at, w, flip, 1, x, y, c);
    } else {
      LoopMisses(s1, at, w, flip, 1, x, y, c);
      if Written(flip, 0, x, y) {
        LoopHits(s, at, w, flip, 0, x, y, c);
      } else {
        LoopMisses(s, at, w, flip, 0, x, y, c);
      }
    }
  }

  /** etc1_decompress_block leaves every byte outside its 4x4 tile alone. */
  lemma BlockKeeps(s: seq<bv8>, at: nat, w: nat, flip: bool, j: nat)
    requires at + Span(w) <= |s| && j < |s|
    requires forall x: nat, y: nat :: x < 4 && y < 4 ==> !Hits(Off(at, w, x, y), j)
    ensures BlockImage(s, at, w, flip)[j] == s[j]
  {
    LoopKeeps(s, at, w, flip, 0, 8, j);
    LoopKeeps(Loop(s, at, w, flip, 0, 8), at, w, flip, 1, 8, j);
  }

  /** Three byte stores into the pixel at o. */
  method Store(dst: array<bv8>, o: nat, c0: bv8, c1: bv8, c2: bv8)
    requires o + 3 <= dst.Length
    modifies dst
    ensures dst[..] == Paint(old(dst[..]), o, c0, c1, c2)
  {
    dst[o] := c0;
    dst[o + 1] := c1;
    dst[o + 2] := c2;
  }

  /** etc1_decompress_block: decode the unpacked block blk into the tile whose
      first byte is dst[at], in an image of `width` pixels per row. */
  method DecompressBlock(blk: Fields, dst: array<bv8>, at: nat, width: nat)
    requires at + Span(width) <= dst.Length
    modifies dst
    ensures dst[..] == BlockImage(old(dst[..]), at, width, blk.flip)
  {
    // blk.diff is cleared first, so the individual-mode colours are the ones used
    var r1, r2 := (blk.r1 * 0x11) as bv8, (blk.r2 * 0x11) as bv8;
    var g1, g2 := (blk.g1 * 0x11) as bv8, (blk.g2 * 0x11) as bv8;
    var b1, b2 := (blk.b1 * 0x11) as bv8, (blk.b2 * 0x11) as bv8;
    ghost var s0 := dst[..];
    var i := 0;
    while i < 8
      invariant i <= 8 && dst[..] == Loop(s0, at, width, blk.flip, 0, i)
    {
      Visit(blk, dst, at, width, 0, i, r1, g1, b1);
      i := i + 1;
    }
    ghost var s1 := dst[..];
    i := 0;
    while i < 8
      invariant i <= 8 && dst[..] == Loop(s1, at, width, blk.flip, 1, i)
    {
      Visit(blk, dst, at, width, 1, i, r2, g2, b2);
      i := i + 1;
    }
  }

  /** Iteration i of the loop for subblock sub of etc1_decompress_block, whose
      base colour is (r, g, b). */
  method Visit(blk: Fields, dst: array<bv8>, at: nat, width: nat, sub: nat, i: nat, r: bv8, g: bv8, b: bv8)
    requires at + Span(width) <= dst.Length && sub < 2
    modifies dst
    ensures var p := PixelOf(blk.flip, sub, i);
            dst[..] == Paint(old(dst[..]), Off(at, width, p.0, p.1), Colour(sub, 0), Colour(sub, 1), Colour(sub, 2))
  {
    var x, y;
    if blk.flip {
      x, y := i % 4, i % 2 + 2 * sub;
    } else {
      x, y := i % 2 + 2 * sub, i % 4;
    }
    var pixel := y + x * 4;
    var idx := TexelIndex(blk.idxlo, blk.idxhi, pixel);
    var diff := Modifier(if sub == 0 then blk.table1 else blk.table2, idx);
    diff := 0;
    var o := at + 3 * (y * width + x);
    assert (x, y) == PixelOf(blk.flip, sub, i) && o == Off(at, width, x, y);
    ghost var s := dst[..];
    Store(dst, o, Byte(r as int + diff), Byte(g as int + diff), Byte(b as int + diff));
    if sub == 0 {
      Store(dst, o, 0xff, 0, 0);
    } else {
      Store(dst, o, 0, 0, 0xff);
    }
    PaintTwice(s, o, Byte(r as int + diff), Byte(g as int + diff), Byte(b as int + diff), Colour(sub, 0), Colour(sub, 1), Colour(sub, 2));
  }

  /** A second paint of the same pixel replaces the first. */
  lemma PaintTwice(s: seq<bv8>, o: nat, c0: bv8, c1: bv8, c2: bv8, d0: bv8, d1: bv8, d2: bv8)
    requires o + 3 <= |s|
    ensures Paint(Paint(s, o, c0, c1, c2), o, d0, d1, d2) == Paint(s, o, d0, d1, d2)
  {
    assert Paint(Paint(s, o, c0, c1, c2), o, d0, d1, d2) == s[o := d0][o + 1 := d1][o + 2 := d2];
  }

  // ---------------------------------------------------------------------------
  // The texture

  /** The byte of channel c of pixel (x, y) of block (a, b): row 4b + y, column 4a + x. */
  function TexByte(w: nat, a: nat, b: nat, x: nat, y: nat, c: nat): nat
  {
    3 * ((4 * b + y) * w + 4 * a + x) + c
  }

  /** Block, pixel and channel of byte j of a w-pixel-wide RGB8 image. */
  ghost function Coords(w: nat, j: nat): (r: (nat, nat, nat, nat, nat))
    requires w > 0
  {
    var p: nat := j / 3;
    var col: nat, row: nat := Column(p, w), p / w;
    var a: nat, b: nat, x: nat, y: nat, c: nat := col / 4, row / 4, col % 4, row % 4, j % 3;
    (a, b, x, y, c)
  }

  /** The column of pixel p in a row of w pixels. */
  function Column(p: nat, w: nat): (col: nat)
    requires w > 0
    ensures col < w && p == (p / w) * w + col
  {
    p % w
  }

  /** Coords undoes TexByte. */
  lemma Locate(w: nat, a: nat, b: nat, x: nat, y: nat, c: nat)
    requires a < w / 4 && x < 4 && y < 4 && c < 3
    ensures Coords(w, TexByte(w, a, b, x, y, c)) == (a, b, x, y, c)
  {
    var col, row := 4 * a + x, 4 * b + y;
    var p := row * w + col;
    DivModUnique(3 * p + c, 3, p, c);
    DivModUnique(p, w, row, col);
    DivModUnique(col, 4, a, x);
    DivModUnique(row, 4, b, y);
  }

  /** TexByte undoes Coords. */
  lemma Reassemble(w: nat, j: nat)
    requires w > 0
    ensures var (a, b, x, y, c) := Coords(w, j);
            x < 4 && y < 4 && c < 3 && j == TexByte(w, a, b, x, y, c)
  {
    var col, row := (j / 3) % w, (j / 3) / w;
    assert j == 3 * (row * w + col) + j % 3;
    assert col == 4 * (col / 4) + col % 4;
    assert row == 4 * (row / 4) + row % 4;
  }

  /** Block (a, b) of the texture is block b * (w / 4) + a of the source. */
  lemma SrcIndex(w: nat, h: nat, a: nat, b: nat)
    requires a < w / 4 && b < h / 4
    ensures b * (w / 4) + a < (w / 4) * (h / 4)
  {
    assert (b + 1) * (w / 4) <= (h / 4) * (w / 4) by {
      assert (h / 4 - b - 1) * (w / 4) >= 0;
    }
  }

  /** The block that starts at byte 4 * 3 * (b * w + a) lies within the buffer. */
  lemma BlockInTexture(w: nat, h: nat, a: nat, b: nat)
    requires a < w / 4 && b < h / 4
    ensures 4 * 3 * (b * w + a) + Span(w) <= 3 * w * h
  {
    assert 4 * a + 4 <= w && 4 * b + 4 <= h;
    MulLe(4 * b + 4, h, w);
    assert (4 * b + 4) * w == 4 * (b * w) + 4 * w;
    assert 3 * w * h == 3 * (h * w);
  }

  lemma MulLe(x: nat, y: nat, w: nat)
    requires x <= y
    ensures x * w <= y * w
  {
    assert y * w == x * w + (y - x) * w;
  }

  /** Pixel (x, y) of the block starting at byte 4 * 3 * (b * w + a) is pixel
      (4a + x, 4b + y) of the image. */
  lemma TileOffset(w: nat, a: nat, b: nat, x: nat, y: nat)
    ensures Off(4 * 3 * (b * w + a), w, x, y) == TexByte(w, a, b, x, y, 0)
  {
    assert (4 * b + y) * w == 4 * (b * w) + y * w;
  }

  /** Block (a, b) of the texture as stored: source word b * (w / 4) + a. */
  ghost function SrcBlock(src: seq<bv64>, w: nat, h: nat, a: nat, b: nat): (blk: bv64)
    requires a < w / 4 && b < h / 4 && (w / 4) * (h / 4) <= |src|
    ensures b * (w / 4) + a < |src| && blk == src[b * (w / 4) + a]
  {
    SrcIndex(w, h, a, b);
    src[b * (w / 4) + a]
  }

  /** The flip bit of block (a, b), read after the byte swap. */
  ghost function FlipOf(src: seq<bv64>, w: nat, h: nat, layout: bv64 -> Fields, a: nat, b: nat): bool
    requires a < w / 4 && b < h / 4 && (w / 4) * (h / 4) <= |src|
  {
    layout(ByteSwap(SrcBlock(src, w, h, a, b))).flip
  }

  /** Byte j of the output once the blocks before (tx, ty) in the decoder's
      order (tx outer, ty inner) are decoded into a zeroed buffer. */
  ghost function Partial(src: seq<bv64>, w: nat, h: nat, layout: bv64 -> Fields, tx: nat, ty: nat, j: nat): bv8
    requires (w / 4) * (h / 4) <= |src|
  {
    if w == 0 then 0
    else
      var (a, b, x, y, c) := Coords(w, j);
      if a < w / 4 && b < h / 4 && (a < tx || (a == tx && b < ty)) then Shade(FlipOf(src, w, h, layout, a, b), x, y, c)
      else 0
  }

  /** Byte j of the decoded texture. */
  ghost function Decoded(src: seq<bv64>, w: nat, h: nat, layout: bv64 -> Fields, j: nat): bv8
    requires (w / 4) * (h / 4) <= |src|
  {
    Partial(src, w, h, layout, w / 4, 0, j)
  }

  /** The decoded texture, pixel by pixel: block (a, b) is drawn from row 4b,
      column 4a, in the colours its byte-swapped source word selects. */
  lemma DecodedTile(src: seq<bv64>, w: nat, h: nat, layout: bv64 -> Fields, a: nat, b: nat, x: nat, y: nat, c: nat)
    requires (w / 4) * (h / 4) <= |src| && a < w / 4 && b < h / 4 && x < 4 && y < 4 && c < 3
    ensures TexByte(w, a, b, x, y, c) < 3 * w * h
    ensures Decoded(src, w, h, layout, TexByte(w, a, b, x, y, c))
            == Shade(layout(ByteSwap(SrcBlock(src, w, h, a, b))).flip, x, y, c)
  {
    Locate(w, a, b, x, y, c);
    BlockInTexture(w, h, a, b);
    TileOffset(w, a, b, x, y);
  }

  /** Before the first block nothing is decoded. */
  lemma NothingDone(src: seq<bv64>, w: nat, h: nat, layout: bv64 -> Fields, j: nat)
    requires (w / 4) * (h / 4) <= |src|
    ensures Partial(src, w, h, layout, 0, 0, j) == 0
  {
  }

  /** Finishing column tx of blocks is starting column tx + 1. */
  lemma ColumnDone(src: seq<bv64>, w: nat, h: nat, layout: bv64 -> Fields, tx: nat, j: nat)
    requires (w / 4) * (h / 4) <= |src|
    ensures Partial(src, w, h, layout, tx, h / 4, j) == Partial(src, w, h, layout, tx + 1, 0, j)
  {
  }

  /** Decoding block (tx, ty) moves Partial one block on. */
  lemma TextureStep(s: seq<bv8>, src: seq<bv64>, w: nat, h: nat, layout: bv64 -> Fields, tx: nat, ty: nat)
    requires (w / 4) * (h / 4) <= |src| && tx < w / 4 && ty < h / 4 && |s| == 3 * w * h
    requires forall j :: 0 <= j < |s| ==> s[j] == Partial(src, w, h, layout, tx, ty, j)
    ensures 4 * 3 * (ty * w + tx) + Span(w) <= |s|
    ensures var t := BlockImage(s, 4 * 3 * (ty * w + tx), w, FlipOf(src, w, h, layout, tx, ty));
            forall j :: 0 <= j < |t| ==> t[j] == Partial(src, w, h, layout, tx, ty + 1, j)
  {
    BlockInTexture(w, h, tx, ty);
    var at := 4 * 3 * (ty * w + tx);
    var flip := FlipOf(src, w, h, layout, tx, ty);
    var t := BlockImage(s, at, w, flip);
    forall j | 0 <= j < |t| ensures t[j] == Partial(src, w, h, layout, tx, ty + 1, j) {
      Reassemble(w, j);
      var (a, b, x, y, c) := Coords(w, j);
      if a == tx && b == ty {
        StepInTile(s, src, w, h, layout, tx, ty, at, j, x, y, c);
      } else {
        StepOutsideTile(s, src, w, h, layout, tx, ty, at, j);
      }
    }
  }

  /** TextureStep for a byte of the block being decoded. */
  lemma StepInTile(s: seq<bv8>, src: seq<bv64>, w: nat, h: nat, layout: bv64 -> Fields, tx: nat, ty: nat, at: nat, j: nat, x: nat, y: nat, c: nat)
    requires (w / 4) * (h / 4) <= |src| && tx < w / 4 && ty < h / 4
    requires at == 4 * 3 * (ty * w + tx) && at + Span(w) <= |s|
    requires x < 4 && y < 4 && c < 3 && j == TexByte(w, tx, ty, x, y, c) && j < |s|
    requires s[j] == Partial(src, w, h, layout, tx, ty, j)
    ensures BlockImage(s, at, w, FlipOf(src, w, h, layout, tx, ty))[j] == Partial(src, w, h, layout, tx, ty + 1, j)
  {
    TileOffset(w, tx, ty, x, y);
    Locate(w, tx, ty, x, y, c);
    BlockShade(s, at, w, FlipOf(src, w, h, layout, tx, ty), x, y, c);
  }

  /** TextureStep for a byte outside the block being decoded. */
  lemma StepOutsideTile(s: seq<bv8>, src: seq<bv64>, w: nat, h: nat, layout: bv64 -> Fields, tx: nat, ty: nat, at: nat, j: nat)
    requires (w / 4) * (h / 4) <= |src| && tx < w / 4 && ty < h / 4
    requires at == 4 * 3 * (ty * w + tx) && at + Span(w) <= |s| && j < |s|
    requires Coords(w, j).0 != tx || Coords(w, j).1 != ty
    requires s[j] == Partial(src, w, h, layout, tx, ty, j)
    ensures BlockImage(s, at, w, FlipOf(src, w, h, layout, tx, ty))[j] == Partial(src, w, h, layout, tx, ty + 1, j)
  {
    TileMisses(w, tx, ty, at, j);
    BlockKeeps(s, at, w, FlipOf(src, w, h, layout, tx, ty), j);
    PartialOutside(src, w, h, layout, tx, ty, j);
  }

  /** No pixel of block (tx, ty) covers a byte whose block is another. */
  lemma TileMisses(w: nat, tx: nat, ty: nat, at: nat, j: nat)
    requires tx < w / 4 && at == 4 * 3 * (ty * w + tx)
    requires Coords(w, j).0 != tx || Coords(w, j).1 != ty
    ensures forall x: nat, y: nat :: x < 4 && y < 4 ==> !Hits(Off(at, w, x, y), j)
  {
    forall x: nat, y: nat | x < 4 && y < 4 ensures !Hits(Off(at, w, x, y), j) {
      if Hits(Off(at, w, x, y), j) {
        TileOffset(w, tx, ty, x, y);
        Locate(w, tx, ty, x, y, j - Off(at, w, x, y));
      }
    }
  }

  /** Decoding block (tx, ty) does not change what Partial says of other blocks. */
  lemma PartialOutside(src: seq<bv64>, w: nat, h: nat, layout: bv64 -> Fields, tx: nat, ty: nat, j: nat)
    requires (w / 4) * (h / 4) <= |src| && tx < w / 4
    requires Coords(w, j).0 != tx || Coords(w, j).1 != ty
    ensures Partial(src, w, h, layout, tx, ty + 1, j) == Partial(src, w, h, layout, tx, ty, j)
  {
  }

  /** etc1_decompress_texture: decode the (width / 4) x (height / 4) blocks of
      src into a new RGB8 buffer of width x height pixels. The buffer's bytes
      start at 0, and the result is Decoded. */
  method DecompressTexture(src: seq<bv64>, width: nat, height: nat, layout: bv64 -> Fields) returns (dst: array<bv8>)
    requires 3 * width * height < U32
    requires (width / 4) * (height / 4) <= |src|
    ensures fresh(dst) && dst.Length == 3 * width * height
    ensures forall j :: 0 <= j < dst.Length ==> dst[j] == Decoded(src, width, height, layout, j)
  {
    dst := new bv8[3 * width * height](_ => 0);
    forall j | 0 <= j < dst.Length ensures dst[j] == Partial(src, width, height, layout, 0, 0, j) {
      NothingDone(src, width, height, layout, j);
    }
    var tx := 0;
    while tx < width / 4
      invariant tx <= width / 4
      invariant forall j :: 0 <= j < dst.Length ==> dst[j] == Partial(src, width, height, layout, tx, 0, j)
    {
      var ty := 0;
      while ty < height / 4
        invariant ty <= height / 4
        invariant forall j :: 0 <= j < dst.Length ==> dst[j] == Partial(src, width, height, layout, tx, ty, j)
      {
        DecodeTile(src, width, height, layout, dst, tx, ty);
        ty := ty + 1;
      }
      forall j | 0 <= j < dst.Length ensures dst[j] == Partial(src, width, height, layout, tx + 1, 0, j) {
        ColumnDone(src, width, height, layout, tx, j);
      }
      tx := tx + 1;
    }
  }

  /** The body of the inner loop of etc1_decompress_texture: fetch block
      (tx, ty), swap its bytes and decode it into its tile. */
  method DecodeTile(src: seq<bv64>, width: nat, height: nat, layout: bv64 -> Fields, dst: array<bv8>, tx: nat, ty: nat)
    requires (width / 4) * (height / 4) <= |src| && tx < width / 4 && ty < height / 4
    requires dst.Length == 3 * width * height
    requires forall j :: 0 <= j < dst.Length ==> dst[j] == Partial(src, width, height, layout, tx, ty, j)
    modifies dst
    ensures forall j :: 0 <= j < dst.Length ==> dst[j] == Partial(src, width, height, layout, tx, ty + 1, j)
  {
    SrcIndex(width, height, tx, ty);
    var b := src[ty * (width / 4) + tx];
    b := ByteSwap(b);
    BlockInTexture(width, height, tx, ty);
    ghost var before := dst[..];
    DecompressBlock(layout(b), dst, 4 * 3 * (ty * width + tx), width);
    TextureStep(before, src, width, height, layout, tx, ty);
  }
}
