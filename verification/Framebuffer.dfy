/**
 * The framebuffer: what an accepted description guarantees, clipped fills into the mapped bytes, and the
 * landscape rotation in its block form (boot menu) and its per-pixel form (diagnostic program).
 */
module Framebuffer {
  import opened ByteStrings

  const LOGICAL_WIDTH: nat := 2560
  const LOGICAL_HEIGHT: nat := 1600

  /** The device's description of its scanout, as far as it is checked. */
  datatype Info = Info(abiVersion: nat, hwFormat: nat, width: nat, height: nat, sourceWidth: nat, sourceHeight: nat,
                       sourceX: nat, sourceY: nat, stride: nat, bytesPerPixel: nat, dppIndex: nat, flags: nat,
                       framebufferBytes: nat, mmapBytes: nat)

  /** `tfb_fb_validate_info`; the products are of 32-bit values, so only the first could wrap, and it is bounded. */
  predicate Accepts(i: Info) {
    && i.abiVersion == 1 && i.bytesPerPixel == 4 && i.hwFormat <= 7 && i.dppIndex < 16 && i.flags == 3
    && 0 < i.width <= 8192 && 0 < i.height <= 8192
    && i.sourceX == 0 && i.sourceY == 0 && i.sourceWidth == i.width && i.sourceHeight == i.height
    && i.stride >= (i.width * i.bytesPerPixel) % TWO32
    && i.framebufferBytes == i.stride * i.sourceHeight
    && i.framebufferBytes <= i.mmapBytes && 0 < i.mmapBytes <= 67108864 && i.mmapBytes % 4096 == 0
  }

  /** `tf_validate_fb_info` of the diagnostic program. */
  predicate DiagnosticAccepts(i: Info) {
    && i.abiVersion == 1 && i.bytesPerPixel == 4 && i.flags == 3
    && 0 < i.width <= 8192 && 0 < i.height <= 8192
    && i.sourceX == 0 && i.sourceY == 0 && i.sourceWidth == i.width && i.sourceHeight == i.height
    && i.stride >= (i.width * 4) % TWO32
    && i.framebufferBytes == i.stride * i.sourceHeight
    && i.framebufferBytes <= i.mmapBytes && i.mmapBytes != 0
  }

  /** Where byte `rem` of scanline `row` lies. */
  function Offset(pitch: nat, row: nat, rem: nat): nat {
    row * pitch + rem
  }

  /** A surface of `height` lines fits the mapping, and a line holds `width` pixels. */
  predicate Fits(bytes: nat, width: nat, height: nat, pitch: nat) {
    4 * width <= pitch && Offset(pitch, height, 0) <= bytes
  }

  /** What acceptance is for: every pixel of the surface lies inside the mapping, for both programs. */
  lemma AcceptedFits(i: Info)
    ensures Accepts(i) ==> DiagnosticAccepts(i)
    ensures DiagnosticAccepts(i) ==> Fits(i.mmapBytes, i.width, i.height, i.stride)
  {
    assert i.width <= 8192 ==> (i.width * 4) % TWO32 == i.width * 4;
  }

  /**
   * What the two programs ask of the device, wrapping products and all: version 1, 32-bit pixels, both flags, a surface
   * of 1 to 8192 pixels each way shown whole, lines that hold a row of it, and a mapping that holds the lines. The boot
   * menu also wants a known format and pipe, and at most 64 MiB in whole pages.
   */
  lemma AcceptsIff(i: Info)
    ensures DiagnosticAccepts(i) <==>
      && i.abiVersion == 1 && i.bytesPerPixel == 4 && i.flags == 3
      && 1 <= i.width <= 8192 && 1 <= i.height <= 8192
      && (i.sourceX, i.sourceY, i.sourceWidth, i.sourceHeight) == (0, 0, i.width, i.height)
      && 4 * i.width <= i.stride && i.stride * i.height == i.framebufferBytes <= i.mmapBytes
    ensures Accepts(i) <==>
      && DiagnosticAccepts(i)
      && i.hwFormat <= 7 && i.dppIndex <= 15 && i.mmapBytes <= 0x400_0000 && i.mmapBytes % 4096 == 0
  {
    assert i.width <= 8192 ==> (i.width * 4) % TWO32 == i.width * 4;
    if 1 <= i.height && 4 <= i.stride {
      assert i.stride * i.height >= i.stride;
    }
  }

  lemma PixelInside(bytes: nat, width: nat, height: nat, pitch: nat, x: nat, y: nat)
    requires Fits(bytes, width, height, pitch) && x < width && y < height
    ensures 4 * x + 4 <= pitch && Offset(pitch, y, 4 * x) + 4 <= bytes
  {
    LineFits(pitch, y, height);
  }

  lemma LineFits(pitch: nat, y: nat, height: nat)
    requires y < height
    ensures y * pitch + pitch <= height * pitch
  {
    assert height * pitch == (y + 1) * pitch + (height - y - 1) * pitch;
  }

  /** Two places in the mapping are the same only if line and byte agree. */
  lemma OffsetInjective(pitch: nat, r1: nat, m1: nat, r2: nat, m2: nat)
    requires m1 < pitch && m2 < pitch && Offset(pitch, r1, m1) == Offset(pitch, r2, m2)
    ensures r1 == r2 && m1 == m2
  {
    if r1 < r2 {
      LineFits(pitch, r1, r2);
    } else if r2 < r1 {
      LineFits(pitch, r2, r1);
    }
  }

  lemma OffsetSplit(pitch: nat, offset: nat)
    requires pitch > 0
    ensures offset == Offset(pitch, offset / pitch, offset % pitch) && offset % pitch < pitch && offset / pitch >= 0
  {}

  /**
   * `after` is `before` with exactly the pixels in `paint` set: every byte of every line is either a byte of
   * the pixel value or what it was.
   */
  ghost predicate Painted(before: seq<Byte>, after: seq<Byte>, pitch: nat, paint: (int, int) -> bool, pixel: nat)
    requires pixel < TWO32
  {
    && |after| == |before|
    && forall row: nat, rem: nat :: rem < pitch && Offset(pitch, row, rem) < |before| ==>
         after[Offset(pitch, row, rem)] == if paint(rem / 4, row) then LE32(pixel)[rem % 4]
           else before[Offset(pitch, row, rem)]
  }

  lemma PaintNothing(s: seq<Byte>, pitch: nat, pixel: nat)
    requires pixel < TWO32
    ensures Painted(s, s, pitch, (px, py) => false, pixel)
  {}

  lemma PaintSame(before: seq<Byte>, after: seq<Byte>, pitch: nat, p: (int, int) -> bool, q: (int, int) -> bool,
                  pixel: nat)
    requires pixel < TWO32 && Painted(before, after, pitch, p, pixel)
    requires forall px, py :: p(px, py) == q(px, py)
    ensures Painted(before, after, pitch, q, pixel)
  {}

  /** The painted set determines the bytes. */
  lemma PaintedUnique(before: seq<Byte>, a: seq<Byte>, b: seq<Byte>, pitch: nat, p: (int, int) -> bool, pixel: nat)
    requires pixel < TWO32 && pitch > 0
    requires Painted(before, a, pitch, p, pixel) && Painted(before, b, pitch, p, pixel)
    ensures a == b
  {
    hide LE32;
    forall i | 0 <= i < |before|
      ensures a[i] == b[i]
    {
      OffsetSplit(pitch, i);
      assert a[Offset(pitch, i / pitch, i % pitch)] == b[Offset(pitch, i / pitch, i % pitch)];
    }
  }

  /** Storing one pixel adds it to the painted set. */
  lemma PaintOne(before: seq<Byte>, after: seq<Byte>, pitch: nat, p: (int, int) -> bool, q: (int, int) -> bool,
                 pixel: nat,
                 x: nat, y: nat)
    requires pixel < TWO32 && Painted(before, after, pitch, p, pixel)
    requires 4 * x + 4 <= pitch && Offset(pitch, y, 4 * x) + 4 <= |after|
    requires forall px, py :: q(px, py) == (p(px, py) || (px == x && py == y))
    ensures Painted(before, PackInto(after, Offset(pitch, y, 4 * x), LE32(pixel)), pitch, q, pixel)
  {
    var at, value := Offset(pitch, y, 4 * x), LE32(pixel);
    PackIntoElsewhere(after, at, value);
    hide LE32;
    var next := PackInto(after, at, value);
    hide PackInto;
    forall row: nat, rem: nat | rem < pitch && Offset(pitch, row, rem) < |before|
      ensures next[Offset(pitch, row, rem)] == if q(rem / 4, row) then value[rem % 4]
        else before[Offset(pitch, row, rem)]
    {
      StoredByte(after, next, pitch, x, y, value, row, rem);
    }
  }

  lemma StoredByte(after: seq<Byte>, next: seq<Byte>, pitch: nat, x: nat, y: nat, value: seq<Byte>, row: nat, rem: nat)
    requires |value| == 4 && |next| == |after|
    requires rem < pitch && Offset(pitch, row, rem) < |after|
    requires 4 * x + 4 <= pitch && Offset(pitch, y, 4 * x) + 4 <= |after|
    requires next[Offset(pitch, y, 4 * x)..Offset(pitch, y, 4 * x) + 4] == value
    requires forall k :: 0 <= k < |after| && !(Offset(pitch, y, 4 * x) <= k < Offset(pitch, y, 4 * x) + 4) ==>
      next[k] == after[k]
    ensures next[Offset(pitch, row, rem)] == if rem / 4 == x && row == y then value[rem % 4]
      else after[Offset(pitch, row, rem)]
  {
    var at, off := Offset(pitch, y, 4 * x), Offset(pitch, row, rem);
    if rem / 4 == x && row == y {
      assert off == at + rem % 4;
      assert next[off] == next[at..at + 4][rem % 4];
    } else if at <= off < at + 4 {
      OffsetInjective(pitch, row, rem, y, 4 * x + (off - at));
    }
  }

  /** The pixels of a rectangle that lie on a surface. */
  function Clipped(x: nat, y: nat, width: nat, height: nat, surfaceWidth: nat, surfaceHeight: nat): (int, int) -> bool {
    (px, py) => x <= px < x + width && y <= py < y + height && px < surfaceWidth && py < surfaceHeight
  }

  /** The rows done so far, and the columns of the current one. */
  function Progress(x: nat, y: nat, width: nat, row: nat, column: nat): (int, int) -> bool {
    (px, py) => (x <= px < x + width && y <= py < y + row) || (py == y + row && x <= px < x + column)
  }

  method Store(memory: array<Byte>, at: nat, pixel: nat)
    requires pixel < TWO32 && at + 4 <= memory.Length
    modifies memory
    ensures memory[..] == PackInto(old(memory[..]), at, LE32(pixel))
  {
    var value := LE32(pixel);
    hide LE32;
    memory[at], memory[at + 1], memory[at + 2], memory[at + 3] := value[0], value[1], value[2], value[3];
    ghost var want := PackInto(old(memory[..]), at, value);
    PackIntoElsewhere(old(memory[..]), at, value);
    assert want[at..at + 4] == value;
    hide PackInto;
    forall k | 0 <= k < memory.Length
      ensures memory[k] == want[k]
    {
      assert at <= k < at + 4 ==> want[k] == want[at..at + 4][k - at];
    }
  }

  /** `tfb_fb_fill_rect`: clips to the surface and sets exactly the clipped pixels. */
  method FillRect(memory: array<Byte>, surfaceWidth: nat, surfaceHeight: nat, pitch: nat,
                  x: nat, y: nat, width: nat, height: nat, pixel: nat)
    requires Fits(memory.Length, surfaceWidth, surfaceHeight, pitch) && pixel < TWO32
    modifies memory
    ensures Painted(old(memory[..]), memory[..], pitch, Clipped(x, y, width, height, surfaceWidth, surfaceHeight),
                    pixel)
  {
    hide Painted, Fits, LE32, PackInto;
    ghost var before := memory[..];
    ghost var none := (px: int, py: int) => false;
    PaintNothing(before, pitch, pixel);
    if x >= surfaceWidth || y >= surfaceHeight {
      PaintSame(before, before, pitch, (px, py) => false, Clipped(x, y, width, height, surfaceWidth, surfaceHeight),
                pixel);
      return;
    }
    var w := if width > surfaceWidth - x then surfaceWidth - x else width;
    var h := if height > surfaceHeight - y then surfaceHeight - y else height;
    PaintSame(before, before, pitch, (px, py) => false, Progress(x, y, w, 0, 0), pixel);
    var row := 0;
    while row < h
      invariant 0 <= row <= h
      invariant Painted(before, memory[..], pitch, Progress(x, y, w, row, 0), pixel)
    {
      var column := 0;
      while column < w
        invariant 0 <= column <= w
        invariant Painted(before, memory[..], pitch, Progress(x, y, w, row, column), pixel)
      {
        PixelInside(memory.Length, surfaceWidth, surfaceHeight, pitch, x + column, y + row);
        PaintOne(before, memory[..], pitch, Progress(x, y, w, row, column), Progress(x, y, w, row, column + 1), pixel,
                 x + column, y + row);
        Store(memory, Offset(pitch, y + row, 4 * (x + column)), pixel);
        column := column + 1;
      }
      PaintSame(before, memory[..], pitch, Progress(x, y, w, row, w), Progress(x, y, w, row + 1, 0), pixel);
      row := row + 1;
    }
    PaintSame(before, memory[..], pitch, Progress(x, y, w, h, 0),
              Clipped(x, y, width, height, surfaceWidth, surfaceHeight), pixel);
  }

  // ---- rotation ----

  /** The raw pixels that show a logical landscape rectangle on the portrait panel. */
  function Rotated(x: nat, y: nat, width: nat, height: nat): (int, int) -> bool {
    (px, py) =>
      var lx, ly := LOGICAL_WIDTH - 1 - py, px;
      0 <= lx < LOGICAL_WIDTH && 0 <= ly < LOGICAL_HEIGHT && x <= lx < x + width && y <= ly < y + height
  }

  /** The logical pixel lies in the rectangle, and on the 2560 by 1600 screen. */
  predicate Shows(x: nat, y: nat, width: nat, height: nat, lx: int, ly: int) {
    x <= lx < x + width && y <= ly < y + height && 0 <= lx < 2560 && 0 <= ly < 1600
  }

  /** The rotation, pixel by pixel: column lx of line ly of the landscape is raw line 2559 - lx, column ly. */
  lemma RotatedIff(x: nat, y: nat, width: nat, height: nat, px: int, py: int)
    ensures Rotated(x, y, width, height)(px, py) <==>
      exists lx, ly :: Shows(x, y, width, height, lx, ly) && px == ly && py == 2559 - lx
  {
    if Rotated(x, y, width, height)(px, py) {
      assert Shows(x, y, width, height, 2559 - py, px);
    }
  }

  /** `tfb_ui_fill_rect` on the supported panel: one block fill of the rotated rectangle. */
  method UiFillRect(memory: array<Byte>, pitch: nat, x: nat, y: nat, width: nat, height: nat, pixel: nat)
    requires Fits(memory.Length, LOGICAL_HEIGHT, LOGICAL_WIDTH, pitch) && pixel < TWO32
    modifies memory
    ensures Painted(old(memory[..]), memory[..], pitch, Rotated(x, y, width, height), pixel)
  {
    hide Painted, Fits, LE32;
    ghost var before := memory[..];
    if width == 0 || height == 0 || x >= LOGICAL_WIDTH || y >= LOGICAL_HEIGHT {
      PaintNothing(before, pitch, pixel);
      PaintSame(before, before, pitch, (px, py) => false, Rotated(x, y, width, height), pixel);
      return;
    }
    var w := if width > LOGICAL_WIDTH - x then LOGICAL_WIDTH - x else width;
    var h := if height > LOGICAL_HEIGHT - y then LOGICAL_HEIGHT - y else height;
    var rawX, rawY := y, LOGICAL_WIDTH - x - w;
    FillRect(memory, LOGICAL_HEIGHT, LOGICAL_WIDTH, pitch, rawX, rawY, h, w, pixel);
    PaintSame(before, memory[..], pitch, Clipped(rawX, rawY, h, w, LOGICAL_HEIGHT, LOGICAL_WIDTH),
              Rotated(x, y, width, height), pixel);
  }

  /** Logical rows done so far, and columns of the current one, as raw pixels. */
  function RotatedProgress(x: nat, y: nat, width: nat, row: nat, column: nat): (int, int) -> bool {
    (px, py) =>
      var lx, ly := LOGICAL_WIDTH - 1 - py, px;
      (x <= lx < x + width && y <= ly < y + row) || (ly == y + row && x <= lx < x + column)
  }

  /** `tf_fill_rect` of the diagnostic program on the same panel: every logical pixel rotated on its own. */
  method DiagnosticFillRect(memory: array<Byte>, pitch: nat, x: nat, y: nat, width: nat, height: nat, pixel: nat)
    requires Fits(memory.Length, LOGICAL_HEIGHT, LOGICAL_WIDTH, pitch) && pixel < TWO32
    modifies memory
    ensures Painted(old(memory[..]), memory[..], pitch, Rotated(x, y, width, height), pixel)
  {
    hide Painted, Fits, LE32, PackInto;
    ghost var before := memory[..];
    PaintNothing(before, pitch, pixel);
    if x >= LOGICAL_WIDTH || y >= LOGICAL_HEIGHT {
      PaintSame(before, before, pitch, (px, py) => false, Rotated(x, y, width, height), pixel);
      return;
    }
    var w := if width > LOGICAL_WIDTH - x then LOGICAL_WIDTH - x else width;
    var h := if height > LOGICAL_HEIGHT - y then LOGICAL_HEIGHT - y else height;
    PaintSame(before, before, pitch, (px, py) => false, RotatedProgress(x, y, w, 0, 0), pixel);
    var row := 0;
    while row < h
      invariant 0 <= row <= h
      invariant Painted(before, memory[..], pitch, RotatedProgress(x, y, w, row, 0), pixel)
    {
      var column := 0;
      while column < w
        invariant 0 <= column <= w
        invariant Painted(before, memory[..], pitch, RotatedProgress(x, y, w, row, column), pixel)
      {
        var rawX, rawY := y + row, LOGICAL_WIDTH - 1 - (x + column);
        PixelInside(memory.Length, LOGICAL_HEIGHT, LOGICAL_WIDTH, pitch, rawX, rawY);
        PaintOne(before, memory[..], pitch, RotatedProgress(x, y, w, row, column),
                 RotatedProgress(x, y, w, row, column + 1), pixel, rawX, rawY);
        Store(memory, Offset(pitch, rawY, 4 * rawX), pixel);
        column := column + 1;
      }
      PaintSame(before, memory[..], pitch, RotatedProgress(x, y, w, row, w), RotatedProgress(x, y, w, row + 1, 0),
                pixel);
      row := row + 1;
    }
    PaintSame(before, memory[..], pitch, RotatedProgress(x, y, w, h, 0), Rotated(x, y, width, height), pixel);
  }

  /** The two programs draw the same bytes: any results meeting the two contracts are equal. */
  lemma RotationsAgree(before: seq<Byte>, block: seq<Byte>, perPixel: seq<Byte>, pitch: nat,
                       x: nat, y: nat, width: nat, height: nat, pixel: nat)
    requires pixel < TWO32 && pitch > 0
    requires Painted(before, block, pitch, Rotated(x, y, width, height), pixel)
    requires Painted(before, perPixel, pitch, Rotated(x, y, width, height), pixel)
    ensures block == perPixel
  {
    PaintedUnique(before, block, perPixel, pitch, Rotated(x, y, width, height), pixel);
  }
}
