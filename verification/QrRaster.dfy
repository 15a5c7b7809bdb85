/** The raster loops of `matrixToPng` in src/main/qr-png.ts: a matrix of modules enlarged into scanlines, each with a
    filter byte in front, inside a quiet border. */
module QrRaster {

  const WHITE := 0xff
  const BLACK := 0

  type Byte = x: nat | x < 256

  predicate Square(m: seq<seq<bool>>) {
    forall r :: 0 <= r < |m| ==> |m[r]| == |m|
  }

  /** The width and the height of the picture in pixels. */
  function Side(n: nat, scale: nat, quiet: nat): nat {
    (n + quiet * 2) * scale
  }

  /** Where the filter byte of row `y` stands in the buffer. */
  function Filter(size: nat, y: nat): nat {
    y * (size + 1)
  }

  /** Where the pixel of row `y` and column `x` stands. */
  function At(size: nat, y: nat, x: nat): nat {
    Filter(size, y) + 1 + x
  }

  /** The module under a pixel is dark; the border is light. */
  predicate Dark(m: seq<seq<bool>>, scale: nat, quiet: nat, y: nat, x: nat)
    requires Square(m) && scale > 0
  {
    var r, c := y / scale - quiet, x / scale - quiet;
    0 <= r < |m| && 0 <= c < |m| && m[r][c]
  }

  /** The loops have come past a pixel: its module lies before module (r, c), or it lies in that module above line
      `dy`. */
  predicate Past(scale: nat, quiet: nat, r: nat, c: nat, dy: nat, y: nat, x: nat)
    requires scale > 0
  {
    var pr, pc := y / scale - quiet, x / scale - quiet;
    pr < r || (pr == r && (pc < c || (pc == c && y % scale < dy)))
  }

  lemma {:induction false} TimesGap(a: nat, b: nat, s: nat)
    requires a > b
    ensures a * s >= b * s + s
    decreases a
  {
    if a > b + 1 {
      TimesGap(a - 1, b, s);
      assert a * s == (a - 1) * s + s;
    } else {
      assert a * s == b * s + s;
    }
  }

  lemma Unique(s: nat, a: nat, b: nat, q: nat, d: nat)
    requires a * s + b == q * s + d && b < s && d < s
    ensures a == q && b == d
  {
    if a > q {
      TimesGap(a, q, s);
    } else if a < q {
      TimesGap(q, a, s);
    }
  }

  lemma Quotient(v: nat, scale: nat, q: nat, d: nat)
    requires scale > 0 && v == q * scale + d && d < scale
    ensures v / scale == q && v % scale == d
  {
    Unique(scale, v / scale, v % scale, q, d);
  }

  /** The pixels of one line of one module. */
  lemma InRun(scale: nat, quiet: nat, r: nat, c: nat, dy: nat, y: nat, x: nat)
    requires scale > 0 && dy < scale
    ensures (y == (r + quiet) * scale + dy && (c + quiet) * scale <= x < (c + quiet) * scale + scale)
      <==> (y / scale == r + quiet && y % scale == dy && x / scale == c + quiet)
  {
    if (c + quiet) * scale <= x < (c + quiet) * scale + scale {
      Quotient(x, scale, c + quiet, x - (c + quiet) * scale);
    }
    if y == (r + quiet) * scale + dy {
      Quotient(y, scale, r + quiet, dy);
    }
    assert x == x / scale * scale + x % scale;
    assert y == y / scale * scale + y % scale;
  }

  /** Two pixels never share a byte, and no pixel is a filter byte. */
  lemma AtInjective(size: nat, y: nat, x: nat, y': nat, x': nat)
    requires x < size && x' < size && At(size, y, x) == At(size, y', x')
    ensures y == y' && x == x'
  {
    Unique(size + 1, y, x, y', x');
  }

  lemma FilterIsNoPixel(size: nat, y: nat, y': nat, x: nat)
    requires x < size
    ensures Filter(size, y') != At(size, y, x)
  {
    if Filter(size, y') == At(size, y, x) {
      Unique(size + 1, y', 0, y, 1 + x);
    }
  }

  lemma AtInside(size: nat, y: nat, x: nat)
    requires x < size && y < size
    ensures At(size, y, x) < (size + 1) * size
    ensures Filter(size, y) < (size + 1) * size
  {
    TimesGap(size, y, size + 1);
    assert size * (size + 1) == (size + 1) * size;
  }

  /* ---------- The loops ---------- */

  /** `raw.fill(value, from, upto)` */
  method Fill(raw: array<Byte>, value: Byte, from: nat, upto: nat)
    requires from <= upto <= raw.Length
    modifies raw
    ensures forall i :: 0 <= i < raw.Length ==> raw[i] == if from <= i < upto then value else old(raw[i])
  {
    var i := from;
    while i < upto
      invariant from <= i <= upto
      invariant forall k :: 0 <= k < raw.Length ==> raw[k] == if from <= k < i then value else old(raw[k])
    {
      raw[i] := value;
      i := i + 1;
    }
  }

  /** Every pixel the loops have come past has its final colour, and every other one is still white. */
  ghost predicate Painted(raw: seq<Byte>, m: seq<seq<bool>>, scale: nat, quiet: nat, size: nat, r: nat, c: nat, dy: nat)
    requires Square(m) && scale > 0
  {
    |raw| == (size + 1) * size &&
    forall y: nat, x: nat :: y < size && x < size ==>
      At(size, y, x) < |raw| && raw[At(size, y, x)] == if Dark(m, scale, quiet, y, x) &&
        Past(scale, quiet, r, c, dy, y, x) then BLACK else WHITE
  }

  /** A line of a module fits into the picture. */
  lemma LineFits(n: nat, scale: nat, quiet: nat, k: nat, d: nat)
    requires k < n && d < scale
    ensures (k + quiet) * scale + d < Side(n, scale, quiet) && (k + quiet) * scale + scale <= Side(n, scale, quiet)
  {
    TimesGap(n + quiet * 2, k + quiet, scale);
  }

  lemma RunFits(n: nat, scale: nat, quiet: nat, r: nat, c: nat, dy: nat)
    requires r < n && c < n && dy < scale
    ensures var size := Side(n, scale, quiet);
      At(size, (r + quiet) * scale + dy, (c + quiet) * scale) + scale <= (size + 1) * size
  {
    var size := Side(n, scale, quiet);
    LineFits(n, scale, quiet, r, dy);
    LineFits(n, scale, quiet, c, scale - 1);
    AtInside(size, (r + quiet) * scale + dy, (c + quiet) * scale + scale - 1);
  }

  /** Neighbouring bytes of a scanline are neighbouring pixels. */
  lemma RunPixels(size: nat, y0: nat, x0: nat, width: nat, y: nat, x: nat)
    requires x < size && x0 + width <= size
    ensures At(size, y0, x0) <= At(size, y, x) < At(size, y0, x0) + width <==> y == y0 && x0 <= x < x0 + width
  {
    var start, i := At(size, y0, x0), At(size, y, x);
    if start <= i < start + width {
      assert i == At(size, y0, x0 + (i - start));
      AtInjective(size, y, x, y0, x0 + (i - start));
    }
  }

  /** The filled bytes are the pixels of one line of module (r, c). */
  lemma FilledPixels(n: nat, scale: nat, quiet: nat, r: nat, c: nat, dy: nat, y: nat, x: nat)
    requires r < n && c < n && dy < scale && x < Side(n, scale, quiet)
    ensures var size := Side(n, scale, quiet); var start := At(size, (r + quiet) * scale + dy, (c + quiet) * scale);
      start <= At(size, y, x) < start + scale <==> (y / scale == r + quiet && y % scale == dy && x / scale == c + quiet)
  {
    LineFits(n, scale, quiet, c, scale - 1);
    hide At, Side;
    InRun(scale, quiet, r, c, dy, y, x);
    RunPixels(Side(n, scale, quiet), (r + quiet) * scale + dy, (c + quiet) * scale, scale, y, x);
  }

  ghost predicate Filled(before: seq<Byte>, after: seq<Byte>, start: nat, scale: nat) {
    |after| == |before| && forall i :: 0 <= i < |after| ==>
      after[i] == if start <= i < start + scale then BLACK else before[i]
  }

  lemma LinePainted(before: seq<Byte>, after: seq<Byte>, m: seq<seq<bool>>, scale: nat, quiet: nat, r: nat, c: nat,
    dy: nat)
    requires Square(m) && r < |m| && c < |m| && m[r][c] && dy < scale
    requires Painted(before, m, scale, quiet, Side(|m|, scale, quiet), r, c, dy)
    requires Filled(before, after, At(Side(|m|, scale, quiet), (r + quiet) * scale + dy, (c + quiet) * scale), scale)
    ensures Painted(after, m, scale, quiet, Side(|m|, scale, quiet), r, c, dy + 1)
  {
    hide Side, At;
    var size := Side(|m|, scale, quiet);
    forall y: nat, x: nat | y < size && x < size
      ensures At(size, y, x) < |after|
      ensures after[At(size, y, x)] == if Dark(m, scale, quiet, y, x) && Past(scale, quiet, r, c, dy + 1, y, x)
        then BLACK else WHITE
    {
      FilledPixels(|m|, scale, quiet, r, c, dy, y, x);
      assert before[At(size, y, x)] == if Dark(m, scale, quiet, y, x) && Past(scale, quiet, r, c, dy, y, x) then BLACK
        else WHITE;
    }
  }

  /** The loops move on without painting: to the next module of the row, to the next row. */
  lemma MovesOn(raw: seq<Byte>, m: seq<seq<bool>>, scale: nat, quiet: nat, size: nat, r: nat, c: nat, dy: nat,
    r': nat, c': nat)
    requires Square(m) && scale > 0 && r < |m| && Painted(raw, m, scale, quiet, size, r, c, dy)
    requires (c < |m| && r' == r && c' == c + 1 && (dy == scale || !m[r][c])) || (c == |m| && r' == r + 1 && c' == 0)
    ensures Painted(raw, m, scale, quiet, size, r', c', 0)
  {
    hide At;
    forall y: nat, x: nat | y < size && x < size
      ensures At(size, y, x) < |raw|
      ensures raw[At(size, y, x)] == if Dark(m, scale, quiet, y, x) && Past(scale, quiet, r', c', 0, y, x) then BLACK
        else WHITE
    {
      assert raw[At(size, y, x)] == if Dark(m, scale, quiet, y, x) && Past(scale, quiet, r, c, dy, y, x) then BLACK
        else WHITE;
      assert y % scale < scale;
    }
  }

  /** The finished picture: every pixel has the colour of its module, and every scanline begins with filter type 0. */
  ghost predicate IsPicture(raw: seq<Byte>, m: seq<seq<bool>>, scale: nat, quiet: nat)
    requires Square(m) && scale > 0
  {
    var size := Side(|m|, scale, quiet);
    && |raw| == (size + 1) * size
    && (forall y: nat, x: nat :: y < size && x < size ==>
          At(size, y, x) < |raw| && raw[At(size, y, x)] == if Dark(m, scale, quiet, y, x) then BLACK else WHITE)
    && (forall y: nat :: y < size ==> Filter(size, y) < |raw| && raw[Filter(size, y)] == 0)
  }

  method Raster(m: seq<seq<bool>>, scale: nat, quiet: nat) returns (raw: array<Byte>)
    requires Square(m) && scale > 0
    ensures fresh(raw) && IsPicture(raw[..], m, scale, quiet)
  {
    hide Painted, Dark, Past, IsPicture, At, Side;
    var n := |m|;
    var cells := n + quiet * 2;
    var size := cells * scale;
    assert size == Side(n, scale, quiet) by { SideIs(n, scale, quiet); }
    raw := new Byte[(size + 1) * size](_ => WHITE);
    AllWhite(raw[..], m, scale, quiet, size);
    var r := 0;
    while r < n
      invariant 0 <= r <= n && fresh(raw) && raw.Length == (size + 1) * size
      invariant Painted(raw[..], m, scale, quiet, size, r, 0, 0)
    {
      var c := 0;
      while c < n
        invariant 0 <= c <= n && raw.Length == (size + 1) * size
        invariant Painted(raw[..], m, scale, quiet, size, r, c, 0)
      {
        if m[r][c] {
          var dy := 0;
          while dy < scale
            invariant 0 <= dy <= scale && raw.Length == (size + 1) * size
            invariant Painted(raw[..], m, scale, quiet, size, r, c, dy)
          {
            PaintLine(raw, m, scale, quiet, size, r, c, dy);
            dy := dy + 1;
          }
          MovesOn(raw[..], m, scale, quiet, size, r, c, scale, r, c + 1);
        } else {
          MovesOn(raw[..], m, scale, quiet, size, r, c, 0, r, c + 1);
        }
        c := c + 1;
      }
      MovesOn(raw[..], m, scale, quiet, size, r, n, 0, r + 1, 0);
      r := r + 1;
    }
    SetFilters(raw, m, scale, quiet, size);
  }

  lemma SideIs(n: nat, scale: nat, quiet: nat)
    ensures (n + quiet * 2) * scale == Side(n, scale, quiet)
  {
  }

  method PaintLine(raw: array<Byte>, m: seq<seq<bool>>, scale: nat, quiet: nat, size: nat, r: nat, c: nat, dy: nat)
    requires Square(m) && r < |m| && c < |m| && m[r][c] && dy < scale && size == Side(|m|, scale, quiet)
    requires raw.Length == (size + 1) * size && Painted(raw[..], m, scale, quiet, size, r, c, dy)
    modifies raw
    ensures Painted(raw[..], m, scale, quiet, size, r, c, dy + 1)
  {
    hide Painted, Side;
    ghost var before := raw[..];
    var y := (r + quiet) * scale + dy;
    var rowStart := y * (size + 1) + 1;
    var x0 := (c + quiet) * scale;
    RunFits(|m|, scale, quiet, r, c, dy);
    Fill(raw, BLACK, rowStart + x0, rowStart + x0 + scale);
    assert Filled(before, raw[..], At(size, y, x0), scale);
    LinePainted(before, raw[..], m, scale, quiet, r, c, dy);
  }

  lemma AllWhite(raw: seq<Byte>, m: seq<seq<bool>>, scale: nat, quiet: nat, size: nat)
    requires Square(m) && scale > 0 && |raw| == (size + 1) * size && forall i :: 0 <= i < |raw| ==> raw[i] == WHITE
    ensures Painted(raw, m, scale, quiet, size, 0, 0, 0)
  {
    hide At;
    forall y: nat, x: nat | y < size && x < size
      ensures At(size, y, x) < |raw|
      ensures raw[At(size, y, x)] == if Dark(m, scale, quiet, y, x) && Past(scale, quiet, 0, 0, 0, y, x) then BLACK
        else WHITE
    {
      AtInside(size, y, x);
    }
  }

  /** Each scanline begins with filter type 0. */
  method SetFilters(raw: array<Byte>, m: seq<seq<bool>>, scale: nat, quiet: nat, size: nat)
    requires Square(m) && scale > 0 && size == Side(|m|, scale, quiet) && raw.Length == (size + 1) * size
    requires Painted(raw[..], m, scale, quiet, size, |m|, 0, 0)
    modifies raw
    ensures IsPicture(raw[..], m, scale, quiet)
  {
    hide Painted, Side, Filter, IsPicture, At;
    var y := 0;
    while y < size
      invariant 0 <= y <= size
      invariant Painted(raw[..], m, scale, quiet, size, |m|, 0, 0)
      invariant forall k: nat :: k < y ==> Filter(size, k) < raw.Length && raw[Filter(size, k)] == 0
    {
      AtInside(size, y, 0);
      ghost var before := raw[..];
      raw[Filter(size, y)] := 0;
      FilterKeeps(before, m, scale, quiet, size, |m|, y);
      assert raw[..] == before[Filter(size, y) := 0];
      y := y + 1;
    }
    PictureDone(raw[..], m, scale, quiet);
  }

  lemma FilterKeeps(raw: seq<Byte>, m: seq<seq<bool>>, scale: nat, quiet: nat, size: nat, r: nat, y': nat)
    requires Square(m) && scale > 0 && Painted(raw, m, scale, quiet, size, r, 0, 0) && Filter(size, y') < |raw|
    ensures Painted(raw[Filter(size, y') := 0], m, scale, quiet, size, r, 0, 0)
  {
    hide At, Filter, Dark, Past;
    forall y: nat, x: nat | y < size && x < size ensures Filter(size, y') != At(size, y, x) {
      FilterIsNoPixel(size, y, y', x);
    }
  }

  lemma PictureDone(raw: seq<Byte>, m: seq<seq<bool>>, scale: nat, quiet: nat)
    requires Square(m) && scale > 0 && Painted(raw, m, scale, quiet, Side(|m|, scale, quiet), |m|, 0, 0)
    requires forall y: nat :: y < Side(|m|, scale, quiet) ==>
      Filter(Side(|m|, scale, quiet), y) < |raw| && raw[Filter(Side(|m|, scale, quiet), y)] == 0
    ensures IsPicture(raw, m, scale, quiet)
  {
    hide At, Filter, Side;
    var size := Side(|m|, scale, quiet);
    forall y: nat, x: nat | y < size && x < size
      ensures At(size, y, x) < |raw| && raw[At(size, y, x)] == if Dark(m, scale, quiet, y, x) then BLACK else WHITE
    {
      assert raw[At(size, y, x)] == if Dark(m, scale, quiet, y, x) && Past(scale, quiet, |m|, 0, 0, y, x) then BLACK
        else WHITE;
    }
  }

  lemma ModuleUnder(m: seq<seq<bool>>, scale: nat, quiet: nat, r: nat, c: nat, y: nat, x: nat)
    requires Square(m) && scale > 0 && r < |m| && c < |m| && y / scale == r + quiet && x / scale == c + quiet
    ensures Dark(m, scale, quiet, y, x) == m[r][c]
  {
  }

  lemma PixelColour(raw: seq<Byte>, m: seq<seq<bool>>, scale: nat, quiet: nat, y: nat, x: nat)
    requires Square(m) && scale > 0 && IsPicture(raw, m, scale, quiet) && y < Side(|m|, scale, quiet) &&
      x < Side(|m|, scale, quiet)
    ensures At(Side(|m|, scale, quiet), y, x) < |raw|
    ensures raw[At(Side(|m|, scale, quiet), y, x)] == if Dark(m, scale, quiet, y, x) then BLACK else WHITE
  {
    hide Side, At, Filter, Dark;
  }

  /** Every pixel of the square a module became shows the module, so the matrix can be read off the picture. */
  lemma ModuleIsShown(raw: seq<Byte>, m: seq<seq<bool>>, scale: nat, quiet: nat, r: nat, c: nat, dy: nat, dx: nat)
    requires Square(m) && scale > 0 && IsPicture(raw, m, scale, quiet) && r < |m| && c < |m| && dy < scale && dx < scale
    ensures var i := At(Side(|m|, scale, quiet), (r + quiet) * scale + dy, (c + quiet) * scale + dx);
      i < |raw| && raw[i] == if m[r][c] then BLACK else WHITE
  {
    hide Dark, IsPicture;
    LineFits(|m|, scale, quiet, r, dy);
    LineFits(|m|, scale, quiet, c, dx);
    hide Side, At, Filter;
    var y, x := (r + quiet) * scale + dy, (c + quiet) * scale + dx;
    Quotient(y, scale, r + quiet, dy);
    Quotient(x, scale, c + quiet, dx);
    ModuleUnder(m, scale, quiet, r, c, y, x);
    PixelColour(raw, m, scale, quiet, y, x);
  }
}
