/** The seven passes of an interlaced image (section 8.2 of the W3C PNG Specification, Second
    Edition), as the tables of `stbi__create_png_image` give them. */
module Adam7 {

  type Pass = p: nat | p < 7

  function XOrig(p: Pass): nat {
    if p == 1 then 4 else if p == 3 then 2 else if p == 5 then 1 else 0
  }

  function YOrig(p: Pass): nat {
    if p == 2 then 4 else if p == 4 then 2 else if p == 6 then 1 else 0
  }

  function XSpc(p: Pass): (r: nat)
    ensures XOrig(p) < r
  {
    if p <= 1 then 8 else if p <= 3 then 4 else if p <= 5 then 2 else 1
  }

  function YSpc(p: Pass): (r: nat)
    ensures YOrig(p) < r
  {
    if p <= 2 then 8 else if p <= 4 then 4 else 2
  }

  /** The width and height of a pass. */
  function PassX(p: Pass, w: nat): nat {
    (w - XOrig(p) + XSpc(p) - 1) / XSpc(p)
  }

  function PassY(p: Pass, h: nat): nat {
    (h - YOrig(p) + YSpc(p) - 1) / YSpc(p)
  }

  /** The column and the row of the image for column `i` and row `j` of a pass. */
  function Column(p: Pass, i: nat): nat {
    i * XSpc(p) + XOrig(p)
  }

  function Row(p: Pass, j: nat): nat {
    j * YSpc(p) + YOrig(p)
  }

  /** The pass that holds a pixel, from the 8 x 8 pattern of the standard. */
  function PassOf(x: nat, y: nat): Pass {
    if y % 2 == 1 then 6
    else if x % 2 == 1 then 5
    else if y % 4 == 2 then 4
    else if x % 4 == 2 then 3
    else if y % 8 == 4 then 2
    else if x % 8 == 4 then 1
    else 0
  }

  function InPassX(p: Pass, x: nat): nat {
    if x < XOrig(p) then 0 else (x - XOrig(p)) / XSpc(p)
  }

  function InPassY(p: Pass, y: nat): nat {
    if y < YOrig(p) then 0 else (y - YOrig(p)) / YSpc(p)
  }

  lemma PassSizes(p: Pass, w: nat, h: nat, i: nat, j: nat)
    ensures i < PassX(p, w) <==> Column(p, i) < w
    ensures j < PassY(p, h) <==> Row(p, j) < h
  {
    ColumnBound(XOrig(p), XSpc(p), w, i);
    ColumnBound(YOrig(p), YSpc(p), h, j);
  }

  lemma ColumnBound(orig: nat, spc: nat, w: nat, i: nat)
    requires orig < spc && (spc == 1 || spc == 2 || spc == 4 || spc == 8)
    ensures i < (w - orig + spc - 1) / spc <==> i * spc + orig < w
  {
  }

  /** Quotient and remainder by two, four and eight. */
  lemma Halved(q: nat, r: nat, x: nat)
    requires x == 2 * q + r && r < 2
    ensures x % 2 == r && x / 2 == q
  {
  }

  lemma Quartered(q: nat, r: nat, x: nat)
    requires x == 4 * q + r && r < 4
    ensures x % 4 == r && x / 4 == q
  {
  }

  lemma Eighths(q: nat, r: nat, x: nat)
    requires x == 8 * q + r && r < 8
    ensures x % 8 == r && x / 8 == q
  {
  }

  lemma Residues(x: nat)
    ensures x % 2 == 0 && x % 4 != 2 ==> x % 4 == 0
    ensures x % 4 == 0 && x % 8 != 4 ==> x % 8 == 0
    ensures x % 8 == 4 ==> x >= 4 && (x - 4) % 8 == 0
    ensures x % 4 == 2 ==> x >= 2 && (x - 2) % 4 == 0
    ensures x % 2 == 1 ==> x >= 1 && (x - 1) % 2 == 0
  {
    OfFour(x);
    OfEight(x);
    if x % 8 == 4 {
      Eighths(x / 8, 0, x - 4);
    }
    if x % 4 == 2 {
      Quartered(x / 4, 0, x - 2);
    }
    if x % 2 == 1 {
      Halved(x / 2, 0, x - 1);
    }
  }

  lemma OfFour(x: nat)
    ensures x % 4 == 2 * (x / 2 % 2) + x % 2
  {
    var h := x / 2;
    Quartered(h / 2, 2 * (h % 2) + x % 2, x);
  }

  lemma OfEight(x: nat)
    ensures x % 8 == 4 * (x / 4 % 2) + x % 4
  {
    var k := x / 4;
    Eighths(k / 2, 4 * (k % 2) + x % 4, x);
  }

  /** The pattern repeats with the spacing of each pass. */
  lemma Pattern(x: nat, y: nat)
    ensures var p := PassOf(x, y);
      XOrig(p) <= x && (x - XOrig(p)) % XSpc(p) == 0 && YOrig(p) <= y && (y - YOrig(p)) % YSpc(p) == 0
  {
    Residues(x);
    Residues(y);
  }

  lemma Exact(orig: nat, spc: nat, x: nat)
    requires 0 < spc && orig <= x && (x - orig) % spc == 0
    ensures (x - orig) / spc * spc + orig == x
  {
  }

  /** Every pixel is in the pass the pattern says, at one place of it. */
  lemma PassCovers(x: nat, y: nat, w: nat, h: nat)
    requires x < w && y < h
    ensures var p := PassOf(x, y); var i, j := InPassX(p, x), InPassY(p, y);
      i < PassX(p, w) && j < PassY(p, h) && Column(p, i) == x && Row(p, j) == y
  {
    var p := PassOf(x, y);
    Pattern(x, y);
    Exact(XOrig(p), XSpc(p), x);
    Exact(YOrig(p), YSpc(p), y);
    PassSizes(p, w, h, InPassX(p, x), InPassY(p, y));
  }

  lemma Residue(orig: nat, spc: nat, i: nat, x: nat)
    requires orig < spc && x == i * spc + orig && (spc == 1 || spc == 2 || spc == 4 || spc == 8)
    ensures x >= orig && (x - orig) / spc == i
    ensures spc == 8 && orig == 0 ==> x % 2 == 0 && x % 4 == 0 && x % 8 == 0
    ensures spc == 8 && orig == 4 ==> x % 2 == 0 && x % 4 == 0 && x % 8 == 4
    ensures spc == 4 && orig == 0 ==> x % 2 == 0 && x % 4 == 0
    ensures spc == 4 && orig == 2 ==> x % 2 == 0 && x % 4 == 2
    ensures spc == 2 && orig == 0 ==> x % 2 == 0
    ensures spc == 2 && orig == 1 ==> x % 2 == 1
  {
    if spc == 8 {
      Residue8(orig, i, x);
    } else if spc == 4 {
      Residue4(orig, i, x);
    }
  }

  lemma Residue8(orig: nat, i: nat, x: nat)
    requires orig < 8 && x == i * 8 + orig
    ensures (x - orig) / 8 == i && x % 8 == orig
    ensures orig == 0 || orig == 4 ==> x % 2 == 0 && x % 4 == 0
  {
    Eighths(i, orig, x);
    Eighths(i, 0, x - orig);
    if orig == 0 || orig == 4 {
      Quartered(2 * i + orig / 4, 0, x);
      Halved(4 * i + orig / 2, 0, x);
    }
  }

  lemma Residue4(orig: nat, i: nat, x: nat)
    requires orig < 4 && x == i * 4 + orig
    ensures (x - orig) / 4 == i && x % 4 == orig
    ensures orig == 0 || orig == 2 ==> x % 2 == 0
  {
    Quartered(i, orig, x);
    Quartered(i, 0, x - orig);
    if orig == 0 || orig == 2 {
      Halved(2 * i + orig / 2, 0, x);
    }
  }

  lemma PassOfPlace(p: Pass, i: nat, j: nat)
    ensures PassOf(Column(p, i), Row(p, j)) == p
    ensures InPassX(p, Column(p, i)) == i && InPassY(p, Row(p, j)) == j
  {
    Residue(XOrig(p), XSpc(p), i, Column(p, i));
    Residue(YOrig(p), YSpc(p), j, Row(p, j));
  }

  /** Every place of a pass is a pixel of the image, and of no other place or pass. */
  lemma PassUnique(p: Pass, i: nat, j: nat, w: nat, h: nat)
    requires i < PassX(p, w) && j < PassY(p, h)
    ensures Column(p, i) < w && Row(p, j) < h
    ensures PassOf(Column(p, i), Row(p, j)) == p
    ensures InPassX(p, Column(p, i)) == i && InPassY(p, Row(p, j)) == j
  {
    PassSizes(p, w, h, i, j);
    PassOfPlace(p, i, j);
  }

  // ----- the passes hold as many pixels as the image

  function PassArea(w: nat, h: nat, n: nat): nat
    requires n <= 7
  {
    if n == 0 then 0 else PassArea(w, h, n - 1) + PassX(n - 1, w) * PassY(n - 1, h)
  }

  lemma HalveEight(n: nat)
    ensures (n + 7) / 8 + (n + 3) / 8 == (n + 3) / 4
  {
  }

  lemma HalveFour(n: nat)
    ensures (n + 3) / 4 + (n + 1) / 4 == (n + 1) / 2
  {
  }

  lemma HalveTwo(n: nat)
    ensures (n + 1) / 2 + n / 2 == n
  {
  }

  /** Two neighbouring passes make one that is twice as dense. */
  lemma DenserColumns(n: nat)
    ensures PassX(0, n) + PassX(1, n) == PassX(2, n) && PassX(2, n) + PassX(3, n) == PassX(4, n)
    ensures PassX(4, n) + PassX(5, n) == n && PassX(6, n) == n
  {
    HalveEight(n);
    HalveFour(n);
    HalveTwo(n);
  }

  lemma DenserRows(n: nat)
    ensures PassY(0, n) == PassY(1, n) && PassY(1, n) + PassY(2, n) == PassY(3, n)
    ensures PassY(3, n) + PassY(4, n) == PassY(5, n) && PassY(5, n) + PassY(6, n) == n
  {
    HalveEight(n);
    HalveFour(n);
    HalveTwo(n);
  }

  lemma Merge(a: nat, b: nat, c: nat)
    ensures a * c + b * c == (a + b) * c
    ensures c * a + c * b == c * (a + b)
  {
  }

  lemma SumOfAreas(x0: nat, x1: nat, x2: nat, x3: nat, x4: nat, x5: nat, w: nat,
    y1: nat, y2: nat, y3: nat, y4: nat, y5: nat, y6: nat, h: nat)
    requires x0 + x1 == x2 && x2 + x3 == x4 && x4 + x5 == w
    requires y1 + y2 == y3 && y3 + y4 == y5 && y5 + y6 == h
    ensures x0 * y1 + x1 * y1 + x2 * y2 + x3 * y3 + x4 * y4 + x5 * y5 + w * y6 == w * h
  {
    Merge(x0, x1, y1);
    Merge(y1, y2, x2);
    Merge(x2, x3, y3);
    Merge(y3, y4, x4);
    Merge(x4, x5, y5);
    Merge(y5, y6, w);
  }

  lemma PassSum(w: nat, h: nat)
    ensures PassArea(w, h, 7) == w * h
  {
    DenserColumns(w);
    DenserRows(h);
    SumOfAreas(PassX(0, w), PassX(1, w), PassX(2, w), PassX(3, w), PassX(4, w), PassX(5, w), w,
      PassY(1, h), PassY(2, h), PassY(3, h), PassY(4, h), PassY(5, h), PassY(6, h), h);
    SevenAreas(w, h);
  }

  lemma SevenAreas(w: nat, h: nat)
    ensures PassArea(w, h, 7) == PassX(0, w) * PassY(0, h) + PassX(1, w) * PassY(1, h) + PassX(2, w) * PassY(2, h)
      + PassX(3, w) * PassY(3, h) + PassX(4, w) * PassY(4, h) + PassX(5, w) * PassY(5, h) + PassX(6, w) * PassY(6, h)
  {
    assert PassArea(w, h, 1) == PassX(0, w) * PassY(0, h);
    assert PassArea(w, h, 2) == PassArea(w, h, 1) + PassX(1, w) * PassY(1, h);
    assert PassArea(w, h, 3) == PassArea(w, h, 2) + PassX(2, w) * PassY(2, h);
    assert PassArea(w, h, 4) == PassArea(w, h, 3) + PassX(3, w) * PassY(3, h);
    assert PassArea(w, h, 5) == PassArea(w, h, 4) + PassX(4, w) * PassY(4, h);
    assert PassArea(w, h, 6) == PassArea(w, h, 5) + PassX(5, w) * PassY(5, h);
  }
}
