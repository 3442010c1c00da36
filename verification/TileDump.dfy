/** The dump of a decoded frame from its tiled memory layout to planar raster order: which byte of
    the surface is written when. */
module TileDump {
  import opened Octets

  // ---------------------------------------------------------------------------------------
  // The order in which the loops visit the surface
  // ---------------------------------------------------------------------------------------

  /** What a loop of `n` rounds puts out, round by round. */
  function Joined(f: nat -> seq<nat>, n: nat): seq<nat> {
    if n == 0 then [] else Joined(f, n - 1) + f(n - 1)
  }

  function Four(x: nat): seq<nat> { [x + 3, x + 2, x + 1, x] }

  function Eight(x: nat): seq<nat> { Four(x + 4) + Four(x) }

  function SixteenLuma(x: nat): seq<nat> { Eight(x) + Eight(x + 0x40) }

  function SixteenChroma(x: nat): seq<nat> { Four(x) + Four(x + 0x20) + Four(x + 0x80) + Four(x + 0xA0) }

  /** What line `l` of a macroblock adds to its address. */
  function LumaStep(l: nat): nat { l / 4 * 0x10 + l % 2 * 0x80 + if l / 2 % 2 != 0 then 0 else 8 }

  function ChromaStep(b: bool): nat -> nat {
    l => l / 4 * 0x10 + l % 2 * 0x40 + (if l / 2 % 2 != 0 then 0 else 8) + if b then 4 else 0
  }

  /** The sixteen addresses of line `l` in the macroblock at `x`. */
  type Line = (nat, nat) -> seq<nat>

  function LineOf(sixteen: nat -> seq<nat>, step: nat -> nat): Line { (x: nat, l: nat) => sixteen(x + step(l)) }

  function LumaLine(): Line { LineOf(SixteenLuma, LumaStep) }

  function ChromaLine(b: bool): Line { LineOf(SixteenChroma, ChromaStep(b)) }

  /** What the innermost loop body puts out for macroblock row `iy`, line `l` and column `m`. */
  type Body = (nat, nat, nat) -> seq<nat>

  /** One line of `s` macroblocks, all `lines` of them, and `n` rows of macroblocks. */
  function Row(g: Body, iy: nat, l: nat, s: nat): seq<nat> { Joined(InRow(g, iy, l), s) }

  function InRow(g: Body, iy: nat, l: nat): nat -> seq<nat> { (m: nat) => g(iy, l, m) }

  function Rows(g: Body, iy: nat, s: nat, lines: nat): seq<nat> { Joined(InRows(g, iy, s), lines) }

  function InRows(g: Body, iy: nat, s: nat): nat -> seq<nat> { (l: nat) => Row(g, iy, l, s) }

  function Plane(g: Body, s: nat, lines: nat, n: nat): seq<nat> { Joined(InPlane(g, s, lines), n) }

  function InPlane(g: Body, s: nat, lines: nat): nat -> seq<nat> { (iy: nat) => Rows(g, iy, s, lines) }

  /** Where a row of macroblocks starts: two of them share a stripe. */
  function BlockBase(iy: nat, stripe: nat): nat { iy / 2 * stripe + if iy % 2 != 0 then 0x100 else 0 }

  function Tiles(line: Line, stripe: nat, offset: nat): Body {
    (iy: nat, l: nat, m: nat) => line(BlockBase(iy, stripe) + offset + m * 0x200, l)
  }

  function LumaPlane(w: nat, h: nat): seq<nat> { Plane(Tiles(LumaLine(), w * 32, 0), w / 16, 16, h / 16) }

  function ChromaPlane(w: nat, h: nat, offset: nat, b: bool): seq<nat> {
    Plane(Tiles(ChromaLine(b), w / 2 * 8 * 2 * 2, offset), w / 2 / 16, 8, h / 16)
  }

  function ChromaOffset(w: nat, h: nat): nat
    requires w > 0
  {
    (w * h + w * 32 / 2) / (w * 32) * (w * 32)
  }

  /** The whole dump: luma, Cb, Cr. */
  function Dump(w: nat, h: nat): seq<nat>
    requires w > 0
  {
    LumaPlane(w, h) + ChromaPlane(w, h, ChromaOffset(w, h), true) + ChromaPlane(w, h, ChromaOffset(w, h), false)
  }

  // ---------------------------------------------------------------------------------------
  // Positions and their addresses
  // ---------------------------------------------------------------------------------------

  /** `n` times `c`, round by round. */
  function Times(n: nat, c: nat): nat { if n == 0 then 0 else Times(n - 1, c) + c }

  lemma {:induction false} TimesIsProduct(n: nat, c: nat)
    ensures Times(n, c) == n * c
  {
    if n > 0 { TimesIsProduct(n - 1, c); }
  }

  /** The number of bytes in `n` rows of macroblocks of width `w`, and the position of one of them. */
  function Length(w: nat, s: nat, lines: nat, n: nat): nat { Times(n, Times(lines, Times(s, w))) }

  function Index(w: nat, s: nat, lines: nat, iy: nat, l: nat, m: nat, k: nat): nat {
    Times(iy, Times(lines, Times(s, w))) + (Times(l, Times(s, w)) + (Times(m, w) + k))
  }

  /** Rounds of equal length: the `r`-th output of round `q`. */
  lemma {:induction false} JoinedAt(f: nat -> seq<nat>, n: nat, c: nat, q: nat, r: nat)
    requires (forall k :: 0 <= k < n ==> |f(k)| == c) && q <= n && (q < n ==> r < c)
    ensures |Joined(f, n)| == Times(n, c)
    ensures q < n ==> Times(q, c) + r < Times(n, c) && Joined(f, n)[Times(q, c) + r] == f(q)[r]
  {
    if n > 0 {
      JoinedAt(f, n - 1, c, if q < n then q else n - 1, if q < n then r else 0);
    }
  }

  /** And back: every position is some output of some round. */
  lemma {:induction false} DigitsOf(i: nat, n: nat, c: nat) returns (q: nat, r: nat)
    requires i < Times(n, c)
    ensures q < n && r < c && i == Times(q, c) + r
  {
    if i < Times(n - 1, c) {
      q, r := DigitsOf(i, n - 1, c);
    } else {
      q, r := n - 1, i - Times(n - 1, c);
    }
  }

  ghost predicate Wide(g: Body, w: nat) { forall iy: nat, l: nat, m: nat :: |g(iy, l, m)| == w }

  lemma RowAt(g: Body, w: nat, iy: nat, l: nat, s: nat, m: nat, k: nat)
    requires Wide(g, w) && m <= s && (m < s ==> k < w)
    ensures |Row(g, iy, l, s)| == Times(s, w)
    ensures m < s ==> Times(m, w) + k < Times(s, w) && Row(g, iy, l, s)[Times(m, w) + k] == g(iy, l, m)[k]
  {
    JoinedAt(InRow(g, iy, l), s, w, m, k);
  }

  lemma RowsAt(g: Body, w: nat, iy: nat, s: nat, lines: nat, l: nat, r: nat)
    requires Wide(g, w) && l <= lines && (l < lines ==> r < Times(s, w))
    ensures |Rows(g, iy, s, lines)| == Times(lines, Times(s, w))
    ensures l < lines ==> Times(l, Times(s, w)) + r < Times(lines, Times(s, w)) && |Row(g, iy, l, s)| == Times(s, w)
    ensures l < lines ==> Rows(g, iy, s, lines)[Times(l, Times(s, w)) + r] == Row(g, iy, l, s)[r]
  {
    var f, c := InRows(g, iy, s), Times(s, w);
    forall j: nat ensures |f(j)| == c { RowAt(g, w, iy, j, s, s, 0); }
    JoinedAt(f, lines, c, l, r);
  }

  /** Where a plane has the byte of line `l`, column `m`, place `k` in row `iy` of macroblocks. */
  lemma PlaneAt(g: Body, w: nat, s: nat, lines: nat, n: nat, iy: nat, l: nat, m: nat, k: nat)
    requires Wide(g, w) && iy <= n && (iy < n ==> l < lines && m < s && k < w)
    ensures |Plane(g, s, lines, n)| == Length(w, s, lines, n)
    ensures iy < n ==> Index(w, s, lines, iy, l, m, k) < Length(w, s, lines, n)
    ensures iy < n ==> Plane(g, s, lines, n)[Index(w, s, lines, iy, l, m, k)] == g(iy, l, m)[k]
  {
    var f, c := InPlane(g, s, lines), Times(lines, Times(s, w));
    forall j: nat ensures |f(j)| == c { RowsAt(g, w, j, s, lines, lines, 0); }
    if iy < n {
      RowAt(g, w, iy, l, s, m, k);
      RowsAt(g, w, iy, s, lines, l, Times(m, w) + k);
    }
    JoinedAt(f, n, c, iy, if iy < n then Times(l, Times(s, w)) + (Times(m, w) + k) else 0);
  }

  lemma IndexOf(w: nat, s: nat, lines: nat, n: nat, i: nat) returns (iy: nat, l: nat, m: nat, k: nat)
    requires i < Length(w, s, lines, n)
    ensures iy < n && l < lines && m < s && k < w && i == Index(w, s, lines, iy, l, m, k)
  {
    var r, r';
    iy, r := DigitsOf(i, n, Times(lines, Times(s, w)));
    l, r' := DigitsOf(r, lines, Times(s, w));
    m, k := DigitsOf(r', s, w);
  }

  // ---------------------------------------------------------------------------------------
  // Sequences without repetition
  // ---------------------------------------------------------------------------------------

  ghost predicate Distinct(s: seq<nat>) { forall i, j :: 0 <= i < j < |s| ==> s[i] != s[j] }

  ghost predicate Apart(s: seq<nat>, t: seq<nat>) { forall i, j :: 0 <= i < |s| && 0 <= j < |t| ==> s[i] != t[j] }

  ghost predicate Within(s: seq<nat>, lo: nat, hi: nat) { forall i :: 0 <= i < |s| ==> lo <= s[i] < hi }

  ghost predicate AllMarked(s: seq<nat>, mark: nat -> bool) { forall i :: 0 <= i < |s| ==> mark(s[i]) }

  lemma DistinctJoin(s: seq<nat>, t: seq<nat>)
    requires Distinct(s) && Distinct(t) && Apart(s, t)
    ensures Distinct(s + t)
  {
  }

  function Elements(s: seq<nat>): (r: set<nat>)
    ensures forall a :: a in r <==> a in s
  {
    if s == [] then {} else assert s == s[..|s| - 1] + [s[|s| - 1]]; Elements(s[..|s| - 1]) + {s[|s| - 1]}
  }

  function Below(n: nat): (r: set<nat>)
    ensures |r| == n && forall a: nat :: a in r <==> a < n
  {
    if n == 0 then {} else Below(n - 1) + {n - 1}
  }

  lemma {:induction false} DistinctSize(s: seq<nat>)
    requires Distinct(s)
    ensures |Elements(s)| == |s|
  {
    if s != [] {
      DistinctSize(s[..|s| - 1]);
    }
  }

  lemma {:induction false} SubsetSmaller(a: set<nat>, b: set<nat>)
    requires a <= b
    ensures |a| <= |b|
  {
    if a != {} {
      var x :| x in a;
      SubsetSmaller(a - {x}, b - {x});
    }
  }

  /** As many different numbers below `|s|` as there are: none is missing. */
  lemma Covers(s: seq<nat>, a: nat)
    requires Distinct(s) && Within(s, 0, |s|) && a < |s|
    ensures a in s
  {
    DistinctSize(s);
    if a !in s {
      SubsetSmaller(Elements(s), Below(|s|) - {a});
    }
  }

  // ---------------------------------------------------------------------------------------
  // Planes without repetition
  // ---------------------------------------------------------------------------------------

  /** The bytes lie from `lo` to `hi`, and `back` takes their addresses to their positions. */
  ghost predicate Inverts(g: Body, w: nat, s: nat, lines: nat, n: nat, back: nat -> nat, lo: nat, hi: nat, mark: nat -> bool) {
    forall iy: nat, l: nat, m: nat, k: nat :: iy < n && l < lines && m < s && k < w && |g(iy, l, m)| == w ==>
      var a := g(iy, l, m)[k]; lo <= a < hi && back(a) == Index(w, s, lines, iy, l, m, k) && mark(a)
  }

  lemma AddressInverts(g: Body, w: nat, s: nat, lines: nat, n: nat, back: nat -> nat, lo: nat, hi: nat, mark: nat -> bool, i: nat)
    requires Wide(g, w) && Inverts(g, w, s, lines, n, back, lo, hi, mark) && i < |Plane(g, s, lines, n)|
    ensures var a := Plane(g, s, lines, n)[i]; lo <= a < hi && back(a) == i && mark(a)
  {
    PlaneAt(g, w, s, lines, n, n, 0, 0, 0);
    var iy, l, m, k := IndexOf(w, s, lines, n, i);
    PlaneAt(g, w, s, lines, n, iy, l, m, k);
    var b := g(iy, l, m);
    assert |b| == w && lo <= b[k] < hi && back(b[k]) == i && mark(b[k]);
  }

  /** Since position and address determine each other, no address occurs twice in a plane. */
  lemma PlaneDistinct(g: Body, w: nat, s: nat, lines: nat, n: nat, back: nat -> nat, lo: nat, hi: nat, mark: nat -> bool)
    requires Wide(g, w) && Inverts(g, w, s, lines, n, back, lo, hi, mark)
    ensures var p := Plane(g, s, lines, n);
            |p| == Length(w, s, lines, n) && Distinct(p) && Within(p, lo, hi) && AllMarked(p, mark)
  {
    var p := Plane(g, s, lines, n);
    PlaneAt(g, w, s, lines, n, n, 0, 0, 0);
    forall i | 0 <= i < |p| ensures lo <= p[i] < hi && back(p[i]) == i && mark(p[i]) {
      AddressInverts(g, w, s, lines, n, back, lo, hi, mark, i);
    }
  }

  // ---------------------------------------------------------------------------------------
  // Back from the address to the position
  // ---------------------------------------------------------------------------------------

  lemma MulLe(a: nat, b: nat, d: nat)
    requires a <= b
    ensures a * d <= b * d
  {
  }

  lemma Digits(q: nat, r: nat, d: nat)
    requires r < d
    ensures (q * d + r) / d == q && (q * d + r) % d == r
  {
    if (q * d + r) / d > q {
      MulLe(q + 1, (q * d + r) / d, d);
    } else if (q * d + r) / d < q {
      MulLe((q * d + r) / d + 1, q, d);
    }
  }

  /** A line adds `ls` of its number and `ks` of the place in it. */
  ghost predicate Stepwise(line: Line, ls: nat -> nat, ks: nat -> nat) {
    && (forall x: nat, l: nat :: |line(x, l)| == 16)
    && forall x: nat, l: nat, k: nat :: k < 16 ==> line(x, l)[k] == x + ls(l) + ks(k)
  }

  /** The low byte of an address gives back the line and the place, and `mark` holds of it. */
  ghost predicate Unpacks(ls: nat -> nat, ks: nat -> nat, lines: nat, dl: nat -> nat, dk: nat -> nat, mark: nat -> bool) {
    forall l: nat, k: nat :: l < lines && k < 16 ==>
      ls(l) + ks(k) < 256 && dl(ls(l) + ks(k)) == l && dk(ls(l) + ks(k)) == k && mark(ls(l) + ks(k))
  }

  /** The row of macroblocks, and the position, of the byte at distance `a` from the start of a plane. */
  function RowOf(s: nat, a: nat): nat { if s == 0 then 0 else 2 * (a / 512 / s) + a / 256 % 2 }

  function Position(dl: nat -> nat, dk: nat -> nat, w: nat, s: nat, lines: nat, a: nat): nat {
    var low := a % 256;
    if s == 0 then 0 else Index(w, s, lines, RowOf(s, a), dl(low), a / 512 % s, dk(low))
  }

  function Back(dl: nat -> nat, dk: nat -> nat, w: nat, s: nat, lines: nat, offset: nat): nat -> nat {
    (a: nat) => Position(dl, dk, w, s, lines, if a < offset then 0 else a - offset)
  }

  function MarkFrom(mark: nat -> bool, s: nat, n: nat, offset: nat): nat -> bool {
    (a: nat) => a >= offset && mark((a - offset) % 256) && RowOf(s, a - offset) < n
  }

  lemma Halves(q: nat, odd: nat, low: nat)
    requires odd < 2 && low < 256
    ensures var a := 512 * q + 256 * odd + low; a % 256 == low && a / 512 == q && a / 256 % 2 == odd
  {
    Digits(2 * q + odd, low, 256);
    Digits(q, 256 * odd + low, 512);
    Digits(q, odd, 2);
  }

  lemma BaseSplits(iy: nat, s: nat, m: nat, low: nat)
    ensures BlockBase(iy, 512 * s) + m * 0x200 + low == 512 * (iy / 2 * s + m) + 256 * (iy % 2) + low
  {
  }

  lemma PositionBack(dl: nat -> nat, dk: nat -> nat, w: nat, s: nat, lines: nat, iy: nat, m: nat, low: nat)
    requires m < s && low < 256
    ensures var a := BlockBase(iy, 512 * s) + m * 0x200 + low;
            && a % 256 == low && RowOf(s, a) == iy
            && Position(dl, dk, w, s, lines, a) == Index(w, s, lines, iy, dl(low), m, dk(low))
  {
    BaseSplits(iy, s, m, low);
    Halves(iy / 2 * s + m, iy % 2, low);
    Digits(iy / 2, m, s);
  }

  /** The end of a plane of `n` rows of macroblocks, two rows to a stripe. */
  function PlaneEnd(s: nat, n: nat): nat { (n + 1) / 2 * (512 * s) }

  lemma AddressBelow(s: nat, n: nat, iy: nat, m: nat, low: nat)
    requires iy < n && m < s && low < 256
    ensures BlockBase(iy, 512 * s) + m * 0x200 + low < PlaneEnd(s, n)
  {
    BaseSplits(iy, s, m, low);
    MulLe(iy / 2 + 1, (n + 1) / 2, 512 * s);
    assert (iy / 2 + 1) * (512 * s) == iy / 2 * (512 * s) + 512 * s;
  }

  /** The address of one byte leads back to its position. */
  lemma TileInverts(line: Line, ls: nat -> nat, ks: nat -> nat, dl: nat -> nat, dk: nat -> nat, mark: nat -> bool,
                    w: nat, s: nat, lines: nat, n: nat, offset: nat, iy: nat, l: nat, m: nat, k: nat)
    requires Stepwise(line, ls, ks) && Unpacks(ls, ks, lines, dl, dk, mark) && iy < n && l < lines && m < s && k < 16
    ensures var b := Tiles(line, 512 * s, offset)(iy, l, m);
            && |b| == 16 && offset <= b[k] < offset + PlaneEnd(s, n) && MarkFrom(mark, s, n, offset)(b[k])
            && Back(dl, dk, w, s, lines, offset)(b[k]) == Index(w, s, lines, iy, l, m, k)
  {
    var low := ls(l) + ks(k);
    assert low < 256 && dl(low) == l && dk(low) == k && mark(low);
    var x := BlockBase(iy, 512 * s) + offset + m * 0x200;
    assert |line(x, l)| == 16 && line(x, l)[k] == x + ls(l) + ks(k);
    PositionBack(dl, dk, w, s, lines, iy, m, low);
    AddressBelow(s, n, iy, m, low);
  }

  lemma TilesInvert(line: Line, ls: nat -> nat, ks: nat -> nat, dl: nat -> nat, dk: nat -> nat, mark: nat -> bool,
                    w: nat, s: nat, lines: nat, n: nat, offset: nat)
    requires Stepwise(line, ls, ks) && Unpacks(ls, ks, lines, dl, dk, mark) && s > 0 && w == 16
    ensures Wide(Tiles(line, 512 * s, offset), w)
    ensures Inverts(Tiles(line, 512 * s, offset), w, s, lines, n, Back(dl, dk, w, s, lines, offset),
                    offset, offset + PlaneEnd(s, n), MarkFrom(mark, s, n, offset))
  {
    var g, back, mark' := Tiles(line, 512 * s, offset), Back(dl, dk, w, s, lines, offset), MarkFrom(mark, s, n, offset);
    forall iy: nat, l: nat, m: nat ensures |g(iy, l, m)| == w {
      assert |line(BlockBase(iy, 512 * s) + offset + m * 0x200, l)| == 16;
    }
    forall iy: nat, l: nat, m: nat, k: nat | iy < n && l < lines && m < s && k < w && |g(iy, l, m)| == w
      ensures var a := g(iy, l, m)[k];
              offset <= a < offset + PlaneEnd(s, n) && back(a) == Index(w, s, lines, iy, l, m, k) && mark'(a)
    {
      TileInverts(line, ls, ks, dl, dk, mark, w, s, lines, n, offset, iy, l, m, k);
    }
  }

  // ---------------------------------------------------------------------------------------
  // The three planes
  // ---------------------------------------------------------------------------------------

  function LumaPlace(): nat -> nat { k => 64 * (k / 8) + if k % 8 <= 7 then 7 - k % 8 else 0 }

  function ChromaPlace(): nat -> nat { k => 128 * (k / 8) + 32 * (k / 4 % 2) + if k % 4 <= 3 then 3 - k % 4 else 0 }

  lemma SixteenLumaAt(x: nat, k: nat)
    requires k < 16
    ensures |SixteenLuma(x)| == 16 && SixteenLuma(x)[k] == x + LumaPlace()(k)
  {
  }

  lemma SixteenChromaAt(x: nat, k: nat)
    requires k < 16
    ensures |SixteenChroma(x)| == 16 && SixteenChroma(x)[k] == x + ChromaPlace()(k)
  {
    if
    case k < 4 => assert SixteenChroma(x)[k] == Four(x)[k];
    case 4 <= k < 8 => assert SixteenChroma(x)[k] == Four(x + 0x20)[k - 4];
    case 8 <= k < 12 => assert SixteenChroma(x)[k] == Four(x + 0x80)[k - 8];
    case 12 <= k => assert SixteenChroma(x)[k] == Four(x + 0xA0)[k - 12];
  }

  ghost predicate Places(sixteen: nat -> seq<nat>, place: nat -> nat) {
    (forall x: nat :: |sixteen(x)| == 16) && forall x: nat, k: nat :: k < 16 ==> sixteen(x)[k] == x + place(k)
  }

  lemma LineIsStepwise(sixteen: nat -> seq<nat>, step: nat -> nat, place: nat -> nat)
    requires Places(sixteen, place)
    ensures Stepwise(LineOf(sixteen, step), step, place)
  {
    forall x: nat, l: nat
      ensures |LineOf(sixteen, step)(x, l)| == 16
    {
      assert |sixteen(x + step(l))| == 16;
    }
  }

  lemma LumaIsStepwise()
    ensures Stepwise(LumaLine(), LumaStep, LumaPlace())
  {
    var f: nat -> seq<nat>, g := SixteenLuma, LumaPlace();
    forall x: nat ensures |f(x)| == 16 { SixteenLumaAt(x, 0); }
    forall x: nat, k: nat | k < 16 ensures f(x)[k] == x + g(k) { SixteenLumaAt(x, k); }
    assert Places(f, g);
    LineIsStepwise(f, LumaStep, g);
  }

  lemma ChromaIsStepwise(b: bool)
    ensures Stepwise(ChromaLine(b), ChromaStep(b), ChromaPlace())
  {
    var f: nat -> seq<nat>, g := SixteenChroma, ChromaPlace();
    forall x: nat ensures |f(x)| == 16 { SixteenChromaAt(x, 0); }
    forall x: nat, k: nat | k < 16 ensures f(x)[k] == x + g(k) { SixteenChromaAt(x, k); }
    assert Places(f, g);
    LineIsStepwise(f, ChromaStep(b), g);
  }

  function LumaLineOf(): nat -> nat { low => low / 16 % 4 * 4 + (if low / 8 % 2 == 0 then 2 else 0) + low / 128 }
  function LumaPlaceOf(): nat -> nat { low => low / 64 % 2 * 8 + if low % 8 <= 7 then 7 - low % 8 else 0 }

  function ChromaLineOf(): nat -> nat { low => low / 16 % 2 * 4 + (if low / 8 % 2 == 0 then 2 else 0) + low / 64 % 2 }
  function ChromaPlaceOf(): nat -> nat { low => low / 128 * 8 + low / 32 % 2 * 4 + if low % 4 <= 3 then 3 - low % 4 else 0 }
  function IsPlane(b: bool): nat -> bool { low => (low / 4 % 2 == 1) == b }

  lemma LumaDigits(t: nat, n: nat, a: nat, d: nat, c: nat)
    requires t < 8 && n < 2 && a < 4 && d < 2 && c < 2
    ensures var low := t + 8 * n + 16 * a + 64 * d + 128 * c;
            low < 256 && low % 8 == t && low / 8 % 2 == n && low / 16 % 4 == a && low / 64 % 2 == d && low / 128 == c
  {
  }

  lemma ChromaDigits(t: nat, p: nat, n: nat, a: nat, e: nat, c: nat, d: nat)
    requires t < 4 && p < 2 && n < 2 && a < 2 && e < 2 && c < 2 && d < 2
    ensures var low := t + 4 * p + 8 * n + 16 * a + 32 * e + 64 * c + 128 * d;
            && low < 256 && low % 4 == t && low / 4 % 2 == p && low / 8 % 2 == n && low / 16 % 2 == a
            && low / 32 % 2 == e && low / 64 % 2 == c && low / 128 == d
  {
  }

  lemma LineDigits(l: nat)
    requires l < 16
    ensures l == l / 4 * 4 + l / 2 % 2 * 2 + l % 2 && l / 4 < 4
  {
  }

  lemma PlaceDigits(k: nat)
    requires k < 16
    ensures k == k / 8 * 8 + k % 8 && k == k / 8 * 8 + k / 4 % 2 * 4 + k % 4 && k / 8 < 2
  {
  }

  lemma LumaBits(l: nat, k: nat)
    requires l < 16 && k < 16
    ensures var low := LumaStep(l) + LumaPlace()(k); low < 256 && LumaLineOf()(low) == l && LumaPlaceOf()(low) == k
  {
    var t, n, a, d, c := 7 - k % 8, if l / 2 % 2 != 0 then 0 else 1, l / 4, k / 8, l % 2;
    LineDigits(l);
    PlaceDigits(k);
    LumaDigits(t, n, a, d, c);
    assert LumaStep(l) + LumaPlace()(k) == t + 8 * n + 16 * a + 64 * d + 128 * c;
  }

  lemma ChromaLow(l: nat, k: nat, b: bool, t: nat, p: nat, n: nat)
    requires l < 8 && k < 16 && t == 3 - k % 4 && p == (if b then 1 else 0) && n == if l / 2 % 2 != 0 then 0 else 1
    ensures ChromaStep(b)(l) + ChromaPlace()(k) == t + 4 * p + 8 * n + 16 * (l / 4) + 32 * (k / 4 % 2) + 64 * (l % 2) + 128 * (k / 8)
  {
  }

  lemma ChromaBits(l: nat, k: nat, b: bool)
    requires l < 8 && k < 16
    ensures var low := ChromaStep(b)(l) + ChromaPlace()(k);
            low < 256 && ChromaLineOf()(low) == l && ChromaPlaceOf()(low) == k && IsPlane(b)(low)
  {
    var t, p, n := 3 - k % 4, if b then 1 else 0, if l / 2 % 2 != 0 then 0 else 1;
    ChromaLow(l, k, b, t, p, n);
    LineDigits(l);
    PlaceDigits(k);
    ChromaDigits(t, p, n, l / 4, k / 4 % 2, l % 2, k / 8);
  }

  // ---------------------------------------------------------------------------------------
  // The dump of `2 * c` by `n` macroblocks
  // ---------------------------------------------------------------------------------------

  function LumaOf(c: nat, n: nat): seq<nat> { Plane(Tiles(LumaLine(), 512 * (2 * c), 0), 2 * c, 16, n) }

  function ChromaOf(c: nat, n: nat, b: bool): seq<nat> {
    Plane(Tiles(ChromaLine(b), 512 * c, PlaneEnd(2 * c, n)), c, 8, n)
  }

  function DumpOf(c: nat, n: nat): seq<nat> { LumaOf(c, n) + (ChromaOf(c, n, true) + ChromaOf(c, n, false)) }

  /** Where the planes end: the chroma planes share their stripes. */
  function EndOf(c: nat, n: nat): nat { PlaneEnd(2 * c, n) + PlaneEnd(c, n) }

  lemma LumaUnpacks()
    ensures Unpacks(LumaStep, LumaPlace(), 16, LumaLineOf(), LumaPlaceOf(), _ => true)
  {
    forall l: nat, k: nat | l < 16 && k < 16
      ensures var low := LumaStep(l) + LumaPlace()(k); low < 256 && LumaLineOf()(low) == l && LumaPlaceOf()(low) == k
    {
      LumaBits(l, k);
    }
  }

  lemma ChromaUnpacks(b: bool)
    ensures Unpacks(ChromaStep(b), ChromaPlace(), 8, ChromaLineOf(), ChromaPlaceOf(), IsPlane(b))
  {
    forall l: nat, k: nat | l < 8 && k < 16
      ensures var low := ChromaStep(b)(l) + ChromaPlace()(k);
              low < 256 && ChromaLineOf()(low) == l && ChromaPlaceOf()(low) == k && IsPlane(b)(low)
    {
      ChromaBits(l, k, b);
    }
  }

  lemma LumaDistinct(c: nat, n: nat, w: nat)
    requires c > 0 && w == 16
    ensures |LumaOf(c, n)| == Length(w, 2 * c, 16, n)
    ensures Distinct(LumaOf(c, n)) && Within(LumaOf(c, n), 0, PlaneEnd(2 * c, n))
    ensures AllMarked(LumaOf(c, n), MarkFrom(_ => true, 2 * c, n, 0))
  {
    LumaIsStepwise();
    LumaUnpacks();
    var mark := MarkFrom(_ => true, 2 * c, n, 0);
    TilesInvert(LumaLine(), LumaStep, LumaPlace(), LumaLineOf(), LumaPlaceOf(), _ => true, w, 2 * c, 16, n, 0);
    PlaneDistinct(Tiles(LumaLine(), 512 * (2 * c), 0), w, 2 * c, 16, n,
                  Back(LumaLineOf(), LumaPlaceOf(), w, 2 * c, 16, 0), 0, PlaneEnd(2 * c, n), mark);
  }

  lemma ChromaDistinct(c: nat, n: nat, b: bool, w: nat)
    requires c > 0 && w == 16
    ensures |ChromaOf(c, n, b)| == Length(w, c, 8, n)
    ensures Distinct(ChromaOf(c, n, b)) && Within(ChromaOf(c, n, b), PlaneEnd(2 * c, n), EndOf(c, n))
    ensures AllMarked(ChromaOf(c, n, b), MarkFrom(IsPlane(b), c, n, PlaneEnd(2 * c, n)))
  {
    ChromaIsStepwise(b);
    ChromaUnpacks(b);
    var o := PlaneEnd(2 * c, n);
    TilesInvert(ChromaLine(b), ChromaStep(b), ChromaPlace(), ChromaLineOf(), ChromaPlaceOf(), IsPlane(b), w, c, 8, n, o);
    PlaneDistinct(Tiles(ChromaLine(b), 512 * c, o), w, c, 8, n,
                  Back(ChromaLineOf(), ChromaPlaceOf(), w, c, 8, o), o, EndOf(c, n), MarkFrom(IsPlane(b), c, n, o));
  }

  lemma ChromaApart(p: seq<nat>, q: seq<nat>, c: nat, n: nat, offset: nat)
    requires AllMarked(p, MarkFrom(IsPlane(true), c, n, offset)) && AllMarked(q, MarkFrom(IsPlane(false), c, n, offset))
    ensures Apart(p, q)
  {
  }

  lemma WithinApart(s: seq<nat>, t: seq<nat>, lo: nat, mid: nat, hi: nat)
    requires Within(s, lo, mid) && Within(t, mid, hi)
    ensures Apart(s, t)
  {
  }

  lemma WithinJoin(s: seq<nat>, t: seq<nat>, lo: nat, hi: nat)
    requires Within(s, lo, hi) && Within(t, lo, hi)
    ensures Within(s + t, lo, hi)
  {
  }

  lemma WithinWider(s: seq<nat>, lo: nat, hi: nat, lo': nat, hi': nat)
    requires Within(s, lo, hi) && lo' <= lo && hi <= hi'
    ensures Within(s, lo', hi')
  {
  }

  lemma DumpDistinct(c: nat, n: nat, w: nat)
    requires c > 0 && w == 16
    ensures Distinct(DumpOf(c, n)) && Within(DumpOf(c, n), 0, EndOf(c, n))
  {
    var luma, cb, cr, mid, end := LumaOf(c, n), ChromaOf(c, n, true), ChromaOf(c, n, false), PlaneEnd(2 * c, n), EndOf(c, n);
    LumaDistinct(c, n, w);
    ChromaDistinct(c, n, true, w);
    ChromaDistinct(c, n, false, w);
    ChromaApart(cb, cr, c, n, mid);
    DistinctJoin(cb, cr);
    WithinJoin(cb, cr, mid, end);
    WithinApart(luma, cb + cr, 0, mid, end);
    DistinctJoin(luma, cb + cr);
    WithinWider(luma, 0, mid, 0, end);
    WithinWider(cb + cr, mid, end, 0, end);
    WithinJoin(luma, cb + cr, 0, end);
  }

  lemma DumpLength(c: nat, n: nat, w: nat)
    requires c > 0 && w == 16
    ensures |DumpOf(c, n)| == 768 * (n * c)
  {
    LumaDistinct(c, n, w);
    ChromaDistinct(c, n, true, w);
    ChromaDistinct(c, n, false, w);
    LengthForms(c, n, w);
  }

  lemma LengthForms(c: nat, n: nat, w: nat)
    requires w == 16
    ensures Length(w, 2 * c, 16, n) == 512 * (n * c) && Length(w, c, 8, n) == 128 * (n * c)
  {
    LengthForm(w, 2 * c, 16, n);
    LengthForm(w, c, 8, n);
    assert n * (512 * c) == 512 * (n * c) && n * (128 * c) == 128 * (n * c);
  }

  lemma LengthForm(w: nat, s: nat, lines: nat, n: nat)
    ensures Length(w, s, lines, n) == n * (lines * (s * w))
  {
    TimesIsProduct(s, w);
    TimesIsProduct(lines, s * w);
    TimesIsProduct(n, lines * (s * w));
  }

  lemma EndForms(c: nat, q: nat, n: nat)
    requires n == 2 * q
    ensures EndOf(c, n) == 768 * (n * c)
  {
    assert (n + 1) / 2 == q && n * c == 2 * (q * c);
    assert q * (512 * (2 * c)) == 1024 * (q * c) && q * (512 * c) == 512 * (q * c);
  }

  // ---------------------------------------------------------------------------------------
  // The dump of a frame
  // ---------------------------------------------------------------------------------------

  /** The frames the dump is for. */
  predicate FrameFits(w: nat, h: nat) { w > 0 && w % 32 == 0 && h % 16 == 0 }

  lemma HalfUp(d: nat, n: nat)
    requires d > 0
    ensures (d * n + d) / (2 * d) == (n + 1) / 2
  {
    var q, r := (n + 1) / 2, (n + 1) % 2;
    assert d * n + d == d * (2 * q + r) == q * (2 * d) + r * d;
    assert r == 0 || r == 1;
    Digits(q, r * d, 2 * d);
  }

  /** The rounding in the chroma offset gives exactly the end of the luma plane. */
  lemma ChromaOffsetIsLumaEnd(c: nat, n: nat)
    requires c > 0
    ensures ChromaOffset(32 * c, 16 * n) == PlaneEnd(2 * c, n)
  {
    var d := 512 * c;
    assert 32 * c * (16 * n) == d * n;
    HalfUp(d, n);
  }

  lemma FrameNumbers(c: nat, n: nat)
    ensures 32 * c * 32 == 512 * (2 * c) && 32 * c / 16 == 2 * c && 16 * n / 16 == n
    ensures 32 * c / 2 * 8 * 2 * 2 == 512 * c && 32 * c / 2 / 16 == c
  {
  }

  lemma LumaForm(c: nat, n: nat)
    ensures LumaPlane(32 * c, 16 * n) == LumaOf(c, n)
  {
    FrameNumbers(c, n);
  }

  lemma ChromaForm(c: nat, n: nat, offset: nat, b: bool)
    requires offset == PlaneEnd(2 * c, n)
    ensures ChromaPlane(32 * c, 16 * n, offset, b) == ChromaOf(c, n, b)
  {
    FrameNumbers(c, n);
  }

  lemma Reassociate(x: seq<nat>, y: seq<nat>, z: seq<nat>)
    ensures (x + y) + z == x + (y + z)
  {
  }

  lemma DumpForm(c: nat, n: nat)
    requires c > 0
    ensures Dump(32 * c, 16 * n) == DumpOf(c, n)
  {
    var offset := ChromaOffset(32 * c, 16 * n);
    ChromaOffsetIsLumaEnd(c, n);
    LumaForm(c, n);
    ChromaForm(c, n, offset, true);
    ChromaForm(c, n, offset, false);
    Reassociate(LumaOf(c, n), ChromaOf(c, n, true), ChromaOf(c, n, false));
  }

  lemma FrameForm(w: nat, h: nat) returns (c: nat, n: nat)
    requires FrameFits(w, h)
    ensures c > 0 && w == 32 * c && h == 16 * n && w * h == 512 * (n * c)
  {
    c, n := w / 32, h / 16;
    assert w == 32 * c && h == 16 * n;
    assert 32 * c * (16 * n) == 512 * (n * c);
  }

  lemma DumpFacts(c: nat, n: nat, area: nat)
    requires c > 0 && area == n * c
    ensures |Dump(32 * c, 16 * n)| == 768 * area && Distinct(Dump(32 * c, 16 * n))
  {
    var width := 16;
    DumpForm(c, n);
    DumpDistinct(c, n, width);
    DumpLength(c, n, width);
  }

  /** The dump puts out w*h*3/2 bytes, and no byte of the surface twice. */
  lemma DumpIsInjective(w: nat, h: nat)
    requires FrameFits(w, h)
    ensures 2 * |Dump(w, h)| == 3 * (w * h) && Distinct(Dump(w, h))
  {
    var c, n := FrameForm(w, h);
    DumpFacts(c, n, n * c);
  }

  /** Every number below the length is there, and no other. */
  ghost predicate Permutes(d: seq<nat>) { forall a: nat :: a in d <==> a < |d| }

  lemma DistinctPermutes(d: seq<nat>)
    requires Distinct(d) && Within(d, 0, |d|)
    ensures Permutes(d)
  {
    forall a: nat ensures a in d <==> a < |d| {
      if a < |d| { Covers(d, a); }
    }
  }

  lemma WholeStripesCovered(c: nat, q: nat, n: nat, w: nat)
    requires c > 0 && n == 2 * q && w == 16
    ensures Permutes(DumpOf(c, n))
  {
    DumpDistinct(c, n, w);
    DumpLength(c, n, w);
    EndForms(c, q, n);
    DistinctPermutes(DumpOf(c, n));
  }

  /** The first byte of the half stripe that an odd number of rows leaves unused. */
  function Gap(c: nat, q: nat): nat { 1024 * (c * q) + 256 }

  lemma GapRow(c: nat, q: nat)
    requires c > 0
    ensures RowOf(2 * c, Gap(c, q)) == 2 * q + 1 && Gap(c, q) < PlaneEnd(2 * c, 2 * q + 1)
  {
    Halves(q * (2 * c), 1, 0);
    Digits(q, 0, 2 * c);
    assert 512 * (q * (2 * c)) + 256 == Gap(c, q);
    assert (2 * q + 1 + 1) / 2 == q + 1 && (q + 1) * (512 * (2 * c)) == 1024 * (c * q) + 1024 * c;
  }

  lemma GapIsInside(c: nat, q: nat, n: nat)
    requires c > 0 && n == 2 * q + 1
    ensures Gap(c, q) < 768 * (n * c)
  {
    assert n * c == 2 * (c * q) + c;
  }

  lemma GapNotInLuma(c: nat, q: nat, n: nat, w: nat)
    requires c > 0 && n == 2 * q + 1 && w == 16
    ensures Gap(c, q) !in LumaOf(c, n)
  {
    LumaDistinct(c, n, w);
    GapRow(c, q);
    NotMarked(LumaOf(c, n), MarkFrom(_ => true, 2 * c, n, 0), Gap(c, q));
  }

  lemma GapNotInChroma(c: nat, q: nat, n: nat, b: bool, w: nat)
    requires c > 0 && n == 2 * q + 1 && w == 16
    ensures Gap(c, q) !in ChromaOf(c, n, b)
  {
    ChromaDistinct(c, n, b, w);
    GapRow(c, q);
    NotWithin(ChromaOf(c, n, b), PlaneEnd(2 * c, n), EndOf(c, n), Gap(c, q));
  }

  lemma LeftOut(x: seq<nat>, y: seq<nat>, z: seq<nat>, a: nat)
    requires a !in x && a !in y && a !in z && a < |x + (y + z)|
    ensures !Permutes(x + (y + z))
  {
    assert a !in x + (y + z);
  }

  lemma GapIsLeftOut(c: nat, q: nat, n: nat, w: nat)
    requires c > 0 && n == 2 * q + 1 && w == 16
    ensures !Permutes(DumpOf(c, n))
  {
    DumpLength(c, n, w);
    GapIsInside(c, q, n);
    GapNotInLuma(c, q, n, w);
    GapNotInChroma(c, q, n, true, w);
    GapNotInChroma(c, q, n, false, w);
    LeftOut(LumaOf(c, n), ChromaOf(c, n, true), ChromaOf(c, n, false), Gap(c, q));
  }

  lemma NotMarked(s: seq<nat>, mark: nat -> bool, a: nat)
    requires AllMarked(s, mark) && !mark(a)
    ensures a !in s
  {
  }

  lemma NotWithin(s: seq<nat>, lo: nat, hi: nat, a: nat)
    requires Within(s, lo, hi) && a < lo
    ensures a !in s
  {
  }

  lemma StripesPermute(c: nat, n: nat, w: nat)
    requires c > 0 && w == 16
    ensures Permutes(DumpOf(c, n)) <==> n % 2 == 0
  {
    if n % 2 == 0 { WholeStripesCovered(c, n / 2, n, w); } else { GapIsLeftOut(c, n / 2, n, w); }
  }

  lemma HalfStripe(n: nat)
    ensures 16 * n % 32 == 0 <==> n % 2 == 0
  {
  }

  /** The dump is a permutation of as many bytes of the surface as it puts out if and only if the
      frame fills whole stripes. */
  lemma DumpIsPermutation(w: nat, h: nat)
    requires FrameFits(w, h)
    ensures Permutes(Dump(w, h)) <==> h % 32 == 0
  {
    var c, n := FrameForm(w, h);
    var width := 16;
    DumpForm(c, n);
    StripesPermute(c, n, width);
    HalfStripe(n);
  }

  lemma RasterIndex(w: nat, s: nat, lines: nat, iy: nat, l: nat, m: nat, k: nat)
    ensures Index(w, s, lines, iy, l, m, k) == (iy * lines + l) * (s * w) + (m * w + k)
  {
    TimesIsProduct(s, w);
    TimesIsProduct(lines, s * w);
    TimesIsProduct(iy, lines * (s * w));
    TimesIsProduct(l, s * w);
    TimesIsProduct(m, w);
    Distributes(iy, lines, l, s * w);
  }

  lemma Distributes(a: nat, b: nat, c: nat, d: nat)
    ensures (a * b + c) * d == a * (b * d) + c * d
  {
  }

  /** In a plane `s` macroblocks wide, line `l` of row `iy`, place `k` in column `m`, is the pixel
      (16 m + k, lines * iy + l); the bytes come in raster order of their pixels. */
  lemma PlaneIsRaster(line: Line, ls: nat -> nat, ks: nat -> nat, stripe: nat, offset: nat, w: nat, s: nat, lines: nat, n: nat,
                      iy: nat, l: nat, m: nat, k: nat, i: nat)
    requires Stepwise(line, ls, ks) && w == 16 && iy < n && l < lines && m < s && k < w
    requires i == (iy * lines + l) * (s * w) + (m * w + k)
    ensures var p := Plane(Tiles(line, stripe, offset), s, lines, n);
            i < |p| && p[i] == BlockBase(iy, stripe) + offset + m * 0x200 + ls(l) + ks(k)
  {
    var g := Tiles(line, stripe, offset);
    forall iy: nat, l: nat, m: nat ensures |g(iy, l, m)| == w {
      assert |line(BlockBase(iy, stripe) + offset + m * 0x200, l)| == 16;
    }
    RasterIndex(w, s, lines, iy, l, m, k);
    PlaneAt(g, w, s, lines, n, iy, l, m, k);
    var x := BlockBase(iy, stripe) + offset + m * 0x200;
    assert line(x, l)[k] == x + ls(l) + ks(k);
  }

  lemma LumaIsRaster(c: nat, n: nat, w: nat, iy: nat, l: nat, m: nat, k: nat, i: nat)
    requires w == 16 && iy < n && l < 16 && m < 2 * c && k < w && i == (iy * 16 + l) * (2 * c * w) + (m * w + k)
    ensures i < |LumaOf(c, n)| && LumaOf(c, n)[i] == BlockBase(iy, 512 * (2 * c)) + 0 + m * 0x200 + LumaStep(l) + LumaPlace()(k)
  {
    LumaIsStepwise();
    PlaneIsRaster(LumaLine(), LumaStep, LumaPlace(), 512 * (2 * c), 0, w, 2 * c, 16, n, iy, l, m, k, i);
  }

  lemma ChromaIsRaster(c: nat, n: nat, w: nat, b: bool, iy: nat, l: nat, m: nat, k: nat, i: nat)
    requires w == 16 && iy < n && l < 8 && m < c && k < w && i == (iy * 8 + l) * (c * w) + (m * w + k)
    ensures i < |ChromaOf(c, n, b)|
    ensures ChromaOf(c, n, b)[i] == BlockBase(iy, 512 * c) + PlaneEnd(2 * c, n) + m * 0x200 + ChromaStep(b)(l) + ChromaPlace()(k)
  {
    ChromaIsStepwise(b);
    PlaneIsRaster(ChromaLine(b), ChromaStep(b), ChromaPlace(), 512 * c, PlaneEnd(2 * c, n), w, c, 8, n, iy, l, m, k, i);
  }

  // ---------------------------------------------------------------------------------------
  // Every byte of the dump
  // ---------------------------------------------------------------------------------------

  /** The address of the luma byte of pixel (x, y) in a surface `w` wide. */
  function LumaAddress(w: nat, x: nat, y: nat): int {
    y / 32 * (32 * w) + x / 16 * 512 + y / 16 % 2 * 256 + y % 2 * 128 + x / 8 % 2 * 64
    + y / 4 % 4 * 16 + (1 - y / 2 % 2) * 8 + (7 - x % 8)
  }

  /** The address of a chroma byte of pixel (x, y), counted from the start of the chroma planes. */
  function ChromaAddress(w: nat, x: nat, y: nat, b: bool): int {
    y / 16 * (16 * w) + x / 16 * 512 + y / 8 % 2 * 256 + x / 8 % 2 * 128 + y % 2 * 64
    + x / 4 % 2 * 32 + y / 4 % 2 * 16 + (1 - y / 2 % 2) * 8 + (if b then 4 else 0) + (3 - x % 4)
  }

  lemma Shifted(q: nat, r: nat)
    ensures (16 * q + r) / 2 == 8 * q + r / 2 && (16 * q + r) / 4 == 4 * q + r / 4 && (16 * q + r) / 8 == 2 * q + r / 8
  {
  }

  lemma Dropped(q: nat, r: nat)
    ensures (8 * q + r) % 2 == r % 2 && (8 * q + r) % 4 == r % 4 && (8 * q + r) % 8 == r % 8
  {
    DropMultiple(4 * q, r, 2);
    DropMultiple(2 * q, r, 4);
    DropMultiple(q, r, 8);
  }

  lemma DropMultiple(q: nat, r: nat, d: nat)
    requires d > 0
    ensures (q * d + r) % d == r % d
  {
    assert q * d + r == (q + r / d) * d + r % d;
    Digits(q + r / d, r % d, d);
  }

  lemma LowBits(y: nat)
    ensures var l := y % 16;
            && l % 2 == y % 2 && l % 4 == y % 4 && l % 8 == y % 8 && l / 2 % 2 == y / 2 % 2
            && l / 4 == y / 4 % 4 && l / 4 % 2 == y / 4 % 2 && l / 8 == y / 8 % 2
  {
    var q, l := y / 16, y % 16;
    assert y == 16 * q + l;
    Shifted(q, l);
    Dropped(2 * q, l);
    Dropped(q, l / 2);
    FourTimes(q, l / 4);
    Twice(q, l / 8);
  }

  lemma FourTimes(q: nat, r: nat)
    requires r < 4
    ensures (4 * q + r) % 4 == r && (4 * q + r) % 2 == r % 2
  {
    DropMultiple(q, r, 4);
    DropMultiple(2 * q, r, 2);
  }

  lemma Twice(q: nat, r: nat)
    requires r < 2
    ensures (2 * q + r) % 2 == r
  {
  }

  lemma HalfShifted(q: nat, r: nat)
    ensures (8 * q + r) / 2 == 4 * q + r / 2 && (8 * q + r) / 4 == 2 * q + r / 4
  {
  }

  lemma LumaLineBits(y: nat)
    ensures y / 16 / 2 == y / 32
    ensures var l := y % 16; l % 2 == y % 2 && l / 2 % 2 == y / 2 % 2 && l / 4 == y / 4 % 4
  {
    LowBits(y);
  }

  lemma ChromaLineBits(y: nat)
    ensures y / 8 / 2 == y / 16
    ensures var l := y % 8; l % 2 == y % 2 && l / 2 % 2 == y / 2 % 2 && l / 4 == y / 4 % 2
  {
    var q, l := y / 8, y % 8;
    assert y == 8 * q + l;
    HalfShifted(q, l);
    Dropped(q, l);
    FourTimes(q, l / 2);
    Twice(q, l / 4);
  }

  lemma PlaceBits(x: nat)
    ensures var k := x % 16; k % 4 == x % 4 && k % 8 == x % 8 && k / 4 % 2 == x / 4 % 2 && k / 8 == x / 8 % 2
  {
    LowBits(x);
  }

  lemma LumaStepBits(y: nat)
    ensures LumaStep(y % 16) == y % 2 * 128 + y / 4 % 4 * 16 + (1 - y / 2 % 2) * 8
  {
    LumaLineBits(y);
  }

  lemma ChromaStepBits(y: nat, b: bool)
    ensures ChromaStep(b)(y % 8) == y % 2 * 64 + y / 4 % 2 * 16 + (1 - y / 2 % 2) * 8 + if b then 4 else 0
  {
    ChromaLineBits(y);
  }

  lemma LumaAddressSplits(c: nat, x: nat, y: nat)
    ensures BlockBase(y / 16, 512 * (2 * c)) + 0 + x / 16 * 0x200 + LumaStep(y % 16) + LumaPlace()(x % 16)
         == LumaAddress(32 * c, x, y)
  {
    LumaLineBits(y);
    LumaStepBits(y);
    PlaceBits(x);
    assert 512 * (2 * c) == 32 * (32 * c);
  }

  lemma ChromaAddressSplits(c: nat, x: nat, y: nat, b: bool, offset: nat)
    ensures BlockBase(y / 8, 512 * c) + offset + x / 16 * 0x200 + ChromaStep(b)(y % 8) + ChromaPlace()(x % 16)
         == offset + ChromaAddress(32 * c, x, y, b)
  {
    ChromaLineBits(y);
    ChromaStepBits(y, b);
    PlaceBits(x);
    assert 512 * c == 16 * (32 * c);
  }

  lemma PixelSplits(w: nat, s: nat, lines: nat, x: nat, y: nat)
    requires w > 0 && lines > 0
    ensures (y / lines * lines + y % lines) * (s * w) + (x / w * w + x % w) == y * (s * w) + x
  {
    assert y / lines * lines + y % lines == y && x / w * w + x % w == x;
  }

  lemma Inside(x: nat, s: nat, w: nat)
    requires w > 0 && x < s * w
    ensures x / w < s
  {
    if x / w >= s { MulLe(s, x / w, w); }
  }

  lemma LumaAt(c: nat, n: nat, x: nat, y: nat, i: nat)
    requires x < 32 * c && y < 16 * n && i == y * (32 * c) + x
    ensures i < |LumaOf(c, n)| && LumaOf(c, n)[i] == LumaAddress(32 * c, x, y)
  {
    var w := 16;
    Inside(x, 2 * c, w);
    Inside(y, n, w);
    PixelSplits(w, 2 * c, w, x, y);
    assert 2 * c * w == 32 * c;
    LumaIsRaster(c, n, w, y / 16, y % 16, x / 16, x % 16, i);
    LumaAddressSplits(c, x, y);
  }

  lemma ChromaAt(c: nat, n: nat, b: bool, x: nat, y: nat, i: nat)
    requires x < 16 * c && y < 8 * n && i == y * (16 * c) + x
    ensures i < |ChromaOf(c, n, b)| && ChromaOf(c, n, b)[i] == PlaneEnd(2 * c, n) + ChromaAddress(32 * c, x, y, b)
  {
    var w, lines := 16, 8;
    Inside(x, c, w);
    Inside(y, n, lines);
    PixelSplits(w, c, lines, x, y);
    assert c * w == 16 * c;
    ChromaIsRaster(c, n, w, b, y / 8, y % 8, x / 16, x % 16, i);
    ChromaAddressSplits(c, x, y, b, PlaneEnd(2 * c, n));
  }

  lemma PlaneLengths(c: nat, n: nat, w: nat)
    requires c > 0 && w == 16
    ensures |LumaOf(c, n)| == 512 * (n * c) && forall b :: |ChromaOf(c, n, b)| == 128 * (n * c)
  {
    LumaDistinct(c, n, w);
    LengthForms(c, n, w);
    forall b ensures |ChromaOf(c, n, b)| == 128 * (n * c) { ChromaDistinct(c, n, b, w); }
  }

  lemma InPlanes(x: seq<nat>, y: seq<nat>, z: seq<nat>, i: nat)
    ensures i < |x| ==> (x + (y + z))[i] == x[i]
    ensures i < |y| ==> (x + (y + z))[|x| + i] == y[i]
    ensures i < |z| ==> (x + (y + z))[|x| + |y| + i] == z[i]
  {
  }

  /** The byte put out at position `i` is the one at address `a`. */
  predicate Has(d: seq<nat>, i: int, a: int) { 0 <= i < |d| && d[i] == a }

  lemma PlaceInLuma(c: nat, n: nat, x: nat, y: nat, i: nat)
    requires x < 32 * c && y < 16 * n && i == y * (32 * c) + x
    ensures Has(DumpOf(c, n), i, LumaAddress(32 * c, x, y))
  {
    LumaAt(c, n, x, y, i);
    InPlanes(LumaOf(c, n), ChromaOf(c, n, true), ChromaOf(c, n, false), i);
  }

  lemma LumaFact(c: nat, n: nat, x: nat, y: nat, i: nat)
    requires x < 32 * c && y < 16 * n && i == y * (32 * c) + x
    ensures Has(Dump(32 * c, 16 * n), i, LumaAddress(32 * c, x, y))
  {
    DumpForm(c, n);
    PlaceInLuma(c, n, x, y, i);
  }

  /** The luma byte of every pixel (x, y) comes in raster order, from its tiled address. */
  lemma DumpedLuma(w: nat, h: nat, x: nat, y: nat)
    requires FrameFits(w, h) && x < w && y < h
    ensures Has(Dump(w, h), y * w + x, LumaAddress(w, x, y))
  {
    var c, n := FrameForm(w, h);
    LumaFact(c, n, x, y, y * w + x);
  }

  lemma PlaceInChroma(c: nat, n: nat, b: bool, x: nat, y: nat, i: nat, at: nat)
    requires c > 0 && x < 16 * c && y < 8 * n && i == y * (16 * c) + x
    requires at == 512 * (n * c) + (if b then 0 else 128 * (n * c)) + i
    ensures Has(DumpOf(c, n), at, PlaneEnd(2 * c, n) + ChromaAddress(32 * c, x, y, b))
  {
    var width := 16;
    PlaneLengths(c, n, width);
    ChromaAt(c, n, b, x, y, i);
    InPlanes(LumaOf(c, n), ChromaOf(c, n, true), ChromaOf(c, n, false), i);
  }

  lemma ChromaFact(c: nat, n: nat, b: bool, x: nat, y: nat, i: nat, at: nat)
    requires c > 0 && x < 16 * c && y < 8 * n && i == y * (16 * c) + x
    requires at == 512 * (n * c) + (if b then 0 else 128 * (n * c)) + i
    ensures Has(Dump(32 * c, 16 * n), at, PlaneEnd(2 * c, n) + ChromaAddress(32 * c, x, y, b))
  {
    DumpForm(c, n);
    PlaceInChroma(c, n, b, x, y, i, at);
  }

  lemma ChromaFactOf(c: nat, n: nat, w: nat, h: nat, b: bool, x: nat, y: nat, i: nat, at: nat, a: int)
    requires c > 0 && x < 16 * c && y < 8 * n && i == y * (16 * c) + x && w == 32 * c && h == 16 * n
    requires at == 512 * (n * c) + (if b then 0 else 128 * (n * c)) + i && a == PlaneEnd(2 * c, n) + ChromaAddress(w, x, y, b)
    ensures Has(Dump(w, h), at, a)
  {
    ChromaFact(c, n, b, x, y, i, at);
  }

  lemma ChromaPlaces(w: nat, h: nat, b: bool, x: nat, y: nat) returns (c: nat, n: nat, i: nat, at: nat)
    requires FrameFits(w, h) && x < w / 2 && y < h / 2
    ensures c > 0 && w == 32 * c && h == 16 * n && x < 16 * c && y < 8 * n && i == y * (16 * c) + x
    ensures at == 512 * (n * c) + (if b then 0 else 128 * (n * c)) + i
    ensures at == w * h + (if b then 0 else w * h / 4) + y * (w / 2) + x
    ensures PlaneEnd(2 * c, n) == (h / 16 + 1) / 2 * (32 * w)
  {
    c, n := FrameForm(w, h);
    assert w / 2 == 16 * c && w * h / 4 == 128 * (n * c) && h / 16 == n;
    assert 32 * w == 512 * (2 * c);
    i := y * (16 * c) + x;
    at := 512 * (n * c) + (if b then 0 else 128 * (n * c)) + i;
  }

  /** Behind the luma come Cb and then Cr, at half the width and height, each byte in raster order
      and from its tiled address behind the whole stripes of the luma. */
  lemma DumpedChroma(w: nat, h: nat, b: bool, x: nat, y: nat, i: nat, a: int)
    requires FrameFits(w, h) && x < w / 2 && y < h / 2
    requires i == w * h + (if b then 0 else w * h / 4) + y * (w / 2) + x
    requires a == (h / 16 + 1) / 2 * (32 * w) + ChromaAddress(w, x, y, b)
    ensures Has(Dump(w, h), i, a)
  {
    var c, n, k, at := ChromaPlaces(w, h, b, x, y);
    ChromaFactOf(c, n, w, h, b, x, y, k, i, a);
  }

  // ---------------------------------------------------------------------------------------
  // The loops
  // ---------------------------------------------------------------------------------------

  /** The bytes of the surface at some addresses, one after the other. */
  function Picked(surface: nat -> Byte, addresses: seq<nat>): seq<Byte> {
    seq(|addresses|, i requires 0 <= i < |addresses| => surface(addresses[i]))
  }

  lemma PickedJoin(surface: nat -> Byte, a: seq<nat>, b: seq<nat>)
    ensures Picked(surface, a + b) == Picked(surface, a) + Picked(surface, b)
  {
  }

  method WriteRow(surface: nat -> Byte, g: Body, iy: nat, l: nat, s: nat) returns (out: seq<Byte>)
    ensures out == Picked(surface, Row(g, iy, l, s))
  {
    out := [];
    ghost var f := InRow(g, iy, l);
    for m := 0 to s
      invariant out == Picked(surface, Joined(f, m))
    {
      PickedJoin(surface, Joined(f, m), f(m));
      out := out + Picked(surface, g(iy, l, m));
    }
  }

  method WriteRows(surface: nat -> Byte, g: Body, iy: nat, s: nat, lines: nat) returns (out: seq<Byte>)
    ensures out == Picked(surface, Rows(g, iy, s, lines))
  {
    out := [];
    ghost var f := InRows(g, iy, s);
    for l := 0 to lines
      invariant out == Picked(surface, Joined(f, l))
    {
      PickedJoin(surface, Joined(f, l), f(l));
      var row := WriteRow(surface, g, iy, l, s);
      out := out + row;
    }
  }

  method WritePlane(surface: nat -> Byte, g: Body, s: nat, lines: nat, n: nat) returns (out: seq<Byte>)
    ensures out == Picked(surface, Plane(g, s, lines, n))
  {
    out := [];
    ghost var f := InPlane(g, s, lines);
    for iy := 0 to n
      invariant out == Picked(surface, Joined(f, iy))
    {
      PickedJoin(surface, Joined(f, iy), f(iy));
      var rows := WriteRows(surface, g, iy, s, lines);
      out := out + rows;
    }
  }

  /** The dump of a frame: luma, Cb, Cr. */
  method WriteFrame(surface: nat -> Byte, w: nat, h: nat) returns (out: seq<Byte>)
    requires w > 0
    ensures out == Picked(surface, Dump(w, h))
  {
    var offset := ChromaOffset(w, h);
    out := WritePlane(surface, Tiles(LumaLine(), w * 32, 0), w / 16, 16, h / 16);
    var cb := WritePlane(surface, Tiles(ChromaLine(true), w / 2 * 8 * 2 * 2, offset), w / 2 / 16, 8, h / 16);
    var cr := WritePlane(surface, Tiles(ChromaLine(false), w / 2 * 8 * 2 * 2, offset), w / 2 / 16, 8, h / 16);
    PickedJoin(surface, LumaPlane(w, h), ChromaPlane(w, h, offset, true));
    PickedJoin(surface, LumaPlane(w, h) + ChromaPlane(w, h, offset, true), ChromaPlane(w, h, offset, false));
    out := out + cb + cr;
  }
}
