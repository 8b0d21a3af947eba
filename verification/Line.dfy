/** VideoDrawLine (kernel/video/video.c): Bresenham's line in 32-bit integers. */
module Line {
  import opened Common
  import opened Arithmetic

  const HALF: int := 0x8000_0000

  /** Conversion to a 32-bit int. */
  function ToInt(x: int): int {
    (x + HALF) % WORD_LIMIT - HALF
  }

  function ToUnsigned(x: int): int {
    x % WORD_LIMIT
  }

  function Abs(x: int): int {
    if x < 0 then -x else x
  }

  datatype Ends = Ends(startX: int, startY: int, endX: int, endY: int) {
    function Width(): int { Abs(endX - startX) }

    function Height(): int { Abs(endY - startY) }

    /** The axis that every step moves along, and the other. */
    function Major(): int { if Width() > Height() then Width() else Height() }

    function Minor(): int { if Width() > Height() then Height() else Width() }

    /** Coordinates of type unsigned whose distances fit an int, as those below 2^31 do. */
    predicate Drawable() {
      && IsWord(startX) && IsWord(startY) && IsWord(endX) && IsWord(endY)
      && Width() < HALF && Height() < HALF
    }
  }

  // ---------- The line itself ----------

  /** k * minor / major rounded to the nearest integer, halves down. */
  function Rounded(k: int, major: int, minor: int): int
    requires major > 0
  {
    (k * minor + (major - 1) / 2) / major
  }

  /** n steps from one coordinate to another. */
  function Toward(start: int, end: int, n: int): int {
    if start < end then start + n else start - n
  }

  /** Pixel k: k along the major axis, the rounded share of it along the other. */
  function Pixel(e: Ends, k: int): (int, int) {
    if e.Major() == 0 then (e.startX, e.startY)
    else
      var j := Rounded(k, e.Major(), e.Minor());
      if e.Width() > e.Height() then (Toward(e.startX, e.endX, k), Toward(e.startY, e.endY, j))
      else (Toward(e.startX, e.endX, j), Toward(e.startY, e.endY, k))
  }

  function Pixels(e: Ends): seq<(int, int)> {
    seq(e.Major() + 1, k => Pixel(e, k))
  }

  /** What the loop keeps in err, up to its sign, after k steps of which j moved both axes. */
  predicate Residue(rest: int, k: int, j: int, major: int, minor: int) {
    rest == major / 2 - k * minor + j * major && 0 <= rest < major
  }

  /** The residue determines j. */
  lemma ResidueRounds(rest: int, k: int, j: int, major: int, minor: int)
    requires major > 0 && Residue(rest, k, j, major, minor)
    ensures j == Rounded(k, major, minor)
  {
    DivModIs(k * minor + (major - 1) / 2, j, major - 1 - rest, major);
  }

  /** Rounding has a residue. */
  lemma RoundedHasResidue(k: int, major: int, minor: int)
    requires major > 0
    ensures var j := Rounded(k, major, minor); Residue(major / 2 - k * minor + j * major, k, j, major, minor)
  {
    var z := k * minor + (major - 1) / 2;
    assert z == z / major * major + z % major;
  }

  lemma NextResidue(rest: int, k: int, j: int, major: int, minor: int)
    requires 0 <= minor <= major && Residue(rest, k, j, major, minor)
    ensures 0 <= rest < major && j == Rounded(k, major, minor)
    ensures if rest < minor then Residue(rest - minor + major, k + 1, j + 1, major, minor)
            else Residue(rest - minor, k + 1, j, major, minor)
    ensures Rounded(k + 1, major, minor) == if rest < minor then j + 1 else j
  {
    ResidueRounds(rest, k, j, major, minor);
    assert (k + 1) * minor == k * minor + minor && (j + 1) * major == j * major + major;
    if rest < minor {
      ResidueRounds(rest - minor + major, k + 1, j + 1, major, minor);
    } else {
      ResidueRounds(rest - minor, k + 1, j, major, minor);
    }
  }

  /** The ends are met exactly. */
  lemma RoundedEnds(major: int, minor: int)
    requires 0 <= minor <= major && 0 < major
    ensures Rounded(0, major, minor) == 0 && Rounded(major, major, minor) == minor
  {
    ResidueRounds(major / 2, 0, 0, major, minor);
    ResidueRounds(major / 2, major, minor, major, minor);
  }

  lemma RoundedBetween(k: int, major: int, minor: int)
    requires 0 <= minor <= major && 0 < major && 0 <= k <= major
    ensures 0 <= Rounded(k, major, minor) <= minor
  {
    RoundedHasResidue(k, major, minor);
    hide Rounded;
    var j := Rounded(k, major, minor);
    Monotone(0, k, minor);
    Monotone(k, major, minor);
    Scale(j, major);
    assert (j - minor) * major == j * major - minor * major;
    Scale(j - minor, major);
  }

  /** The share grows by at most 1 a step. */
  lemma RoundedGrows(k: int, major: int, minor: int)
    requires 0 <= minor <= major && 0 < major
    ensures 0 <= Rounded(k + 1, major, minor) - Rounded(k, major, minor) <= 1
  {
    RoundedHasResidue(k, major, minor);
    hide Rounded;
    var j := Rounded(k, major, minor);
    var rest := major / 2 - k * minor + j * major;
    NextResidue(rest, k, j, major, minor);
  }

  lemma Monotone(a: int, b: int, c: int)
    requires a <= b && 0 <= c
    ensures a * c <= b * c
  {
  }

  lemma ResidueIsNear(rest: int, k: int, j: int, major: int, minor: int)
    requires major > 0 && Residue(rest, k, j, major, minor)
    ensures 2 * Abs(major * j - minor * k) <= major && 2 * Abs(minor * k - major * j) <= major
  {
    assert major * j == j * major && minor * k == k * minor;
  }

  /** Half a pixel at most. */
  lemma RoundedIsNear(k: int, w: int, h: int)
    ensures w > h && w > 0 ==> NearDiagonal(w, h, k, Rounded(k, w, h))
    ensures w <= h && h > 0 ==> NearDiagonal(w, h, Rounded(k, h, w), k)
  {
    hide Rounded;
    hide Residue;
    if w > h && w > 0 {
      RoundedHasResidue(k, w, h);
      ResidueIsNear(w / 2 - k * h + Rounded(k, w, h) * w, k, Rounded(k, w, h), w, h);
    }
    if w <= h && h > 0 {
      RoundedHasResidue(k, h, w);
      ResidueIsNear(h / 2 - k * w + Rounded(k, h, w) * h, k, Rounded(k, h, w), h, w);
    }
  }

  /**
   The whole line: it starts and ends where it should, has one pixel for every step of the
   longer axis, moves by at most one pixel an axis each step, stays between its ends, and
   every pixel is within half a pixel of the ideal line.
   */
  lemma LineIsConnectedAndStraight(e: Ends)
    ensures |Pixels(e)| == e.Major() + 1
    ensures Pixels(e)[0] == (e.startX, e.startY) && Pixels(e)[e.Major()] == (e.endX, e.endY)
    ensures forall k :: 0 <= k < e.Major() ==>
      Abs(Pixel(e, k + 1).0 - Pixel(e, k).0) <= 1 && Abs(Pixel(e, k + 1).1 - Pixel(e, k).1) <= 1
    ensures forall k :: 0 <= k <= e.Major() ==> Between(Pixels(e)[k], e)
    ensures forall k :: 0 <= k <= e.Major() ==> Near(Pixels(e)[k], e)
  {
    if e.Major() > 0 {
      RoundedEnds(e.Major(), e.Minor());
      forall k | 0 <= k <= e.Major()
        ensures Between(Pixels(e)[k], e) && Near(Pixels(e)[k], e)
        ensures Abs(Pixel(e, k + 1).0 - Pixel(e, k).0) <= 1 && Abs(Pixel(e, k + 1).1 - Pixel(e, k).1) <= 1
      {
        PixelIsClose(e, k);
      }
    }
  }

  lemma PixelIsClose(e: Ends, k: int)
    requires 0 <= k <= e.Major() && 0 < e.Major()
    ensures Between(Pixel(e, k), e) && Near(Pixel(e, k), e)
    ensures Abs(Pixel(e, k + 1).0 - Pixel(e, k).0) <= 1 && Abs(Pixel(e, k + 1).1 - Pixel(e, k).1) <= 1
  {
    RoundedBetween(k, e.Major(), e.Minor());
    RoundedGrows(k, e.Major(), e.Minor());
    RoundedIsNear(k, e.Width(), e.Height());
    hide Rounded;
    hide NearDiagonal;
  }

  predicate Between(p: (int, int), e: Ends) {
    && (e.startX <= p.0 <= e.endX || e.endX <= p.0 <= e.startX)
    && (e.startY <= p.1 <= e.endY || e.endY <= p.1 <= e.startY)
  }

  /** After i of w steps in x and j of h steps in y, a point is this close to the diagonal. */
  predicate NearDiagonal(w: int, h: int, i: int, j: int) {
    2 * Abs(w * j - h * i) <= if w > h then w else h
  }

  predicate Near(p: (int, int), e: Ends) {
    NearDiagonal(e.Width(), e.Height(), Abs(p.0 - e.startX), Abs(p.1 - e.startY))
  }

  // ---------- The line from the other end ----------

  /** Half way between two pixels. */
  predicate Tie(k: int, major: int, minor: int)
    requires major > 0
  {
    (2 * (k * minor)) % (2 * major) == major
  }

  function Swapped(e: Ends): Ends {
    Ends(e.endX, e.endY, e.startX, e.startY)
  }

  lemma TieOfResidue(rest: int, k: int, j: int, major: int, minor: int)
    requires major > 0 && Residue(rest, k, j, major, minor)
    ensures Tie(k, major, minor) <==> 2 * (j * major - k * minor) == -major
  {
    var left := 2 * (major / 2 - rest);
    assert j * (2 * major) == 2 * (j * major) && (j - 1) * (2 * major) == 2 * (j * major) - 2 * major;
    if left >= 0 {
      DivModIs(2 * (k * minor), j, left, 2 * major);
    } else {
      DivModIs(2 * (k * minor), j - 1, left + 2 * major, 2 * major);
    }
  }

  /** Twice the offset from the ideal line determines whether there is a tie. */
  lemma TieIsHalf(k: int, major: int, minor: int)
    requires major > 0
    ensures Tie(k, major, minor) <==> 2 * (major * Rounded(k, major, minor) - k * minor) == -major
  {
    RoundedHasResidue(k, major, minor);
    hide Rounded;
    var j := Rounded(k, major, minor);
    TieOfResidue(major / 2 - k * minor + j * major, k, j, major, minor);
    assert major * j == j * major;
  }

  lemma RoundedMirrored(k: int, major: int, minor: int)
    requires 0 < major
    ensures Rounded(major - k, major, minor) == minor - Rounded(k, major, minor) <==> !Tie(k, major, minor)
  {
    TieIsHalf(k, major, minor);
    hide Tie;
    RoundedHasResidue(k, major, minor);
    var j := Rounded(k, major, minor);
    var rest := major / 2 - k * minor + j * major;
    assert (major - k) * minor == major * minor - k * minor && (minor - j) * major == major * minor - j * major;
    var back := major / 2 - (major - k) * minor + (minor - j) * major;
    assert back == major / 2 * 2 - rest;
    if 0 <= back < major {
      ResidueRounds(back, major - k, minor - j, major, minor);
    } else {
      RoundedHasResidue(major - k, major, minor);
    }
  }

  /** The line drawn from the other end has the same pixel exactly where there is no tie. */
  lemma MirroredExactly(e: Ends, k: int)
    requires 0 <= k <= e.Major() && 0 < e.Major()
    ensures Pixel(Swapped(e), e.Major() - k) == Pixel(e, k) <==> !Tie(k, e.Major(), e.Minor())
  {
    var major, minor := e.Major(), e.Minor();
    var j, back := Rounded(k, major, minor), Rounded(major - k, major, minor);
    RoundedMirrored(k, major, minor);
    RoundedBetween(k, major, minor);
    RoundedBetween(major - k, major, minor);
    hide Tie;
    hide Rounded;
    if e.Width() > e.Height() {
      TowardMirrored(e.startX, e.endX, k, major - k);
      TowardMirrored(e.startY, e.endY, j, back);
    } else {
      TowardMirrored(e.startX, e.endX, j, back);
      TowardMirrored(e.startY, e.endY, k, major - k);
    }
    hide Toward;
  }

  lemma TowardMirrored(start: int, end: int, n: int, m: int)
    requires 0 <= n <= Abs(end - start) && 0 <= m <= Abs(end - start)
    ensures Toward(end, start, m) == Toward(start, end, n) <==> m == Abs(end - start) - n
  {
  }

  /** Some step is a tie exactly when the longer distance has more factors of two. */
  lemma SomeTie(major: int, minor: int)
    requires 0 <= minor <= major && 0 < major
    ensures (exists k :: 0 <= k <= major && Tie(k, major, minor)) <==> minor % PowerIn(major) != 0
  {
    hide Tie;
    hide PowerIn;
    if minor % PowerIn(major) == 0 {
      forall k | 0 <= k <= major ensures !Tie(k, major, minor) {
        NoTieAt(k, major, minor);
      }
    } else {
      var k := TieAt(major, minor);
    }
  }

  lemma NoTieAt(k: int, major: int, minor: int)
    requires 0 < major && minor % PowerIn(major) == 0
    ensures !Tie(k, major, minor)
  {
    var p := PowerIn(major);
    PowerInDivides(major);
    hide PowerIn;
    hide IsPowerOfTwo;
    hide Tie;
    WholeQuotient(major, p);
    WholeQuotient(minor, p);
    NoTieWith(k, major, minor, major / p, minor / p, p);
  }

  lemma WholeQuotient(n: int, p: int)
    requires p > 0 && n % p == 0
    ensures n == n / p * p
  {
  }

  lemma NoTieWith(k: int, major: int, minor: int, o: int, c: int, p: int)
    requires 0 < major == o * p && minor == c * p && p > 0 && o % 2 == 1
    ensures !Tie(k, major, minor)
  {
    TwiceProduct(k, c, p);
    NoTie(2 * (k * minor), major, 2 * (k * c), o, p);
  }

  /** An even multiple of p is never half way between multiples of twice an odd one. */
  lemma NoTie(y: int, m: int, x: int, o: int, p: int)
    requires p > 0 && m > 0 && y == x * p && m == o * p && x % 2 == 0 && o % 2 == 1
    ensures y % (2 * m) != m
  {
    var q := y / (2 * m);
    if y % (2 * m) == m {
      assert y == q * (2 * m) + m == (2 * q) * m + m;
      FactorOut(2 * q, m, o, p);
      SameFactor(x, o * (2 * q + 1), p);
      OddKeepsParity(o, 2 * q + 1);
    }
  }

  lemma FactorOut(n: int, m: int, o: int, p: int)
    requires m == o * p
    ensures n * m + m == (o * (n + 1)) * p
  {
    assert n * m + m == (n + 1) * m;
    assert (o * (n + 1)) * p == (n + 1) * (o * p);
  }

  lemma SameFactor(a: int, b: int, p: int)
    requires p > 0 && a * p == b * p
    ensures a == b
  {
    assert (a - b) * p == a * p - b * p;
    Scale(a - b, p);
  }

  /** The shorter distance has fewer factors of two. */
  lemma FewerFactors(major: int, minor: int)
    requires 0 <= minor && 0 < major && minor % PowerIn(major) != 0
    ensures 0 < minor && minor % PowerIn(minor) == 0 && minor / PowerIn(minor) % 2 == 1 && major % (2 * PowerIn(minor)) == 0
  {
    hide PowerIn;
    hide IsPowerOfTwo;
    var p := PowerIn(major);
    PowerInDivides(major);
    var q := PowerIn(minor);
    PowerInDivides(minor);
    if p <= q {
      PowerDivides(p, q);
      DivisorOfMultiple(minor, q, p);
      assert false;
    }
    PowerDivides(q, p);
    DivisorOfMultiple(major, p, 2 * q);
  }

  /** A step with a tie. */
  lemma TieAt(major: int, minor: int) returns (k: int)
    requires 0 <= minor && 0 < major && minor % PowerIn(major) != 0
    ensures 0 <= k <= major && Tie(k, major, minor)
  {
    hide PowerIn;
    hide Tie;
    FewerFactors(major, minor);
    k := TieBetween(major, minor, PowerIn(minor));
  }

  lemma TieBetween(major: int, minor: int, q: int) returns (k: int)
    requires 0 < major && 0 < q && minor % q == 0 && minor / q % 2 == 1 && major % (2 * q) == 0
    ensures 0 <= k <= major && Tie(k, major, minor)
  {
    hide Tie;
    k := major / (2 * q);
    var c := minor / q;
    WholeQuotient(major, 2 * q);
    WholeQuotient(minor, q);
    Product(k, c, q);
    OddIsTie(k, major, minor, c, k * q);
    Quotient(major, 2 * q);
  }

  lemma Quotient(n: int, a: int)
    requires n > 0 && a > 0
    ensures 0 <= n / a <= n
  {
    var q := n / a;
    Scale(q, a);
    if q > 0 {
      Scale(a, q);
      assert a * q == q * a <= n;
    }
  }

  lemma TwiceProduct(k: int, c: int, p: int)
    ensures 2 * (k * (c * p)) == (2 * (k * c)) * p
  {
    assert k * (c * p) == (k * c) * p;
  }

  lemma Product(k: int, c: int, q: int)
    ensures k * (2 * q) == 2 * (k * q) && k * (c * q) == c * (k * q)
  {
  }

  lemma OddIsTie(k: int, major: int, minor: int, c: int, t: int)
    requires 0 < major == 2 * t && k * minor == c * t && c % 2 == 1
    ensures Tie(k, major, minor)
  {
    var h := c / 2;
    assert c * t == (2 * h + 1) * t == h * (2 * t) + t;
    assert h * (2 * major) == 2 * (h * (2 * t));
    DivModIs(2 * (k * minor), h, major, 2 * major);
  }

  lemma SwappedAt(e: Ends, k: int)
    requires 0 <= k <= e.Major() && 0 < e.Major()
    ensures |Pixels(Swapped(e))| == |Reversed(Pixels(e))| == e.Major() + 1
    ensures Pixels(Swapped(e))[e.Major() - k] == Reversed(Pixels(e))[e.Major() - k] <==> !Tie(k, e.Major(), e.Minor())
  {
    ReversedAt(Pixels(e));
    MirroredExactly(e, k);
    hide Tie;
    hide Pixel;
  }

  /**
   The line from the other end has the same pixels, in reverse order, if and only if the
   shorter distance is a multiple of the largest power of two that divides the longer one.
   */
  lemma ReversedExactly(e: Ends)
    ensures Pixels(Swapped(e)) == Reversed(Pixels(e)) <==> e.Major() == 0 || e.Minor() % PowerIn(e.Major()) == 0
  {
    var n, a, b := e.Major(), Pixels(Swapped(e)), Reversed(Pixels(e));
    if n == 0 {
      ReversedAt(Pixels(e));
    } else {
      hide Tie;
      hide PowerIn;
      hide Pixels;
      hide Reversed;
      SomeTie(n, e.Minor());
      SwappedAt(e, 0);
      forall k | 0 <= k <= n ensures a[n - k] == b[n - k] <==> !Tie(k, n, e.Minor()) {
        SwappedAt(e, k);
      }
      forall i | 0 <= i <= n ensures a[i] == b[i] <==> !Tie(n - i, n, e.Minor()) {
        assert i == n - (n - i);
      }
    }
  }

  // ---------- The loop ----------

  /** VideoDrawLine; the pixels are those given to VideoDrawPixel, in order. */
  method VideoDrawLine(startX: int, startY: int, endX: int, endY: int) returns (pixels: seq<(int, int)>)
    requires Ends(startX, startY, endX, endY).Drawable()
    ensures pixels == Pixels(Ends(startX, startY, endX, endY))
  {
    hide Tracks;
    hide Pixel;
    hide ToInt;
    ghost var e := Ends(startX, startY, endX, endY);
    ghost var major, k := e.Major(), 0;
    var dx, sx := Abs(ToInt(endX - startX)), if startX < endX then 1 else -1;
    var dy, sy := Abs(ToInt(endY - startY)), if startY < endY then 1 else -1;
    ToIntSum(endX - startX, 0);
    ToIntSum(endY - startY, 0);
    var err := if dx > dy then dx / 2 else -(dy / 2);
    var x, y := startX, startY;
    pixels := [];
    TracksStart(e);
    while true
      invariant 0 <= k <= major && |pixels| == k
      invariant Tracks(e, err, x, y, k)
      invariant forall i :: 0 <= i < k ==> pixels[i] == Pixel(e, i)
      decreases major - k
    {
      TracksPixel(e, err, x, y, k);
      pixels := pixels + [(x, y)];
      if x == endX && y == endY {
        break;
      }
      err, x, y := Advance(e, err, x, y, dx, dy, sx, sy, k);
      k := k + 1;
    }
  }

  /** err and the point after k steps. */
  ghost predicate Tracks(e: Ends, err: int, x: int, y: int, k: int) {
    && (x, y) == Pixel(e, k)
    && (e.Major() > 0 ==>
          Residue(if e.Width() > e.Height() then err else -err, k, Rounded(k, e.Major(), e.Minor()), e.Major(), e.Minor()))
  }

  lemma TracksPixel(e: Ends, err: int, x: int, y: int, k: int)
    requires Tracks(e, err, x, y, k) && 0 <= k <= e.Major()
    ensures (x, y) == Pixel(e, k)
    ensures (x, y) == (e.endX, e.endY) <==> k == e.Major()
  {
    if e.Major() > 0 {
      RoundedEnds(e.Major(), e.Minor());
      RoundedBetween(k, e.Major(), e.Minor());
      hide Rounded;
      hide Residue;
    }
  }

  lemma TracksStart(e: Ends)
    ensures Tracks(e, if e.Width() > e.Height() then e.Width() / 2 else -(e.Height() / 2), e.startX, e.startY, 0)
  {
    if e.Major() > 0 {
      RoundedEnds(e.Major(), e.Minor());
      hide Rounded;
    }
  }

  /** The rest of the loop's body. */
  method Advance(ghost e: Ends, err: int, x: int, y: int, dx: int, dy: int, sx: int, sy: int, ghost k: int)
    returns (err': int, x': int, y': int)
    requires e.Drawable() && Tracks(e, err, x, y, k) && 0 <= k < e.Major()
    requires dx == e.Width() && dy == e.Height()
    requires sx == (if e.startX < e.endX then 1 else -1) && sy == (if e.startY < e.endY then 1 else -1)
    ensures Tracks(e, err', x', y', k + 1)
  {
    err', x', y' := err, x, y;
    var e2 := err;
    if e2 > -dx {
      err' := ToInt(err' - dy);
      x' := ToUnsigned(x' + sx);
    }
    if e2 < dy {
      err' := ToInt(err' + dx);
      y' := ToUnsigned(y' + sy);
    }
    AdvanceTracks(e, err, x, y, k);
  }

  /** err after a step in the axes given by their flags. */
  function NextErr(err: int, dx: int, dy: int, inX: bool, inY: bool): int {
    var mid := if inX then ToInt(err - dy) else err;
    if inY then ToInt(mid + dx) else mid
  }

  /** Always along the longer axis, and along the other when the residue says so. */
  lemma NextErrIsResidue(err: int, k: int, dx: int, dy: int)
    requires 0 <= dx < HALF && 0 <= dy < HALF
    ensures dx > dy && Residue(err, k, Rounded(k, dx, dy), dx, dy) ==>
      err > -dx && Residue(NextErr(err, dx, dy, true, err < dy), k + 1, Rounded(k + 1, dx, dy), dx, dy) &&
      Rounded(k + 1, dx, dy) == Rounded(k, dx, dy) + (if err < dy then 1 else 0)
    ensures dx <= dy && 0 < dy && Residue(-err, k, Rounded(k, dy, dx), dy, dx) ==>
      err < dy && Residue(-NextErr(err, dx, dy, err > -dx, true), k + 1, Rounded(k + 1, dy, dx), dy, dx) &&
      Rounded(k + 1, dy, dx) == Rounded(k, dy, dx) + (if err > -dx then 1 else 0)
  {
    hide NextErr;
    hide Rounded;
    hide Residue;
    if dx > dy {
      if Residue(err, k, Rounded(k, dx, dy), dx, dy) {
        NextResidue(err, k, Rounded(k, dx, dy), dx, dy);
        NextErrFits(err, dx, dy);
      }
    } else if 0 < dy && Residue(-err, k, Rounded(k, dy, dx), dy, dx) {
      NextResidue(-err, k, Rounded(k, dy, dx), dy, dx);
      NextErrFits(err, dx, dy);
    }
  }

  /** The sum is right whether or not its first part wrapped around. */
  lemma NextErrFits(err: int, dx: int, dy: int)
    requires 0 <= dx < HALF && 0 <= dy < HALF
    ensures dx > dy && 0 <= err < dx ==>
      NextErr(err, dx, dy, true, err < dy) == if err < dy then err - dy + dx else err - dy
    ensures dx <= dy && 0 <= -err < dy ==>
      NextErr(err, dx, dy, err > -dx, true) == if err > -dx then err - dy + dx else err + dx
  {
    ToIntSum(err - dy, 0);
    ToIntSum(err - dy, dx);
    ToIntSum(err, dx);
    hide ToInt;
  }

  lemma AdvanceTracks(e: Ends, err: int, x: int, y: int, k: int)
    requires e.Drawable() && Tracks(e, err, x, y, k) && 0 <= k < e.Major()
    ensures var dx, dy := e.Width(), e.Height();
      var inX, inY := err > -dx, err < dy;
      Tracks(e, NextErr(err, dx, dy, inX, inY),
             if inX then ToUnsigned(x + (if e.startX < e.endX then 1 else -1)) else x,
             if inY then ToUnsigned(y + (if e.startY < e.endY then 1 else -1)) else y, k + 1)
  {
    hide Rounded;
    hide Residue;
    hide NextErr;
    hide ToUnsigned;
    hide Toward;
    var j := Rounded(k, e.Major(), e.Minor());
    RoundedBetween(k, e.Major(), e.Minor());
    RoundedBetween(k + 1, e.Major(), e.Minor());
    NextErrIsResidue(err, k, e.Width(), e.Height());
    StepToward(e.startX, e.endX, if e.Width() > e.Height() then k else j);
    StepToward(e.startY, e.endY, if e.Width() > e.Height() then j else k);
  }

  lemma StepToward(start: int, end: int, n: int)
    requires IsWord(start) && IsWord(end) && 0 <= n
    ensures n < Abs(end - start) ==> ToUnsigned(Toward(start, end, n) + (if start < end then 1 else -1)) == Toward(start, end, n + 1)
  {
  }

  /** A sum that fits is right even when a part of it wrapped around. */
  lemma ToIntSum(a: int, b: int)
    ensures -HALF <= a + b < HALF ==> ToInt(ToInt(a) + b) == a + b == ToInt(a + b)
  {
  }
}
