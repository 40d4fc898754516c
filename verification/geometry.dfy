/**
 * Size validation and frame placement for one photo, the integer half of
 * `AvatarBot.reply_photo` in bot.py: which images are refused, how large the
 * decorative frame is scaled, and where on the image it is pasted.
 */
module Geometry {

  /** Largest accepted side in pixels; a larger side is refused as too large. */
  const MaxSide: nat := 4000
  /** Smallest accepted side in pixels; a smaller side is refused as too small. */
  const MinSide: nat := 10

  function Max(a: int, b: int): int { if a >= b then a else b }
  function Min(a: int, b: int): int { if a <= b then a else b }

  /**
   * `r` is what Python's `round` gives for the half-integer `d / 2`: the
   * integer nearest to d/2, and on a tie (d odd) the even one of the two.
   * Distances are doubled so that everything stays in integers.
   */
  ghost predicate NearestEven(d: int, r: int)
  {
    && -1 <= 2 * r - d <= 1
    && (2 * r - d != 0 ==> r % 2 == 0)
  }

  /** Python's `round((width - height) / 2)` for the integer `d = width - height`. */
  function RoundHalf(d: int): (r: int)
    ensures NearestEven(d, r)
  {
    if d % 2 == 0 then d / 2
    else if ((d - 1) / 2) % 2 == 0 then (d - 1) / 2
    else (d + 1) / 2
  }

  /** Exactly one integer is the round-half-to-even of d/2. */
  lemma NearestEvenUnique(d: int, r: int, r': int)
    requires NearestEven(d, r) && NearestEven(d, r')
    ensures r == r'
  {
  }

  function Abs(a: int): int { if a < 0 then -a else a }

  /** No integer lies closer to d/2 than RoundHalf(d) (distances doubled). */
  lemma RoundHalfIsNearest(d: int, k: int)
    ensures Abs(2 * RoundHalf(d) - d) <= Abs(2 * k - d)
  {
  }

  /**
   * The verdict on a `width × height` photo: refused as too large, refused as
   * too small, or accepted with the frame scaled to `side × side` and pasted
   * with its top-left corner at column `x`, row `y`.
   */
  datatype Outcome =
    | TooLarge(width: nat, height: nat)
    | TooSmall(width: nat, height: nat)
    | Place(side: nat, x: nat, y: nat)

  /**
   * The paste box chosen from the signed centring offset: a positive offset
   * moves the frame right, any other offset moves it down by its magnitude.
   */
  function PasteBox(offset: int): (box: (nat, nat))
    ensures box.0 == 0 || box.1 == 0
    ensures box.0 - box.1 == offset
    ensures box.0 > 0 <==> offset > 0
  {
    if offset > 0 then (offset, 0) else (0, -offset)
  }

  /**
   * Validation and placement for a `w × h` photo. The too-large test comes
   * first, so a photo that is both too long and too thin is reported as too
   * large. An accepted photo gets a frame whose side is its shorter side,
   * centred along its longer side, lying entirely inside the photo.
   */
  function Layout(w: nat, h: nat): (o: Outcome)
    ensures o.TooLarge? <==> Max(w, h) > MaxSide
    ensures o.TooSmall? <==> Max(w, h) <= MaxSide && Min(w, h) < MinSide
    ensures !o.Place? ==> o.width == w && o.height == h
    ensures o.Place? ==> MinSide <= o.side && Max(w, h) <= MaxSide
    ensures o.Place? ==> o.side == Min(w, h)
    // the frame never extends past the photo
    ensures o.Place? ==> o.x + o.side <= w && o.y + o.side <= h
    // it touches the top or the left border
    ensures o.Place? ==> o.x == 0 || o.y == 0
    // its signed shift is Python's round((w - h) / 2)
    ensures o.Place? ==> NearestEven(w - h, o.x - o.y)
    // it is centred up to half a pixel in both directions
    ensures o.Place? ==> Abs(2 * o.x + o.side - w) <= 1 && Abs(2 * o.y + o.side - h) <= 1
  {
    if Max(w, h) > MaxSide then TooLarge(w, h)
    else if Min(w, h) < MinSide then TooSmall(w, h)
    else
      var box := PasteBox(RoundHalf(w - h));
      Place(Min(w, h), box.0, box.1)
  }

  /** The worked cases: priorities, ties and the three shapes. */
  lemma LayoutExamples()
    ensures Layout(5000, 5) == TooLarge(5000, 5)
    ensures Layout(4001, 100) == TooLarge(4001, 100)
    ensures Layout(9, 9) == TooSmall(9, 9)
    ensures Layout(4000, 4000) == Place(4000, 0, 0)
    ensures Layout(500, 500) == Place(500, 0, 0)
    ensures Layout(800, 400) == Place(400, 200, 0)
    ensures Layout(400, 800) == Place(400, 0, 200)
    ensures RoundHalf(1) == 0 && RoundHalf(3) == 2 && RoundHalf(-3) == -2 && RoundHalf(-1) == 0
    ensures Layout(11, 10) == Place(10, 0, 0) && Layout(13, 10) == Place(10, 2, 0)
    ensures Layout(10, 13) == Place(10, 0, 2)
  {
  }
}
