/** The flood fill that separates a theme frame's host surface from its glyph: starting from the
    frame's border, it marks every pixel joined to the border by pixels near the colour key. */
module SurfaceMask {
  import opened MachineIntegers

  datatype Pixel = Pixel(red: byte, green: byte, blue: byte, alpha: byte)

  datatype Point = Point(x: int, y: int)

  /** An image in row order. */
  datatype Image = Image(width: nat, height: nat, pixels: seq<Pixel>) {
    predicate Valid() {
      |pixels| == width * height
    }

    function GetPixel(x: nat, y: nat): Pixel
      requires Valid() && x < width && y < height
    {
      PixelIndexIsInside(width, height, x, y);
      pixels[y * width + x]
    }
  }

  lemma PixelIndexIsInside(width: nat, height: nat, x: nat, y: nat)
    requires x < width && y < height
    ensures 0 <= y * width + x < width * height
  {
    assert (y + 1) * width <= height * width;
  }

  lemma RowsAreApart(width: nat, x: nat, y: nat, x': nat, y': nat)
    requires x < width && y < y'
    ensures y * width + x < y' * width + x'
  {
    assert (y + 1) * width <= y' * width;
  }

  /** Two pixels of a frame never share an index. */
  lemma PixelIndexIsUnique(width: nat, x: nat, y: nat, x': nat, y': nat)
    requires x < width && x' < width && y * width + x == y' * width + x'
    ensures x == x' && y == y'
  {
    if y < y' {
      RowsAreApart(width, x, y, x', y');
    } else if y' < y {
      RowsAreApart(width, x', y', x, y);
    }
  }

  function Difference(a: byte, b: byte): int {
    if a < b then b - a else a - b
  }

  predicate ChannelNear(left: Pixel, right: Pixel) {
    && Difference(left.red, right.red) <= 2
    && Difference(left.green, right.green) <= 2
    && Difference(left.blue, right.blue) <= 2
  }

  /** Near: each of red, green and blue within two of the other, whatever the alpha. */
  lemma ChannelNearExactly(left: Pixel, right: Pixel)
    ensures ChannelNear(left, right) <==>
      && right.red - 2 <= left.red <= right.red + 2
      && right.green - 2 <= left.green <= right.green + 2
      && right.blue - 2 <= left.blue <= right.blue + 2
  {
  }

  // ---------------------------------------------------------------------------------------------
  // The host surface
  // ---------------------------------------------------------------------------------------------

  /** One frame of a strip: `height` rows from `top`, judged against `key`. */
  datatype Frame = Frame(rgba: Image, top: nat, width: nat, height: nat, key: Pixel) {
    predicate Valid() {
      && rgba.Valid()
      && 1 <= width <= rgba.width
      && 1 <= height && top + height <= rgba.height
      && width * height <= U32_MAX
    }

    predicate Has(p: Point) {
      0 <= p.x < width && 0 <= p.y < height
    }

    predicate Near(p: Point)
      requires Valid() && Has(p)
    {
      ChannelNear(rgba.GetPixel(p.x, top + p.y), key)
    }

    predicate OnBorder(p: Point) {
      p.x == 0 || p.y == 0 || p.x == width - 1 || p.y == height - 1
    }
  }

  predicate Adjacent(a: Point, b: Point) {
    || (a.y == b.y && (b.x == a.x - 1 || b.x == a.x + 1))
    || (a.x == b.x && (b.y == a.y - 1 || b.y == a.y + 1))
  }

  /** A walk over near pixels that starts on the border. */
  ghost predicate Walk(f: Frame, path: seq<Point>)
    requires f.Valid()
  {
    && |path| > 0
    && (forall i :: 0 <= i < |path| ==> f.Has(path[i]) && f.Near(path[i]))
    && f.OnBorder(path[0])
    && (forall i :: 0 < i < |path| ==> Adjacent(path[i - 1], path[i]))
  }

  /** Joined to the border by near pixels. */
  ghost predicate OnHostSurface(f: Frame, p: Point)
    requires f.Valid()
  {
    exists path :: Walk(f, path) && path[|path| - 1] == p
  }

  lemma BorderIsOnSurface(f: Frame, p: Point)
    requires f.Valid() && f.Has(p) && f.Near(p) && f.OnBorder(p)
    ensures OnHostSurface(f, p)
  {
    assert Walk(f, [p]);
    assert [p][|[p]| - 1] == p;
  }

  lemma NeighbourIsOnSurface(f: Frame, p: Point, q: Point)
    requires f.Valid() && OnHostSurface(f, p) && Adjacent(p, q) && f.Has(q) && f.Near(q)
    ensures OnHostSurface(f, q)
  {
    var path :| Walk(f, path) && path[|path| - 1] == p;
    var longer := path + [q];
    assert Walk(f, longer) && longer[|longer| - 1] == q;
  }

  /** Every near neighbour of `p` is in `marked`. */
  ghost predicate ClosedAt(f: Frame, marked: set<Point>, p: Point)
    requires f.Valid()
  {
    forall q :: Adjacent(p, q) && f.Has(q) && f.Near(q) ==> q in marked
  }

  ghost predicate Closed(f: Frame, marked: set<Point>)
    requires f.Valid()
  {
    forall p :: p in marked ==> ClosedAt(f, marked, p)
  }

  ghost predicate HoldsBorder(f: Frame, marked: set<Point>)
    requires f.Valid()
  {
    forall p :: f.Has(p) && f.OnBorder(p) && f.Near(p) ==> p in marked
  }

  /** A set that holds the near border and is closed under near neighbours holds every walk. */
  lemma {:induction false} WalkStaysInside(f: Frame, marked: set<Point>, path: seq<Point>, i: nat)
    requires f.Valid() && HoldsBorder(f, marked) && Closed(f, marked)
    requires Walk(f, path) && i < |path|
    ensures path[i] in marked
  {
    if i > 0 {
      WalkStaysInside(f, marked, path, i - 1);
      assert ClosedAt(f, marked, path[i - 1]);
    }
  }

  // ---------------------------------------------------------------------------------------------
  // The flood fill
  // ---------------------------------------------------------------------------------------------

  function Index(f: Frame, p: Point): (i: nat)
    requires f.Valid() && f.Has(p)
    ensures i < f.width * f.height
  {
    PixelIndexIsInside(f.width, f.height, p.x, p.y);
    p.y * f.width + p.x
  }

  /** The mask holds exactly the points of `marked`. */
  ghost predicate Shows(f: Frame, mask: seq<bool>, marked: set<Point>)
    requires f.Valid()
  {
    && |mask| == f.width * f.height
    && (forall p :: p in marked ==> f.Has(p))
    && forall p :: f.Has(p) ==> (mask[Index(f, p)] <==> p in marked)
  }

  lemma MarkOne(f: Frame, mask: seq<bool>, marked: set<Point>, p: Point)
    requires f.Valid() && Shows(f, mask, marked) && f.Has(p)
    ensures Shows(f, mask[Index(f, p) := true], marked + {p})
  {
    var mask' := mask[Index(f, p) := true];
    forall q | f.Has(q) ensures mask'[Index(f, q)] <==> q in marked + {p} {
      if Index(f, q) == Index(f, p) {
        PixelIndexIsUnique(f.width, q.x, q.y, p.x, p.y);
      }
    }
  }

  ghost predicate Distinct(queue: seq<Point>) {
    forall i, j :: 0 <= i < j < |queue| ==> queue[i] != queue[j]
  }

  /** What holds between any two steps: marked points are on the surface, and each is either queued
      once, finished with all its near neighbours marked, or the one in hand. */
  ghost predicate Consistent(f: Frame, marked: set<Point>, queue: seq<Point>, finished: set<Point>, hand: set<Point>)
    requires f.Valid()
  {
    && Distinct(queue)
    && (forall p :: p in marked ==> f.Has(p) && OnHostSurface(f, p))
    && (forall i :: 0 <= i < |queue| ==> queue[i] in marked && queue[i] !in finished && queue[i] !in hand)
    && (forall p :: p in marked ==> p in queue || p in finished || p in hand)
    && (forall p :: p in finished ==> p in marked && ClosedAt(f, marked, p))
    && hand <= marked
  }

  lemma MarkingKeepsConsistent(f: Frame, marked: set<Point>, queue: seq<Point>, finished: set<Point>,
                               hand: set<Point>, p: Point)
    requires f.Valid() && Consistent(f, marked, queue, finished, hand)
    requires f.Has(p) && f.Near(p) && p !in marked && OnHostSurface(f, p)
    ensures Consistent(f, marked + {p}, queue + [p], finished, hand)
  {
  }

  /** Take the head of the queue in hand. */
  lemma PoppingKeepsConsistent(f: Frame, marked: set<Point>, queue: seq<Point>, finished: set<Point>)
    requires f.Valid() && Consistent(f, marked, queue, finished, {}) && queue != []
    ensures Consistent(f, marked, queue[1..], finished, {queue[0]})
  {
    forall p | p in marked ensures p in queue[1..] || p in finished || p == queue[0] {
      if p in queue && p != queue[0] {
        var i :| 0 <= i < |queue| && queue[i] == p;
        assert queue[1..][i - 1] == p;
      }
    }
  }

  /** Mark and queue the pixel at `p` if it is near the key and unmarked. */
  method Enqueue(f: Frame, p: Point, transparent: array<bool>, queue: seq<Point>,
                 ghost marked: set<Point>, ghost finished: set<Point>, ghost hand: set<Point>)
    returns (queue': seq<Point>, ghost marked': set<Point>)
    requires f.Valid() && f.Has(p) && Shows(f, transparent[..], marked)
    requires Consistent(f, marked, queue, finished, hand)
    requires f.Near(p) ==> OnHostSurface(f, p)
    modifies transparent
    ensures Shows(f, transparent[..], marked') && Consistent(f, marked', queue', finished, hand)
    ensures marked' == if f.Near(p) then marked + {p} else marked
  {
    var index := p.y * f.width + p.x;
    queue', marked' := queue, marked;
    PixelIndexIsInside(f.width, f.height, p.x, p.y);
    assert index == Index(f, p);
    if !transparent[index] && ChannelNear(f.rgba.GetPixel(p.x, f.top + p.y), f.key) {
      MarkOne(f, transparent[..], marked, p);
      MarkingKeepsConsistent(f, marked, queue, finished, hand, p);
      transparent[index] := true;
      queue' := queue + [p];
      marked' := marked + {p};
    }
  }

  /** All points of a frame. */
  ghost function Points(f: Frame): set<Point> {
    set x, y | 0 <= x < f.width && 0 <= y < f.height :: Point(x, y)
  }

  /** Queue the whole near border. */
  method SeedBorder(f: Frame, transparent: array<bool>) returns (queue: seq<Point>, ghost marked: set<Point>)
    requires f.Valid() && Shows(f, transparent[..], {})
    modifies transparent
    ensures Shows(f, transparent[..], marked) && Consistent(f, marked, queue, {}, {}) && HoldsBorder(f, marked)
  {
    queue, marked := SeedRows(f, transparent);
    queue, marked := SeedColumns(f, transparent, queue, marked);
  }

  /** The near pixels of the first and the last row, up to column `x`. */
  ghost predicate HoldsRows(f: Frame, marked: set<Point>, x: int)
    requires f.Valid()
  {
    forall p :: f.Has(p) && p.x < x && (p.y == 0 || p.y == f.height - 1) && f.Near(p) ==> p in marked
  }

  /** The near pixels of the first and the last column, up to row `y`. */
  ghost predicate HoldsColumns(f: Frame, marked: set<Point>, y: int)
    requires f.Valid()
  {
    forall p :: f.Has(p) && p.y < y && (p.x == 0 || p.x == f.width - 1) && f.Near(p) ==> p in marked
  }

  method SeedRows(f: Frame, transparent: array<bool>) returns (queue: seq<Point>, ghost marked: set<Point>)
    requires f.Valid() && Shows(f, transparent[..], {})
    modifies transparent
    ensures Shows(f, transparent[..], marked) && Consistent(f, marked, queue, {}, {}) && HoldsRows(f, marked, f.width)
  {
    queue, marked := [], {};
    for x := 0 to f.width
      invariant Shows(f, transparent[..], marked) && Consistent(f, marked, queue, {}, {})
      invariant HoldsRows(f, marked, x)
    {
      queue, marked := EnqueueBorder(f, Point(x, 0), transparent, queue, marked);
      if f.height > 1 {
        queue, marked := EnqueueBorder(f, Point(x, f.height - 1), transparent, queue, marked);
      }
    }
  }

  method SeedColumns(f: Frame, transparent: array<bool>, queue: seq<Point>, ghost marked: set<Point>)
    returns (queue': seq<Point>, ghost marked': set<Point>)
    requires f.Valid() && Shows(f, transparent[..], marked) && Consistent(f, marked, queue, {}, {})
    modifies transparent
    ensures Shows(f, transparent[..], marked') && Consistent(f, marked', queue', {}, {})
    ensures marked <= marked' && HoldsColumns(f, marked', f.height)
  {
    queue', marked' := queue, marked;
    for y := 0 to f.height
      invariant Shows(f, transparent[..], marked') && Consistent(f, marked', queue', {}, {})
      invariant marked <= marked' && HoldsColumns(f, marked', y)
    {
      queue', marked' := EnqueueBorder(f, Point(0, y), transparent, queue', marked');
      if f.width > 1 {
        queue', marked' := EnqueueBorder(f, Point(f.width - 1, y), transparent, queue', marked');
      }
    }
  }

  method EnqueueBorder(f: Frame, p: Point, transparent: array<bool>, queue: seq<Point>, ghost marked: set<Point>)
    returns (queue': seq<Point>, ghost marked': set<Point>)
    requires f.Valid() && f.Has(p) && f.OnBorder(p) && Shows(f, transparent[..], marked)
    requires Consistent(f, marked, queue, {}, {})
    modifies transparent
    ensures Shows(f, transparent[..], marked') && Consistent(f, marked', queue', {}, {})
    ensures marked' == if f.Near(p) then marked + {p} else marked
  {
    if f.Near(p) { BorderIsOnSurface(f, p); }
    queue', marked' := Enqueue(f, p, transparent, queue, marked, {}, {});
  }

  lemma FourNeighboursClose(f: Frame, marked: set<Point>, p: Point)
    requires f.Valid()
    requires forall q ::
      q in {Point(p.x - 1, p.y), Point(p.x + 1, p.y), Point(p.x, p.y - 1), Point(p.x, p.y + 1)} ==>
        (f.Has(q) && f.Near(q) ==> q in marked)
    ensures ClosedAt(f, marked, p)
  {
    forall q | Adjacent(p, q) && f.Has(q) && f.Near(q) ensures q in marked {
      assert q in {Point(p.x - 1, p.y), Point(p.x + 1, p.y), Point(p.x, p.y - 1), Point(p.x, p.y + 1)};
    }
  }

  lemma FinishingKeepsConsistent(f: Frame, marked: set<Point>, queue: seq<Point>, finished: set<Point>, p: Point)
    requires f.Valid() && Consistent(f, marked, queue, finished, {p}) && ClosedAt(f, marked, p)
    ensures Consistent(f, marked, queue, finished + {p}, {})
  {
  }

  /** Queue the near neighbours of the point in hand. */
  method Expand(f: Frame, p: Point, transparent: array<bool>, queue: seq<Point>,
                ghost marked: set<Point>, ghost finished: set<Point>)
    returns (queue': seq<Point>, ghost marked': set<Point>)
    requires f.Valid() && f.Has(p) && Shows(f, transparent[..], marked)
    requires Consistent(f, marked, queue, finished, {p}) && p !in finished
    modifies transparent
    ensures Shows(f, transparent[..], marked') && Consistent(f, marked', queue', finished + {p}, {})
    ensures marked <= marked'
  {
    queue', marked' := queue, marked;
    if p.x > 0 {
      queue', marked' := EnqueueNeighbour(f, p, Point(p.x - 1, p.y), transparent, queue', marked', finished);
    }
    if p.x + 1 < f.width {
      queue', marked' := EnqueueNeighbour(f, p, Point(p.x + 1, p.y), transparent, queue', marked', finished);
    }
    if p.y > 0 {
      queue', marked' := EnqueueNeighbour(f, p, Point(p.x, p.y - 1), transparent, queue', marked', finished);
    }
    if p.y + 1 < f.height {
      queue', marked' := EnqueueNeighbour(f, p, Point(p.x, p.y + 1), transparent, queue', marked', finished);
    }
    FourNeighboursClose(f, marked', p);
    FinishingKeepsConsistent(f, marked', queue', finished, p);
  }

  method EnqueueNeighbour(f: Frame, p: Point, q: Point, transparent: array<bool>, queue: seq<Point>,
                          ghost marked: set<Point>, ghost finished: set<Point>)
    returns (queue': seq<Point>, ghost marked': set<Point>)
    requires f.Valid() && f.Has(q) && Adjacent(p, q) && Shows(f, transparent[..], marked)
    requires Consistent(f, marked, queue, finished, {p})
    modifies transparent
    ensures Shows(f, transparent[..], marked') && Consistent(f, marked', queue', finished, {p})
    ensures marked' == if f.Near(q) then marked + {q} else marked
  {
    assert p in marked;
    if f.Near(q) { NeighbourIsOnSurface(f, p, q); }
    queue', marked' := Enqueue(f, q, transparent, queue, marked, finished, {p});
  }

  /** The mask is true at a pixel exactly when near pixels join it to the frame's border. */
  method ConnectedHostSurfaceMask(f: Frame) returns (transparent: array<bool>)
    requires f.Valid()
    ensures fresh(transparent) && transparent.Length == f.width * f.height
    ensures forall p :: f.Has(p) ==> (transparent[Index(f, p)] <==> OnHostSurface(f, p))
  {
    transparent := new bool[f.width * f.height](_ => false);
    var queue;
    ghost var marked;
    queue, marked := SeedBorder(f, transparent);
    ghost var finished: set<Point> := {};
    while queue != []
      invariant Shows(f, transparent[..], marked) && Consistent(f, marked, queue, finished, {})
      invariant HoldsBorder(f, marked)
      decreases Points(f) - finished
    {
      var p := queue[0];
      PoppingKeepsConsistent(f, marked, queue, finished);
      FinishingShrinks(f, marked, queue, finished);
      queue, marked := Expand(f, p, transparent, queue[1..], marked, finished);
      finished := finished + {p};
    }
    DrainedIsClosed(f, marked, finished);
    forall p | f.Has(p) ensures transparent[Index(f, p)] <==> OnHostSurface(f, p) {
      if OnHostSurface(f, p) { ClosedHoldsSurface(f, marked, p); }
      assert transparent[..][Index(f, p)] == transparent[Index(f, p)];
    }
  }

  lemma FinishingShrinks(f: Frame, marked: set<Point>, queue: seq<Point>, finished: set<Point>)
    requires f.Valid() && Consistent(f, marked, queue, finished, {}) && queue != []
    ensures queue[0] in Points(f) - finished
  {
    var p := queue[0];
    assert p == Point(p.x, p.y) && f.Has(p);
  }

  /** With nothing left in the queue, the marked points are closed under near neighbours. */
  lemma DrainedIsClosed(f: Frame, marked: set<Point>, finished: set<Point>)
    requires f.Valid() && Consistent(f, marked, [], finished, {})
    ensures Closed(f, marked)
  {
    forall p | p in marked ensures ClosedAt(f, marked, p) {
      assert p in finished;
    }
  }

  /** A closed set that holds the near border holds the whole host surface. */
  lemma ClosedHoldsSurface(f: Frame, marked: set<Point>, p: Point)
    requires f.Valid() && Closed(f, marked) && HoldsBorder(f, marked)
    requires OnHostSurface(f, p)
    ensures p in marked
  {
    var path :| Walk(f, path) && path[|path| - 1] == p;
    WalkStaysInside(f, marked, path, |path| - 1);
  }
}
