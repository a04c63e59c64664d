/** The pinhole camera: canvas size, field of view, the half extents of the
    canvas one unit in front of the eye, and rendering a world pixel by
    pixel. */
module Cameras {
  import opened Wrappers
  import opened Tuples
  import opened Matrices
  import opened Rays
  import opened Worlds
  import opened Canvases
  import Colors

  /** The sizes are whole pixel counts; `halfWidth`, `halfHeight` and
      `pixelSize` are derived by `NewCamera`. */
  datatype Camera = Camera(
    hsize: nat,
    vsize: nat,
    fieldOfView: real,
    transform: Matrix4,
    halfWidth: real,
    halfHeight: real,
    pixelSize: real)

  /** `camera`: `halfView` is tan(fieldOfView / 2), supplied by the caller.
      The wider side of the canvas spans `halfView` either way from the
      axis, the other side is scaled by the aspect ratio. */
  function NewCamera(hsize: nat, vsize: nat, fieldOfView: real, halfView: real): (c: Camera)
    requires hsize > 0 && vsize > 0
    ensures c.hsize == hsize && c.vsize == vsize && c.fieldOfView == fieldOfView
    ensures c.transform == IdentityMatrix()
    ensures hsize >= vsize ==> c.halfWidth == halfView
    ensures hsize < vsize ==> c.halfHeight == halfView
    ensures hsize == vsize ==> c.halfHeight == halfView
    ensures c.halfWidth * vsize as real == c.halfHeight * hsize as real
    ensures c.pixelSize * hsize as real == 2.0 * c.halfWidth
  {
    var aspect := hsize as real / vsize as real;
    var halfWidth := if aspect >= 1.0 then halfView else halfView * aspect;
    var halfHeight := if aspect >= 1.0 then halfView / aspect else halfView;
    Camera(hsize, vsize, fieldOfView, IdentityMatrix(), halfWidth, halfHeight,
           halfWidth * 2.0 / hsize as real)
  }

  /** Pixels are square: the pixel size also divides the canvas height
      evenly. */
  lemma {:induction false} SquarePixels(hsize: nat, vsize: nat, fieldOfView: real, halfView: real)
    requires hsize > 0 && vsize > 0
    ensures var c := NewCamera(hsize, vsize, fieldOfView, halfView);
            c.pixelSize * vsize as real == 2.0 * c.halfHeight
  {
    var c := NewCamera(hsize, vsize, fieldOfView, halfView);
    var h, v := hsize as real, vsize as real;
    calc {
      c.pixelSize * v * h;
      2.0 * c.halfWidth * v;
      2.0 * c.halfHeight * h;
    }
    CancelPositive(c.pixelSize * v, 2.0 * c.halfHeight, h);
  }

  lemma CancelPositive(a: real, b: real, k: real)
    requires k > 0.0 && a * k == b * k
    ensures a == b
  {
  }

  /** What `NewCamera` establishes about a camera, stated on its fields:
      the pixel size divides both sides evenly, and the longer side spans
      `halfView` either way from the axis. */
  predicate Proportioned(c: Camera, halfView: real) {
    c.hsize > 0 && c.vsize > 0 &&
    c.pixelSize * c.hsize as real == 2.0 * c.halfWidth &&
    c.pixelSize * c.vsize as real == 2.0 * c.halfHeight &&
    (c.hsize >= c.vsize ==> c.halfWidth == halfView) &&
    (c.hsize <= c.vsize ==> c.halfHeight == halfView)
  }

  lemma {:induction false} NewCameraIsProportioned(hsize: nat, vsize: nat, fieldOfView: real, halfView: real)
    requires hsize > 0 && vsize > 0
    ensures Proportioned(NewCamera(hsize, vsize, fieldOfView, halfView), halfView)
  {
    SquarePixels(hsize, vsize, fieldOfView, halfView);
  }

  /** Two proportioned cameras whose sides are swapped have the same pixel
      size. */
  lemma {:induction false} SwappedPixelSize(c: Camera, d: Camera, halfView: real)
    requires Proportioned(c, halfView) && Proportioned(d, halfView)
    requires d.hsize == c.vsize && d.vsize == c.hsize
    ensures c.pixelSize == d.pixelSize
  {
    if c.hsize >= c.vsize {
      CancelPositive(c.pixelSize, d.pixelSize, c.hsize as real);
    } else {
      CancelPositive(c.pixelSize, d.pixelSize, c.vsize as real);
    }
  }

  /** Turning a landscape canvas on its side gives the same pixel size. */
  lemma {:induction false} PixelSizeIgnoresOrientation(hsize: nat, vsize: nat, fieldOfView: real, halfView: real)
    requires hsize > 0 && vsize > 0
    ensures NewCamera(hsize, vsize, fieldOfView, halfView).pixelSize ==
            NewCamera(vsize, hsize, fieldOfView, halfView).pixelSize
  {
    NewCameraIsProportioned(hsize, vsize, fieldOfView, halfView);
    NewCameraIsProportioned(vsize, hsize, fieldOfView, halfView);
    SwappedPixelSize(NewCamera(hsize, vsize, fieldOfView, halfView),
                     NewCamera(vsize, hsize, fieldOfView, halfView), halfView);
  }

  /** The centre of pixel (px, py) on the canvas at z = -1, before the
      camera transform: x grows to the left because the camera looks
      towards -z. */
  function PixelCentre(c: Camera, px: real, py: real): (p: Tuple)
    ensures IsPoint(p) && p.z == -1.0
    ensures p.x + (px + 0.5) * c.pixelSize == c.halfWidth
    ensures p.y + (py + 0.5) * c.pixelSize == c.halfHeight
  {
    Point(c.halfWidth - (px + 0.5) * c.pixelSize, c.halfHeight - (py + 0.5) * c.pixelSize, -1.0)
  }

  /** Neighbouring pixels are one pixel size apart: one column to the right
      moves the centre towards -x, one row down moves it towards -y. */
  lemma PixelCentreStep(c: Camera, px: real, py: real)
    ensures PixelCentre(c, px + 1.0, py) ==
              Point(PixelCentre(c, px, py).x - c.pixelSize, PixelCentre(c, px, py).y, -1.0)
    ensures PixelCentre(c, px, py + 1.0) ==
              Point(PixelCentre(c, px, py).x, PixelCentre(c, px, py).y - c.pixelSize, -1.0)
  {
  }

  /** The pixels tile the canvas exactly: the outer corner of the first
      pixel is (halfWidth, halfHeight) and the outer corner of the last
      pixel is (-halfWidth, -halfHeight). */
  lemma {:induction false} CanvasSpansHalfExtents(c: Camera, halfView: real)
    requires Proportioned(c, halfView)
    ensures PixelCentre(c, -0.5, -0.5) == Point(c.halfWidth, c.halfHeight, -1.0)
    ensures PixelCentre(c, c.hsize as real - 0.5, c.vsize as real - 0.5) == Point(-c.halfWidth, -c.halfHeight, -1.0)
  {
  }

  /** The pixel centres of a row lie symmetrically about the axis: pixel
      px and pixel hsize - 1 - px are mirror images. */
  lemma {:induction false} RowIsCentred(hsize: nat, vsize: nat, fieldOfView: real, halfView: real, px: real, py: real)
    requires hsize > 0 && vsize > 0
    ensures var c := NewCamera(hsize, vsize, fieldOfView, halfView);
            PixelCentre(c, px, py).x == -PixelCentre(c, hsize as real - 1.0 - px, py).x
  {
  }

  /** The pixel centres of a column lie symmetrically about the axis. */
  lemma {:induction false} ColumnIsCentred(hsize: nat, vsize: nat, fieldOfView: real, halfView: real, px: real, py: real)
    requires hsize > 0 && vsize > 0
    ensures var c := NewCamera(hsize, vsize, fieldOfView, halfView);
            PixelCentre(c, px, py).y == -PixelCentre(c, px, vsize as real - 1.0 - py).y
  {
    SquarePixels(hsize, vsize, fieldOfView, halfView);
  }

  /** The middle pixel of a canvas with odd sides lies on the axis. */
  lemma {:induction false} MiddlePixelIsOnAxis(hsize: nat, vsize: nat, fieldOfView: real, halfView: real)
    requires hsize > 0 && vsize > 0
    ensures var c := NewCamera(hsize, vsize, fieldOfView, halfView);
            PixelCentre(c, (hsize as real - 1.0) / 2.0, (vsize as real - 1.0) / 2.0) == Point(0.0, 0.0, -1.0)
  {
    SquarePixels(hsize, vsize, fieldOfView, halfView);
  }

  /** `ray_for_pixel`: the ray from the eye through the pixel centre, both
      carried into world space by the inverse camera transform. */
  function RayForPixel(ir: Irrationals, c: Camera, px: real, py: real): (r: Result<Ray>)
    ensures r.Failure? <==> !Invertible(c.transform)
    ensures r.Failure? ==> r.error == NotInvertible
  {
    var inv :- Inverse4(c.transform);
    var pixel := MulTuple(inv, PixelCentre(c, px, py));
    var origin := MulTuple(inv, Point(0.0, 0.0, 0.0));
    Success(Ray(origin, ir.normalize(Sub(pixel, origin))))
  }

  /** With the identity camera transform the eye sits at the world origin
      and the ray heads for the pixel centre. */
  lemma UntransformedRayForPixel(ir: Irrationals, c: Camera, px: real, py: real)
    requires c.transform == IdentityMatrix()
    ensures RayForPixel(ir, c, px, py) ==
            Success(Ray(Point(0.0, 0.0, 0.0), ir.normalize(Sub(PixelCentre(c, px, py), Point(0.0, 0.0, 0.0)))))
  {
    InverseOfIdentityMatrix();
    var pixel := PixelCentre(c, px, py);
    var eye := Point(0.0, 0.0, 0.0);
    IdentityMulTuple(pixel);
    IdentityMulTuple(eye);
    RayThroughInverse(ir, c, px, py, IdentityMatrix());
  }

  /** `RayForPixel` once the inverse camera transform is known. */
  lemma RayThroughInverse(ir: Irrationals, c: Camera, px: real, py: real, inv: Matrix4)
    requires Inverse4(c.transform) == Success(inv)
    ensures RayForPixel(ir, c, px, py) ==
            Success(Ray(MulTuple(inv, Point(0.0, 0.0, 0.0)),
                        ir.normalize(Sub(MulTuple(inv, PixelCentre(c, px, py)), MulTuple(inv, Point(0.0, 0.0, 0.0))))))
  {
  }

  /** An untransformed camera looks straight down -z from the origin
      through a pixel whose centre lies on the axis. */
  lemma {:induction false} RayAlongAxis(ir: Irrationals, c: Camera, px: real, py: real)
    requires c.transform == IdentityMatrix() && PixelCentre(c, px, py) == Point(0.0, 0.0, -1.0)
    ensures RayForPixel(ir, c, px, py) == Success(Ray(Point(0.0, 0.0, 0.0), ir.normalize(Vector(0.0, 0.0, -1.0))))
  {
    UntransformedRayForPixel(ir, c, px, py);
    var eye := Point(0.0, 0.0, 0.0);
    var d := Sub(PixelCentre(c, px, py), eye);
    assert d == Vector(0.0, 0.0, -1.0);
    assert RayForPixel(ir, c, px, py) == Success(Ray(eye, ir.normalize(d)));
  }

  /** A freshly made camera looks down -z through its middle pixel. */
  lemma {:induction false} MiddleRayLooksDownAxis(ir: Irrationals, hsize: nat, vsize: nat, fieldOfView: real, halfView: real)
    requires hsize > 0 && vsize > 0
    ensures var c := NewCamera(hsize, vsize, fieldOfView, halfView);
            RayForPixel(ir, c, (hsize as real - 1.0) / 2.0, (vsize as real - 1.0) / 2.0) ==
            Success(Ray(Point(0.0, 0.0, 0.0), ir.normalize(Vector(0.0, 0.0, -1.0))))
  {
    MiddlePixelIsOnAxis(hsize, vsize, fieldOfView, halfView);
    RayAlongAxis(ir, NewCamera(hsize, vsize, fieldOfView, halfView),
                 (hsize as real - 1.0) / 2.0, (vsize as real - 1.0) / 2.0);
  }

  /** The colour one pixel of the image shows: the world seen along the
      pixel's ray with the default recursion budget. */
  function PixelColor(ir: Irrationals, c: Camera, w: World, x: nat, y: nat): (r: Result<Colors.Color>)
    requires w.light.Some? || |w.objects| == 0
    ensures !Invertible(c.transform) ==> r == Failure(NotInvertible)
  {
    var ray :- RayForPixel(ir, c, x as real, y as real);
    ColorAt(ir, w, ray, DefaultRemaining)
  }

  /** Pixel (x, y) of `image` holds the colour the camera sees there. */
  predicate Painted(ir: Irrationals, c: Camera, w: World, image: Canvas, x: nat, y: nat)
    requires w.light.Some? || |w.objects| == 0
  {
    PixelColor(ir, c, w, x, y).Success? && PixelAt(image, x, y) == PixelColor(ir, c, w, x, y)
  }

  /** (x', y') comes before (x, y) in row-major order on a canvas `width`
      pixels wide. */
  predicate Earlier(width: nat, x': nat, y': nat, x: nat, y: nat) {
    (y' < y && x' < width) || (y' == y && x' < x)
  }

  /** Every pixel before (x, y) in row-major order is painted. */
  ghost predicate PaintedBefore(ir: Irrationals, c: Camera, w: World, image: Canvas, x: nat, y: nat)
    requires w.light.Some? || |w.objects| == 0
  {
    forall x': nat, y': nat :: Earlier(c.hsize, x', y', x, y) ==> Painted(ir, c, w, image, x', y')
  }

  /** Every pixel before (x, y) in row-major order has a colour. */
  ghost predicate SucceedsBefore(ir: Irrationals, c: Camera, w: World, x: nat, y: nat)
    requires w.light.Some? || |w.objects| == 0
  {
    forall x': nat, y': nat :: Earlier(c.hsize, x', y', x, y) ==> PixelColor(ir, c, w, x', y').Success?
  }

  /** Painting pixel (x, y) with its colour extends the painted prefix by
      one pixel and keeps the pixels painted before. */
  lemma {:induction false} PaintNext(ir: Irrationals, c: Camera, w: World, image: Canvas, x: nat, y: nat, color: Colors.Color)
    requires w.light.Some? || |w.objects| == 0
    requires image.width == c.hsize && |image.pixels| == c.hsize * c.vsize
    requires x < c.hsize && y < c.vsize
    requires PaintedBefore(ir, c, w, image, x, y)
    requires PixelColor(ir, c, w, x, y) == Success(color)
    ensures Index(image, x, y) < |image.pixels|
    ensures PaintedBefore(ir, c, w, WritePixel(image, x, y, color), x + 1, y)
  {
    InsideIsInRange(c.hsize, c.vsize, x, y);
    var next := WritePixel(image, x, y, color);
    forall x': nat, y': nat | Earlier(c.hsize, x', y', x + 1, y)
      ensures Painted(ir, c, w, next, x', y')
    {
      if x' == x && y' == y {
        ReadAfterWrite(image, x, y, color);
      } else {
        assert Painted(ir, c, w, image, x', y');
        DistinctPixelsDistinctIndices(image, x, y, x', y');
        WriteKeepsOthers(image, x, y, color, x', y');
      }
    }
  }

  /** Finishing a row is starting the next one. */
  lemma RowDone(ir: Irrationals, c: Camera, w: World, image: Canvas, y: nat)
    requires w.light.Some? || |w.objects| == 0
    requires PaintedBefore(ir, c, w, image, c.hsize, y)
    ensures PaintedBefore(ir, c, w, image, 0, y + 1)
  {
  }

  /** Once every row is done, every pixel shows its colour. */
  lemma {:induction false} AllPainted(ir: Irrationals, c: Camera, w: World, image: Canvas)
    requires w.light.Some? || |w.objects| == 0
    requires PaintedBefore(ir, c, w, image, 0, c.vsize)
    ensures forall x: nat, y: nat :: x < c.hsize && y < c.vsize ==>
              PixelAt(image, x, y) == PixelColor(ir, c, w, x, y) && PixelColor(ir, c, w, x, y).Success?
  {
    forall x: nat, y: nat | x < c.hsize && y < c.vsize
      ensures PixelAt(image, x, y) == PixelColor(ir, c, w, x, y) && PixelColor(ir, c, w, x, y).Success?
    {
      assert Earlier(c.hsize, x, y, 0, c.vsize);
      assert Painted(ir, c, w, image, x, y);
    }
  }

  /** The pixels painted so far all have a colour. */
  lemma PaintedSucceeds(ir: Irrationals, c: Camera, w: World, image: Canvas, x: nat, y: nat)
    requires w.light.Some? || |w.objects| == 0
    requires PaintedBefore(ir, c, w, image, x, y)
    ensures SucceedsBefore(ir, c, w, x, y)
  {
  }

  /** `render`: an hsize x vsize canvas whose every pixel is set, in
      row-major order, to the colour seen through it. The first pixel whose
      colour cannot be computed aborts the rendering with its error. */
  method Render(ir: Irrationals, c: Camera, w: World) returns (r: Result<Canvas>)
    requires w.light.Some? || |w.objects| == 0
    ensures r.Success? ==> r.value.width == c.hsize && r.value.height == c.vsize
    ensures r.Success? ==>
              forall x: nat, y: nat :: x < c.hsize && y < c.vsize ==>
                PixelAt(r.value, x, y) == PixelColor(ir, c, w, x, y) && PixelColor(ir, c, w, x, y).Success?
    ensures r.Failure? ==>
              exists x: nat, y: nat :: x < c.hsize && y < c.vsize &&
                PixelColor(ir, c, w, x, y) == Failure(r.error) && SucceedsBefore(ir, c, w, x, y)
  {
    var image := NewCanvas(c.hsize, c.vsize);
    var y: nat := 0;
    while y < c.vsize
      invariant y <= c.vsize
      invariant image.width == c.hsize && image.height == c.vsize
      invariant |image.pixels| == c.hsize * c.vsize
      invariant PaintedBefore(ir, c, w, image, 0, y)
    {
      var x: nat := 0;
      while x < c.hsize
        invariant x <= c.hsize
        invariant image.width == c.hsize && image.height == c.vsize
        invariant |image.pixels| == c.hsize * c.vsize
        invariant PaintedBefore(ir, c, w, image, x, y)
      {
        var color := PixelColor(ir, c, w, x, y);
        if color.Failure? {
          PaintedSucceeds(ir, c, w, image, x, y);
          return Failure(color.error);
        }
        PaintNext(ir, c, w, image, x, y, color.value);
        image := WritePixel(image, x, y, color.value);
        x := x + 1;
      }
      RowDone(ir, c, w, image, y);
      y := y + 1;
    }
    AllPainted(ir, c, w, image);
    r := Success(image);
  }
}
