/** The court-rect fitter and the coordinate mapper between player-relative
    positions (fractions of the court rectangle) and stage pixels. */
module Geometry {
  import opened Wrappers

  datatype Point = Point(x: real, y: real)
  datatype Rect = Rect(x: real, y: real, width: real, height: real)
  /** Intrinsic size of the loaded court image. */
  datatype ImageSize = ImageSize(width: real, height: real)

  /** The stage size: the window less a margin of 20 by 100 pixels, or the
      whole window in fullscreen. */
  function StageSize(innerWidth: real, innerHeight: real, fullscreen: bool): (size: (real, real))
    ensures fullscreen ==> size == (innerWidth, innerHeight)
    ensures !fullscreen ==> size.0 + 20.0 == innerWidth && size.1 + 100.0 == innerHeight
  {
    if fullscreen then (innerWidth, innerHeight) else (innerWidth - 20.0, innerHeight - 100.0)
  }

  predicate NonDegenerate(r: Rect) {
    r.width != 0.0 && r.height != 0.0
  }

  /** The centred rectangle, inside a container of the given size, that keeps
      the image's aspect ratio; all zero while no image is loaded. */
  function CourtRect(containerWidth: real, containerHeight: real, image: Option<ImageSize>): (r: Rect)
    requires image.Some? ==> image.value.width != 0.0 && image.value.height != 0.0 && containerHeight != 0.0
    ensures image.None? ==> r == Rect(0.0, 0.0, 0.0, 0.0)
    ensures image.Some? ==> r.x == (containerWidth - r.width) / 2.0 && r.y == (containerHeight - r.height) / 2.0
  {
    match image
    case None => Rect(0.0, 0.0, 0.0, 0.0)
    case Some(img) =>
      var ratio := img.width / img.height;
      var (w, h) :=
        if containerWidth / containerHeight > ratio then (containerHeight * ratio, containerHeight)
        else (containerWidth, containerWidth / ratio);
      Rect((containerWidth - w) / 2.0, (containerHeight - h) / 2.0, w, h)
  }

  /** With positive container and image sizes the rectangle has the image's
      aspect ratio, fits inside the container, touches it on one axis and is
      centred with non-negative offsets. */
  lemma CourtRectFits(containerWidth: real, containerHeight: real, img: ImageSize)
    requires containerWidth > 0.0 && containerHeight > 0.0 && img.width > 0.0 && img.height > 0.0
    ensures var r := CourtRect(containerWidth, containerHeight, Some(img));
      && r.width * img.height == r.height * img.width
      && 0.0 < r.width <= containerWidth && 0.0 < r.height <= containerHeight
      && (r.width == containerWidth || r.height == containerHeight)
      && r.x >= 0.0 && r.y >= 0.0
  {
  }

  /** For a window larger than the margins, the court rectangle fitted into
      the stage lies inside the stage. */
  lemma CourtRectInStage(innerWidth: real, innerHeight: real, fullscreen: bool, img: ImageSize)
    requires img.width > 0.0 && img.height > 0.0
    requires innerWidth > 20.0 && innerHeight > 100.0
    ensures var (w, h) := StageSize(innerWidth, innerHeight, fullscreen);
      var r := CourtRect(w, h, Some(img));
      0.0 <= r.x && r.x + r.width <= w && 0.0 <= r.y && r.y + r.height <= h
  {
    var (w, h) := StageSize(innerWidth, innerHeight, fullscreen);
    CourtRectFits(w, h, img);
  }

  /** Player-relative position to stage pixels. */
  function RelToAbs(r: Rect, p: Point): (q: Point)
    ensures NonDegenerate(r) ==> AbsToRel(r, q) == p
  {
    Point(r.x + p.x * r.width, r.y + p.y * r.height)
  }

  /** Stage pixels to player-relative position; the source divides without a
      guard, so the rectangle must have non-zero width and height. */
  function AbsToRel(r: Rect, q: Point): (p: Point)
    requires NonDegenerate(r)
  {
    Point((q.x - r.x) / r.width, (q.y - r.y) / r.height)
  }

  /** Mapping stage pixels to relative coordinates and back gives the pixels. */
  lemma AbsToRelToAbs(r: Rect, q: Point)
    requires NonDegenerate(r)
    ensures RelToAbs(r, AbsToRel(r, q)) == q
  {
  }

  /** The trail of a player, relative points flattened to the stage's
      [x0, y0, x1, y1, ...] form. */
  function TrailPoints(r: Rect, path: seq<Point>): (flat: seq<real>)
  {
    if path == [] then []
    else [RelToAbs(r, path[0]).x, RelToAbs(r, path[0]).y] + TrailPoints(r, path[1..])
  }

  /** The flattened trail holds two numbers per point: the stage position of
      point i sits at indices 2i and 2i+1. */
  lemma {:induction false} TrailPointsAt(r: Rect, path: seq<Point>)
    ensures |TrailPoints(r, path)| == 2 * |path|
    ensures forall i :: 0 <= i < |path| ==>
      TrailPoints(r, path)[2 * i] == RelToAbs(r, path[i]).x &&
      TrailPoints(r, path)[2 * i + 1] == RelToAbs(r, path[i]).y
  {
    if path != [] {
      TrailPointsAt(r, path[1..]);
      forall i | 1 <= i < |path|
        ensures TrailPoints(r, path)[2 * i] == RelToAbs(r, path[i]).x
        ensures TrailPoints(r, path)[2 * i + 1] == RelToAbs(r, path[i]).y
      {
        assert path[1..][i - 1] == path[i];
      }
    }
  }

  /** Worked example: an 800 by 600 stage with a
      400 by 200 image. */
  lemma CourtRectExample()
    ensures CourtRect(800.0, 600.0, Some(ImageSize(400.0, 200.0))) == Rect(0.0, 100.0, 800.0, 400.0)
  {
  }
}
