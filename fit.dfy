/**
 * The viewport-fit engine (web/App.tsx, getZoom and the layout computed in
 * draw): how far an image of the given pixel size is shrunk to fit the
 * viewport, the bounds rectangle of the map, and whether the view is
 * recentred. Arithmetic is over exact reals; the source's IEEE-754 rounding
 * is not modelled.
 */
module Fit {
  import opened Wrappers

  /** The image, scaled by `scale`, fits the viewport on both axes. */
  predicate FitsAt(imageWidth: real, width: real, imageHeight: real, height: real, scale: real) {
    imageWidth * scale <= width && imageHeight * scale <= height
  }

  /** getZoom (web/App.tsx:33-47): 1 when the image fits at native size,
      otherwise the smaller of the two axis ratios. */
  function GetZoom(imageWidth: real, width: real, imageHeight: real, height: real): (zoom: real)
    requires imageWidth > 0.0 && imageHeight > 0.0
    ensures imageWidth <= width && imageHeight <= height ==> zoom == 1.0
    ensures !(imageWidth <= width && imageHeight <= height) ==>
              zoom <= width / imageWidth && zoom <= height / imageHeight
              && (zoom == width / imageWidth || zoom == height / imageHeight)
  {
    if imageWidth > width || imageHeight > height then
      var zoomX := width / imageWidth;
      var zoomY := height / imageHeight;
      if zoomX >= zoomY then zoomY else zoomX
    else
      1.0
  }

  lemma ScaleBelowRatio(image: real, view: real, s: real)
    requires image > 0.0
    ensures image * s <= view <==> s <= view / image
  {
    if s <= view / image {
      assert image * s <= image * (view / image);
    }
    if image * s <= view {
      assert s == (image * s) / image;
    }
  }

  /** The zoom makes the image fit the viewport, never magnifies it, and is
      the largest such scale: no scale up to 1 that also fits is bigger. */
  lemma ZoomIsLargestFittingScale(imageWidth: real, width: real, imageHeight: real, height: real)
    requires imageWidth > 0.0 && imageHeight > 0.0 && width >= 0.0 && height >= 0.0
    ensures var zoom := GetZoom(imageWidth, width, imageHeight, height);
            0.0 <= zoom <= 1.0 && FitsAt(imageWidth, width, imageHeight, height, zoom)
            && forall s :: 0.0 <= s <= 1.0 && FitsAt(imageWidth, width, imageHeight, height, s) ==> s <= zoom
  {
    var zoom := GetZoom(imageWidth, width, imageHeight, height);
    ScaleBelowRatio(imageWidth, width, zoom);
    ScaleBelowRatio(imageHeight, height, zoom);
    if !(imageWidth <= width && imageHeight <= height) {
      if imageWidth > width {
        assert width / imageWidth < 1.0 by { ScaleBelowRatio(imageWidth, width, 1.0); }
      } else {
        assert height / imageHeight < 1.0 by { ScaleBelowRatio(imageHeight, height, 1.0); }
      }
    }
    forall s | 0.0 <= s <= 1.0 && FitsAt(imageWidth, width, imageHeight, height, s)
      ensures s <= zoom
    {
      ScaleBelowRatio(imageWidth, width, s);
      ScaleBelowRatio(imageHeight, height, s);
    }
  }

  /** When the image is too big, the scaled image touches the viewport's
      edge on the constraining axis: the fit leaves no slack there. */
  lemma ZoomTouchesEdge(imageWidth: real, width: real, imageHeight: real, height: real)
    requires imageWidth > 0.0 && imageHeight > 0.0
    requires imageWidth > width || imageHeight > height
    ensures var zoom := GetZoom(imageWidth, width, imageHeight, height);
            imageWidth * zoom == width || imageHeight * zoom == height
  {
  }

  lemma ProductNonNegative(a: real, b: real)
    requires a >= 0.0 && b >= 0.0
    ensures a * b >= 0.0
  {
  }

  /** A map coordinate: Leaflet's simple CRS uses (lat, lng) = (y, x). */
  datatype LatLng = LatLng(lat: real, lng: real)

  /** The two corners a `L.LatLngBounds` is built from. */
  datatype Bounds = Bounds(corner1: LatLng, corner2: LatLng)

  function Abs(x: real): real { if x < 0.0 then -x else x }

  /** The horizontal extent of the bounds. */
  function BoundsWidth(b: Bounds): real { Abs(b.corner2.lng - b.corner1.lng) }

  /** The vertical extent of the bounds. */
  function BoundsHeight(b: Bounds): real { Abs(b.corner2.lat - b.corner1.lat) }

  /** `getCenter` of the bounds: the midpoint of the two corners. */
  function Center(b: Bounds): (c: LatLng)
    ensures c.lat - b.corner1.lat == b.corner2.lat - c.lat
    ensures c.lng - b.corner1.lng == b.corner2.lng - c.lng
  {
    LatLng((b.corner1.lat + b.corner2.lat) / 2.0, (b.corner1.lng + b.corner2.lng) / 2.0)
  }

  /** What draw computes for one image: the zoom, the map bounds, and the
      point the view is recentred on at zoom level 0, if it is. */
  datatype Placement = Placement(zoom: real, bounds: Bounds, recentre: Option<LatLng>)

  /** The image is strictly smaller than the viewport on both axes
      (web/App.tsx:85), the test for recentring. */
  predicate StrictlyInside(imageWidth: real, width: real, imageHeight: real, height: real) {
    imageWidth < width && imageHeight < height
  }

  /** The layout of draw (web/App.tsx:56-61, 85-88): bounds from (0, 0) to
      the scaled image size, recentred only when the image is strictly
      smaller than the viewport on both axes. */
  function Place(imageWidth: real, width: real, imageHeight: real, height: real): (pl: Placement)
    requires imageWidth > 0.0 && imageHeight > 0.0 && width >= 0.0 && height >= 0.0
    ensures pl.zoom == GetZoom(imageWidth, width, imageHeight, height)
    ensures pl.bounds.corner1 == LatLng(imageHeight * pl.zoom, 0.0) && pl.bounds.corner2 == LatLng(0.0, imageWidth * pl.zoom)
    ensures BoundsWidth(pl.bounds) == imageWidth * pl.zoom && BoundsHeight(pl.bounds) == imageHeight * pl.zoom
    ensures BoundsWidth(pl.bounds) <= width && BoundsHeight(pl.bounds) <= height
    ensures BoundsWidth(pl.bounds) * imageHeight == BoundsHeight(pl.bounds) * imageWidth
    ensures pl.recentre.Some? <==> StrictlyInside(imageWidth, width, imageHeight, height)
    ensures pl.recentre.Some? ==>
              pl.zoom == 1.0 && pl.recentre.value == LatLng(imageHeight / 2.0, imageWidth / 2.0)
    ensures imageWidth <= width && imageHeight <= height && !StrictlyInside(imageWidth, width, imageHeight, height) ==>
              pl.zoom == 1.0 && pl.recentre == None
  {
    var zoom := GetZoom(imageWidth, width, imageHeight, height);
    ZoomIsLargestFittingScale(imageWidth, width, imageHeight, height);
    var bounds := Bounds(LatLng(imageHeight * zoom, 0.0), LatLng(0.0, imageWidth * zoom));
    ProductNonNegative(imageWidth, zoom);
    ProductNonNegative(imageHeight, zoom);
    assert BoundsWidth(bounds) == imageWidth * zoom && BoundsHeight(bounds) == imageHeight * zoom;
    assert (imageWidth * zoom) * imageHeight == (imageHeight * zoom) * imageWidth;
    var recentre := if imageWidth < width && imageHeight < height then Some(Center(bounds)) else None;
    Placement(zoom, bounds, recentre)
  }

  /** The worked cases: a square image twice the viewport, one half its
      size, and images constrained by width and by height. */
  lemma FitExamples()
    ensures GetZoom(100.0, 50.0, 100.0, 50.0) == 0.5
    ensures GetZoom(50.0, 100.0, 50.0, 100.0) == 1.0 && StrictlyInside(50.0, 100.0, 50.0, 100.0)
    ensures GetZoom(200.0, 100.0, 100.0, 100.0) == 0.5
    ensures GetZoom(100.0, 100.0, 200.0, 100.0) == 0.5
  {
  }
}
