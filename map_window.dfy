/** The integer viewport logic of the map window: how many tiles cover the
    window, which tiles are requested when the view changes, mouse-wheel
    zoom, the panning flag, and which tiles are drawn.

    The floating-point Mercator projection is not modelled: what it yields
    for a view (the top-left tile and the size of a pixel in degrees)
    arrives with the client size in `ViewInputs`. */
module MapView {
  import opened NativeInt
  import opened Wrappers
  import opened Tiles

  /** The zoom range of the mouse wheel. */
  const MaxZoom: U32 := 18

  /** `WHEEL_DELTA`: the wheel rotation of one notch. */
  const WheelDelta: int := 120

  /** What `GetClientRect` and the projection yield for a view. */
  datatype ViewInputs = ViewInputs(
    clientWidth: U32, clientHeight: U32,
    topLeftX: U32, topLeftY: U32,
    pixelSizeLat: real, pixelSizeLng: real)

  /** `pixels / tileSize + 1` on `unsigned`: enough whole tiles to cover the
      pixels, and at most one more than needed. */
  function TilesAcross(pixels: U32, tileSize: U32): (n: U32)
    requires tileSize > 0
    ensures pixels / tileSize + 1 < TwoTo32 ==> n > 0 && (n - 1) * tileSize <= pixels < n * tileSize
  {
    var q := pixels / tileSize;
    assert q * tileSize <= pixels < (q + 1) * tileSize by {
      assert pixels == q * tileSize + pixels % tileSize;
    }
    AddU32(q, 1)
  }

  /** The wheel never yields a zoom outside 0..18. */
  function ClampZoom(z: int): (r: U32)
    ensures r <= MaxZoom
    ensures 0 <= z <= MaxZoom ==> r == z
    ensures z < 0 ==> r == 0
    ensures z > MaxZoom ==> r == MaxZoom
  {
    if z < 0 then 0 else if z > MaxZoom then MaxZoom else z
  }

  /** Adding a notch count to a zoom in `unsigned` and reading the sum back
      as `int` gives the exact sum. */
  lemma {:induction false} WheelSumExact(zoom: U32, d: int)
    requires zoom <= MaxZoom && -TwoTo31 / WheelDelta - 1 <= d <= TwoTo31 / WheelDelta
    ensures Int32Of(AddU32(zoom, TruncU32(d))) == zoom + d
  {
    if d < 0 {
      assert TruncU32(d) == d + TwoTo32 by {
        assert d == -1 * TwoTo32 + (d + TwoTo32);
      }
    }
  }

  /** The zoom after a wheel rotation of `delta`, computed as the handler
      does: truncating division by `WHEEL_DELTA`, an `unsigned` sum read back
      as `int`, then the clamp. From a zoom in range it is the clamped exact
      sum. */
  function WheelZoom(zoom: U32, delta: I32): (z: U32)
    ensures z <= MaxZoom
    ensures zoom <= MaxZoom ==> z == ClampZoom(zoom + DivTrunc(delta, WheelDelta))
  {
    var notches := DivTrunc(delta, WheelDelta);
    var sum := Int32Of(AddU32(zoom, TruncU32(notches)));
    if zoom <= MaxZoom then WheelSumExact(zoom, notches); ClampZoom(sum) else ClampZoom(sum)
  }

  /** Turning the wheel further never zooms out more. */
  lemma WheelZoomMonotone(zoom: U32, d1: I32, d2: I32)
    requires zoom <= MaxZoom && d1 <= d2
    ensures WheelZoom(zoom, d1) <= WheelZoom(zoom, d2)
  {
    DivTruncMonotone(d1, d2, WheelDelta);
  }

  /** One notch forward zooms in by one level, up to 18; one notch back zooms
      out by one, down to 0; less than a notch does nothing. */
  lemma WheelNotch(zoom: U32)
    requires zoom <= MaxZoom
    ensures WheelZoom(zoom, 120) == if zoom < MaxZoom then zoom + 1 else MaxZoom
    ensures WheelZoom(zoom, -120) == if zoom > 0 then zoom - 1 else 0
    ensures WheelZoom(zoom, 119) == zoom && WheelZoom(zoom, -119) == zoom
  {
  }

  /** What is drawn in one tile's rectangle. */
  datatype Cell = DrawBitmap(bitmap: Bitmap) | FillBackground

  /** The tile-choice branch of painting: the bitmap of a present Ready tile,
      the background otherwise. */
  function PaintChoice(t: Option<Tile>): (cell: Cell)
    requires t.Some? && t.value.state == Ready ==> t.value.bitmap.Some?
    ensures cell.DrawBitmap? <==> t.Some? && t.value.state == Ready
    ensures cell.DrawBitmap? ==> t.value.bitmap == Some(cell.bitmap)
  {
    if t.Some? && t.value.state == Ready then DrawBitmap(t.value.bitmap.value) else FillBackground
  }

  /** A cell draws a bitmap exactly when the cache holds a Ready tile with
      those coordinates, and the bitmap is that tile's. */
  lemma PaintedCell(tm: TileManager, c: TileCoords)
    requires tm.Valid()
    ensures var cell := PaintChoice(tm.GetTile(c));
      && (cell.DrawBitmap? <==> exists u :: u in tm.tiles && tm.tiles[u].coords == c && tm.tiles[u].state == Ready)
      && (cell.DrawBitmap? ==> exists u :: u in tm.tiles && tm.tiles[u].coords == c && tm.tiles[u].bitmap == Some(cell.bitmap))
  {
    var t := tm.GetTile(c);
    if t.None? {
      assert forall u :: u in tm.tiles ==> tm.tiles[u].coords != c;
    } else {
      assert t.value.url in tm.tiles;
      TileUrlInjective(tm.baseUrl, c, c);
      forall u | u in tm.tiles && tm.tiles[u].coords == c
        ensures u == t.value.url
      {
        assert TileUrl(tm.baseUrl, c) == u;
      }
    }
  }

  /** `after` keeps every entry of `before`: its key, its coordinates, its
      stamp and, for an entry not in `Error`, its staying out of `Error`. */
  ghost predicate Keeps(before: map<string, Tile>, after: map<string, Tile>)
  {
    && before.Keys <= after.Keys
    && forall u :: u in before ==>
         && after[u].coords == before[u].coords && after[u].created == before[u].created
         && (before[u].state != Error ==> after[u].state != Error)
  }

  lemma KeepsTransitive(a: map<string, Tile>, b: map<string, Tile>, c: map<string, Tile>)
    requires Keeps(a, b) && Keeps(b, c)
    ensures Keeps(a, c)
  {
  }

  /** Adding only on-screen tiles, and keeping the coordinates and stamps of
      the tiles already cached, leaves the off-screen entries as they were. */
  lemma FillKeepsOffScreen(before: map<string, Tile>, after: map<string, Tile>, x: U32, y: U32, width: U32, height: U32)
    requires before.Keys <= after.Keys
    requires forall u :: u in before ==> after[u].coords == before[u].coords && after[u].created == before[u].created
    requires forall u :: u in after ==> u in before || OnScreen(after[u].coords, x, y, width, height)
    ensures OffScreenKeys(after, x, y, width, height) == OffScreenKeys(before, x, y, width, height)
    ensures forall s :: s in OffScreenKeys(after, x, y, width, height) ==> after[s].created == before[s].created
  {
  }

  /** `MapWindow`'s state. */
  class MapWindow {
    /** `m_tileManager` */
    const tileManager: TileManager
    /** `m_dLat`, `m_dLng`, `m_nZoom` */
    var lat: real
    var lng: real
    var zoom: U32
    /** `m_nTopLeftX`, `m_nTopLeftY`: the tile at the top left corner */
    var topLeftX: U32
    var topLeftY: U32
    /** `m_ldPixelSizeLat`, `m_ldPixelSizeLng` */
    var pixelSizeLat: real
    var pixelSizeLng: real
    /** `m_nWidthInTiles`, `m_nHeightInTiles` */
    var widthInTiles: U32
    var heightInTiles: U32
    /** `m_bIsPanning` and the panning origin */
    var isPanning: bool
    var panningOriginX: I32
    var panningOriginY: I32
    var panningOriginLat: real
    var panningOriginLng: real

    ghost predicate Valid()
      reads this, tileManager
    {
      tileManager.Valid() && tileManager.tileSize > 0 && zoom <= MaxZoom
    }

    /** The tiles `UpdateView` fills for these inputs, with an inclusive
        bound below `UINT_MAX` on each axis (the unsigned loops stop). */
    predicate Fits(view: ViewInputs)
      reads this, tileManager
      requires tileManager.tileSize > 0
    {
      && AddU32(view.topLeftX, TilesAcross(view.clientWidth, tileManager.tileSize)) < TwoTo32 - 1
      && AddU32(view.topLeftY, TilesAcross(view.clientHeight, tileManager.tileSize)) < TwoTo32 - 1
    }

    /** Is (x, y) inside the current window's inclusive tile rectangle? */
    predicate InView(c: TileCoords)
      reads this
    {
      c.zoom == zoom && OnScreen(c, topLeftX, topLeftY, widthInTiles, heightInTiles)
    }

    constructor (baseUrl: string, tileSize: U32)
      requires tileSize > 0
      ensures Valid() && fresh(tileManager)
      ensures tileManager.baseUrl == baseUrl && tileManager.tileSize == tileSize
      ensures tileManager.tiles == map[] && tileManager.renderTarget.None? && tileManager.fetches == []
      ensures lat == 0.0 && lng == 0.0 && zoom == 1
      ensures topLeftX == 0 && topLeftY == 0 && widthInTiles == 0 && heightInTiles == 0
      ensures pixelSizeLat == 0.0 && pixelSizeLng == 0.0
      ensures !isPanning && panningOriginX == 0 && panningOriginY == 0
      ensures panningOriginLat == 0.0 && panningOriginLng == 0.0
    {
      tileManager := new TileManager(baseUrl, tileSize);
      lat, lng, zoom := 0.0, 0.0, 1;
      topLeftX, topLeftY := 0, 0;
      pixelSizeLat, pixelSizeLng := 0.0, 0.0;
      widthInTiles, heightInTiles := 0, 0;
      isPanning := false;
      panningOriginX, panningOriginY := 0, 0;
      panningOriginLat, panningOriginLng := 0.0, 0.0;
    }

    /** The integer part of `UpdateNumbers`: the window size in tiles; the
        projected top-left tile and pixel size are stored as given. */
    method UpdateNumbers(view: ViewInputs)
      requires Valid()
      modifies this
      ensures Valid()
      ensures widthInTiles == TilesAcross(view.clientWidth, tileManager.tileSize)
      ensures heightInTiles == TilesAcross(view.clientHeight, tileManager.tileSize)
      ensures topLeftX == view.topLeftX && topLeftY == view.topLeftY
      ensures pixelSizeLat == view.pixelSizeLat && pixelSizeLng == view.pixelSizeLng
      ensures lat == old(lat) && lng == old(lng) && zoom == old(zoom)
      ensures isPanning == old(isPanning) && panningOriginX == old(panningOriginX) && panningOriginY == old(panningOriginY)
      ensures panningOriginLat == old(panningOriginLat) && panningOriginLng == old(panningOriginLng)
    {
      var tileSize := tileManager.tileSize;
      widthInTiles := TilesAcross(view.clientWidth, tileSize);
      heightInTiles := TilesAcross(view.clientHeight, tileSize);
      pixelSizeLng := view.pixelSizeLng;
      pixelSizeLat := view.pixelSizeLat;
      topLeftX := view.topLeftX;
      topLeftY := view.topLeftY;
    }

    /** What `TrimTiles` on the current window did to the cache `before`, as
        seen after the window was filled: with at most `width * height`
        off-screen entries nothing was evicted; otherwise exactly
        `width * height` off-screen entries remain, and none is older than an
        evicted entry. */
    ghost predicate TrimmedFrom(before: map<string, Tile>)
      reads this, tileManager
    {
      var budget := MulU32(widthInTiles, heightInTiles);
      var after := tileManager.tiles;
      && (|OffScreenKeys(before, topLeftX, topLeftY, widthInTiles, heightInTiles)| <= budget ==> before.Keys <= after.Keys)
      && (|OffScreenKeys(before, topLeftX, topLeftY, widthInTiles, heightInTiles)| > budget ==>
            |OffScreenKeys(after, topLeftX, topLeftY, widthInTiles, heightInTiles)| == budget)
      && forall s, e :: s in OffScreenKeys(after, topLeftX, topLeftY, widthInTiles, heightInTiles) && e in before && e !in after ==>
           after[s].created >= before[e].created
    }

    /** `UpdateView`: recomputes the numbers, trims the cache to them, then
        adds every tile of the inclusive rectangle at the current zoom. */
    method UpdateView(view: ViewInputs, now: int)
      requires Valid() && Fits(view)
      modifies this, tileManager
      ensures Valid()
      ensures widthInTiles == TilesAcross(view.clientWidth, tileManager.tileSize)
      ensures heightInTiles == TilesAcross(view.clientHeight, tileManager.tileSize)
      ensures topLeftX == view.topLeftX && topLeftY == view.topLeftY
      ensures pixelSizeLat == view.pixelSizeLat && pixelSizeLng == view.pixelSizeLng
      ensures lat == old(lat) && lng == old(lng) && zoom == old(zoom)
      ensures isPanning == old(isPanning) && panningOriginX == old(panningOriginX) && panningOriginY == old(panningOriginY)
      ensures panningOriginLat == old(panningOriginLat) && panningOriginLng == old(panningOriginLng)
      ensures tileManager.renderTarget == old(tileManager.renderTarget)
      ensures forall c :: InView(c) ==> tileManager.Requested(c)
      ensures forall u :: u in old(tileManager.tiles) && OnScreen(old(tileManager.tiles)[u].coords, topLeftX, topLeftY, widthInTiles, heightInTiles) ==>
        u in tileManager.tiles
      ensures forall u :: u in tileManager.tiles ==> u in old(tileManager.tiles) || InView(tileManager.tiles[u].coords)
      ensures TrimmedFrom(old(tileManager.tiles))
    {
      UpdateNumbers(view);
      tileManager.TrimTiles(topLeftX, topLeftY, widthInTiles, heightInTiles);
      ghost var trimmed := tileManager.tiles;
      LoadRectangle(now);
      FillKeepsOffScreen(trimmed, tileManager.tiles, topLeftX, topLeftY, widthInTiles, heightInTiles);
    }

    /** The loops of `UpdateView`: adds every tile of the inclusive
        rectangle, row by row, at the current zoom. */
    method LoadRectangle(now: int)
      requires Valid()
      requires AddU32(topLeftX, widthInTiles) < TwoTo32 - 1 && AddU32(topLeftY, heightInTiles) < TwoTo32 - 1
      modifies tileManager
      ensures Valid() && tileManager.renderTarget == old(tileManager.renderTarget)
      ensures Keeps(old(tileManager.tiles), tileManager.tiles)
      ensures forall c :: InView(c) ==> tileManager.Requested(c)
      ensures forall u :: u in tileManager.tiles ==> u in old(tileManager.tiles) || InView(tileManager.tiles[u].coords)
    {
      var yEnd := AddU32(topLeftY, heightInTiles);
      var xEnd := AddU32(topLeftX, widthInTiles);
      var y: int := topLeftY;
      while y <= yEnd
        invariant topLeftY <= y && (y <= yEnd + 1 || y == topLeftY)
        invariant tileManager.Valid() && tileManager.renderTarget == old(tileManager.renderTarget)
        invariant Keeps(old(tileManager.tiles), tileManager.tiles)
        invariant forall c: TileCoords :: c.zoom == zoom && topLeftX <= c.x <= xEnd && topLeftY <= c.y < y ==> tileManager.Requested(c)
        invariant forall u :: u in tileManager.tiles ==> u in old(tileManager.tiles) || InView(tileManager.tiles[u].coords)
        decreases yEnd + 1 - y
      {
        ghost var before := tileManager.tiles;
        LoadRow(y, xEnd, now);
        KeepsTransitive(old(tileManager.tiles), before, tileManager.tiles);
        forall u | u in tileManager.tiles
          ensures u in old(tileManager.tiles) || InView(tileManager.tiles[u].coords)
        {
          if u !in before {
            var c := tileManager.tiles[u].coords;
            assert c.zoom == zoom && topLeftX <= c.x <= xEnd && c.y == y;
          }
        }
        y := y + 1;
      }
    }

    /** The inner loop of `UpdateView`: adds the tiles topLeftX..xEnd of row
        y at the current zoom. */
    method LoadRow(y: U32, xEnd: U32, now: int)
      requires Valid() && xEnd < TwoTo32 - 1
      modifies tileManager
      ensures Valid() && tileManager.renderTarget == old(tileManager.renderTarget)
      ensures Keeps(old(tileManager.tiles), tileManager.tiles)
      ensures forall c: TileCoords :: c.zoom == zoom && topLeftX <= c.x <= xEnd && c.y == y ==> tileManager.Requested(c)
      ensures forall u :: u in tileManager.tiles ==> (u in old(tileManager.tiles) ||
        (var c := tileManager.tiles[u].coords; c.zoom == zoom && topLeftX <= c.x <= xEnd && c.y == y))
    {
      var x: int := topLeftX;
      while x <= xEnd
        invariant topLeftX <= x && (x <= xEnd + 1 || x == topLeftX)
        invariant tileManager.Valid() && tileManager.renderTarget == old(tileManager.renderTarget)
        invariant Keeps(old(tileManager.tiles), tileManager.tiles)
        invariant forall c: TileCoords :: c.zoom == zoom && topLeftX <= c.x < x && c.y == y ==> tileManager.Requested(c)
        invariant forall u :: u in tileManager.tiles ==> (u in old(tileManager.tiles) ||
          (var c := tileManager.tiles[u].coords; c.zoom == zoom && topLeftX <= c.x < x && c.y == y))
        decreases xEnd + 1 - x
      {
        ghost var before := tileManager.tiles;
        var c := TileCoords(x, y, zoom);
        LoadTileAt(c, now);
        KeepsTransitive(old(tileManager.tiles), before, tileManager.tiles);
        forall d: TileCoords | d.zoom == zoom && topLeftX <= d.x <= x && d.y == y
          ensures tileManager.Requested(d)
        {
          if d.x < x {
            assert TileUrl(tileManager.baseUrl, d) in before && before[TileUrl(tileManager.baseUrl, d)].state != Error;
          }
        }
        x := x + 1;
      }
    }

    /** The body of the inner loop of `UpdateView`: `AddTile` for one tile,
        seen from the loop: the tile is cached and not in `Error` afterwards
        (a failed tile is fetched again), cached entries are kept, and a new
        entry has these coordinates. */
    method LoadTileAt(c: TileCoords, now: int)
      requires Valid()
      modifies tileManager
      ensures Valid() && tileManager.renderTarget == old(tileManager.renderTarget) && tileManager.Requested(c)
      ensures Keeps(old(tileManager.tiles), tileManager.tiles)
      ensures forall u :: u in tileManager.tiles && u !in old(tileManager.tiles) ==> tileManager.tiles[u].coords == c
    {
      var _ := tileManager.AddTile(c, now);
    }

    /** `Move`: centres the map and updates the view. */
    method Move(newLat: real, newLng: real, newZoom: U32, view: ViewInputs, now: int)
      requires Valid() && newZoom <= MaxZoom && Fits(view)
      modifies this, tileManager
      ensures Valid()
      ensures lat == newLat && lng == newLng && zoom == newZoom
      ensures isPanning == old(isPanning) && panningOriginX == old(panningOriginX) && panningOriginY == old(panningOriginY)
      ensures panningOriginLat == old(panningOriginLat) && panningOriginLng == old(panningOriginLng)
      ensures topLeftX == view.topLeftX && topLeftY == view.topLeftY
      ensures pixelSizeLat == view.pixelSizeLat && pixelSizeLng == view.pixelSizeLng
      ensures widthInTiles == TilesAcross(view.clientWidth, tileManager.tileSize)
      ensures heightInTiles == TilesAcross(view.clientHeight, tileManager.tileSize)
      ensures tileManager.renderTarget == old(tileManager.renderTarget)
      ensures forall c :: InView(c) ==> tileManager.Requested(c)
      ensures forall u :: u in old(tileManager.tiles) && OnScreen(old(tileManager.tiles)[u].coords, topLeftX, topLeftY, widthInTiles, heightInTiles) ==>
        u in tileManager.tiles
      ensures forall u :: u in tileManager.tiles ==> u in old(tileManager.tiles) || InView(tileManager.tiles[u].coords)
      ensures TrimmedFrom(old(tileManager.tiles))
    {
      lat := newLat;
      lng := newLng;
      zoom := newZoom;
      UpdateView(view, now);
    }

    /** `OnSize`: the client size has changed, so the view is updated. */
    method OnSize(view: ViewInputs, now: int)
      requires Valid() && Fits(view)
      modifies this, tileManager
      ensures Valid()
      ensures lat == old(lat) && lng == old(lng) && zoom == old(zoom)
      ensures isPanning == old(isPanning) && panningOriginX == old(panningOriginX) && panningOriginY == old(panningOriginY)
      ensures panningOriginLat == old(panningOriginLat) && panningOriginLng == old(panningOriginLng)
      ensures topLeftX == view.topLeftX && topLeftY == view.topLeftY
      ensures pixelSizeLat == view.pixelSizeLat && pixelSizeLng == view.pixelSizeLng
      ensures widthInTiles == TilesAcross(view.clientWidth, tileManager.tileSize)
      ensures heightInTiles == TilesAcross(view.clientHeight, tileManager.tileSize)
      ensures tileManager.renderTarget == old(tileManager.renderTarget)
      ensures forall c :: InView(c) ==> tileManager.Requested(c)
      ensures forall u :: u in old(tileManager.tiles) && OnScreen(old(tileManager.tiles)[u].coords, topLeftX, topLeftY, widthInTiles, heightInTiles) ==>
        u in tileManager.tiles
      ensures forall u :: u in tileManager.tiles ==> u in old(tileManager.tiles) || InView(tileManager.tiles[u].coords)
      ensures TrimmedFrom(old(tileManager.tiles))
    {
      UpdateView(view, now);
    }

    /** `OnMouseWheel`: moves to the zoom the wheel selects. */
    method OnMouseWheel(delta: I32, view: ViewInputs, now: int)
      requires Valid() && Fits(view)
      modifies this, tileManager
      ensures Valid()
      ensures zoom == ClampZoom(old(zoom) + DivTrunc(delta, WheelDelta))
      ensures lat == old(lat) && lng == old(lng)
      ensures isPanning == old(isPanning) && panningOriginX == old(panningOriginX) && panningOriginY == old(panningOriginY)
      ensures panningOriginLat == old(panningOriginLat) && panningOriginLng == old(panningOriginLng)
      ensures topLeftX == view.topLeftX && topLeftY == view.topLeftY
      ensures pixelSizeLat == view.pixelSizeLat && pixelSizeLng == view.pixelSizeLng
      ensures widthInTiles == TilesAcross(view.clientWidth, tileManager.tileSize)
      ensures heightInTiles == TilesAcross(view.clientHeight, tileManager.tileSize)
      ensures tileManager.renderTarget == old(tileManager.renderTarget)
      ensures forall c :: InView(c) ==> tileManager.Requested(c)
      ensures forall u :: u in old(tileManager.tiles) && OnScreen(old(tileManager.tiles)[u].coords, topLeftX, topLeftY, widthInTiles, heightInTiles) ==>
        u in tileManager.tiles
      ensures forall u :: u in tileManager.tiles ==> u in old(tileManager.tiles) || InView(tileManager.tiles[u].coords)
      ensures TrimmedFrom(old(tileManager.tiles))
    {
      var z := WheelZoom(zoom, delta);
      Move(lat, lng, z, view, now);
    }

    /** `OnLButtonDown`: starts panning from this point and position. */
    method OnLButtonDown(x: I32, y: I32)
      modifies this
      ensures isPanning && panningOriginX == x && panningOriginY == y
      ensures panningOriginLat == lat && panningOriginLng == lng
      ensures lat == old(lat) && lng == old(lng) && zoom == old(zoom)
      ensures topLeftX == old(topLeftX) && topLeftY == old(topLeftY)
      ensures widthInTiles == old(widthInTiles) && heightInTiles == old(heightInTiles)
      ensures pixelSizeLat == old(pixelSizeLat) && pixelSizeLng == old(pixelSizeLng)
    {
      isPanning := true;
      panningOriginX := x;
      panningOriginY := y;
      panningOriginLat := lat;
      panningOriginLng := lng;
    }

    /** `OnLButtonUp`: stops panning. */
    method OnLButtonUp()
      modifies this
      ensures !isPanning
      ensures panningOriginX == old(panningOriginX) && panningOriginY == old(panningOriginY)
      ensures panningOriginLat == old(panningOriginLat) && panningOriginLng == old(panningOriginLng)
      ensures lat == old(lat) && lng == old(lng) && zoom == old(zoom)
      ensures topLeftX == old(topLeftX) && topLeftY == old(topLeftY)
      ensures widthInTiles == old(widthInTiles) && heightInTiles == old(heightInTiles)
      ensures pixelSizeLat == old(pixelSizeLat) && pixelSizeLng == old(pixelSizeLng)
    {
      isPanning := false;
    }

    /** `OnMouseMove`: while panning, moves the map by the pointer's offset
        from the origin, in pixels times degrees per pixel; otherwise does
        nothing. */
    method OnMouseMove(x: I32, y: I32, view: ViewInputs, now: int)
      requires Valid() && (isPanning ==> Fits(view))
      modifies this, tileManager
      ensures Valid()
      ensures panningOriginX == old(panningOriginX) && panningOriginY == old(panningOriginY)
      ensures panningOriginLat == old(panningOriginLat) && panningOriginLng == old(panningOriginLng)
      ensures isPanning == old(isPanning) && tileManager.renderTarget == old(tileManager.renderTarget)
      ensures !old(isPanning) ==>
        && tileManager.tiles == old(tileManager.tiles) && tileManager.fetches == old(tileManager.fetches)
        && lat == old(lat) && lng == old(lng) && zoom == old(zoom)
        && topLeftX == old(topLeftX) && topLeftY == old(topLeftY)
        && widthInTiles == old(widthInTiles) && heightInTiles == old(heightInTiles)
        && pixelSizeLat == old(pixelSizeLat) && pixelSizeLng == old(pixelSizeLng)
      ensures old(isPanning) ==>
        && zoom == old(zoom)
        && lat == old(panningOriginLat) + (y - old(panningOriginY)) as real * old(pixelSizeLat)
        && lng == old(panningOriginLng) + (old(panningOriginX) - x) as real * old(pixelSizeLng)
        && topLeftX == view.topLeftX && topLeftY == view.topLeftY
        && pixelSizeLat == view.pixelSizeLat && pixelSizeLng == view.pixelSizeLng
        && widthInTiles == TilesAcross(view.clientWidth, tileManager.tileSize)
        && heightInTiles == TilesAcross(view.clientHeight, tileManager.tileSize)
        && (forall c :: InView(c) ==> tileManager.Requested(c))
      ensures old(isPanning) ==> TrimmedFrom(old(tileManager.tiles))
    {
      if isPanning {
        Pan(x, y, view, now);
      }
    }

    /** The panning branch of `OnMouseMove`. */
    method Pan(x: I32, y: I32, view: ViewInputs, now: int)
      requires Valid() && isPanning && Fits(view)
      modifies this, tileManager
      ensures Valid()
      ensures panningOriginX == old(panningOriginX) && panningOriginY == old(panningOriginY)
      ensures panningOriginLat == old(panningOriginLat) && panningOriginLng == old(panningOriginLng)
      ensures isPanning && tileManager.renderTarget == old(tileManager.renderTarget)
      ensures zoom == old(zoom)
      ensures lat == old(panningOriginLat) + (y - old(panningOriginY)) as real * old(pixelSizeLat)
      ensures lng == old(panningOriginLng) + (old(panningOriginX) - x) as real * old(pixelSizeLng)
      ensures topLeftX == view.topLeftX && topLeftY == view.topLeftY
      ensures pixelSizeLat == view.pixelSizeLat && pixelSizeLng == view.pixelSizeLng
      ensures widthInTiles == TilesAcross(view.clientWidth, tileManager.tileSize)
      ensures heightInTiles == TilesAcross(view.clientHeight, tileManager.tileSize)
      ensures forall c :: InView(c) ==> tileManager.Requested(c)
      ensures TrimmedFrom(old(tileManager.tiles))
    {
      var xDiff: int := panningOriginX - x;
      var yDiff: int := y - panningOriginY;
      var newLat := panningOriginLat + yDiff as real * pixelSizeLat;
      var newLng := panningOriginLng + xDiff as real * pixelSizeLng;
      assert newLat == old(panningOriginLat) + (y - old(panningOriginY)) as real * old(pixelSizeLat);
      assert newLng == old(panningOriginLng) + (old(panningOriginX) - x) as real * old(pixelSizeLng);
      Move(newLat, newLng, zoom, view, now);
    }

    /** `EnsureRenderTarget`: hands the window's render target to the cache. */
    method EnsureRenderTarget(target: RenderTarget)
      requires Valid()
      modifies tileManager
      ensures Valid()
      ensures tileManager.renderTarget == Some(target) && tileManager.fetches == old(tileManager.fetches)
      ensures old(tileManager.renderTarget) == Some(target) ==> tileManager.tiles == old(tileManager.tiles)
      ensures old(tileManager.renderTarget) != Some(target) ==> tileManager.tiles == WithoutReady(old(tileManager.tiles))
    {
      tileManager.SetRenderTarget(Some(target));
    }

    /** `InvalidateRenderTarget`: the render target is gone, and with it every
        bitmap the cache holds. */
    method InvalidateRenderTarget()
      requires Valid()
      modifies tileManager
      ensures Valid()
      ensures tileManager.renderTarget.None? && tileManager.fetches == old(tileManager.fetches)
      ensures tileManager.tiles == WithoutReady(old(tileManager.tiles))
    {
      tileManager.InvalidateRenderTarget();
    }

    /** The tile loops of `OnPaintD2D`: row y, column x of the result is what
        is drawn for tile (x + topLeftX, y + topLeftY) at the current zoom
        (`unsigned` sums). */
    method PaintTiles() returns (cells: seq<seq<Cell>>)
      requires Valid() && widthInTiles < TwoTo32 - 1 && heightInTiles < TwoTo32 - 1
      ensures |cells| == heightInTiles + 1
      ensures forall y :: 0 <= y < |cells| ==> |cells[y]| == widthInTiles + 1
      ensures forall y, x :: 0 <= y < |cells| && 0 <= x < |cells[y]| ==>
        cells[y][x] == PaintChoice(tileManager.GetTile(TileCoords(AddU32(x, topLeftX), AddU32(y, topLeftY), zoom)))
    {
      cells := [];
      var y := 0;
      while y <= heightInTiles
        invariant y <= heightInTiles + 1 && |cells| == y
        invariant forall j :: 0 <= j < y ==> |cells[j]| == widthInTiles + 1
        invariant forall j, x :: 0 <= j < y && 0 <= x < |cells[j]| ==>
          cells[j][x] == PaintChoice(tileManager.GetTile(TileCoords(AddU32(x, topLeftX), AddU32(j, topLeftY), zoom)))
      {
        var row := PaintRow(y);
        cells := cells + [row];
        y := y + 1;
      }
    }

    /** The inner tile loop of `OnPaintD2D`: the cells of row y. */
    method PaintRow(y: U32) returns (row: seq<Cell>)
      requires Valid() && widthInTiles < TwoTo32 - 1
      ensures |row| == widthInTiles + 1
      ensures forall i :: 0 <= i < |row| ==>
        row[i] == PaintChoice(tileManager.GetTile(TileCoords(AddU32(i, topLeftX), AddU32(y, topLeftY), zoom)))
    {
      row := [];
      var x := 0;
      while x <= widthInTiles
        invariant x <= widthInTiles + 1 && |row| == x
        invariant forall i :: 0 <= i < x ==>
          row[i] == PaintChoice(tileManager.GetTile(TileCoords(AddU32(i, topLeftX), AddU32(y, topLeftY), zoom)))
      {
        var tile := tileManager.GetTile(TileCoords(AddU32(x, topLeftX), AddU32(y, topLeftY), zoom));
        row := row + [PaintChoice(tile)];
        x := x + 1;
      }
    }
  }
}
