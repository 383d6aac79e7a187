/** The tile cache: `TileManager` with its `Tile` entries (TileManager.h and
    TileManager.cpp). A tile is addressed by its slippy-map coordinates, keyed
    in the cache by the URL it is fetched from, and moves through the states
    Loading, Ready and Error. */
module Tiles {
  import opened NativeInt
  import opened Wrappers
  import Decimal

  /** `TileState`; `Code` is the enumerator's value. */
  datatype TileState = Loading | Ready | Error {
    function Code(): (n: nat)
      ensures n <= 2
    {
      match this
      case Loading => 0
      case Ready => 1
      case Error => 2
    }
  }

  /** The enumerator with value n, if there is one. */
  function StateOfCode(n: int): (s: Option<TileState>)
    ensures s.Some? <==> 0 <= n <= 2
    ensures s.Some? ==> s.value.Code() == n
  {
    if n == 0 then Some(Loading) else if n == 1 then Some(Ready) else if n == 2 then Some(Error) else None
  }

  /** The three states have three different values. */
  lemma StateCodesDistinct(s: TileState, t: TileState)
    ensures s.Code() == t.Code() ==> s == t
  {
  }

  /** A Direct2D bitmap and a Direct2D render target, known only by identity. */
  type Bitmap = nat
  type RenderTarget = nat

  datatype TileCoords = TileCoords(x: U32, y: U32, zoom: U32)

  /** One cache entry. `bitmap` is the decoded image, present only for a Ready
      tile; `created` is the timestamp taken when the entry was constructed. */
  datatype Tile = Tile(coords: TileCoords, url: string, state: TileState, bitmap: Option<Bitmap>, created: int) {
    function X(): (x: U32) { coords.x }
    function Y(): (y: U32) { coords.y }
    function Zoom(): (z: U32) { coords.zoom }
  }

  /** `Tile::Tile`: a Loading tile without a bitmap, stamped with `now`. */
  function NewTile(coords: TileCoords, url: string, now: int): (t: Tile)
    ensures t.X() == coords.x && t.Y() == coords.y && t.Zoom() == coords.zoom
    ensures t.url == url && t.state == Loading && t.bitmap.None? && t.created == now
  {
    Tile(coords, url, Loading, None, now)
  }

  /** `GetTileURL`: `{base}/{zoom}/{x}/{y}.png`. */
  function TileUrl(base: string, c: TileCoords): (u: string) {
    base + "/" + Decimal.Format(c.zoom) + "/" + Decimal.Format(c.x) + "/" + Decimal.Format(c.y) + ".png"
  }

  /** A tile URL is the base URL, a slash, and a path ending in `.png`. */
  lemma TileUrlShape(base: string, c: TileCoords)
    ensures var u := TileUrl(base, c);
      |u| > |base| + 4 && u[..|base|] == base && u[|base|] == '/' && u[|u| - 4..] == ".png"
  {
  }

  /** A digit string followed by a non-digit splits in only one way. */
  lemma {:induction false} SplitAfterDigits(a: string, b: string, c: string, d: string)
    requires Decimal.AllDigits(a) && Decimal.AllDigits(c)
    requires |b| > 0 && |d| > 0 && !Decimal.IsDigit(b[0]) && !Decimal.IsDigit(d[0])
    requires a + b == c + d
    ensures a == c && b == d
  {
    assert a == (a + b)[..|a|] && c == (c + d)[..|c|];
    assert b == (a + b)[|a|..] && d == (c + d)[|c|..];
  }

  /** Equal concatenations with equal first parts have equal second parts. */
  lemma DropPrefix(p: string, a: string, b: string)
    requires p + a == p + b
    ensures a == b
  {
    assert a == (p + a)[|p|..] && b == (p + b)[|p|..];
  }

  /** The part of a tile URL after the base. */
  function TilePath(c: TileCoords): (p: string) {
    "/" + (Decimal.Format(c.zoom) + ("/" + (Decimal.Format(c.x) + ("/" + (Decimal.Format(c.y) + ".png")))))
  }

  lemma TileUrlSplits(base: string, c: TileCoords)
    ensures TileUrl(base, c) == base + TilePath(c)
  {
  }

  lemma {:induction false} TilePathInjective(c1: TileCoords, c2: TileCoords)
    requires TilePath(c1) == TilePath(c2)
    ensures c1 == c2
  {
    var z1, x1, y1 := Decimal.Format(c1.zoom), Decimal.Format(c1.x), Decimal.Format(c1.y);
    var z2, x2, y2 := Decimal.Format(c2.zoom), Decimal.Format(c2.x), Decimal.Format(c2.y);
    var w1, w2 := "/" + (y1 + ".png"), "/" + (y2 + ".png");
    var v1, v2 := "/" + (x1 + w1), "/" + (x2 + w2);
    DropPrefix("/", z1 + v1, z2 + v2);
    SplitAfterDigits(z1, v1, z2, v2);
    DropPrefix("/", x1 + w1, x2 + w2);
    SplitAfterDigits(x1, w1, x2, w2);
    DropPrefix("/", y1 + ".png", y2 + ".png");
    SplitAfterDigits(y1, ".png", y2, ".png");
    Decimal.FormatInjective(c1.zoom, c2.zoom);
    Decimal.FormatInjective(c1.x, c2.x);
    Decimal.FormatInjective(c1.y, c2.y);
  }

  /** Distinct coordinates give distinct URLs for one base URL, so keying the
      cache by URL keeps at most one entry per tile. */
  lemma TileUrlInjective(base: string, c1: TileCoords, c2: TileCoords)
    ensures TileUrl(base, c1) == TileUrl(base, c2) ==> c1 == c2
  {
    if TileUrl(base, c1) == TileUrl(base, c2) {
      TileUrlSplits(base, c1);
      TileUrlSplits(base, c2);
      DropPrefix(base, TilePath(c1), TilePath(c2));
      TilePathInjective(c1, c2);
    }
  }

  /** The URL of tile x=4, y=2 at zoom 3 under a base without trailing slash. */
  lemma TileUrlExample()
    ensures TileUrl("https://tile.example", TileCoords(4, 2, 3)) == "https://tile.example/3/4/2.png"
  {
  }

  /** The cache invariant: an entry is stored under its own URL, that URL is
      the one its coordinates give, and it holds a bitmap exactly when Ready. */
  predicate EntryValid(base: string, u: string, t: Tile) {
    t.url == u && TileUrl(base, t.coords) == u && (t.bitmap.Some? <==> t.state == Ready)
  }

  predicate CacheValid(base: string, m: map<string, Tile>) {
    forall u :: u in m ==> EntryValid(base, u, m[u])
  }

  /** Storing a valid entry keeps the cache valid. */
  lemma StoreKeepsValid(base: string, m: map<string, Tile>, u: string, t: Tile)
    requires CacheValid(base, m) && EntryValid(base, u, t)
    ensures CacheValid(base, m[u := t])
  {
  }

  /** Storing an entry that has the coordinates and stamp of the one it
      replaces, if any, keeps those of every entry. */
  lemma StoreKeepsPlaces(m: map<string, Tile>, u: string, t: Tile)
    requires u in m ==> t.coords == m[u].coords && t.created == m[u].created
    ensures forall v :: v in m ==> m[u := t][v].coords == m[v].coords && m[u := t][v].created == m[v].created
  {
  }

  /** In a valid cache two entries with the same coordinates are one entry:
      the cache holds at most one tile per tile position. */
  lemma OneEntryPerTile(base: string, m: map<string, Tile>, u: string, v: string)
    requires CacheValid(base, m) && u in m && v in m
    ensures m[u].coords == m[v].coords <==> u == v
  {
  }

  /** The window test of `TrimTiles`: both bounds inclusive, unsigned sums,
      and only x and y compared (the zoom level is not). */
  predicate OnScreen(c: TileCoords, x: U32, y: U32, width: U32, height: U32) {
    x <= c.x <= AddU32(x, width) && y <= c.y <= AddU32(y, height)
  }

  /** The window test is the inclusive rectangle when the unsigned sums do
      not wrap, and rejects every tile on an axis whose sum wraps; the zoom
      level never matters. */
  lemma OnScreenMeans(c: TileCoords, x: U32, y: U32, width: U32, height: U32, z: U32)
    ensures OnScreen(c.(zoom := z), x, y, width, height) == OnScreen(c, x, y, width, height)
    ensures x + width < TwoTo32 && y + height < TwoTo32 ==>
      (OnScreen(c, x, y, width, height) <==> x <= c.x <= x + width && y <= c.y <= y + height)
    ensures x + width >= TwoTo32 || y + height >= TwoTo32 ==> !OnScreen(c, x, y, width, height)
  {
  }

  /** Keys of the entries outside the window. */
  function OffScreenKeys(m: map<string, Tile>, x: U32, y: U32, width: U32, height: U32): (keys: set<string>) {
    set u | u in m && !OnScreen(m[u].coords, x, y, width, height)
  }

  predicate Distinct(s: seq<string>) {
    forall i, j :: 0 <= i < j < |s| ==> s[i] != s[j]
  }

  function Elems(s: seq<string>): (e: set<string>) {
    set v | v in s
  }

  /** The elements of a non-empty sequence: its head and those of its tail. */
  lemma ElemsCons(s: seq<string>)
    requires |s| > 0
    ensures Elems(s) == {s[0]} + Elems(s[1..])
  {
    assert s == [s[0]] + s[1..];
  }

  /** The tail of a sequence without repetitions has none either, and does
      not contain the head. */
  lemma DistinctTail(s: seq<string>)
    requires Distinct(s) && |s| > 0
    ensures Distinct(s[1..]) && s[0] !in Elems(s[1..])
  {
    forall i, j | 0 <= i < j < |s| - 1 ensures s[1..][i] != s[1..][j] {
      assert s[1..][i] == s[i + 1] && s[1..][j] == s[j + 1];
    }
  }

  /** A sequence without repetitions has as many elements as its set. */
  lemma {:induction false} DistinctCard(s: seq<string>)
    requires Distinct(s)
    ensures |Elems(s)| == |s|
  {
    if |s| > 0 {
      DistinctTail(s);
      DistinctCard(s[1..]);
      ElemsCons(s);
    }
  }

  /** Every key is in `m`, and the sequence runs from the newest entry to the
      oldest: the order `TrimTiles` sorts its candidates into. */
  predicate NewestFirst(m: map<string, Tile>, r: seq<string>) {
    && (forall i :: 0 <= i < |r| ==> r[i] in m)
    && (forall i, j :: 0 <= i < j < |r| ==> m[r[i]].created >= m[r[j]].created)
  }

  /** Inserting c just before the first strictly older entry keeps the
      order; c not yet present keeps the sequence free of repetitions. */
  lemma InsertNewestFirst(m: map<string, Tile>, r: seq<string>, k: nat, c: string)
    requires NewestFirst(m, r) && c in m && k <= |r|
    requires forall i :: 0 <= i < k ==> m[r[i]].created >= m[c].created
    requires k < |r| ==> m[r[k]].created < m[c].created
    ensures NewestFirst(m, r[..k] + [c] + r[k..])
    ensures Distinct(r) && c !in r ==> Distinct(r[..k] + [c] + r[k..])
  {
    var r' := r[..k] + [c] + r[k..];
    assert forall i :: 0 <= i < |r'| ==> r'[i] == if i < k then r[i] else if i == k then c else r[i - 1];
    forall i, j | 0 <= i < j < |r'|
      ensures m[r'[i]].created >= m[r'[j]].created
    {
      if i == k {
        assert m[r[k]].created >= m[r[j - 1]].created || j - 1 == k;
      }
    }
  }

  /** Where `SortNewestFirst` inserts c: after every entry at least as new. */
  method InsertionPoint(m: map<string, Tile>, r: seq<string>, c: string) returns (k: nat)
    requires NewestFirst(m, r) && c in m
    ensures k <= |r|
    ensures forall i :: 0 <= i < k ==> m[r[i]].created >= m[c].created
    ensures k < |r| ==> m[r[k]].created < m[c].created
  {
    k := 0;
    while k < |r| && m[r[k]].created >= m[c].created
      invariant k <= |r|
      invariant forall i :: 0 <= i < k ==> m[r[i]].created >= m[c].created
    {
      k := k + 1;
    }
  }

  /** In a sequence without repetitions, an element does not occur before
      its own position. */
  lemma NotEarlier(s: seq<string>, n: nat)
    requires Distinct(s) && n < |s|
    ensures s[n] !in multiset(s[..n])
  {
  }

  /** Two orderings of the same elements have the same element set. */
  lemma SameElems(a: seq<string>, b: seq<string>)
    requires multiset(a) == multiset(b)
    ensures Elems(a) == Elems(b)
  {
    forall v ensures v in a <==> v in b {
      assert v in a <==> v in multiset(a);
      assert v in b <==> v in multiset(b);
    }
  }

  /** Inserting c anywhere adds one c to the multiset. */
  lemma InsertMultiset(r: seq<string>, k: nat, c: string)
    requires k <= |r|
    ensures multiset(r[..k] + [c] + r[k..]) == multiset(r) + multiset{c}
  {
    assert r == r[..k] + r[k..];
  }

  /** One step of `SortNewestFirst`: inserting the next candidate at its
      insertion point keeps the loop's invariants for one more element. */
  lemma InsertStep(m: map<string, Tile>, s: seq<string>, n: nat, r: seq<string>, k: nat)
    requires n < |s| && s[n] in m
    requires multiset(r) == multiset(s[..n]) && NewestFirst(m, r) && (Distinct(s) ==> Distinct(r))
    requires k <= |r| && (forall i :: 0 <= i < k ==> m[r[i]].created >= m[s[n]].created)
    requires k < |r| ==> m[r[k]].created < m[s[n]].created
    ensures var r' := r[..k] + [s[n]] + r[k..];
      && multiset(r') == multiset(s[..n + 1])
      && NewestFirst(m, r')
      && (Distinct(s) ==> Distinct(r'))
  {
    var c := s[n];
    if Distinct(s) {
      NotEarlier(s, n);
    }
    InsertNewestFirst(m, r, k, c);
    InsertMultiset(r, k, c);
    assert s[..n + 1] == s[..n] + [c];
  }

  /** `std::sort` of the candidates with "newer first": a permutation of the
      input, ordered by decreasing creation time. */
  method SortNewestFirst(m: map<string, Tile>, s: seq<string>) returns (r: seq<string>)
    requires forall i :: 0 <= i < |s| ==> s[i] in m
    ensures multiset(r) == multiset(s)
    ensures NewestFirst(m, r)
    ensures Distinct(s) ==> Distinct(r)
  {
    r := [];
    var n := 0;
    while n < |s|
      invariant n <= |s|
      invariant multiset(r) == multiset(s[..n])
      invariant NewestFirst(m, r)
      invariant Distinct(s) ==> Distinct(r)
    {
      var c := s[n];
      var k := InsertionPoint(m, r, c);
      InsertStep(m, s, n, r, k);
      r := r[..k] + [c] + r[k..];
      n := n + 1;
    }
    assert s[..n] == s;
  }

  /** The first loop of `TrimTiles`: every key of an entry outside the window,
      each once, in the map's (unspecified) iteration order. */
  method CollectOffScreen(m: map<string, Tile>, x: U32, y: U32, width: U32, height: U32)
    returns (cands: seq<string>)
    ensures Distinct(cands)
    ensures forall i :: 0 <= i < |cands| ==> cands[i] in m
    ensures Elems(cands) == OffScreenKeys(m, x, y, width, height)
  {
    cands := [];
    var rest := m.Keys;
    while rest != {}
      invariant rest <= m.Keys
      invariant Distinct(cands)
      invariant forall v :: v in cands <==> v in m && v !in rest && !OnScreen(m[v].coords, x, y, width, height)
      decreases rest
    {
      var u :| u in rest;
      if !OnScreen(m[u].coords, x, y, width, height) {
        assert u !in cands;
        cands := cands + [u];
      }
      rest := rest - {u};
    }
  }

  /** A sequence without repetitions splits into two disjoint sets. */
  lemma SplitElems(r: seq<string>, keep: nat)
    requires Distinct(r) && keep <= |r|
    ensures Elems(r) == Elems(r[..keep]) + Elems(r[keep..])
    ensures Elems(r[..keep]) !! Elems(r[keep..])
    ensures Distinct(r[..keep])
  {
    assert r == r[..keep] + r[keep..];
  }

  /** Erasing keys from the map erases them from the off-screen set. */
  lemma OffScreenAfterErase(m: map<string, Tile>, gone: set<string>, x: U32, y: U32, width: U32, height: U32)
    ensures OffScreenKeys(m - gone, x, y, width, height) == OffScreenKeys(m, x, y, width, height) - gone
  {
  }

  /** In a newest-first sequence every entry of the first `keep` is at least
      as new as every entry after them. */
  lemma PrefixNewer(m: map<string, Tile>, r: seq<string>, keep: nat, s: string, e: string)
    requires NewestFirst(m, r) && keep <= |r|
    requires s in Elems(r[..keep]) && e in Elems(r[keep..])
    ensures m[s].created >= m[e].created
  {
    var i :| 0 <= i < keep && r[..keep][i] == s;
    var j :| 0 <= j < |r| - keep && r[keep..][j] == e;
    assert r[i] == s && r[keep + j] == e;
  }

  /** What erasing the candidates after the first `keep` leaves: exactly
      `keep` entries outside the window, none older than an evicted one, and
      every entry inside the window. */
  lemma TrimOutcome(m: map<string, Tile>, r: seq<string>, keep: nat, x: U32, y: U32, width: U32, height: U32)
    requires Distinct(r) && NewestFirst(m, r)
    requires Elems(r) == OffScreenKeys(m, x, y, width, height)
    requires keep < |r|
    ensures var m' := m - Elems(r[keep..]);
      && |OffScreenKeys(m', x, y, width, height)| == keep
      && (forall u :: u in m && OnScreen(m[u].coords, x, y, width, height) ==> u in m')
      && (forall s, e :: s in OffScreenKeys(m', x, y, width, height) && e in m && e !in m' ==>
            m'[s].created >= m[e].created)
  {
    var gone := Elems(r[keep..]);
    var m' := m - gone;
    SplitElems(r, keep);
    OffScreenAfterErase(m, gone, x, y, width, height);
    assert OffScreenKeys(m', x, y, width, height) == Elems(r[..keep]);
    DistinctCard(r[..keep]);
    forall u | u in m && OnScreen(m[u].coords, x, y, width, height)
      ensures u in m'
    {
      assert u !in Elems(r);
    }
    forall s, e | s in OffScreenKeys(m', x, y, width, height) && e in m && e !in m'
      ensures m'[s].created >= m[e].created
    {
      PrefixNewer(m, r, keep, s, e);
    }
  }

  /** The erase loop of `TrimTiles`: removes the keys from position `keep` on. */
  method EraseFrom(m: map<string, Tile>, r: seq<string>, keep: nat) returns (m': map<string, Tile>)
    requires keep <= |r|
    ensures m' == m - Elems(r[keep..])
  {
    m' := m;
    var p := keep;
    while p < |r|
      invariant keep <= p <= |r|
      invariant m' == m - Elems(r[keep..p])
    {
      assert r[keep..p + 1] == r[keep..p] + [r[p]];
      m' := m' - {r[p]};
      p := p + 1;
    }
    assert r[keep..p] == r[keep..];
  }

  /** `std::erase_if(m_mapTiles, state == TS_READY)`. */
  function WithoutReady(m: map<string, Tile>): (m': map<string, Tile>)
    ensures forall u :: u in m' <==> u in m && m[u].state != Ready
    ensures forall u :: u in m' ==> m'[u] == m[u]
  {
    map u | u in m && m[u].state != Ready :: m[u]
  }

  /** The state change of `LoadTileCallback` for a Loading tile, given whether
      a response buffer arrived, the render target at that moment, and whether
      WIC and Direct2D turned the buffer into a bitmap. */
  function Completed(t: Tile, hasBuffer: bool, target: Option<RenderTarget>, decoded: Option<Bitmap>): (t': Tile)
    requires t.state == Loading
    ensures t'.coords == t.coords && t'.url == t.url && t'.created == t.created
    ensures t'.state != Loading
    ensures t'.state == Ready <==> hasBuffer && target.Some? && decoded.Some?
    ensures t'.state == Ready ==> t'.bitmap == decoded
    ensures t'.state == Error ==> t'.bitmap == t.bitmap
  {
    if hasBuffer && target.Some? && decoded.Some? then t.(state := Ready, bitmap := decoded) else t.(state := Error)
  }

  class TileManager {
    /** `m_strBaseUrl` (no trailing slash) and `m_nTileSize` (pixels). */
    const baseUrl: string
    const tileSize: U32
    /** `m_mapTiles`: URL -> tile. */
    var tiles: map<string, Tile>
    /** `m_pRenderTarget`; None is a null pointer. */
    var renderTarget: Option<RenderTarget>
    /** The URLs handed to `HttpClient::Get`, oldest first: one per fetch issued. */
    var fetches: seq<string>

    ghost predicate Valid()
      reads this
    {
      CacheValid(baseUrl, tiles)
    }

    constructor (baseUrl: string, tileSize: U32)
      ensures Valid()
      ensures this.baseUrl == baseUrl && this.tileSize == tileSize
      ensures tiles == map[] && renderTarget.None? && fetches == []
    {
      this.baseUrl := baseUrl;
      this.tileSize := tileSize;
      tiles := map[];
      renderTarget := None;
      fetches := [];
    }

    /** Is there an entry for these coordinates that is being fetched or has
        arrived, that is, one not left in `Error`? */
    predicate Requested(c: TileCoords)
      reads this
    {
      TileUrl(baseUrl, c) in tiles && tiles[TileUrl(baseUrl, c)].state != Error
    }

    /** `GetTile`: the entry with these coordinates, or null when there is none.
        It does not change the cache (a function cannot). */
    function GetTile(c: TileCoords): (r: Option<Tile>)
      reads this
      requires Valid()
      ensures r.Some? ==> r.value.coords == c && r.value.url in tiles && tiles[r.value.url] == r.value
      ensures r.None? <==> forall u :: u in tiles ==> tiles[u].coords != c
    {
      var u := TileUrl(baseUrl, c);
      if u in tiles then
        TileUrlInjective(baseUrl, tiles[u].coords, c);
        Some(tiles[u])
      else
        None
    }

    /** `SetRenderTarget`: a missing or different target invalidates first. */
    method SetRenderTarget(target: Option<RenderTarget>)
      requires Valid()
      modifies this
      ensures Valid() && fetches == old(fetches)
      ensures old(renderTarget).None? || old(renderTarget) != target ==>
        tiles == WithoutReady(old(tiles)) && renderTarget == target
      ensures old(renderTarget).Some? && old(renderTarget) == target ==>
        tiles == old(tiles) && renderTarget == old(renderTarget)
    {
      if renderTarget.None? || renderTarget != target {
        InvalidateRenderTarget();
        renderTarget := target;
      }
    }

    /** `InvalidateRenderTarget`: drops every Ready tile (their bitmaps belong
        to the old target) and forgets the target. */
    method InvalidateRenderTarget()
      requires Valid()
      modifies this
      ensures Valid() && fetches == old(fetches)
      ensures tiles == WithoutReady(old(tiles))
      ensures renderTarget.None?
    {
      tiles := WithoutReady(tiles);
      renderTarget := None;
    }

    /** `LoadTile`: marks the entry Loading and starts its download. */
    method LoadTile(u: string)
      requires Valid() && u in tiles && tiles[u].state != Ready
      modifies this
      ensures Valid() && renderTarget == old(renderTarget)
      ensures tiles == old(tiles)[u := old(tiles)[u].(state := Loading)]
      ensures fetches == old(fetches) + [u]
    {
      tiles := tiles[u := tiles[u].(state := Loading)];
      fetches := fetches + [tiles[u].url];
    }

    /** `AddTile`: creates and fetches an absent tile, refetches a tile in
        Error, and leaves a Loading or Ready tile alone. */
    method AddTile(c: TileCoords, now: int) returns (t: Tile)
      requires Valid()
      modifies this
      ensures Valid() && renderTarget == old(renderTarget)
      ensures var u := TileUrl(baseUrl, c);
        && u in tiles && t == tiles[u] && t.coords == c
        && (u !in old(tiles) ==>
              tiles == old(tiles)[u := NewTile(c, u, now)] && fetches == old(fetches) + [u])
        && (u in old(tiles) && old(tiles)[u].state == Error ==>
              tiles == old(tiles)[u := old(tiles)[u].(state := Loading)] && fetches == old(fetches) + [u])
        && (u in old(tiles) && old(tiles)[u].state != Error ==>
              tiles == old(tiles) && fetches == old(fetches))
      ensures old(tiles).Keys <= tiles.Keys && tiles.Keys <= old(tiles).Keys + {TileUrl(baseUrl, c)}
      ensures forall u :: u in old(tiles) ==> tiles[u].coords == old(tiles)[u].coords && tiles[u].created == old(tiles)[u].created
    {
      var url := TileUrl(baseUrl, c);
      var inserted := url !in tiles;
      if inserted {
        StoreKeepsValid(baseUrl, tiles, url, NewTile(c, url, now));
        StoreKeepsPlaces(tiles, url, NewTile(c, url, now));
        tiles := tiles[url := NewTile(c, url, now)];
      }
      ghost var stored := tiles;
      if inserted || tiles[url].state == Error {
        StoreKeepsPlaces(tiles, url, tiles[url].(state := Loading));
        LoadTile(url);
      }
      t := tiles[url];
      TileUrlInjective(baseUrl, stored[url].coords, c);
      assert t.coords == stored[url].coords;
    }

    /** `TrimTiles`: evicts entries outside the window (x..x+width,
        y..y+height, bounds inclusive), keeping the `width * height` newest of
        them. */
    method TrimTiles(x: U32, y: U32, width: U32, height: U32)
      requires Valid()
      modifies this
      ensures Valid() && renderTarget == old(renderTarget) && fetches == old(fetches)
      ensures tiles.Keys <= old(tiles).Keys
      ensures forall u :: u in tiles ==> tiles[u] == old(tiles)[u]
      ensures forall u :: u in old(tiles) && OnScreen(old(tiles)[u].coords, x, y, width, height) ==> u in tiles
      ensures |OffScreenKeys(old(tiles), x, y, width, height)| <= MulU32(width, height) ==> tiles == old(tiles)
      ensures |OffScreenKeys(old(tiles), x, y, width, height)| > MulU32(width, height) ==>
        && |OffScreenKeys(tiles, x, y, width, height)| == MulU32(width, height)
        && forall s, e :: s in OffScreenKeys(tiles, x, y, width, height) && e in old(tiles) && e !in tiles ==>
             tiles[s].created >= old(tiles)[e].created
    {
      var candidates := CollectOffScreen(tiles, x, y, width, height);
      var sorted := SortNewestFirst(tiles, candidates);
      SameElems(sorted, candidates);
      candidates := sorted;
      DistinctCard(candidates);
      ghost var off := OffScreenKeys(tiles, x, y, width, height);
      assert |off| == |candidates|;
      var keep := MulU32(width, height);
      if |candidates| > keep {
        TrimOutcome(tiles, candidates, keep, x, y, width, height);
        var m := EraseFrom(tiles, candidates, keep);
        tiles := m;
      }
    }

    /** `LoadTileCallback`, run when the download of a Loading tile finishes:
        `hasBuffer` is whether a response body arrived, `decoded` the bitmap
        WIC and Direct2D made from it (None when a step failed). Returns
        whether the loaded-tile callback fired. */
    method LoadTileCallback(u: string, status: int, hasBuffer: bool, decoded: Option<Bitmap>)
      returns (notified: bool)
      requires Valid() && u in tiles && tiles[u].state == Loading
      modifies this
      ensures Valid() && renderTarget == old(renderTarget) && fetches == old(fetches)
      ensures tiles == old(tiles)[u := Completed(old(tiles)[u], hasBuffer, old(renderTarget), decoded)]
      ensures notified <==> tiles[u].state == Ready
    {
      notified := false;
      if hasBuffer {
        if renderTarget.None? {
          // no render target: the buffer is discarded
          tiles := tiles[u := tiles[u].(state := Error)];
          return;
        }
        // the WIC decode and bitmap creation are `decoded`
        if decoded.Some? {
          tiles := tiles[u := tiles[u].(state := Ready, bitmap := decoded)];
          notified := true;
        } else {
          tiles := tiles[u := tiles[u].(state := Error)];
        }
      } else {
        tiles := tiles[u := tiles[u].(state := Error)];
      }
    }
  }
}
