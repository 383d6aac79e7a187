# MapViewer core in Dafny

MapViewer is a Win32 slippy-map viewer. It downloads square PNG tiles over
HTTP, decodes them into Direct2D bitmaps and draws them. This project models
its three sequential pieces of logic and proves properties about them.

- **Tile cache** (`TileManager`, `Tile`; module `Tiles`, file `tiles.dfy`).
  - The cache is a map from tile URL (`{base}/{zoom}/{x}/{y}.png`) to a tile.
  - Each tile is Loading, Ready or Error, and a Ready tile holds a bitmap.
  - `AddTile` creates a missing tile and refetches one in Error.
  - `GetTile` looks a tile up.
  - `TrimTiles` evicts tiles outside the window and keeps the `width * height` newest of them.
  - Changing or losing the render target drops every Ready tile.
  - The download callback moves a tile from Loading to Ready or Error.
  - `TileManager` is a class. Its map, render target and list of issued fetches are fields, and its methods update them.
  - The `std::sort` and the erase loop of `TrimTiles` are loops proved against specification predicates.
- **HTTP request bookkeeping** (`HttpClient`; module `Http`, file `http.dfy`).
  - The client keeps a list of in-flight request records.
  - `Get` appends a record, and `Terminate` finds a record by handle and removes it.
  - The status handler reacts to WinInet notifications. It checks the HTTP status, sizes the buffer from Content-Length, resumes partial reads with offset arithmetic, and reports the outcome once before the record is removed.
  - Records and the client are classes.
  - The handler's effect on one record is also a function, `OnStatus`, that the methods are proved against. The lemmas about the status encoding and the buffer invariant are stated on that function.
- **Viewport** (`MapWindow`; module `MapView`, file `map_window.dfy`).
  - The window size in tiles is `pixels / tileSize + 1`.
  - `UpdateView` trims the cache and then adds every tile of the inclusive window rectangle at the current zoom.
  - The mouse wheel zooms, clamped to 0..18.
  - Panning is a flag set and cleared by the left mouse button.
  - Painting draws a tile's bitmap only when the tile is present and Ready.

Support modules:
- `NativeInt` (`native_int.dfy`): the C++ fixed-width arithmetic used here. It covers 32-bit unsigned wrap-around, `(int)` and `(DWORD)` casts, `int` negation and truncating division.
- `Decimal` (`decimal.dfy`): decimal rendering of an `unsigned`, as `std::format` writes it.
- `Wrappers` (`wrappers.dfy`): `Option`, which stands for nullable pointers.

WinInet, WIC and Direct2D are not modelled. What their calls return arrives as parameters:
- `WinInetAnswers`: the status code, the Content-Length, the bytes read, whether a read completed at once, and the last error.
- `decoded`: the bitmap that decoding produced, if any.
- `ViewInputs`: the client size, plus the top-left tile and pixel size that the projection produces.

Pointers into the response buffer are offsets from its start. The creation time of a tile is a `now` parameter. One `now` serves a whole `UpdateView` pass, so the tiles one pass creates have equal stamps, whereas the source reads the clock in each `Tile` constructor (TileManager.cpp:172-178) and may give them increasing stamps; the `TrimTiles` contract holds for any stamps.

## Model

| member | source | states |
|---|---|---|
| NativeInt.AddU32 | TileManager.cpp:69-70 | `unsigned` addition: the exact sum when it fits, otherwise the sum minus 2^32, which is smaller than the first operand |
| NativeInt.MulU32 | TileManager.cpp:80 | `unsigned` multiplication: the exact product when it fits in 32 bits, and in every case a value congruent to the product modulo 2^32 |
| NativeInt.Int32Of | HttpClient.cpp:92 | a `DWORD` read as `int`: unchanged below 2^31, otherwise negative and 2^32 less |
| NativeInt.NegI32 | HttpClient.cpp:145 | `-x` on `int`: the value that adds to x to a multiple of 2^32 (two's-complement negation), which is -x whenever -x is an `int` |
| NativeInt.TruncU32 | HttpClient.cpp:120 | the `(DWORD)` cast of a `size_t` difference keeps any value already in 0..2^32-1, and in every case gives a value congruent to the difference modulo 2^32 |
| NativeInt.DivTrunc | MapWindow.cpp:138 | C++ `int` division by a positive divisor: the quotient truncated toward zero, bounded above and below by the dividend |
| NativeInt.DivBounds | MapWindow.cpp:138 | Euclidean division of a natural number by a positive divisor brackets it between consecutive multiples of the divisor |
| NativeInt.DivTruncMonotone | MapWindow.cpp:138 | truncating division is monotone in the dividend |
| Decimal.Format | TileManager.cpp:38 | the decimal rendering of a number is a non-empty digit string without leading zeros (it starts with `0` only for 0), one digit long exactly for numbers below 10 |
| Decimal.ParseFormat | TileManager.cpp:38 | reading a rendering back as a number gives the number again |
| Decimal.FormatInjective | TileManager.cpp:38 | different numbers have different renderings |
| Tiles.TileState.Code | TileManager.h:67-72 | each tile state's enumerator value is in 0..2 |
| Tiles.StateOfCode | TileManager.h:67-72 | exactly the values 0, 1 and 2 name a state (Loading, Ready, Error), and that state's value is the number |
| Tiles.StateCodesDistinct | TileManager.h:67-72 | the three states have three different values |
| Tiles.NewTile | TileManager.cpp:172-178 | a new tile keeps its coordinates (returned by `X`, `Y`, `Zoom`) and URL, is Loading, has no bitmap, and is stamped with the given time |
| Tiles.TileUrlShape | TileManager.cpp:36-39 | a tile URL starts with the base URL followed by `/` and ends in `.png`; with `TileUrlInjective`, different coordinates give different URLs |
| Tiles.TileUrlInjective | TileManager.cpp:36-39 | for one base URL, equal tile URLs imply equal coordinates |
| Tiles.TileUrlExample | TileManager.h:33-34 | tile x=4, y=2, zoom 3 under `https://tile.example` has URL `https://tile.example/3/4/2.png`: zoom, x and y in that order |
| Tiles.StoreKeepsValid | TileManager.cpp:47 | storing an entry under its own URL keeps the cache invariant (key = URL of its coordinates, bitmap exactly when Ready) |
| Tiles.StoreKeepsPlaces | TileManager.cpp:47 | storing an entry with the coordinates and stamp of the one it replaces keeps those of every entry |
| Tiles.OneEntryPerTile | TileManager.h:56-57 | in a valid cache, two entries have the same coordinates exactly when they are the same entry |
| Tiles.OnScreenMeans | TileManager.cpp:69-70 | the window test ignores the zoom level; without unsigned wrap-around it is the inclusive rectangle of x..x+width and y..y+height; when a sum wraps, no tile passes it |
| Tiles.InsertNewestFirst | TileManager.cpp:76-77 | inserting a key before the first strictly older one keeps the newest-first order and keeps the keys distinct |
| Tiles.InsertionPoint | TileManager.cpp:76-77 | finds the position after every entry at least as new as the inserted one and before the first strictly older one |
| Tiles.InsertStep | TileManager.cpp:76-77 | inserting the next candidate at its insertion point keeps the sorted prefix a permutation of the candidates seen so far, newest first and without repetitions |
| Tiles.SortNewestFirst | TileManager.cpp:76-77 | the sorted candidates are a permutation of the input, ordered by non-increasing creation time, without repetitions when the input has none |
| Tiles.CollectOffScreen | TileManager.cpp:66-73 | the candidates are exactly the keys of entries outside the window (both bounds inclusive, x and y only, unsigned sums), each listed once |
| Tiles.TrimOutcome | TileManager.cpp:79-87 | erasing the candidates after position `keep` leaves exactly `keep` off-screen entries, keeps every on-screen entry, and leaves no survivor older than an evicted entry |
| Tiles.EraseFrom | TileManager.cpp:83-87 | the erase loop removes exactly the candidates from position `keep` on |
| Tiles.WithoutReady | TileManager.cpp:32 | `erase_if` keeps exactly the entries that are not Ready, unchanged |
| Tiles.Completed | TileManager.cpp:105-169 | a finished download leaves Loading; it becomes Ready with the decoded bitmap exactly when a buffer arrived, a render target exists and decoding succeeded, otherwise Error; coordinates, URL and timestamp are kept |
| Tiles.TileManager.constructor | TileManager.cpp:9-15 | a new cache stores the base URL and tile size, and is empty, with no render target and no fetch issued |
| Tiles.TileManager.GetTile | TileManager.cpp:54-62 | returns the stored entry with exactly these coordinates, or none exactly when no entry has them; the cache is not changed |
| Tiles.TileManager.SetRenderTarget | TileManager.cpp:21-27 | with no target or a different one: drops the Ready tiles and stores the new target; with the same target: changes nothing |
| Tiles.TileManager.InvalidateRenderTarget | TileManager.cpp:29-34 | removes exactly the Ready tiles, keeps Loading and Error tiles, clears the render target, issues no fetch |
| Tiles.TileManager.LoadTile | TileManager.cpp:90-97 | sets the entry to Loading and issues exactly one fetch, of its URL |
| Tiles.TileManager.AddTile | TileManager.cpp:41-52 | absent: inserts one new Loading tile and issues one fetch; Error: sets it to Loading, keeps its other fields and issues one fetch; Loading or Ready: no change and no fetch; no other entry changes; every existing entry keeps its coordinates and stamp |
| Tiles.TileManager.TrimTiles | TileManager.cpp:64-88 | removes only off-screen entries and changes none it keeps; with at most `width * height` off-screen entries removes nothing; otherwise exactly `width * height` off-screen entries survive and each is at least as new as every evicted one |
| Tiles.TileManager.LoadTileCallback | TileManager.cpp:99-170 | the tile takes the state of `Completed` for the current render target, no other entry changes, and the loaded-tile callback fires exactly when the tile became Ready |
| Http.InitialRequest | HttpClient.h:35-38 | a new record has a null handle, zeroed buffers, no buffer and length 0 |
| Http.Arrived | HttpClient.cpp:124 | after a queued read, `dwBufferLength` holds the bytes WinInet read; the buffer total and offset, the handle, the buffer and `sizeLength` are kept; before any read the record is unchanged |
| Http.Advanced | HttpClient.cpp:114-121 | the partial-read adjustment moves the window past the bytes read; when the downloaded bytes fit in the buffer, downloaded plus remaining equals `sizeLength` |
| Http.ReadErrorStatus | HttpClient.cpp:131-133 | the corrected status of a failed read: the negated error code of that read, which is negative |
| Http.ReadErrorStatusAsWritten | HttpClient.cpp:133 | the status of a failed read as written: the negated `dwError` of the notification, which is 0 when that notification succeeded |
| Http.ReadNext | HttpClient.cpp:109-142 | the read step, with the status a failed read reports as the parameter `readError` (the model passes the corrected one, see Findings): it waits exactly when bytes are still expected, the read did not complete at once and the error is `ERROR_IO_PENDING`; it keeps the buffer exactly when the last count was 0 or the read completed, and then reports status 0 with the whole buffer; any other report is `readError` with no buffer and length 0; the handle, buffer and `sizeLength` are kept |
| Http.Completion | HttpClient.cpp:76-149 | REQUEST_COMPLETE, with the read-error status as a parameter: the handle is kept; the request waits only after a successful notification whose read is pending; a kept buffer is handed over whole with status 0; every other report passes no buffer and length 0 |
| Http.OnRequestComplete | HttpClient.cpp:76-149 | REQUEST_COMPLETE with the corrected read-error status: a queued read that fails reports the negated error of that read, which is `-lastError` for an error code in 1..2^31-1 |
| Http.OnRequestCompleteAsWritten | HttpClient.cpp:130-136 | REQUEST_COMPLETE as written: a queued read that fails reports the negated `dwError` of the notification, so after a successful notification (dwError 0) it reports status 0 |
| Http.Answered | HttpClient.cpp:82-142 | a successful REQUEST_COMPLETE once the byte count is stored: the handle is kept; it waits only for a pending read; a first status outside 200..299 is reported with no buffer and changes nothing; a 2xx first status allocates the buffer from Content-Length; a kept buffer is handed over whole with status 0; otherwise a report after the status check is `readError` with no buffer |
| Http.OnStatus | HttpClient.cpp:63-156 | the handler's effect on one record: only REQUEST_COMPLETE reports or touches the buffer, `hasBuffer` or `sizeLength`; HANDLE_CREATED stores the new handle; every other notification keeps the handle |
| Http.CompleteKeepsValid | HttpClient.cpp:76-149 | a REQUEST_COMPLETE that does not finish the request leaves a valid record whose pending read window ends exactly at the end of the buffer |
| Http.DownloadProgress | HttpClient.cpp:114-121 | a queued read shorter than the buffer advances the window by exactly the bytes read; one that filled it leaves the window at offset 0 over the whole buffer |
| Http.RejectsNon2xx | HttpClient.cpp:82-95 | the first completion of a status outside 200..299 reports that status with no buffer and length 0, allocates nothing and reads nothing |
| Http.SizesBufferFromContentLength | HttpClient.cpp:98-106 | the first completion of a 2xx response sizes the buffer, `sizeLength` and both buffer lengths to Content-Length |
| Http.ContentLengthFallback | HttpClient.cpp:97-106 | when the Content-Length query fails, the buffer, `sizeLength` and both buffer lengths are the status code that the reused variable still holds |
| Http.FailedStatusQueryReportsZero | HttpClient.cpp:83-95 | a first successful completion whose status query fails reports status 0 with no buffer and length 0, and changes nothing: `dw` keeps its initial 0 |
| Http.ReportsWhen | HttpClient.cpp:76-149 | a failed notification reports its negated `dwError` with no buffer and changes nothing; after a queued read, a count of 0 or a read that completed at once reports status 0 with the whole buffer and keeps it; otherwise the request waits exactly when the error is `ERROR_IO_PENDING`, and never keeps the buffer |
| Http.StatusEncoding | HttpClient.h:15-19 | for a record whose status query succeeds and whose error codes are in 1..2^31-1, each report: status 0 exactly when the buffer is handed over, exactly when it is kept, and then with `sizeLength` bytes; a failure passes no buffer and length 0; a positive status is the server's code outside 200..299; a negative status is the negated `dwError` of a failed notification or the negated error of a failed read |
| Http.ReadErrorReportsSuccess | HttpClient.cpp:130-136 | for a valid record after a successful notification (dwError 0) whose read fails with error 12002, the handler as written reports status 0 with no buffer and frees it, while the corrected handler reports -12002 with no buffer |
| Http.HttpRequest.constructor | HttpClient.h:35-41 | a new record holds its URL and the initial state |
| Http.HandlesOf | HttpClient.cpp:44-45 | the handles of the list, position by position |
| Http.FirstWithHandle | HttpClient.cpp:44-45 | the position `find_if` stops at: the first one holding the handle, or none exactly when no record holds it |
| Http.RemoveKeepsValid | HttpClient.cpp:53 | erasing one record from a valid list, whose records but possibly that one are valid, leaves a valid list |
| Http.FindsOwnHandle | HttpClient.cpp:44-45 | with distinct non-null handles, the search for a record's handle stops at that record |
| Http.HttpClient.constructor | HttpClient.h:65-66 | a new client has no requests |
| Http.HttpClient.Get | HttpClient.cpp:24-38 | appends exactly one new record for the URL, holding the handle `InternetOpenUrl` returned when it returned one |
| Http.HttpClient.Find | HttpClient.cpp:44-45 | returns the first position holding the handle, or the list length when there is none |
| Http.HttpClient.Terminate | HttpClient.cpp:40-55 | no matching handle: no change and nothing freed; otherwise removes exactly the first matching record and frees its buffer exactly when it has one and it is not kept |
| Http.HttpClient.Remove | HttpClient.cpp:47-53 | erases the record at the position and frees its buffer exactly when it has one and it is not kept |
| Http.HttpClient.FinishRequest | HttpClient.cpp:92-93 | the `Terminate` after a report removes exactly the reporting record |
| Http.HttpClient.ReadStep | HttpClient.cpp:109-142 | the read step follows `ReadNext` with the corrected read-error status; a report removes the record and frees the buffer unless the report is a success |
| Http.HttpClient.FirstResponse | HttpClient.cpp:82-107 | a status outside 200..299 reports it and removes the record; a 2xx status allocates the buffer from Content-Length and keeps the record |
| Http.HttpClient.Answer | HttpClient.cpp:82-142 | a successful REQUEST_COMPLETE after the byte count is stored follows `Answered`: the first response check, then the read step with the corrected read-error status; a report removes the record and frees the buffer unless kept |
| Http.HttpClient.RequestComplete | HttpClient.cpp:76-149 | REQUEST_COMPLETE follows `OnRequestComplete`, the corrected handler; when it reports, the record is removed and its buffer freed unless kept; otherwise the list is unchanged and the record stays valid |
| Http.HttpClient.InternetStatusCallback | HttpClient.cpp:63-156 | the handler follows `OnStatus`: HANDLE_CREATED stores the handle, REQUEST_COMPLETE as above, other notifications change nothing; every report is followed by removal of the record, so a request reports at most once |
| MapView.TilesAcross | MapWindow.cpp:242-243 | `pixels / tileSize + 1` whole tiles cover the pixels with at most one tile to spare |
| MapView.ClampZoom | MapWindow.cpp:141-146 | the zoom is clamped to 0..18 and kept when already in range |
| MapView.WheelSumExact | MapWindow.cpp:139 | the `unsigned` sum of the zoom and the notch count, read back as `int`, is the exact sum |
| MapView.WheelZoom | MapWindow.cpp:135-147 | from a zoom in range, the new zoom is the current zoom plus `delta / WHEEL_DELTA` (truncating), clamped to 0..18 |
| MapView.WheelZoomMonotone | MapWindow.cpp:135-147 | turning the wheel further never yields a smaller zoom |
| MapView.WheelNotch | MapWindow.cpp:137-147 | one notch forward zooms in one level up to 18, one back zooms out one level down to 0, less than a notch changes nothing |
| MapView.PaintChoice | MapWindow.cpp:187-194 | a bitmap is drawn exactly for a present Ready tile, and it is that tile's bitmap; otherwise the background is filled |
| MapView.PaintedCell | MapWindow.cpp:186-194 | a cell draws a bitmap exactly when the cache holds a Ready tile with those coordinates, and the bitmap is that tile's |
| MapView.MapWindow.constructor | MapWindow.h:43-60 | a new window has zoom 1, latitude and longitude 0, derived numbers 0, not panning, panning origin 0, and an empty cache |
| MapView.MapWindow.UpdateNumbers | MapWindow.cpp:230-263 | the window size in tiles is `pixels / tileSize + 1` on each axis; the top-left tile and pixel size are the projection's; nothing else changes |
| MapView.MapWindow.UpdateView | MapWindow.cpp:214-228 | after trimming to the new window and filling it: every tile of its inclusive rectangle at the current zoom is in the cache and not in `Error`, so a tile that failed earlier is fetched again (`Requested`); no on-screen entry was evicted; every new entry is in view; the trim is stated against the cache before the call: with at most `width * height` off-screen entries no entry is evicted, otherwise exactly `width * height` off-screen entries remain and none is older than an evicted entry (`TrimmedFrom`) |
| MapView.MapWindow.LoadRectangle | MapWindow.cpp:223-227 | the nested loops leave every tile of the inclusive rectangle at the current zoom cached and not in `Error`, add no other tile, and keep every existing entry with its coordinates and stamp, a tile out of `Error` staying out of it (`Keeps`) |
| MapView.MapWindow.LoadRow | MapWindow.cpp:224-226 | the inner loop leaves every tile of a row segment cached and not in `Error`, keeps all existing entries with their coordinates and stamps, a tile out of `Error` staying out of it (`Keeps`), and adds no other tile |
| MapView.MapWindow.LoadTileAt | MapWindow.cpp:225 | one `AddTile` of the loop: the tile is cached and not in `Error` afterwards (a failed tile is fetched again), cached entries keep their keys, coordinates and stamps, none enters `Error`, and a new entry has the given coordinates |
| MapView.FillKeepsOffScreen | MapWindow.cpp:220-227 | filling the window after the trim adds only on-screen tiles and keeps the coordinates and stamps of cached ones, so the off-screen entries after the fill are those after the trim, with the same stamps |
| MapView.MapWindow.Move | MapWindow.cpp:20-30 | stores latitude, longitude and zoom (18 at most), then updates the view; the render target, the panning flag and the panning origin are kept; the top-left tile and pixel size are the projection's and the size in tiles is recomputed; every tile in view is cached and not in `Error`, no cached on-screen tile is evicted, and every new entry is in view; and the trim facts of `UpdateView` |
| MapView.MapWindow.OnSize | MapWindow.cpp:114-118 | a resize keeps latitude, longitude and zoom, then updates the view; the render target, the panning flag and the panning origin are kept; the top-left tile and pixel size are the projection's and the size in tiles is recomputed; every tile in view is cached and not in `Error`, no cached on-screen tile is evicted, and every new entry is in view; and the trim facts of `UpdateView` |
| MapView.MapWindow.OnMouseWheel | MapWindow.cpp:135-148 | the zoom becomes the current zoom plus the truncated notch count, clamped to 0..18; latitude and longitude are kept; then the view is updated; the render target, the panning flag and the panning origin are kept; the top-left tile and pixel size are the projection's and the size in tiles is recomputed; every tile in view is cached and not in `Error`, no cached on-screen tile is evicted, and every new entry is in view; and the trim facts of `UpdateView` |
| MapView.MapWindow.OnLButtonDown | MapWindow.cpp:120-128 | starts panning and records the pointer and the current position as the origin; the view is unchanged |
| MapView.MapWindow.OnLButtonUp | MapWindow.cpp:130-133 | stops panning and changes nothing else |
| MapView.MapWindow.OnMouseMove | MapWindow.cpp:150-158 | the panning flag, the panning origin and the render target are always kept; when not panning nothing else changes either; when panning the map moves to the origin plus the pointer offset times the pixel size at the same zoom, the projection's top-left tile, pixel size and size in tiles are stored, and every tile in view is cached and not in `Error`, with the trim facts of `UpdateView` |
| MapView.MapWindow.Pan | MapWindow.cpp:154-157 | the panning branch: moves to the origin plus the pointer offset times the pixel size at the same zoom, keeps the panning state and render target, and gives the view and trim facts of `UpdateView` |
| MapView.MapWindow.EnsureRenderTarget | MapWindow.cpp:85-88 | hands the render target to the cache: Ready tiles are dropped unless it is the target the cache already had, in which case the tiles are unchanged; no fetch is issued |
| MapView.MapWindow.InvalidateRenderTarget | MapWindow.cpp:106-109 | the cache loses its render target and exactly its Ready tiles; no fetch is issued |
| MapView.MapWindow.PaintTiles | MapWindow.cpp:178-196 | the cell in row y, column x is the paint choice for the tile at (x + topLeftX, y + topLeftY) at the current zoom, for 0..width and 0..height inclusive |
| MapView.MapWindow.PaintRow | MapWindow.cpp:180-195 | the inner tile loop: cell x of row y is the paint choice for the tile at (x + topLeftX, y + topLeftY) at the current zoom, for x in 0..width inclusive |

## Left out

- Threads and the request-list mutex: notifications and tile callbacks are modelled as sequential events.
- WIC decoding and Direct2D bitmap creation: `LoadTileCallback` takes the bitmap that decoding produced, if any, as its `decoded` parameter.
- Memory release: deleting the response buffer after decoding is not modelled.
- WinInet calls (`InternetOpen`, `InternetOpenUrl`, `HttpQueryInfo`, `InternetReadFileEx`, `InternetCloseHandle`, `GetLastError`): their results are the `syncHandle` and `WinInetAnswers` parameters, and closing a handle is not modelled. `Get`'s check that `GetLastError` is `ERROR_IO_PENDING` is a debug assertion only, and is not modelled.
- The fetch itself: `LoadTile` appends the URL to the `fetches` log instead of calling `HttpClient::Get`. The fetch lambda's link between a tile and its request is not modelled.
- Tiles.TileManager.LoadTileCallback: requires the tile to be in the cache and Loading. The source's lambda captures the tile by reference without a guard, so a callback after the tile was evicted has no behaviour the model could state.
- Http.HttpClient.InternetStatusCallback: requires a HANDLE_CREATED handle to be new or the record's own (a repeated notification stores the same value again) and REQUEST_COMPLETE to arrive after the handle is known. Otherwise the source would report and then call `Terminate` with a null handle, which removes the first record still waiting for its handle, possibly another one; that path is not modelled.
- Http.HttpClient.RequestComplete: requires WinInet to report no more bytes read than the read asked for (`Plausible`).
- Http.HttpClient.ReadStep, Http.HttpClient.RequestComplete, Http.HttpClient.InternetStatusCallback: these follow `OnRequestComplete`, the corrected handler, in which a failed read reports the negated error of that read (see Findings). The source as written (`OnRequestCompleteAsWritten`) reports the notification's `dwError` instead. The correction follows the status encoding of HttpClient.h:16-18 (0 only for success, a negative error code otherwise) and departs from the literal wording "-(dwError)" at HttpClient.h:18, which names the notification's field.
- Http.StatusEncoding: requires the status query to succeed and the error codes to lie in 1..2^31-1. When the query fails (HttpClient.cpp:89 is only a debug assertion), the handler reports status 0 with no buffer, which breaks the encoding; `FailedStatusQueryReportsZero` states that case. An error code of 0 or of 2^31 and above would likewise give a non-negative status.
- Floating-point projection:
  - The Mercator computation of the top-left tile and the pixel size in `UpdateNumbers` is not modelled; these arrive in `ViewInputs`.
  - `m_dTopLeftLat` and `m_dTopLeftLng` are not modelled.
  - The on-screen rectangle of each tile in `OnPaintD2D` is not modelled.
  - Latitude and longitude are Dafny `real`s, not `double`s.
- Repainting, brushes and the crosshair: `Invalidate()` and the brush creation are not modelled.
- MapView.MapWindow.OnSize: models `MapWindow::OnSize` only. The base class's `D2DWindow::OnSize` (D2DWindow.cpp:22-33) is not modelled: when resizing the render target fails it calls `InvalidateRenderTarget`, which drops the Ready tiles before the view is updated.
- MapView.MapWindow.Move: the latitude and longitude debug assertions are not preconditions; the longitude one tests the latitude by mistake.
- MapView.MapWindow.OnMouseMove: the `int` difference of mouse coordinates is exact; Windows mouse coordinates are 16-bit, so it cannot overflow.
- MapView.MapWindow.UpdateView: requires the inclusive right and bottom tile indices to be below `UINT_MAX` (`Fits`). At `UINT_MAX` the source's unsigned loops never stop.
- MapView.MapWindow.PaintTiles: requires the sizes in tiles to be below `UINT_MAX`, for the same reason.
- Tiles.Tile: `created` is a plain integer. The source truncates the 64-bit FILETIME into a `long`, which is 32 bits on Windows, so an ordering across a wrap of the low 32 bits is not modelled.
- Tiles.TileManager.TrimTiles: the sort is one insertion sort over candidates collected in an arbitrary map order. Which of several tiles with the same timestamp survives is therefore not the one `std::sort` would pick; the contract holds for any such choice.
- Tiles.TileManager: keyed by URL as in the source. The entry for a coordinate is found through `TileUrl`, whose injectivity is proved.
- Http.HttpRequest: the record's identity is the object, as the source's `unique_ptr` address; the `client` back-reference and `fnOnFinish` are not fields. The report is the `finish` result of the handler methods.
- Http.HttpClient.ReadStep: a read that completes synchronously after a partial read reports the whole buffer, as the source does; the model does not state which bytes the buffer holds.
- The base URL is assumed to have no trailing slash, as the header requires. With a trailing slash the code would produce a double slash, and so does `TileUrl`.
- Helper members (`LoadRectangle`, `LoadRow`, `Find`, `Remove`, `FinishRequest`, `ReadStep`, `FirstResponse`, `Answer`, `CollectOffScreen`, `SortNewestFirst`, `InsertStep`, `EraseFrom`, `Pan`, `LoadTileAt`, `PaintRow`, `KeepsTransitive`) are parts of the source functions they are cited with, split out to keep each proof small.

## Findings

| source | as written | input that shows it | evidently intended | confidence | as-written member | corrected member |
|---|---|---|---|---|---|---|
| HttpClient.cpp:133 | a read that fails with an error other than `ERROR_IO_PENDING` reports `-(int)pResult->dwError`, the error field of the successful notification that started the read | a REQUEST_COMPLETE with `dwResult` 1 and `dwError` 0, then `InternetReadFileEx` fails with `GetLastError()` 12002: the status is 0 with a null buffer, which the status encoding reserves for a delivered response | `-(int)error`, the negated error of the failed read just stored in `error` | not executed | Http.OnRequestCompleteAsWritten | Http.OnRequestComplete |
