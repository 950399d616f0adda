# Photo frame slideshow core, modelled in Dafny

This project models the logic of a kiosk photo frame (`app.py` and
`photo_frame_api.py`). The frame lists a Google Photos album, caches the
photos in a local `cache` directory, and cycles through them on screen.
A small HTTP surface lets an operator pause, resume, skip or force a refresh.

The parts modelled are:

- **Album filter** (`Album`, app.py:76-87). The decoded `mediaItems` of the
  search response are filtered down to still images other than HEIC. Each
  kept item's `baseUrl` gets `=d` for a GIF and `=w800-h600` otherwise.
  `GetPhotosInAlbum` is the loop that builds `photo_data`. It is proved equal
  to the specification function `KeepPhotos`.
- **Cache** (`Cache`, app.py:89-109). `CachePhotos` is the `cache_photos`
  loop. It names item i `cache/photo_<i>.gif` or `cache/photo_<i>.jpg`,
  downloads only the items whose file is absent, and lists every path,
  including the paths of failed downloads. The cache directory is a set of
  paths. The download outcome is the set `failing` of item positions whose
  file is never created, because `requests.get` or `open` raises. `LoadCache` is `load_cache`: it takes the directory
  listing, or None when the directory is absent.
- **Control flags** (`Control`, photo_frame_api.py and app.py:26-30, 42-60).
  `ControlState` is the `state` dict; the two modules' identical copies are
  one object here. Its four mutators are the POST
  handlers and `Root` is `GET /`. The pure functions `WithPause`,
  `WithResume`, `WithNext` and `WithRefresh` specify the handlers.
  `HandleAll` runs a sequence of requests in arrival order.
- **Slideshow** (`Slideshow`, app.py:148-182). The class `SlideshowLoop`
  holds `idx`, `files`, `last_refresh` and the cache directory, plus a
  reference to the shared `ControlState`. Its constructor is the start-up:
  it tries the album and falls back to `load_cache`. `Step(now, album,
  failing)` is one iteration of the `while True` loop, proved equal to the
  pure function `Tick`. The order inside an iteration follows the code:
  1. the pause short-circuit;
  2. the refresh, triggered by the flag or by more than `REFRESH_INTERVAL`
     (600 s) since the last one;
  3. the skip;
  4. the choice between `play_gif` and `display_image` on a ".gif" suffix;
  5. the advance.

  The loop has no guards. The three ways the modelled inputs make an
  iteration raise are explicit outcomes `Crashed(...)`:
  - a refresh whose album request raises (`SourceUnavailable`);
  - a skip over an empty playlist (`ZeroDivision`, app.py:175);
  - a position left past the end of a playlist that a refresh shrank
    (`IndexOutOfRange`, app.py:177).

  In the program any of these ends the loop.

Some behaviours of the code are easy to miss, and the model keeps each one:

- Failed downloads stay in the playlist, because app.py:103 is outside the
  `try`.
- Nothing re-clamps the position after a refresh.
- In the loop, a failed refresh escapes (app.py:169-171). Only at start-up is
  it caught.
- A skip waits while the frame is paused, because the pause check comes first
  (app.py:166-167).
- The control channel is three booleans. Two skips before an iteration are
  one skip, not a queue of commands.
- An empty playlist crashes the loop.
- `GET /` in app.py redirects to a static page (app.py:38-40). The flag
  snapshot is returned by photo_frame_api.py:13-19, which is what `Root`
  models.

## Model

| member | source | states |
|---|---|---|
| Album.MediaItemsOf | app.py:80 | a response without `mediaItems` reads as no items; otherwise the items are the response's list |
| Album.ToPhoto | app.py:85-86 | a kept photo keeps the item's MIME type; its URL is `baseUrl + "=d"` for `image/gif` and `baseUrl + "=w800-h600"` otherwise |
| Album.IsStill | app.py:84 | the `image/` prefix test without `image/heic`; characterized by KeepPhotos, StillIndices and KeepPhotosExactly |
| Album.KeepPhotos | app.py:82-86 | the filter never returns more photos than items, and every kept photo is a still image (`image/` prefix, not `image/heic`) |
| Album.StillIndices | app.py:82-84 | the positions of the still images: each one is a still item, every still item is listed, in strictly increasing order |
| Album.KeepPhotosExactly | app.py:82-86 | the k-th kept photo is made from the k-th still item, so exactly the still items are kept, in source order |
| Album.KeepPhotosAppend | app.py:82-86 | filtering a concatenation is the concatenation of the filtered parts (nothing is reordered) |
| Album.GetPhotosInAlbum | app.py:80-87 | the `photo_data` loop returns exactly `KeepPhotos` of the response's items |
| Strings.NatToString | app.py:94 | the decimal rendering of an index is a non-empty run of digits with no leading zero |
| Strings.ParseNatToString | app.py:94 | reading back the decimal rendering of n gives n |
| Strings.NatToStringInjective | app.py:94 | distinct indices have distinct decimal renderings |
| Strings.Below | app.py:109 | Python `str` `<=` by code points, the order behind `sorted`; characterized by BelowReflexive, BelowTotal, BelowAntisymmetric, BelowTransitive and BelowUnderPrefix |
| Strings.BelowReflexive | app.py:109 | every string is `<=` itself |
| Strings.BelowTotal | app.py:109 | any two strings are comparable, so `sorted` has one answer |
| Strings.BelowAntisymmetric | app.py:109 | two strings each `<=` the other are equal |
| Strings.BelowTransitive | app.py:109 | `<=` is transitive |
| Strings.Sort | app.py:109 | `sorted` of the listing: a sorted permutation under Python's string order |
| Strings.SortedUnique | app.py:109 | any two sorted permutations of the same names are equal, so `Sort` is what `sorted` returns |
| Strings.BelowUnderPrefix | app.py:109 | prefixing names with the cache directory does not change their order |
| Cache.CachePath | app.py:93-94 | the file name starts with `cache/photo_` and ends in ".gif" iff the MIME type is `image/gif`, in ".jpg" otherwise |
| Cache.CachePaths | app.py:92-94 | the path list of `cache_photos`, one per photo in order, as appended at app.py:103; characterized by CachePathsSpelledOut and CachePathsDistinct |
| Cache.CachePathInjective | app.py:93-94 | two file names are equal only for equal positions |
| Cache.CachePathsSpelledOut | app.py:92-94 | one path per photo, in order; entry i is `cache/photo_<i>.gif` for a GIF and `cache/photo_<i>.jpg` otherwise |
| Cache.CachePathsDistinct | app.py:92-94 | two photos of one listing never share a cache file |
| Cache.ToFetch | app.py:95 | the downloaded positions are exactly those whose file is absent, in increasing order |
| Cache.Stored | app.py:95-102 | the cache directory after the loop; characterized by StoredMember and StoredExactly |
| Cache.StoredMember | app.py:95-102 | a path is on disk afterwards iff it was before or some position with that path had its file created |
| Cache.StoredExactly | app.py:95-103 | a photo's file is on disk afterwards iff it was before or its file was created (not in `failing`), and no file other than a listed path appears |
| Cache.NotWrittenEarlier | app.py:94-95 | the existence check for item i is not affected by the files written for earlier items |
| Cache.CachePhotos | app.py:89-104 | returns the path list `CachePaths` whether or not downloads fail, downloads exactly `ToFetch`, and leaves the disk as `Stored` |
| Cache.ToFetchAllPresent | app.py:95 | when every path exists, nothing is downloaded |
| Cache.CacheTwiceFetchesNothing | app.py:95-102 | after a call that created every missing file, a second call with the same photos downloads nothing and changes no file |
| Cache.IsCacheFile | app.py:109 | `f.endswith(('.jpg', '.gif'))`; characterized by CacheFiles and LoadCache |
| Cache.CacheFiles | app.py:109 | keeps exactly the names ending in ".jpg" or ".gif", each as often as it is listed, and keeps a sorted listing sorted |
| Cache.CacheFilesAppend | app.py:109 | the filter keeps the listing's order: filtering a concatenation filters each part |
| Cache.PrefixedCount | app.py:109 | joining to the directory keeps each name's multiplicity: `p + n` occurs as often as `n` did |
| Cache.InCacheDir | app.py:109 | `os.path.join(CACHE_DIR, f)` for each name: same length, entry k is `cache/` + name k, and each name keeps its multiplicity (PrefixedCount) |
| Cache.LoadCache | app.py:106-109 | no directory gives []; otherwise every result is `cache/` plus a listed ".jpg"/".gif" name, each such name appears exactly as often as it is listed, and the result is sorted |
| Cache.LoadCacheIsSortedJoin | app.py:106-109 | the result is exactly the sorted arrangement of the listing's cache files joined to `cache/` |
| Cache.LoadCacheTwo | app.py:106-109 | any two cache files listed against the string order come back swapped, each joined to `cache/` |
| Cache.LoadCacheIsNotIndexOrder | app.py:109 | the string order puts `cache/photo_10.jpg` before `cache/photo_2.jpg` |
| Control.WithPause | photo_frame_api.py:21-24 | pause sets `paused` and leaves `next` and `refresh` alone |
| Control.WithResume | photo_frame_api.py:26-29 | resume clears `paused` and leaves `next` and `refresh` alone |
| Control.WithNext | photo_frame_api.py:31-34 | next sets `next` only |
| Control.WithRefresh | photo_frame_api.py:36-39 | refresh sets `refresh` only |
| Control.HandlersIdempotent | photo_frame_api.py:21-39 | every handler run twice gives the state of running it once |
| Control.PauseThenResume | photo_frame_api.py:21-29 | pause then resume nets to not paused, other flags unchanged |
| Control.HandlersNeverClear | photo_frame_api.py:21-39 | no handler clears `next` or `refresh` |
| Control.HandleAll | photo_frame_api.py:21-39 | the handlers applied to the flags in arrival order; characterized by HandleAllFlags |
| Control.HandleAllFlags | photo_frame_api.py:21-39 | after a run of requests `next`/`refresh` are set iff set before or requested; `paused` follows the last pause/resume, or stays as it was |
| Control.PauseResumePause | photo_frame_api.py:21-29 | pause, resume, pause in a row leaves the frame paused |
| Control.ControlState.constructor | photo_frame_api.py:7-11 | all three flags start false |
| Control.ControlState.Root | photo_frame_api.py:13-19 | returns exactly the three current flag values and changes nothing |
| Control.ControlState.Pause | photo_frame_api.py:21-24 | the new record is `WithPause` of the old |
| Control.ControlState.Resume | photo_frame_api.py:26-29 | the new record is `WithResume` of the old |
| Control.ControlState.NextPhoto | photo_frame_api.py:31-34 | the new record is `WithNext` of the old |
| Control.ControlState.RefreshAlbum | photo_frame_api.py:36-39 | the new record is `WithRefresh` of the old |
| Slideshow.Boot | app.py:153-160 | the state at the top of the loop; characterized by SlideshowLoop.constructor, whose ensures equal it |
| Slideshow.RendererFor | app.py:178-181 | `play_gif` exactly for a ".gif" suffix, `display_image` otherwise; characterized by SkipAndRenderAdvance and ThreePhotoRound |
| Slideshow.RefreshDue | app.py:168 | the refresh flag or more than `REFRESH_INTERVAL` since the last refresh; characterized by TickRefresh |
| Slideshow.Refreshed | app.py:169-173 | the state after a successful refresh; characterized by TickRefresh and TickRefreshAdvance |
| Slideshow.Render | app.py:177-182 | show the file at the position and advance by one; characterized by SkipAndRenderAdvance and ShrinkingRefreshCrashes |
| Slideshow.SkipAndRender | app.py:174-182 | the skip, the render and the advance; characterized by SkipAndRenderAdvance, EmptyRefreshCrashes and SlideshowLoop.SkipAndShow |
| Slideshow.Tick | app.py:166-182 | one loop iteration; characterized by TickWhilePaused, TickRefresh, TickAdvance, TickRefreshAdvance, RefreshFailureCrashes, EmptyRefreshCrashes, ShrinkingRefreshCrashes and TickKeepsPositionInRange, and equal to SlideshowLoop.Step |
| Slideshow.SlideshowLoop.constructor | app.py:153-160 | start-up: position 0, clock stamped; the album's cached playlist, or `LoadCache` of the listing with the disk untouched when the album request raises |
| Slideshow.SlideshowLoop.Step | app.py:166-182 | one loop iteration: new state and outcome are exactly `Tick` of the old state |
| Slideshow.SlideshowLoop.SkipAndShow | app.py:174-182 | skip, render choice and advance on the current state, as `SkipAndRender` |
| Slideshow.TickWhilePaused | app.py:166-167 | while paused an iteration changes nothing (position, playlist, clock, all flags), so a pending skip or refresh waits |
| Slideshow.TickRefresh | app.py:168-173 | refresh iff the flag is set or more than 600 s passed; it replaces the playlist, stamps `now`, clears the flag; otherwise those stay unchanged |
| Slideshow.TickAdvance | app.py:174-182 | with no refresh due, on a non-empty playlist with the position in range: position becomes (idx+1) mod n, or (idx+2) mod n with a skip, stays in range, `next` is cleared, and `play_gif` is chosen iff the shown file ends in ".gif" |
| Slideshow.SkipAndRenderAdvance | app.py:174-182 | the skip-render-advance steps on any playlist with the position in range: the file at the position (one further with a skip) is shown, `play_gif` iff it ends in ".gif", the position moves on by one or two modulo the length, `next` is cleared, and the playlist, refresh time and other flags are kept |
| Slideshow.TickRefreshAdvance | app.py:168-182 | an iteration that refreshes and leaves the position inside the new playlist (the same album listed again, say) installs it, stamps `now`, clears `refresh`, and then advances over the new playlist by the same rule |
| Slideshow.RefreshFailureCrashes | app.py:168-171 | a due refresh whose album request raises ends the loop, with nothing installed |
| Slideshow.EmptyRefreshCrashes | app.py:171-177 | a refresh keeping no photo crashes the iteration: modulo by zero with a skip, index out of range without |
| Slideshow.ShrinkingRefreshCrashes | app.py:171-177 | without a skip, a refresh that shrinks the playlist to at most the position crashes the render (no re-clamp) |
| Slideshow.TickKeepsPositionInRange | app.py:177-182 | every iteration that renders leaves the position inside the playlist and shows one of its files |
| Slideshow.RunCycles | app.py:161-182 | with no skip, pause or refresh due at any of the k clock readings, k iterations move the position on by k modulo the playlist length |
| Slideshow.RunKeepsPlaylist | app.py:161-182 | iterations at clock readings with nothing pending keep the playlist, the refresh time and the flags |
| Slideshow.RunFullCircle | app.py:182 | after as many quiet iterations as files, whatever the clock readings, the position is back where it started |
| Slideshow.ThreePhotoRound | app.py:174-182 | two stills and a GIF: display, display, play_gif, then the position is back at 0 |

## Left out

- `authenticate` (OAuth flow and token file) is not modelled, including its call inside the loop (app.py:169), which could block or raise.
- The HTTP requests and JSON decoding are inputs. The album request is an `AlbumResponse`, and each download is a member of `failing` or not. A KeyError for an item without `mimeType` or `baseUrl` is not modelled, and neither is a response that is not JSON.
- Only the first page of the search (`pageSize` 50) exists in the source. Paging is a property of the remote service and is not modelled.
- A download counts as failed only when no file is created. A non-2xx response does not raise in `requests`, so the source writes the error body to the file. The model treats that case as a success.
- A write that raises after `open` (a full disk, app.py:98-102) leaves a truncated file. The model counts that file as stored, and the source never fetches it again.
- `display_image` and `play_gif` (scaling, fades, frame timing) are left out. Only the choice between them is modelled. So are their own failures: a file missing because its download failed, or a corrupt file, raises inside pygame/PIL and would end the loop.
- Sleeps and frame delays are left out. The busy loop while paused (`continue` with no sleep) is modelled only as an iteration that changes nothing.
- The clock is a whole number of seconds passed to `Step`. The source reads a float clock again after the refresh to stamp `last_refresh`; the model stamps the same `now` used for the check.
- `os.makedirs` is left out. The cache directory is modelled as the set of its file paths, with POSIX `/` joins.
- The start-up bare `except` also catches failures inside `cache_photos`. Only a failing album request is modelled as the trigger for the `load_cache` fallback. The listing given to the constructor is not tied to the set of cached paths.
- app.py and photo_frame_api.py each define their own, identical `state` dict, and app.py does not import photo_frame_api.py. The model merges the two into one `ControlState` object, so `Root` reports the flags that the loop reads. In the source, photo_frame_api.py's dict is read by no loop.
- Threads, uvicorn and FastAPI routing, and the static mount are left out. Handler calls and loop iterations are interleaved one at a time on the same `ControlState` object, so each iteration reads the flags once, at its start. What that loses: a `/refresh` that arrives while a refresh's downloads run (between app.py:168 and app.py:173) is cleared at app.py:173 without being served, and a `/pause` that arrives after the check at app.py:166 does not stop that iteration's render.
- The handlers' acknowledgement bodies (`{"message": ...}`) are constant strings and are not modelled. `GET /` of app.py (a redirect) is not modelled.
- The pygame event loop and QUIT handling (app.py:162-165) are left out.
- `requests.post` (app.py:79) and `requests.get` (app.py:97) are called without a timeout, so a request that never answers blocks the loop for good. The model has no outcome for a request that does not return: each request either answers or raises.
- The `print` logging of each download's success or failure (app.py:100, app.py:102) is left out, because it changes no state.
- Slideshow.SlideshowLoop.Step: after a `Crashed` outcome the source has left the loop. The model keeps the state as the exception found it, and further calls model nothing in the source.
- google_photos_slideshow.py, google_photos_test.py, yourscript.py and playtest.py are standalone scripts. They are not part of this model.
