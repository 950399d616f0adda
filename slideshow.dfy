/**
  The slideshow of app.py: the start-up that builds the first playlist
  (`slideshow`, app.py:153-160) and one iteration of its `while True` loop
  (app.py:166-182): the pause short-circuit, the refresh by request or by
  elapsed time, the skip, the choice of renderer, and the advance.

  The loop's state is a class over the playlist, its position, the time of
  the last refresh and the cache directory; the control record is the object
  shared with the HTTP handlers. The loop has no guards, so each way an
  iteration raises is an explicit outcome: a refresh whose album request
  fails, a skip over an empty playlist (modulo by zero), and a position that
  a shrinking refresh left past the end (index out of range). Any of them
  ends the loop.
 */
module Slideshow {
  import opened Wrappers
  import opened Strings
  import opened Album
  import opened Cache
  import opened Control

  /** REFRESH_INTERVAL, in seconds. */
  const RefreshInterval := 10 * 60

  /** What the album search request gives: an exception, or the decoded response's `mediaItems`. */
  datatype AlbumResponse = Unreachable | Listed(mediaItems: Option<seq<MediaItem>>)

  datatype Renderer = PlayGif | DisplayImage

  /** The exceptions an iteration can raise. */
  datatype Fault = SourceUnavailable | ZeroDivision | IndexOutOfRange

  /** What one iteration did: nothing (paused), render one file, or raise. */
  datatype Outcome = Skipped | Shown(renderer: Renderer, file: string) | Crashed(fault: Fault)

  /** The loop's state as a value. */
  datatype Engine = Engine(idx: nat, files: seq<string>, lastRefresh: int, disk: set<string>, flags: Flags)

  /** app.py:178-181 */
  function RendererFor(file: string): Renderer {
    if EndsWith(file, ".gif") then PlayGif else DisplayImage
  }

  /** app.py:168 */
  predicate RefreshDue(e: Engine, now: int) {
    e.flags.refresh || now - e.lastRefresh > RefreshInterval
  }

  /** The playlist built from an album response: the cache paths of its kept photos. */
  function Playlist(mediaItems: Option<seq<MediaItem>>): seq<string> {
    CachePaths(KeepPhotos(MediaItemsOf(mediaItems)))
  }

  /** app.py:169-173 after a successful album request. */
  function Refreshed(e: Engine, now: int, mediaItems: Option<seq<MediaItem>>, failing: set<nat>): Engine {
    var files := Playlist(mediaItems);
    e.(files := files, disk := Stored(e.disk, files, failing), lastRefresh := now,
       flags := e.flags.(refresh := false))
  }

  /** app.py:177-182: show the file at the position, then move on by one. */
  function Render(e: Engine): (Engine, Outcome) {
    if e.idx >= |e.files| then (e, Crashed(IndexOutOfRange))
    else
      var file := e.files[e.idx];
      (e.(idx := (e.idx + 1) % |e.files|), Shown(RendererFor(file), file))
  }

  /** app.py:174-182: a pending skip moves the position on and is cleared, then the render. */
  function SkipAndRender(e: Engine): (Engine, Outcome) {
    if !e.flags.next then Render(e)
    else if |e.files| == 0 then (e, Crashed(ZeroDivision))
    else Render(e.(idx := (e.idx + 1) % |e.files|, flags := e.flags.(next := false)))
  }

  /** The specification of one loop iteration: the new state and what the iteration did. */
  function Tick(e: Engine, now: int, album: AlbumResponse, failing: set<nat>): (Engine, Outcome) {
    if e.flags.paused then (e, Skipped)
    else if !RefreshDue(e, now) then SkipAndRender(e)
    else
      match album
      case Unreachable => (e, Crashed(SourceUnavailable))
      case Listed(mediaItems) => SkipAndRender(Refreshed(e, now, mediaItems, failing))
  }

  /**
    The state at the top of the loop (app.py:153-160): the album's playlist,
    or, when the album request raises, what `load_cache` finds on disk.
   */
  function Boot(album: AlbumResponse, disk: set<string>, failing: set<nat>,
                listing: Option<seq<string>>, now: int, flags: Flags): Engine
  {
    match album
    case Unreachable => Engine(0, LoadCache(listing), now, disk, flags)
    case Listed(items) =>
      var files := Playlist(items);
      Engine(0, files, now, Stored(disk, files, failing), flags)
  }

  class SlideshowLoop {
    var idx: nat
    var files: seq<string>
    var lastRefresh: int
    var disk: set<string>
    const control: ControlState

    function State(): Engine
      reads this, control
    {
      Engine(idx, files, lastRefresh, disk, control.Snapshot())
    }

    /**
      Start-up. `album` is the outcome of the first album request, `disk` the
      cache directory's files, `failing` the positions whose file is never created, `listing`
      the directory listing used when the album request fails, `now` the clock.
     */
    constructor (control: ControlState, album: AlbumResponse, disk: set<string>, failing: set<nat>,
                 listing: Option<seq<string>>, now: int)
      ensures this.control == control
      ensures State() == Boot(album, disk, failing, listing, now, control.Snapshot())
    {
      this.control := control;
      var startFiles, startDisk;
      match album {
        case Unreachable =>
          startFiles, startDisk := LoadCache(listing), disk;
        case Listed(items) =>
          var photoData := GetPhotosInAlbum(items);
          var fetched;
          startFiles, startDisk, fetched := CachePhotos(photoData, disk, failing);
      }
      idx := 0;
      files := startFiles;
      lastRefresh := now;
      this.disk := startDisk;
    }

    /**
      One iteration of the loop at clock `now`. `album` is what the album
      request would give and `failing` which positions' files would never be created; both are
      used only if the iteration refreshes.
     */
    method Step(now: int, album: AlbumResponse, failing: set<nat>) returns (outcome: Outcome)
      modifies this, control
      ensures (State(), outcome) == Tick(old(State()), now, album, failing)
    {
      if control.paused {
        return Skipped;
      }
      if control.refresh || now - lastRefresh > RefreshInterval {
        if album.Unreachable? {
          return Crashed(SourceUnavailable);
        }
        ghost var before := State();
        var photoData := GetPhotosInAlbum(album.mediaItems);
        var fetched;
        files, disk, fetched := CachePhotos(photoData, disk, failing);
        lastRefresh := now;
        control.refresh := false;
        assert State() == Refreshed(before, now, album.mediaItems, failing);
      }
      outcome := SkipAndShow();
    }

    /** app.py:174-182 on the current state. */
    method SkipAndShow() returns (outcome: Outcome)
      modifies this, control
      ensures (State(), outcome) == SkipAndRender(old(State()))
    {
      if control.next {
        if |files| == 0 {
          return Crashed(ZeroDivision);
        }
        idx := (idx + 1) % |files|;
        control.next := false;
      }
      if idx >= |files| {
        return Crashed(IndexOutOfRange);
      }
      var file := files[idx];
      if EndsWith(file, ".gif") {
        outcome := Shown(PlayGif, file);
      } else {
        outcome := Shown(DisplayImage, file);
      }
      idx := (idx + 1) % |files|;
    }
  }

  // ---------------------------------------------------------------------------
  // Properties of one iteration
  // ---------------------------------------------------------------------------

  /** While paused an iteration changes nothing, so a pending skip or refresh waits for resume. */
  lemma TickWhilePaused(e: Engine, now: int, album: AlbumResponse, failing: set<nat>)
    requires e.flags.paused
    ensures Tick(e, now, album, failing) == (e, Skipped)
  {
  }

  /**
    When not paused and the album answers, an iteration refreshes iff the
    refresh flag is set or more than REFRESH_INTERVAL has passed; a refresh
    replaces the playlist, stamps the time and clears the flag, and otherwise
    the playlist, the time and the flag are left alone.
   */
  lemma TickRefresh(e: Engine, now: int, mediaItems: Option<seq<MediaItem>>, failing: set<nat>)
    requires !e.flags.paused
    ensures var e' := Tick(e, now, Listed(mediaItems), failing).0;
            if e.flags.refresh || now - e.lastRefresh > RefreshInterval then
              e'.files == Playlist(mediaItems) && e'.lastRefresh == now && !e'.flags.refresh
              && e'.disk == Stored(e.disk, Playlist(mediaItems), failing)
            else
              e'.files == e.files && e'.lastRefresh == e.lastRefresh && e'.flags.refresh == e.flags.refresh
              && e'.disk == e.disk
  {
  }

  lemma MulAtLeast(a: int, n: int)
    requires a >= 1 && n > 0
    ensures a * n >= n
    decreases a
  {
    if a > 1 {
      MulAtLeast(a - 1, n);
      assert a * n == (a - 1) * n + n;
    }
  }

  /** `x % n` is the remainder of any division of `x` by `n`. */
  lemma ModUnique(x: int, n: int, q: int, r: int)
    requires n > 0 && 0 <= r < n && x == q * n + r
    ensures x % n == r
  {
    var q' := x / n;
    var r' := x % n;
    assert x == q' * n + r';
    assert (q - q') * n == r' - r;
    if q > q' { MulAtLeast(q - q', n); }
    if q < q' { MulAtLeast(q' - q, n); }
  }

  lemma ModShift(a: nat, k: nat, n: nat)
    requires n > 0
    ensures ((a % n) + k) % n == (a + k) % n
  {
    var q := a / n;
    var r := a % n;
    assert a == q * n + r;
    var q2 := (r + k) / n;
    var r2 := (r + k) % n;
    assert r + k == q2 * n + r2;
    assert a + k == (q + q2) * n + r2;
    ModUnique(a + k, n, q + q2, r2);
  }

  /**
    With an unchanged, non-empty playlist and the position in range, an
    iteration shows the file at the position (one further when a skip is
    pending), picks `play_gif` iff that file ends in ".gif", moves the
    position on by one, or by two with a skip, modulo the length, keeps it in
    range, and clears the skip.
   */
  lemma TickAdvance(e: Engine, now: int, album: AlbumResponse, failing: set<nat>)
    requires !e.flags.paused && !RefreshDue(e, now)
    requires e.idx < |e.files|
    ensures var n := |e.files|;
            var pos := if e.flags.next then (e.idx + 1) % n else e.idx;
            var (e', out) := Tick(e, now, album, failing);
            && e'.files == e.files
            && e'.idx < n
            && e'.idx == (e.idx + (if e.flags.next then 2 else 1)) % n
            && !e'.flags.next
            && out == Shown(RendererFor(e.files[pos]), e.files[pos])
            && (out.renderer == PlayGif <==> EndsWith(e.files[pos], ".gif"))
  {
    SkipAndRenderAdvance(e);
  }

  /**
    app.py:174-182 on a non-empty playlist with the position in range: the
    file shown is the one at the position, or one further with a skip; the
    renderer is `play_gif` iff it ends in ".gif"; the position moves on by one,
    or by two with a skip, modulo the length; the skip is cleared; the
    playlist, the refresh time and the other flags are kept.
   */
  lemma SkipAndRenderAdvance(e: Engine)
    requires e.idx < |e.files|
    ensures var n := |e.files|;
            var pos := if e.flags.next then (e.idx + 1) % n else e.idx;
            var (e', out) := SkipAndRender(e);
            && e'.files == e.files && e'.lastRefresh == e.lastRefresh && e'.disk == e.disk
            && e'.idx < n
            && e'.idx == (e.idx + (if e.flags.next then 2 else 1)) % n
            && e'.flags == e.flags.(next := false)
            && out == Shown(RendererFor(e.files[pos]), e.files[pos])
            && (out.renderer == PlayGif <==> EndsWith(e.files[pos], ".gif"))
  {
    if e.flags.next {
      ModShift(e.idx + 1, 1, |e.files|);
    }
  }

  /**
    An iteration that refreshes and leaves the position inside the new
    playlist (the same album listed again, say) advances over the new
    playlist exactly as one without a refresh does.
   */
  lemma TickRefreshAdvance(e: Engine, now: int, mediaItems: Option<seq<MediaItem>>, failing: set<nat>)
    requires !e.flags.paused && RefreshDue(e, now)
    requires e.idx < |Playlist(mediaItems)|
    ensures var files := Playlist(mediaItems);
            var n := |files|;
            var pos := if e.flags.next then (e.idx + 1) % n else e.idx;
            var (e', out) := Tick(e, now, Listed(mediaItems), failing);
            && e'.files == files && e'.lastRefresh == now && !e'.flags.refresh
            && e'.idx < n
            && e'.idx == (e.idx + (if e.flags.next then 2 else 1)) % n
            && !e'.flags.next
            && out == Shown(RendererFor(files[pos]), files[pos])
            && (out.renderer == PlayGif <==> EndsWith(files[pos], ".gif"))
  {
    SkipAndRenderAdvance(Refreshed(e, now, mediaItems, failing));
  }

  /** A refresh whose album request raises is not caught in the loop (unlike at start-up). */
  lemma RefreshFailureCrashes(e: Engine, now: int, failing: set<nat>)
    requires !e.flags.paused && RefreshDue(e, now)
    ensures Tick(e, now, Unreachable, failing) == (e, Crashed(SourceUnavailable))
  {
  }

  /** A refresh that keeps no photo leaves an empty playlist: a skip divides by zero, a render indexes past the end. */
  lemma EmptyRefreshCrashes(e: Engine, now: int, mediaItems: Option<seq<MediaItem>>, failing: set<nat>)
    requires !e.flags.paused && RefreshDue(e, now)
    requires KeepPhotos(MediaItemsOf(mediaItems)) == []
    ensures Tick(e, now, Listed(mediaItems), failing).1
            == Crashed(if e.flags.next then ZeroDivision else IndexOutOfRange)
  {
  }

  /** The position is not re-clamped after a refresh: a playlist shrunk to at most the position crashes the render. */
  lemma ShrinkingRefreshCrashes(e: Engine, now: int, mediaItems: Option<seq<MediaItem>>, failing: set<nat>)
    requires !e.flags.paused && RefreshDue(e, now) && !e.flags.next
    requires |KeepPhotos(MediaItemsOf(mediaItems))| <= e.idx
    ensures Tick(e, now, Listed(mediaItems), failing).1 == Crashed(IndexOutOfRange)
  {
  }

  /** Every iteration that renders leaves the position inside the playlist it rendered from. */
  lemma TickKeepsPositionInRange(e: Engine, now: int, album: AlbumResponse, failing: set<nat>)
    requires Tick(e, now, album, failing).1.Shown?
    ensures var e' := Tick(e, now, album, failing).0;
            e'.idx < |e'.files| && Tick(e, now, album, failing).1.file in e'.files
  {
  }

  // ---------------------------------------------------------------------------
  // Several iterations
  // ---------------------------------------------------------------------------

  /**
    One iteration per clock reading in `nows`, none of them with a refresh
    due (the album is then never asked).
   */
  function Run(e: Engine, nows: seq<int>): Engine
    decreases |nows|
  {
    if |nows| == 0 then e else Run(Tick(e, nows[0], Unreachable, {}).0, nows[1..])
  }

  /**
    Nothing pending at any of the clock readings `nows`: not paused, no skip,
    no refresh requested, and no reading more than the refresh interval after
    the last refresh.
   */
  predicate Quiet(e: Engine, nows: seq<int>) {
    && !e.flags.paused && !e.flags.next && !e.flags.refresh
    && e.idx < |e.files|
    && forall i :: 0 <= i < |nows| ==> nows[i] - e.lastRefresh <= RefreshInterval
  }

  /**
    Without skips or refreshes the position goes round the playlist: after k
    iterations it has moved on by k modulo the length, so after as many
    iterations as there are files it is back where it started.
   */
  lemma {:induction false} RunCycles(e: Engine, nows: seq<int>)
    requires Quiet(e, nows)
    ensures Run(e, nows).idx == (e.idx + |nows|) % |e.files|
    decreases |nows|
  {
    if |nows| != 0 {
      var n, k := |e.files|, |nows| - 1;
      var e1 := e.(idx := (e.idx + 1) % n);
      PlainRun(e, nows);
      RunCycles(e1, nows[1..]);
      var i1 := (e.idx + 1) % n;
      assert Run(e, nows).idx == (i1 + k) % n;
      ModShift(e.idx + 1, k, n);
      assert (e.idx + 1) + k == e.idx + |nows|;
    } else {
      ModUnique(e.idx, |e.files|, 0, e.idx);
    }
  }

  /** Iterations with nothing pending keep the playlist, the refresh time and the flags. */
  lemma {:induction false} RunKeepsPlaylist(e: Engine, nows: seq<int>)
    requires Quiet(e, nows)
    ensures Run(e, nows).files == e.files && Run(e, nows).flags == e.flags
    ensures Run(e, nows).lastRefresh == e.lastRefresh
    decreases |nows|
  {
    if |nows| != 0 {
      PlainRun(e, nows);
      RunKeepsPlaylist(e.(idx := (e.idx + 1) % |e.files|), nows[1..]);
    }
  }

  /** With nothing pending, the first iteration only moves the position on, and nothing is pending after it. */
  lemma PlainRun(e: Engine, nows: seq<int>)
    requires Quiet(e, nows) && |nows| != 0
    ensures Run(e, nows) == Run(e.(idx := (e.idx + 1) % |e.files|), nows[1..])
    ensures Quiet(e.(idx := (e.idx + 1) % |e.files|), nows[1..])
  {
    assert !RefreshDue(e, nows[0]);
    assert Tick(e, nows[0], Unreachable, {}).0 == e.(idx := (e.idx + 1) % |e.files|);
    forall i | 0 <= i < |nows| - 1 ensures nows[1..][i] - e.lastRefresh <= RefreshInterval {
      assert nows[1..][i] == nows[i + 1];
    }
  }

  lemma RunFullCircle(e: Engine, nows: seq<int>)
    requires Quiet(e, nows) && |nows| == |e.files|
    ensures Run(e, nows).idx == e.idx
  {
    RunCycles(e, nows);
    ModUnique(e.idx + |e.files|, |e.files|, 1, e.idx);
  }

  /**
    Two still images and a GIF, freshly cached: the first three iterations
    display, display and play the GIF, and the position is back at 0.
   */
  lemma ThreePhotoRound(photoData: seq<Photo>, disk: set<string>, t: int)
    requires |photoData| == 3
    requires photoData[0].mime != GifMime && photoData[1].mime != GifMime && photoData[2].mime == GifMime
    ensures var e0 := Engine(0, CachePaths(photoData), t, disk, Initial);
            var (e1, o1) := Tick(e0, t, Unreachable, {});
            var (e2, o2) := Tick(e1, t, Unreachable, {});
            var (e3, o3) := Tick(e2, t, Unreachable, {});
            && o1 == Shown(DisplayImage, CachePaths(photoData)[0])
            && o2 == Shown(DisplayImage, CachePaths(photoData)[1])
            && o3 == Shown(PlayGif, CachePaths(photoData)[2])
            && e3.idx == 0
  {
    var files := CachePaths(photoData);
    assert files[0] == CachePath(0, photoData[0].mime);
    assert files[1] == CachePath(1, photoData[1].mime);
    assert files[2] == CachePath(2, photoData[2].mime);
  }
}
