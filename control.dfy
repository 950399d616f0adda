/**
  The control record of the photo frame: three booleans written by the HTTP
  handlers and read, and partly cleared, by the slideshow loop. The source
  has two identical copies, `state` with its handlers in photo_frame_api.py
  and again at app.py:26-30 and app.py:42-60; they are one object here.
 */
module Control {

  datatype Flags = Flags(paused: bool, next: bool, refresh: bool)

  /** The record at process start: nothing paused, nothing pending. */
  const Initial := Flags(false, false, false)

  /** POST /pause */
  function WithPause(f: Flags): (g: Flags)
    ensures g.paused
    ensures g.next == f.next && g.refresh == f.refresh
  {
    f.(paused := true)
  }

  /** POST /resume */
  function WithResume(f: Flags): (g: Flags)
    ensures !g.paused
    ensures g.next == f.next && g.refresh == f.refresh
  {
    f.(paused := false)
  }

  /** POST /next */
  function WithNext(f: Flags): (g: Flags)
    ensures g.next
    ensures g.paused == f.paused && g.refresh == f.refresh
  {
    f.(next := true)
  }

  /** POST /refresh */
  function WithRefresh(f: Flags): (g: Flags)
    ensures g.refresh
    ensures g.paused == f.paused && g.next == f.next
  {
    f.(refresh := true)
  }

  /** The four POST endpoints, as requests that can arrive one after another. */
  datatype Request = Pause | Resume | NextPhoto | RefreshAlbum

  function Handle(f: Flags, req: Request): Flags {
    match req
    case Pause => WithPause(f)
    case Resume => WithResume(f)
    case NextPhoto => WithNext(f)
    case RefreshAlbum => WithRefresh(f)
  }

  /** The record after the handlers for `reqs` have run in arrival order. */
  function HandleAll(f: Flags, reqs: seq<Request>): Flags
    decreases |reqs|
  {
    if |reqs| == 0 then f else HandleAll(Handle(f, reqs[0]), reqs[1..])
  }

  lemma HandlersIdempotent(f: Flags, req: Request)
    ensures Handle(Handle(f, req), req) == Handle(f, req)
  {
  }

  lemma PauseThenResume(f: Flags)
    ensures WithResume(WithPause(f)) == f.(paused := false)
  {
  }

  /** No handler clears `next` or `refresh`; only the slideshow loop does. */
  lemma HandlersNeverClear(f: Flags, req: Request)
    ensures f.next ==> Handle(f, req).next
    ensures f.refresh ==> Handle(f, req).refresh
  {
  }

  predicate Toggles(req: Request) {
    req == Pause || req == Resume
  }

  /**
    After a run of requests, `next` and `refresh` are set iff they were set
    before or some request set them, and `paused` is decided by the last
    pause or resume, or left as it was when there is none.
   */
  lemma {:induction false} HandleAllFlags(f: Flags, reqs: seq<Request>)
    ensures HandleAll(f, reqs).next <==> f.next || NextPhoto in reqs
    ensures HandleAll(f, reqs).refresh <==> f.refresh || RefreshAlbum in reqs
    ensures (forall i :: 0 <= i < |reqs| ==> !Toggles(reqs[i])) ==> HandleAll(f, reqs).paused == f.paused
    ensures forall i :: 0 <= i < |reqs| && Toggles(reqs[i]) && (forall j :: i < j < |reqs| ==> !Toggles(reqs[j])) ==>
              HandleAll(f, reqs).paused == (reqs[i] == Pause)
    decreases |reqs|
  {
    if |reqs| != 0 {
      var g := Handle(f, reqs[0]);
      var rest := reqs[1..];
      HandleAllFlags(g, rest);
      assert reqs == [reqs[0]] + rest;
      assert forall i :: 1 <= i < |reqs| ==> reqs[i] == rest[i - 1];
      forall i | 0 <= i < |reqs| && Toggles(reqs[i]) && (forall j :: i < j < |reqs| ==> !Toggles(reqs[j]))
        ensures HandleAll(f, reqs).paused == (reqs[i] == Pause)
      {
        if i == 0 {
          assert forall k :: 0 <= k < |rest| ==> !Toggles(rest[k]) by {
            forall k | 0 <= k < |rest| ensures !Toggles(rest[k]) {
              assert rest[k] == reqs[k + 1];
            }
          }
        } else {
          assert Toggles(rest[i - 1]);
          assert forall j :: i - 1 < j < |rest| ==> !Toggles(rest[j]) by {
            forall j | i - 1 < j < |rest| ensures !Toggles(rest[j]) {
              assert rest[j] == reqs[j + 1];
            }
          }
        }
      }
    }
  }

  /** Pause, resume, pause in quick succession leaves the slideshow paused. */
  lemma PauseResumePause(f: Flags)
    ensures HandleAll(f, [Pause, Resume, Pause]).paused
  {
    var reqs := [Pause, Resume, Pause];
    HandleAllFlags(f, reqs);
    assert Toggles(reqs[2]);
  }

  /** The module-level `state` dict, shared by the HTTP handlers and the slideshow loop. */
  class ControlState {
    var paused: bool
    var next: bool
    var refresh: bool

    function Snapshot(): Flags
      reads this
    {
      Flags(paused, next, refresh)
    }

    /** photo_frame_api.py:7-11 */
    constructor ()
      ensures Snapshot() == Initial
    {
      paused, next, refresh := false, false, false;
    }

    /** GET /: the three current values; nothing changes. */
    method Root() returns (status: Flags)
      ensures status.paused == paused && status.next == next && status.refresh == refresh
    {
      status := Flags(paused, next, refresh);
    }

    method Pause()
      modifies this
      ensures Snapshot() == WithPause(old(Snapshot()))
    {
      paused := true;
    }

    method Resume()
      modifies this
      ensures Snapshot() == WithResume(old(Snapshot()))
    {
      paused := false;
    }

    method NextPhoto()
      modifies this
      ensures Snapshot() == WithNext(old(Snapshot()))
    {
      next := true;
    }

    method RefreshAlbum()
      modifies this
      ensures Snapshot() == WithRefresh(old(Snapshot()))
    {
      refresh := true;
    }
  }
}
