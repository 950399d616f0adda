/**
  The album listing step of app.py (`get_photos_in_album`): the decoded
  `mediaItems` of a search response are filtered down to still images other
  than HEIC, and each kept item's base URL gets a size suffix ("=w800-h600")
  or, for a GIF, the download suffix ("=d").
 */
module Album {
  import opened Wrappers
  import opened Strings

  /** One entry of the response's `mediaItems` list. */
  datatype MediaItem = MediaItem(mimeType: string, baseUrl: string)

  /** One entry of `photo_data`: the URL to fetch and the item's MIME type. */
  datatype Photo = Photo(url: string, mime: string)

  const GifMime := "image/gif"
  const HeicMime := "image/heic"

  /** The filter of app.py:84. */
  predicate IsStill(mime: string) {
    StartsWith(mime, "image/") && mime != HeicMime
  }

  function UrlSuffix(mime: string): string {
    if mime == GifMime then "=d" else "=w800-h600"
  }

  function ToPhoto(item: MediaItem): (p: Photo)
    ensures p.mime == item.mimeType
    ensures p.mime == GifMime ==> p.url == item.baseUrl + "=d"
    ensures p.mime != GifMime ==> p.url == item.baseUrl + "=w800-h600"
  {
    Photo(item.baseUrl + UrlSuffix(item.mimeType), item.mimeType)
  }

  /** `response.json().get('mediaItems', [])`: a missing key reads as no items. */
  function MediaItemsOf(response: Option<seq<MediaItem>>): (items: seq<MediaItem>)
    ensures response.None? ==> items == []
    ensures response.Some? ==> items == response.value
  {
    match response
    case None => []
    case Some(items) => items
  }

  /** The specification of the loop at app.py:82-86: the photos kept from `items`, in order. */
  function KeepPhotos(items: seq<MediaItem>): (r: seq<Photo>)
    ensures |r| <= |items|
    ensures forall k :: 0 <= k < |r| ==> IsStill(r[k].mime)
  {
    if |items| == 0 then []
    else
      var last := items[|items| - 1];
      KeepPhotos(items[..|items| - 1]) + (if IsStill(last.mimeType) then [ToPhoto(last)] else [])
  }

  /** The positions of the still images in `items`, in increasing order. */
  function StillIndices(items: seq<MediaItem>): (r: seq<nat>)
    ensures forall k :: 0 <= k < |r| ==> r[k] < |items| && IsStill(items[r[k]].mimeType)
    ensures forall j :: 0 <= j < |items| && IsStill(items[j].mimeType) ==> j in r
    ensures forall k, l :: 0 <= k < l < |r| ==> r[k] < r[l]
  {
    if |items| == 0 then []
    else
      var n := |items| - 1;
      var front := StillIndices(items[..n]);
      StillIndicesSnoc(items, front);
      front + (if IsStill(items[n].mimeType) then [n] else [])
  }

  /** The step of `StillIndices`: the positions found in all but the last item, and the last one if it is still. */
  lemma StillIndicesSnoc(items: seq<MediaItem>, front: seq<nat>)
    requires |items| != 0
    requires forall k :: 0 <= k < |front| ==> front[k] < |items| - 1 && IsStill(items[..|items| - 1][front[k]].mimeType)
    requires forall j :: 0 <= j < |items| - 1 && IsStill(items[..|items| - 1][j].mimeType) ==> j in front
    requires forall k, l :: 0 <= k < l < |front| ==> front[k] < front[l]
    ensures var r := front + (if IsStill(items[|items| - 1].mimeType) then [|items| - 1] else []);
            && (forall k :: 0 <= k < |r| ==> r[k] < |items| && IsStill(items[r[k]].mimeType))
            && (forall j :: 0 <= j < |items| && IsStill(items[j].mimeType) ==> j in r)
            && (forall k, l :: 0 <= k < l < |r| ==> r[k] < r[l])
  {
    var n := |items| - 1;
    var init := items[..n];
    var r := front + (if IsStill(items[n].mimeType) then [n] else []);
    forall k | 0 <= k < |r| ensures r[k] < |items| && IsStill(items[r[k]].mimeType) {
      if k < |front| {
        assert r[k] == front[k] && items[front[k]] == init[front[k]];
      }
    }
    forall j | 0 <= j < |items| && IsStill(items[j].mimeType) ensures j in r {
      if j < n {
        assert items[j] == init[j];
      }
    }
    forall k, l | 0 <= k < l < |r| ensures r[k] < r[l] {
      if l < |front| {
        assert r[k] == front[k] && r[l] == front[l];
      }
    }
  }

  /**
    The filter keeps exactly the still images, in source order: the k-th kept
    photo is made from the k-th still item.
   */
  lemma {:induction false} KeepPhotosExactly(items: seq<MediaItem>)
    ensures |KeepPhotos(items)| == |StillIndices(items)|
    ensures forall k :: 0 <= k < |KeepPhotos(items)| ==>
              KeepPhotos(items)[k] == ToPhoto(items[StillIndices(items)[k]])
  {
    if |items| != 0 {
      var n := |items| - 1;
      var init := items[..n];
      KeepPhotosExactly(init);
      var front, indices := KeepPhotos(init), StillIndices(init);
      var kept, all := KeepPhotos(items), StillIndices(items);
      assert kept == front + (if IsStill(items[n].mimeType) then [ToPhoto(items[n])] else []);
      assert all == indices + (if IsStill(items[n].mimeType) then [n] else []);
      forall k | 0 <= k < |kept|
        ensures kept[k] == ToPhoto(items[all[k]])
      {
        if k < |front| {
          assert kept[k] == front[k] && all[k] == indices[k];
          assert items[indices[k]] == init[indices[k]];
        }
      }
    }
  }

  /** Filtering distributes over concatenation, so no item is reordered or dropped across a split. */
  lemma {:induction false} KeepPhotosAppend(a: seq<MediaItem>, b: seq<MediaItem>)
    ensures KeepPhotos(a + b) == KeepPhotos(a) + KeepPhotos(b)
    decreases |b|
  {
    if |b| == 0 {
      assert a + b == a;
    } else {
      var n := |b| - 1;
      assert (a + b)[..|a + b| - 1] == a + b[..n];
      assert (a + b)[|a + b| - 1] == b[n];
      KeepPhotosAppend(a, b[..n]);
    }
  }

  /** `get_photos_in_album` after the HTTP request: the loop that builds `photo_data`. */
  method GetPhotosInAlbum(response: Option<seq<MediaItem>>) returns (photoData: seq<Photo>)
    ensures photoData == KeepPhotos(MediaItemsOf(response))
  {
    var mediaItems := MediaItemsOf(response);
    photoData := [];
    var i := 0;
    while i < |mediaItems|
      invariant 0 <= i <= |mediaItems|
      invariant photoData == KeepPhotos(mediaItems[..i])
    {
      var item := mediaItems[i];
      var mime := item.mimeType;
      if StartsWith(mime, "image/") && mime != HeicMime {
        var url := item.baseUrl + (if mime == GifMime then "=d" else "=w800-h600");
        photoData := photoData + [Photo(url, mime)];
      }
      assert mediaItems[..i + 1][..i] == mediaItems[..i];
      i := i + 1;
    }
    assert mediaItems[..i] == mediaItems;
  }
}
