/**
  The local photo cache of app.py: `cache_photos`, which names each photo's
  file after its position and kind and downloads only the files that are not
  on disk yet, and `load_cache`, which lists what is already on disk.

  The cache directory is modelled as the set of file paths present in it, and
  the outcome of each download as the set `failing` of the positions whose
  file is never created: `requests.get` or `open` raises. A write that raises
  after `open` leaves a file behind, so its position is not in `failing`.
 */
module Cache {
  import opened Wrappers
  import opened Strings
  import opened Album

  const CacheDir := "cache"

  /** `os.path.join(CACHE_DIR, 'photo_')` on a POSIX system. */
  const PathPrefix := CacheDir + "/photo_"

  function Extension(mime: string): string {
    if mime == GifMime then "gif" else "jpg"
  }

  /** The file name app.py:93-94 gives the photo at position `idx`. */
  function CachePath(idx: nat, mime: string): (p: string)
    ensures StartsWith(p, PathPrefix)
    ensures EndsWith(p, ".gif") <==> mime == GifMime
    ensures EndsWith(p, ".jpg") <==> mime != GifMime
  {
    var p := PathPrefix + NatToString(idx) + "." + Extension(mime);
    assert p[|p| - 4..] == "." + Extension(mime);
    assert p[..|PathPrefix|] == PathPrefix;
    assert ".gif"[1] != ".jpg"[1];
    p
  }

  /** The number inside a cache file name is the position it was made for. */
  lemma CachePathInjective(i: nat, m: string, j: nat, m': string)
    requires CachePath(i, m) == CachePath(j, m')
    ensures i == j
  {
    var p := PathPrefix + NatToString(i) + "." + Extension(m);
    var q := PathPrefix + NatToString(j) + "." + Extension(m');
    assert p[|PathPrefix|..|p| - 4] == NatToString(i);
    assert q[|PathPrefix|..|q| - 4] == NatToString(j);
    NatToStringInjective(i, j);
  }

  /** The list `cache_photos` returns for `photoData`, one path per photo. */
  function CachePaths(photoData: seq<Photo>): seq<string> {
    seq(|photoData|, i requires 0 <= i < |photoData| => CachePath(i, photoData[i].mime))
  }

  /**
    One path per photo, in order: entry i is `cache/photo_<i>.gif` for a GIF
    and `cache/photo_<i>.jpg` for anything else.
   */
  lemma CachePathsSpelledOut(photoData: seq<Photo>)
    ensures |CachePaths(photoData)| == |photoData|
    ensures forall i :: 0 <= i < |photoData| ==>
              CachePaths(photoData)[i]
              == "cache/photo_" + NatToString(i) + (if photoData[i].mime == GifMime then ".gif" else ".jpg")
  {
    forall i | 0 <= i < |photoData|
      ensures CachePaths(photoData)[i]
              == "cache/photo_" + NatToString(i) + (if photoData[i].mime == GifMime then ".gif" else ".jpg")
    {
      CachePathSpelledOut(i, photoData[i].mime);
    }
  }

  lemma CachePathSpelledOut(i: nat, mime: string)
    ensures CachePath(i, mime) == "cache/photo_" + NatToString(i) + (if mime == GifMime then ".gif" else ".jpg")
  {
    var d := NatToString(i);
    var e := Extension(mime);
    DottedExtension(mime);
    assert PathPrefix == "cache/photo_";
    assert PathPrefix + d + "." + e == PathPrefix + d + ("." + e);
  }

  lemma DottedExtension(mime: string)
    ensures "." + Extension(mime) == (if mime == GifMime then ".gif" else ".jpg")
  {
  }

  /** Two different photos of one listing never share a cache file. */
  lemma CachePathsDistinct(photoData: seq<Photo>, i: nat, j: nat)
    requires i < j < |photoData|
    ensures CachePaths(photoData)[i] != CachePaths(photoData)[j]
  {
    if CachePaths(photoData)[i] == CachePaths(photoData)[j] {
      CachePathInjective(i, photoData[i].mime, j, photoData[j].mime);
    }
  }

  /** The positions `cache_photos` downloads: those whose file is absent, in order. */
  function ToFetch(paths: seq<string>, disk: set<string>): (r: seq<nat>)
    ensures forall k :: 0 <= k < |r| ==> r[k] < |paths| && paths[r[k]] !in disk
    ensures forall i :: 0 <= i < |paths| && paths[i] !in disk ==> i in r
    ensures forall k, l :: 0 <= k < l < |r| ==> r[k] < r[l]
  {
    if |paths| == 0 then []
    else
      var n := |paths| - 1;
      var front := ToFetch(paths[..n], disk);
      assert forall i :: 0 <= i < n ==> paths[..n][i] == paths[i];
      front + (if paths[n] in disk then [] else [n])
  }

  /** The files on disk afterwards: the ones there before plus every path whose file was created. */
  function Stored(disk: set<string>, paths: seq<string>, failing: set<nat>): set<string> {
    if |paths| == 0 then disk
    else
      var n := |paths| - 1;
      Stored(disk, paths[..n], failing) + (if n in failing then {} else {paths[n]})
  }

  lemma {:induction false} StoredMember(disk: set<string>, paths: seq<string>, failing: set<nat>, p: string)
    ensures p in Stored(disk, paths, failing)
            <==> p in disk || exists i :: 0 <= i < |paths| && i !in failing && paths[i] == p
  {
    if |paths| != 0 {
      var n := |paths| - 1;
      StoredMember(disk, paths[..n], failing, p);
      assert forall i :: 0 <= i < n ==> paths[..n][i] == paths[i];
      if exists i :: 0 <= i < |paths| && i !in failing && paths[i] == p {
        var i :| 0 <= i < |paths| && i !in failing && paths[i] == p;
        if i < n { assert paths[..n][i] == p; }
      }
    }
  }

  /**
    A photo's file is on disk after `cache_photos` exactly when it was there
    before or its file was created, and no other file appears.
   */
  lemma StoredExactly(photoData: seq<Photo>, disk: set<string>, failing: set<nat>, i: nat)
    requires i < |photoData|
    ensures var paths := CachePaths(photoData);
            paths[i] in Stored(disk, paths, failing) <==> paths[i] in disk || i !in failing
    ensures forall p :: p in Stored(disk, CachePaths(photoData), failing) && p !in disk ==> p in CachePaths(photoData)
  {
    var paths := CachePaths(photoData);
    StoredMember(disk, paths, failing, paths[i]);
    if paths[i] in Stored(disk, paths, failing) && paths[i] !in disk {
      var j :| 0 <= j < |paths| && j !in failing && paths[j] == paths[i];
      if j < i { CachePathsDistinct(photoData, j, i); }
      if i < j { CachePathsDistinct(photoData, i, j); }
    }
    forall p | p in Stored(disk, paths, failing) && p !in disk ensures p in paths {
      StoredMember(disk, paths, failing, p);
    }
  }

  /**
    `cache_photos`: returns one path per photo in order, whether or not its
    download succeeded, downloads exactly the photos whose file is absent, and
    adds the files that were created.
   */
  method CachePhotos(photoData: seq<Photo>, disk: set<string>, failing: set<nat>)
    returns (cached: seq<string>, disk': set<string>, fetched: seq<nat>)
    ensures cached == CachePaths(photoData)
    ensures fetched == ToFetch(cached, disk)
    ensures disk' == Stored(disk, cached, failing)
  {
    cached, disk', fetched := [], disk, [];
    var idx := 0;
    while idx < |photoData|
      invariant 0 <= idx <= |photoData|
      invariant |cached| == idx
      invariant forall k :: 0 <= k < idx ==> cached[k] == CachePath(k, photoData[k].mime)
      invariant disk' == Stored(disk, cached, failing)
      invariant fetched == ToFetch(cached, disk)
    {
      var filename := CachePath(idx, photoData[idx].mime);
      NotWrittenEarlier(photoData, cached, disk, failing);
      ghost var diskBefore := disk';
      if filename !in disk' {
        fetched := fetched + [idx];
        if idx !in failing {
          disk' := disk' + {filename};
        }
      } else {
        AddPresent(disk', filename);
      }
      assert disk' == diskBefore + (if idx in failing then {} else {filename});
      StoredSnoc(disk, cached, filename, failing);
      ToFetchSnoc(cached, filename, disk);
      ghost var before := cached;
      cached := cached + [filename];
      forall k | 0 <= k < idx + 1 ensures cached[k] == CachePath(k, photoData[k].mime) {
        if k < idx { assert cached[k] == before[k]; }
      }
      idx := idx + 1;
    }
  }

  lemma AddPresent(s: set<string>, p: string)
    requires p in s
    ensures s + {p} == s
  {
  }

  lemma StoredSnoc(disk: set<string>, paths: seq<string>, p: string, failing: set<nat>)
    ensures Stored(disk, paths + [p], failing)
            == Stored(disk, paths, failing) + (if |paths| in failing then {} else {p})
  {
    assert (paths + [p])[..|paths|] == paths;
  }

  lemma ToFetchSnoc(paths: seq<string>, p: string, disk: set<string>)
    ensures ToFetch(paths + [p], disk) == ToFetch(paths, disk) + (if p in disk then [] else [|paths|])
  {
    assert (paths + [p])[..|paths|] == paths;
  }

  /** The files written earlier in one `cache_photos` call have other names than the current one. */
  lemma NotWrittenEarlier(photoData: seq<Photo>, cached: seq<string>, disk: set<string>, failing: set<nat>)
    requires |cached| < |photoData|
    requires forall k :: 0 <= k < |cached| ==> cached[k] == CachePath(k, photoData[k].mime)
    ensures var p := CachePath(|cached|, photoData[|cached|].mime);
            p in Stored(disk, cached, failing) <==> p in disk
  {
    var idx := |cached|;
    var p := CachePath(idx, photoData[idx].mime);
    StoredMember(disk, cached, failing, p);
    forall k | 0 <= k < idx ensures cached[k] != p {
      if cached[k] == p {
        CachePathInjective(k, photoData[k].mime, idx, photoData[idx].mime);
      }
    }
  }

  /**
    Idempotence: once a call that created every missing file has run, a second
    call with the same photos downloads nothing and leaves the disk as it is
    (and it returns the same list, CachePaths depending on the photos alone).
   */
  lemma CacheTwiceFetchesNothing(photoData: seq<Photo>, disk: set<string>, failing: set<nat>, failing': set<nat>)
    requires forall k :: k in ToFetch(CachePaths(photoData), disk) ==> k !in failing
    ensures var paths := CachePaths(photoData);
            var disk1 := Stored(disk, paths, failing);
            ToFetch(paths, disk1) == [] && Stored(disk1, paths, failing') == disk1
  {
    var paths := CachePaths(photoData);
    var disk1 := Stored(disk, paths, failing);
    forall i | 0 <= i < |paths| ensures paths[i] in disk1 {
      StoredMember(disk, paths, failing, paths[i]);
      if paths[i] !in disk {
        assert i in ToFetch(paths, disk);
      }
    }
    ToFetchAllPresent(paths, disk1);
    forall p ensures p in Stored(disk1, paths, failing') <==> p in disk1 {
      StoredMember(disk1, paths, failing', p);
    }
  }

  lemma {:induction false} ToFetchAllPresent(paths: seq<string>, disk: set<string>)
    requires forall i :: 0 <= i < |paths| ==> paths[i] in disk
    ensures ToFetch(paths, disk) == []
  {
    if |paths| != 0 {
      ToFetchAllPresent(paths[..|paths| - 1], disk);
    }
  }

  // ---------------------------------------------------------------------------
  // load_cache
  // ---------------------------------------------------------------------------

  /** `f.endswith(('.jpg', '.gif'))` */
  predicate IsCacheFile(name: string) {
    EndsWith(name, ".jpg") || EndsWith(name, ".gif")
  }

  /** The names of `names` that are cache files, in the order given. */
  function CacheFiles(names: seq<string>): (r: seq<string>)
    ensures forall k :: 0 <= k < |r| ==> r[k] in names && IsCacheFile(r[k])
    ensures forall n :: n in names && IsCacheFile(n) ==> n in r
    ensures Sorted(names) ==> Sorted(r)
    ensures forall n :: multiset(r)[n] == (if IsCacheFile(n) then multiset(names)[n] else 0)
  {
    if |names| == 0 then []
    else
      var rest := CacheFiles(names[1..]);
      var r := if IsCacheFile(names[0]) then [names[0]] + rest else rest;
      CacheFilesMembers(names, rest, r);
      CacheFilesSorted(names, rest, r);
      CacheFilesCount(names, rest, r);
      r
  }

  /** Step of `CacheFiles` for membership: the kept names are the listed cache files. */
  lemma CacheFilesMembers(names: seq<string>, rest: seq<string>, r: seq<string>)
    requires |names| != 0
    requires forall k :: 0 <= k < |rest| ==> rest[k] in names[1..] && IsCacheFile(rest[k])
    requires forall n :: n in names[1..] && IsCacheFile(n) ==> n in rest
    requires r == if IsCacheFile(names[0]) then [names[0]] + rest else rest
    ensures forall k :: 0 <= k < |r| ==> r[k] in names && IsCacheFile(r[k])
    ensures forall n :: n in names && IsCacheFile(n) ==> n in r
  {
    assert names == [names[0]] + names[1..];
  }

  /** Step of `CacheFiles` for order: a sorted listing gives a sorted result. */
  lemma CacheFilesSorted(names: seq<string>, rest: seq<string>, r: seq<string>)
    requires |names| != 0
    requires forall k :: 0 <= k < |rest| ==> rest[k] in names[1..]
    requires Sorted(names[1..]) ==> Sorted(rest)
    requires r == if IsCacheFile(names[0]) then [names[0]] + rest else rest
    ensures Sorted(names) ==> Sorted(r)
  {
    if Sorted(names) {
      SortedTail(names);
      if IsCacheFile(names[0]) {
        forall k | 0 <= k < |rest| ensures Below(names[0], rest[k]) {
          var i :| 0 <= i < |names[1..]| && names[1..][i] == rest[k];
          assert Below(names[0], names[i + 1]);
        }
        SortedCons(names[0], rest);
      }
    }
  }

  /** Step of `CacheFiles` for multiplicity: each cache file is kept as often as it is listed. */
  lemma CacheFilesCount(names: seq<string>, rest: seq<string>, r: seq<string>)
    requires |names| != 0
    requires forall n :: multiset(rest)[n] == (if IsCacheFile(n) then multiset(names[1..])[n] else 0)
    requires r == if IsCacheFile(names[0]) then [names[0]] + rest else rest
    ensures forall n :: multiset(r)[n] == (if IsCacheFile(n) then multiset(names)[n] else 0)
  {
    assert names == [names[0]] + names[1..];
    assert multiset(names) == multiset{names[0]} + multiset(names[1..]);
    if IsCacheFile(names[0]) {
      assert multiset(r) == multiset{names[0]} + multiset(rest);
    }
  }

  /** The filter keeps the listing's order: filtering a concatenation filters each part. */
  lemma {:induction false} CacheFilesAppend(a: seq<string>, b: seq<string>)
    ensures CacheFiles(a + b) == CacheFiles(a) + CacheFiles(b)
    decreases |a|
  {
    if |a| == 0 {
      assert a + b == b;
    } else {
      assert (a + b)[0] == a[0];
      assert (a + b)[1..] == a[1..] + b;
      CacheFilesAppend(a[1..], b);
    }
  }

  /** Every name with `p` in front, in order. */
  function Prefixed(p: string, names: seq<string>): (r: seq<string>)
    ensures |r| == |names|
    ensures forall k :: 0 <= k < |r| ==> r[k] == p + names[k]
  {
    seq(|names|, k requires 0 <= k < |names| => p + names[k])
  }

  /** Different names keep different paths once the same prefix is put in front. */
  lemma PrefixInjective(p: string, x: string, y: string)
    requires p + x == p + y
    ensures x == y
  {
    assert x == (p + x)[|p|..];
    assert y == (p + y)[|p|..];
  }

  /** Each name occurs in the prefixed list exactly as often as in the list of names. */
  lemma {:induction false} PrefixedCount(p: string, names: seq<string>, n: string)
    ensures multiset(Prefixed(p, names))[p + n] == multiset(names)[n]
    decreases |names|
  {
    if |names| != 0 {
      PrefixedCount(p, names[1..], n);
      PrefixedCons(p, names);
      if p + names[0] == p + n {
        PrefixInjective(p, names[0], n);
      }
    }
  }

  /** The multisets of a non-empty list of names and of its prefixed list, split at the head. */
  lemma PrefixedCons(p: string, names: seq<string>)
    requires |names| != 0
    ensures multiset(Prefixed(p, names)) == multiset{p + names[0]} + multiset(Prefixed(p, names[1..]))
    ensures multiset(names) == multiset{names[0]} + multiset(names[1..])
  {
    assert Prefixed(p, names) == [p + names[0]] + Prefixed(p, names[1..]);
    assert names == [names[0]] + names[1..];
  }

  /** `os.path.join(CACHE_DIR, f)` for each name. */
  function InCacheDir(names: seq<string>): (r: seq<string>)
    ensures |r| == |names|
    ensures forall k :: 0 <= k < |r| ==> r[k] == CacheDir + "/" + names[k]
  {
    Prefixed(CacheDir + "/", names)
  }

  /**
    `load_cache`: `listing` is the directory's `os.listdir`, or None when the
    directory does not exist. The result holds every cache file of the
    directory, each prefixed with the directory, in Python's string order
    (so "photo_10.jpg" comes before "photo_2.jpg").
   */
  function LoadCache(listing: Option<seq<string>>): (r: seq<string>)
    ensures listing.None? ==> r == []
    ensures forall k :: 0 <= k < |r| ==> StartsWith(r[k], CacheDir + "/") && IsCacheFile(r[k])
    ensures Sorted(r)
    ensures listing.Some? ==>
              forall n :: (n in listing.value && IsCacheFile(n)) <==> CacheDir + "/" + n in r
    ensures listing.Some? ==>
              forall n :: multiset(r)[CacheDir + "/" + n]
                          == (if IsCacheFile(n) then multiset(listing.value)[n] else 0)
  {
    match listing
    case None => []
    case Some(names) =>
      var sorted := Sort(names);
      var files := CacheFiles(sorted);
      var r := InCacheDir(files);
      InCacheDirShape(files);
      InCacheDirSorted(files);
      LoadCacheCount(names, sorted, files, r);
      r
  }

  /** Every joined name is in the cache directory and keeps its extension. */
  lemma InCacheDirShape(files: seq<string>)
    requires forall k :: 0 <= k < |files| ==> IsCacheFile(files[k])
    ensures forall k :: 0 <= k < |files| ==>
              StartsWith(InCacheDir(files)[k], CacheDir + "/") && IsCacheFile(InCacheDir(files)[k])
  {
    var r := InCacheDir(files);
    forall k | 0 <= k < |r| ensures StartsWith(r[k], CacheDir + "/") && IsCacheFile(r[k]) {
      StartsWithOwnPrefix(CacheDir + "/", files[k]);
      assert r[k] == (CacheDir + "/") + files[k];
      if EndsWith(files[k], ".jpg") {
        EndsWithSuffixKept(CacheDir + "/", files[k], ".jpg");
      } else {
        EndsWithSuffixKept(CacheDir + "/", files[k], ".gif");
      }
    }
  }

  /** Joining every name to the directory keeps the names in order. */
  lemma InCacheDirSorted(files: seq<string>)
    requires Sorted(files)
    ensures Sorted(InCacheDir(files))
  {
    var r := InCacheDir(files);
    forall i, j | 0 <= i < j < |r| ensures Below(r[i], r[j]) {
      BelowUnderPrefix(CacheDir + "/", files[i], files[j]);
      assert r[i] == (CacheDir + "/") + files[i] && r[j] == (CacheDir + "/") + files[j];
    }
  }

  /** Each listed cache file appears once per listing entry, joined to the directory, and nothing else appears. */
  lemma LoadCacheCount(names: seq<string>, sorted: seq<string>, files: seq<string>, r: seq<string>)
    requires multiset(sorted) == multiset(names)
    requires files == CacheFiles(sorted)
    requires r == InCacheDir(files)
    ensures forall n :: multiset(r)[CacheDir + "/" + n] == (if IsCacheFile(n) then multiset(names)[n] else 0)
    ensures forall n :: (n in names && IsCacheFile(n)) <==> CacheDir + "/" + n in r
  {
    forall n ensures multiset(r)[CacheDir + "/" + n] == (if IsCacheFile(n) then multiset(names)[n] else 0) {
      PrefixedCount(CacheDir + "/", files, n);
    }
  }

  /**
    `load_cache` pins its result down completely: it is the sorted
    arrangement of the listing's cache files, each joined to the directory.
   */
  lemma LoadCacheIsSortedJoin(names: seq<string>)
    ensures LoadCache(Some(names)) == Sort(InCacheDir(CacheFiles(names)))
  {
    var r := LoadCache(Some(names));
    var files := CacheFiles(names);
    PrefixedMultiset(CacheDir + "/", r, files);
    SortedUnique(r, Sort(InCacheDir(files)));
  }

  /** A list of prefixed names that has each prefixed name as often as `names` has the name is a permutation of `Prefixed(p, names)`. */
  lemma PrefixedMultiset(p: string, r: seq<string>, names: seq<string>)
    requires forall k :: 0 <= k < |r| ==> StartsWith(r[k], p)
    requires forall n :: multiset(r)[p + n] == multiset(names)[n]
    ensures multiset(r) == multiset(Prefixed(p, names))
  {
    var q := Prefixed(p, names);
    forall x ensures multiset(r)[x] == multiset(q)[x] {
      if x in r || x in q {
        if x in r {
          var k :| 0 <= k < |r| && r[k] == x;
          assert StartsWith(r[k], p);
        } else {
          var k :| 0 <= k < |q| && q[k] == x;
        }
        assert x == p + x[|p|..];
        PrefixedCount(p, names, x[|p|..]);
      }
    }
  }

  lemma EndsWithSuffixKept(p: string, s: string, suffix: string)
    requires EndsWith(s, suffix)
    ensures EndsWith(p + s, suffix)
  {
    assert (p + s)[|p + s| - |suffix|..] == s[|s| - |suffix|..];
  }

  /** Python's string order puts position 10 before position 2 in the fallback playlist. */
  lemma LoadCacheIsNotIndexOrder()
    ensures LoadCache(Some(["photo_2.jpg", "photo_10.jpg"])) == ["cache/photo_10.jpg", "cache/photo_2.jpg"]
  {
    TwoNamesFacts();
    LoadCacheTwo("photo_2.jpg", "photo_10.jpg");
    JoinedNames();
  }

  /** Two cache files listed out of order come back swapped, each joined to the directory. */
  lemma LoadCacheTwo(a: string, b: string)
    requires IsCacheFile(a) && IsCacheFile(b)
    requires Below(b, a) && a != b
    ensures LoadCache(Some([a, b])) == [CacheDir + "/" + b, CacheDir + "/" + a]
  {
    SortTwo(a, b);
    KeepTwo(b, a);
  }

  lemma SortTwo(a: string, b: string)
    requires Below(b, a) && a != b
    ensures Sort([a, b]) == [b, a]
  {
    assert Sorted([b, a]);
    assert multiset([b, a]) == multiset([a, b]);
    SortedUnique(Sort([a, b]), [b, a]);
  }

  lemma KeepTwo(a: string, b: string)
    requires IsCacheFile(a) && IsCacheFile(b)
    ensures CacheFiles([a, b]) == [a, b]
  {
    assert [b][1..] == [];
    assert CacheFiles([b]) == [b];
    assert [a, b][1..] == [b];
  }

  lemma TwoNamesFacts()
    ensures IsCacheFile("photo_2.jpg") && IsCacheFile("photo_10.jpg")
    ensures Below("photo_10.jpg", "photo_2.jpg") && "photo_2.jpg" != "photo_10.jpg"
  {
    TwoNamesAreCacheFiles();
    TwoNamesOrder();
  }

  lemma TwoNamesAreCacheFiles()
    ensures IsCacheFile("photo_2.jpg") && IsCacheFile("photo_10.jpg")
  {
    EndsWithOwnSuffix("photo_10", ".jpg");
    EndsWithOwnSuffix("photo_2", ".jpg");
    assert "photo_10" + ".jpg" == "photo_10.jpg" && "photo_2" + ".jpg" == "photo_2.jpg";
  }

  lemma TwoNamesOrder()
    ensures Below("photo_10.jpg", "photo_2.jpg") && "photo_2.jpg" != "photo_10.jpg"
  {
    BelowUnderPrefix("photo_", "10.jpg", "2.jpg");
    assert "photo_" + "10.jpg" == "photo_10.jpg" && "photo_" + "2.jpg" == "photo_2.jpg";
    assert "photo_2.jpg"[6] != "photo_10.jpg"[6];
  }

  lemma JoinedNames()
    ensures CacheDir + "/" + "photo_10.jpg" == "cache/photo_10.jpg"
    ensures CacheDir + "/" + "photo_2.jpg" == "cache/photo_2.jpg"
  {
  }
}
