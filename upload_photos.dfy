/**
 * The uploader: which files of a photo directory are uploaded, how the MinIO
 * endpoint setting is read, under which object key and Content-Type each file
 * is stored, and how the manifest (photo list, per-year timeline, total) is
 * rebuilt from a listing of the bucket.
 *
 * MinIO, the file system, md5, PIL and the subprocess tools are not modelled:
 * the bucket listing, the walked file names, the content hash, the capture date,
 * the outcome of HEIC conversion and the `mimetypes` guess are parameters.
 */
module UploadPhotos {
  import opened Wrappers
  import opened Text
  import opened Sorting
  import MediaUtils

  const ImageExtensions: seq<string> := [".jpg", ".jpeg", ".png", ".heic", ".heif"]
  const VideoExtensions: seq<string> := [".mp4", ".mov", ".avi", ".m4v"]
  const SkipFiles: seq<string> := [".ds_store", "thumbs.db"]
  const HeicExtensions: seq<string> := [".heic", ".heif"]

  /** HEIC and HEIF files are converted to JPEG before upload. */
  const ConvertHeic := true

  // ---------------------------------------------------------------------
  // Which files are uploaded

  /** A file found by `os.walk`: the directory it was found in and its name. */
  datatype WalkedFile = WalkedFile(root: string, name: string)

  /**
   * The upload test on a file name, compared in lower case. The skip list never
   * decides anything: every media extension ends in a letter or digit that
   * neither `.ds_store` nor `thumbs.db` ends in.
   */
  function IsEligible(fileName: string): (r: bool)
    ensures r <==> EndsWithAny(Lower(fileName), ImageExtensions) || EndsWithAny(Lower(fileName), VideoExtensions)
  {
    var lower := Lower(fileName);
    MediaNameLastChar(lower);
    SkipNameLastChar(lower);
    (EndsWithAny(lower, ImageExtensions) || EndsWithAny(lower, VideoExtensions))
    && !EndsWithAny(lower, SkipFiles)
  }

  /** The joined paths of the walked files whose names pass `eligible`, in walk order. */
  function CollectedPaths(walk: seq<WalkedFile>, eligible: string -> bool): seq<string> {
    if walk == [] then []
    else
      var last := walk[|walk| - 1];
      CollectedPaths(walk[..|walk| - 1], eligible)
        + (if eligible(last.name) then [JoinPath(last.root, last.name)] else [])
  }

  /** The joined paths of the eligible files, in walk order. */
  function EligiblePaths(walk: seq<WalkedFile>): seq<string> {
    CollectedPaths(walk, IsEligible)
  }

  /** The collection loop of `upload_photos`. */
  method CollectEligible(walk: seq<WalkedFile>) returns (eligible: seq<string>)
    ensures eligible == EligiblePaths(walk)
  {
    eligible := [];
    for i := 0 to |walk|
      invariant eligible == EligiblePaths(walk[..i])
    {
      assert walk[..i + 1][..i] == walk[..i];
      var file := walk[i];
      if IsEligible(file.name) {
        eligible := eligible + [JoinPath(file.root, file.name)];
      }
    }
    assert walk[..|walk|] == walk;
  }

  /** The walked file is eligible and joins to `path`. */
  predicate Collects(file: WalkedFile, path: string) {
    IsEligible(file.name) && path == JoinPath(file.root, file.name)
  }

  lemma {:induction false} CollectedPathsMembers(walk: seq<WalkedFile>, eligible: string -> bool, path: string)
    ensures path in CollectedPaths(walk, eligible) <==>
      exists i :: 0 <= i < |walk| && eligible(walk[i].name) && path == JoinPath(walk[i].root, walk[i].name)
  {
    if walk != [] {
      var init := walk[..|walk| - 1];
      CollectedPathsMembers(init, eligible, path);
      if path in CollectedPaths(init, eligible) {
        var i :| 0 <= i < |init| && eligible(init[i].name) && path == JoinPath(init[i].root, init[i].name);
        assert walk[i] == init[i];
      }
      if exists i :: 0 <= i < |walk| && eligible(walk[i].name) && path == JoinPath(walk[i].root, walk[i].name) {
        var i :| 0 <= i < |walk| && eligible(walk[i].name) && path == JoinPath(walk[i].root, walk[i].name);
        if i < |init| {
          assert init[i] == walk[i];
        }
      }
    }
  }

  /** A path is collected iff some walked file with an eligible name joins to it. */
  lemma EligiblePathsMembers(walk: seq<WalkedFile>, path: string)
    ensures path in EligiblePaths(walk) <==> exists i :: 0 <= i < |walk| && Collects(walk[i], path)
  {
    CollectedPathsMembers(walk, IsEligible, path);
  }

  lemma LastCharOfSuffix(s: string, x: string)
    requires EndsWith(s, x) && x != []
    ensures s[|s| - 1] == x[|x| - 1]
  {
    assert s[|s| - |x|..][|x| - 1] == s[|s| - 1];
  }

  /** Every image and video extension ends in a letter or digit other than `e` and `b`. */
  lemma MediaNameLastChar(lower: string)
    ensures EndsWithAny(lower, ImageExtensions) || EndsWithAny(lower, VideoExtensions) ==>
      |lower| > 0 && lower[|lower| - 1] != 'e' && lower[|lower| - 1] != 'b'
  {
    ImageNameLastChar(lower);
    VideoNameLastChar(lower);
  }

  lemma ImageNameLastChar(lower: string)
    ensures EndsWithAny(lower, ImageExtensions) ==>
      |lower| > 0 && lower[|lower| - 1] in "gfnc"
  {
    if EndsWithAny(lower, ImageExtensions) {
      var m :| 0 <= m < |ImageExtensions| && EndsWith(lower, ImageExtensions[m]);
      LastCharOfSuffix(lower, ImageExtensions[m]);
    }
  }

  lemma VideoNameLastChar(lower: string)
    ensures EndsWithAny(lower, VideoExtensions) ==>
      |lower| > 0 && lower[|lower| - 1] in "4vi"
  {
    if EndsWithAny(lower, VideoExtensions) {
      var m :| 0 <= m < |VideoExtensions| && EndsWith(lower, VideoExtensions[m]);
      LastCharOfSuffix(lower, VideoExtensions[m]);
    }
  }

  lemma SkipNameLastChar(lower: string)
    ensures EndsWithAny(lower, SkipFiles) ==>
      |lower| > 0 && (lower[|lower| - 1] == 'e' || lower[|lower| - 1] == 'b')
  {
    if EndsWithAny(lower, SkipFiles) {
      var m :| 0 <= m < |SkipFiles| && EndsWith(lower, SkipFiles[m]);
      LastCharOfSuffix(lower, SkipFiles[m]);
    }
  }

  // ---------------------------------------------------------------------
  // MinIO endpoint

  /** The connection settings handed to the MinIO client. */
  datatype MinioSettings = MinioSettings(endpoint: string, secure: bool)

  /**
   * `setup_minio_client`: an `https://` prefix selects TLS, an `http://` prefix
   * does not; either way `str.replace` deletes every occurrence of the scheme.
   */
  method SetupMinioClient(configured: string) returns (settings: MinioSettings)
    ensures StartsWith(configured, "https://") ==>
      settings == MinioSettings(RemoveAll(configured, "https://"), true)
    ensures !StartsWith(configured, "https://") && StartsWith(configured, "http://") ==>
      settings == MinioSettings(RemoveAll(configured, "http://"), false)
    ensures !StartsWith(configured, "https://") && !StartsWith(configured, "http://") ==>
      settings == MinioSettings(configured, false)
  {
    var endpoint := configured;
    var secure := false;
    if StartsWith(endpoint, "https://") {
      endpoint := RemoveAll(endpoint, "https://");
      secure := true;
    } else if StartsWith(endpoint, "http://") {
      endpoint := RemoveAll(endpoint, "http://");
    }
    settings := MinioSettings(endpoint, secure);
  }

  /** A scheme that appears only as the prefix is stripped and the host kept whole. */
  lemma SchemeStrippedFromHost(scheme: string, host: string)
    requires scheme == "https://" || scheme == "http://"
    requires !Occurs(scheme, host)
    ensures RemoveAll(scheme + host, scheme) == host
  {
    RemoveLeadingOnly(scheme, host);
  }

  /** `str.replace` is not a prefix strip: a later copy of the scheme goes as well. */
  lemma SchemeRemovedEverywhere()
    ensures RemoveAll("https://a/https://b", "https://") == "a/b"
  {
    var s := "https://a/https://b";
    assert s[..8] == "https://";
    var t := s[8..];
    assert t == "a/https://b";
    assert t[..8] != "https://" by { assert t[0] == 'a'; }
    assert t[1..][..8] != "https://" by { assert t[1] == '/'; }
    assert t[2..][..8] == "https://";
    assert t[2..][8..] == "b";
    assert RemoveAll(t[2..], "https://") == "b";
    assert RemoveAll(t[1..], "https://") == "/b";
    assert RemoveAll(t, "https://") == "a/b";
  }

  // ---------------------------------------------------------------------
  // Content-Type and object keys

  /** `get_content_type` of the uploader: the shared rule with the uploader's extension lists. */
  function GetContentType(filePath: string, guessed: Option<string>): (r: string)
    ensures EndsWith(Lower(filePath), ".heic") ==> r == "image/heic"
    ensures r != ""
  {
    MediaUtils.ContentTypeShape(filePath, guessed, VideoExtensions, ImageExtensions);
    MediaUtils.GetContentType(filePath, guessed, VideoExtensions, ImageExtensions)
  }

  /**
   * The whole header decision for the upload lists: `.heic` first, then a
   * non-empty guess, then `image/` or `video/` followed by the extension without
   * its dot (`.mov` gives `video/mov`), then `application/octet-stream`. No
   * extension is in both lists, so each video extension gets a video type.
   */
  lemma UploadContentTypeDecision(filePath: string, guessed: Option<string>)
    ensures var r := GetContentType(filePath, guessed);
      var ext := Lower(Extension(filePath));
      var noGuess := guessed.None? || guessed.value == "";
      && (EndsWith(Lower(filePath), ".heic") ==> r == "image/heic")
      && (!EndsWith(Lower(filePath), ".heic") && !noGuess ==> r == guessed.value)
      && (!EndsWith(Lower(filePath), ".heic") && noGuess ==>
            && (ext in ImageExtensions ==> r == "image/" + MediaUtils.DropFirst(ext))
            && (ext in VideoExtensions ==> r == "video/" + MediaUtils.DropFirst(ext))
            && (ext !in ImageExtensions && ext !in VideoExtensions ==> r == "application/octet-stream"))
  {
    if !EndsWith(Lower(filePath), ".heic") {
      MediaUtils.ContentTypeDecision(filePath, guessed, VideoExtensions, ImageExtensions);
      ListsDisjoint(Lower(Extension(filePath)));
    }
  }

  /** No extension is both an image and a video extension. */
  lemma ListsDisjoint(ext: string)
    ensures !(ext in ImageExtensions && ext in VideoExtensions)
  {
    if ext in VideoExtensions {
      assert |ext| == 4 && ext[1] in "mal";
      assert ext[1..] != "jpg"[..] && ext[1..] != "png"[..];
    }
  }

  /** `f"{top}/{year}/{month:02d}/{name}"`, the layout of every stored object. */
  function DatedKey(top: string, year: int, month: int, name: string): (key: string)
    ensures StartsWith(key, top + "/") && EndsWith(key, "/" + name)
  {
    var key := top + "/" + IntToString(year) + "/" + Pad2(month) + "/" + name;
    var middle := IntToString(year) + "/" + Pad2(month);
    assert key == (top + "/") + (middle + "/" + name);
    assert key == (top + "/" + middle) + ("/" + name);
    key
  }

  /** `media/{year}/{month:02d}/{hash}{ext}`. */
  function MediaKey(year: int, month: int, fileHash: string, ext: string): (key: string)
    ensures StartsWith(key, "media/") && EndsWith(key, "/" + fileHash + ext)
  {
    assert "media" + "/" == "media/";
    assert "/" + (fileHash + ext) == "/" + fileHash + ext;
    DatedKey("media", year, month, fileHash + ext)
  }

  /** `thumbnails/{year}/{month:02d}/{hash}.jpg`. */
  function ThumbnailKey(year: int, month: int, fileHash: string): (key: string)
    ensures StartsWith(key, "thumbnails/") && EndsWith(key, "/" + fileHash + ".jpg")
  {
    assert "thumbnails" + "/" == "thumbnails/";
    assert "/" + (fileHash + ".jpg") == "/" + fileHash + ".jpg";
    DatedKey("thumbnails", year, month, fileHash + ".jpg")
  }

  /** One `put_object` / `fput_object` call: where the bytes go and how they are labelled. */
  datatype PutRequest = PutRequest(key: string, contentType: string)

  /**
   * The main upload of one file. A HEIC or HEIF file is stored as JPEG under a
   * `.jpg` key, and not at all when conversion failed; anything else keeps its
   * lower-cased extension and gets the type `get_content_type` chooses.
   */
  function PlanMediaUpload(filePath: string, year: int, month: int, fileHash: string,
                           heicConverted: bool, guessed: Option<string>): (r: Option<PutRequest>)
    ensures r.Some? ==> exists ext :: '/' !in ext && r.value.key == MediaKey(year, month, fileHash, ext)
    ensures r.None? <==> EndsWithAny(Lower(BaseName(filePath)), HeicExtensions) && !heicConverted
    ensures r.Some? && EndsWithAny(Lower(BaseName(filePath)), HeicExtensions) ==>
      r.value == PutRequest(MediaKey(year, month, fileHash, ".jpg"), "image/jpeg")
    ensures r.Some? && !EndsWithAny(Lower(BaseName(filePath)), HeicExtensions) ==>
      && r.value.key == MediaKey(year, month, fileHash, Lower(Extension(BaseName(filePath))))
      && r.value.contentType == GetContentType(filePath, guessed)
  {
    var fileName := BaseName(filePath);
    var isHeic := EndsWithAny(Lower(fileName), HeicExtensions);
    if isHeic && ConvertHeic then
      if heicConverted then
        assert '/' !in ".jpg";
        Some(PutRequest(MediaKey(year, month, fileHash, ".jpg"), "image/jpeg"))
      else None
    else
      var ext := Lower(Extension(fileName));
      assert '/' !in ext by {
        forall k | 0 <= k < |ext| ensures ext[k] != '/' {
          assert Extension(fileName)[k] != '/';
        }
      }
      Some(PutRequest(MediaKey(year, month, fileHash, ext), GetContentType(filePath, guessed)))
  }

  /** The thumbnail upload of one file, made only when a thumbnail could be created. */
  function PlanThumbnailUpload(year: int, month: int, fileHash: string, thumbnailCreated: bool): (r: Option<PutRequest>)
    ensures r.Some? <==> thumbnailCreated
    ensures r.Some? ==> r.value.contentType == "image/jpeg" && StartsWith(r.value.key, "thumbnails/")
  {
    if thumbnailCreated then Some(PutRequest(ThumbnailKey(year, month, fileHash), "image/jpeg")) else None
  }

  /**
   * A thumbnail is filed under the same year and month as its media object and
   * named after the same hash, so the front end finds one from the other.
   */
  lemma ThumbnailMatchesMedia(filePath: string, year: int, month: int, fileHash: string,
                              heicConverted: bool, guessed: Option<string>, size: nat)
    requires '/' !in fileHash
    requires PlanMediaUpload(filePath, year, month, fileHash, heicConverted, guessed).Some?
    ensures var media := ParsePhoto(StoredObject(
              PlanMediaUpload(filePath, year, month, fileHash, heicConverted, guessed).value.key, size, None));
      var thumb := ParsePhoto(StoredObject(
              PlanThumbnailUpload(year, month, fileHash, true).value.key, size, None));
      && media.Some? && thumb.Some?
      && (media.value.year, media.value.month) == (thumb.value.year, thumb.value.month)
      && thumb.value.filename == fileHash + ".jpg"
      && StartsWith(media.value.filename, fileHash)
  {
    UploadedMediaParsesBack(filePath, year, month, fileHash, heicConverted, guessed, size, None);
    ThumbnailParsesBack(year, month, fileHash, size);
    assert PlanThumbnailUpload(year, month, fileHash, true).value.key == ThumbnailKey(year, month, fileHash);
  }

  lemma ThumbnailParsesBack(year: int, month: int, fileHash: string, size: nat)
    requires '/' !in fileHash
    ensures var key := ThumbnailKey(year, month, fileHash);
      ParsePhoto(StoredObject(key, size, None)) == Some(Photo(key, key, year, month, fileHash + ".jpg", size, None))
  {
    assert '/' !in fileHash + ".jpg";
    DatedKeyRoundTrip("thumbnails", year, month, fileHash + ".jpg", size, None);
  }

  // ---------------------------------------------------------------------
  // The manifest

  /** One entry of the bucket listing under `media/`. */
  datatype StoredObject = StoredObject(name: string, size: nat, lastModified: Option<string>)

  /** One photo entry of `manifest.json`. */
  datatype Photo = Photo(id: string, path: string, year: int, month: int, filename: string,
                         size: nat, lastModified: Option<string>)

  /** One timeline entry: how many photos a year has. */
  datatype YearCount = YearCount(year: int, count: nat)

  /** The manifest document; `generatedAt` is the clock reading taken when it was built. */
  datatype Manifest = Manifest(photos: seq<Photo>, timeline: seq<YearCount>,
                               generatedAt: string, totalPhotos: nat)

  /**
   * The record for one listed object: its name must split on `/` into at least
   * four parts of which the second and third are integers, else it is skipped.
   */
  function ParsePhoto(obj: StoredObject): (r: Option<Photo>)
    ensures var parts := Split(obj.name, '/');
      r.Some? <==> |parts| >= 4 && ParseInt(parts[1]).Some? && ParseInt(parts[2]).Some?
    ensures r.Some? ==>
      r.value.id == obj.name && r.value.path == obj.name
      && r.value.size == obj.size && r.value.lastModified == obj.lastModified
    ensures var parts := Split(obj.name, '/');
      r.Some? ==>
        && r.value.year == ParseInt(parts[1]).value
        && r.value.month == ParseInt(parts[2]).value
        && r.value.filename == parts[3]
  {
    var parts := Split(obj.name, '/');
    if |parts| >= 4 then
      match (ParseInt(parts[1]), ParseInt(parts[2]))
      case (Some(year), Some(month)) =>
        Some(Photo(obj.name, obj.name, year, month, parts[3], obj.size, obj.lastModified))
      case _ => None
    else None
  }

  /** A key written in the dated layout is read back with the year and month it was written with. */
  lemma DatedKeySplits(top: string, year: int, month: int, name: string)
    requires '/' !in top && '/' !in name
    ensures Split(DatedKey(top, year, month, name), '/') == [top, IntToString(year), Pad2(month), name]
  {
    var parts := [top, IntToString(year), Pad2(month), name];
    FormattedHasNoSlash(year);
    FormattedHasNoSlash(month);
    assert Join(parts, '/') == DatedKey(top, year, month, name) by {
      assert Join(parts[3..], '/') == name;
      assert Join(parts[2..], '/') == Pad2(month) + "/" + name;
      assert Join(parts[1..], '/') == IntToString(year) + "/" + Pad2(month) + "/" + name;
    }
    SplitJoin(parts, '/');
  }

  lemma DatedKeyRoundTrip(top: string, year: int, month: int, name: string,
                          size: nat, lastModified: Option<string>)
    requires '/' !in top && '/' !in name
    ensures var key := DatedKey(top, year, month, name);
      ParsePhoto(StoredObject(key, size, lastModified))
        == Some(Photo(key, key, year, month, name, size, lastModified))
  {
    DatedKeySplits(top, year, month, name);
    IntToStringRoundTrip(year);
    Pad2RoundTrip(month);
  }

  /** Whatever the uploader puts as main media is listed back in the manifest under its year and month. */
  lemma UploadedMediaParsesBack(filePath: string, year: int, month: int, fileHash: string,
                                heicConverted: bool, guessed: Option<string>,
                                size: nat, lastModified: Option<string>)
    requires '/' !in fileHash
    requires PlanMediaUpload(filePath, year, month, fileHash, heicConverted, guessed).Some?
    ensures var key := PlanMediaUpload(filePath, year, month, fileHash, heicConverted, guessed).value.key;
      var photo := ParsePhoto(StoredObject(key, size, lastModified));
      photo.Some? && photo.value.year == year && photo.value.month == month
      && StartsWith(photo.value.filename, fileHash)
  {
    var key := PlanMediaUpload(filePath, year, month, fileHash, heicConverted, guessed).value.key;
    var ext :| '/' !in ext && key == MediaKey(year, month, fileHash, ext);
    assert '/' !in fileHash + ext;
    DatedKeyRoundTrip("media", year, month, fileHash + ext, size, lastModified);
    assert (fileHash + ext)[..|fileHash|] == fileHash;
  }

  /** The records `parse` makes of the listed objects, skipping the ones it rejects, in listing order. */
  function ParsedWith(objects: seq<StoredObject>, parse: StoredObject -> Option<Photo>): seq<Photo> {
    if objects == [] then []
    else
      var init := ParsedWith(objects[..|objects| - 1], parse);
      match parse(objects[|objects| - 1])
      case Some(photo) => init + [photo]
      case None => init
  }

  /** The records of the listed objects that parse, in listing order. */
  function ParsedPhotos(objects: seq<StoredObject>): seq<Photo> {
    ParsedWith(objects, ParsePhoto)
  }

  lemma {:induction false} ParsedWithMembers(objects: seq<StoredObject>, parse: StoredObject -> Option<Photo>,
                                             photo: Photo)
    ensures photo in ParsedWith(objects, parse) <==>
      exists i :: 0 <= i < |objects| && parse(objects[i]) == Some(photo)
    ensures |ParsedWith(objects, parse)| <= |objects|
  {
    if objects != [] {
      var init := objects[..|objects| - 1];
      ParsedWithMembers(init, parse, photo);
      if photo in ParsedWith(init, parse) {
        var i :| 0 <= i < |init| && parse(init[i]) == Some(photo);
        assert objects[i] == init[i];
      }
      if exists i :: 0 <= i < |objects| && parse(objects[i]) == Some(photo) {
        var i :| 0 <= i < |objects| && parse(objects[i]) == Some(photo);
        if i < |init| {
          assert init[i] == objects[i];
        }
      }
    }
  }

  /** Every record comes from one listed object, and every parseable object gives one. */
  lemma ParsedPhotosMembers(objects: seq<StoredObject>, photo: Photo)
    ensures photo in ParsedPhotos(objects) <==>
      exists i :: 0 <= i < |objects| && ParsePhoto(objects[i]) == Some(photo)
    ensures |ParsedPhotos(objects)| <= |objects|
  {
    ParsedWithMembers(objects, ParsePhoto, photo);
  }

  /** `key=lambda p: (p["year"], p["month"])` with `reverse=True`, as an ascending key. */
  function NewestFirstKey(p: Photo): Key {
    (-p.year, -p.month)
  }

  /** Non-increasing by (year, month). */
  predicate NewestFirst(photos: seq<Photo>) {
    forall i, j :: 0 <= i < j < |photos| ==>
      photos[i].year > photos[j].year || (photos[i].year == photos[j].year && photos[i].month >= photos[j].month)
  }

  function YearKey(e: YearCount): Key {
    (e.year, 0)
  }

  /** How many photos were taken in `year`. */
  function CountYear(photos: seq<Photo>, year: int): nat {
    if photos == [] then 0
    else CountYear(photos[..|photos| - 1], year) + (if photos[|photos| - 1].year == year then 1 else 0)
  }

  /** The count stored for `year`, or 0: `year_counts.get(year, 0)`. */
  function Lookup(counts: seq<YearCount>, year: int): nat {
    if counts == [] then 0
    else if counts[0].year == year then counts[0].count
    else Lookup(counts[1..], year)
  }

  /** `year_counts[year] = year_counts.get(year, 0) + 1` on an insertion-ordered dict. */
  function Bump(counts: seq<YearCount>, year: int): (r: seq<YearCount>)
    ensures |counts| <= |r| <= |counts| + 1
    ensures |r| == |counts| + 1 ==> r[|counts|] == YearCount(year, 1)
    ensures forall i :: 0 <= i < |counts| && counts[i].year != year ==> r[i] == counts[i]
  {
    if counts == [] then [YearCount(year, 1)]
    else if counts[0].year == year then [YearCount(year, counts[0].count + 1)] + counts[1..]
    else [counts[0]] + Bump(counts[1..], year)
  }

  function SumCounts(counts: seq<YearCount>): nat {
    if counts == [] then 0 else counts[0].count + SumCounts(counts[1..])
  }

  function YearsOf(counts: seq<YearCount>): set<int> {
    set i | 0 <= i < |counts| :: counts[i].year
  }

  function PhotoYears(photos: seq<Photo>): set<int> {
    set i | 0 <= i < |photos| :: photos[i].year
  }

  predicate DistinctYears(counts: seq<YearCount>) {
    forall i, j :: 0 <= i < j < |counts| ==> counts[i].year != counts[j].year
  }

  /** `counts` is the year tally of `photos`. */
  ghost predicate Tallies(photos: seq<Photo>, counts: seq<YearCount>) {
    && DistinctYears(counts)
    && (forall year :: Lookup(counts, year) == CountYear(photos, year))
    && YearsOf(counts) == PhotoYears(photos)
    && SumCounts(counts) == |photos|
  }

  lemma YearsOfCons(x: YearCount, rest: seq<YearCount>)
    ensures YearsOf([x] + rest) == {x.year} + YearsOf(rest)
  {
    var r := [x] + rest;
    forall y ensures y in YearsOf(r) <==> y in {x.year} + YearsOf(rest) {
      if y in YearsOf(r) {
        var i :| 0 <= i < |r| && r[i].year == y;
        if i > 0 { assert r[i] == rest[i - 1]; }
      }
      if y == x.year {
        assert r[0].year == y;
      }
      if y in YearsOf(rest) {
        var i :| 0 <= i < |rest| && rest[i].year == y;
        assert r[i + 1].year == y;
      }
    }
  }

  lemma DistinctYearsCons(x: YearCount, rest: seq<YearCount>)
    requires DistinctYears(rest) && x.year !in YearsOf(rest)
    ensures DistinctYears([x] + rest)
  {
    var r := [x] + rest;
    forall i, j | 0 <= i < j < |r| ensures r[i].year != r[j].year {
      if i == 0 {
        assert r[j] == rest[j - 1];
      } else {
        assert r[i] == rest[i - 1] && r[j] == rest[j - 1];
      }
    }
  }

  lemma {:induction false} BumpCounts(counts: seq<YearCount>, year: int)
    ensures forall y :: Lookup(Bump(counts, year), y) == Lookup(counts, y) + (if y == year then 1 else 0)
    ensures SumCounts(Bump(counts, year)) == SumCounts(counts) + 1
  {
    if counts != [] && counts[0].year != year {
      BumpCounts(counts[1..], year);
      assert Bump(counts, year)[1..] == Bump(counts[1..], year);
    }
  }

  lemma {:induction false} BumpYears(counts: seq<YearCount>, year: int)
    ensures YearsOf(Bump(counts, year)) == YearsOf(counts) + {year}
    ensures DistinctYears(counts) ==> DistinctYears(Bump(counts, year))
  {
    var r := Bump(counts, year);
    if counts == [] {
      assert YearsOf(r) == {year} by { assert r[0].year == year; }
    } else {
      assert counts == [counts[0]] + counts[1..];
      YearsOfCons(counts[0], counts[1..]);
      if counts[0].year == year {
        assert r[1..] == counts[1..];
        YearsOfCons(r[0], counts[1..]);
      } else {
        var rest := Bump(counts[1..], year);
        BumpYears(counts[1..], year);
        assert r == [counts[0]] + rest;
        YearsOfCons(counts[0], rest);
        if DistinctYears(counts) {
          assert DistinctYears(counts[1..]) by {
            forall i, j | 0 <= i < j < |counts[1..]| ensures counts[1..][i].year != counts[1..][j].year {
              assert counts[1..][i] == counts[i + 1] && counts[1..][j] == counts[j + 1];
            }
          }
          assert counts[0].year !in YearsOf(counts[1..]) by {
            forall i | 0 <= i < |counts[1..]| ensures counts[1..][i].year != counts[0].year {
              assert counts[1..][i] == counts[i + 1];
            }
          }
          DistinctYearsCons(counts[0], rest);
        }
      }
    }
  }

  /** One bump adds one to its year's count and to the sum, adds the year, and keeps the years distinct. */
  lemma BumpEffect(counts: seq<YearCount>, year: int)
    ensures forall y :: Lookup(Bump(counts, year), y) == Lookup(counts, y) + (if y == year then 1 else 0)
    ensures YearsOf(Bump(counts, year)) == YearsOf(counts) + {year}
    ensures SumCounts(Bump(counts, year)) == SumCounts(counts) + 1
    ensures DistinctYears(counts) ==> DistinctYears(Bump(counts, year))
  {
    BumpCounts(counts, year);
    BumpYears(counts, year);
  }

  lemma CountYearAppend(photos: seq<Photo>, photo: Photo, year: int)
    ensures CountYear(photos + [photo], year) == CountYear(photos, year) + (if photo.year == year then 1 else 0)
  {
    assert (photos + [photo])[..|photos|] == photos;
  }

  lemma {:induction false} CountYearPositive(photos: seq<Photo>, i: nat)
    requires i < |photos|
    ensures CountYear(photos, photos[i].year) > 0
  {
    var init := photos[..|photos| - 1];
    if i < |init| {
      CountYearPositive(init, i);
      assert init[i] == photos[i];
    }
  }

  /** The tally after one more photo. */
  lemma TalliesStep(photos: seq<Photo>, counts: seq<YearCount>, photo: Photo)
    requires Tallies(photos, counts)
    ensures Tallies(photos + [photo], Bump(counts, photo.year))
  {
    BumpEffect(counts, photo.year);
    forall year ensures Lookup(Bump(counts, photo.year), year) == CountYear(photos + [photo], year) {
      CountYearAppend(photos, photo, year);
    }
    var all := photos + [photo];
    assert PhotoYears(all) == PhotoYears(photos) + {photo.year} by {
      forall y ensures y in PhotoYears(all) <==> y in PhotoYears(photos) + {photo.year} {
        if y in PhotoYears(all) {
          var i :| 0 <= i < |all| && all[i].year == y;
          if i < |photos| { assert photos[i].year == y; }
        }
        if y in PhotoYears(photos) {
          var i :| 0 <= i < |photos| && photos[i].year == y;
          assert all[i].year == y;
        }
      }
      assert all[|photos|].year == photo.year;
    }
  }

  lemma {:induction false} LookupAt(counts: seq<YearCount>, i: nat)
    requires DistinctYears(counts) && i < |counts|
    ensures Lookup(counts, counts[i].year) == counts[i].count
  {
    if i > 0 {
      assert counts[0].year != counts[i].year;
      LookupAt(counts[1..], i - 1);
    }
  }

  lemma {:induction false} SumCountsInsert(x: YearCount, counts: seq<YearCount>)
    ensures SumCounts(Insert(x, counts, YearKey)) == x.count + SumCounts(counts)
  {
    if counts != [] && !KeyLe(YearKey(x), YearKey(counts[0])) {
      SumCountsInsert(x, counts[1..]);
      assert ([counts[0]] + Insert(x, counts[1..], YearKey))[1..] == Insert(x, counts[1..], YearKey);
    } else {
      assert ([x] + counts)[1..] == counts;
    }
  }

  lemma {:induction false} SumCountsSorted(counts: seq<YearCount>)
    ensures SumCounts(SortBy(counts, YearKey)) == SumCounts(counts)
  {
    if counts != [] {
      SumCountsSorted(counts[1..]);
      SumCountsInsert(counts[0], SortBy(counts[1..], YearKey));
    }
  }

  /** The timeline built from a tally: one entry per year, ascending, counts exact and summing to the total. */
  lemma TimelineAscending(counts: seq<YearCount>)
    requires DistinctYears(counts)
    ensures var timeline := SortBy(counts, YearKey);
      forall i, j :: 0 <= i < j < |timeline| ==> timeline[i].year < timeline[j].year
  {
    var timeline := SortBy(counts, YearKey);
    assert DistinctKeys(counts, YearKey) by {
      forall i, j | 0 <= i < j < |counts| ensures YearKey(counts[i]) != YearKey(counts[j]) {
        assert counts[i].year != counts[j].year;
      }
    }
    SortByStrict(counts, YearKey);
    forall i, j | 0 <= i < j < |timeline| ensures timeline[i].year < timeline[j].year {
      assert KeyLt(YearKey(timeline[i]), YearKey(timeline[j]));
    }
  }

  lemma TimelineCounts(photos: seq<Photo>, counts: seq<YearCount>)
    requires Tallies(photos, counts)
    ensures var timeline := SortBy(counts, YearKey);
      forall i :: 0 <= i < |timeline| ==>
        timeline[i].count == CountYear(photos, timeline[i].year) && timeline[i].count > 0
  {
    var timeline := SortBy(counts, YearKey);
    forall i | 0 <= i < |timeline|
      ensures timeline[i].count == CountYear(photos, timeline[i].year) && timeline[i].count > 0
    {
      assert timeline[i] in multiset(counts);
      var j :| 0 <= j < |counts| && counts[j] == timeline[i];
      LookupAt(counts, j);
      assert timeline[i].year in YearsOf(counts);
      var k :| 0 <= k < |photos| && photos[k].year == timeline[i].year;
      CountYearPositive(photos, k);
    }
  }

  lemma TimelineCoversYears(photos: seq<Photo>, counts: seq<YearCount>)
    requires YearsOf(counts) == PhotoYears(photos)
    ensures forall p :: p in photos ==> p.year in YearsOf(SortBy(counts, YearKey))
  {
    var timeline := SortBy(counts, YearKey);
    forall p | p in photos ensures p.year in YearsOf(timeline) {
      var k :| 0 <= k < |photos| && photos[k] == p;
      assert p.year in PhotoYears(photos);
      var j :| 0 <= j < |counts| && counts[j].year == p.year;
      assert counts[j] in multiset(timeline);
      var i :| 0 <= i < |timeline| && timeline[i] == counts[j];
    }
  }

  lemma TimelineOfTally(photos: seq<Photo>, counts: seq<YearCount>)
    requires Tallies(photos, counts)
    ensures var timeline := SortBy(counts, YearKey);
      && (forall i, j :: 0 <= i < j < |timeline| ==> timeline[i].year < timeline[j].year)
      && (forall i :: 0 <= i < |timeline| ==>
            timeline[i].count == CountYear(photos, timeline[i].year) && timeline[i].count > 0)
      && (forall p :: p in photos ==> exists i :: 0 <= i < |timeline| && timeline[i].year == p.year)
      && SumCounts(timeline) == |photos|
  {
    TimelineAscending(counts);
    TimelineCounts(photos, counts);
    TimelineCoversYears(photos, counts);
    var timeline := SortBy(counts, YearKey);
    forall p | p in photos ensures exists i :: 0 <= i < |timeline| && timeline[i].year == p.year {
      assert p.year in YearsOf(timeline);
    }
    SumCountsSorted(counts);
  }

  /** The listing loop of `generate_manifest`: every object whose key parses becomes a record, in listing order. */
  method ParseAll(objects: seq<StoredObject>) returns (photos: seq<Photo>)
    ensures photos == ParsedPhotos(objects)
  {
    photos := [];
    for i := 0 to |objects|
      invariant photos == ParsedPhotos(objects[..i])
    {
      assert objects[..i + 1][..i] == objects[..i];
      var parsed := ParsePhoto(objects[i]);
      if parsed.Some? {
        photos := photos + [parsed.value];
      }
    }
    assert objects[..|objects|] == objects;
  }

  /** `photos.sort(key=..., reverse=True)`: a stable permutation that puts the newest first. */
  method SortNewestFirst(parsed: seq<Photo>) returns (photos: seq<Photo>)
    ensures multiset(photos) == multiset(parsed) && |photos| == |parsed|
    ensures NewestFirst(photos)
    ensures forall k :: WithKey(photos, NewestFirstKey, k) == WithKey(parsed, NewestFirstKey, k)
  {
    photos := SortBy(parsed, NewestFirstKey);
    forall k ensures WithKey(photos, NewestFirstKey, k) == WithKey(parsed, NewestFirstKey, k) {
      SortByStable(parsed, NewestFirstKey, k);
    }
    assert NewestFirst(photos) by {
      forall i, j | 0 <= i < j < |photos|
        ensures photos[i].year > photos[j].year || (photos[i].year == photos[j].year && photos[i].month >= photos[j].month)
      {
        assert KeyLe(NewestFirstKey(photos[i]), NewestFirstKey(photos[j]));
      }
    }
  }

  /** The tally loop of `generate_manifest`: one count per year, in first-seen order. */
  method TallyYears(photos: seq<Photo>) returns (yearCounts: seq<YearCount>)
    ensures Tallies(photos, yearCounts)
  {
    yearCounts := [];
    for i := 0 to |photos|
      invariant Tallies(photos[..i], yearCounts)
    {
      TalliesStep(photos[..i], yearCounts, photos[i]);
      assert photos[..i + 1] == photos[..i] + [photos[i]];
      yearCounts := Bump(yearCounts, photos[i].year);
    }
    assert photos[..|photos|] == photos;
  }

  /**
   * `generate_manifest`, from the bucket listing to the document it uploads:
   * the parsed records sorted newest first (stably), the per-year timeline in
   * ascending year order, and the total.
   */
  method GenerateManifest(objects: seq<StoredObject>, generatedAt: string) returns (m: Manifest)
    ensures multiset(m.photos) == multiset(ParsedPhotos(objects))
    ensures NewestFirst(m.photos)
    ensures forall k :: WithKey(m.photos, NewestFirstKey, k) == WithKey(ParsedPhotos(objects), NewestFirstKey, k)
    ensures forall i, j :: 0 <= i < j < |m.timeline| ==> m.timeline[i].year < m.timeline[j].year
    ensures forall i :: 0 <= i < |m.timeline| ==>
      m.timeline[i].count == CountYear(m.photos, m.timeline[i].year) && m.timeline[i].count > 0
    ensures forall p :: p in m.photos ==> exists i :: 0 <= i < |m.timeline| && m.timeline[i].year == p.year
    ensures SumCounts(m.timeline) == |m.photos| == m.totalPhotos
    ensures m.generatedAt == generatedAt
  {
    var parsed := ParseAll(objects);
    var photos := SortNewestFirst(parsed);
    var yearCounts := TallyYears(photos);
    var timeline := SortBy(yearCounts, YearKey);
    TimelineOfTally(photos, yearCounts);

    m := Manifest(photos, timeline, generatedAt, |photos|);
  }
}
