/**
 * The shared helpers of the ingestion scripts: reading a capture date out of
 * exiftool's JSON output, choosing a Content-Type for an upload, and the
 * dimension check that decides whether an opened image is usable.
 *
 * exiftool itself, `mimetypes.guess_type`, PIL's `Image.open` and the file
 * modification time are not modelled: what they return is a parameter.
 */
module MediaUtils {
  import opened Wrappers
  import opened Text

  // ---------------------------------------------------------------------
  // Capture date from exiftool

  /** The tags asked of exiftool, most preferred first. */
  const DateTags: seq<string> :=
    ["DateTimeOriginal", "CreateDate", "MediaCreateDate", "TrackCreateDate", "CreationDate"]

  /** A year and a month, the pair every date helper returns. */
  datatype YearMonth = YearMonth(year: int, month: int)

  /**
   * The JSON value exiftool printed for one tag: a string; a number, boolean or
   * null; or an array or object, where `holdsColon` says whether `":"` is one of
   * the array's elements or one of the object's keys.
   */
  datatype TagValue = Str(s: string) | Scalar | Container(holdsColon: bool)

  /** The document `json.loads` made of exiftool's output. */
  datatype Json = JsonList(records: seq<map<string, TagValue>>) | JsonOther

  /** How the exiftool run ended. */
  datatype ExiftoolRun = NonZeroExit | UnparsableOutput | Output(json: Json)

  /** The command line: `exiftool -j -DateTimeOriginal ... -CreationDate <file>`. */
  method ExiftoolCommand(filePath: string) returns (cmd: seq<string>)
    ensures |cmd| == |DateTags| + 3
    ensures cmd[0] == "exiftool" && cmd[1] == "-j" && cmd[|cmd| - 1] == filePath
    ensures forall i :: 0 <= i < |DateTags| ==> cmd[i + 2] == "-" + DateTags[i]
  {
    var tagArgs: seq<string> := [];
    for i := 0 to |DateTags|
      invariant |tagArgs| == i
      invariant forall k :: 0 <= k < i ==> tagArgs[k] == "-" + DateTags[k]
    {
      tagArgs := tagArgs + ["-" + DateTags[i]];
    }
    cmd := ["exiftool", "-j"] + tagArgs + [filePath];
  }

  /** Does `(\d{4}):(\d{2}):\d{2}` match `s` at position `i`? */
  predicate DateAt(s: string, i: int) {
    0 <= i && i + 10 <= |s|
    && IsDigits(s[i..i + 4]) && s[i + 4] == ':'
    && IsDigits(s[i + 5..i + 7]) && s[i + 7] == ':'
    && IsDigits(s[i + 8..i + 10])
  }

  /** The two captured groups of a match at `i`, as `int(match.group(1))`, `int(match.group(2))`. */
  function DateGroups(s: string, i: int): YearMonth
    requires DateAt(s, i)
  {
    YearMonth(DigitsValue(s[i..i + 4]), DigitsValue(s[i + 5..i + 7]))
  }

  /** `re.search` from position `i` on: the groups of the leftmost match, if any. */
  function SearchDateFrom(s: string, i: nat): (r: Option<YearMonth>)
    ensures r.None? ==> forall j :: i <= j ==> !DateAt(s, j)
    ensures r.Some? ==> exists j :: (i <= j && DateAt(s, j) && r.value == DateGroups(s, j)
                                     && forall k :: i <= k < j ==> !DateAt(s, k))
    decreases |s| - i
  {
    if i + 10 > |s| then None
    else if DateAt(s, i) then Some(DateGroups(s, i))
    else SearchDateFrom(s, i + 1)
  }

  /** `re.search(r"(\d{4}):(\d{2}):\d{2}", s)`, unanchored. */
  function SearchDate(s: string): Option<YearMonth> {
    SearchDateFrom(s, 0)
  }

  /** A match yields a year below 10000 and a month below 100; 1..12 is not checked. */
  lemma SearchDateRange(s: string)
    requires SearchDate(s).Some?
    ensures 0 <= SearchDate(s).value.year <= 9999
    ensures 0 <= SearchDate(s).value.month <= 99
  {
    var j :| 0 <= j && j + 10 <= |s| && DateAt(s, j) && SearchDate(s).value == DateGroups(s, j);
    DigitsValueBound(s[j..j + 4], Pow10(4));
    DigitsValueBound(s[j + 5..j + 7], Pow10(2));
  }

  /** The `":" in date_str` test never changes the outcome: a match holds a colon. */
  lemma ColonTestRedundant(s: string)
    ensures SearchDate(s).Some? ==> ':' in s
  {
    if SearchDate(s).Some? {
      var j :| 0 <= j && j + 10 <= |s| && DateAt(s, j);
      assert s[j + 4] == ':';
    }
  }

  /** `2020:05:01 00:00:00` matches at its start, with groups 2020 and 05. */
  lemma ExampleDateMatches()
    ensures SearchDate("2020:05:01 00:00:00") == Some(YearMonth(2020, 5))
  {
    var s := "2020:05:01 00:00:00";
    assert s[0..4] == "2020" by {
      assert forall i :: 0 <= i < 4 ==> s[0..4][i] == "2020"[i];
    }
    assert s[5..7] == "05" by {
      assert forall i :: 0 <= i < 2 ==> s[5..7][i] == "05"[i];
    }
    assert s[8..10] == "01" by {
      assert forall i :: 0 <= i < 2 ==> s[8..10][i] == "01"[i];
    }
    assert DateAt(s, 0);
    assert DigitsValue("2020") == 2020 by {
      assert "2020"[..3] == "202" && "202"[..2] == "20" && "20"[..1] == "2" && "2"[..0] == "";
    }
    assert DigitsValue("05") == 5 by {
      assert "05"[..1] == "0" && "0"[..0] == "";
    }
  }

  /** What reading one tag of the first record leads to. */
  datatype TagOutcome = Skip | Found(date: YearMonth) | Raise

  /**
   * One step of the tag loop. An absent tag, a string without a colon or a string
   * the pattern does not match is skipped. For a number, boolean or null,
   * `":" in value` raises; for an array or object it is a membership test, which
   * skips the tag when false and, when true, hands a non-string to `re.search`,
   * which raises. A raise ends the whole scan in the fallback.
   */
  function ReadTag(record: map<string, TagValue>, tag: string): (r: TagOutcome)
    ensures r == Raise <==> tag in record && (record[tag].Scalar? || record[tag] == Container(true))
    ensures r.Found? <==> tag in record && record[tag].Str? && SearchDate(record[tag].s).Some?
    ensures r.Found? ==>
      && r.date == SearchDate(record[tag].s).value
      && 0 <= r.date.year <= 9999 && 0 <= r.date.month <= 99
  {
    if tag !in record then Skip
    else
      match record[tag]
      case Scalar => Raise
      case Container(holdsColon) => if holdsColon then Raise else Skip
      case Str(s) =>
        ColonTestRedundant(s);
        if ':' !in s then Skip
        else
          match SearchDate(s)
          case Some(d) =>
            SearchDateRange(s);
            Found(d)
          case None => Skip
  }

  /** The tag loop over `tags`: the first found date, or None for the fallback. */
  function ScanTags(record: map<string, TagValue>, tags: seq<string>): (r: Option<YearMonth>)
    ensures r.Some? ==> 0 <= r.value.year <= 9999 && 0 <= r.value.month <= 99
    ensures tags != [] && ReadTag(record, tags[0]) == Raise ==> r.None?
  {
    if tags == [] then None
    else
      match ReadTag(record, tags[0])
      case Skip => ScanTags(record, tags[1..])
      case Found(d) => Some(d)
      case Raise => None
  }

  /** `extract_date_with_exiftool`, with `fallback` the file's modification month. */
  function ExiftoolDate(run: ExiftoolRun, fallback: YearMonth): (r: YearMonth)
    ensures r != fallback ==>
      && run.Output? && run.json.JsonList? && |run.json.records| > 0
      && ScanTags(run.json.records[0], DateTags) == Some(r)
    ensures (run.Output? && run.json.JsonList? && |run.json.records| > 0
             && ScanTags(run.json.records[0], DateTags).Some?) ==>
      r == ScanTags(run.json.records[0], DateTags).value
  {
    if run.Output? && run.json.JsonList? && |run.json.records| > 0 then
      match ScanTags(run.json.records[0], DateTags)
      case Some(d) => d
      case None => fallback
    else fallback
  }

  /** The tag loop as the script runs it, returning as soon as a tag yields a date. */
  method ExtractDateWithExiftool(run: ExiftoolRun, fallback: YearMonth) returns (date: YearMonth)
    ensures date == ExiftoolDate(run, fallback)
  {
    if run.Output? && run.json.JsonList? && |run.json.records| > 0 {
      var record := run.json.records[0];
      var i := 0;
      while i < |DateTags|
        invariant 0 <= i <= |DateTags|
        invariant ScanTags(record, DateTags) == ScanTags(record, DateTags[i..])
      {
        var tag := DateTags[i];
        assert DateTags[i..][1..] == DateTags[i + 1..];
        if tag in record {
          match record[tag] {
            case Scalar =>
              return fallback;
            case Container(holdsColon) =>
              if holdsColon {
                return fallback;
              }
            case Str(dateStr) =>
              if ':' in dateStr {
                var found := SearchDate(dateStr);
                if found.Some? {
                  return found.value;
                }
              }
          }
        }
        i := i + 1;
      }
    }
    return fallback;
  }

  /** The first tag that yields a date decides, whatever the later tags hold. */
  lemma {:induction false} ScanStopsAtFirstDate(record: map<string, TagValue>, tags: seq<string>, k: nat, d: YearMonth)
    requires k < |tags|
    requires forall j :: 0 <= j < k ==> ReadTag(record, tags[j]) == Skip
    requires ReadTag(record, tags[k]) == Found(d)
    ensures ScanTags(record, tags) == Some(d)
  {
    if k > 0 {
      assert ReadTag(record, tags[0]) == Skip;
      ScanStopsAtFirstDate(record, tags[1..], k - 1, d);
    }
  }

  /**
   * A number, boolean or null, or an array or object holding `":"`, ends the scan
   * in the fallback, even if a later tag would match.
   */
  lemma {:induction false} ScanAbortsOnNonString(record: map<string, TagValue>, tags: seq<string>, k: nat)
    requires k < |tags|
    requires forall j :: 0 <= j < k ==> ReadTag(record, tags[j]) == Skip
    requires tags[k] in record && (record[tags[k]].Scalar? || record[tags[k]] == Container(true))
    ensures ScanTags(record, tags) == None
  {
    if k > 0 {
      assert ReadTag(record, tags[0]) == Skip;
      ScanAbortsOnNonString(record, tags[1..], k - 1);
    }
  }

  /**
   * An array or object value without `":"` is skipped, not raised on: with
   * `DateTimeOriginal` an array and `CreateDate` a date string, the date is read.
   */
  lemma ArrayValueIsSkipped(fallback: YearMonth)
    ensures var record := map["DateTimeOriginal" := Container(false), "CreateDate" := Str("2020:05:01 00:00:00")];
      ExiftoolDate(Output(JsonList([record])), fallback) == YearMonth(2020, 5)
  {
    var record := map["DateTimeOriginal" := Container(false), "CreateDate" := Str("2020:05:01 00:00:00")];
    ExampleDateMatches();
    assert DateTags[0] == "DateTimeOriginal" && DateTags[1] == "CreateDate";
    assert record["DateTimeOriginal"] == Container(false);
    assert ReadTag(record, DateTags[0]) == Skip;
    assert record["CreateDate"] == Str("2020:05:01 00:00:00");
    var rest := DateTags[1..];
    assert rest[0] == DateTags[1];
    assert ReadTag(record, rest[0]) == Found(YearMonth(2020, 5));
    assert ScanTags(record, DateTags) == ScanTags(record, rest);
    var run := Output(JsonList([record]));
    assert run.json.records[0] == record;
  }

  /** When no tag yields a date the fallback is returned. */
  lemma {:induction false} ScanWithoutDate(record: map<string, TagValue>, tags: seq<string>)
    requires forall j :: 0 <= j < |tags| ==> !ReadTag(record, tags[j]).Found?
    ensures ScanTags(record, tags).None?
  {
    if tags != [] {
      assert !ReadTag(record, tags[0]).Found?;
      ScanWithoutDate(record, tags[1..]);
    }
  }

  /** Every date the scan returns came from some tag's leftmost match. */
  lemma {:induction false} ScanResultFromTag(record: map<string, TagValue>, tags: seq<string>)
    requires ScanTags(record, tags).Some?
    ensures exists k :: 0 <= k < |tags| && ReadTag(record, tags[k]) == Found(ScanTags(record, tags).value)
  {
    if ReadTag(record, tags[0]).Skip? {
      ScanResultFromTag(record, tags[1..]);
      var k :| 0 <= k < |tags[1..]| && ReadTag(record, tags[1..][k]) == Found(ScanTags(record, tags[1..]).value);
      assert tags[k + 1] == tags[1..][k];
    }
  }

  /** The result is the fallback or a year in 0..9999 with a month in 0..99. */
  lemma ExiftoolDateRange(run: ExiftoolRun, fallback: YearMonth)
    ensures var d := ExiftoolDate(run, fallback);
      d == fallback || (0 <= d.year <= 9999 && 0 <= d.month <= 99)
  {
    if run.Output? && run.json.JsonList? && |run.json.records| > 0 {
      var record := run.json.records[0];
      if ScanTags(record, DateTags).Some? {
        ScanResultFromTag(record, DateTags);
        var k :| 0 <= k < |DateTags| && ReadTag(record, DateTags[k]) == Found(ScanTags(record, DateTags).value);
        SearchDateRange(record[DateTags[k]].s);
      }
    }
  }

  // ---------------------------------------------------------------------
  // Content-Type

  /** `s[1:]`, which is empty for an empty string. */
  function DropFirst(s: string): string {
    if s == [] then [] else s[1..]
  }

  /**
   * `get_content_type(file_path, video_extensions, image_extensions)`, where
   * `guessed` is what `mimetypes.guess_type(file_path)` returned as the type.
   */
  function GetContentType(filePath: string, guessed: Option<string>,
                          videoExtensions: seq<string>, imageExtensions: seq<string>): (r: string)
    ensures EndsWith(Lower(filePath), ".heic") ==> r == "image/heic"
    ensures r != ""
  {
    if EndsWith(Lower(filePath), ".heic") then "image/heic"
    else if guessed.Some? && guessed.value != "" then guessed.value
    else
      var ext := Lower(Extension(filePath));
      if ext in imageExtensions then "image/" + DropFirst(ext)
      else if ext in videoExtensions then "video/" + DropFirst(ext)
      else "application/octet-stream"
  }

  /** A name ending in `.heic`, in any letter case, is `image/heic` whatever the guess. */
  lemma HeicIgnoresGuess(filePath: string, guess1: Option<string>, guess2: Option<string>,
                         videoExtensions: seq<string>, imageExtensions: seq<string>)
    requires EndsWith(Lower(filePath), ".heic")
    ensures GetContentType(filePath, guess1, videoExtensions, imageExtensions)
         == GetContentType(filePath, guess2, videoExtensions, imageExtensions)
         == "image/heic"
  {
  }

  /** The fallback never yields an empty header value, and image lists win over video lists. */
  lemma ContentTypeShape(filePath: string, guessed: Option<string>,
                         videoExtensions: seq<string>, imageExtensions: seq<string>)
    ensures GetContentType(filePath, guessed, videoExtensions, imageExtensions) != ""
    ensures var ext := Lower(Extension(filePath));
      !EndsWith(Lower(filePath), ".heic") && (guessed.None? || guessed.value == "")
      && ext in imageExtensions && ext in videoExtensions
      ==> GetContentType(filePath, guessed, videoExtensions, imageExtensions) == "image/" + DropFirst(ext)
  {
  }

  /** How the three fallback values tell themselves apart. */
  lemma FallbackKinds(rest: string)
    ensures StartsWith("image/" + rest, "image/") && !StartsWith("image/" + rest, "video/")
    ensures StartsWith("video/" + rest, "video/") && !StartsWith("video/" + rest, "image/")
    ensures "image/" + rest != "application/octet-stream" && "video/" + rest != "application/octet-stream"
    ensures !StartsWith("application/octet-stream", "image/") && !StartsWith("application/octet-stream", "video/")
  {
    assert ("image/" + rest)[..6] == "image/";
    assert ("video/" + rest)[..6] == "video/";
    assert ("image/" + rest)[0] == 'i' && ("video/" + rest)[0] == 'v';
  }

  /**
   * Past the `.heic` test, a non-empty guess is returned unchanged; without one
   * the type is an image type exactly for the image extensions, a video type
   * exactly for the other video extensions, and the generic type otherwise.
   */
  lemma ContentTypeDecision(filePath: string, guessed: Option<string>,
                            videoExtensions: seq<string>, imageExtensions: seq<string>)
    requires !EndsWith(Lower(filePath), ".heic")
    ensures var r := GetContentType(filePath, guessed, videoExtensions, imageExtensions);
      var ext := Lower(Extension(filePath));
      && (guessed.Some? && guessed.value != "" ==> r == guessed.value)
      && (guessed.None? || guessed.value == "" ==>
            && (ext in imageExtensions ==> r == "image/" + DropFirst(ext))
            && (ext !in imageExtensions && ext in videoExtensions ==> r == "video/" + DropFirst(ext))
            && (StartsWith(r, "image/") <==> ext in imageExtensions)
            && (StartsWith(r, "video/") <==> ext !in imageExtensions && ext in videoExtensions)
            && (r == "application/octet-stream" <==> ext !in imageExtensions && ext !in videoExtensions))
  {
    FallbackKinds(DropFirst(Lower(Extension(filePath))));
  }

  // ---------------------------------------------------------------------
  // Image validation

  /** What `Image.open(file_path)` gave: the image's size, or the text of the exception. */
  datatype OpenedImage = Opened(width: int, height: int) | OpenFailed(reason: string)

  /** `validate_image_file`: usable iff opening worked and both dimensions are positive. */
  function ValidateImageFile(image: OpenedImage): (r: (bool, string))
    ensures r.0 <==> image.Opened? && image.width > 0 && image.height > 0
    ensures r.0 <==> StartsWith(r.1, "Valid image: ")
  {
    match image
    case OpenFailed(reason) =>
      var message := "Error validating image: " + reason;
      assert message[0] != 'V';
      (false, message)
    case Opened(width, height) =>
      var dims := IntToString(width) + "x" + IntToString(height);
      if width <= 0 || height <= 0 then
        var message := "Invalid image dimensions: " + dims;
        assert message[0] != 'V';
        (false, message)
      else (true, "Valid image: " + dims)
  }
}
