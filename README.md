# Photo ingestion scripts, modelled in Dafny

This project models the Python scripts that fill and tidy the photo catalog.

- **`upload_photos.py`**:
  - picks the media files of a directory tree;
  - reads the MinIO endpoint setting;
  - stores each file under a dated object key (`media/{year}/{month:02d}/{hash}{ext}`, with thumbnails under `thumbnails/`) and a Content-Type;
  - rebuilds `manifest.json` from a bucket listing: photo records sorted newest first, a per-year timeline in ascending year order, and the total.
- **`dedupe_photos.py`**:
  - buckets images by perceptual-hash string;
  - merges buckets greedily around seed buckets within a distance threshold;
  - copies the earliest image of each group;
  - writes a report;
  - prints total, unique and duplicate counts.
- **`utils.py`**:
  - reads a capture date out of exiftool's JSON, using a fixed tag preference and the pattern `(\d{4}):(\d{2}):\d{2}`;
  - chooses a Content-Type;
  - checks an image's dimensions.
- **`favicon_creator.py`**: makes near-white pixels transparent in place, then produces one resized frame per requested size for the ICO file, plus a PNG of the last frame.

The Dafny modules follow the scripts.

| file | module | what it holds |
|---|---|---|
| `upload_photos.dfy` | `UploadPhotos` | `upload_photos.py` |
| `dedupe_photos.dfy` | `DedupePhotos` | `dedupe_photos.py` |
| `media_utils.dfy` | `MediaUtils` | `utils.py` |
| `favicon_creator.dfy` | `FaviconCreator` | `favicon_creator.py` |
| `text.dfy` | `Text` | the Python string semantics the scripts rely on (below) |
| `sorting.dfy` | `Sorting` | Python's stable `list.sort` |
| `wrappers.dfy` | `Wrappers` | `Option` and `Result` |

The Python string semantics in `Text`:

- `str.split`, and `str.replace`, which removes every occurrence of the pattern;
- `int()` on ASCII text;
- `f"{n}"` and `f"{n:02d}"`;
- ASCII `lower()`;
- `os.path.join`, `basename` and `splitext`.

Foreign calls become inputs of the model. The table gives, for each foreign call, the parameter that stands for it.

| foreign call | modelled as |
|---|---|
| MinIO listing | a sequence of `StoredObject`s |
| `os.walk` | a sequence of `WalkedFile`s |
| md5 digest | an opaque string without `/` |
| outcome of HEIC conversion and of thumbnail creation | booleans |
| `mimetypes.guess_type` | an `Option<string>` |
| exiftool run | an `ExiftoolRun` |
| modification-time fallback | a `YearMonth` |
| `os.path.getctime` | a function from paths to integers |
| perceptual hash and its distance | a string and a function to naturals |
| PIL image | an `array2<Pixel>` |
| `img.size` | an `OpenedImage` |

The modules differ in form:

- **Loops become methods** proved against specification functions:
  - `ParseAll` and `TallyYears` (the loops of `GenerateManifest`), `CollectEligible`, `BucketByHash`, `GroupSimilar`/`GrowGroup`, `ExtractDateWithExiftool`, `ExiftoolCommand` and `ResizeAll`;
  - the in-place pixel loop is a method of the class `RgbaImage`.
- **Pure decisions become functions**: key formatting, path parsing, content type, statistics and the report.

## Model

| member | source | states |
|---|---|---|
| UploadPhotos.CollectEligible | python_stuff/upload_photos.py:393-400 | The collected paths are `EligiblePaths(walk)`: `os.path.join(root, name)` of every eligible walked file, in walk order. |
| UploadPhotos.IsEligible | python_stuff/upload_photos.py:396-399 | A name is eligible if and only if its lower-cased form ends in an image or video extension. The skip test never excludes anything, because no media name ends in `.ds_store` or `thumbs.db`. |
| UploadPhotos.CollectedPathsMembers | python_stuff/upload_photos.py:394-400 | For any file test, a path is collected if and only if some walked file passing the test joins to it. |
| UploadPhotos.EligiblePathsMembers | python_stuff/upload_photos.py:394-400 | A path is collected if and only if some walked file with an eligible name joins to it. |
| UploadPhotos.SetupMinioClient | python_stuff/upload_photos.py:143-160 | An `https://` prefix gives a secure client, and every `https://` occurrence is removed. Otherwise an `http://` prefix gives an insecure client, and every `http://` occurrence is removed. Any other endpoint is kept unchanged and insecure. |
| UploadPhotos.SchemeStrippedFromHost | python_stuff/upload_photos.py:149-153 | When the scheme occurs only as the prefix, removing it leaves exactly the host. |
| UploadPhotos.SchemeRemovedEverywhere | python_stuff/upload_photos.py:150 | `replace` is not a prefix strip: `https://a/https://b` becomes `a/b`. |
| UploadPhotos.GetContentType | python_stuff/upload_photos.py:279-296 | A name ending in `.heic`, in any case, gets `image/heic` whatever the guess. The result is never empty. |
| UploadPhotos.UploadContentTypeDecision | python_stuff/upload_photos.py:279-296 | The whole decision over this script's lists. A `.heic` name gets `image/heic`. Otherwise a non-empty guess is returned unchanged. Without a guess, an extension in the image list gives `image/` plus the extension without its dot, one in the video list gives `video/` plus the extension without its dot, and any other gives `application/octet-stream`. |
| UploadPhotos.ListsDisjoint | python_stuff/upload_photos.py:31-32 | No extension is in both the image and the video list, so the image test coming first never hides a video. |
| UploadPhotos.DatedKey | python_stuff/upload_photos.py:444-485 | A key `top/{year}/{month:02d}/name` starts with `top/` and ends with `/name`. |
| UploadPhotos.MediaKey | python_stuff/upload_photos.py:461-464 | A media key starts with `media/` and ends with `/{hash}{ext}`. |
| UploadPhotos.ThumbnailKey | python_stuff/upload_photos.py:485 | A thumbnail key starts with `thumbnails/` and ends with `/{hash}.jpg`. |
| UploadPhotos.PlanMediaUpload | python_stuff/upload_photos.py:436-474 | A HEIC/HEIF file is stored only when conversion succeeded, as `image/jpeg` under a `.jpg` key. Any other file is stored under its lower-cased extension with the content type chosen for it. Every key is a `media/` key whose file part has no `/`. |
| UploadPhotos.PlanThumbnailUpload | python_stuff/upload_photos.py:481-494 | A thumbnail is uploaded exactly when one was created, as `image/jpeg` under `thumbnails/`. |
| UploadPhotos.ThumbnailMatchesMedia | python_stuff/upload_photos.py:444-485 | The thumbnail key and the media key parse back to the same year and month. Both file names start with the same hash. |
| UploadPhotos.ParsePhoto | python_stuff/upload_photos.py:316-336 | An object name gives a record if and only if it splits on `/` into at least four parts and parts 1 and 2 parse as integers. Then `id` and `path` are the name, `year` and `month` are the integers parsed from parts 1 and 2, `filename` is part 3, and size and last-modified are carried over. |
| UploadPhotos.DatedKeySplits | python_stuff/upload_photos.py:316 | `split('/')` of `top/{year}/{month:02d}/name`, where `top` and `name` have no `/`, gives back exactly those four parts. |
| UploadPhotos.ThumbnailParsesBack | python_stuff/upload_photos.py:485 | A thumbnail key parses back to the year and month it was written under, with file name `{hash}.jpg`. |
| UploadPhotos.DatedKeyRoundTrip | python_stuff/upload_photos.py:316-329 | A key written as `top/{year}/{month:02d}/name`, where `top` and `name` have no `/`, parses back to exactly that year, month and name. |
| UploadPhotos.UploadedMediaParsesBack | python_stuff/upload_photos.py:440-467 | Every media key the uploader writes is listed back in the manifest with the year and month it was written under. |
| UploadPhotos.ParsedWithMembers | python_stuff/upload_photos.py:314-336 | For any parser, a record is in the list if and only if some listed object parses to it, and there are never more records than objects. |
| UploadPhotos.ParseAll | python_stuff/upload_photos.py:314-336 | The listing loop builds exactly the parsed records, in listing order. |
| UploadPhotos.ParsedPhotosMembers | python_stuff/upload_photos.py:314-336 | A record is in the photo list if and only if some listed object parses to it. There are never more records than objects. |
| UploadPhotos.Bump | python_stuff/upload_photos.py:345 | A bump grows the tally by at most one entry. Entries of other years stay where they were, and a new entry is `(year, 1)` at the end. |
| UploadPhotos.BumpCounts | python_stuff/upload_photos.py:345 | A bump adds one to that year's count and none to any other, and one to the sum. |
| UploadPhotos.BumpYears | python_stuff/upload_photos.py:345 | A bump adds the year to the years present and keeps them distinct. |
| UploadPhotos.BumpEffect | python_stuff/upload_photos.py:345 | `year_counts[year] = get(year, 0) + 1` raises that year's count by one, appends the year if it is new, and leaves every other entry alone. |
| UploadPhotos.TalliesStep | python_stuff/upload_photos.py:343-345 | Adding one photo to the tally keeps every count equal to the number of photos of that year. Years stay distinct, and the years present are exactly the photos' years. |
| UploadPhotos.TallyYears | python_stuff/upload_photos.py:342-345 | The tally loop ends with one distinct entry per year present, each counting the photos of that year. |
| UploadPhotos.TimelineAscending | python_stuff/upload_photos.py:348 | Sorting distinct years gives a strictly ascending timeline. |
| UploadPhotos.TimelineCounts | python_stuff/upload_photos.py:347-348 | After sorting, each entry's count is still the number of photos of its year, and positive. |
| UploadPhotos.TimelineCoversYears | python_stuff/upload_photos.py:347-348 | After sorting, every photo's year still has an entry. |
| UploadPhotos.TimelineOfTally | python_stuff/upload_photos.py:347-348 | The sorted timeline is strictly ascending by year. Each count is the number of photos of that year and positive. Every photo's year appears, and the counts sum to the number of photos. |
| UploadPhotos.SortNewestFirst | python_stuff/upload_photos.py:339 | The sorted records are a permutation of the input, non-increasing by (year, month), and records with equal (year, month) keep their order. |
| UploadPhotos.GenerateManifest | python_stuff/upload_photos.py:299-356 | The manifest's photos are a permutation of the parsed records. They are non-increasing by (year, month), and stable: records with equal (year, month) keep their listing order. The timeline has one entry per year, strictly ascending, with exact positive counts summing to `total_photos`, which is the number of photos. |
| Sorting.InsertPermutes | python_stuff/upload_photos.py:339 | Inserting an element into a list adds exactly that element. |
| Sorting.SortBy | python_stuff/upload_photos.py:339 | `list.sort` returns a permutation of its input, sorted by the key. |
| Sorting.SortByStable | python_stuff/upload_photos.py:339 | The sort is stable: for every key, the elements with that key keep their relative order. |
| Sorting.SortByStrict | python_stuff/upload_photos.py:348 | Elements with pairwise distinct keys come out strictly ascending. |
| Sorting.SortByHeadIsLeast | python_stuff/dedupe_photos.py:214-217 | The first element after sorting is a member with the least key. |
| Text.SplitJoin | python_stuff/upload_photos.py:316 | `split('/')` undoes joining parts that contain no `/`. |
| Text.Split | python_stuff/upload_photos.py:316 | `split` always gives at least one part, and no part holds the separator. |
| Text.IntToStringRoundTrip | python_stuff/upload_photos.py:319 | `int(f"{n}") == n` for every integer. |
| Text.Pad2RoundTrip | python_stuff/upload_photos.py:320 | `int(f"{n:02d}") == n` for every integer, negatives and three-digit numbers included. |
| Text.ParseInt | python_stuff/upload_photos.py:319-320 | A plain string of digits parses to its decimal value. The empty string never parses. |
| Text.ParseIntNeedsDigit | python_stuff/upload_photos.py:319-320 | A string without any digit never parses: `int("")`, `int("-")`, `int("  ")` and `int("ab")` all raise. |
| Text.ParseIntNegative | python_stuff/upload_photos.py:319-320 | A minus sign before a digit string gives the negated value: `int("-" + d) == -int(d)`. |
| Text.ParseIntSkipsSpace | python_stuff/upload_photos.py:319-320 | Leading whitespace is ignored: prefixing a whitespace character never changes the outcome. |
| Text.RemoveAllAbsent | python_stuff/upload_photos.py:150 | `replace` of a pattern that does not occur changes nothing. |
| Text.RemoveAll | python_stuff/upload_photos.py:150 | Removing every occurrence of a non-empty pattern never lengthens the string. |
| Text.Extension | python_stuff/upload_photos.py:459 | `splitext(p)[1]` is empty or a suffix of `p` that starts with its only `.` and holds no `/`. |
| Text.ExtensionPosition | python_stuff/upload_photos.py:459 | A non-empty extension starts at the last `.` of `p`, and that dot lies after the last `/`. An empty extension means every character of the last component before its last `.` is a dot, as in `.bashrc`, `..` or a name with no dot. |
| Text.JoinPathShape | python_stuff/dedupe_photos.py:219 | `os.path.join(root, name)` ends with `name`. It is `name` itself when `name` is absolute, and starts with `root` otherwise. |
| Text.BaseName | python_stuff/dedupe_photos.py:218 | `basename(p)` is a suffix of `p` without `/`. |
| Text.BaseNameWhole | python_stuff/dedupe_photos.py:218 | That suffix is the whole last component: it is either all of `p` or preceded by a `/`. |
| MediaUtils.ExiftoolCommand | python_stuff/utils.py:100-104 | The command is `exiftool -j`, then `-Tag` for each date tag in preference order, then the file. |
| MediaUtils.SearchDateFrom | python_stuff/utils.py:117 | `re.search` finds nothing exactly when no position matches. Otherwise it returns the groups of the leftmost match. |
| MediaUtils.SearchDateRange | python_stuff/utils.py:117-120 | A matched date has a year in 0..9999 and a month in 0..99. The month is not checked against 1..12. |
| MediaUtils.ColonTestRedundant | python_stuff/utils.py:115-117 | Every string the pattern matches holds a `:`, so for a string value the colon test never changes the outcome. |
| MediaUtils.ReadTag | python_stuff/utils.py:112-120 | One tag raises exactly when its value is a scalar (number, bool or null) or an array or object holding the element or key `":"`. It yields a date exactly when its value is a string the pattern matches, and the date is the leftmost match. Every other case, an absent tag or a colon-free array or object included, moves on to the next tag. |
| MediaUtils.ScanTags | python_stuff/utils.py:111-122 | A date the scan returns has a year in 0..9999 and a month in 0..99. A first tag that raises ends the scan with no date. |
| MediaUtils.ExiftoolDate | python_stuff/utils.py:105-127 | Anything but the fallback comes from a successful run whose output is a non-empty JSON list, as the scan of the first record over the date tags. Conversely, when such a run's scan finds a date, that date is the result. |
| MediaUtils.ExtractDateWithExiftool | python_stuff/utils.py:87-127 | The tag loop with its early return computes `ExiftoolDate`. The fallback is used when exiftool fails, the output is no JSON list, the list is empty, a tag value raises on the colon test, or no tag yields a date. An absent tag, or an array or object without a `":"` element, is skipped. Otherwise the scan's result is used. |
| MediaUtils.ScanStopsAtFirstDate | python_stuff/utils.py:111-120 | When earlier tags are skipped and tag k yields a date, that date is the result, whatever later tags hold. |
| MediaUtils.ScanAbortsOnNonString | python_stuff/utils.py:115-127 | A scalar tag value, or an array or object holding `":"`, makes line 115 or 117 raise. That sends the whole scan to the fallback, even when a later tag would match. |
| MediaUtils.ArrayValueIsSkipped | python_stuff/utils.py:112-120 | A `DateTimeOriginal` array without `":"` is skipped, not raised on, so `CreateDate` `2020:05:01 00:00:00` gives (2020, 5). |
| MediaUtils.ScanWithoutDate | python_stuff/utils.py:111-127 | When no tag yields a date, the fallback is returned. |
| MediaUtils.ScanResultFromTag | python_stuff/utils.py:111-120 | Every date the scan returns is the leftmost match in some tag's value. |
| MediaUtils.ExiftoolDateRange | python_stuff/utils.py:117-127 | The result is the fallback, or a year in 0..9999 with a month in 0..99. |
| MediaUtils.HeicIgnoresGuess | python_stuff/utils.py:228-229 | For a `.heic` name, the result does not depend on the guess. |
| MediaUtils.GetContentType | python_stuff/utils.py:223-242 | A name ending in `.heic`, in any case, gets `image/heic`. The result is never empty. |
| MediaUtils.ContentTypeShape | python_stuff/utils.py:236-242 | Without a guess, an extension in both lists is an image type, because the image list is checked first. |
| MediaUtils.ContentTypeDecision | python_stuff/utils.py:231-242 | For a name not ending in `.heic`, a non-empty guess is returned unchanged. Without a guess, the result is an image type if and only if the extension is in the image list, and then it is `image/` plus the extension without its dot. It is a video type if and only if the extension is in the video list but not the image list, and then it is `video/` plus the extension without its dot. It is `application/octet-stream` if and only if the extension is in neither list. |
| MediaUtils.ValidateImageFile | python_stuff/utils.py:384-394 | The image is valid if and only if it opened with positive width and height. The message starts with `Valid image: ` exactly when it is valid. |
| DedupePhotos.PathsWithHashOrigin | python_stuff/dedupe_photos.py:52-57 | A path is listed under a hash if and only if some result carries that path with that hash. |
| DedupePhotos.BucketByHash | python_stuff/dedupe_photos.py:52-57 | Failed hashes are dropped. There is one bucket per distinct hash string, and no hash is repeated. Each bucket lists exactly the paths with its hash, in result order, and is non-empty. The buckets cover exactly the hashed paths. |
| DedupePhotos.ConsistentHashesGiveDisjointBuckets | python_stuff/dedupe_photos.py:52-57 | When no image was hashed to two different strings, no image sits in two buckets. |
| DedupePhotos.GrowGroup | python_stuff/dedupe_photos.py:68-80 | The inner loop adds to the new group exactly the not-yet-processed buckets within the threshold of the seed, marks them processed, and assigns them the new group. |
| DedupePhotos.GroupSimilar | python_stuff/dedupe_photos.py:60-83 | The result is the greedy grouping. Each group is opened by the first bucket no earlier group took. It takes exactly the untaken buckets within the threshold of that seed. Every bucket lands in exactly one group, and there are at most as many groups as buckets. |
| DedupePhotos.GroupingPartitions | python_stuff/dedupe_photos.py:60-85 | The groups cover exactly the bucketed images. They are non-empty when every bucket is, and pairwise disjoint when the buckets are. |
| DedupePhotos.GroupingSeedsAscending | python_stuff/dedupe_photos.py:64-69 | Seeds are taken in bucket order. |
| DedupePhotos.GroupingNotTransitive | python_stuff/dedupe_photos.py:73-80 | With `a`–`b` and `b`–`c` close but `a`–`c` far, `c` does not join the group of `a` and `b`: only the seed's distance counts. |
| DedupePhotos.ListOfSet | python_stuff/dedupe_photos.py:83 | `list(set)` holds each element of the set exactly once, in some order. |
| DedupePhotos.ListGroups | python_stuff/dedupe_photos.py:83 | `[list(g) for g in groups]`: one list per set, in order, holding exactly that set's elements once each. |
| DedupePhotos.FindSimilarImages | python_stuff/dedupe_photos.py:29-85 | The groups are non-empty lists without repeats. Their union is exactly the set of hashed images, and there are at most as many groups as distinct hashes. When no image has two hashes, the groups are pairwise disjoint. |
| DedupePhotos.ComputeStatistics | python_stuff/dedupe_photos.py:259-261 | `total` is the sum of the group sizes, `unique` the number of groups, and `duplicates` is `total - unique`. With non-empty groups, `duplicates` is never negative and the total is 0 exactly when there are no groups. |
| DedupePhotos.TotalAtLeastGroups | python_stuff/dedupe_photos.py:259-261 | Non-empty groups hold at least one image each. |
| DedupePhotos.TotalCountsEachImageOnce | python_stuff/dedupe_photos.py:259 | For disjoint groups without repeats, `total_images` is the number of distinct images. |
| DedupePhotos.Earliest | python_stuff/dedupe_photos.py:213-217 | For a non-empty group: a member with the least creation time, and no earlier member of the group has that least time. |
| DedupePhotos.SortedHeadIsFirstLeast | python_stuff/dedupe_photos.py:213-217 | After the stable sort by creation time, the head has the least time, and no member before it in the group has that time. |
| DedupePhotos.KeptImageIsEarliest | python_stuff/dedupe_photos.py:213-217 | The image the sort puts first is `Earliest` of the group: the first member, in the group's order, with the least creation time. |
| DedupePhotos.CopyFor | python_stuff/dedupe_photos.py:217-228 | The action's source is the kept image. It is a conversion to JPEG exactly when conversion is asked for and the name ends in `.heic` or `.heif`, in any case. |
| DedupePhotos.CopyForDestination | python_stuff/dedupe_photos.py:217-228 | The destination lies in the output directory and ends with the base name, or with its stem plus `.jpg` when converted. |
| DedupePhotos.ProcessAndCopyImage | python_stuff/dedupe_photos.py:209-230 | The action copies or converts `Earliest` of the group, as `CopyFor` lays out, and the group size is returned. |
| DedupePhotos.ProcessGroup | python_stuff/dedupe_photos.py:88-125 | As written: a group of at most one image gives no section. Otherwise the first image of the list is labelled KEPT and the rest REMOVED, under number `i+1`. |
| DedupePhotos.ReportLabelsWrongImage | python_stuff/dedupe_photos.py:102 | For `["b.jpg","a.jpg"]`, with `a.jpg` created first, the as-written report's single section labels `b.jpg` KEPT, while the image the copy step keeps is `a.jpg`. |
| DedupePhotos.ProcessSortedGroup | python_stuff/dedupe_photos.py:88-125 | Corrected: the section is skipped exactly for groups of at most one image. Otherwise it labels `Earliest` KEPT, the image the copy step copies, and lists the rest of the group as REMOVED. |
| DedupePhotos.DuplicateGroups | python_stuff/dedupe_photos.py:184 | Only groups with more than one image are kept, and they are groups of the input. A single group is kept exactly when it has more than one image. |
| DedupePhotos.DuplicateGroupsConcat | python_stuff/dedupe_photos.py:184 | Filtering distributes over concatenation. With the single-group case, this makes it the order-preserving filter `[g for g in groups if len(g) > 1]`. |
| DedupePhotos.DuplicateGroupsComplete | python_stuff/dedupe_photos.py:184 | Every group with more than one image is kept. |
| DedupePhotos.CreateHtmlReport | python_stuff/dedupe_photos.py:183-197 | As written: one section per duplicate group, numbered from 1, none skipped, each labelling the first image of its list KEPT. |
| DedupePhotos.CreateCorrectedReport | python_stuff/dedupe_photos.py:183-197 | Corrected: as above, with each group in copy order. |
| DedupePhotos.CopyAll | python_stuff/dedupe_photos.py:268-276 | One copy per group, in order, each the action for `Earliest` of that group. |
| DedupePhotos.ReportKeptWasCopied | python_stuff/dedupe_photos.py:214-217 | Corrected: every image the corrected report labels KEPT (line 102, once corrected) was copied. |
| DedupePhotos.DedupeGroups | python_stuff/dedupe_photos.py:255-279 | As written. The run stops with no images exactly when the groups cover no image. Otherwise `total` is the sum of the group sizes, `unique` the number of groups, and `duplicates` is `total - unique`, never negative. When the groups are disjoint, `total` is the number of images. There is one copy per group, for `Earliest` of that group, and every copy comes from the images. The report is `CreateHtmlReport` of the unsorted groups. |
| DedupePhotos.AsWrittenReportMissesCopy | python_stuff/dedupe_photos.py:268-279 | For `["b.jpg","a.jpg"]`, with `a.jpg` created first, the as-written report labels KEPT an image that was not copied. |
| DedupePhotos.CorrectedReportKeptWasCopied | python_stuff/dedupe_photos.py:268-279 | Corrected: when each group is sorted by creation time before reporting, every KEPT image was copied. |
| DedupePhotos.DedupeGroupsCorrected | python_stuff/dedupe_photos.py:255-279 | Corrected: everything `DedupeGroups` states, with the report built from the groups in copy order, so that every KEPT image was copied. |
| DedupePhotos.RunDedupe | python_stuff/dedupe_photos.py:232-289 | As written. A missing input directory stops the run. Otherwise, if nothing could be hashed, the run stops with no images. Otherwise the groups cover the hashed images without repeats, and there are at most as many as distinct hashes. `total` is the sum of the group sizes, `unique` the number of groups and copies, and `duplicates` is `total - unique`, never negative. When no image has two hashes, the groups are disjoint and `total` is the number of hashed images. Every copied image was hashed. The report is `CreateHtmlReport` of the unsorted groups. |
| DedupePhotos.RunDedupeCorrected | python_stuff/dedupe_photos.py:232-289 | Corrected: everything `RunDedupe` states, with the report built from the groups in copy order, so that every KEPT image was copied. |
| FaviconCreator.Masked | python_stuff/favicon_creator.py:25-27 | A near-white pixel (r, g, b all above 240) loses its alpha. Any other pixel is unchanged, and the colour channels never change. |
| FaviconCreator.MaskedIdempotent | python_stuff/favicon_creator.py:21-27 | Masking twice is masking once. |
| FaviconCreator.MaskThresholdIsStrict | python_stuff/favicon_creator.py:25 | A colour channel equal to 240 keeps the pixel as it was. |
| FaviconCreator.RgbaImage.PutPixel | python_stuff/favicon_creator.py:27 | `putpixel` changes that pixel and no other. |
| FaviconCreator.RgbaImage.MakeWhiteTransparent | python_stuff/favicon_creator.py:20-27 | Every pixel ends as the masked value of its old value. Pixels are visited column by column, each pixel of the grid exactly once and nothing outside it. |
| FaviconCreator.ResizeAll | python_stuff/favicon_creator.py:29-34 | One frame per requested size, in order. |
| FaviconCreator.CreateFavicon | python_stuff/favicon_creator.py:6-48 | The mask is applied to every pixel. With no sizes, `resized_images[0]` raises and nothing is saved. Otherwise the ICO holds one frame per size in order, first size leading, and the PNG holds the last frame and is written beside the ICO under the same stem. |
| FaviconCreator.SaveFavicon | python_stuff/favicon_creator.py:35-48 | With no frames, `resized_images[0]` raises and nothing is written. Otherwise the ICO at the output path holds every frame, and the PNG holds the last frame at the output path's splitext root plus `.png`. |
| FaviconCreator.CreateDefaultFavicon | python_stuff/favicon_creator.py:6-57 | `create_favicon(input_image)` on the defaults: the mask is applied, the ICO `favicon.ico` holds six frames bounded by 16, 32, 48, 64, 128 and 256 in order, and `favicon.png` holds the 256 frame. |
| FaviconCreator.PngBesideIco | python_stuff/favicon_creator.py:47 | For any stem, `splitext(stem + ".ico")[0]` is `stem` if and only if the last component of the stem holds a character other than `.` (`favicon`, `my.icon`, `out/fav`), so the PNG is `stem.png`. Otherwise (an empty, all-dots or `/`-ending stem) splitext sees a leading-dot name, keeps `stem.ico` whole, and the PNG is `stem.ico.png`. |
| FaviconCreator.IcoStrippedFromNamedStem | python_stuff/favicon_creator.py:47 | A stem whose last component has a non-dot character loses exactly `.ico` to splitext. |
| FaviconCreator.IcoKeptOnDotsOnlyStem | python_stuff/favicon_creator.py:47 | A stem whose last component is empty or all dots keeps `.ico` in splitext's root. |
| FaviconCreator.DefaultPngPath | python_stuff/favicon_creator.py:6-47 | The default output `favicon.ico` puts the PNG at `favicon.png`. |

## Left out

- MinIO calls: `bucket_exists`, `make_bucket`, `put_object`, `fput_object`, `list_objects` and the manifest upload are network I/O. The model produces the key and content type of each upload and takes the listing as a sequence.
- `upload_photos.py:100-140` repeats `extract_date_with_exiftool` from `utils.py` line for line. It is modelled once, in `MediaUtils`.
- Subprocess tools (exiftool, ffprobe, ffmpeg, sips): foreign processes.
  - exiftool's outcome is an input.
  - `convert_heic_to_jpeg`, `create_thumbnail`, `create_video_thumbnail`, `validate_video_file` and `get_video_metadata` are reduced to whether they produced something.
- `get_exif_date` in both scripts: every branch is a foreign call (ffprobe, PIL's EXIF reader, exiftool, mtime). The date it returns is an input of the upload plan.
- PIL and imagehash: decoding, `thumbnail` resampling, `phash` and `hex_to_hash` are foreign libraries. A hash is a string and hash subtraction is an abstract distance function. A resized frame records only its bound.
- `ProcessPoolExecutor` and `tqdm`: parallelism and progress display. Results are taken in order, as `executor.map` returns them.
- `find_similar_images`' `glob` patterns and `os.walk`: file-system listing. The hashed results and the walked names are inputs.
- Report HTML and file operations: the markup, copies of report images, HEIC conversion for the report, `shutil.copy2` and `makedirs`. The report is modelled as its sections (number, kept image, removed images).
- Clocks and digests: `datetime.now`, `getmtime`, `getctime` and md5 are inputs. `generated_at` is passed through.
- Floating point: speeds, sizes in MB and the duplication rate printout.
- `Text.ParseInt`: `int()` is modelled on ASCII whitespace, an optional sign and ASCII digits. Underscores and non-ASCII digits are not accepted.
- `Text.Lower`: folds only ASCII letters.
- `MediaUtils.SearchDateFrom`: `\d` is modelled as the ASCII digits. Python's `\d` on `str` also matches other Unicode decimal digits, which exiftool does not write in dates.
- `MediaUtils.ExiftoolDate`: `metadata[0]` is taken to be a JSON object. A list whose first element is not an object, where `tag in metadata[0]` means something else or raises, is not modelled.
- `UploadPhotos.ParsePhoto`: `last_modified` is an optional ISO string standing for `hasattr(obj, 'last_modified')` and `isoformat()`.
- `DedupePhotos.BucketByHash`: does not state that buckets appear in order of their hash's first appearance, which Python's dict preserves. The grouping's contract does not depend on that order.
- `DedupePhotos.GroupSimilar`: the groups are sets, and `list(current_group)` gives them an order the model leaves open.
- `DedupePhotos.RunDedupe`: `total` equals the number of hashed images only when no image was hashed to two strings, because an image with two hashes may sit in two groups.
- `FaviconCreator.CreateFavicon`: the `input_path` open and RGBA conversion, and the ICO `sizes` argument built from the frames' actual sizes, are PIL work and not modelled.

## Findings

| source | as written | input that shows it | evidently intended | confidence | as-written member | corrected member |
|---|---|---|---|---|---|---|
| python_stuff/dedupe_photos.py:102 | The report labels `group[0]` KEPT. The copy step sorts the group by creation time (line 214), but only a pickled copy inside a worker process. The report's list stays unsorted, so the label can name an image that was not kept. | group `["b.jpg", "a.jpg"]` with `getctime("a.jpg") = 1 < getctime("b.jpg") = 2`: `b.jpg` is labelled KEPT, `a.jpg` is copied | the image labelled KEPT is the one copied to the output directory | high, not executed | DedupePhotos.AsWrittenReportMissesCopy | DedupePhotos.RunDedupeCorrected |
