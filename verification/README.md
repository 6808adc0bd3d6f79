# dhg-backup media core in Dafny

A model of the decision and bookkeeping code of the `dhg-backup` photo and
video organiser. It covers four classes:

- `ExifHandler` resolves the capture time of a photo (from its EXIF date/time
  tags) or of a video (from named metadata fields, then from an ISO-like date
  in the metadata's text dump). It records every file it cannot date in
  `missing_exif_files`.
- `HeicConverter` decides whether a file is HEIC/HEIF, where its JPEG goes,
  which colour mode and EXIF the encoder receives, and which of its two lists
  records the outcome.
- `FileCategory` / `FileCategorizer` hold the category enumeration, its folder
  names and the four extension tables.
- `FileProcessor` scans the export folder for visible files, creates the
  backup folder when it is missing, and reports a summary.

The image, HEIF and video-metadata libraries, the filesystem and the
directory walk do not appear as code. Each is an input: the EXIF entries an
image yields, the fields and text lines of a video's metadata, an
`Environment` giving the outcome of each library call, the sequence of
`os.walk` steps, and the set of paths that exist. Each bookkeeping list is
threaded through as a value.

Modules, one per file:

| module | file | what it holds |
|---|---|---|
| `Results` | results.dfy | `Option`, and the `Outcome` of a library call |
| `Text` | text.dfy | digits, ASCII lower-casing, `find`/`rfind`, `replace`, spans |
| `Sequences` | sequences.dfy | the first index satisfying a predicate, the first present option |
| `Paths` | paths.dfy | `pathlib.PurePosixPath` parsing and printing, `name`/`suffix`/`stem`/`parent`, `/`, `os.path.join` |
| `DateTimes` | datetimes.dfy | `datetime` validity and `datetime.strptime` for `%Y<sep>%m<sep>%d %H:%M:%S` |
| `ExifHandler` | exif_handler.dfy | `extract_timestamp` and its two branches |
| `HeicConverter` | heic_converter.dfy | `is_heic_file`, `convert_heic_to_jpeg` |
| `FileCategorizer` | file_categorizer.dfy | `FileCategory`, the extension tables, a fresh categorizer |
| `FileProcessor` | file_processor.dfy | scan, summary, `ensure_target_directory`, `process_all_files` |

`strptime` is modelled after CPython's `_strptime` regular expression for
this format:

- the year is exactly four digits;
- month, day, hour, minute and second are each one or two digits, in the
  ranges the regular expression allows;
- the day may be written as a blank followed by a digit;
- the blank in the format matches one or more whitespace characters;
- the whole string must be consumed;
- the resulting date must exist (with leap years), and seconds 60 and 61
  pass the pattern but are rejected by `datetime`.

The parser takes maximal digit runs. It is proved equal to the existential
statement "the string splits into fields in the pattern's languages that
spell this valid date".

## Model

| member | source | states |
|---|---|---|
| ExifHandler.VideoDetectionIgnoresCase | src/exif_handler.py:40-42 | Two paths equal up to letter case are both videos or both not: the suffix test lower-cases before looking in `VIDEO_EXTENSIONS` |
| Paths.LowerSuffixCaseBlind | src/exif_handler.py:42 | Lower-casing commutes with taking `Path(p).suffix`, so the suffix tests see the same lower-cased suffix for paths equal up to case |
| ExifHandler.ExtractTimestamp | src/exif_handler.py:44-83 | A path with a video suffix gets the video branch's result and any other path gets the image branch's result. The result is `None` exactly when the path is appended to the missing list, once; on success the list is unchanged; an image's timestamp is a valid date and time |
| ExifHandler.DispatchBySuffix | src/exif_handler.py:54-56 | A video's result depends only on its video metadata and library availability, never on EXIF; an image's result never depends on video metadata or the library flag |
| ExifHandler.TimestampEntryIds | src/exif_handler.py:69-72 | The EXIF entries consulted are exactly those whose tag id is 0x9003, 0x9004 or 0x0132 |
| ExifHandler.ImageTimestamp | src/exif_handler.py:58-83 | An unreadable image, an empty EXIF block, no timestamp tag, or a value that does not parse records the file; a returned timestamp is valid and is the parse of the first timestamp-tagged entry |
| ExifHandler.ImageFirstTaggedEntryDecides | src/exif_handler.py:68-73 | The first timestamp-tagged entry alone decides the image result: whatever entries follow it, the result is the same |
| ExifHandler.ParseExifDateTime | src/exif_handler.py:165-183 | Returns a date and time exactly when the text matches `%Y:%m:%d %H:%M:%S` and spells that valid date and time; otherwise returns `None` and records the file |
| ExifHandler.StrptimeMatchesAll | src/exif_handler.py:176-178 | For every date and time, the parse yields it exactly when the text matches the format and spells it validly |
| DateTimes.StrptimeMatches | src/exif_handler.py:178 | The parser is sound and complete with respect to the pattern languages and calendar validity |
| DateTimes.DecomposeComplete | src/exif_handler.py:178 | Any text assembled from fields in the pattern's languages is cut back into exactly those fields |
| DateTimes.FormatRoundTrip | src/exif_handler.py:177-178 | A valid date and time written as zero-padded `YYYY:MM:DD HH:MM:SS` parses back to itself |
| DateTimes.FixedWidthStrptime | src/exif_handler.py:143-144 | A 19-character fixed-width text parses to the date and time its digits spell when that is valid, and to nothing otherwise |
| DateTimes.ExifTextExample | src/exif_handler.py:177-178 | `"2024:05:01 12:00:00"` parses to 1 May 2024, 12:00:00 |
| DateTimes.LenientTextExample | src/exif_handler.py:178 | Short fields, a blank-padded day and a run of mixed whitespace are accepted: `"2024:5: 1\t 9:3:7"` parses to 1 May 2024, 09:03:07 |
| DateTimes.InformationSeparatorExample | src/exif_handler.py:178 | The format's blank also matches the ASCII separator U+001C, which `\s` counts as whitespace: `"2024:05:01\x1c12:00:00"` parses to 1 May 2024, 12:00:00 |
| ExifHandler.ImageTimestampRanked | src/exif_handler.py:25-30 | The corrected image branch: a returned timestamp is valid, and the result is `None`, with the file recorded, exactly when none of `DateTimeOriginal`, `DateTimeDigitized`, `DateTime` has an entry whose value parses |
| ExifHandler.RankedAt | src/exif_handler.py:25-30 | In the corrected branch the most preferred tag (0x9003, then 0x9004, then 0x0132) whose first entry parses decides the result, whatever the tags after it hold |
| ExifHandler.RankOfEntry | src/exif_handler.py:69-72 | A tag's candidate value is that of the first entry carrying the tag id |
| ExifHandler.RankAbsent | src/exif_handler.py:69-72 | A tag with no entry contributes no candidate |
| ExifHandler.GenericBeforeOriginal | src/exif_handler.py:68-73 | For any two parsable values, `DateTime` listed before `DateTimeOriginal`: the code as written returns the first, the preference order the second |
| ExifHandler.UnparsedOriginalSkipped | src/exif_handler.py:68-73 | For any parsable `DateTime` listed after a non-text `DateTimeOriginal`: the code as written records the file and returns `None`, the preference order returns the `DateTime` value |
| ExifHandler.FirstTaggedAt0 | src/exif_handler.py:68-73 | When the first entry carries a timestamp tag, the image result is its parse, and a failed parse records the file |
| ExifHandler.ExtractTimestampRanked | src/exif_handler.py:44-83 | `extract_timestamp` with the corrected image branch: a video gets the same result as in the code, any other path gets the corrected image branch's result, with the same bookkeeping (`None` exactly when the file is recorded, once) |
| ExifHandler.PreferenceOrderCounterexample | src/exif_handler.py:68-73 | With `DateTime` listed before `DateTimeOriginal`, the code as written returns the generic time while the preference order returns the capture time |
| ExifHandler.UnparsedValueCounterexample | src/exif_handler.py:69-73 | A non-text `DateTimeOriginal` ends the search with the file recorded, although a later `DateTime` parses |
| ExifHandler.NoVideoLibrary | src/exif_handler.py:95-99 | Without the metadata library every video yields `None` and is recorded |
| ExifHandler.VideoTimestamp | src/exif_handler.py:85-163 | A missing parser, missing metadata or an error records the file; otherwise the field value when it is present and truthy, else the line-scan result; `None` is recorded |
| ExifHandler.FieldValue | src/exif_handler.py:117-127 | The value of the first name of `creation_date`, `date`, `creation_time`, `media_creation` that the metadata has, even when that value is empty; nothing when it has none |
| ExifHandler.ScanLines | src/exif_handler.py:129-147 | The result of the first line that yields a timestamp; `None` only when no line does; a result is a valid date and time |
| ExifHandler.LineTimestamp | src/exif_handler.py:131-147 | A line yields something only when it contains one of the keywords, compared case-insensitively, and the result is valid |
| ExifHandler.IsoSearch | src/exif_handler.py:138-139 | `re.search` for `\d{4}-\d{2}-\d{2}[T ]\d{2}:\d{2}:\d{2}` finds the leftmost match, and when it finds none no position matches |
| ExifHandler.IsoParse | src/exif_handler.py:141-144 | Replacing `T` by a blank and parsing a match gives the date and time its digits spell when valid, and nothing otherwise; `T` and blank spell the same value |
| ExifHandler.LineTimestampFirstMatch | src/exif_handler.py:132-145 | A line yields the value of its first match exactly when it has a keyword and that value is valid; later matches in the line are never tried |
| ExifHandler.LineTimestampNoMatch | src/exif_handler.py:138-140 | A line without a match yields nothing |
| ExifHandler.FirstMatchAfterSeparator | src/exif_handler.py:139 | Swapping the separator of the first match between `T` and a blank keeps it the first match |
| ExifHandler.KeywordsAfterSeparator | src/exif_handler.py:132-133 | Swapping that separator does not change whether the line contains a keyword |
| ExifHandler.LineSeparatorBlind | src/exif_handler.py:139-142 | A line whose first match uses `T` yields the same as the same line with a blank there |
| HeicConverter.HeicDetectionIgnoresCase | src/heic_converter.py:32-43 | Two paths equal up to letter case are both HEIC/HEIF or both not |
| HeicConverter.HeicIsNotVideo | src/heic_converter.py:42-43 | A file the converter accepts never takes the video branch of the timestamp extractor |
| HeicConverter.JpegNameFacts | src/heic_converter.py:64-66 | For a HEIC source, `f"{stem}.jpg"` is a single path component with the source's stem and the suffix `.jpg` |
| Paths.StemSuffixAppend | src/heic_converter.py:64-66 | A non-empty stem followed by a dot-free extension has that stem and that suffix |
| Paths.ParseToString | src/heic_converter.py:64-66 | Printing a path with `str()` and parsing the text gives the same path back |
| HeicConverter.OutputPath | src/heic_converter.py:61-66 | The printed output path names `<source stem>.jpg`, with suffix `.jpg`, inside `output_dir` when it is given and non-empty, else inside the source's folder |
| HeicConverter.OutputBesideSource | src/heic_converter.py:65-66 | Without an output directory the JPEG's folder is the source's folder |
| HeicConverter.OutputIgnoresSourceSuffix | src/heic_converter.py:62-66 | Sources with the same folder and stem share an output path, whatever their HEIC suffix and its case |
| HeicConverter.Normalize | src/heic_converter.py:73-75 | The image handed on is in mode `RGB` or `L` and keeps the source's EXIF; an image already in those modes is handed on unchanged; the step raises exactly when a conversion is needed and fails, with the conversion's reason |
| HeicConverter.KeptModeSkipsConversion | src/heic_converter.py:73-75 | For an opened image in `RGB` or `L`, the encode step's result does not depend on what the colour conversion would do |
| HeicConverter.Encode | src/heic_converter.py:71-91 | After the source is open: a failing colour conversion raises its reason; otherwise the JPEG request is saved, and the result is the written output path when the save passes and the save's reason when it raises |
| HeicConverter.Request | src/heic_converter.py:80-89 | The encoder receives format JPEG, the converter's quality and `optimize`; the EXIF read back from the request is the image's, and an empty EXIF block is never attached |
| HeicConverter.Attempt | src/heic_converter.py:56-96 | The steps run in order (create the output folder, open, convert the colour mode, save); the first step that raises decides the result with its reason, and when every step passes the computed output path is written |
| HeicConverter.WrittenRequest | src/heic_converter.py:68-91 | A written JPEG means the folder was created, the source opened and the encode succeeded, on an `RGB`/`L` image with the converter's quality and with EXIF exactly when the source had some |
| HeicConverter.Convert | src/heic_converter.py:45-101 | A non-HEIC source changes nothing and yields `None`; for a HEIC source exactly one list grows: `(source, output)` with the output path returned when the steps write it, or `(source, reason)` with the raised reason and `None` returned; nothing is raised |
| HeicConverter.NewConverterConsistent | src/heic_converter.py:21-30 | A fresh converter has empty lists, which satisfy the list invariant; the default quality is 95 |
| HeicConverter.ConvertKeepsConsistent | src/heic_converter.py:93-101 | A conversion keeps every converted entry a HEIC source paired with its `<stem>.jpg`, and every failed entry a HEIC source |
| HeicConverter.AppendConversionConsistent | src/heic_converter.py:95-96 | Appending a HEIC source paired with its `<stem>.jpg` keeps the list invariant |
| HeicConverter.AppendFailureConsistent | src/heic_converter.py:98-101 | Appending a failure for a HEIC source keeps the list invariant |
| HeicConverter.ConvertGrows | src/heic_converter.py:93-101 | One call appends one entry for a HEIC source and none otherwise, and only appends |
| HeicConverter.ConvertEachGrows | src/heic_converter.py:93-101 | Over any run of calls, the two lists together grow by the number of HEIC sources, and earlier entries stay in place |
| HeicConverter.ConvertEachConsistent | src/heic_converter.py:93-101 | Any run of calls keeps the list invariant |
| FileCategorizer.FromDirName | src/file_categorizer.py:14-21 | Looking a category up by its value gives a category with that value |
| FileCategorizer.DirNameRoundTrip | src/file_categorizer.py:14-21 | Looking a category up by its folder name gives the category back |
| FileCategorizer.FromDirNameComplete | src/file_categorizer.py:14-21 | The lookup fails exactly for names that are no category's folder |
| FileCategorizer.DirNameInjective | src/file_categorizer.py:14-21 | Two categories share a folder name only when they are the same category |
| FileCategorizer.SixCategories | src/file_categorizer.py:14-21 | There are six categories, each listed once, with pairwise distinct folder names |
| FileCategorizer.LowerSetOfLower | src/file_categorizer.py:57-62 | Lower-casing a set of already lower-case extensions gives the same set |
| FileCategorizer.PhotoTableLowered | src/file_categorizer.py:57-58 | The lower-cased photo table equals the declared one |
| FileCategorizer.VideoTableLowered | src/file_categorizer.py:59 | The lower-cased video table equals the declared one |
| FileCategorizer.ScreenshotTableLowered | src/file_categorizer.py:60-61 | The lower-cased screenshot table equals the declared one |
| FileCategorizer.SidecarTableLowered | src/file_categorizer.py:62 | The lower-cased sidecar table equals the declared one |
| FileCategorizer.ScreenshotsArePhotos | src/file_categorizer.py:28-41 | Every screenshot extension is a photo extension |
| FileCategorizer.TablesDisjoint | src/file_categorizer.py:28-45 | The photo, video and sidecar tables are pairwise disjoint |
| FileCategorizer.VideoTablesAgree | src/file_categorizer.py:34-37 | The categorizer's video table equals the timestamp extractor's |
| FileCategorizer.HeicIsPhoto | src/file_categorizer.py:28-32 | Every file the HEIC converter accepts has a photo suffix and not a video suffix |
| FileCategorizer.FreshBuckets | src/file_categorizer.py:48-55 | Every category has a bucket, and it is empty |
| FileCategorizer.FreshBucketsCount | src/file_categorizer.py:48-55 | There are exactly six buckets |
| FileCategorizer.NewCategorizer | src/file_categorizer.py:47-62 | A fresh categorizer has the fresh buckets, and its lower-cased tables equal the declared tables |
| FileProcessor.GenerateSummary | src/file_processor.py:109-117 | Each count equals the length of the list reported beside it, and the lists are the processor's |
| FileProcessor.NewProcessorSummary | src/file_processor.py:22-42 | A fresh processor reports zero processed and zero failed files |
| FileProcessor.ScanExportDirectory | src/file_processor.py:96-107 | The loop returns the visible files of the walk, joined to their folders in walk order, and nothing when the export folder is not a folder |
| FileProcessor.VisibleNamesStep | src/file_processor.py:103-106 | One more name in a folder appends its joined path, unless the name starts with a dot |
| FileProcessor.VisibleFilesStep | src/file_processor.py:101-106 | One more step of the walk appends the visible files of that folder, after those of the earlier steps |
| FileProcessor.VisibleNamesMembers | src/file_processor.py:103-106 | Within one folder, a path is listed exactly when it joins the folder to a name not starting with a dot |
| FileProcessor.VisibleFilesMembers | src/file_processor.py:101-107 | A path is in the scan exactly when it is `join(root, name)` for a walked file whose name does not start with a dot |
| FileProcessor.NoHiddenFiles | src/file_processor.py:104-106 | Every scanned path comes from a name that does not start with a dot |
| FileProcessor.EnsureTargetDirectory | src/file_processor.py:68-84 | Returns no created folder and changes nothing when the target exists; otherwise either raises what `mkdir` raises, or returns the one printed target, which parses back to the target, and the target exists afterwards |
| FileProcessor.EnsureIdempotent | src/file_processor.py:78-84 | After a successful call, a second call creates nothing and changes nothing |
| FileProcessor.EnsureAddsLineage | src/file_processor.py:80-81 | Creating the target adds it and every folder above it, and nothing else |
| FileProcessor.ProcessAllFiles | src/file_processor.py:44-66 | The summary always equals the pre-call one. A dry run, or a scan with no files, leaves the filesystem untouched. Otherwise the backup folder exists afterwards. The call raises exactly when that folder was missing and could not be created |
| FileProcessor.DryRunTouchesNothing | src/file_processor.py:62-64 | A dry run never raises and never changes the filesystem |
| FileProcessor.ProcessIdempotent | src/file_processor.py:44-66 | A second run after a successful one changes nothing further and reports the same summary |
| FileProcessor.FreshRunReportsNothing | src/file_processor.py:44-66 | A fresh processor's run reports zero processed and zero failed files |

## Left out

- src/cli_interface.py and src/main.py are not part of this model. They are the command-line presentation and an object-storage upload with configuration reading.
- Logging is left out. No decision depends on it.
- Pixel decoding and encoding are left out, and so is how Pillow, `pillow_heif` and hachoir read metadata. The model takes their results as inputs: EXIF entries, a colour mode, video fields and text lines, and a pass/fail outcome for each call.
- The colour conversion is assumed to keep the image's EXIF. Pillow's `convert` copies the image's `info`, which holds the EXIF bytes.
- The directory walk and the filesystem are inputs. The walk is the sequence of `(root, dirs, files)` steps; the filesystem is the set of existing paths, keyed by their parsed form.
- `convert_heic_to_jpeg` creates the output folder, but that effect on the filesystem is not modelled; only its outcome is.
- `\d` and `\s` in Python's regular expressions also match non-ASCII digits and whitespace. The model accepts ASCII digits and the ten ASCII characters `str.isspace` accepts (blank, tab, line feed, vertical tab, form feed, carriage return and U+001C to U+001F) only.
- `str.lower` is modelled for ASCII letters and the Kelvin sign only. This is exact for every comparison the code makes against its ASCII tables and keywords.
- ExifHandler.FieldValue: a video field whose value is truthy but not a `datetime` (a string, say) is not modelled. A field value is a date and time or nothing.
- ExifHandler.VideoTimestamp: a field value is taken as it comes from the library, so a timestamp returned from a field is not itself proved valid. Only timestamps from the line scan are.
- EXIF values that are neither text nor a Python object are not distinguished: any non-text value is `OtherValue`, which makes `strptime` raise. That `TypeError` escapes `_parse_exif_datetime` and is caught by the outer handler, which records the file once, just as a `ValueError` does.
- `_process_single_file` has an empty body, so it is not modelled. `used_timestamps` and `conversion_log` are created and never used.
- Category assignment, destination naming, collision avoidance, moving files and sidecar deletion are not modelled. The code has no such operations.
- FileProcessor.ProcessAllFiles: a missing export folder does not abort the run. The scan returns an empty list and the run returns the summary. This follows the code.
- HeicConverter.Attempt: an exception while the image is closed after saving is not modelled separately. It would be caught like any other failure.

## Findings

| source | as written | input that shows it | evidently intended | confidence | as-written member | corrected member |
|---|---|---|---|---|---|---|
| src/exif_handler.py:68-73 | The image branch returns the parse of the first entry, in the library's order, whose tag is any of the three timestamp tags. It stops there even when that value does not parse. | EXIF entries `DateTime = "2020:01:01 00:00:00"` then `DateTimeOriginal = "2024:05:01 12:00:00"`: the result is 2020-01-01 00:00:00. Also `DateTimeOriginal` with a non-text value then a valid `DateTime`: the result is `None` and the file is recorded. | Try `DateTimeOriginal`, then `DateTimeDigitized`, then `DateTime`, as the "order of preference" comments at lines 25-30 and 68 say. Take the first whose value parses. | not executed | ExifHandler.ImageTimestamp, ExifHandler.PreferenceOrderCounterexample, ExifHandler.UnparsedValueCounterexample | ExifHandler.ImageTimestampRanked, ExifHandler.ExtractTimestampRanked |
