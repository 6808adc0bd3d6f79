/** Capture-time resolution for photos and videos (`ExifHandler`).

    The image library and the video metadata library are replaced by what
    they hand back: the EXIF entries of an image, in the order the library
    yields them, and the named fields and plain-text dump of a video's
    metadata. The list `missing_exif_files` is threaded through every
    operation as a value. */
module ExifHandler {

  import opened Results
  import opened Text
  import opened Sequences
  import opened Paths
  import opened DateTimes

  // ---------------------------------------------------------------------
  // Tables.

  /** The three date/time tag ids of the Exif standard (CIPA DC-008). */
  const DateTimeTag: nat := 0x0132
  const DateTimeOriginalTag: nat := 0x9003
  const DateTimeDigitizedTag: nat := 0x9004

  /** The entries of Pillow's tag-name table whose names are date/time
      names. Every other id is named differently or, when the table does not
      know it, stands for itself, so no other id can name a timestamp tag. */
  const DateTagNames: map<nat, string> :=
    map[DateTimeOriginalTag := "DateTimeOriginal",
        DateTimeDigitizedTag := "DateTimeDigitized",
        DateTimeTag := "DateTime"]

  /** `ExifHandler.TIMESTAMP_TAGS`, in its declared order. */
  const TimestampTags: seq<string> := ["DateTimeOriginal", "DateTimeDigitized", "DateTime"]

  /** `ExifHandler.VIDEO_EXTENSIONS`. */
  const VideoExtensions: set<string> :=
    {".mov", ".mp4", ".m4v", ".avi", ".mkv", ".wmv",
     ".flv", ".webm", ".3gp", ".mpg", ".mpeg"}

  /** The metadata attributes tried, in order, for a video's creation time. */
  const VideoFieldNames: seq<string> := ["creation_date", "date", "creation_time", "media_creation"]

  /** The words that mark a line of the metadata dump as a candidate. */
  const LineKeywords: seq<string> := ["creation", "date", "time"]

  // ---------------------------------------------------------------------
  // What the libraries hand back.

  /** An EXIF value: text, or any other object (bytes, a number), on which
      `strptime` raises `TypeError`. */
  datatype ExifValue = TextValue(text: string) | OtherValue

  /** One `(tag_id, value)` pair of `image.getexif().items()`. */
  datatype ExifEntry = ExifEntry(tag: nat, value: ExifValue)

  /** `Image.open(path).getexif()`: it raises, or yields the entries. */
  datatype ImageExif = Unreadable | Exif(entries: seq<ExifEntry>)

  /** What the video metadata library yields for a file: no parser, no
      metadata, an exception while reading, or the metadata. A named field
      holds a `datetime` or a falsy value (`None`). */
  datatype VideoMetadata =
    | NoParser
    | NoMetadata
    | MetadataError
    | Metadata(fields: map<string, Option<DateTime>>, lines: seq<string>)

  /** One media file as both libraries see it. */
  datatype MediaSource = MediaSource(image: ImageExif, video: VideoMetadata)

  /** A returned timestamp together with the updated `missing_exif_files`. */
  datatype Lookup = Lookup(timestamp: Option<DateTime>, missing: seq<string>)

  /** A lookup either returns a timestamp and leaves the list alone, or
      returns `None` and appends the file exactly once. */
  predicate RecordsFailure(path: string, missing: seq<string>, r: Lookup) {
    && (r.timestamp.Some? ==> r.missing == missing)
    && (r.timestamp.None? ==> r.missing == missing + [path])
  }

  // ---------------------------------------------------------------------
  // Dispatch.

  /** `_is_video_file`: the lower-cased suffix is a video extension. */
  predicate IsVideoFile(path: string) {
    Lower(SuffixOf(path)) in VideoExtensions
  }

  /** Video detection ignores letter case anywhere in the path. */
  lemma VideoDetectionIgnoresCase(a: string, b: string)
    requires Lower(a) == Lower(b)
    ensures IsVideoFile(a) <==> IsVideoFile(b)
  {
    LowerSuffixCaseBlind(a, b);
  }

  // ---------------------------------------------------------------------
  // Images.

  predicate IsTimestampEntry(e: ExifEntry) {
    e.tag in DateTagNames && DateTagNames[e.tag] in TimestampTags
  }

  /** The entries consulted are exactly those with the three date/time ids. */
  lemma TimestampEntryIds(e: ExifEntry)
    ensures IsTimestampEntry(e) <==> e.tag in {DateTimeOriginalTag, DateTimeDigitizedTag, DateTimeTag}
  {
  }

  /** `_parse_exif_datetime`: the parse, or `None` with the file recorded. */
  function ParseExifDateTime(text: string, path: string, missing: seq<string>): (r: Lookup)
    ensures RecordsFailure(path, missing, r)
    ensures forall dt :: r.timestamp == Some(dt) <==> MatchesFormat(':', text, dt) && Valid(dt)
  {
    StrptimeMatchesAll(':', text);
    match Strptime(':', text)
    case Some(dt) => Lookup(Some(dt), missing)
    case None => Lookup(None, missing + [path])
  }

  lemma StrptimeMatchesAll(sep: char, s: string)
    requires IsDateSeparator(sep)
    ensures forall dt :: Strptime(sep, s) == Some(dt) <==> MatchesFormat(sep, s, dt) && Valid(dt)
  {
    forall dt {
      StrptimeMatches(sep, s, dt);
    }
  }

  /** The timestamp an entry's value yields: the parse of text, nothing for
      any other object. */
  function EntryTimestamp(e: ExifEntry): Option<DateTime> {
    match e.value
    case TextValue(s) => Strptime(':', s)
    case OtherValue => None
  }

  /** The image branch of `extract_timestamp`: the first entry, in the
      order the library yields them, whose tag is a timestamp tag decides
      the result; when its value does not parse, no later entry is tried. */
  function ImageTimestamp(path: string, image: ImageExif, missing: seq<string>): (r: Lookup)
    ensures RecordsFailure(path, missing, r)
    ensures r.timestamp.Some? ==> Valid(r.timestamp.value)
    ensures r.timestamp.Some? ==>
              image.Exif? && exists k :: IsFirst(image.entries, IsTimestampEntry, k)
                                          && EntryTimestamp(image.entries[k]) == r.timestamp
  {
    match image
    case Unreadable => Lookup(None, missing + [path])
    case Exif(entries) =>
      if entries == [] then Lookup(None, missing + [path])
      else
        match FirstIndex(entries, IsTimestampEntry)
        case None => Lookup(None, missing + [path])
        case Some(k) =>
          assert IsFirst(entries, IsTimestampEntry, k);
          match entries[k].value
          case TextValue(s) => ParseExifDateTime(s, path, missing)
          case OtherValue => Lookup(None, missing + [path])
  }

  /** The first timestamp-tagged entry decides the image result, whatever
      follows it. */
  lemma ImageFirstTaggedEntryDecides(path: string, entries: seq<ExifEntry>, k: nat,
                                     later: seq<ExifEntry>, missing: seq<string>)
    requires IsFirst(entries, IsTimestampEntry, k)
    ensures ImageTimestamp(path, Exif(entries), missing).timestamp == EntryTimestamp(entries[k])
    ensures ImageTimestamp(path, Exif(entries[..k + 1] + later), missing)
         == ImageTimestamp(path, Exif(entries), missing)
  {
    FirstIndexUnique(entries, IsTimestampEntry, k);
    FirstIndexPrefix(entries, IsTimestampEntry, k, later);
    assert (entries[..k + 1] + later)[k] == entries[k];
  }

  // ---------------------------------------------------------------------
  // The corrected image branch: timestamp tags in order of preference.

  /** The first entry carrying the tag id `tag`, if any. */
  function EntryFor(entries: seq<ExifEntry>, tag: nat): Option<ExifEntry> {
    match FirstIndex(entries, (e: ExifEntry) => e.tag == tag)
    case Some(k) => Some(entries[k])
    case None => None
  }

  /** The tag ids of `TIMESTAMP_TAGS`, most preferred first. */
  const RankedTags: seq<nat> := [DateTimeOriginalTag, DateTimeDigitizedTag, DateTimeTag]

  /** The timestamp the tag of a rank yields: the parse of its entry, or
      nothing when the entry is absent or does not parse. */
  function RankTimestamp(entries: seq<ExifEntry>, tag: nat): Option<DateTime> {
    match EntryFor(entries, tag)
    case Some(e) => EntryTimestamp(e)
    case None => None
  }

  /** What each tag of `RankedTags` yields, most preferred first. */
  function RankValues(entries: seq<ExifEntry>): seq<Option<DateTime>> {
    [RankTimestamp(entries, RankedTags[0]), RankTimestamp(entries, RankedTags[1]),
     RankTimestamp(entries, RankedTags[2])]
  }

  lemma RankValuesAt(entries: seq<ExifEntry>)
    ensures |RankValues(entries)| == |RankedTags|
    ensures forall k | 0 <= k < |RankedTags| :: RankValues(entries)[k] == RankTimestamp(entries, RankedTags[k])
  {
    var values := RankValues(entries);
    forall k | 0 <= k < |RankedTags| ensures values[k] == RankTimestamp(entries, RankedTags[k]) {
      assert k == 0 || k == 1 || k == 2;
    }
  }

  /** The image branch the "order of preference" comments describe: the
      timestamp of the most preferred tag whose value parses. */
  function ImageTimestampRanked(path: string, image: ImageExif, missing: seq<string>): (r: Lookup)
    ensures RecordsFailure(path, missing, r)
    ensures r.timestamp.Some? ==> Valid(r.timestamp.value)
    ensures image.Exif? ==>
              (r.timestamp.None? <==>
               forall k | 0 <= k < |RankedTags| :: RankTimestamp(image.entries, RankedTags[k]).None?)
  {
    match image
    case Unreadable => Lookup(None, missing + [path])
    case Exif(entries) =>
      RankValuesAt(entries);
      match FirstSome(RankValues(entries))
      case None => Lookup(None, missing + [path])
      case Some(dt) => Lookup(Some(dt), missing)
  }

  /** Entries listed with the generic date/time before the original capture
      time: the code as written returns the generic one, the ranked version
      returns the capture time. */
  lemma PreferenceOrderCounterexample(path: string, a: string, b: string)
    requires a == "2020:01:01 00:00:00" && b == "2024:05:01 12:00:00"
    ensures var entries := [ExifEntry(DateTimeTag, TextValue(a)), ExifEntry(DateTimeOriginalTag, TextValue(b))];
            && ImageTimestamp(path, Exif(entries), []).timestamp == Some(DateTime(2020, 1, 1, 0, 0, 0))
            && ImageTimestampRanked(path, Exif(entries), []).timestamp == Some(DateTime(2024, 5, 1, 12, 0, 0))
  {
    var entries := [ExifEntry(DateTimeTag, TextValue(a)), ExifEntry(DateTimeOriginalTag, TextValue(b))];
    NewYearText(a);
    ExifTextExample(b);
    GenericBeforeOriginal(path, entries, DateTime(2020, 1, 1, 0, 0, 0), DateTime(2024, 5, 1, 12, 0, 0));
  }

  /** With a parsable generic date/time listed before a parsable capture
      time, the code as written takes the first and the ranked branch the
      second. */
  lemma GenericBeforeOriginal(path: string, entries: seq<ExifEntry>, da: DateTime, db: DateTime)
    requires |entries| == 2
    requires entries[0].tag == DateTimeTag && EntryTimestamp(entries[0]) == Some(da)
    requires entries[1].tag == DateTimeOriginalTag && EntryTimestamp(entries[1]) == Some(db)
    ensures ImageTimestamp(path, Exif(entries), []) == Lookup(Some(da), [])
    ensures ImageTimestampRanked(path, Exif(entries), []) == Lookup(Some(db), [])
  {
    FirstTaggedAt0(path, entries);
    forall j | 0 <= j < 1 ensures entries[j].tag != DateTimeOriginalTag {
      assert j == 0;
    }
    RankOfEntry(entries, DateTimeOriginalTag, 1);
    RankedAt(path, entries, [], 0);
  }

  /** An image whose first entry carries a timestamp tag takes its value. */
  lemma FirstTaggedAt0(path: string, entries: seq<ExifEntry>)
    requires entries != [] && IsTimestampEntry(entries[0])
    ensures ImageTimestamp(path, Exif(entries), []).timestamp == EntryTimestamp(entries[0])
    ensures ImageTimestamp(path, Exif(entries), []).timestamp.None? ==>
              ImageTimestamp(path, Exif(entries), []) == Lookup(None, [path])
  {
    assert IsFirst(entries, IsTimestampEntry, 0);
    ImageFirstTaggedEntryDecides(path, entries, 0, [], []);
  }

  /** A value that does not parse ends the search in the code as written,
      while the ranked version goes on to the next tag. */
  lemma UnparsedValueCounterexample(path: string, b: string)
    requires b == "2024:05:01 12:00:00"
    ensures var entries := [ExifEntry(DateTimeOriginalTag, OtherValue), ExifEntry(DateTimeTag, TextValue(b))];
            && ImageTimestamp(path, Exif(entries), []) == Lookup(None, [path])
            && ImageTimestampRanked(path, Exif(entries), []) == Lookup(Some(DateTime(2024, 5, 1, 12, 0, 0)), [])
  {
    var entries := [ExifEntry(DateTimeOriginalTag, OtherValue), ExifEntry(DateTimeTag, TextValue(b))];
    ExifTextExample(b);
    UnparsedOriginalSkipped(path, entries, DateTime(2024, 5, 1, 12, 0, 0));
  }

  /** With a non-text capture time listed before a parsable generic
      date/time, the code as written gives up and the ranked branch takes
      the generic one. */
  lemma UnparsedOriginalSkipped(path: string, entries: seq<ExifEntry>, db: DateTime)
    requires |entries| == 2 && entries[0] == ExifEntry(DateTimeOriginalTag, OtherValue)
    requires entries[1].tag == DateTimeTag && EntryTimestamp(entries[1]) == Some(db)
    ensures ImageTimestamp(path, Exif(entries), []) == Lookup(None, [path])
    ensures ImageTimestampRanked(path, Exif(entries), []) == Lookup(Some(db), [])
  {
    FirstTaggedAt0(path, entries);
    RankOfEntry(entries, DateTimeOriginalTag, 0);
    forall j | 0 <= j < |entries| ensures entries[j].tag != DateTimeDigitizedTag {
      assert j == 0 || j == 1;
    }
    RankAbsent(entries, DateTimeDigitizedTag);
    forall j | 0 <= j < 1 ensures entries[j].tag != DateTimeTag {
      assert j == 0;
    }
    RankOfEntry(entries, DateTimeTag, 1);
    forall j | 0 <= j < 2 ensures RankTimestamp(entries, RankedTags[j]).None? {
      assert j == 0 || j == 1;
    }
    RankedAt(path, entries, [], 2);
  }

  /** A tag's rank is decided by its first entry. */
  lemma RankOfEntry(entries: seq<ExifEntry>, tag: nat, k: nat)
    requires k < |entries| && entries[k].tag == tag
    requires forall j | 0 <= j < k :: entries[j].tag != tag
    ensures RankTimestamp(entries, tag) == EntryTimestamp(entries[k])
  {
    var p := (e: ExifEntry) => e.tag == tag;
    assert IsFirst(entries, p, k);
    FirstIndexUnique(entries, p, k);
  }

  /** A tag with no entry has no timestamp. */
  lemma RankAbsent(entries: seq<ExifEntry>, tag: nat)
    requires forall j | 0 <= j < |entries| :: entries[j].tag != tag
    ensures RankTimestamp(entries, tag) == None
  {
    var p := (e: ExifEntry) => e.tag == tag;
    assert FirstIndex(entries, p).None?;
  }

  /** The ranked branch returns the timestamp of the first rank that has
      one. */
  lemma RankedAt(path: string, entries: seq<ExifEntry>, missing: seq<string>, k: nat)
    requires k < |RankedTags| && RankTimestamp(entries, RankedTags[k]).Some?
    requires forall j | 0 <= j < k :: RankTimestamp(entries, RankedTags[j]).None?
    ensures ImageTimestampRanked(path, Exif(entries), missing)
         == Lookup(RankTimestamp(entries, RankedTags[k]), missing)
  {
    RankValuesAt(entries);
    FirstSomeAt(RankValues(entries), k);
  }

  lemma NewYearText(s: string)
    requires s == "2020:01:01 00:00:00"
    ensures Strptime(':', s) == Some(DateTime(2020, 1, 1, 0, 0, 0))
  {
    var f := Fields("2020", "01", "01", " ", "00", "00", "00");
    NewYearPieces();
    assert Compose(':', f) == s;
    DecomposeComplete(':', f);
  }

  lemma NewYearPieces()
    ensures FieldsMatch(Fields("2020", "01", "01", " ", "00", "00", "00"))
    ensures FieldsValue(Fields("2020", "01", "01", " ", "00", "00", "00")) == DateTime(2020, 1, 1, 0, 0, 0)
  {
    PadValue(2020, 4);
    assert Pad(2020, 4) == "2020";
    Decimal2("01");
    Decimal2("00");
    assert FieldsMatch(Fields("2020", "01", "01", " ", "00", "00", "00"));
  }

  // ---------------------------------------------------------------------
  // Videos: the plain-text fallback.

  /** `\d{4}-\d{2}-\d{2}[T ]\d{2}:\d{2}:\d{2}`. */
  predicate IsIsoText(t: string) {
    |t| == 19 && (t[10] == 'T' || t[10] == ' ') && IsFixedWidth('-', t[10 := ' '])
  }

  /** The pattern matches `line` starting at index `i`. */
  predicate IsoAt(line: string, i: int) {
    0 <= i && i + 19 <= |line| && IsIsoText(line[i..i + 19])
  }

  /** `re.search` for the pattern from index `from` on: the leftmost start
      of a match. */
  function IsoSearch(line: string, from: nat): (r: Option<nat>)
    ensures r.Some? ==> from <= r.value && IsoAt(line, r.value)
    ensures r.Some? ==> forall j | from <= j < r.value :: !IsoAt(line, j)
    ensures r.None? ==> forall j | from <= j :: !IsoAt(line, j)
    decreases |line| - from
  {
    if from + 19 > |line| then None
    else if IsoAt(line, from) then Some(from)
    else IsoSearch(line, from + 1)
  }

  /** The date and time a match spells, whichever separator it uses. */
  function IsoValue(t: string): DateTime
    requires IsIsoText(t)
  {
    FixedValue(FixedFields(t[10 := ' ']))
  }

  /** `group(1).replace('T', ' ')` then `strptime(..., '%Y-%m-%d %H:%M:%S')`
      on a match: the date and time it spells when that is valid, and the
      `T` and blank separators give the same result. */
  lemma IsoParse(t: string)
    requires IsIsoText(t)
    ensures Strptime('-', ReplaceChar(t, 'T', ' '))
         == if Valid(IsoValue(t)) then Some(IsoValue(t)) else None
    ensures IsIsoText(t[10 := 'T']) && IsIsoText(t[10 := ' '])
    ensures IsoValue(t[10 := 'T']) == IsoValue(t[10 := ' ']) == IsoValue(t)
  {
    var u := t[10 := ' '];
    assert forall i | 0 <= i < 19 && i != 10 :: IsDigit(u[i]) || u[i] == '-' || u[i] == ':';
    assert ReplaceChar(t, 'T', ' ') == u;
    FixedWidthStrptime('-', u);
    assert t[10 := 'T'][10 := ' '] == u;
    assert t[10 := ' '][10 := ' '] == u;
  }

  /** The lower-cased line contains one of the keywords. */
  predicate HasKeyword(line: string) {
    exists k | 0 <= k < |LineKeywords| :: Contains(Lower(line), LineKeywords[k])
  }

  /** `i` is where `re.search` finds the pattern in `line`. */
  predicate FirstIsoAt(line: string, i: int) {
    IsoAt(line, i) && forall j | 0 <= j < i :: !IsoAt(line, j)
  }

  /** One pass of the line loop: a candidate line yields the date and time
      of its first match when that parses; any other line yields nothing
      and the loop goes on. */
  function LineTimestamp(line: string): (r: Option<DateTime>)
    ensures r.Some? ==> HasKeyword(line) && Valid(r.value)
  {
    if !HasKeyword(line) then None
    else
      match IsoSearch(line, 0)
      case None => None
      case Some(i) => Strptime('-', ReplaceChar(line[i..i + 19], 'T', ' '))
  }

  /** A line whose first match starts at `i` yields what that match spells,
      provided the line is a candidate and the match is a valid date and
      time; later matches in the line are never tried. */
  lemma LineTimestampFirstMatch(line: string, i: nat)
    requires FirstIsoAt(line, i)
    ensures LineTimestamp(line)
         == if HasKeyword(line) && Valid(IsoValue(line[i..i + 19]))
            then Some(IsoValue(line[i..i + 19])) else None
  {
    assert IsoSearch(line, 0) == Some(i);
    IsoParse(line[i..i + 19]);
  }

  /** A line without a match yields nothing. */
  lemma LineTimestampNoMatch(line: string)
    requires forall j :: !IsoAt(line, j)
    ensures LineTimestamp(line).None?
  {
  }

  /** A window starting before `i` that covers index `i + 10` cannot match
      when that index holds the separator of a match: every later position
      of the pattern wants a digit or a colon. */
  lemma NoMatchOverSeparator(line: string, i: nat, j: nat)
    requires j < i && i + 10 < j + 19 && i + 10 < |line|
    requires line[i + 10] == 'T' || line[i + 10] == ' '
    ensures !IsoAt(line, j)
  {
    if j + 19 <= |line| {
      var t := line[j..j + 19];
      var o := i + 10 - j;
      assert 11 <= o < 19 && t[o] == line[i + 10];
      assert t[10 := ' '][o] == t[o];
    }
  }

  predicate NoDigits(w: string) {
    forall k | 0 <= k < |w| :: !IsDigit(w[k])
  }

  /** A word without digits that occurs in `s` does not cover a position
      whose two neighbours are digits. */
  lemma OccurrenceAvoids(s: string, w: string, k: int, p: int)
    requires OccursAt(s, w, k) && NoDigits(w) && |w| >= 2
    requires 0 < p < |s| - 1 && IsDigit(s[p - 1]) && IsDigit(s[p + 1])
    ensures !(k <= p < k + |w|)
  {
  }

  /** Changing a character between two digits does not change which of the
      digit-free words a string contains. */
  lemma ContainsAroundDigits(s: string, s': string, w: string, p: int)
    requires |s'| == |s| && 0 < p < |s| - 1
    requires forall q | 0 <= q < |s| && q != p :: s'[q] == s[q]
    requires IsDigit(s[p - 1]) && IsDigit(s[p + 1])
    requires NoDigits(w) && |w| >= 2
    ensures Contains(s, w) <==> Contains(s', w)
  {
    if Contains(s, w) {
      var k :| 0 <= k <= |s| - |w| && OccursAt(s, w, k);
      OccurrenceAvoids(s, w, k, p);
      assert s'[k..k + |w|] == s[k..k + |w|];
      assert OccursAt(s', w, k);
    }
    if Contains(s', w) {
      var k :| 0 <= k <= |s'| - |w| && OccursAt(s', w, k);
      OccurrenceAvoids(s', w, k, p);
      assert s'[k..k + |w|] == s[k..k + |w|];
      assert OccursAt(s, w, k);
    }
  }

  /** Replacing the separator of the first match by `T` or a blank keeps
      it the first match. */
  lemma FirstMatchAfterSeparator(line: string, i: nat, c: char)
    requires FirstIsoAt(line, i) && (c == 'T' || c == ' ')
    ensures FirstIsoAt(line[i + 10 := c], i)
  {
    var line' := line[i + 10 := c];
    var t := line[i..i + 19];
    IsoParse(t);
    assert line'[i..i + 19] == t[10 := c];
    forall j | 0 <= j < i
      ensures !IsoAt(line', j)
    {
      if j + 19 <= i + 10 {
        assert line'[j..j + 19] == line[j..j + 19];
        assert !IsoAt(line, j);
      } else {
        NoMatchOverSeparator(line', i, j);
      }
    }
  }

  /** The separator of a match sits between two digits, so no keyword
      occurrence can overlap it. */
  lemma KeywordsAfterSeparator(line: string, i: nat, c: char)
    requires i + 19 <= |line| && IsoAt(line, i)
    ensures HasKeyword(line[i + 10 := c]) <==> HasKeyword(line)
  {
    var line' := line[i + 10 := c];
    var p := i + 10;
    var t := line[i..i + 19];
    assert t[9] == line[p - 1] && t[11] == line[p + 1];
    assert t[10 := ' '][9] == t[9] && t[10 := ' '][11] == t[11];
    assert IsDigit(Lower(line)[p - 1]) && IsDigit(Lower(line)[p + 1]);
    assert Lower(line') == Lower(line)[p := LowerChar(c)];
    forall k | 0 <= k < |LineKeywords|
      ensures Contains(Lower(line), LineKeywords[k]) <==> Contains(Lower(line'), LineKeywords[k])
    {
      var w := LineKeywords[k];
      assert NoDigits(w) && |w| >= 2;
      assert |Lower(line')| == |Lower(line)|;
      assert forall q | 0 <= q < |Lower(line)| && q != p :: Lower(line')[q] == Lower(line)[q];
      ContainsAroundDigits(Lower(line), Lower(line'), w, p);
    }
  }

  /** Writing the first match with `T` or with a blank between date and
      time gives the line the same result. */
  lemma LineSeparatorBlind(line: string, i: nat, c: char)
    requires FirstIsoAt(line, i) && (c == 'T' || c == ' ')
    ensures LineTimestamp(line[i + 10 := c]) == LineTimestamp(line)
  {
    var line' := line[i + 10 := c];
    FirstMatchAfterSeparator(line, i, c);
    KeywordsAfterSeparator(line, i, c);
    IsoParse(line[i..i + 19]);
    assert line'[i..i + 19] == line[i..i + 19][10 := c];
    LineTimestampFirstMatch(line, i);
    LineTimestampFirstMatch(line', i);
  }

  /** The line loop stops at a line that yields a timestamp. */
  predicate YieldsTimestamp(line: string) {
    LineTimestamp(line).Some?
  }

  /** The line loop: the result of the first line that yields one. */
  function ScanLines(lines: seq<string>): (r: Option<DateTime>)
    ensures r.Some? ==> Valid(r.value)
    ensures r.None? ==> forall k | 0 <= k < |lines| :: !YieldsTimestamp(lines[k])
    ensures forall k | IsFirst(lines, YieldsTimestamp, k) :: r == LineTimestamp(lines[k])
  {
    match FirstIndex(lines, YieldsTimestamp)
    case None => None
    case Some(k) =>
      assert IsFirst(lines, YieldsTimestamp, k);
      LineTimestamp(lines[k])
  }

  // ---------------------------------------------------------------------
  // Videos.

  /** The field loop: the value of the first field name the metadata has,
      falsy or not. */
  function FieldValue(fields: map<string, Option<DateTime>>): (r: Option<DateTime>)
    ensures forall k | IsFirst(VideoFieldNames, (n: string) => n in fields, k) ::
              r == fields[VideoFieldNames[k]]
    ensures (forall k | 0 <= k < |VideoFieldNames| :: VideoFieldNames[k] !in fields) ==> r.None?
  {
    match FirstIndex(VideoFieldNames, (n: string) => n in fields)
    case Some(k) => fields[VideoFieldNames[k]]
    case None => None
  }

  /** `_extract_video_timestamp`. `available` says whether the metadata
      library could be imported. */
  function VideoTimestamp(path: string, available: bool, video: VideoMetadata,
                          missing: seq<string>): (r: Lookup)
    ensures RecordsFailure(path, missing, r)
    ensures !available ==> r.timestamp.None?
    ensures available && video.Metadata? && FieldValue(video.fields).Some? ==>
              r.timestamp == FieldValue(video.fields)
    ensures available && video.Metadata? && FieldValue(video.fields).None? ==>
              r.timestamp == ScanLines(video.lines)
    ensures !video.Metadata? ==> r.timestamp.None?
  {
    if !available then Lookup(None, missing + [path])
    else
      match video
      case Metadata(fields, lines) =>
        var found := if FieldValue(fields).Some? then FieldValue(fields) else ScanLines(lines);
        if found.Some? then Lookup(found, missing) else Lookup(None, missing + [path])
      case _ => Lookup(None, missing + [path])
  }

  // ---------------------------------------------------------------------
  // `extract_timestamp`.

  /** `extract_timestamp`: videos, told apart by suffix alone, take the video
      branch; every other file takes the EXIF branch. */
  function ExtractTimestamp(path: string, available: bool, source: MediaSource,
                            missing: seq<string>): (r: Lookup)
    ensures RecordsFailure(path, missing, r)
    ensures r.timestamp.None? <==> r.missing == missing + [path]
    ensures !IsVideoFile(path) && r.timestamp.Some? ==> Valid(r.timestamp.value)
    ensures IsVideoFile(path) ==> r == VideoTimestamp(path, available, source.video, missing)
    ensures !IsVideoFile(path) ==> r == ImageTimestamp(path, source.image, missing)
  {
    if IsVideoFile(path) then VideoTimestamp(path, available, source.video, missing)
    else ImageTimestamp(path, source.image, missing)
  }

  /** `extract_timestamp` with the image branch taking the timestamp tags
      in their order of preference. */
  function ExtractTimestampRanked(path: string, available: bool, source: MediaSource,
                                  missing: seq<string>): (r: Lookup)
    ensures RecordsFailure(path, missing, r)
    ensures r.timestamp.None? <==> r.missing == missing + [path]
    ensures !IsVideoFile(path) && r.timestamp.Some? ==> Valid(r.timestamp.value)
    ensures IsVideoFile(path) ==> r == ExtractTimestamp(path, available, source, missing)
    ensures !IsVideoFile(path) ==> r == ImageTimestampRanked(path, source.image, missing)
  {
    if IsVideoFile(path) then VideoTimestamp(path, available, source.video, missing)
    else ImageTimestampRanked(path, source.image, missing)
  }

  /** A video never looks at EXIF, and an image never looks at video
      metadata or at whether the video library is there. */
  lemma DispatchBySuffix(path: string, available: bool, available': bool,
                         image: ImageExif, image': ImageExif,
                         video: VideoMetadata, video': VideoMetadata, missing: seq<string>)
    ensures IsVideoFile(path) ==>
              (ExtractTimestamp(path, available, MediaSource(image, video), missing)
               == ExtractTimestamp(path, available, MediaSource(image', video), missing))
    ensures !IsVideoFile(path) ==>
              (ExtractTimestamp(path, available, MediaSource(image, video), missing)
               == ExtractTimestamp(path, available', MediaSource(image, video'), missing))
  {
  }

  /** Without the video metadata library every video is recorded as missing. */
  lemma NoVideoLibrary(path: string, source: MediaSource, missing: seq<string>)
    requires IsVideoFile(path)
    ensures ExtractTimestamp(path, false, source, missing) == Lookup(None, missing + [path])
  {
  }
}
