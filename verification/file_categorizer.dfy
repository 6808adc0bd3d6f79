/** `FileCategory` and the extension tables of `FileCategorizer`
    (src/file_categorizer.py), and how they sit next to the tables of the
    timestamp extractor and the HEIC converter. */
module FileCategorizer {

  import opened Results
  import opened Text
  import opened Paths
  import ExifHandler
  import HeicConverter

  /** The closed set of categories. */
  datatype Category = Photo | Video | Screenshot | Generated | Unknown | Sidecar

  /** Every category, in declaration order. */
  const AllCategories: seq<Category> := [Photo, Video, Screenshot, Generated, Unknown, Sidecar]

  /** The enumeration's value: the name of the category's folder. */
  function DirName(c: Category): string {
    match c
    case Photo => "photos"
    case Video => "videos"
    case Screenshot => "screenshots"
    case Generated => "generated"
    case Unknown => "unknown"
    case Sidecar => "sidecar"
  }

  /** `FileCategory(value)`: the category with that value, if any. */
  function FromDirName(name: string): (r: Option<Category>)
    ensures r.Some? ==> DirName(r.value) == name
  {
    if name == "photos" then Some(Photo)
    else if name == "videos" then Some(Video)
    else if name == "screenshots" then Some(Screenshot)
    else if name == "generated" then Some(Generated)
    else if name == "unknown" then Some(Unknown)
    else if name == "sidecar" then Some(Sidecar)
    else None
  }

  /** Looking a category up by its value gives it back, so no two
      categories share a folder. */
  lemma DirNameRoundTrip(c: Category)
    ensures FromDirName(DirName(c)) == Some(c)
  {
  }

  /** A value names a category exactly when some category has it. */
  lemma FromDirNameComplete(name: string)
    ensures FromDirName(name).None? <==> forall c: Category :: DirName(c) != name
  {
    if FromDirName(name).None? {
      forall c: Category ensures DirName(c) != name {
        DirNameRoundTrip(c);
      }
    }
  }

  lemma DirNameInjective(a: Category, b: Category)
    ensures DirName(a) == DirName(b) <==> a == b
  {
    DirNameRoundTrip(a);
    DirNameRoundTrip(b);
  }

  /** Six categories, each listed once, with six distinct folder names. */
  lemma SixCategories()
    ensures |AllCategories| == 6
    ensures forall c: Category :: c in AllCategories
    ensures forall i, j | 0 <= i < j < |AllCategories| ::
              DirName(AllCategories[i]) != DirName(AllCategories[j])
  {
    forall c: Category ensures c in AllCategories {
      match c
      case Photo => assert AllCategories[0] == c;
      case Video => assert AllCategories[1] == c;
      case Screenshot => assert AllCategories[2] == c;
      case Generated => assert AllCategories[3] == c;
      case Unknown => assert AllCategories[4] == c;
      case Sidecar => assert AllCategories[5] == c;
    }
  }

  // ---------------------------------------------------------------------
  // Extension tables.

  const PhotoExtensions: set<string> :=
    {".jpg", ".jpeg", ".png", ".gif", ".heic", ".heif",
     ".tiff", ".tif", ".bmp", ".webp", ".dng", ".raw",
     ".cr2", ".nef", ".arw", ".orf", ".rw2"}

  const VideoExtensions: set<string> :=
    {".mov", ".mp4", ".m4v", ".avi", ".mkv", ".wmv",
     ".flv", ".webm", ".3gp", ".mpg", ".mpeg"}

  const ScreenshotExtensions: set<string> := {".png"}

  const SidecarExtensions: set<string> := {".aae"}

  /** `{ext.lower() for ext in s}`. */
  function LowerSet(s: set<string>): set<string> {
    set e | e in s :: Lower(e)
  }

  /** Lower-casing a set whose members are already lower case gives the
      set back. */
  lemma LowerSetOfLower(s: set<string>)
    requires forall e | e in s :: IsLower(e)
    ensures LowerSet(s) == s
  {
    forall e | e in s ensures Lower(e) == e {
      LowerOfLower(e);
    }
    assert forall e | e in LowerSet(s) :: e in s;
  }

  /** Lower-casing a declared table changes nothing: each entry is already
      lower case. */
  lemma PhotoTableLowered()
    ensures LowerSet(PhotoExtensions) == PhotoExtensions
  {
    assert forall e | e in PhotoExtensions :: IsLower(e);
    LowerSetOfLower(PhotoExtensions);
  }

  lemma VideoTableLowered()
    ensures LowerSet(VideoExtensions) == VideoExtensions
  {
    assert forall e | e in VideoExtensions :: IsLower(e);
    LowerSetOfLower(VideoExtensions);
  }

  lemma ScreenshotTableLowered()
    ensures LowerSet(ScreenshotExtensions) == ScreenshotExtensions
  {
    assert forall e | e in ScreenshotExtensions :: IsLower(e);
    LowerSetOfLower(ScreenshotExtensions);
  }

  lemma SidecarTableLowered()
    ensures LowerSet(SidecarExtensions) == SidecarExtensions
  {
    assert forall e | e in SidecarExtensions :: IsLower(e);
    LowerSetOfLower(SidecarExtensions);
  }

  /** Screenshots are a kind of photo. */
  lemma ScreenshotsArePhotos()
    ensures ScreenshotExtensions <= PhotoExtensions
  {
  }

  /** No extension is both a photo and a video, a photo and a sidecar, or a
      video and a sidecar. */
  lemma TablesDisjoint()
    ensures PhotoExtensions !! VideoExtensions
    ensures PhotoExtensions !! SidecarExtensions
    ensures VideoExtensions !! SidecarExtensions
  {
  }

  /** The categorizer and the timestamp extractor agree on what a video is. */
  lemma VideoTablesAgree()
    ensures VideoExtensions == ExifHandler.VideoExtensions
  {
  }

  /** Every file the converter accepts is a photo by its suffix. */
  lemma HeicIsPhoto(path: string)
    requires HeicConverter.IsHeicFile(path)
    ensures Lower(SuffixOf(path)) in PhotoExtensions
    ensures Lower(SuffixOf(path)) !in VideoExtensions
  {
  }

  // ---------------------------------------------------------------------
  // A fresh categorizer.

  /** The per-category buckets and the lower-cased copies of the tables. */
  datatype Categorizer = Categorizer(buckets: map<Category, seq<string>>,
                                     photoExts: set<string>,
                                     videoExts: set<string>,
                                     screenshotExts: set<string>,
                                     sidecarExts: set<string>)

  /** One empty bucket for every category. */
  function FreshBuckets(): (m: map<Category, seq<string>>)
    ensures forall c: Category :: c in m && m[c] == []
  {
    SixCategories();
    map c | c in AllCategories :: []
  }

  /** `FileCategorizer()`: fresh buckets, and the tables, which
      lower-casing leaves as declared. */
  function NewCategorizer(): (r: Categorizer)
    ensures r.buckets == FreshBuckets()
    ensures r.photoExts == PhotoExtensions && r.videoExts == VideoExtensions
    ensures r.screenshotExts == ScreenshotExtensions && r.sidecarExts == SidecarExtensions
  {
    PhotoTableLowered();
    VideoTableLowered();
    ScreenshotTableLowered();
    SidecarTableLowered();
    Categorizer(FreshBuckets(),
                LowerSet(PhotoExtensions), LowerSet(VideoExtensions),
                LowerSet(ScreenshotExtensions), LowerSet(SidecarExtensions))
  }

  /** Fresh buckets: one per category, six in all. */
  lemma FreshBucketsCount()
    ensures |FreshBuckets()| == 6
  {
    var m := FreshBuckets();
    assert m.Keys == {Photo, Video, Screenshot, Generated, Unknown, Sidecar};
  }
}
