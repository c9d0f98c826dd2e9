/**
 * The metadata extractor: for every `.jpg`, `.jpeg` or `.png` file of the walk
 * whose `.txt` sidecar does not exist yet, it reads the generation text (the
 * EXIF UserComment of a JPEG, the `parameters` text chunk of a PNG) and writes
 * it to the sidecar when it is non-empty and contains "Seed".
 */
module ExtractPrompt {
  import opened Wrappers
  import opened Strings
  import opened Utf16
  import opened PosixPath
  import opened Seqs

  // ---------------------------------------------------------------------------
  // File names

  /** The filter of the walk: the lower-cased name ends with `.jpg`, `.jpeg` or `.png`. */
  predicate IsImageName(name: string) {
    var lower := Lower(name);
    EndsWith(lower, ".jpg") || EndsWith(lower, ".jpeg") || EndsWith(lower, ".png")
  }

  /** The test that sends a file to the JPEG extractor. */
  predicate IsJpegName(name: string) {
    EndsWith(Lower(name), ".jpg") || EndsWith(Lower(name), ".jpeg")
  }

  /** The test that sends a file to the PNG extractor. */
  predicate IsPngName(name: string) {
    EndsWith(Lower(name), ".png")
  }

  /** The last character of a text that ends with a non-empty suffix is the suffix's last one. */
  lemma LastOfSuffix(s: string, suffix: string)
    requires suffix != [] && EndsWith(s, suffix)
    ensures s[|s| - 1] == suffix[|suffix| - 1]
  {
    assert s[|s| - |suffix|..][|suffix| - 1] == s[|s| - 1];
  }

  /** The character `d` places from the end of a text ending with `suffix`. */
  lemma FromEnd(s: string, suffix: string, d: nat)
    requires 0 < d <= |suffix| && EndsWith(s, suffix)
    ensures s[|s| - d] == suffix[|suffix| - d]
  {
    assert s[|s| - |suffix|..][|suffix| - d] == s[|s| - d];
  }

  /** No text ends both with `.png` and with `.jpg` or `.jpeg`. */
  lemma SuffixesExclusive(s: string)
    ensures !(EndsWith(s, ".png") && (EndsWith(s, ".jpg") || EndsWith(s, ".jpeg")))
  {
    if EndsWith(s, ".png") {
      FromEnd(s, ".png", 2);
      FromEnd(s, ".png", 3);
    }
    if EndsWith(s, ".jpg") {
      FromEnd(s, ".jpg", 3);
    }
    if EndsWith(s, ".jpeg") {
      FromEnd(s, ".jpeg", 2);
    }
  }

  /** The extractor a file goes to. */
  datatype Extractor = JpegExtractor | PngExtractor | NoExtractor

  /**
   * The `if`/`elif` dispatch: `.jpg` and `.jpeg` names go to the JPEG extractor,
   * `.png` names to the PNG one, and exactly the names the walk's filter
   * accepts go to one of the two.
   */
  function ExtractorFor(name: string): (e: Extractor)
    ensures e == JpegExtractor <==> IsJpegName(name)
    ensures e == PngExtractor <==> IsPngName(name)
    ensures e != NoExtractor <==> IsImageName(name)
  {
    SuffixesExclusive(Lower(name));
    if IsJpegName(name) then JpegExtractor
    else if IsPngName(name) then PngExtractor
    else NoExtractor
  }

  /** Upper and lower case do not matter to the filter. */
  lemma ImageNameIgnoresCase(name: string)
    ensures IsImageName(name) <==> IsImageName(Lower(name))
  {
    LowerOfLowerCase(Lower(name));
  }

  /** An upper-case JPEG name is accepted and goes to the JPEG extractor; a `.txt` name is not. */
  lemma ImageNameExamples()
    ensures IsImageName("IMG.JPG") && ExtractorFor("IMG.JPG") == JpegExtractor
    ensures !IsImageName("notes.txt")
  {
    assert Lower("IMG.JPG") == "img.jpg";
    NotImageEndingT("notes.txt");
  }

  /** Every image suffix ends in `g`, so a name that ends in `t` (like every sidecar) is no image. */
  lemma NotImageEndingT(name: string)
    requires name != [] && name[|name| - 1] == 't'
    ensures !IsImageName(name)
  {
    var lower := Lower(name);
    assert lower[|lower| - 1] == 't';
    if EndsWith(lower, ".jpg") {
      LastOfSuffix(lower, ".jpg");
    }
    if EndsWith(lower, ".jpeg") {
      LastOfSuffix(lower, ".jpeg");
    }
    if EndsWith(lower, ".png") {
      LastOfSuffix(lower, ".png");
    }
  }

  // ---------------------------------------------------------------------------
  // The sidecar path

  /**
   * `os.path.join(root, os.path.splitext(name)[0] + ".txt")`: the sidecar ends
   * in `.txt`, so it is never taken for an image, and for a relative name in a
   * directory without a trailing `/` it sits in that directory.
   */
  function SidecarPath(root: string, name: string): (p: string)
    ensures EndsWith(p, ".txt")
    ensures root != [] && root[|root| - 1] != '/' && (name == [] || name[0] != '/') ==>
      p == root + "/" + Splitext(name).0 + ".txt"
  {
    var stem := Splitext(name).0;
    TextSidecar(root, stem);
    SidecarInDirectory(root, name);
    Join(root, stem + ".txt")
  }

  /** Joining a directory with a `.txt` name gives a `.txt` path. */
  lemma TextSidecar(root: string, stem: string)
    ensures EndsWith(Join(root, stem + ".txt"), ".txt")
  {
    var b := stem + ".txt";
    var p := Join(root, b);
    assert p[|p| - |b|..][|stem|..] == p[|p| - 4..];
  }

  /** A sidecar ends in `t`, so it is never taken for an image. */
  lemma SidecarNotImage(root: string, name: string)
    ensures !IsImageName(SidecarPath(root, name))
  {
    var p := SidecarPath(root, name);
    LastOfSuffix(p, ".txt");
    NotImageEndingT(p);
  }

  lemma SidecarInDirectory(root: string, name: string)
    ensures root != [] && root[|root| - 1] != '/' && (name == [] || name[0] != '/') ==>
      Join(root, Splitext(name).0 + ".txt") == root + "/" + Splitext(name).0 + ".txt"
  {
    var stem := Splitext(name).0;
    var b := stem + ".txt";
    assert stem + Splitext(name).1 == name;
    if stem != [] {
      assert b[0] == stem[0] == name[0];
    }
    assert root + "/" + b == root + "/" + stem + ".txt";
  }

  /** The sidecar of `stem` plus an image extension is `stem.txt` in the same directory. */
  lemma SidecarReplacesExtension(root: string, stem: string, ext: string)
    requires IsExtension(ext)
    requires HasNonDot(stem, RFind(stem, '/') + 1, |stem|)
    ensures SidecarPath(root, stem + ext) == Join(root, stem + ".txt")
  {
    SplitextOfSuffix(stem, ext);
  }

  /** A `.` followed by neither `.` nor `/`: the part `os.path.splitext` splits off. */
  predicate IsExtension(ext: string) {
    ext != [] && ext[0] == '.' && forall k :: 0 < k < |ext| ==> ext[k] != '.' && ext[k] != '/'
  }

  lemma ImageExtensions()
    ensures IsExtension(".jpg") && IsExtension(".png")
  {
  }

  /** A JPEG and a PNG with the same stem in one directory share their sidecar. */
  lemma SharedSidecar(root: string, stem: string)
    requires HasNonDot(stem, RFind(stem, '/') + 1, |stem|)
    ensures SidecarPath(root, stem + ".jpg") == SidecarPath(root, stem + ".png") == Join(root, stem + ".txt")
  {
    ImageExtensions();
    SidecarReplacesExtension(root, stem, ".jpg");
    SidecarReplacesExtension(root, stem, ".png");
  }

  // ---------------------------------------------------------------------------
  // The JPEG extractor

  /** The EXIF tag number that the tag table names `UserComment`. */
  const UserCommentTag := 0x9286

  /** The length of the character-code header of a UserComment value. */
  const HeaderLength := 8

  /** An EXIF value: raw bytes, or anything else, given by the text `str()` makes of it. */
  datatype ExifValue = Bytes(bytes: seq<byte>) | Other(text: string)

  datatype ExifEntry = ExifEntry(tag: int, value: ExifValue)

  /**
   * The text of a UserComment value: of bytes, everything after the 8-byte
   * character-code header (nothing when the value is shorter) decoded as
   * UTF-16BE ignoring bad units; of anything else, its text; then stripped.
   */
  function UserCommentText(v: ExifValue): (r: string)
    ensures IsStripped(r)
    ensures v.Bytes? && |v.bytes| <= HeaderLength ==> r == []
    ensures v.Other? ==> r == Strip(v.text)
  {
    match v
    case Bytes(b) =>
      var body := if |b| <= HeaderLength then [] else b[HeaderLength..];
      Strip(DecodeUtf16BeIgnore(body))
    case Other(t) => Strip(t)
  }

  lemma CommentBody(header: seq<byte>, body: seq<byte>)
    requires |header| == HeaderLength
    ensures UserCommentText(Bytes(header + body)) == Strip(DecodeUtf16BeIgnore(body))
  {
    assert (header + body)[HeaderLength..] == body;
  }

  /** Whatever the header holds, the encoded stripped text comes back. */
  lemma CommentRoundTrip(header: seq<byte>, s: string)
    requires |header| == HeaderLength && IsStripped(s)
    ensures UserCommentText(Bytes(header + EncodeUtf16Be(s))) == s
  {
    CommentBody(header, EncodeUtf16Be(s));
    DecodeEncode(s);
    StripStripped(s);
  }

  /** Whitespace around the encoded text is stripped off. */
  lemma CommentTrimmed(header: seq<byte>, a: string, s: string, b: string)
    requires |header| == HeaderLength && AllSpace(a) && AllSpace(b) && IsStripped(s) && s != []
    ensures UserCommentText(Bytes(header + EncodeUtf16Be(a + s + b))) == s
  {
    CommentBody(header, EncodeUtf16Be(a + s + b));
    DecodeEncode(a + s + b);
    StripPadded(a, s, b);
  }

  /** A trailing odd byte changes nothing. */
  lemma CommentOddByte(header: seq<byte>, body: seq<byte>, x: byte)
    requires |header| == HeaderLength && |body| % 2 == 0
    ensures UserCommentText(Bytes(header + body + [x])) == UserCommentText(Bytes(header + body))
  {
    assert header + body + [x] == header + (body + [x]);
    CommentBody(header, body + [x]);
    CommentBody(header, body);
    OddByteIgnored(body, x);
  }

  /** An unpaired surrogate in the encoded units is dropped. */
  lemma CommentUnpairedSurrogate(header: seq<byte>, a: seq<unit16>, u: unit16, b: seq<unit16>)
    requires |header| == HeaderLength
    requires a == [] || !IsHighSurrogate(a[|a| - 1])
    requires IsLowSurrogate(u) || (IsHighSurrogate(u) && (b == [] || !IsLowSurrogate(b[0])))
    ensures UserCommentText(Bytes(header + UnitBytes(a + [u] + b))) == Strip(DecodeUnits(a) + DecodeUnits(b))
  {
    CommentBody(header, UnitBytes(a + [u] + b));
    UnitsOfUnitBytes(a + [u] + b);
    UnpairedSurrogateDropped(a, u, b);
  }

  /** Eight zero bytes followed by `"Seed: 42"` in UTF-16BE give `"Seed: 42"`. */
  lemma CommentExample()
    ensures UserCommentText(Bytes([0, 0, 0, 0, 0, 0, 0, 0] + EncodeUtf16Be("Seed: 42"))) == "Seed: 42"
  {
    CommentRoundTrip([0, 0, 0, 0, 0, 0, 0, 0], "Seed: 42");
  }

  /** The index of the first UserComment entry, if there is one. */
  function FirstUserComment(entries: seq<ExifEntry>): (r: Option<nat>)
    ensures r.None? <==> forall k :: 0 <= k < |entries| ==> entries[k].tag != UserCommentTag
    ensures r.Some? ==>
      (r.value < |entries| && entries[r.value].tag == UserCommentTag
       && forall k :: 0 <= k < r.value ==> entries[k].tag != UserCommentTag)
  {
    if entries == [] then None
    else if entries[0].tag == UserCommentTag then Some(0)
    else
      match FirstUserComment(entries[1..])
      case None => None
      case Some(k) => Some(k + 1)
  }

  /** `extract_jpg_metadata` on an opened image's EXIF table (`None` when it has none). */
  function JpegMetadata(exif: Option<seq<ExifEntry>>): (r: Option<string>)
    ensures r.Some? <==> exif.Some? && exists k :: 0 <= k < |exif.value| && exif.value[k].tag == UserCommentTag
    ensures r.Some? ==>
      (FirstUserComment(exif.value).Some?
       && r.value == UserCommentText(exif.value[FirstUserComment(exif.value).value].value))
  {
    if exif.None? || exif.value == [] then None
    else
      match FirstUserComment(exif.value)
      case None => None
      case Some(k) => Some(UserCommentText(exif.value[k].value))
  }

  /** A UserComment after an earlier one is never looked at. */
  lemma OnlyFirstComment(before: seq<ExifEntry>, v: ExifValue, after: seq<ExifEntry>)
    requires forall k :: 0 <= k < |before| ==> before[k].tag != UserCommentTag
    ensures JpegMetadata(Some(before + [ExifEntry(UserCommentTag, v)] + after)) == Some(UserCommentText(v))
  {
    var es := before + [ExifEntry(UserCommentTag, v)] + after;
    assert es[|before|] == ExifEntry(UserCommentTag, v);
    assert forall k :: 0 <= k < |before| ==> es[k] == before[k];
    FoundAt(es, |before|);
  }

  lemma FoundAt(entries: seq<ExifEntry>, i: nat)
    requires i < |entries| && entries[i].tag == UserCommentTag
    requires forall k :: 0 <= k < i ==> entries[k].tag != UserCommentTag
    ensures JpegMetadata(Some(entries)) == Some(UserCommentText(entries[i].value))
  {
    assert FirstUserComment(entries) == Some(i);
  }

  /** The loop over the EXIF entries, returning at the first UserComment. */
  method ExtractJpegMetadata(exif: Option<seq<ExifEntry>>) returns (r: Option<string>)
    ensures r == JpegMetadata(exif)
  {
    if exif.Some? && exif.value != [] {
      var entries := exif.value;
      for i := 0 to |entries|
        invariant forall k :: 0 <= k < i ==> entries[k].tag != UserCommentTag
      {
        if entries[i].tag == UserCommentTag {
          FoundAt(entries, i);
          return Some(UserCommentText(entries[i].value));
        }
      }
      assert FirstUserComment(entries).None?;
    }
    return None;
  }

  // ---------------------------------------------------------------------------
  // The PNG extractor

  /**
   * `extract_png_metadata`: the stripped `parameters` value when it is present
   * and non-empty; a value of only whitespace gives the empty text.
   */
  function PngMetadata(parameters: Option<string>): (r: Option<string>)
    ensures r.None? <==> parameters.None? || parameters.value == []
    ensures r.Some? ==> IsStripped(r.value) && r.value == Strip(parameters.value)
  {
    if parameters.Some? && parameters.value != [] then Some(Strip(parameters.value)) else None
  }

  /** Whitespace-only `parameters` come out as the empty text. */
  lemma BlankParameters(p: string)
    requires p != [] && AllSpace(p)
    ensures PngMetadata(Some(p)) == Some([])
  {
    StripEmpty(p);
  }

  // ---------------------------------------------------------------------------
  // The "Seed" gate

  /** What `save_metadata_to_file` does. */
  datatype SaveResult = Written(path: string, content: string) | MissingSeed | NothingToSave

  /**
   * A write happens exactly when the text is non-empty and contains `"Seed"`,
   * and it writes that text unchanged to the given path; non-empty text
   * without `"Seed"` is reported and not written.
   */
  function SaveMetadata(metadata: Option<string>, outputPath: string): (r: SaveResult)
    ensures r.Written? <==> metadata.Some? && metadata.value != [] && Contains(metadata.value, "Seed")
    ensures r.Written? ==> r.path == outputPath && r.content == metadata.value
    ensures r.MissingSeed? <==> metadata.Some? && metadata.value != [] && !Contains(metadata.value, "Seed")
  {
    if metadata.Some? && metadata.value != [] && Contains(metadata.value, "Seed") then Written(outputPath, metadata.value)
    else if metadata.Some? && metadata.value != [] then MissingSeed
    else NothingToSave
  }

  /** The gate is case-sensitive: lower-case text is never written. */
  lemma LowerCaseNeverSaved(m: string, outputPath: string)
    requires IsLowerCase(m)
    ensures !SaveMetadata(Some(m), outputPath).Written?
  {
    LowerCaseLacksCapitalised(m, "Seed");
  }

  /** Text with a seed is written, a tag list without one is not. */
  lemma SaveExamples(outputPath: string)
    ensures SaveMetadata(Some("Steps: 20, Seed: 42"), outputPath) == Written(outputPath, "Steps: 20, Seed: 42")
    ensures SaveMetadata(Some("masterpiece, 1girl"), outputPath) == MissingSeed
  {
    assert OccursAt("Steps: 20, Seed: 42", "Seed", 11);
    LowerCaseLacksCapitalised("masterpiece, 1girl", "Seed");
  }

  // ---------------------------------------------------------------------------
  // One file

  /** What opening a file with the image library gives. */
  datatype Image = Image(exif: Option<seq<ExifEntry>>, parameters: Option<string>)

  /** One file of the walk: its directory, its name and the image (`None` when it cannot be opened). */
  datatype ImageFile = ImageFile(root: string, name: string, image: Option<Image>)

  /** What happened to one file. */
  datatype Outcome =
    | NotImage
    | AlreadyExists(sidecar: string)
    | NoMetadata
    | NoSeed(sidecar: string)
    | Saved(sidecar: string, content: string)

  /** The metadata the dispatch obtains; a file that cannot be opened gives none. */
  function Metadata(f: ImageFile): (r: Option<string>)
    ensures !IsImageName(f.name) || f.image.None? ==> r.None?
    ensures f.image.Some? && IsJpegName(f.name) ==> r == JpegMetadata(f.image.value.exif)
    ensures f.image.Some? && IsPngName(f.name) ==> r == PngMetadata(f.image.value.parameters)
  {
    if f.image.None? then None
    else
      match ExtractorFor(f.name)
      case JpegExtractor => JpegMetadata(f.image.value.exif)
      case PngExtractor => PngMetadata(f.image.value.parameters)
      case NoExtractor => None
  }

  /** The steps after the existence check: extract, then save when there is text. */
  function Extract(f: ImageFile): Outcome {
    var sidecar := SidecarPath(f.root, f.name);
    var metadata := Metadata(f);
    if metadata.Some? && metadata.value != [] then
      match SaveMetadata(metadata, sidecar)
      case Written(path, content) => Saved(path, content)
      case MissingSeed => NoSeed(sidecar)
      case NothingToSave => NoMetadata
    else NoMetadata
  }

  /** Extraction saves exactly the non-empty metadata that contains `"Seed"`, to the sidecar. */
  lemma ExtractSpec(f: ImageFile)
    ensures var o := Extract(f);
      && (o.Saved? || o.NoSeed? || o.NoMetadata?)
      && (o.Saved? ==>
           o.sidecar == SidecarPath(f.root, f.name)
           && o.content != [] && Contains(o.content, "Seed") && Metadata(f) == Some(o.content))
      && (o.NoSeed? ==>
           o.sidecar == SidecarPath(f.root, f.name) && Metadata(f).Some? && Metadata(f).value != []
           && !Contains(Metadata(f).value, "Seed"))
      && (o.NoMetadata? ==> Metadata(f).None? || Metadata(f).value == [])
  {
  }

  /** One iteration of the walk's loop. */
  function ProcessFile(f: ImageFile, existing: set<string>): Outcome {
    if !IsImageName(f.name) then NotImage
    else if SidecarPath(f.root, f.name) in existing then AlreadyExists(SidecarPath(f.root, f.name))
    else Extract(f)
  }

  /**
   * What one file's outcome tells: names the filter rejects are ignored, an
   * existing sidecar stops the file before any extraction, and a save writes
   * the non-empty metadata, which contains `"Seed"`, to a sidecar that did
   * not exist; without metadata, or without `"Seed"` in it, nothing is saved.
   */
  lemma ProcessFileSpec(f: ImageFile, existing: set<string>)
    ensures var o := ProcessFile(f, existing);
      && (o.NotImage? <==> !IsImageName(f.name))
      && (o.AlreadyExists? <==> IsImageName(f.name) && SidecarPath(f.root, f.name) in existing)
      && (o.AlreadyExists? ==> o.sidecar == SidecarPath(f.root, f.name))
      && (o.Saved? ==>
           o.sidecar == SidecarPath(f.root, f.name) && o.sidecar !in existing
           && o.content != [] && Contains(o.content, "Seed") && Metadata(f) == Some(o.content))
      && (o.NoSeed? ==>
           o.sidecar !in existing && Metadata(f).Some? && Metadata(f).value != []
           && !Contains(Metadata(f).value, "Seed"))
      && (o.NoMetadata? ==> IsImageName(f.name) && (Metadata(f).None? || Metadata(f).value == []))
  {
    if IsImageName(f.name) && SidecarPath(f.root, f.name) !in existing {
      ExtractSpec(f);
    }
  }

  /** The outcome does not depend on which other paths exist, only on the file's sidecar. */
  lemma ProcessFileLocal(f: ImageFile, e1: set<string>, e2: set<string>)
    requires SidecarPath(f.root, f.name) in e1 <==> SidecarPath(f.root, f.name) in e2
    ensures ProcessFile(f, e1) == ProcessFile(f, e2)
  {
  }

  // ---------------------------------------------------------------------------
  // The walk

  /** The outcomes so far and the paths that exist. */
  datatype State = State(log: seq<Outcome>, existing: set<string>)

  /** The path an outcome creates. */
  function Created(o: Outcome): set<string> {
    if o.Saved? then {o.sidecar} else {}
  }

  /** How a walk treats one file, given the paths that exist; the extractor's is `ProcessFile`. */
  type Decide = (ImageFile, set<string>) -> Outcome

  /** One iteration: record the file's outcome and add the path it created. */
  function Step(decide: Decide, st: State, f: ImageFile): State {
    var o := decide(f, st.existing);
    State(st.log + [o], st.existing + Created(o))
  }

  /** The paths the saved outcomes of a log created. */
  function SavedPaths(log: seq<Outcome>): set<string> {
    set k | 0 <= k < |log| && log[k].Saved? :: log[k].sidecar
  }

  /** A walk over the files in walk order, starting from the paths that exist: one outcome per file. */
  function Walk(decide: Decide, files: seq<ImageFile>, existing: set<string>): (st: State)
    ensures |st.log| == |files|
  {
    if files == [] then State([], existing)
    else Step(decide, Walk(decide, files[..|files| - 1], existing), files[|files| - 1])
  }

  /** `process_images_in_folder` over the walked files. */
  function Run(files: seq<ImageFile>, existing: set<string>): State {
    Walk(ProcessFile, files, existing)
  }

  /** After a walk, exactly the saved sidecars exist in addition to what existed before. */
  lemma {:induction false} WalkCreates(decide: Decide, files: seq<ImageFile>, existing: set<string>)
    ensures Walk(decide, files, existing).existing == existing + SavedPaths(Walk(decide, files, existing).log)
    decreases |files|
  {
    if files != [] {
      var init := files[..|files| - 1];
      WalkCreates(decide, init, existing);
      var prev := Walk(decide, init, existing);
      var st := Walk(decide, files, existing);
      assert st == Step(decide, prev, files[|files| - 1]);
      SavedPathsSnoc(prev.log, st.log[|st.log| - 1]);
      assert st.log == prev.log + [st.log[|st.log| - 1]];
    }
  }

  lemma SavedPathsSnoc(log: seq<Outcome>, o: Outcome)
    ensures SavedPaths(log + [o]) == SavedPaths(log) + Created(o)
  {
    var l := log + [o];
    assert forall k :: 0 <= k < |log| ==> l[k] == log[k];
    assert l[|log|] == o;
  }

  lemma WalkSnoc(decide: Decide, files: seq<ImageFile>, f: ImageFile, existing: set<string>)
    ensures Walk(decide, files + [f], existing) == Step(decide, Walk(decide, files, existing), f)
  {
    assert (files + [f])[..|files|] == files;
  }

  /**
   * Each file's outcome is the decision on the paths that existed when the
   * walk reached it, and those only grow.
   */
  lemma {:induction false} WalkPrefix(decide: Decide, files: seq<ImageFile>, existing: set<string>, k: nat)
    requires k < |files|
    ensures Walk(decide, files, existing).log[k] == decide(files[k], Walk(decide, files[..k], existing).existing)
    ensures Walk(decide, files[..k], existing).existing + Created(Walk(decide, files, existing).log[k])
      == Walk(decide, files[..k + 1], existing).existing
    ensures Walk(decide, files[..k + 1], existing).existing <= Walk(decide, files, existing).existing
    decreases |files|
  {
    var n := |files| - 1;
    var init := files[..n];
    var prev := Walk(decide, init, existing);
    assert Walk(decide, files, existing) == Step(decide, prev, files[n]);
    if k < n {
      WalkPrefix(decide, init, existing, k);
      assert init[..k] == files[..k] && init[..k + 1] == files[..k + 1];
      assert Walk(decide, files, existing).log[k] == prev.log[k];
      StepGrows(decide, prev, files[n]);
    } else {
      assert files[..k] == init && files[..k + 1] == files;
    }
  }

  /** The paths that exist only grow as the walk goes on. */
  lemma {:induction false} WalkGrows(decide: Decide, files: seq<ImageFile>, existing: set<string>, j: nat, k: nat)
    requires j <= k <= |files|
    ensures Walk(decide, files[..j], existing).existing <= Walk(decide, files[..k], existing).existing
    decreases k - j
  {
    if j < k {
      WalkGrows(decide, files, existing, j, k - 1);
      TakeSnoc(files, k - 1);
      WalkSnoc(decide, files[..k - 1], files[k - 1], existing);
      StepGrows(decide, Walk(decide, files[..k - 1], existing), files[k - 1]);
    }
  }

  lemma StepGrows(decide: Decide, st: State, f: ImageFile)
    ensures st.existing <= Step(decide, st, f).existing
  {
  }

  /** A walk from paths on which no file would be saved saves nothing and changes nothing. */
  lemma {:induction false} WalkQuiet(decide: Decide, files: seq<ImageFile>, existing: set<string>)
    requires forall k :: 0 <= k < |files| ==> !decide(files[k], existing).Saved?
    ensures forall k :: 0 <= k < |files| ==> !Walk(decide, files, existing).log[k].Saved?
    ensures Walk(decide, files, existing).existing == existing
    decreases |files|
  {
    if files != [] {
      var n := |files| - 1;
      var init := files[..n];
      assert files == init + [files[n]];
      WalkSnoc(decide, init, files[n], existing);
      assert forall k :: 0 <= k < n ==> init[k] == files[k];
      WalkQuiet(decide, init, existing);
    }
  }

  /** Over a whole run, names the filter rejects are ignored. */
  lemma RunIgnoresNonImages(files: seq<ImageFile>, existing: set<string>)
    ensures forall k :: 0 <= k < |files| && !IsImageName(files[k].name) ==> Run(files, existing).log[k] == NotImage
  {
    forall k | 0 <= k < |files| && !IsImageName(files[k].name)
      ensures Run(files, existing).log[k] == NotImage
    {
      WalkPrefix(ProcessFile, files, existing, k);
      ProcessFileSpec(files[k], Run(files[..k], existing).existing);
    }
  }

  /**
   * Over a whole run, every save writes a text containing `"Seed"` to the
   * file's own sidecar, which did not exist before the run.
   */
  lemma RunSavesAreNew(files: seq<ImageFile>, existing: set<string>)
    ensures forall k :: 0 <= k < |files| && Run(files, existing).log[k].Saved? ==>
      (Run(files, existing).log[k].sidecar == SidecarPath(files[k].root, files[k].name)
       && Run(files, existing).log[k].sidecar !in existing
       && Contains(Run(files, existing).log[k].content, "Seed"))
  {
    forall k | 0 <= k < |files| && Run(files, existing).log[k].Saved?
      ensures Run(files, existing).log[k].sidecar == SidecarPath(files[k].root, files[k].name)
      ensures Run(files, existing).log[k].sidecar !in existing
      ensures Contains(Run(files, existing).log[k].content, "Seed")
    {
      WalkPrefix(ProcessFile, files, existing, k);
      WalkGrows(ProcessFile, files, existing, 0, k);
      ProcessFileSpec(files[k], Run(files[..k], existing).existing);
    }
  }

  /** No two files of a run write the same sidecar: nothing is overwritten. */
  lemma RunNeverOverwrites(files: seq<ImageFile>, existing: set<string>, j: nat, k: nat)
    requires j < k < |files|
    requires Run(files, existing).log[j].Saved? && Run(files, existing).log[k].Saved?
    ensures Run(files, existing).log[j].sidecar != Run(files, existing).log[k].sidecar
  {
    WalkPrefix(ProcessFile, files, existing, j);
    WalkPrefix(ProcessFile, files, existing, k);
    WalkGrows(ProcessFile, files, existing, j + 1, k);
    ProcessFileSpec(files[j], Run(files[..j], existing).existing);
    ProcessFileSpec(files[k], Run(files[..k], existing).existing);
  }

  /** No file of `files` would be saved if the walk reached it with `existing`. */
  predicate Settled(files: seq<ImageFile>, existing: set<string>) {
    forall k :: 0 <= k < |files| ==> !ProcessFile(files[k], existing).Saved?
  }

  lemma SettledGrows(files: seq<ImageFile>, e1: set<string>, e2: set<string>)
    requires Settled(files, e1) && e1 <= e2
    ensures Settled(files, e2)
  {
    forall k | 0 <= k < |files|
      ensures !ProcessFile(files[k], e2).Saved?
    {
      if SidecarPath(files[k].root, files[k].name) !in e2 {
        ProcessFileLocal(files[k], e1, e2);
      }
    }
  }

  /** After a run, no file of that walk would be saved again. */
  lemma {:induction false} RunSettles(files: seq<ImageFile>, existing: set<string>)
    ensures Settled(files, Run(files, existing).existing)
    decreases |files|
  {
    if files != [] {
      var n := |files| - 1;
      var init := files[..n];
      var f := files[n];
      assert files == init + [f];
      WalkSnoc(ProcessFile, init, f, existing);
      var before := Run(init, existing).existing;
      var after := Run(files, existing).existing;
      RunSettles(init, existing);
      SettledGrows(init, before, after);
      var o := ProcessFile(f, before);
      if !o.Saved? {
        assert after == before;
      }
      assert !ProcessFile(f, after).Saved?;
      forall k | 0 <= k < |files|
        ensures !ProcessFile(files[k], after).Saved?
      {
        if k < n {
          assert files[k] == init[k];
        }
      }
    }
  }

  /**
   * Running the extractor a second time over the same tree writes nothing. The
   * second walk may list the files in another order and may also list the
   * sidecars the first run created and any other non-image files, as long as
   * every image it lists was walked the first time.
   */
  lemma SecondRunWritesNothing(files: seq<ImageFile>, again: seq<ImageFile>, existing: set<string>)
    requires forall k :: 0 <= k < |again| ==> !IsImageName(again[k].name) || again[k] in files
    ensures var first := Run(files, existing);
      var second := Run(again, first.existing);
      second.existing == first.existing && forall k :: 0 <= k < |again| ==> !second.log[k].Saved?
  {
    var first := Run(files, existing).existing;
    RunSettles(files, existing);
    forall k | 0 <= k < |again|
      ensures !ProcessFile(again[k], first).Saved?
    {
      if IsImageName(again[k].name) {
        var m :| 0 <= m < |files| && files[m] == again[k];
      }
    }
    WalkQuiet(ProcessFile, again, first);
  }

  /**
   * The walk's loop with its `continue`s: skip names the filter rejects, skip
   * files whose sidecar exists, otherwise extract and save.
   */
  method ProcessImagesInFolder(files: seq<ImageFile>, existing: set<string>)
    returns (log: seq<Outcome>, present: set<string>)
    ensures State(log, present) == Run(files, existing)
  {
    log, present := [], existing;
    for i := 0 to |files|
      invariant State(log, present) == Run(files[..i], existing)
    {
      var file := files[i];
      TakeSnoc(files, i);
      WalkSnoc(ProcessFile, files[..i], file, existing);
      if !IsImageName(file.name) {
        log := log + [NotImage];
        continue;
      }
      var outputFile := SidecarPath(file.root, file.name);
      if outputFile in present {
        log := log + [AlreadyExists(outputFile)];
        continue;
      }
      var metadata: Option<string> := None;
      if file.image.Some? {
        match ExtractorFor(file.name)
        case JpegExtractor =>
          metadata := ExtractJpegMetadata(file.image.value.exif);
        case PngExtractor =>
          metadata := PngMetadata(file.image.value.parameters);
        case NoExtractor =>
      }
      if metadata.Some? && metadata.value != [] {
        var saved := SaveMetadata(metadata, outputFile);
        match saved
        case Written(path, content) =>
          present := present + {path};
          log := log + [Saved(path, content)];
        case MissingSeed =>
          log := log + [NoSeed(outputFile)];
        case NothingToSave =>
          log := log + [NoMetadata];
      } else {
        log := log + [NoMetadata];
      }
    }
    TakeAll(files);
  }
}
