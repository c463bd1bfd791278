/** The gallery manifest builder (tools/generate_gallery_json.py): for each
    section folder under `images/`, one entry per image base name, the file
    chosen by extension preference and a pre-generated thumbnail used when
    one exists. The disk is an input: the recursive listing of each existing
    section folder and the set of site paths that exist. */
module GalleryManifest {
  import opened Common
  import opened Text
  import opened Ordering
  import opened PurePath
  import opened Grouping
  import opened Preference

  const SECTIONS: seq<string> := ["projects", "boats", "fabrication"]

  const IMAGE_EXTENSIONS: set<string> :=
    {".jpg", ".jpeg", ".png", ".webp", ".gif", ".bmp", ".svg", ".heic", ".heif"}

  const PREFERRED_EXTENSIONS: seq<string> :=
    [".jpg", ".jpeg", ".png", ".webp", ".gif", ".bmp", ".svg", ".heic", ".heif"]

  /** One path yielded by `folder.rglob("*")`, relative to the section
      folder, and whether it is a regular file. */
  datatype Entry = Entry(rel: string, isFile: bool)

  /** The part of the file system the script reads: the listing of each
      section folder that exists, and the site-relative paths that exist. */
  datatype Disk = Disk(folders: map<string, seq<Entry>>, existing: set<string>)

  datatype GalleryEntry = GalleryEntry(src: string, thumb: string)

  // ------------------------------------------------------ specification

  /** `file_path.suffix.lower()`. */
  function ExtOf(rel: string): string {
    Lower(Suffix(rel))
  }

  /** `relative_to(folder).with_suffix("").as_posix().lower()`: the bucket key. */
  function KeyOf(rel: string): string {
    Lower(WithoutSuffix(rel))
  }

  /** The filter of line 21. */
  predicate IsImage(e: Entry) {
    e.isFile && ExtOf(e.rel) in IMAGE_EXTENSIONS
  }

  function EntryKey(e: Entry): string {
    KeyOf(e.rel)
  }

  function EntryExt(e: Entry): string {
    ExtOf(e.rel)
  }

  /** The sort key of line 20; the folder prefix shared by every path does
      not change the order, so it is left out. */
  function ScanOrder(e: Entry): string {
    Lower(e.rel)
  }

  /** The image files of a section listing, in scan order. */
  function Images(listing: seq<Entry>): seq<Entry> {
    Select(SortBy(listing, ScanOrder), IsImage)
  }

  /** The `candidates` dict: for each key, the last file seen for each
      lower-cased extension. */
  function Candidates(listing: seq<Entry>): map<string, map<string, Entry>> {
    BucketsOf(Images(listing), EntryKey, EntryExt)
  }

  /** `sorted(candidates.keys())`. */
  function SortedKeys(listing: seq<Entry>): seq<string> {
    SortBy(GroupOrder(Images(listing), EntryKey), Id)
  }

  /** `chosen_path.relative_to(SITE_ROOT).as_posix()`. */
  function SrcPath(section: string, rel: string): string {
    "images/" + section + "/" + rel
  }

  /** `(THUMBS_DIR / section / rel).with_suffix(".jpg")`, site-relative. */
  function ThumbCandidate(section: string, rel: string): string {
    WithSuffix("images/_thumbs/" + section + "/" + rel, ".jpg")
  }

  /** The entry appended at line 41 for the chosen file. */
  function EntryFor(section: string, rel: string, existing: set<string>): GalleryEntry {
    var src := SrcPath(section, rel);
    var thumb := ThumbCandidate(section, rel);
    GalleryEntry(src, if thumb in existing then thumb else src)
  }

  /** The `files` list for the chosen files, in order. */
  function EntriesOf(section: string, chosen: seq<Entry>, existing: set<string>): (r: seq<GalleryEntry>)
    ensures |r| == |chosen|
  {
    if chosen == [] then []
    else EntriesOf(section, chosen[..|chosen| - 1], existing) + [EntryFor(section, chosen[|chosen| - 1].rel, existing)]
  }

  lemma EntriesOfSnoc(section: string, chosen: seq<Entry>, e: Entry, existing: set<string>)
    ensures EntriesOf(section, chosen + [e], existing) == EntriesOf(section, chosen, existing) + [EntryFor(section, e.rel, existing)]
  {
    assert (chosen + [e])[..|chosen|] == chosen;
  }

  /** The file chosen for each key by the preference scan of lines 29-33. */
  function ChosenFiles(listing: seq<Entry>): seq<Entry> {
    SortedKeysAreCandidates(listing);
    ChosenFrom(PREFERRED_EXTENSIONS, SortedKeys(listing), Candidates(listing))
  }

  lemma SortedKeysAreCandidates(listing: seq<Entry>)
    ensures forall k :: k in SortedKeys(listing) ==> k in Candidates(listing)
  {
    SortedGroupOrder(Images(listing), EntryKey, Id);
  }

  /** What `list_images(section)` returns. */
  function GalleryEntries(section: string, disk: Disk): seq<GalleryEntry> {
    if section !in disk.folders then []
    else
      EntriesOf(section, ChosenFiles(disk.folders[section]), disk.existing)
  }

  /** The payload of `main` for the given section names, in order. */
  function PayloadFor(sections: seq<string>, disk: Disk): seq<(string, seq<GalleryEntry>)> {
    if sections == [] then []
    else
      var s := sections[|sections| - 1];
      PayloadFor(sections[..|sections| - 1], disk) + [(s, GalleryEntries(s, disk))]
  }

  /** The number of images over the sections of a payload. */
  function TotalImages(payload: seq<(string, seq<GalleryEntry>)>): nat {
    if payload == [] then 0
    else TotalImages(payload[..|payload| - 1]) + |payload[|payload| - 1].1|
  }

  // ------------------------------------------------------------ methods

  /** The preference scan of lines 29-33, leaving the loop at the first
      extension present. */
  method ChooseFile(options: map<string, Entry>) returns (chosen: Option<Entry>)
    ensures chosen == FirstPresent(PREFERRED_EXTENSIONS, options)
  {
    chosen := None;
    var i := 0;
    while i < |PREFERRED_EXTENSIONS|
      invariant 0 <= i <= |PREFERRED_EXTENSIONS|
      invariant FirstPresent(PREFERRED_EXTENSIONS, options) == FirstPresent(PREFERRED_EXTENSIONS[i..], options)
    {
      var ext := PREFERRED_EXTENSIONS[i];
      if ext in options {
        chosen := Some(options[ext]);
        break;
      }
      assert PREFERRED_EXTENSIONS[i..][1..] == PREFERRED_EXTENSIONS[i + 1..];
      i := i + 1;
    }
  }

  /** Lines 35-41 for a chosen file: its site path, and the mirrored
      thumbnail when that exists, the file itself otherwise. */
  method BuildEntry(section: string, chosen: Entry, existing: set<string>) returns (entry: GalleryEntry)
    ensures entry == EntryFor(section, chosen.rel, existing)
  {
    var srcRel := SrcPath(section, chosen.rel);
    var thumbCandidate := ThumbCandidate(section, chosen.rel);
    var thumbRel;
    if thumbCandidate in existing {
      thumbRel := thumbCandidate;
    } else {
      thumbRel := srcRel;
    }
    entry := GalleryEntry(srcRel, thumbRel);
  }

  /** The output loop of lines 27-41 over keys already in their final order. */
  method BuildEntries(section: string, keys: seq<string>, candidates: map<string, map<string, Entry>>,
                      existing: set<string>) returns (files: seq<GalleryEntry>)
    requires forall k :: k in keys ==> k in candidates
    ensures files == EntriesOf(section, ChosenFrom(PREFERRED_EXTENSIONS, keys, candidates), existing)
  {
    files := [];
    for i := 0 to |keys|
      invariant files == EntriesOf(section, ChosenFrom(PREFERRED_EXTENSIONS, keys[..i], candidates), existing)
    {
      ChosenFromSnoc(PREFERRED_EXTENSIONS, keys, candidates, i);
      var chosen := ChooseFile(candidates[keys[i]]);
      if chosen.Some? {
        var entry := BuildEntry(section, chosen.value, existing);
        EntriesOfSnoc(section, ChosenFrom(PREFERRED_EXTENSIONS, keys[..i], candidates), chosen.value, existing);
        files := files + [entry];
      } else {
        ghost var done := ChosenFrom(PREFERRED_EXTENSIONS, keys[..i], candidates);
        assert done + [] == done;
      }
    }
    assert keys[..|keys|] == keys;
  }

  /** `list_images(section)`: scan the folder in lower-cased path order,
      bucket the images by key and extension, then emit one entry per key
      in key order. */
  method ListImages(section: string, disk: Disk) returns (files: seq<GalleryEntry>)
    ensures section !in disk.folders ==> files == []
    ensures files == GalleryEntries(section, disk)
  {
    if section !in disk.folders {
      return [];
    }
    var scanned := SortBy(disk.folders[section], ScanOrder);
    var order, candidates := CollectBy(scanned, IsImage, EntryKey, EntryExt);
    var keys := SortBy(order, Id);
    ghost var listing := disk.folders[section];
    assert candidates == Candidates(listing);
    assert keys == SortedKeys(listing);
    SortedKeysAreCandidates(listing);
    files := BuildEntries(section, keys, candidates, disk.existing);
  }

  /** `main`: one list per section, in the order of SECTIONS, and the total
      it reports. */
  method BuildPayload(disk: Disk) returns (payload: seq<(string, seq<GalleryEntry>)>, total: nat)
    ensures payload == PayloadFor(SECTIONS, disk)
    ensures total == TotalImages(payload)
  {
    payload := [];
    for i := 0 to |SECTIONS|
      invariant payload == PayloadFor(SECTIONS[..i], disk)
    {
      assert SECTIONS[..i + 1][..i] == SECTIONS[..i];
      var files := ListImages(SECTIONS[i], disk);
      payload := payload + [(SECTIONS[i], files)];
    }
    assert SECTIONS[..|SECTIONS|] == SECTIONS;
    total := 0;
    for i := 0 to |payload|
      invariant total == TotalImages(payload[..i])
    {
      assert payload[..i + 1][..i] == payload[..i];
      total := total + |payload[i].1|;
    }
    assert payload[..|payload|] == payload;
  }

  // ------------------------------------------------------------- lemmas

  /** The images of a listing are exactly its regular files whose
      lower-cased suffix is an image extension. */
  lemma ImagesOf(listing: seq<Entry>)
    ensures forall e :: e in Images(listing) <==> e in listing && IsImage(e)
  {
    SortByCorrect(listing, ScanOrder);
    SelectSpec(SortBy(listing, ScanOrder), IsImage);
  }

  /** Every image extension has a place in the preference order. */
  lemma ImageExtensionsPreferred()
    ensures forall ext :: ext in IMAGE_EXTENSIONS ==> ext in PREFERRED_EXTENSIONS
  {
  }

  /** The file chosen under a key is one of the images with that key, its
      extension the first in preference order among theirs. */
  lemma ChosenCandidate(listing: seq<Entry>, k: string)
    requires k in Candidates(listing)
    requires forall x :: x in Images(listing) ==> EntryExt(x) in PREFERRED_EXTENSIONS
    ensures FirstPresent(PREFERRED_EXTENSIONS, Candidates(listing)[k]).Some?
    ensures var e := FirstPresent(PREFERRED_EXTENSIONS, Candidates(listing)[k]).value;
      && e in Images(listing) && EntryKey(e) == k
      && (exists j ::
            0 <= j < |PREFERRED_EXTENSIONS| && PREFERRED_EXTENSIONS[j] == EntryExt(e) &&
            (forall f :: f in Images(listing) && EntryKey(f) == k ==> EntryExt(f) !in PREFERRED_EXTENSIONS[..j]))
  {
    ChosenByRank(Images(listing), EntryKey, EntryExt, PREFERRED_EXTENSIONS, k);
  }

  /** For every key a file is chosen: an image with that key whose
      extension comes first in the preference order among the extensions
      of that key's images. */
  lemma ChosenFile(listing: seq<Entry>, k: string)
    requires k in SortedKeys(listing)
    ensures k in Candidates(listing)
    ensures FirstPresent(PREFERRED_EXTENSIONS, Candidates(listing)[k]).Some?
    ensures var e := FirstPresent(PREFERRED_EXTENSIONS, Candidates(listing)[k]).value;
      && e in Images(listing) && EntryKey(e) == k
      && (exists j ::
            0 <= j < |PREFERRED_EXTENSIONS| && PREFERRED_EXTENSIONS[j] == EntryExt(e) &&
            (forall f :: f in Images(listing) && EntryKey(f) == k ==> EntryExt(f) !in PREFERRED_EXTENSIONS[..j]))
  {
    var images := Images(listing);
    assert k in Candidates(listing) by {
      SortedKeysAreCandidates(listing);
    }
    assert forall x :: x in images ==> EntryExt(x) in PREFERRED_EXTENSIONS by {
      ImagesOf(listing);
      ImageExtensionsPreferred();
      forall x | x in images ensures EntryExt(x) in PREFERRED_EXTENSIONS {
        assert IsImage(x);
      }
    }
    ChosenCandidate(listing, k);
  }

  /** The files chosen for the keys, one per key: the i-th is an image
      with the i-th key, its extension the most preferred among that key's
      images. */
  lemma ChosenFileAt(listing: seq<Entry>, i: nat)
    requires i < |SortedKeys(listing)|
    ensures |ChosenFiles(listing)| == |SortedKeys(listing)|
    ensures var e := ChosenFiles(listing)[i]; var k := SortedKeys(listing)[i];
      && e in Images(listing) && EntryKey(e) == k
      && (exists j ::
            0 <= j < |PREFERRED_EXTENSIONS| && PREFERRED_EXTENSIONS[j] == EntryExt(e) &&
            (forall f :: f in Images(listing) && EntryKey(f) == k ==> EntryExt(f) !in PREFERRED_EXTENSIONS[..j]))
  {
    var keys := SortedKeys(listing);
    var candidates := Candidates(listing);
    forall k | k in keys ensures k in candidates && FirstPresent(PREFERRED_EXTENSIONS, candidates[k]).Some? {
      ChosenFile(listing, k);
    }
    ChosenFromIndex(PREFERRED_EXTENSIONS, keys, candidates, i);
    ChosenFile(listing, keys[i]);
  }

  lemma {:induction false} EntriesOfIndex(section: string, chosen: seq<Entry>, existing: set<string>, i: nat)
    requires i < |chosen|
    ensures EntriesOf(section, chosen, existing)[i] == EntryFor(section, chosen[i].rel, existing)
  {
    if i < |chosen| - 1 {
      EntriesOfIndex(section, chosen[..|chosen| - 1], existing, i);
    }
  }

  /** `list_images` of an existing folder: one entry per image key, the
      keys strictly ascending and exactly the keys of the folder's images,
      each entry built from the file chosen for its key. */
  lemma ListImagesContents(section: string, disk: Disk)
    requires section in disk.folders
    ensures var listing := disk.folders[section];
      var keys := SortedKeys(listing);
      var files := GalleryEntries(section, disk);
      && |files| == |keys|
      && (forall i, j :: 0 <= i < j < |keys| ==> LexLess(keys[i], keys[j]))
      && (forall k :: k in keys <==> exists e :: e in Images(listing) && EntryKey(e) == k)
      && (forall i :: 0 <= i < |keys| ==> files[i] == EntryFor(section, ChosenFiles(listing)[i].rel, disk.existing))
  {
    var listing := disk.folders[section];
    var keys := SortedKeys(listing);
    var files := GalleryEntries(section, disk);
    assert (forall i, j :: 0 <= i < j < |keys| ==> LexLess(keys[i], keys[j]))
      && (forall k :: k in keys <==> exists e :: e in Images(listing) && EntryKey(e) == k)
    by {
      SortedGroupOrder(Images(listing), EntryKey, Id);
      SortedDistinctStrict(keys);
    }
    assert |files| == |keys| by {
      if keys != [] {
        ChosenFileAt(listing, 0);
      }
    }
    forall i | 0 <= i < |keys|
      ensures files[i] == EntryFor(section, ChosenFiles(listing)[i].rel, disk.existing)
    {
      EntriesOfIndex(section, ChosenFiles(listing), disk.existing, i);
    }
  }

  /** The thumbnail path is the file's path without its suffix, placed
      under `images/_thumbs/<section>/` and given the suffix `.jpg`. */
  lemma ThumbPath(section: string, rel: string)
    ensures ThumbCandidate(section, rel) == "images/_thumbs/" + section + "/" + WithoutSuffix(rel) + ".jpg"
  {
    UnderFolder("images/_thumbs/" + section + "/", rel);
  }

  /** For an image, whose suffix is not empty, the thumbnail path has the
      suffix `.jpg` and removing it leaves the mirrored suffix-less path. */
  lemma ThumbMirrorsFile(section: string, rel: string)
    requires Suffix(rel) != []
    ensures Suffix(ThumbCandidate(section, rel)) == ".jpg"
    ensures WithoutSuffix(ThumbCandidate(section, rel)) == "images/_thumbs/" + section + "/" + WithoutSuffix(rel)
  {
    var folder := "images/_thumbs/" + section + "/";
    ThumbPath(section, rel);
    SuffixSplits(rel);
    NameWithoutSuffix(rel);
    NameUnderFolder(folder, WithoutSuffix(rel));
    JpgSuffix(folder + WithoutSuffix(rel));
  }

  /** Indexing a concatenation of strings within its first two parts. */
  lemma CharOfConcat(a: string, b: string, c: string, d: string, e: string, i: nat)
    requires i < |a| + |b|
    ensures (a + b + c + d + e)[i] == if i < |a| then a[i] else b[i - |a|]
  {
  }

  lemma ThumbPathChar(section: string, w: string)
    ensures ("images/_thumbs/" + section + "/" + w + ".jpg")[7] == '_'
  {
    CharOfConcat("images/_thumbs/", section, "/", w, ".jpg", 7);
  }

  lemma SrcPathChar(section: string, rel: string)
    requires |section| > 0
    ensures SrcPath(section, rel)[7] == section[0]
  {
    CharOfConcat("images/", section, "/", rel, "", 7);
    assert "images/" + section + "/" + rel + "" == SrcPath(section, rel);
  }

  /** For the sections of the site the thumbnail path is never the file's
      own path: the two differ right after `images/`. */
  lemma ThumbDiffersFromSrc(section: string, rel: string)
    requires section in SECTIONS
    ensures ThumbCandidate(section, rel) != SrcPath(section, rel)
  {
    assert |section| > 0 && section[0] != '_' by {
      assert section == "projects" || section == "boats" || section == "fabrication";
    }
    ThumbPath(section, rel);
    ThumbPathChar(section, WithoutSuffix(rel));
    SrcPathChar(section, rel);
  }

  /** The thumbnail is used exactly when it exists; otherwise the entry
      points at the file itself. */
  lemma ThumbFallback(section: string, rel: string, existing: set<string>)
    requires section in SECTIONS
    ensures var entry := EntryFor(section, rel, existing);
      && entry.src == SrcPath(section, rel)
      && (ThumbCandidate(section, rel) in existing ==> entry.thumb == ThumbCandidate(section, rel))
      && (entry.thumb != entry.src <==> ThumbCandidate(section, rel) in existing)
  {
    ThumbDiffersFromSrc(section, rel);
  }

  /** A key with both a `.heic` and a `.jpg` file gets the `.jpg` one. */
  lemma PreferJpgOverHeic(heic: Entry, jpg: Entry)
    ensures FirstPresent(PREFERRED_EXTENSIONS, map[".heic" := heic, ".jpg" := jpg]) == Some(jpg)
  {
    assert PREFERRED_EXTENSIONS[0] == ".jpg";
  }

  lemma {:induction false} PayloadForIndex(sections: seq<string>, disk: Disk, i: nat)
    requires i < |sections|
    ensures |PayloadFor(sections, disk)| == |sections|
    ensures PayloadFor(sections, disk)[i] == (sections[i], GalleryEntries(sections[i], disk))
  {
    var init := sections[..|sections| - 1];
    if i < |init| {
      PayloadForIndex(init, disk, i);
    } else if init != [] {
      PayloadForIndex(init, disk, 0);
    }
  }

  /** The payload has one list per section, in the order of SECTIONS, and
      the reported total is the sum of their lengths. */
  lemma PayloadSections(disk: Disk)
    ensures var payload := PayloadFor(SECTIONS, disk);
      && |payload| == |SECTIONS|
      && (forall i :: 0 <= i < |SECTIONS| ==> payload[i] == (SECTIONS[i], GalleryEntries(SECTIONS[i], disk)))
      && TotalImages(payload) ==
        |GalleryEntries("projects", disk)| + |GalleryEntries("boats", disk)| + |GalleryEntries("fabrication", disk)|
  {
    var payload := PayloadFor(SECTIONS, disk);
    PayloadForIndex(SECTIONS, disk, 0);
    forall i | 0 <= i < |SECTIONS| ensures payload[i] == (SECTIONS[i], GalleryEntries(SECTIONS[i], disk)) {
      PayloadForIndex(SECTIONS, disk, i);
    }
    assert payload[..1][..0] == [];
    assert TotalImages(payload[..1]) == |payload[0].1|;
    assert payload[..2][..1] == payload[..1];
    assert TotalImages(payload[..2]) == TotalImages(payload[..1]) + |payload[1].1|;
    assert payload[..2] == payload[..|payload| - 1];
    assert TotalImages(payload) == TotalImages(payload[..2]) + |payload[2].1|;
    assert SECTIONS[0] == "projects" && SECTIONS[1] == "boats" && SECTIONS[2] == "fabrication";
  }
}
