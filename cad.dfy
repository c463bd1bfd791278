/** The CAD manifest builder (tools/generate_cad_json_grouped.py, lines
    30-57): the PDFs of the CAD folder sorted by lower-cased name, bucketed
    by group key, and one item per bucket in the order of the lower-cased
    key. The folder listing and its existence are inputs; the JSON text and
    the file write are not modelled. */
module CadManifest {
  import opened Common
  import opened Text
  import opened Ordering
  import opened CadText
  import opened Grouping

  const PLACEHOLDER_THUMB: string := "assets/placeholders/cad1.svg"

  /** The CAD folder, relative to the site root. */
  const CAD_DIR: string := "docs/cad"

  /** A drawing entry; `caption` is the JSON field `label`. */
  datatype Drawing = Drawing(caption: string, file: string)

  datatype CadItem = CadItem(
    slug: string,
    title: string,
    subtitle: string,
    thumb: string,
    tags: seq<string>,
    drawings: seq<Drawing>,
    images: seq<string>,
    notes: string)

  /** The script stops when the CAD folder is missing (lines 32-33). */
  datatype CadError = CadDirMissing

  // ------------------------------------------------------ specification

  /** One entry of `drawings` (line 46). */
  function DrawingFor(pdf: string): Drawing {
    Drawing(NiceLabel(pdf), CAD_DIR + "/" + pdf)
  }

  /** The `drawings` list of a bucket, one entry per PDF in order. */
  function DrawingsOf(pdfs: seq<string>): (r: seq<Drawing>)
    ensures |r| == |pdfs|
  {
    if pdfs == [] then [] else DrawingsOf(pdfs[..|pdfs| - 1]) + [DrawingFor(pdfs[|pdfs| - 1])]
  }

  /** `f"{len(drawings)} drawing file(s)"`. */
  function Subtitle(count: nat): string {
    Decimal(count) + " drawing file(s)"
  }

  /** One entry of `items` (lines 48-57). */
  function ItemFor(key: string, pdfs: seq<string>): CadItem {
    CadItem(Slugify(key), key, Subtitle(|pdfs|), PLACEHOLDER_THUMB, [], DrawingsOf(pdfs), [], "")
  }

  /** The `items` list for the keys in the order given. */
  function ItemsFrom(keys: seq<string>, groups: map<string, seq<string>>): (r: seq<CadItem>)
    requires forall k :: k in keys ==> k in groups
    ensures |r| == |keys|
  {
    MapGroups(keys, groups, ItemFor)
  }

  /** The PDFs in the order of `sorted(..., key=lambda p: p.name.lower())`. */
  function SortedPdfs(names: seq<string>): seq<string> {
    SortBy(names, Lower)
  }

  /** The keys in the order of `sorted(groups.keys(), key=lambda s: s.lower())`. */
  function SortedKeys(pdfs: seq<string>): seq<string> {
    SortBy(GroupOrder(pdfs, GroupKey), Lower)
  }

  lemma SortedKeysGrouped(pdfs: seq<string>)
    ensures forall k :: k in SortedKeys(pdfs) ==> k in GroupsOf(pdfs, GroupKey)
  {
    SortedGroupOrder(pdfs, GroupKey, Lower);
  }

  /** The manifest the script writes for a CAD folder holding `names`. */
  function CadManifest(names: seq<string>): seq<CadItem> {
    var pdfs := SortedPdfs(names);
    SortedKeysGrouped(pdfs);
    ItemsFrom(SortedKeys(pdfs), GroupsOf(pdfs, GroupKey))
  }

  /** The number of drawings over all items. */
  function TotalDrawings(items: seq<CadItem>): nat {
    if items == [] then 0 else TotalDrawings(items[..|items| - 1]) + |items[|items| - 1].drawings|
  }

  // ------------------------------------------------------------ methods

  /** The inner loop of lines 44-46: one drawing per PDF of a bucket. */
  method BuildDrawings(pdfs: seq<string>) returns (drawings: seq<Drawing>)
    ensures drawings == DrawingsOf(pdfs)
  {
    drawings := [];
    for j := 0 to |pdfs|
      invariant drawings == DrawingsOf(pdfs[..j])
    {
      assert pdfs[..j + 1][..j] == pdfs[..j];
      drawings := drawings + [Drawing(NiceLabel(pdfs[j]), CAD_DIR + "/" + pdfs[j])];
    }
    assert pdfs[..|pdfs|] == pdfs;
  }

  /** The body of the item loop (lines 43-57): the drawings of one bucket
      and the item built around them. */
  method BuildItem(key: string, pdfs: seq<string>) returns (item: CadItem)
    ensures item == ItemFor(key, pdfs)
  {
    var drawings := BuildDrawings(pdfs);
    item := CadItem(Slugify(key), key, Subtitle(|drawings|), PLACEHOLDER_THUMB, [], drawings, [], "");
  }

  /** The item loop (lines 42-57) over keys already in their final order. */
  method BuildItems(keys: seq<string>, groups: map<string, seq<string>>) returns (items: seq<CadItem>)
    requires forall k :: k in keys ==> k in groups
    ensures items == ItemsFrom(keys, groups)
  {
    items := [];
    for i := 0 to |keys|
      invariant |items| == i
      invariant forall j :: 0 <= j < i ==> items[j] == ItemFor(keys[j], groups[keys[j]])
    {
      var item := BuildItem(keys[i], groups[keys[i]]);
      items := items + [item];
    }
    MapGroupsAll(keys, groups, ItemFor, items);
  }

  /** The whole script: fail on a missing folder, sort the PDFs, bucket
      them by group key, sort the keys by their lower-cased form and build
      the items. */
  method GenerateCad(cadDirExists: bool, names: seq<string>) returns (r: Result<seq<CadItem>, CadError>)
    ensures !cadDirExists ==> r == Failure(CadDirMissing)
    ensures cadDirExists ==> r == Success(CadManifest(names))
  {
    if !cadDirExists {
      return Failure(CadDirMissing);
    }
    var pdfs := SortBy(names, Lower);
    var order, groups := GroupBy(pdfs, GroupKey);
    var keys := SortBy(order, Lower);
    SortedKeysGrouped(pdfs);
    var items := BuildItems(keys, groups);
    r := Success(items);
  }

  // ------------------------------------------------------------- lemmas

  /** The items carry the keys as titles, in the order given. */
  lemma ItemsFromTitles(keys: seq<string>, groups: map<string, seq<string>>)
    requires forall k :: k in keys ==> k in groups
    ensures |ItemsFrom(keys, groups)| == |keys|
    ensures forall i :: 0 <= i < |keys| ==> ItemsFrom(keys, groups)[i].title == keys[i]
  {
    forall i | 0 <= i < |keys| ensures ItemsFrom(keys, groups)[i].title == keys[i] {
      MapGroupsIndex(keys, groups, ItemFor, i);
    }
  }

  lemma {:induction false} TotalOfItems(pdfs: seq<string>, keys: seq<string>)
    requires forall k :: k in keys ==> k in GroupsOf(pdfs, GroupKey)
    ensures TotalDrawings(ItemsFrom(keys, GroupsOf(pdfs, GroupKey))) == BucketSizes(pdfs, GroupKey, keys)
  {
    if keys != [] {
      var init := keys[..|keys| - 1];
      TotalOfItems(pdfs, init);
      var items := ItemsFrom(keys, GroupsOf(pdfs, GroupKey));
      assert items[..|items| - 1] == ItemsFrom(init, GroupsOf(pdfs, GroupKey));
    }
  }

  /** One item per distinct key: the titles are the group keys in the
      sorted key order, pairwise different, and exactly the keys of the
      PDFs in the folder. */
  lemma CadOneItemPerKey(names: seq<string>)
    ensures var items := CadManifest(names); var keys := SortedKeys(SortedPdfs(names));
      && |items| == |keys|
      && (forall i :: 0 <= i < |items| ==> items[i].title == keys[i])
      && Distinct(keys)
      && (forall k :: k in keys <==> exists p :: p in names && GroupKey(p) == k)
  {
    var pdfs := SortedPdfs(names);
    SortByCorrect(names, Lower);
    SortedGroupOrder(pdfs, GroupKey, Lower);
    ItemsFromTitles(SortedKeys(pdfs), GroupsOf(pdfs, GroupKey));
  }

  /** Items come in the order of their lower-cased titles. */
  lemma CadItemsOrdered(names: seq<string>)
    ensures var items := CadManifest(names);
      forall i, j :: 0 <= i < j < |items| ==> LexLe(Lower(items[i].title), Lower(items[j].title))
  {
    var pdfs := SortedPdfs(names);
    SortedGroupOrder(pdfs, GroupKey, Lower);
    var keys := SortedKeys(pdfs);
    var items := CadManifest(names);
    ItemsFromTitles(keys, GroupsOf(pdfs, GroupKey));
  }

  /** Each item's drawings are the PDFs with its key, each exactly as
      often as it is listed, in the order of their lower-cased names; the
      slug, subtitle and placeholders follow from the title and the
      drawings. */
  lemma CadItemContents(names: seq<string>, i: nat)
    requires i < |CadManifest(names)|
    ensures var item := CadManifest(names)[i];
      var files := Members(SortedPdfs(names), GroupKey, item.title);
      && item.drawings == DrawingsOf(files)
      && multiset(files) == multiset(Members(names, GroupKey, item.title))
      && SortedBy(files, Lower)
      && item.slug == Slugify(item.title)
      && item.subtitle == Subtitle(|item.drawings|)
      && item.thumb == PLACEHOLDER_THUMB
      && item.tags == [] && item.images == [] && item.notes == ""
  {
    var pdfs := SortedPdfs(names);
    SortByCorrect(names, Lower);
    SortedGroupOrder(pdfs, GroupKey, Lower);
    var keys := SortedKeys(pdfs);
    var groups := GroupsOf(pdfs, GroupKey);
    MapGroupsIndex(keys, groups, ItemFor, i);
    var item := CadManifest(names)[i];
    assert item == ItemFor(keys[i], groups[keys[i]]);
    MembersPermute(pdfs, names, GroupKey, item.title);
    MembersSorted(pdfs, GroupKey, item.title, Lower);
  }

  /** Every PDF lands in exactly one item: the drawings over all items are
      as many as the PDFs. */
  lemma CadEveryPdfOnce(names: seq<string>)
    ensures TotalDrawings(CadManifest(names)) == |names|
  {
    var pdfs := SortedPdfs(names);
    SortByCorrect(names, Lower);
    SortedGroupOrder(pdfs, GroupKey, Lower);
    var keys := SortedKeys(pdfs);
    SortedKeysGrouped(pdfs);
    TotalOfItems(pdfs, keys);
    forall p | p in pdfs ensures GroupKey(p) in keys {
      var j :| 0 <= j < |pdfs| && pdfs[j] == p;
    }
    BucketSizesCover(pdfs, GroupKey, keys);
    assert |multiset(pdfs)| == |multiset(names)|;
  }
}
