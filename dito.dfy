/**
 * The caption writer (CODE/dito.py): which files count as images, how an image
 * path becomes a folder key and a label, how a raw model caption is cleaned,
 * and the incremental merge that fills a fresh cache from the image list, the
 * previous cache and the captioning model.
 */
module Dito {
  import opened Strings
  import opened PurePath
  import opened CacheFormat

  // ---------------------------------------------------------------- discovery

  /** The accepted image extensions, compared after lower-casing. */
  const ImageExtensions: set<string> := {".avif", ".jpg", ".jpeg", ".png", ".webp"}

  /** One entry found under the image folder: its path relative to the folder, and whether it is a regular file. */
  datatype DirEntry = DirEntry(path: string, isFile: bool)

  /** `str.lower` on the ASCII letters. */
  function LowerAscii(s: string): (r: string)
    ensures |r| == |s|
    ensures forall i :: 0 <= i < |s| ==> r[i] == (if 'A' <= s[i] <= 'Z' then (s[i] as int + 32) as char else s[i])
    decreases |s|
  {
    if |s| == 0 then ""
    else [if 'A' <= s[0] <= 'Z' then (s[0] as int + 32) as char else s[0]] + LowerAscii(s[1..])
  }

  /** The extension test: the lower-cased final suffix of the file name is an accepted one. */
  predicate IsImageFile(path: string)
    ensures IsImageFile(path) ==> |Name(path)| >= 5
  {
    IsImageName(Name(path))
  }

  /** The extension test on a file name. */
  predicate IsImageName(name: string)
    ensures IsImageName(name) ==> |name| >= 5
  {
    LowerAscii(Suffix(name)) in ImageExtensions
  }

  /** Every accepted extension is a "." and at least three more characters. */
  lemma ExtensionShape(ext: string)
    requires ext in ImageExtensions
    ensures |ext| >= 4 && ext[0] == '.'
  {
  }

  /** An accepted name ends, from its last dot on, in an accepted extension. */
  lemma ImageNameExtension(name: string)
    requires IsImageName(name)
    ensures var i := |name| - |Suffix(name)|;
      0 < i < |name| && '.' !in name[i + 1..] && LowerAscii(name[i..]) in ImageExtensions
  {
    var suffix := Suffix(name);
    assert suffix != "";
    var i := |name| - |suffix|;
    assert name[i..] == suffix;
    assert name[i + 1..] == suffix[1..];
  }

  /** A name whose part from a dot with no dot after it lower-cases to an accepted extension is accepted. */
  lemma ExtensionImageName(name: string, i: int)
    requires 0 < i < |name| && '.' !in name[i + 1..] && LowerAscii(name[i..]) in ImageExtensions
    ensures IsImageName(name)
  {
    var tail := name[i..];
    ExtensionShape(LowerAscii(tail));
    assert LowerAscii(tail)[0] == '.';
    assert tail[0] == '.';
    LastIndexOfUnique(name, '.', i);
    assert Suffix(name) == tail;
  }

  /**
   * A file name is an image's iff it has a dot after its first character,
   * with no dot after it, from which on it lower-cases to an accepted
   * extension.
   */
  lemma IsImageNameIff(name: string)
    ensures IsImageName(name) <==>
      exists i :: 0 < i < |name| && '.' !in name[i + 1..] && LowerAscii(name[i..]) in ImageExtensions
  {
    if IsImageName(name) {
      ImageNameExtension(name);
    }
    if i :| 0 < i < |name| && '.' !in name[i + 1..] && LowerAscii(name[i..]) in ImageExtensions {
      ExtensionImageName(name, i);
    }
  }

  /** The relative paths of the image files among `entries`, in walk order. */
  function ImageFiles(entries: seq<DirEntry>): (files: seq<string>)
    ensures |files| <= |entries|
    ensures forall f :: f in files <==> exists e :: e in entries && e.isFile && IsImageFile(e.path) && e.path == f
    decreases |entries|
  {
    if entries == [] then []
    else
      var init, e := entries[..|entries| - 1], entries[|entries| - 1];
      assert entries == init + [e];
      ImageFiles(init) + (if e.isFile && IsImageFile(e.path) then [e.path] else [])
  }

  /** The filtering loop of the directory walk. */
  method FindImageFiles(entries: seq<DirEntry>) returns (imageFiles: seq<string>)
    ensures imageFiles == ImageFiles(entries)
  {
    imageFiles := [];
    for i := 0 to |entries|
      invariant imageFiles == ImageFiles(entries[..i])
    {
      assert entries[..i + 1][..i] == entries[..i];
      var entry := entries[i];
      if entry.isFile && IsImageFile(entry.path) {
        imageFiles := imageFiles + [entry.path];
      }
    }
    assert entries[..|entries|] == entries;
  }

  // ---------------------------------------------------------------- keys

  /** `get_image_label_from_path`: the file name up to its first ".". */
  function ImageLabel(path: string): (imageLabel: string)
    ensures imageLabel <= Name(path)
    ensures '.' !in imageLabel && '/' !in imageLabel
    ensures imageLabel == Name(path) <==> '.' !in Name(path)
    ensures |imageLabel| < |Name(path)| ==> Name(path)[|imageLabel|] == '.'
  {
    var imageLabel := BeforeFirst(Name(path), '.');
    assert forall c :: c in imageLabel ==> c in Name(path);
    imageLabel
  }

  /** The folder key of an image: "" when the parent is ".", otherwise the parent path and a "/". */
  function FolderKey(path: string): (folder: string)
    ensures folder == "" <==> ParentIsDot(path)
    ensures folder != "" ==> folder[|folder| - 1] == '/'
  {
    if ParentIsDot(path) then "" else ParentPosix(path) + "/"
  }

  // ---------------------------------------------------------------- captions

  /** Python's `str.isspace`: the Unicode whitespace that `str.strip()` removes. */
  predicate IsSpace(c: char)
    ensures c == ' ' || c == '\t' || c == '\n' || c == '\r' ==> IsSpace(c)
    ensures 'a' <= c <= 'z' || 'A' <= c <= 'Z' || '0' <= c <= '9' || c == '.' ==> !IsSpace(c)
  {
    || '\t' <= c <= '\r'
    || '\U{1C}' <= c <= '\U{1F}'
    || c == ' '
    || c == '\U{85}'
    || c == '\U{A0}'
    || c == '\U{1680}'
    || '\U{2000}' <= c <= '\U{200A}'
    || c == '\U{2028}' || c == '\U{2029}'
    || c == '\U{202F}' || c == '\U{205F}' || c == '\U{3000}'
  }

  predicate AllSpace(s: string)
  {
    forall i :: 0 <= i < |s| ==> IsSpace(s[i])
  }

  /** The number of whitespace characters `s` starts with. */
  function LeadingSpace(s: string): (k: nat)
    ensures k <= |s| && AllSpace(s[..k])
    ensures k < |s| ==> !IsSpace(s[k])
    decreases |s|
  {
    if |s| == 0 || !IsSpace(s[0]) then 0
    else
      var k := LeadingSpace(s[1..]);
      assert s[..k + 1] == [s[0]] + s[1..][..k];
      k + 1
  }

  /** The number of whitespace characters `s` ends with. */
  function TrailingSpace(s: string): (k: nat)
    ensures k <= |s| && AllSpace(s[|s| - k..])
    ensures k < |s| ==> !IsSpace(s[|s| - 1 - k])
    decreases |s|
  {
    if |s| == 0 || !IsSpace(s[|s| - 1]) then 0
    else
      var init := s[..|s| - 1];
      var k := TrailingSpace(init);
      assert s[|s| - (k + 1)..] == init[|init| - k..] + [s[|s| - 1]];
      k + 1
  }

  /**
   * `str.strip()`: the middle of `s` left once the whitespace around it is
   * cut; it neither starts nor ends with whitespace.
   */
  function Strip(s: string): (r: string)
    ensures LeadingSpace(s) + |r| <= |s|
    ensures r == s[LeadingSpace(s)..LeadingSpace(s) + |r|]
    ensures AllSpace(s[..LeadingSpace(s)]) && AllSpace(s[LeadingSpace(s) + |r|..])
    ensures r == "" || (!IsSpace(r[0]) && !IsSpace(r[|r| - 1]))
  {
    var k := LeadingSpace(s);
    var rest := s[k..];
    var t := TrailingSpace(rest);
    assert rest != "" ==> rest[0] == s[k] && t < |rest|;
    assert s[k + (|rest| - t)..] == rest[|rest| - t..];
    rest[..|rest| - t]
  }

  /** The outcome of one run of the captioning model on an image. */
  datatype CaptionAttempt =
    | Raised                 // opening, resizing, encoding or decoding threw
    | Decoded(text: string)  // the decoded caption

  /** The caption stored when captioning throws. */
  const NoDescription: string := "No description available."

  /**
   * `generate_image_description` after the model call: the stripped caption
   * less one trailing "." if it has one; the fixed fallback on an exception.
   */
  function GenerateImageDescription(attempt: CaptionAttempt): (description: string)
    ensures attempt.Raised? ==> description == NoDescription
    ensures attempt.Decoded? ==>
      var s := Strip(attempt.text);
      && description <= s
      && |s| - |description| <= 1
      && (description != s <==> s != "" && s[|s| - 1] == '.')
  {
    match attempt
    case Raised => NoDescription
    case Decoded(text) =>
      var s := Strip(text);
      if |s| > 0 && s[|s| - 1] == '.' then s[..|s| - 1] else s
  }

  // ---------------------------------------------------------------- merge

  /** A listed image with the folder key and label the update loop derives from its path. */
  datatype ImageEntry = ImageEntry(path: string, folder: string, imageLabel: string)

  function EntryOf(path: string): ImageEntry
  {
    ImageEntry(path, FolderKey(path), ImageLabel(path))
  }

  /** The entries of the listed paths, in list order. */
  function Entries(paths: seq<string>): (entries: seq<ImageEntry>)
    ensures |entries| == |paths|
    decreases |paths|
  {
    if paths == [] then [] else Entries(paths[..|paths| - 1]) + [EntryOf(paths[|paths| - 1])]
  }

  /** The `k`-th entry is the entry of the `k`-th path. */
  lemma {:induction false} EntriesAt(paths: seq<string>, k: int)
    requires 0 <= k < |paths|
    ensures Entries(paths)[k] == EntryOf(paths[k])
    decreases |paths|
  {
    if k < |paths| - 1 {
      EntriesAt(paths[..|paths| - 1], k);
    }
  }

  /** Two listed images share one cache slot. */
  predicate SameSlot(e: ImageEntry, e': ImageEntry)
  {
    e.folder == e'.folder && e.imageLabel == e'.imageLabel
  }

  /** Whether the loop body captions `e` afresh: its slot is in neither the map being filled nor the old cache. */
  predicate NeedsCaption(cache: DescriptionMap, oldCache: DescriptionMap, e: ImageEntry)
  {
    !Has(cache, e.folder, e.imageLabel) && !Has(oldCache, e.folder, e.imageLabel)
  }

  /** `if folder not in m: m[folder] = {}` */
  function WithFolder(m: DescriptionMap, folder: string): (r: DescriptionMap)
    ensures r.Keys == m.Keys + {folder}
    ensures folder in m ==> r == m
    ensures forall f :: f in m ==> r[f] == m[f]
    ensures folder !in m ==> r[folder] == map[]
  {
    if folder in m then m else m[folder := map[]]
  }

  /** `m[folder][imageLabel] = caption`, where `m` already has `folder` */
  function Put(m: DescriptionMap, folder: string, imageLabel: string, caption: string): (r: DescriptionMap)
    requires folder in m
    ensures r.Keys == m.Keys
    ensures Has(r, folder, imageLabel) && r[folder][imageLabel] == caption
    ensures forall f, l :: (f != folder || l != imageLabel) ==>
      (Has(r, f, l) <==> Has(m, f, l)) && (Has(m, f, l) ==> r[f][l] == m[f][l])
  {
    m[folder := m[folder][imageLabel := caption]]
  }

  /**
   * One pass of the update loop for image `e`: make sure its folder has an
   * entry, keep a caption already there, else copy the old cache's, else
   * call the generator.
   */
  function Step(cache: DescriptionMap, oldCache: DescriptionMap, e: ImageEntry, generate: string -> string): (r: DescriptionMap)
    ensures r.Keys == cache.Keys + {e.folder}
    ensures Has(r, e.folder, e.imageLabel)
    ensures Has(cache, e.folder, e.imageLabel) ==> r == cache
    ensures !Has(cache, e.folder, e.imageLabel) ==>
      r[e.folder][e.imageLabel] ==
        if Has(oldCache, e.folder, e.imageLabel) then oldCache[e.folder][e.imageLabel] else generate(e.path)
  {
    var withFolder := WithFolder(cache, e.folder);
    if e.imageLabel in withFolder[e.folder] then
      withFolder
    else if e.folder in oldCache && e.imageLabel in oldCache[e.folder] then
      Put(withFolder, e.folder, e.imageLabel, oldCache[e.folder][e.imageLabel])
    else
      Put(withFolder, e.folder, e.imageLabel, generate(e.path))
  }

  /** Step touches only the slot of `e`: every other slot is there after it iff it was there before, with the same caption. */
  lemma StepElsewhere(cache: DescriptionMap, oldCache: DescriptionMap, e: ImageEntry, generate: string -> string,
                      folder: string, imageLabel: string)
    ensures var r := Step(cache, oldCache, e, generate);
      && (Has(r, folder, imageLabel) <==> Has(cache, folder, imageLabel) || (folder == e.folder && imageLabel == e.imageLabel))
      && (Has(cache, folder, imageLabel) ==> r[folder][imageLabel] == cache[folder][imageLabel])
  {
  }

  /** The map after the update loop has run over all of `entries`, starting from `cache`. */
  function Merge(entries: seq<ImageEntry>, cache: DescriptionMap, oldCache: DescriptionMap, generate: string -> string): (r: DescriptionMap)
    ensures cache.Keys <= r.Keys
    decreases |entries|
  {
    if entries == [] then cache
    else Step(Merge(entries[..|entries| - 1], cache, oldCache, generate), oldCache, entries[|entries| - 1], generate)
  }

  /** The images the update loop calls the generator for, in call order. */
  function GeneratorCalls(entries: seq<ImageEntry>, cache: DescriptionMap, oldCache: DescriptionMap, generate: string -> string): (calls: seq<ImageEntry>)
    ensures |calls| <= |entries|
    decreases |entries|
  {
    if entries == [] then []
    else
      var init, last := entries[..|entries| - 1], entries[|entries| - 1];
      GeneratorCalls(init, cache, oldCache, generate)
        + if NeedsCaption(Merge(init, cache, oldCache, generate), oldCache, last) then [last] else []
  }

  /** One more image through the loop is one more Step, and one more call when that image needs a caption. */
  lemma MergeSnoc(entries: seq<ImageEntry>, e: ImageEntry, cache: DescriptionMap, oldCache: DescriptionMap, generate: string -> string)
    ensures Merge(entries + [e], cache, oldCache, generate)
         == Step(Merge(entries, cache, oldCache, generate), oldCache, e, generate)
    ensures GeneratorCalls(entries + [e], cache, oldCache, generate)
         == GeneratorCalls(entries, cache, oldCache, generate)
            + if NeedsCaption(Merge(entries, cache, oldCache, generate), oldCache, e) then [e] else []
  {
    assert (entries + [e])[..|entries|] == entries;
  }

  /** The whole sequence is its own longest prefix. */
  lemma PrefixWhole(s: seq<ImageEntry>)
    ensures s[..|s|] == s
  {
  }

  /** Growing a prefix by one element. */
  lemma PrefixSnoc(s: seq<ImageEntry>, i: int)
    requires 0 <= i < |s|
    ensures s[..i + 1] == s[..i] + [s[i]]
  {
  }

  /** One more path through the loop: its entry is the next one, merged by one more Step. */
  lemma NextPath(paths: seq<string>, i: int, cache: DescriptionMap, oldCache: DescriptionMap, generate: string -> string)
    requires 0 <= i < |paths|
    ensures var entries, e := Entries(paths), EntryOf(paths[i]);
      && Merge(entries[..i + 1], cache, oldCache, generate) == Step(Merge(entries[..i], cache, oldCache, generate), oldCache, e, generate)
      && GeneratorCalls(entries[..i + 1], cache, oldCache, generate)
         == GeneratorCalls(entries[..i], cache, oldCache, generate)
            + if NeedsCaption(Merge(entries[..i], cache, oldCache, generate), oldCache, e) then [e] else []
  {
    var entries := Entries(paths);
    EntriesAt(paths, i);
    PrefixSnoc(entries, i);
    MergeSnoc(entries[..i], entries[i], cache, oldCache, generate);
  }

  /** The Python dictionary that the update fills in place. */
  class ImageDescriptionData {
    var folders: DescriptionMap

    /** `image_description_data = {}` */
    constructor ()
      ensures folders == map[]
    {
      folders := map[];
    }
  }

  /**
   * `update_image_description_data`: fills `data` in place from `paths`,
   * returns that same object, and reports the images the generator was
   * called for.
   */
  method UpdateImageDescriptionData(paths: seq<string>, data: ImageDescriptionData, oldCache: DescriptionMap,
                                    generate: string -> string)
    returns (updated: ImageDescriptionData, generated: seq<ImageEntry>)
    modifies data
    ensures updated == data
    ensures data.folders == Merge(Entries(paths), old(data.folders), oldCache, generate)
    ensures generated == GeneratorCalls(Entries(paths), old(data.folders), oldCache, generate)
  {
    ghost var start := data.folders;
    ghost var entries := Entries(paths);
    generated := [];
    for i := 0 to |paths|
      invariant data.folders == Merge(entries[..i], start, oldCache, generate)
      invariant generated == GeneratorCalls(entries[..i], start, oldCache, generate)
    {
      var path := paths[i];
      var entry := EntryOf(path);
      NextPath(paths, i, start, oldCache, generate);
      ghost var before := data.folders;
      var folder, imageLabel := entry.folder, entry.imageLabel;
      data.folders := WithFolder(data.folders, folder);
      if imageLabel in data.folders[folder] {
        assert data.folders == Step(before, oldCache, entry, generate);
        continue;
      }
      if folder in oldCache && imageLabel in oldCache[folder] {
        data.folders := Put(data.folders, folder, imageLabel, oldCache[folder][imageLabel]);
        assert data.folders == Step(before, oldCache, entry, generate);
        continue;
      }
      var description := generate(path);
      generated := generated + [entry];
      data.folders := Put(data.folders, folder, imageLabel, description);
    }
    PrefixWhole(entries);
    updated := data;
  }

  // ---------------------------------------------------------------- properties

  /** Every listed image has a caption after the merge, and every caption already there is kept. */
  lemma {:induction false} ListedPresent(entries: seq<ImageEntry>, cache: DescriptionMap, oldCache: DescriptionMap,
                                         generate: string -> string)
    ensures var r := Merge(entries, cache, oldCache, generate);
      && (forall k :: 0 <= k < |entries| ==> Has(r, entries[k].folder, entries[k].imageLabel))
      && (forall f, l :: Has(cache, f, l) ==> Has(r, f, l) && r[f][l] == cache[f][l])
    decreases |entries|
  {
    if entries != [] {
      var init, last := entries[..|entries| - 1], entries[|entries| - 1];
      var before := Merge(init, cache, oldCache, generate);
      ListedPresent(init, cache, oldCache, generate);
      forall k | 0 <= k < |init| ensures Has(Step(before, oldCache, last, generate), entries[k].folder, entries[k].imageLabel) {
        assert init[k] == entries[k];
        StepElsewhere(before, oldCache, last, generate, entries[k].folder, entries[k].imageLabel);
      }
      forall f, l | Has(cache, f, l) ensures Has(Step(before, oldCache, last, generate), f, l) {
        StepElsewhere(before, oldCache, last, generate, f, l);
      }
      forall f, l | Has(cache, f, l) ensures Step(before, oldCache, last, generate)[f][l] == cache[f][l] {
        StepElsewhere(before, oldCache, last, generate, f, l);
      }
    }
  }

  /** A slot that was not there before and that no listed image maps to is not there after the merge. */
  lemma {:induction false} MergeOnlyListed(entries: seq<ImageEntry>, cache: DescriptionMap, oldCache: DescriptionMap,
                                           generate: string -> string, folder: string, imageLabel: string)
    requires !Has(cache, folder, imageLabel)
    requires forall k :: 0 <= k < |entries| ==> !(entries[k].folder == folder && entries[k].imageLabel == imageLabel)
    ensures !Has(Merge(entries, cache, oldCache, generate), folder, imageLabel)
    decreases |entries|
  {
    if entries != [] {
      var init := entries[..|entries| - 1];
      assert forall k :: 0 <= k < |init| ==> init[k] == entries[k];
      MergeOnlyListed(init, cache, oldCache, generate, folder, imageLabel);
      StepElsewhere(Merge(init, cache, oldCache, generate), oldCache, entries[|entries| - 1], generate, folder, imageLabel);
    }
  }

  /**
   * After the merge the map holds exactly the slots it started with plus one
   * per listed image (and a folder for every listed folder).
   */
  lemma MergeSlots(entries: seq<ImageEntry>, cache: DescriptionMap, oldCache: DescriptionMap, generate: string -> string)
    ensures var r := Merge(entries, cache, oldCache, generate);
      forall f, l :: Has(r, f, l) <==> Has(cache, f, l) || exists k :: 0 <= k < |entries| && entries[k].folder == f && entries[k].imageLabel == l
  {
    ListedPresent(entries, cache, oldCache, generate);
    forall f, l | !Has(cache, f, l) && !(exists k :: 0 <= k < |entries| && entries[k].folder == f && entries[k].imageLabel == l)
      ensures !Has(Merge(entries, cache, oldCache, generate), f, l)
    {
      MergeOnlyListed(entries, cache, oldCache, generate, f, l);
    }
  }

  /** The folders after the merge: the ones there before and every listed image's folder. */
  lemma {:induction false} MergeFolders(entries: seq<ImageEntry>, cache: DescriptionMap, oldCache: DescriptionMap,
                                        generate: string -> string)
    ensures var r := Merge(entries, cache, oldCache, generate);
      forall f :: f in r <==> f in cache || exists k :: 0 <= k < |entries| && entries[k].folder == f
    decreases |entries|
  {
    if entries != [] {
      var init := entries[..|entries| - 1];
      MergeFolders(init, cache, oldCache, generate);
      assert forall k :: 0 <= k < |init| ==> init[k] == entries[k];
    }
  }

  /** No earlier image in the list shares the slot of `entries[k]`. */
  ghost predicate FirstOfSlot(entries: seq<ImageEntry>, k: int)
    requires 0 <= k < |entries|
  {
    forall j :: 0 <= j < k ==> !SameSlot(entries[j], entries[k])
  }

  /** A caption the merge added for a slot the old cache has is the old cache's caption. */
  lemma {:induction false} MergeCopiesOldCaption(entries: seq<ImageEntry>, cache: DescriptionMap, oldCache: DescriptionMap,
                                                 generate: string -> string, folder: string, imageLabel: string)
    requires Has(Merge(entries, cache, oldCache, generate), folder, imageLabel) && !Has(cache, folder, imageLabel)
    requires Has(oldCache, folder, imageLabel)
    ensures Merge(entries, cache, oldCache, generate)[folder][imageLabel] == oldCache[folder][imageLabel]
    decreases |entries|
  {
    assert entries != [];
    var init := entries[..|entries| - 1];
    var before := Merge(init, cache, oldCache, generate);
    StepElsewhere(before, oldCache, entries[|entries| - 1], generate, folder, imageLabel);
    if Has(before, folder, imageLabel) {
      MergeCopiesOldCaption(init, cache, oldCache, generate, folder, imageLabel);
    }
  }

  /**
   * A caption the merge added for a slot the old cache lacks is the
   * generator's caption of the first listed image in that slot.
   */
  lemma {:induction false} MergeGeneratedCaption(entries: seq<ImageEntry>, cache: DescriptionMap, oldCache: DescriptionMap,
                                                 generate: string -> string, folder: string, imageLabel: string)
    requires Has(Merge(entries, cache, oldCache, generate), folder, imageLabel) && !Has(cache, folder, imageLabel)
    requires !Has(oldCache, folder, imageLabel)
    ensures exists k :: (0 <= k < |entries| && entries[k].folder == folder && entries[k].imageLabel == imageLabel
      && FirstOfSlot(entries, k) && Merge(entries, cache, oldCache, generate)[folder][imageLabel] == generate(entries[k].path))
    decreases |entries|
  {
    assert entries != [];
    var init := entries[..|entries| - 1];
    var before := Merge(init, cache, oldCache, generate);
    StepElsewhere(before, oldCache, entries[|entries| - 1], generate, folder, imageLabel);
    if Has(before, folder, imageLabel) {
      MergeGeneratedCaption(init, cache, oldCache, generate, folder, imageLabel);
      var k :| 0 <= k < |init| && init[k].folder == folder && init[k].imageLabel == imageLabel
        && FirstOfSlot(init, k) && before[folder][imageLabel] == generate(init[k].path);
      assert forall j :: 0 <= j <= k ==> entries[j] == init[j];
      assert FirstOfSlot(entries, k);
    } else {
      ListedPresent(init, cache, oldCache, generate);
      assert forall j :: 0 <= j < |init| ==> entries[j] == init[j];
      assert FirstOfSlot(entries, |init|);
    }
  }

  /** Every image the generator is called for was listed and is missing from both maps. */
  lemma {:induction false} CallsNeedCaption(entries: seq<ImageEntry>, cache: DescriptionMap, oldCache: DescriptionMap,
                                            generate: string -> string)
    ensures var calls := GeneratorCalls(entries, cache, oldCache, generate);
      && |calls| <= |entries|
      && forall e :: e in calls ==> e in entries && NeedsCaption(cache, oldCache, e)
    decreases |entries|
  {
    if entries != [] {
      var init := entries[..|entries| - 1];
      CallsNeedCaption(init, cache, oldCache, generate);
      ListedPresent(init, cache, oldCache, generate);
      assert forall e :: e in init ==> e in entries;
    }
  }

  /** The generator is called at most once per slot. */
  lemma {:induction false} CallsDistinct(entries: seq<ImageEntry>, cache: DescriptionMap, oldCache: DescriptionMap,
                                         generate: string -> string)
    ensures var calls := GeneratorCalls(entries, cache, oldCache, generate);
      forall i, j :: 0 <= i < j < |calls| ==> !SameSlot(calls[i], calls[j])
    decreases |entries|
  {
    if entries != [] {
      var init, last := entries[..|entries| - 1], entries[|entries| - 1];
      var before := Merge(init, cache, oldCache, generate);
      var callsInit := GeneratorCalls(init, cache, oldCache, generate);
      CallsDistinct(init, cache, oldCache, generate);
      if NeedsCaption(before, oldCache, last) {
        CallsNeedCaption(init, cache, oldCache, generate);
        ListedPresent(init, cache, oldCache, generate);
        var calls := callsInit + [last];
        forall i, j | 0 <= i < j < |calls| ensures !SameSlot(calls[i], calls[j]) {
          if j == |callsInit| {
            assert calls[i] in init;
          } else {
            assert calls[i] == callsInit[i] && calls[j] == callsInit[j];
          }
        }
      }
    }
  }

  /** The generator is called for the first listed image of every slot missing from both maps. */
  lemma {:induction false} CallsCoverMissing(entries: seq<ImageEntry>, cache: DescriptionMap, oldCache: DescriptionMap,
                                             generate: string -> string)
    ensures var calls := GeneratorCalls(entries, cache, oldCache, generate);
      forall k :: 0 <= k < |entries| && NeedsCaption(cache, oldCache, entries[k]) && FirstOfSlot(entries, k) ==> entries[k] in calls
    decreases |entries|
  {
    if entries != [] {
      var init, last := entries[..|entries| - 1], entries[|entries| - 1];
      CallsCoverMissing(init, cache, oldCache, generate);
      var calls := GeneratorCalls(entries, cache, oldCache, generate);
      forall k | 0 <= k < |entries| && NeedsCaption(cache, oldCache, entries[k]) && FirstOfSlot(entries, k)
        ensures entries[k] in calls
      {
        if k < |init| {
          assert forall j :: 0 <= j <= k ==> init[j] == entries[j];
          assert FirstOfSlot(init, k);
        } else {
          assert forall j :: 0 <= j < |init| ==> init[j] == entries[j];
          MergeOnlyListed(init, cache, oldCache, generate, last.folder, last.imageLabel);
        }
      }
    }
  }

  /** The merge adds nothing and calls the generator for nothing when every listed image already has a caption. */
  lemma {:induction false} MergeStable(entries: seq<ImageEntry>, cache: DescriptionMap, oldCache: DescriptionMap,
                                       generate: string -> string)
    requires forall k :: 0 <= k < |entries| ==> Has(cache, entries[k].folder, entries[k].imageLabel)
    ensures Merge(entries, cache, oldCache, generate) == cache
    ensures GeneratorCalls(entries, cache, oldCache, generate) == []
    decreases |entries|
  {
    if entries != [] {
      var init := entries[..|entries| - 1];
      assert forall k :: 0 <= k < |init| ==> init[k] == entries[k];
      MergeStable(init, cache, oldCache, generate);
    }
  }

  /**
   * Running the update again on its own result with the same image list,
   * whatever old cache and generator it is given, changes nothing and calls
   * the generator zero times.
   */
  lemma MergeIdempotent(entries: seq<ImageEntry>, cache: DescriptionMap, oldCache: DescriptionMap,
                        generate: string -> string, oldCache': DescriptionMap, generate': string -> string)
    ensures var r := Merge(entries, cache, oldCache, generate);
      Merge(entries, r, oldCache', generate') == r && GeneratorCalls(entries, r, oldCache', generate') == []
  {
    var r := Merge(entries, cache, oldCache, generate);
    ListedPresent(entries, cache, oldCache, generate);
    MergeStable(entries, r, oldCache', generate');
  }

  /**
   * The program run again: a fresh start map, the previous run's output as
   * the old cache and the same image list give back that output, and the
   * captioning model is not called at all.
   */
  lemma RerunStable(entries: seq<ImageEntry>, oldCache: DescriptionMap, generate: string -> string,
                    generate': string -> string)
    ensures var r := Merge(entries, map[], oldCache, generate);
      Merge(entries, map[], r, generate') == r && GeneratorCalls(entries, map[], r, generate') == []
  {
    var r := Merge(entries, map[], oldCache, generate);
    RerunSameMap(entries, oldCache, generate, generate');
    ListedPresent(entries, map[], oldCache, generate);
    NoCallsWhenCached(entries, map[], r, generate');
  }

  /** When the old cache has a caption for every listed image, the generator is never called. */
  lemma {:induction false} NoCallsWhenCached(entries: seq<ImageEntry>, cache: DescriptionMap, oldCache: DescriptionMap,
                                             generate: string -> string)
    requires forall k :: 0 <= k < |entries| ==> Has(oldCache, entries[k].folder, entries[k].imageLabel)
    ensures GeneratorCalls(entries, cache, oldCache, generate) == []
    decreases |entries|
  {
    if entries != [] {
      var init := entries[..|entries| - 1];
      assert forall k :: 0 <= k < |init| ==> init[k] == entries[k];
      NoCallsWhenCached(init, cache, oldCache, generate);
    }
  }

  /** The map half of RerunStable. */
  lemma RerunSameMap(entries: seq<ImageEntry>, oldCache: DescriptionMap, generate: string -> string,
                     generate': string -> string)
    ensures var r := Merge(entries, map[], oldCache, generate);
      Merge(entries, map[], r, generate') == r
  {
    var r := Merge(entries, map[], oldCache, generate);
    var r' := Merge(entries, map[], r, generate');
    FreshMerge(entries, oldCache, generate);
    FreshMerge(entries, r, generate');
    MergeFolders(entries, map[], oldCache, generate);
    MergeFolders(entries, map[], r, generate');
    SameSlotsSameMap(r', r);
  }

  /** Two caches with the same folders and the same slots, each holding the same caption, are equal. */
  lemma SameSlotsSameMap(a: DescriptionMap, b: DescriptionMap)
    requires a.Keys == b.Keys
    requires forall f, l :: Has(a, f, l) <==> Has(b, f, l)
    requires forall f, l :: Has(a, f, l) && Has(b, f, l) ==> a[f][l] == b[f][l]
    ensures a == b
  {
    forall f | f in a ensures a[f] == b[f] {
      assert forall l :: l in a[f] <==> Has(a, f, l);
      assert forall l :: l in b[f] <==> Has(b, f, l);
    }
  }

  /**
   * From the empty map the program starts with, the result has a slot for
   * exactly the listed images: old-cache slots of images no longer listed
   * are dropped, and listed ones keep their old caption.
   */
  lemma FreshMerge(entries: seq<ImageEntry>, oldCache: DescriptionMap, generate: string -> string)
    ensures var r := Merge(entries, map[], oldCache, generate);
      && (forall f, l :: Has(r, f, l) <==> exists k :: 0 <= k < |entries| && entries[k].folder == f && entries[k].imageLabel == l)
      && (forall f, l :: Has(r, f, l) && Has(oldCache, f, l) ==> r[f][l] == oldCache[f][l])
  {
    var r := Merge(entries, map[], oldCache, generate);
    MergeSlots(entries, map[], oldCache, generate);
    forall f, l | Has(r, f, l) && Has(oldCache, f, l) ensures r[f][l] == oldCache[f][l] {
      MergeCopiesOldCaption(entries, map[], oldCache, generate, f, l);
    }
  }
}
