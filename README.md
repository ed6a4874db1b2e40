# DITO caption cache, modelled in Dafny

DITO captions the images under a folder and stores the captions in a JSON cache. The cache maps a folder key to a map from image label to caption.

- The Python writer (`CODE/dito.py`) does four things. It lists the image files by extension. It derives each image's folder key (`""` for a top-level file, otherwise the parent path followed by `/`). It derives the image's label (the file name up to its first `.`). It then fills a fresh cache, in this order: keep a caption already there, else copy the previous run's caption, else run the captioning model.
- The JavaScript reader (`CODE/JAVASCRIPT/dito.js`) holds the loaded cache in a module variable. It turns an image path into a folder key and a label, and returns the caption or, failing that, the label with `_` and `-` shown as spaces.

The project is made of these modules:

- `Strings` (`strings.dfy`): the character searches and the split, join and replace operations both programs use.
- `PurePath` (`pure_path.dfy`): how `pathlib.PurePosixPath` parses a path into an anchor and components, and its `name`, `parent` and `suffix`, under CPython 3.12's rules.
- `CacheFormat` (`cache_format.dfy`): the cache's shape, shared by both sides.
- `Dito` (`dito.dfy`): the writer.
  - The extension filter is a loop method over the directory listing.
  - The label, the folder key and the caption clean-up are functions.
  - `update_image_description_data` is a method. It changes the dictionary object it receives in place and returns that same object. It is proved equal to `Merge`, a function defined one path at a time, and the cache properties are lemmas about `Merge`.
  - The captioning model is an opaque `generate` parameter.
- `DitoJs` (`dito_js.dfy`): the reader. The module variable is a class field, with the setter as a method and the lookup as a function reading that field.
- `Agreement` (`agreement.dfy`): for the relative paths the writer's walk produces, the reader computes the same folder key and label as the writer. So it reads the slot the writer filled: it returns the stored caption when that caption is non-empty, and the spaced label when it is empty.

## Model

| member | source | states |
|---|---|---|
| Strings.IndexOf | CODE/dito.py:63 | `str.find`: -1 exactly when the character is absent, otherwise an index holding it with none before |
| Strings.LastIndexOf | CODE/JAVASCRIPT/dito.js:22 | `lastIndexOf`: -1 exactly when the character is absent, otherwise an index holding it with none after |
| Strings.LastIndexOfUnique | CODE/JAVASCRIPT/dito.js:22 | any occurrence with no occurrence after it is the one `lastIndexOf` finds |
| Strings.BeforeFirst | CODE/dito.py:63-69 | a prefix free of the character. It is the whole string iff the character is absent; otherwise the character follows it |
| Strings.ReplaceChar | CODE/JAVASCRIPT/dito.js:54 | `replaceAll` of one character: same length, each position replaced exactly where it held that character |
| Strings.Join | CODE/dito.py:148 | the `/`-join behind `as_posix`: for a non-empty list it starts with the first part and is at least as long as the separators plus the last part |
| Strings.Split | CODE/dito.py:140 | splitting at a separator gives at least one piece, none holding the separator, that join back to the input |
| Strings.SplitJoin | CODE/dito.py:140 | splitting the join of separator-free pieces gives the pieces back |
| PurePath.Root | CODE/dito.py:140 | the anchor is "", "/" or "//" and a prefix of the path; it is "" exactly for a relative path |
| PurePath.DropEmptyAndDot | CODE/dito.py:140 | keeps exactly the components other than "" and "."; a list with neither is kept unchanged |
| PurePath.Tail | CODE/dito.py:140 | the parsed components are non-empty, not ".", and free of "/" |
| PurePath.Name | CODE/dito.py:62 | `Path(p).name` has no "/" and is empty exactly when the path has no component |
| PurePath.ParentIsDot | CODE/dito.py:142 | a path with no "/" has parent "."; a path whose parent is "." is relative |
| PurePath.ParentPosix | CODE/dito.py:148 | when the parent is not ".", its POSIX text is non-empty and starts with the path's anchor |
| PurePath.Suffix | CODE/dito.py:27 | `.suffix` is "" or a final part of the name that starts with its only "." and is shorter than the name (the converse is `SuffixFound`) |
| PurePath.SuffixFound | CODE/dito.py:27 | a name with a "." after its first character and before its last, with no "." after it, has the part from that "." on as its `.suffix` |
| Dito.LowerAscii | CODE/dito.py:27 | lower-casing keeps the length and maps exactly the letters A-Z to a-z |
| Dito.IsImageName | CODE/dito.py:27 | the extension test on a file name against the set at line 14; an accepted name has at least five characters (see `IsImageNameIff` for the full characterisation) |
| Dito.IsImageFile | CODE/dito.py:27 | the extension test on a path's name; an accepted path's name has at least five characters |
| Dito.ExtensionShape | CODE/dito.py:14 | every accepted extension is a "." followed by at least three characters |
| Dito.ImageNameExtension | CODE/dito.py:27 | an accepted file name has, after its first character, a last "." from which it lower-cases to an accepted extension |
| Dito.ExtensionImageName | CODE/dito.py:27 | conversely, such a final part makes the file name accepted |
| Dito.IsImageNameIff | CODE/dito.py:27 | a file is accepted iff its lower-cased final suffix is one of `.avif`, `.jpg`, `.jpeg`, `.png`, `.webp` |
| Dito.ImageFiles | CODE/dito.py:25-30 | the listed paths are exactly the paths of the regular files with an accepted extension, no more of them than there were entries |
| Dito.FindImageFiles | CODE/dito.py:18-32 | the filtering loop returns exactly `ImageFiles` of the walk, in walk order |
| Dito.ImageLabel | CODE/dito.py:58-69 | the label is a prefix of the file name with no "." and no "/". It is the whole name iff the name has no "."; otherwise the name's first "." follows it |
| Dito.FolderKey | CODE/dito.py:140-148 | the key is "" exactly when the parent is "."; a non-empty key ends in "/" |
| Dito.IsSpace | CODE/dito.py:111 | the whitespace `str.strip()` removes: space, tab, newline and carriage return are whitespace; ASCII letters, digits and "." are not |
| Dito.LeadingSpace | CODE/dito.py:111 | the count of leading whitespace: all of it whitespace, the next character not |
| Dito.TrailingSpace | CODE/dito.py:111 | the count of trailing whitespace: all of it whitespace, the character before it not |
| Dito.Strip | CODE/dito.py:111 | `str.strip()`: the contiguous middle after the leading whitespace, with only whitespace around it and no whitespace at either end |
| Dito.GenerateImageDescription | CODE/dito.py:111-123 | a failure gives exactly "No description available."; otherwise the stripped caption, shortened by one character exactly when it ends in "." |
| Dito.WithFolder | CODE/dito.py:153-155 | afterwards the folder is present and no other folder is added. Every folder already there keeps its map, and a folder that was missing gets an empty map |
| Dito.Put | CODE/dito.py:168 | stores the caption at the slot and adds no folder. Every other slot is present afterwards iff it was present before, with the same caption |
| Dito.Step | CODE/dito.py:140-175 | one loop pass: the image's folder and slot are present. A slot already filled leaves the map unchanged; otherwise it gets the old cache's caption if there is one, else the generator's |
| Dito.StepElsewhere | CODE/dito.py:153-175 | one loop pass changes no other slot: each is present after iff present before, with the same caption |
| Dito.Merge | CODE/dito.py:138-175 | the map after the loop over the paths, one `Step` per path in list order; every folder present before is still present |
| Dito.GeneratorCalls | CODE/dito.py:172-173 | the images the loop calls the generator for, in call order; at most one per listed path |
| Dito.MergeSnoc | CODE/dito.py:138 | one more path is one more loop pass, plus one more generator call exactly when that image needs a caption |
| Dito.NextPath | CODE/dito.py:138-150 | the next path's entry is the next entry of the listed paths, merged by one more pass |
| Dito.ImageDescriptionData.constructor | CODE/dito.py:217 | the map the program starts from is empty |
| Dito.UpdateImageDescriptionData | CODE/dito.py:127-177 | updates the given object in place and returns it. The new map is `Merge` of the paths over the old map, and the generator calls are exactly `GeneratorCalls` |
| Dito.ListedPresent | CODE/dito.py:153-175 | every listed image has a caption afterwards, and no caption already there is overwritten |
| Dito.MergeOnlyListed | CODE/dito.py:138-175 | a slot that was absent and that no listed image maps to stays absent |
| Dito.MergeSlots | CODE/dito.py:138-175 | the slots afterwards are exactly the slots before plus one per listed image |
| Dito.MergeFolders | CODE/dito.py:153-155 | the folders afterwards are exactly the folders before plus every listed image's folder |
| Dito.MergeCopiesOldCaption | CODE/dito.py:161-170 | a slot added for an image the old cache has receives exactly the old cache's caption |
| Dito.MergeGeneratedCaption | CODE/dito.py:172-175 | a slot added for an image the old cache lacks receives the generator's caption of the first listed image in that slot |
| Dito.CallsNeedCaption | CODE/dito.py:157-175 | the generator is called only for listed images missing from both the map being filled and the old cache, and there are no more calls than listed paths |
| Dito.CallsDistinct | CODE/dito.py:157-159 | the generator is called at most once per slot |
| Dito.CallsCoverMissing | CODE/dito.py:172-175 | the generator is called for the first listed image of every slot missing from both maps |
| Dito.MergeStable | CODE/dito.py:157-159 | when every listed image already has a caption, the map is unchanged and the generator is never called |
| Dito.MergeIdempotent | CODE/dito.py:157-159 | a second run on its own output with the same paths changes nothing and calls the generator zero times, whatever old cache and generator it gets |
| Dito.RerunStable | CODE/dito.py:217 | a second run from the empty start map, with the first run's output as the old cache and the same paths, gives back that output and calls the generator zero times |
| Dito.RerunSameMap | CODE/dito.py:217 | the map part of `RerunStable`: the second run's output equals the first's |
| Dito.NoCallsWhenCached | CODE/dito.py:161-170 | when the old cache has a caption for every listed image, the generator is never called |
| Dito.FreshMerge | CODE/dito.py:217 | from the empty start map, the slots are exactly the listed images' (old-cache entries of unlisted images are dropped), and old captions are kept |
| DitoJs.FolderPath | CODE/JAVASCRIPT/dito.js:22-33 | the folder part is a prefix of the path; it is "" iff the path has no "/", and otherwise ends in "/" |
| DitoJs.FileName | CODE/JAVASCRIPT/dito.js:22-33 | the file name has no "/", and folder part followed by file name is the path |
| DitoJs.FileLabel | CODE/JAVASCRIPT/dito.js:35-45 | the label is a prefix of the file name with no "."; it is the whole name iff the name has no "."; otherwise a "." follows it |
| DitoJs.FileLabelAtFirstDot | CODE/JAVASCRIPT/dito.js:36-40 | the label is the name up to a "." with no "." before it |
| DitoJs.SpacedLabel | CODE/JAVASCRIPT/dito.js:54 | the fallback has the label's length, each "_" and "-" turned into a space and every other character kept, so it holds no "_" or "-" |
| DitoJs.SpacedLabelUnchanged | CODE/JAVASCRIPT/dito.js:54 | a label with no "_" or "-" is shown as it is |
| DitoJs.FolderNeverPrototypeKey | CODE/JAVASCRIPT/dito.js:47 | a folder part never names a member inherited from `Object.prototype` |
| DitoJs.DitoModule.constructor | CODE/JAVASCRIPT/dito.js:3 | the module starts with the empty cache object |
| DitoJs.DitoModule.SetImageDescriptionData | CODE/JAVASCRIPT/dito.js:7-12 | afterwards the module's cache holds exactly the contents of the object given, and the module has no other state |
| DitoJs.DitoModule.GetImageDescription | CODE/JAVASCRIPT/dito.js:16-56 | a non-empty caption at the path's folder and label is returned unchanged. An absent or empty one gives the spaced label, which has no "_" or "-" |
| DitoJs.DitoModule.GetImageDescriptionAsWritten | CODE/JAVASCRIPT/dito.js:47-55 | as evaluated, the lookup returns an inherited prototype member exactly when the folder is present, lacks an own caption for the label, and the label is a prototype name |
| DitoJs.AsWrittenAgrees | CODE/JAVASCRIPT/dito.js:47-55 | the two readings of the lookup give the same string on every path except one whose folder is present, lacks an own caption for the label, and whose label is a prototype name |
| DitoJs.ConstructorJpgParts | CODE/JAVASCRIPT/dito.js:22-45 | "constructor.jpg" has no folder part and label "constructor", shown as is |
| DitoJs.PrototypeLabelLeaks | CODE/JAVASCRIPT/dito.js:47-50 | with cache `{"": {}}`, the lookup of "constructor.jpg" as written yields `Object.prototype.constructor`, where the intended result is "constructor" |
| Agreement.TailOfClean | CODE/dito.py:140 | for a walk-produced relative path, pathlib's components are exactly the pieces between "/" |
| Agreement.FolderAgrees | CODE/JAVASCRIPT/dito.js:22-33 | for such a path, the reader's folder part equals the writer's folder key |
| Agreement.NameAgrees | CODE/JAVASCRIPT/dito.js:27 | for such a path, the reader's file name equals `Path(p).name` |
| Agreement.LabelAgrees | CODE/JAVASCRIPT/dito.js:35-45 | for such a path, the reader's label equals `get_image_label_from_path` |
| Agreement.ReaderSeesWriterCaption | CODE/JAVASCRIPT/dito.js:47-55 | after a fresh merge, every listed path has a slot (holding the old cache's caption when it had one). The reader returns that caption when non-empty, else the spaced label |

## Left out

- The BLIP model and processor, and the image opening and resizing (`CODE/dito.py:73-109`), are foreign libraries. The caption model is the opaque `generate` parameter. Its outcome, an exception or a decoded text, is the `CaptionAttempt` that `GenerateImageDescription` cleans up.
- The writer passes the generator the absolute path (the resolved image folder joined with the relative path). The model applies `generate` to the relative path instead. The folder is fixed for a run, so an arbitrary function of the relative path covers every behaviour.
- The progress `print`s and stderr messages are not modelled. The update method instead reports, as an extra result, the images it called the generator for, so the call properties can be stated.
- The directory walk (`rglob`, `is_file`, `resolve`, `relative_to`) is filesystem I/O. `FindImageFiles` takes the walk's entries, each a relative path and a regular-file flag, in walk order. The suffix is taken from the relative path's name, which is the absolute path's last component.
- The JSON cache read and write, `mkdir`, the exception-to-`{}` fallback, and `main`'s argument checks are I/O and glue. `main`'s empty start map is the subject of `FreshMerge` and the class constructor.
- Dito.LowerAscii: lower-cases only A-Z, not all of Unicode. No other character lower-cases to a single ASCII letter of the five extensions, so the accepted set is unaffected.
- PurePath: only CPython 3.12's POSIX parsing is modelled: the anchors "", "/", "//", and dropping empty and "." components. Windows paths and older Python versions are not.
- DitoJs: JavaScript strings are UTF-16. The model's strings are sequences of Unicode scalar values. The searched characters "/", ".", "_" and "-" are single code units, so the parts found are the same.
- DitoJs.DitoModule.GetImageDescription: the cache object is taken to have the writer's shape, strings under folder objects. A hand-edited cache holding other JSON values, with their own truthiness, is not modelled.
- DitoJs.DitoModule.SetImageDescriptionData: stores the cache as a value, not a reference. In JavaScript the module keeps the caller's object, so later changes the caller makes to it are seen by the lookup; the model does not capture that aliasing.
- The key order of the cache dictionaries is not modelled. Python dictionaries keep insertion order, so the JSON file lists folders and labels in the order the loop first inserted them. The model's maps are unordered; only the keys and captions are modelled.
- Agreement: relative paths the walk cannot produce (empty, absolute, with "//", "./" or a trailing "/") are outside the agreement lemmas. For them pathlib normalises and the reader does not.

## Findings

| source | as written | input that shows it | evidently intended | confidence | as-written member | corrected member |
|---|---|---|---|---|---|---|
| CODE/JAVASCRIPT/dito.js:47-50 | the lookup indexes plain objects, so a label with no own caption can hit a truthy member inherited from `Object.prototype`, and that member is returned as the caption | cache `{"": {}}`, path `constructor.jpg` (likewise `toString.png`, `valueOf.jpg`, `__proto__.webp`) | fall back to the spaced label "constructor" when the folder has no caption of its own | not executed | DitoJs.DitoModule.GetImageDescriptionAsWritten, DitoJs.PrototypeLabelLeaks | DitoJs.DitoModule.GetImageDescription |
