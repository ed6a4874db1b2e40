/**
 * The writer (CODE/dito.py) and the reader (CODE/JAVASCRIPT/dito.js) derive
 * the cache keys of an image in different ways: pathlib's `parent` and
 * `name` on one side, a search for the last "/" and first "." on the other.
 * For the relative paths the writer's directory walk produces they agree,
 * so the reader finds the caption the writer stored.
 */
module Agreement {
  import opened Strings
  import opened CacheFormat
  import opened PurePath
  import Dito
  import DitoJs

  /**
   * A relative POSIX path in the form the directory walk yields: non-empty,
   * not starting with "/", with no empty and no "." component.
   */
  predicate CleanRelativePath(path: string)
  {
    && path != "" && path[0] != '/'
    && forall part :: part in Split(path, '/') ==> part != "" && part != "."
  }

  /** For such a path pathlib keeps every component that a split at "/" yields. */
  lemma TailOfClean(path: string)
    requires CleanRelativePath(path)
    ensures Root(path) == ""
    ensures Tail(path) == Split(path, '/')
  {
    assert path[0..] == path;
  }

  /** The reader's folder part is the writer's folder key. */
  lemma FolderAgrees(path: string)
    requires CleanRelativePath(path)
    ensures DitoJs.FolderPath(path) == Dito.FolderKey(path)
  {
    TailOfClean(path);
    var k := LastIndexOf(path, '/');
    var parts := Split(path, '/');
    if k >= 0 {
      var init := Split(path[..k], '/');
      assert parts == init + [path[k + 1..]];
      assert parts[..|parts| - 1] == init;
      assert ParentPosix(path) == path[..k];
      assert path[..k] + "/" == path[..k + 1];
    }
  }

  /** The reader's file name is pathlib's `name`. */
  lemma NameAgrees(path: string)
    requires CleanRelativePath(path)
    ensures Name(path) == DitoJs.FileName(path)
  {
    TailOfClean(path);
    var k := LastIndexOf(path, '/');
    var parts := Split(path, '/');
    if k >= 0 {
      assert parts == Split(path[..k], '/') + [path[k + 1..]];
      assert parts[|parts| - 1] == path[k + 1..];
    } else {
      assert parts == [path];
    }
  }

  /** The reader's label is the writer's label. */
  lemma LabelAgrees(path: string)
    requires CleanRelativePath(path)
    ensures DitoJs.FileLabel(DitoJs.FileName(path)) == Dito.ImageLabel(path)
  {
    NameAgrees(path);
  }

  /**
   * After the writer has merged a path list into a fresh map and the reader
   * has loaded the result, looking up any listed path finds its slot: the
   * stored caption when it is non-empty (the old cache's caption when the
   * old cache had one), the spaced label otherwise.
   */
  lemma ReaderSeesWriterCaption(paths: seq<string>, oldCache: DescriptionMap, generate: string -> string,
                                m: DitoJs.DitoModule, path: string)
    requires path in paths && CleanRelativePath(path)
    requires m.imageDescriptionData == Dito.Merge(Dito.Entries(paths), map[], oldCache, generate)
    ensures var folder, imageLabel := Dito.FolderKey(path), Dito.ImageLabel(path);
      && Has(m.imageDescriptionData, folder, imageLabel)
      && (Has(oldCache, folder, imageLabel) ==> m.imageDescriptionData[folder][imageLabel] == oldCache[folder][imageLabel])
      && m.GetImageDescription(path) ==
           if m.imageDescriptionData[folder][imageLabel] != "" then m.imageDescriptionData[folder][imageLabel]
           else DitoJs.SpacedLabel(imageLabel)
  {
    var entries := Dito.Entries(paths);
    var k :| 0 <= k < |paths| && paths[k] == path;
    Dito.EntriesAt(paths, k);
    Dito.ListedPresent(entries, map[], oldCache, generate);
    var folder, imageLabel := Dito.FolderKey(path), Dito.ImageLabel(path);
    assert Has(m.imageDescriptionData, folder, imageLabel);
    if Has(oldCache, folder, imageLabel) {
      Dito.MergeCopiesOldCaption(entries, map[], oldCache, generate, folder, imageLabel);
    }
    FolderAgrees(path);
    LabelAgrees(path);
  }
}
