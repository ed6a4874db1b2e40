/**
 * The browser-side reader of the caption cache (CODE/JAVASCRIPT/dito.js): a
 * module variable holding the loaded cache, its setter, and the lookup that
 * turns an image path into its caption or, failing that, a readable label.
 */
module DitoJs {
  import opened Strings
  import opened CacheFormat

  /** `imageFilePath.substring(0, lastSlash + 1)`, or "" when the path has no "/". */
  function FolderPath(path: string): (folder: string)
    ensures folder <= path
    ensures folder == "" <==> '/' !in path
    ensures folder != "" ==> folder[|folder| - 1] == '/'
  {
    var k := LastIndexOf(path, '/');
    if k >= 0 then path[..k + 1] else ""
  }

  /** `imageFilePath.substring(lastSlash + 1)`, or the whole path when it has no "/". */
  function FileName(path: string): (name: string)
    ensures '/' !in name
    ensures FolderPath(path) + name == path
  {
    var k := LastIndexOf(path, '/');
    if k >= 0 then path[k + 1..] else path
  }

  /** The file name up to its first ".", or all of it. */
  function FileLabel(name: string): (imageLabel: string)
    ensures imageLabel <= name
    ensures '.' !in imageLabel
    ensures imageLabel == name <==> '.' !in name
    ensures |imageLabel| < |name| ==> name[|imageLabel|] == '.'
  {
    BeforeFirst(name, '.')
  }

  /** `imageFileLabel.replaceAll('_', ' ').replaceAll('-', ' ')` */
  function SpacedLabel(imageLabel: string): (text: string)
    ensures |text| == |imageLabel|
    ensures '_' !in text && '-' !in text
    ensures forall i :: 0 <= i < |imageLabel| ==>
      text[i] == if imageLabel[i] == '_' || imageLabel[i] == '-' then ' ' else imageLabel[i]
  {
    var text := ReplaceChar(ReplaceChar(imageLabel, '_', ' '), '-', ' ');
    assert forall c :: c in text ==> c != '_' && c != '-' by {
      forall c | c in text ensures c != '_' && c != '-' {
        var i :| 0 <= i < |text| && text[i] == c;
      }
    }
    text
  }

  /**
   * The property names every plain JavaScript object inherits from
   * `Object.prototype`; indexing an object with one of them yields a
   * function (or, for `__proto__`, the prototype itself) even when the
   * object has no own property of that name.
   */
  const ObjectPrototypeKeys: set<string> := {
    "constructor", "hasOwnProperty", "isPrototypeOf", "propertyIsEnumerable",
    "toLocaleString", "toString", "valueOf", "__proto__",
    "__defineGetter__", "__defineSetter__", "__lookupGetter__", "__lookupSetter__"
  }

  /** What the lookup can hand back: a caption or label, or an inherited prototype member. */
  datatype JsValue = Str(text: string) | PrototypeMember(name: string)

  /** A folder key from FolderPath is "" or ends in "/", so it never names a prototype member. */
  lemma FolderNeverPrototypeKey(path: string)
    ensures FolderPath(path) !in ObjectPrototypeKeys
  {
    var folder := FolderPath(path);
    if folder != "" {
      assert folder[|folder| - 1] == '/';
    }
  }

  /** The module's state: the cache object the page loaded, `{}` until it is set. */
  class DitoModule {
    var imageDescriptionData: DescriptionMap

    /** `export let imageDescriptionData = {};` */
    constructor ()
      ensures imageDescriptionData == map[]
    {
      imageDescriptionData := map[];
    }

    /** `setImageDescriptionData`: replaces the cache object; it is the module's only state. */
    method SetImageDescriptionData(data: DescriptionMap)
      modifies this
      ensures imageDescriptionData == data
    {
      imageDescriptionData := data;
    }

    /**
     * `getImageDescription`, reading only the cache's own entries: the
     * caption stored for the path's folder and label when it is a non-empty
     * string, and the label with "_" and "-" turned into spaces otherwise.
     */
    function GetImageDescription(path: string): (description: string)
      reads this
      ensures var folder, imageLabel := FolderPath(path), FileLabel(FileName(path));
        if Has(imageDescriptionData, folder, imageLabel) && imageDescriptionData[folder][imageLabel] != ""
        then description == imageDescriptionData[folder][imageLabel]
        else description == SpacedLabel(imageLabel) && '_' !in description && '-' !in description
    {
      var folder, imageLabel := FolderPath(path), FileLabel(FileName(path));
      if folder in imageDescriptionData && imageLabel in imageDescriptionData[folder]
         && imageDescriptionData[folder][imageLabel] != ""
      then imageDescriptionData[folder][imageLabel]
      else SpacedLabel(imageLabel)
    }

    /**
     * `getImageDescription` as the JavaScript engine evaluates it: the
     * property reads also see members inherited from `Object.prototype`, and
     * such a member is truthy. The outer read cannot hit one (see
     * FolderNeverPrototypeKey); the inner read does when the label is a
     * prototype name that the folder's captions lack.
     */
    function GetImageDescriptionAsWritten(path: string): (r: JsValue)
      reads this
      ensures var folder, imageLabel := FolderPath(path), FileLabel(FileName(path));
        r.PrototypeMember? <==>
          folder in imageDescriptionData && imageLabel !in imageDescriptionData[folder] && imageLabel in ObjectPrototypeKeys
      ensures r.PrototypeMember? ==> r.name == FileLabel(FileName(path))
    {
      var folder, imageLabel := FolderPath(path), FileLabel(FileName(path));
      if folder in imageDescriptionData then
        var captions := imageDescriptionData[folder];
        if imageLabel in captions && captions[imageLabel] != "" then Str(captions[imageLabel])
        else if imageLabel !in captions && imageLabel in ObjectPrototypeKeys then PrototypeMember(imageLabel)
        else Str(SpacedLabel(imageLabel))
      else
        Str(SpacedLabel(imageLabel))
    }
  }

  /**
   * The two readings agree on every path except those the as-written lookup
   * sends to a prototype member: a present folder without an own caption for
   * a label that is a prototype name.
   */
  lemma AsWrittenAgrees(m: DitoModule, path: string)
    requires var folder, imageLabel := FolderPath(path), FileLabel(FileName(path));
      !(folder in m.imageDescriptionData && imageLabel !in m.imageDescriptionData[folder] && imageLabel in ObjectPrototypeKeys)
    ensures m.GetImageDescriptionAsWritten(path) == Str(m.GetImageDescription(path))
  {
  }

  /** The label is the name up to a "." that no earlier "." precedes. */
  lemma FileLabelAtFirstDot(name: string, i: int)
    requires 0 <= i < |name| && name[i] == '.' && '.' !in name[..i]
    ensures FileLabel(name) == name[..i]
  {
  }

  /** A label with no "_" and no "-" is its own fallback text. */
  lemma SpacedLabelUnchanged(imageLabel: string)
    requires '_' !in imageLabel && '-' !in imageLabel
    ensures SpacedLabel(imageLabel) == imageLabel
  {
  }

  /**
   * How the reader cuts up "constructor.jpg": no folder, label "constructor",
   * shown as is. The path is a parameter fixed by `requires` rather than a
   * literal argument, which would make the verifier unfold the recursive
   * searches character by character.
   */
  lemma ConstructorJpgParts(path: string)
    requires path == "constructor.jpg"
    ensures FolderPath(path) == ""
    ensures FileLabel(FileName(path)) == "constructor"
    ensures SpacedLabel(FileLabel(FileName(path))) == "constructor"
  {
    assert forall i :: 0 <= i < |path| ==> path[i] != '/';
    assert FileName(path) == path;
    assert path[..11] == "constructor";
    assert forall i :: 0 <= i < 11 ==> path[i] != '.' && path[i] != '_' && path[i] != '-';
    FileLabelAtFirstDot(path, 11);
    SpacedLabelUnchanged(path[..11]);
  }

  /**
   * An image "constructor.jpg" at the top level, looked up in a cache that
   * has the top-level folder but no caption for it: the lookup as written
   * returns the inherited `Object.prototype.constructor` instead of the
   * fallback label "constructor". The path is fixed by `requires` for the
   * same reason as in ConstructorJpgParts.
   */
  lemma PrototypeLabelLeaks(m: DitoModule, path: string)
    requires m.imageDescriptionData == map["" := map[]]
    requires path == "constructor.jpg"
    ensures m.GetImageDescriptionAsWritten(path) == PrototypeMember("constructor")
    ensures m.GetImageDescription(path) == "constructor"
  {
    ConstructorJpgParts(path);
    assert "constructor" in ObjectPrototypeKeys;
  }
}
