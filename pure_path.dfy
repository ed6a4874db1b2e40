/**
 * The parts of Python's `pathlib.PurePosixPath` that the caption writer uses:
 * how a path string is parsed into an anchor and components, and the `name`,
 * `parent` and `suffix` derived from them (CPython 3.12 rules).
 */
module PurePath {
  import opened Strings

  /**
   * The anchor of a POSIX path: none for a relative path, "/" for an absolute
   * one, and "//" when it starts with exactly two slashes (POSIX leaves that
   * prefix implementation-defined, so pathlib keeps it).
   */
  function Root(p: string): (root: string)
    ensures root == "" || root == "/" || root == "//"
    ensures root <= p
    ensures root == "" <==> (|p| == 0 || p[0] != '/')
  {
    if |p| == 0 || p[0] != '/' then ""
    else if |p| >= 2 && p[1] == '/' && (|p| == 2 || p[2] != '/') then "//"
    else "/"
  }

  /** The components pathlib keeps: empty ones (repeated slashes) and "." are dropped. */
  function DropEmptyAndDot(parts: seq<string>): (kept: seq<string>)
    ensures forall x :: x in kept <==> x in parts && x != "" && x != "."
    ensures (forall x :: x in parts ==> x != "" && x != ".") ==> kept == parts
    decreases |parts|
  {
    if parts == [] then []
    else
      var rest := DropEmptyAndDot(parts[1..]);
      assert parts == [parts[0]] + parts[1..];
      assert parts[0] in parts && forall x :: x in parts[1..] ==> x in parts;
      if parts[0] == "" || parts[0] == "." then rest else [parts[0]] + rest
  }

  /** The components of `p` after its anchor. */
  function Tail(p: string): (tail: seq<string>)
    ensures forall x :: x in tail ==> x != "" && x != "." && '/' !in x
  {
    DropEmptyAndDot(Split(p[|Root(p)|..], '/'))
  }

  /** `PurePosixPath(p).name`: the last component, or "" when there is none. */
  function Name(p: string): (name: string)
    ensures '/' !in name
    ensures name == "" <==> Tail(p) == []
  {
    var tail := Tail(p);
    if tail == [] then "" else tail[|tail| - 1]
  }

  /** `PurePosixPath(p).parent == PurePosixPath(".")`: a relative path of at most one component. */
  predicate ParentIsDot(p: string)
    ensures '/' !in p ==> ParentIsDot(p)
    ensures ParentIsDot(p) ==> p == "" || p[0] != '/'
  {
    Root(p) == "" && |Tail(p)| <= 1
  }

  /**
   * `PurePosixPath(p).parent.as_posix()` when the parent is not ".": the anchor
   * followed by every component but the last (a bare anchor is its own parent).
   */
  function ParentPosix(p: string): (parent: string)
    requires !ParentIsDot(p)
    ensures parent != ""
    ensures Root(p) <= parent
  {
    var tail := Tail(p);
    Root(p) + Join(if tail == [] then [] else tail[..|tail| - 1], '/')
  }

  /** `PurePosixPath(p).suffix`, from the name: from its last "." on, unless that dot starts or ends it. */
  function Suffix(name: string): (suffix: string)
    ensures suffix == "" || (suffix[0] == '.' && '.' !in suffix[1..] && |suffix| >= 2 && |suffix| < |name|)
    ensures suffix != "" ==> name[|name| - |suffix|..] == suffix
  {
    var i := LastIndexOf(name, '.');
    if 0 < i < |name| - 1 then name[i..] else ""
  }

  /** A "." after the first character, before the last, with no "." after it, starts the suffix. */
  lemma SuffixFound(name: string, i: int)
    requires 0 < i < |name| - 1 && name[i] == '.' && '.' !in name[i + 1..]
    ensures Suffix(name) == name[i..]
  {
    LastIndexOfUnique(name, '.', i);
  }
}
