/**
 * Character searches and the split/join/replace operations that the Python
 * writer (`str.find`, `str.rfind`, `str.split`, `"/".join`) and the JavaScript
 * reader (`indexOf`, `lastIndexOf`, `substring`, `replaceAll`) perform on
 * paths and labels.
 */
module Strings {

  /** Index of the first `c` in `s`, or -1 when there is none. */
  function IndexOf(s: string, c: char): (r: int)
    ensures -1 <= r < |s|
    ensures r == -1 <==> c !in s
    ensures r >= 0 ==> s[r] == c && c !in s[..r]
    decreases |s|
  {
    if |s| == 0 then -1
    else if s[0] == c then 0
    else
      var k := IndexOf(s[1..], c);
      assert s == [s[0]] + s[1..];
      if k == -1 then -1
      else
        assert s[..k + 1] == [s[0]] + s[1..][..k];
        k + 1
  }

  /** Index of the last `c` in `s`, or -1 when there is none. */
  function LastIndexOf(s: string, c: char): (r: int)
    ensures -1 <= r < |s|
    ensures r == -1 <==> c !in s
    ensures r >= 0 ==> s[r] == c && c !in s[r + 1..]
    decreases |s|
  {
    if |s| == 0 then -1
    else if s[|s| - 1] == c then |s| - 1
    else
      var k := LastIndexOf(s[..|s| - 1], c);
      assert s == s[..|s| - 1] + [s[|s| - 1]];
      if k == -1 then -1
      else
        assert s[k + 1..] == s[..|s| - 1][k + 1..] + [s[|s| - 1]];
        k
  }

  /** The last occurrence is unique: any `c` with no `c` after it is the one LastIndexOf finds. */
  lemma LastIndexOfUnique(s: string, c: char, i: int)
    requires 0 <= i < |s| && s[i] == c && c !in s[i + 1..]
    ensures LastIndexOf(s, c) == i
  {
    var r := LastIndexOf(s, c);
    assert c in s by { assert s[i] == c; }
    assert forall j :: i < j < |s| ==> s[j] != c by {
      forall j | i < j < |s| ensures s[j] != c { assert s[j] == s[i + 1..][j - i - 1]; }
    }
    assert forall j :: r < j < |s| ==> s[j] != c by {
      forall j | r < j < |s| ensures s[j] != c { assert s[j] == s[r + 1..][j - r - 1]; }
    }
  }

  /** The part of `s` before its first `c`, or all of `s` when it holds no `c`. */
  function BeforeFirst(s: string, c: char): (r: string)
    ensures r <= s
    ensures c !in r
    ensures r == s <==> c !in s
    ensures |r| < |s| ==> s[|r|] == c
  {
    var k := IndexOf(s, c);
    if k == -1 then s else s[..k]
  }

  /** `s` with every `from` replaced by `to`. */
  function ReplaceChar(s: string, from: char, to: char): (r: string)
    ensures |r| == |s|
    ensures forall i :: 0 <= i < |s| ==> r[i] == (if s[i] == from then to else s[i])
    decreases |s|
  {
    if |s| == 0 then ""
    else (if s[0] == from then [to] else [s[0]]) + ReplaceChar(s[1..], from, to)
  }

  /** Glues the parts together with `sep` between consecutive parts. */
  function Join(parts: seq<string>, sep: char): (s: string)
    ensures parts != [] ==> parts[0] <= s && |s| >= |parts| - 1 + |parts[|parts| - 1]|
    decreases |parts|
  {
    if parts == [] then ""
    else if |parts| == 1 then parts[0]
    else Join(parts[..|parts| - 1], sep) + [sep] + parts[|parts| - 1]
  }

  /**
   * Cuts `s` at every `sep`: the pieces hold no separator and joining them
   * with `sep` gives `s` back. There is always at least one piece.
   */
  function Split(s: string, sep: char): (parts: seq<string>)
    ensures |parts| >= 1
    ensures forall part :: part in parts ==> sep !in part
    ensures Join(parts, sep) == s
    decreases |s|
  {
    var k := LastIndexOf(s, sep);
    if k < 0 then [s]
    else
      var init := Split(s[..k], sep);
      var parts := init + [s[k + 1..]];
      assert parts[..|parts| - 1] == init;
      assert s == s[..k] + [sep] + s[k + 1..];
      parts
  }

  /** Joining one more part appends the separator and that part. */
  lemma JoinSnoc(init: seq<string>, last: string, sep: char)
    requires |init| >= 1
    ensures Join(init + [last], sep) == Join(init, sep) + [sep] + last
  {
    assert (init + [last])[..|init|] == init;
  }

  /** Splitting at a last separator splits what comes before it and keeps what follows as the last part. */
  lemma SplitSnoc(head: string, last: string, sep: char)
    requires sep !in last
    ensures Split(head + [sep] + last, sep) == Split(head, sep) + [last]
  {
    var s := head + [sep] + last;
    assert s[|head| + 1..] == last;
    LastIndexOfUnique(s, sep, |head|);
    assert s[..|head|] == head;
  }

  /** Splitting what Join produced gives back the parts, when none holds the separator. */
  lemma {:induction false} SplitJoin(parts: seq<string>, sep: char)
    requires |parts| >= 1
    requires forall part :: part in parts ==> sep !in part
    ensures Split(Join(parts, sep), sep) == parts
    decreases |parts|
  {
    if |parts| > 1 {
      var init, last := parts[..|parts| - 1], parts[|parts| - 1];
      assert parts == init + [last];
      assert forall part :: part in init ==> part in parts;
      SplitJoin(init, sep);
      JoinSnoc(init, last, sep);
      SplitSnoc(Join(init, sep), last, sep);
    }
  }
}
