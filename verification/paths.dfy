/** The POSIX path functions the scripts use: `os.path.join`, `basename` and `splitext`. */
module Paths {

  const Sep: char := '/'
  const ExtSep: char := '.'

  /** `s.rfind(c)`: the index of the last `c` in `s`, or -1 when there is none. */
  function LastIndexOf(s: string, c: char): (k: int)
    ensures -1 <= k < |s|
    ensures k >= 0 ==> s[k] == c
    ensures forall j :: k < j < |s| ==> s[j] != c
  {
    if s == [] then -1
    else if s[|s| - 1] == c then |s| - 1
    else LastIndexOf(s[..|s| - 1], c)
  }

  /** `os.path.basename(p)`: what follows the last separator. */
  function Basename(p: string): (name: string)
    ensures Sep !in name
    ensures |name| <= |p| && p[|p| - |name|..] == name
  {
    p[LastIndexOf(p, Sep) + 1..]
  }

  /** What precedes the base name, when anything does, is a separator. */
  lemma BasenameAfterSeparator(p: string)
    ensures |Basename(p)| < |p| ==> p[|p| - |Basename(p)| - 1] == Sep
  {
  }

  /** `os.path.join(a, b)` on POSIX: an absolute `b` replaces `a`; otherwise one separator
      is inserted unless `a` is empty or already ends with one. */
  function Join(a: string, b: string): (p: string)
    ensures |p| >= |b| && p[|p| - |b|..] == b
    ensures |b| > 0 && b[0] == Sep ==> p == b
    ensures !(|b| > 0 && b[0] == Sep) ==> |a| <= |p| && p[..|a|] == a
    ensures !(|b| > 0 && b[0] == Sep) ==>
      |p| == |a| + |b| + (if a == [] || a[|a| - 1] == Sep then 0 else 1)
    ensures !(|b| > 0 && b[0] == Sep) && |p| > |a| + |b| ==> p[|a|] == Sep
  {
    if |b| > 0 && b[0] == Sep then b
    else if a == [] || a[|a| - 1] == Sep then a + b
    else a + [Sep] + b
  }

  /** `os.path.splitext(p)`: split at the last dot of the base name, unless every character
      of the base name before that dot is itself a dot (leading dots do not start an extension). */
  function Splitext(p: string): (parts: (string, string))
    ensures parts.0 + parts.1 == p
    ensures parts.1 != [] ==> parts.1[0] == ExtSep && ExtSep !in parts.1[1..] && Sep !in parts.1
    ensures parts.1 != [] ==>
      exists k :: LastIndexOf(p, Sep) < k < |parts.0| && parts.0[k] != ExtSep
    ensures parts.1 == [] ==>
      forall k :: LastIndexOf(p, Sep) < k < LastIndexOf(p, ExtSep) ==> p[k] == ExtSep
  {
    var sepIndex := LastIndexOf(p, Sep);
    var dotIndex := LastIndexOf(p, ExtSep);
    if dotIndex > sepIndex && exists k :: sepIndex < k < dotIndex && p[k] != ExtSep then
      (p[..dotIndex], p[dotIndex..])
    else
      (p, [])
  }

  /** Joining a directory with a plain file name and taking the base name gives the name back. */
  lemma BasenameJoin(dir: string, name: string)
    requires Sep !in name
    ensures Basename(Join(dir, name)) == name
  {
    var p := Join(dir, name);
    var prefix := if dir == [] || dir[|dir| - 1] == Sep then dir else dir + [Sep];
    assert p == prefix + name;
    forall j | |prefix| <= j < |p| ensures p[j] != Sep {
      assert p[j] == name[j - |prefix|];
    }
    if prefix != [] {
      assert p[|prefix| - 1] == prefix[|prefix| - 1] == Sep;
      LastIndexOfAt(p, Sep, |prefix| - 1);
    }
  }

  /** The last occurrence is unique: a `c` at `k` with none after it is what `rfind` finds. */
  lemma LastIndexOfAt(s: string, c: char, k: int)
    requires 0 <= k < |s| && s[k] == c
    requires forall j :: k < j < |s| ==> s[j] != c
    ensures LastIndexOf(s, c) == k
  {
  }

  lemma SplitextExamples()
    ensures Splitext("clip.MP4") == ("clip", ".MP4")
    ensures Splitext("a.b.mkv") == ("a.b", ".mkv")
  {
    LastIndexOfAt("clip.MP4", '.', 4);
    assert LastIndexOf("clip.MP4", Sep) == -1;
    assert "clip.MP4"[0] != '.';
    assert "clip.MP4"[..4] == "clip" && "clip.MP4"[4..] == ".MP4";
    LastIndexOfAt("a.b.mkv", '.', 3);
    assert LastIndexOf("a.b.mkv", Sep) == -1;
    assert "a.b.mkv"[0] != '.';
    assert "a.b.mkv"[..3] == "a.b" && "a.b.mkv"[3..] == ".mkv";
  }

  /** Leading dots do not start an extension, and a name without a dot has none. */
  lemma SplitextNoExtension()
    ensures Splitext(".mkv") == (".mkv", "")
    ensures Splitext("..avi") == ("..avi", "")
    ensures Splitext("noext") == ("noext", "")
  {
    LastIndexOfAt(".mkv", '.', 0);
    LastIndexOfAt("..avi", '.', 1);
  }
}
