/** Path strings: the separator handling of MakePathRelativeTo, Path.Combine,
    the extension of a file name, and the split of a relative path into the
    directory segments that the destination tree is indexed by. */
module Paths {

  type Path = string

  /** Path.DirectorySeparatorChar on the Linux host the copier runs on. */
  const Separator: char := '/'

  predicate EndsWithSeparator(p: Path) {
    |p| > 0 && p[|p| - 1] == Separator
  }

  /** `root` with one separator appended when it does not already end with one
      (Program.cs:164-165). */
  function WithTrailingSeparator(root: Path): (r: Path)
    ensures EndsWithSeparator(r)
    ensures |root| <= |r| <= |root| + 1 && r[..|root|] == root
    ensures |r| == |root| <==> EndsWithSeparator(root)
  {
    if EndsWithSeparator(root) then root else root + [Separator]
  }

  lemma WithTrailingSeparatorIdempotent(root: Path)
    ensures WithTrailingSeparator(WithTrailingSeparator(root)) == WithTrailingSeparator(root)
  {
  }

  /** A relative path as Path.GetRelativePath produces it for a file below the
      root: not empty and not starting with a separator. */
  predicate IsRelative(rel: Path) {
    |rel| > 0 && rel[0] != Separator
  }

  /** `path` names an entry strictly below `root`: it begins with the root plus
      a separator and continues with a relative path. Every file of a
      recursive listing of `root` satisfies this. */
  predicate IsUnder(path: Path, root: Path) {
    var r := WithTrailingSeparator(root);
    |r| < |path| && path[..|r|] == r && IsRelative(path[|r|..])
  }

  /** MakePathRelativeTo (Program.cs:162-169) for the case its callers
      guarantee: the path with the separator-terminated root stripped. */
  function MakePathRelativeTo(path: Path, root: Path): (rel: Path)
    requires IsUnder(path, root)
    ensures WithTrailingSeparator(root) + rel == path
    ensures IsRelative(rel)
  {
    path[|WithTrailingSeparator(root)|..]
  }

  /** A root given with or without its trailing separator relativizes alike. */
  lemma {:induction false} MakePathRelativeToIgnoresTrailingSeparator(path: Path, root: Path)
    requires IsUnder(path, root)
    ensures IsUnder(path, WithTrailingSeparator(root))
    ensures MakePathRelativeTo(path, WithTrailingSeparator(root)) == MakePathRelativeTo(path, root)
  {
    WithTrailingSeparatorIdempotent(root);
  }

  /** A sibling directory whose name extends the root's name (`/data/src2`
      next to `/data/src`) is never taken to be under the root. */
  lemma SiblingIsNotUnder(root: Path, c: char, rest: Path)
    requires !EndsWithSeparator(root) && c != Separator
    ensures !IsUnder(root + [c] + rest, root)
  {
    var p := root + [c] + rest;
    assert p[|root|] == c;
  }

  /** Path.Combine(a, b) with two arguments: an empty part yields the other,
      a rooted `b` wins, otherwise one separator joins them. */
  function Combine(a: Path, b: Path): (r: Path)
    ensures b != [] && b[0] != Separator && a != [] ==>
              r == WithTrailingSeparator(a) + b
    ensures b != [] && b[0] == Separator ==> r == b
    ensures b == [] ==> r == a
    ensures a == [] ==> r == b
  {
    if b == [] then a
    else if a == [] then b
    else if b[0] == Separator then b
    else if EndsWithSeparator(a) then a + b
    else a + [Separator] + b
  }

  /** The destination file of the copy loop (Program.cs:126-128): the
      destination root, a separator and the path of the file below the
      source root, with no segment dropped or changed. */
  lemma {:induction false} DestinationPathFidelity(path: Path, srcRoot: Path, destRoot: Path)
    requires IsUnder(path, srcRoot) && destRoot != []
    ensures var dest := Combine(destRoot, MakePathRelativeTo(path, srcRoot));
            dest == WithTrailingSeparator(destRoot) + path[|WithTrailingSeparator(srcRoot)|..]
  {
  }

  /** Two files below the same source root never share a destination. */
  lemma {:induction false} DestinationInjective(p: Path, q: Path, srcRoot: Path, destRoot: Path)
    requires IsUnder(p, srcRoot) && IsUnder(q, srcRoot) && destRoot != []
    requires Combine(destRoot, MakePathRelativeTo(p, srcRoot))
          == Combine(destRoot, MakePathRelativeTo(q, srcRoot))
    ensures p == q
  {
    var r := WithTrailingSeparator(srcRoot);
    var d := WithTrailingSeparator(destRoot);
    var rp, rq := MakePathRelativeTo(p, srcRoot), MakePathRelativeTo(q, srcRoot);
    assert d + rp == d + rq;
    assert rp == (d + rp)[|d|..];
    assert rq == (d + rq)[|d|..];
    calc {
      p;
      r + rp;
      r + rq;
      q;
    }
  }

  // ---------------------------------------------------------------------
  // File name and extension

  /** Index just past the last separator of `p` (0 when there is none). */
  function NameStart(p: Path): (i: nat)
    ensures i <= |p|
    ensures i > 0 ==> p[i - 1] == Separator
    ensures forall j :: i <= j < |p| ==> p[j] != Separator
  {
    if p == [] then 0
    else if p[|p| - 1] == Separator then |p|
    else NameStart(p[..|p| - 1])
  }

  /** The final segment of a path: the file name. */
  function FileName(p: Path): Path {
    p[NameStart(p)..]
  }

  /** FileSystemInfo.Extension: from the last '.' of the file name to the end,
      or empty when the file name has no '.'. */
  function Extension(p: Path): (e: Path)
    ensures |e| <= |p|
    ensures e != [] ==> e[0] == '.' && Separator !in e
  {
    if p == [] || p[|p| - 1] == Separator then []
    else if p[|p| - 1] == '.' then "."
    else
      var e := Extension(p[..|p| - 1]);
      if e == [] then [] else e + [p[|p| - 1]]
  }

  /** The extension is empty exactly when the file name has no '.', and
      otherwise the part of the file name from its last '.' on. */
  lemma {:induction false} ExtensionIsLastDotSuffix(p: Path)
    ensures var e := Extension(p);
            (e == [] <==> '.' !in FileName(p)) &&
            (e != [] ==> e[0] == '.' && '.' !in e[1..]) &&
            (e != [] ==> |e| <= |FileName(p)| && e == FileName(p)[|FileName(p)| - |e|..])
  {
    if p == [] || p[|p| - 1] == Separator {
      assert FileName(p) == [];
    } else {
      var q := p[..|p| - 1];
      var c := p[|p| - 1];
      var name := FileName(q);
      var full := FileName(p);
      FileNameExtends(p);
      assert full == name + [c];
      if c == '.' {
        assert full[|full| - 1..] == [c];
      } else {
        ExtensionIsLastDotSuffix(q);
        var e := Extension(q);
        if e != [] {
          ExtendedSuffix(name, e, c);
        }
      }
    }
  }

  /** One more character after the last '.' extends the suffix from that '.'. */
  lemma ExtendedSuffix(name: Path, e: Path, c: char)
    requires e != [] && |e| <= |name| && e == name[|name| - |e|..]
    ensures var full := name + [c];
            (e + [c])[1..] == e[1..] + [c] &&
            full[|full| - |e| - 1..] == e + [c]
  {
    var full := name + [c];
    assert full[|full| - |e| - 1..] == name[|name| - |e|..] + [c];
  }

  /** A name ending in '.' and a dot-free suffix has that suffix, with its
      dot, as extension. */
  lemma {:induction false} ExtensionOfSuffix(stem: Path, ext: Path)
    requires '.' !in ext && Separator !in ext
    ensures Extension(stem + "." + ext) == "." + ext
  {
    var p := stem + "." + ext;
    if ext != [] {
      var e' := ext[..|ext| - 1];
      assert p[..|p| - 1] == stem + "." + e';
      assert p[|p| - 1] == ext[|ext| - 1];
      ExtensionOfSuffix(stem, e');
      assert "." + e' + [ext[|ext| - 1]] == "." + ext;
    }
  }

  /** A file name grows with each character after the last separator. */
  lemma FileNameExtends(p: Path)
    requires p != [] && p[|p| - 1] != Separator
    ensures FileName(p) == FileName(p[..|p| - 1]) + [p[|p| - 1]]
  {
    assert NameStart(p) == NameStart(p[..|p| - 1]);
  }

  /** NameStart is the one index that follows a separator (or is 0) and has
      no separator after it. */
  lemma NameStartUnique(p: Path, i: nat)
    requires i <= |p| && (i == 0 || p[i - 1] == Separator)
    requires forall k :: i <= k < |p| ==> p[k] != Separator
    ensures NameStart(p) == i
  {
  }

  /** The file name is read after the last separator, so dropping a prefix
      that ends with a separator keeps it. */
  lemma FileNameAfter(p: Path, j: nat)
    requires 0 < j <= |p| && p[j - 1] == Separator
    ensures FileName(p[j..]) == FileName(p)
  {
    var n := NameStart(p);
    assert j <= n;
    NameStartUnique(p[j..], n - j);
    assert p[j..][n - j..] == p[n..];
  }

  // ---------------------------------------------------------------------
  // Segments

  /** The directory segments of a relative path, separators removed; empty
      segments are kept so that Join undoes Split exactly. */
  function Split(s: Path): (segs: seq<Path>)
    ensures |segs| >= 1
    ensures forall k :: 0 <= k < |segs| ==> Separator !in segs[k]
    decreases |s|
  {
    if Separator !in s then [s]
    else
      var i := FirstSeparator(s);
      [s[..i]] + Split(s[i + 1..])
  }

  function FirstSeparator(s: Path): (i: nat)
    requires Separator in s
    ensures i < |s| && s[i] == Separator && Separator !in s[..i]
  {
    if s[0] == Separator then 0 else 1 + FirstSeparator(s[1..])
  }

  /** The segments written back with one separator between neighbours. */
  function Join(segs: seq<Path>): Path
    requires |segs| >= 1
  {
    if |segs| == 1 then segs[0] else segs[0] + [Separator] + Join(segs[1..])
  }

  lemma {:induction false} JoinSplit(s: Path)
    ensures Join(Split(s)) == s
    decreases |s|
  {
    if Separator in s {
      var i := FirstSeparator(s);
      JoinSplit(s[i + 1..]);
      assert Split(s)[1..] == Split(s[i + 1..]);
      assert s == s[..i] + [Separator] + s[i + 1..];
    }
  }

  lemma {:induction false} SplitJoin(segs: seq<Path>)
    requires |segs| >= 1
    requires forall k :: 0 <= k < |segs| ==> Separator !in segs[k]
    ensures Split(Join(segs)) == segs
  {
    if |segs| > 1 {
      var h, rest := segs[0], segs[1..];
      assert forall k :: 0 <= k < |rest| ==> Separator !in rest[k] by {
        forall k | 0 <= k < |rest| ensures Separator !in rest[k] {
          assert rest[k] == segs[k + 1];
        }
      }
      var t := Join(rest);
      var s := Join(segs);
      assert s == h + [Separator] + t;
      assert s[..|h|] == h && s[|h|] == Separator && s[|h| + 1..] == t;
      FirstSeparatorAt(s, |h|);
      SplitJoin(rest);
      assert Split(s) == [h] + Split(t);
      assert [h] + rest == segs;
    }
  }

  lemma {:induction false} FirstSeparatorAt(s: Path, i: nat)
    requires i < |s| && s[i] == Separator && Separator !in s[..i]
    ensures FirstSeparator(s) == i
  {
    if i > 0 {
      assert s[0] == s[..i][0];
      assert s[1..][..i - 1] == s[1..i];
      assert forall k :: 0 <= k < i - 1 ==> s[1..i][k] == s[..i][k + 1];
      FirstSeparatorAt(s[1..], i - 1);
    }
  }

  /** Relativizing a path keeps its file name. */
  lemma RelativeKeepsFileName(path: Path, root: Path)
    requires IsUnder(path, root)
    ensures FileName(MakePathRelativeTo(path, root)) == FileName(path)
  {
    FileNameAfter(path, |WithTrailingSeparator(root)|);
  }

  /** The last segment of a relative path is its file name. */
  lemma {:induction false} LastSegmentIsFileName(s: Path)
    ensures Split(s)[|Split(s)| - 1] == FileName(s)
    decreases |s|
  {
    if Separator !in s {
      SingleSegmentIsFileName(s);
    } else {
      var i := FirstSeparator(s);
      LastSegmentIsFileName(s[i + 1..]);
      SplitLastAfterSeparator(s, i);
      FileNameAfter(s, i + 1);
    }
  }

  /** A path without separators is one segment, its own file name. */
  lemma SingleSegmentIsFileName(s: Path)
    requires Separator !in s
    ensures Split(s) == [s] && FileName(s) == s
  {
    NameStartUnique(s, 0);
  }

  /** The segments after the first separator end in the same segment. */
  lemma SplitLastAfterSeparator(s: Path, i: nat)
    requires Separator in s && i == FirstSeparator(s)
    ensures var u, t := Split(s), Split(s[i + 1..]); u[|u| - 1] == t[|t| - 1]
  {
    var t := Split(s[i + 1..]);
    var u := Split(s);
    assert u == [s[..i]] + t;
    LastOfAppend([s[..i]], t);
  }

  lemma LastOfAppend(a: seq<Path>, t: seq<Path>)
    requires |t| >= 1
    ensures (a + t)[|a + t| - 1] == t[|t| - 1]
  {
  }

  /** Distinct relative paths have distinct segment sequences. */
  lemma SplitInjective(a: Path, b: Path)
    requires Split(a) == Split(b)
    ensures a == b
  {
    JoinSplit(a);
    JoinSplit(b);
  }
}
