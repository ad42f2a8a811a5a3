/** The destination directory tree, as far as the copier observes and changes
    it: which files exist (FileInfo.Exists), which directories exist
    (DirectoryInfo.Exists), Directory.CreateDirectory and the addition of one
    copied file (File.Copy without overwrite). Paths are sequences of segments
    below the tree's root. */
module DestTree {
  import opened Common

  /** The content of a file. A copied file holds the bytes of the source file
      it came from, named here by that source file's full name. */
  type Bytes = string

  /** A directory: its files with their contents, and its subdirectories by name. */
  datatype Dir = Dir(files: map<string, Bytes>, subdirs: map<string, Dir>)

  const EmptyDir: Dir := Dir(map[], map[])

  /** A path below a directory, one segment per level. */
  type SegPath = seq<string>

  /** As on a real filesystem, no name in a directory is both a file and a
      subdirectory, at any depth. */
  predicate WellFormed(d: Dir) {
    d.files.Keys !! d.subdirs.Keys &&
    forall k :: k in d.subdirs ==> WellFormed(d.subdirs[k])
  }

  predicate IsPrefix(q: SegPath, p: SegPath) {
    |q| <= |p| && p[..|q|] == q
  }

  /** The parent directory of a non-empty path. */
  function Parent(p: SegPath): (q: SegPath)
    requires |p| > 0
    ensures |q| == |p| - 1 && IsPrefix(q, p)
  {
    p[..|p| - 1]
  }

  /** The content of the file at `p`, or None when no file is there. */
  function Lookup(d: Dir, p: SegPath): Option<Bytes> {
    if p == [] then None
    else if |p| == 1 then (if p[0] in d.files then Some(d.files[p[0]]) else None)
    else if p[0] in d.subdirs then Lookup(d.subdirs[p[0]], p[1..])
    else None
  }

  predicate HasFile(d: Dir, p: SegPath)
    ensures HasFile(d, p) ==> p != []
  {
    Lookup(d, p).Some?
  }

  /** A directory exists at `p`; the root always does. */
  predicate HasDir(d: Dir, p: SegPath) {
    p == [] || (p[0] in d.subdirs && HasDir(d.subdirs[p[0]], p[1..]))
  }

  /** In a well-formed tree no path is both a file and a directory. */
  lemma {:induction false} FileIsNotDir(d: Dir, p: SegPath)
    requires WellFormed(d) && HasFile(d, p)
    ensures !HasDir(d, p)
  {
    if |p| > 1 {
      FileIsNotDir(d.subdirs[p[0]], p[1..]);
    }
  }

  /** A file stands on the path: some leading part of `p`, or all of it, is
      an existing file. */
  predicate Blocked(d: Dir, p: SegPath) {
    exists i :: 0 < i <= |p| && HasFile(d, p[..i])
  }

  /** Directory.CreateDirectory: every missing directory along `p` is
      created; it fails, changing nothing, when a file stands on the path. */
  function CreateDirectory(d: Dir, p: SegPath): (r: Option<Dir>)
    ensures r.Some? ==> HasDir(r.value, p)
    decreases |p|
  {
    if p == [] then Some(d)
    else
      var child :=
        if p[0] in d.subdirs then CreateDirectory(d.subdirs[p[0]], p[1..])
        else if p[0] in d.files then None
        else CreateDirectory(EmptyDir, p[1..]);
      match child
      case None => None
      case Some(c) => Some(d.(subdirs := d.subdirs[p[0] := c]))
  }

  lemma {:induction false} BlockedStep(d: Dir, p: SegPath)
    requires |p| > 0 && p[0] in d.subdirs && p[0] !in d.files
    ensures Blocked(d, p) <==> Blocked(d.subdirs[p[0]], p[1..])
  {
    var c := d.subdirs[p[0]];
    if Blocked(d, p) {
      var i :| 0 < i <= |p| && HasFile(d, p[..i]);
      assert i > 1;
      assert p[..i][1..] == p[1..][..i - 1];
    }
    if Blocked(c, p[1..]) {
      var i :| 0 < i <= |p[1..]| && HasFile(c, p[1..][..i]);
      assert p[..i + 1][1..] == p[1..][..i];
      assert HasFile(d, p[..i + 1]);
    }
  }

  lemma {:induction false} NothingBlocksInEmpty(p: SegPath)
    ensures !Blocked(EmptyDir, p)
  {
  }

  /** Creation fails exactly when a file stands on the path. */
  lemma {:induction false} CreateDirectoryFailsIffBlocked(d: Dir, p: SegPath)
    requires WellFormed(d)
    ensures CreateDirectory(d, p).None? <==> Blocked(d, p)
    decreases |p|
  {
    if p != [] {
      if p[0] in d.subdirs {
        CreateDirectoryFailsIffBlocked(d.subdirs[p[0]], p[1..]);
        BlockedStep(d, p);
      } else if p[0] in d.files {
        assert HasFile(d, p[..1]);
      } else {
        CreateDirectoryFailsIffBlocked(EmptyDir, p[1..]);
        NothingBlocksInEmpty(p[1..]);
        forall i | 0 < i <= |p| ensures !HasFile(d, p[..i]) {
          assert p[..i][0] == p[0];
        }
      }
    } else {
      assert !Blocked(d, p);
    }
  }

  /** A successful creation adds exactly the directories along `p`: no file
      changes, and the tree stays well formed. */
  lemma {:induction false} CreateDirectoryEffect(d: Dir, p: SegPath)
    requires CreateDirectory(d, p).Some?
    ensures var d' := CreateDirectory(d, p).value;
            (WellFormed(d) ==> WellFormed(d')) &&
            (forall q :: Lookup(d', q) == Lookup(d, q)) &&
            (forall q :: HasDir(d', q) <==> HasDir(d, q) || IsPrefix(q, p))
    decreases |p|
  {
    var d' := CreateDirectory(d, p).value;
    if p != [] {
      var c := if p[0] in d.subdirs then d.subdirs[p[0]] else EmptyDir;
      CreateDirectoryEffect(c, p[1..]);
      var c' := CreateDirectory(c, p[1..]).value;
      assert d' == d.(subdirs := d.subdirs[p[0] := c']);
      forall q ensures Lookup(d', q) == Lookup(d, q) {
        if |q| > 1 && q[0] == p[0] {
          assert Lookup(d', q) == Lookup(c', q[1..]);
        }
      }
      forall q ensures HasDir(d', q) <==> HasDir(d, q) || IsPrefix(q, p) {
        if q != [] && q[0] == p[0] {
          assert HasDir(d', q) == HasDir(c', q[1..]);
          assert IsPrefix(q, p) <==> IsPrefix(q[1..], p[1..]);
        }
      }
    }
  }

  /** File.Copy into an existing parent directory: the file at `p` now holds
      `content`. */
  function AddFile(d: Dir, p: SegPath, content: Bytes): (r: Dir)
    ensures Lookup(r, p) == Some(content)
    requires |p| > 0 && HasDir(d, Parent(p))
  {
    if |p| == 1 then d.(files := d.files[p[0] := content])
    else
      assert Parent(p[1..]) == Parent(p)[1..];
      d.(subdirs := d.subdirs[p[0] := AddFile(d.subdirs[p[0]], p[1..], content)])
  }

  /** Adding a file changes the file at `p` and nothing else, creates no
      directory, and keeps the tree well formed when no directory had that
      name. */
  lemma {:induction false} AddFileEffect(d: Dir, p: SegPath, content: Bytes)
    requires |p| > 0 && HasDir(d, Parent(p))
    ensures var d' := AddFile(d, p, content);
            (forall q :: Lookup(d', q) == if q == p then Some(content) else Lookup(d, q)) &&
            (forall q :: HasDir(d', q) <==> HasDir(d, q)) &&
            (WellFormed(d) && !HasDir(d, p) ==> WellFormed(d'))
  {
    var d' := AddFile(d, p, content);
    if |p| > 1 {
      var c := d.subdirs[p[0]];
      assert Parent(p[1..]) == Parent(p)[1..];
      AddFileEffect(c, p[1..], content);
      var c' := AddFile(c, p[1..], content);
      forall q ensures Lookup(d', q) == if q == p then Some(content) else Lookup(d, q) {
        if |q| > 1 && q[0] == p[0] {
          assert Lookup(d', q) == Lookup(c', q[1..]);
          assert q == p <==> q[1..] == p[1..];
        }
      }
      forall q ensures HasDir(d', q) <==> HasDir(d, q) {
        if q != [] && q[0] == p[0] {
          assert HasDir(d', q) == HasDir(c', q[1..]);
        }
      }
    } else {
      assert p[1..] == [];
      if p[0] in d.subdirs {
        assert HasDir(d.subdirs[p[0]], p[1..]);
        assert HasDir(d, p);
      }
      forall q ensures Lookup(d', q) == if q == p then Some(content) else Lookup(d, q) {
        if |q| == 1 {
          assert q == p <==> q[0] == p[0];
        }
      }
      forall q ensures HasDir(d', q) <==> HasDir(d, q) {
        if q != [] {
          assert HasDir(d', q) == (q[0] in d.subdirs && HasDir(d.subdirs[q[0]], q[1..]));
        }
      }
    }
  }
}
