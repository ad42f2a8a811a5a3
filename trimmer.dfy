/** TrimEmptyDirs (Program.cs:52-85): a post-order pass over the destination
    tree. Every subdirectory is trimmed first; then a `.DS_Store` file, if the
    directory has one, is deleted; a directory left with no file and no
    subdirectory is deleted, and a failure to delete it is caught and leaves it
    in place. A failure to delete `.DS_Store` is not caught: it ends the pass. */
module Trimmer {
  import opened Common
  import opened DestTree

  /** The ignorable macOS metadata file (Program.cs:61). */
  const DsStore: string := ".DS_Store"

  /** What the filesystem refuses, by directory path below the trimmed root:
      directories whose deletion throws (a race with another writer,
      permissions), and directories whose `.DS_Store` cannot be deleted. */
  datatype TrimFaults = TrimFaults(undeletable: set<SegPath>, dsStoreStuck: set<SegPath>)

  const NoTrimFaults: TrimFaults := TrimFaults({}, {})

  /** What becomes of a directory: deleted, kept with what is left of it, or
      the pass ended by an exception inside it. */
  datatype Trimmed = Removed | Kept(dir: Dir) | Aborted

  /** The pass over directory `d`, found at path `at` below the trimmed root:
      its subdirectories first, then the directory itself. An exception from
      a subdirectory passes through. */
  function Trim(d: Dir, at: SegPath, o: TrimFaults): (r: Trimmed)
    ensures r.Kept? ==> r.dir.files == d.files - {DsStore} && r.dir.subdirs.Keys <= d.subdirs.Keys
    ensures r == Removed ==> at !in o.undeletable
    decreases d, 1
  {
    var children := Children(d, at, o);
    if AnyAborted(children) then Aborted
    else Settle(d.files, at, o, Remaining(children))
  }

  /** What the pass makes of each subdirectory. */
  function Children(d: Dir, at: SegPath, o: TrimFaults): (c: map<string, Trimmed>)
    ensures c.Keys == d.subdirs.Keys
    decreases d, 0
  {
    map k | k in d.subdirs :: Trim(d.subdirs[k], at + [k], o)
  }

  predicate AnyAborted(children: map<string, Trimmed>) {
    exists k :: k in children && children[k].Aborted?
  }

  /** The subdirectories still present after their own pass. */
  function Remaining(children: map<string, Trimmed>): (r: map<string, Dir>)
    ensures forall k :: k in r <==> k in children && children[k].Kept?
  {
    map k | k in children && children[k].Kept? :: children[k].dir
  }

  /** The directory's own step, once its subdirectories are done: the
      `.DS_Store` is deleted, and a directory then empty is deleted unless the
      deletion fails. */
  function Settle(files: map<string, Bytes>, at: SegPath, o: TrimFaults, subdirs: map<string, Dir>): (r: Trimmed)
    ensures r.Kept? ==> r.dir.files == files - {DsStore}
    ensures r.Kept? ==> r.dir.subdirs == subdirs
    ensures r == Removed ==> at !in o.undeletable
  {
    if DsStore in files && at in o.dsStoreStuck then Aborted
    else
      var left := files - {DsStore};
      if left != map[] || subdirs != map[] then Kept(Dir(left, subdirs))
      else if at in o.undeletable then Kept(EmptyDir)
      else Removed
  }

  /** The procedure itself: the subdirectories one at a time, then the
      directory's own `.DS_Store`, then the directory. It computes Trim. */
  method TrimEmptyDirs(d: Dir, at: SegPath, o: TrimFaults) returns (r: Trimmed)
    ensures r == Trim(d, at, o)
    decreases d
  {
    ghost var children := Children(d, at, o);
    var pending := d.subdirs.Keys;
    var remaining: map<string, Dir> := map[];
    while pending != {}
      invariant pending <= d.subdirs.Keys
      invariant forall k :: k in children && k !in pending ==> !children[k].Aborted?
      invariant forall k :: k in remaining <==> k in children && k !in pending && children[k].Kept?
      invariant forall k :: k in remaining ==> remaining[k] == children[k].dir
      decreases pending
    {
      var k :| k in pending;
      var child := TrimEmptyDirs(d.subdirs[k], at + [k], o);
      assert child == children[k];
      if child.Aborted? {
        return Aborted;
      }
      if child.Kept? {
        remaining := remaining[k := child.dir];
      }
      pending := pending - {k};
    }
    assert remaining == Remaining(children);
    r := SettleDir(d.files, at, o, remaining);
  }

  /** The directory's own step (Program.cs:59-84). */
  method SettleDir(files: map<string, Bytes>, at: SegPath, o: TrimFaults, subdirs: map<string, Dir>) returns (r: Trimmed)
    ensures r == Settle(files, at, o, subdirs)
  {
    var left := files;
    if DsStore in left {
      if at in o.dsStoreStuck {
        return Aborted;
      }
      left := left - {DsStore};
    }
    assert left == files - {DsStore};
    if left != map[] || subdirs != map[] {
      return Kept(Dir(left, subdirs));
    }
    if at in o.undeletable {
      return Kept(EmptyDir);
    }
    return Removed;
  }

  // ---------------------------------------------------------------------
  // Reference descriptions of the outcome

  /** Some file other than `.DS_Store` lies in the tree, at any depth. */
  predicate HasRealFile(d: Dir)
    decreases d
  {
    (exists f :: f in d.files && f != DsStore) ||
    (exists k :: k in d.subdirs && HasRealFile(d.subdirs[k]))
  }

  /** Some directory of the tree holds a `.DS_Store` that cannot be deleted. */
  predicate HasStuckDsStore(d: Dir, at: SegPath, o: TrimFaults)
    decreases d
  {
    (DsStore in d.files && at in o.dsStoreStuck) ||
    (exists k :: k in d.subdirs && HasStuckDsStore(d.subdirs[k], at + [k], o))
  }

  /** Some directory of the tree, the tree's own top included, cannot be
      deleted. */
  predicate HasUndeletable(d: Dir, at: SegPath, o: TrimFaults)
    decreases d
  {
    at in o.undeletable ||
    (exists k :: k in d.subdirs && HasUndeletable(d.subdirs[k], at + [k], o))
  }

  /** Without a `.DS_Store` that cannot be deleted, nothing is stuck. */
  lemma {:induction false} NothingStuck(d: Dir, at: SegPath, o: TrimFaults)
    requires o.dsStoreStuck == {}
    ensures !HasStuckDsStore(d, at, o)
    decreases d
  {
    forall k | k in d.subdirs ensures !HasStuckDsStore(d.subdirs[k], at + [k], o) {
      NothingStuck(d.subdirs[k], at + [k], o);
    }
  }

  /** The pass ends in an exception exactly when some `.DS_Store` of the tree
      cannot be deleted. */
  lemma {:induction false} TrimAbortsIff(d: Dir, at: SegPath, o: TrimFaults)
    ensures Trim(d, at, o).Aborted? <==> HasStuckDsStore(d, at, o)
    decreases d
  {
    var children := Children(d, at, o);
    forall k | k in d.subdirs ensures children[k].Aborted? <==> HasStuckDsStore(d.subdirs[k], at + [k], o) {
      TrimAbortsIff(d.subdirs[k], at + [k], o);
    }
  }

  /** A directory is deleted exactly when, with the pass not aborted, its
      whole tree holds no file but `.DS_Store` files and no directory of it
      refuses deletion. */
  lemma {:induction false} TrimRemovesIff(d: Dir, at: SegPath, o: TrimFaults)
    ensures Trim(d, at, o) == Removed <==>
              !HasStuckDsStore(d, at, o) && !HasRealFile(d) && !HasUndeletable(d, at, o)
    decreases d
  {
    TrimAbortsIff(d, at, o);
    var children := Children(d, at, o);
    forall k | k in d.subdirs
      ensures children[k] == Removed <==>
                !HasStuckDsStore(d.subdirs[k], at + [k], o) && !HasRealFile(d.subdirs[k]) &&
                !HasUndeletable(d.subdirs[k], at + [k], o)
    {
      TrimRemovesIff(d.subdirs[k], at + [k], o);
    }
    if !HasStuckDsStore(d, at, o) {
      assert !AnyAborted(children);
      SettleRemovesIff(d, at, o);
    }
  }

  /** The directory's own step deletes it exactly when no real file is left
      at its level, no subdirectory is left, and its deletion succeeds. */
  lemma SettleRemovesIff(d: Dir, at: SegPath, o: TrimFaults)
    requires !(DsStore in d.files && at in o.dsStoreStuck)
    requires forall k :: k in d.subdirs ==> !Children(d, at, o)[k].Aborted?
    ensures Settle(d.files, at, o, Remaining(Children(d, at, o))) == Removed <==>
              (forall f :: f in d.files ==> f == DsStore) &&
              (forall k :: k in d.subdirs ==> Children(d, at, o)[k] == Removed) &&
              at !in o.undeletable
  {
    var children := Children(d, at, o);
    var left := d.files - {DsStore};
    var subdirs := Remaining(children);
    if exists f :: f in d.files && f != DsStore {
      var f :| f in d.files && f != DsStore;
      assert f in left;
    }
    if exists k :: k in d.subdirs && children[k] != Removed {
      var k :| k in d.subdirs && children[k] != Removed;
      assert k in subdirs;
    }
    if left != map[] {
      var f :| f in left;
      assert f in d.files && f != DsStore;
    }
    if subdirs != map[] {
      var k :| k in subdirs;
      assert children[k] != Removed;
    }
  }

  /** The path names a `.DS_Store` file. */
  predicate IsDsStorePath(q: SegPath) {
    |q| > 0 && q[|q| - 1] == DsStore
  }

  /** A kept tree holds exactly the files it held before except the
      `.DS_Store` files, which are all gone: no other file is ever deleted or
      changed. */
  lemma {:induction false} TrimKeepsRealFiles(d: Dir, at: SegPath, o: TrimFaults)
    requires Trim(d, at, o).Kept?
    ensures forall q :: Lookup(Trim(d, at, o).dir, q) ==
                        if IsDsStorePath(q) then None else Lookup(d, q)
    decreases d
  {
    var children := Children(d, at, o);
    var left := d.files - {DsStore};
    var subdirs := Remaining(children);
    var d' := Trim(d, at, o).dir;
    forall q ensures Lookup(d', q) == if IsDsStorePath(q) then None else Lookup(d, q) {
      if |q| == 1 {
        assert IsDsStorePath(q) <==> q[0] == DsStore;
        if d' == EmptyDir {
          assert q[0] !in left;
        }
      } else if |q| > 1 {
        assert IsDsStorePath(q) <==> IsDsStorePath(q[1..]);
        var k := q[0];
        if d' == EmptyDir {
          assert k !in subdirs;
          if k in d.subdirs {
            DroppedChildHoldsNoRealFile(d, at, o, k, q[1..]);
          }
        } else if k in d.subdirs {
          if children[k].Kept? {
            TrimKeepsRealFiles(d.subdirs[k], at + [k], o);
          } else {
            DroppedChildHoldsNoRealFile(d, at, o, k, q[1..]);
          }
        }
      }
    }
  }

  /** A subdirectory the pass deleted held no file but `.DS_Store` files. */
  lemma DroppedChildHoldsNoRealFile(d: Dir, at: SegPath, o: TrimFaults, k: string, q: SegPath)
    requires k in d.subdirs && Children(d, at, o)[k] == Removed
    ensures Lookup(d.subdirs[k], q).Some? ==> IsDsStorePath(q)
  {
    TrimRemovesIff(d.subdirs[k], at + [k], o);
    NoRealFileLookup(d.subdirs[k], q);
  }

  /** In a tree without real files, every file is a `.DS_Store`. */
  lemma {:induction false} NoRealFileLookup(d: Dir, q: SegPath)
    requires !HasRealFile(d)
    ensures Lookup(d, q).Some? ==> IsDsStorePath(q)
    decreases d
  {
    if |q| > 1 && q[0] in d.subdirs {
      NoRealFileLookup(d.subdirs[q[0]], q[1..]);
      assert IsDsStorePath(q) <==> IsDsStorePath(q[1..]);
    }
  }

  /** A file other than `.DS_Store` anywhere in the tree is a real file. */
  lemma {:induction false} RealFileFound(d: Dir, q: SegPath)
    requires HasFile(d, q) && !IsDsStorePath(q)
    ensures HasRealFile(d)
    decreases d
  {
    if |q| == 1 {
      assert q[0] in d.files && q[0] != DsStore;
    } else {
      assert IsDsStorePath(q) <==> IsDsStorePath(q[1..]);
      RealFileFound(d.subdirs[q[0]], q[1..]);
    }
  }

  /** The pass deletes and never creates: every directory of the kept tree
      was there before. */
  lemma {:induction false} TrimOnlyDeletes(d: Dir, at: SegPath, o: TrimFaults)
    requires Trim(d, at, o).Kept?
    ensures forall q :: HasDir(Trim(d, at, o).dir, q) ==> HasDir(d, q)
    decreases d
  {
    var children := Children(d, at, o);
    var d' := Trim(d, at, o).dir;
    forall q | HasDir(d', q) ensures HasDir(d, q) {
      if q != [] {
        var k := q[0];
        assert children[k].Kept? && d'.subdirs[k] == children[k].dir;
        TrimOnlyDeletes(d.subdirs[k], at + [k], o);
      }
    }
  }

  /** A directory whose deletion fails stays, with all its ancestors, unless
      the pass aborts. */
  lemma {:induction false} UndeletableDirStays(d: Dir, at: SegPath, o: TrimFaults, q: SegPath)
    requires HasDir(d, q) && at + q in o.undeletable && !Trim(d, at, o).Aborted?
    ensures Trim(d, at, o).Kept? && HasDir(Trim(d, at, o).dir, q)
    decreases |q|
  {
    var children := Children(d, at, o);
    if q == [] {
      assert at + q == at;
    } else {
      var k := q[0];
      assert (at + [k]) + q[1..] == at + q;
      assert !children[k].Aborted?;
      UndeletableDirStays(d.subdirs[k], at + [k], o, q[1..]);
      assert k in Remaining(children);
    }
  }

  /** Trimming a trimmed tree again, with the filesystem refusing the same
      things, changes nothing. */
  lemma {:induction false} TrimIdempotent(d: Dir, at: SegPath, o: TrimFaults)
    requires Trim(d, at, o).Kept?
    ensures Trim(Trim(d, at, o).dir, at, o) == Trim(d, at, o)
    decreases d
  {
    var children := Children(d, at, o);
    var subdirs := Remaining(children);
    var d' := Trim(d, at, o).dir;
    forall k | k in subdirs ensures Trim(subdirs[k], at + [k], o) == Kept(subdirs[k]) {
      TrimIdempotent(d.subdirs[k], at + [k], o);
    }
    var children' := Children(d', at, o);
    assert d'.subdirs == subdirs;
    assert forall k :: k in children' ==> children'[k] == Kept(subdirs[k]);
    assert Remaining(children') == d'.subdirs;
    assert d'.files - {DsStore} == d'.files;
  }

  // ---------------------------------------------------------------------
  // The pass applied to the destination root

  /** As written (Program.cs:41): the destination root is trimmed like any
      other directory, so a destination left with nothing in it is deleted. */
  function TrimDestinationAsWritten(d: Dir, o: TrimFaults): (r: Trimmed)
    ensures r == Removed <==>
              !HasStuckDsStore(d, [], o) && !HasRealFile(d) && !HasUndeletable(d, [], o)
  {
    TrimRemovesIff(d, [], o);
    Trim(d, [], o)
  }

  /** An empty destination root is itself deleted by the pass as written. */
  lemma EmptyDestinationRemovedAsWritten()
    ensures TrimDestinationAsWritten(EmptyDir, NoTrimFaults) == Removed
  {
    assert !HasRealFile(EmptyDir);
  }

  /** The faults with the destination root's deletion refused. */
  function KeepRoot(o: TrimFaults): (o': TrimFaults)
    ensures [] in o'.undeletable && o'.dsStoreStuck == o.dsStoreStuck
    ensures forall q :: |q| > 0 ==> (q in o'.undeletable <==> q in o.undeletable)
  {
    o.(undeletable := o.undeletable + {[]})
  }

  /** The destination root is trimmed but never deleted; everything below it
      is trimmed as written. */
  function TrimDestination(d: Dir, o: TrimFaults): (r: Trimmed)
    ensures r != Removed
  {
    Trim(d, [], KeepRoot(o))
  }

  /** The corrected pass aborts exactly when the pass as written does, and
      otherwise keeps the destination root. */
  lemma TrimDestinationKeepsRoot(d: Dir, o: TrimFaults)
    ensures TrimDestination(d, o) != Removed
    ensures TrimDestination(d, o).Aborted? <==> TrimDestinationAsWritten(d, o).Aborted?
  {
    TrimAbortsIff(d, [], KeepRoot(o));
    TrimAbortsIff(d, [], o);
    StuckIgnoresUndeletable(d, [], o, KeepRoot(o));
    if !TrimDestination(d, o).Aborted? {
      var root: SegPath := [];
      assert root + root == root;
      UndeletableDirStays(d, [], KeepRoot(o), []);
    }
  }

  lemma {:induction false} StuckIgnoresUndeletable(d: Dir, at: SegPath, o: TrimFaults, o': TrimFaults)
    requires o.dsStoreStuck == o'.dsStoreStuck
    ensures HasStuckDsStore(d, at, o) == HasStuckDsStore(d, at, o')
    decreases d
  {
    forall k | k in d.subdirs ensures HasStuckDsStore(d.subdirs[k], at + [k], o) == HasStuckDsStore(d.subdirs[k], at + [k], o') {
      StuckIgnoresUndeletable(d.subdirs[k], at + [k], o, o');
    }
  }

  /** Below the root, the corrected pass does exactly what the pass as
      written does. */
  lemma TrimDestinationAgreesBelowRoot(d: Dir, o: TrimFaults, k: string)
    requires k in d.subdirs
    ensures Children(d, [], KeepRoot(o))[k] == Children(d, [], o)[k]
  {
    var root: SegPath := [];
    assert root + [k] == [k];
    TrimIgnoresOtherFaults(d.subdirs[k], [k], o, KeepRoot(o));
  }

  /** The pass over a subtree reads only the faults of paths in that subtree. */
  lemma {:induction false} TrimIgnoresOtherFaults(d: Dir, at: SegPath, o: TrimFaults, o': TrimFaults)
    requires |at| > 0 && o.dsStoreStuck == o'.dsStoreStuck
    requires forall q :: |q| > 0 ==> (q in o.undeletable <==> q in o'.undeletable)
    ensures Trim(d, at, o) == Trim(d, at, o')
    decreases d
  {
    forall k | k in d.subdirs ensures Trim(d.subdirs[k], at + [k], o) == Trim(d.subdirs[k], at + [k], o') {
      TrimIgnoresOtherFaults(d.subdirs[k], at + [k], o, o');
    }
    assert Children(d, at, o) == Children(d, at, o');
  }

  // ---------------------------------------------------------------------
  // The two trees of the bottom-up example

  /** A/B holding only `.DS_Store`: B is deleted, then A, which B's deletion
      left empty. */
  lemma DsStoreOnlyTreeRemoved()
    ensures var b := Dir(map[DsStore := ""], map[]);
            var a := Dir(map[], map["B" := b]);
            Trim(b, ["A", "B"], NoTrimFaults) == Removed &&
            Trim(a, ["A"], NoTrimFaults) == Removed
  {
    var b := Dir(map[DsStore := ""], map[]);
    var a := Dir(map[], map["B" := b]);
    assert !HasRealFile(b) by {
      assert b.files.Keys == {DsStore};
    }
    assert !HasRealFile(a) by {
      assert a.subdirs.Keys == {"B"};
    }
    assert !HasUndeletable(a, ["A"], NoTrimFaults) by {
      assert ["A"] + ["B"] == ["A", "B"];
      assert !HasUndeletable(b, ["A", "B"], NoTrimFaults);
    }
    assert !HasStuckDsStore(a, ["A"], NoTrimFaults) by {
      assert ["A"] + ["B"] == ["A", "B"];
      assert !HasStuckDsStore(b, ["A", "B"], NoTrimFaults);
    }
    TrimRemovesIff(b, ["A", "B"], NoTrimFaults);
    TrimRemovesIff(a, ["A"], NoTrimFaults);
  }

  /** A/B/real.pdf next to an empty A/C: only C is deleted. */
  lemma OnlyEmptySiblingRemoved()
    ensures var b := Dir(map["real.pdf" := "x"], map[]);
            var a := Dir(map[], map["B" := b, "C" := EmptyDir]);
            Trim(a, ["A"], NoTrimFaults) == Kept(Dir(map[], map["B" := b]))
  {
    var b := Dir(map["real.pdf" := "x"], map[]);
    var a := Dir(map[], map["B" := b, "C" := EmptyDir]);
    assert ["A"] + ["B"] == ["A", "B"] && ["A"] + ["C"] == ["A", "C"];
    assert Trim(b, ["A", "B"], NoTrimFaults) == Kept(b) by {
      assert Children(b, ["A", "B"], NoTrimFaults) == map[];
      assert Remaining(map[]) == map[];
      assert "real.pdf" in b.files - {DsStore};
      assert b.files - {DsStore} == b.files;
    }
    assert Trim(EmptyDir, ["A", "C"], NoTrimFaults) == Removed by {
      assert Children(EmptyDir, ["A", "C"], NoTrimFaults) == map[];
    }
    var children := Children(a, ["A"], NoTrimFaults);
    assert children == map["B" := Kept(b), "C" := Removed];
    assert Remaining(children) == map["B" := b];
  }
}
