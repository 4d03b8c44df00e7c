/**
 * The installer's filesystem work: the target filesystem is an object whose
 * root the methods update in place, as the installer deletes, copies and
 * creates entries one at a time.
 */
module Installer {
  import opened Tree
  import opened Exclusions
  import opened Reconcile

  /** The subtree at `p`, or an empty file when there is none (a termination measure). */
  function NodeAt(t: Node, p: Path): Node
  {
    if At(t, p).Some? then At(t, p).value else File("")
  }

  /** The directory at `dir` of `t` with its entries replaced by `entries`. */
  function WithEntries(t: Node, dir: Path, entries: map<string, Node>): Node
    requires IsDirAt(t, dir)
  {
    Put(t, dir, Dir(entries))
  }

  /**
   * One visit of removePreservingExclusions' loop, on the filesystem `t0`
   * whose directory `dir` held `ch` and whose names in `done` are handled.
   */
  lemma PruneVisit(t0: Node, dir: Path, ch: map<string, Node>, done: set<string>, name: string,
                   exclusions: seq<string>, prefix: string)
    requires IsDirAt(t0, dir) && ch == ChildrenAt(t0, dir)
    requires name in ch && name !in done
    ensures var cur := PartialPrune(ch, done, exclusions, prefix);
      var now := WithEntries(t0, dir, cur);
      var next := WithEntries(t0, dir, PartialPrune(ch, done + {name}, exclusions, prefix));
      var key := prefix + name;
      && IsDirAt(now, dir) && ChildrenAt(now, dir) == cur
      && IsDirAt(next, dir)
      && (!Keep(key, exclusions) ==>
            Put(now, dir, Dir(cur - {name})) == next && !IsDirAt(next, dir + [name]))
      && (Keep(key, exclusions) ==>
            (IsDirAt(now, dir + [name]) <==> ch[name].Dir?) && NodeAt(now, dir + [name]) == ch[name])
      && (Keep(key, exclusions) && (key in exclusions || !ch[name].Dir?) ==> now == next)
      && (Keep(key, exclusions) && key !in exclusions && ch[name].Dir? ==>
            ChildrenAt(now, dir + [name]) == ch[name].children
            && Put(now, dir + [name], Dir(PruneEntries(ch[name].children, exclusions, key + "/"))) == next)
  {
    var key := prefix + name;
    var cur := PartialPrune(ch, done, exclusions, prefix);
    var now := WithEntries(t0, dir, cur);
    PartialPruneStep(ch, done, name, exclusions, prefix);
    PutPut(t0, dir, Dir(cur), Dir(cur - {name}));
    AtSnoc(WithEntries(t0, dir, PartialPrune(ch, done + {name}, exclusions, prefix)), dir, name);
    AtSnoc(now, dir, name);
    if Keep(key, exclusions) {
      if key in exclusions || !ch[name].Dir? {
        assert cur[name := ch[name]] == cur;
      } else {
        var pruned := Dir(PruneEntries(ch[name].children, exclusions, key + "/"));
        PutSnoc(now, dir, name, pruned);
        PutPut(t0, dir, Dir(cur), Dir(cur[name := pruned]));
      }
    }
  }

  /** The filesystem `t0` with the source names in `done` merged into its directory `dir`. */
  function Merged(t0: Node, dir: Path, src: map<string, Node>, done: set<string>,
                  exclusions: seq<string>, prefix: string): (r: Node)
    requires IsDirAt(t0, dir)
    ensures IsDirAt(r, dir) && ChildrenAt(r, dir) == PartialMerge(src, ChildrenAt(t0, dir), done, exclusions, prefix)
  {
    WithEntries(t0, dir, PartialMerge(src, ChildrenAt(t0, dir), done, exclusions, prefix))
  }

  /** Skipping an excluded source entry. */
  lemma MergeVisitSkip(t0: Node, dir: Path, src: map<string, Node>, done: set<string>,
                       name: string, exclusions: seq<string>, prefix: string)
    requires IsDirAt(t0, dir)
    requires name in src && prefix + name in exclusions
    ensures Merged(t0, dir, src, done + {name}, exclusions, prefix) == Merged(t0, dir, src, done, exclusions, prefix)
  {
    PartialMergeSkip(src, ChildrenAt(t0, dir), done, name, exclusions, prefix);
  }

  /** Copying a source file over the target entry of the same name. */
  lemma MergeVisitCopy(t0: Node, dir: Path, src: map<string, Node>, done: set<string>,
                       name: string, exclusions: seq<string>, prefix: string)
    requires IsDirAt(t0, dir)
    requires name in src && name !in done && prefix + name !in exclusions && src[name].File?
    ensures var now := Merged(t0, dir, src, done, exclusions, prefix);
      Put(now, dir, Dir(ChildrenAt(now, dir)[name := src[name]])) == Merged(t0, dir, src, done + {name}, exclusions, prefix)
  {
    var cur := PartialMerge(src, ChildrenAt(t0, dir), done, exclusions, prefix);
    PartialMergeStep(src, ChildrenAt(t0, dir), done, name, exclusions, prefix);
    PutPut(t0, dir, Dir(cur), Dir(cur[name := src[name]]));
  }

  /** Merging a source directory into the target directory of the same name. */
  lemma MergeVisitDescend(t0: Node, dir: Path, src: map<string, Node>, done: set<string>,
                          name: string, exclusions: seq<string>, prefix: string)
    requires IsDirAt(t0, dir)
    requires Compatible(src, ChildrenAt(t0, dir), exclusions, prefix)
    requires name in src && name !in done && prefix + name !in exclusions && src[name].Dir?
    ensures var now := Merged(t0, dir, src, done, exclusions, prefix);
      var sub := SubdirEntries(ChildrenAt(t0, dir), name);
      && CanMkdir(now, dir + [name])
      && ChildrenAt(Mkdir(now, dir + [name]), dir + [name]) == sub
      && Compatible(src[name].children, sub, exclusions, prefix + name + "/")
      && WithEntries(Mkdir(now, dir + [name]), dir + [name],
                     MergeEntries(src[name].children, sub, exclusions, prefix + name + "/"))
         == Merged(t0, dir, src, done + {name}, exclusions, prefix)
  {
    var tgt := ChildrenAt(t0, dir);
    var key := prefix + name;
    var cur := PartialMerge(src, tgt, done, exclusions, prefix);
    var now := Merged(t0, dir, src, done, exclusions, prefix);
    PartialMergeStep(src, tgt, done, name, exclusions, prefix);
    var merged := MergeChild(src[name], tgt, name, exclusions, key);
    PutPut(t0, dir, Dir(cur), Dir(cur[name := merged]));
    MkdirSnoc(now, dir, name, merged);
  }

  class Filesystem {
    var root: Node

    constructor (root: Node)
      requires root.Dir?
      ensures this.root == root
    {
      this.root := root;
    }

    /**
     * removePreservingExclusions: iterates over the directory at `dir`,
     * deleting each entry array_item_begins_with does not keep, and descends
     * into each remaining directory whose key is not an exclusion. A path
     * that is not a directory makes the iterator fail: ok is false and
     * nothing changes. The order of the listing is not fixed; the result
     * does not depend on it.
     */
    method RemovePreservingExclusions(dir: Path, exclusions: seq<string>, prefix: string) returns (ok: bool)
      modifies this
      ensures ok <==> IsDirAt(old(root), dir)
      ensures ok ==> root == WithEntries(old(root), dir, PruneEntries(ChildrenAt(old(root), dir), exclusions, prefix))
      ensures !ok ==> root == old(root)
      decreases NodeAt(root, dir)
    {
      if !IsDirAt(root, dir) {
        return false;
      }
      ghost var t0 := root;
      var ch0 := ChildrenAt(root, dir);
      var todo := ch0.Keys;
      ghost var done: set<string> := {};
      PartialPruneStart(ch0, exclusions, prefix);
      PutSame(t0, dir);
      while todo != {}
        invariant todo <= ch0.Keys && done == ch0.Keys - todo
        invariant root == WithEntries(t0, dir, PartialPrune(ch0, done, exclusions, prefix))
        decreases |todo|
      {
        var name :| name in todo;
        var searchFor := prefix + name;
        PruneVisit(t0, dir, ch0, done, name, exclusions, prefix);
        var keep := ArrayItemBeginsWith(searchFor, exclusions);
        if !keep {
          // filesystem->remove: the entry and everything below it
          root := Put(root, dir, Dir(ChildrenAt(root, dir) - {name}));
        }
        if searchFor !in exclusions && IsDirAt(root, dir + [name]) {
          // only reached for a kept directory: a deleted one is no longer a directory
          assert ch0[name] < Dir(ch0) == NodeAt(t0, dir);
          var _ := RemovePreservingExclusions(dir + [name], exclusions, searchFor + "/");
        }
        todo := todo - {name};
        done := done + {name};
      }
      PartialPruneDone(ch0, done, exclusions, prefix);
      return true;
    }

    /**
     * mergeDirectoriesSkippingExclusions: makes sure the directory `dir`
     * exists, then copies each source file whose key is not an exclusion
     * over the target entry of that name and merges each such source
     * directory into the target directory of that name. Excluded source
     * entries are skipped with everything below them.
     */
    method MergeDirectoriesSkippingExclusions(source: Node, dir: Path, exclusions: seq<string>, prefix: string)
      requires source.Dir?
      requires CanMkdir(root, dir)
      requires Compatible(source.children, ChildrenAt(Mkdir(root, dir), dir), exclusions, prefix)
      modifies this
      ensures root == WithEntries(Mkdir(old(root), dir), dir,
                                  MergeEntries(source.children, ChildrenAt(Mkdir(old(root), dir), dir), exclusions, prefix))
      decreases source
    {
      // filesystem->ensureDirectoryExists
      root := Mkdir(root, dir);
      ghost var t0 := root;
      var todo := source.children.Keys;
      ghost var done: set<string> := {};
      PartialMergeStart(source.children, ChildrenAt(t0, dir), exclusions, prefix);
      PutSame(t0, dir);
      while todo != {}
        invariant todo <= source.children.Keys && done == source.children.Keys - todo
        invariant root == Merged(t0, dir, source.children, done, exclusions, prefix)
        decreases |todo|
      {
        var name :| name in todo;
        var searchFor := prefix + name;
        if searchFor !in exclusions {
          var item := source.children[name];
          if item.File? {
            // copy(): the target entry becomes a copy of the source file
            MergeVisitCopy(t0, dir, source.children, done, name, exclusions, prefix);
            root := Put(root, dir, Dir(ChildrenAt(root, dir)[name := item]));
          } else {
            MergeVisitDescend(t0, dir, source.children, done, name, exclusions, prefix);
            assert item < source;
            MergeDirectoriesSkippingExclusions(item, dir + [name], exclusions, searchFor + "/");
          }
        } else {
          MergeVisitSkip(t0, dir, source.children, done, name, exclusions, prefix);
        }
        todo := todo - {name};
        done := done + {name};
      }
      PartialMergeDone(source.children, ChildrenAt(t0, dir), done, exclusions, prefix);
    }

    /**
     * installCodeExceptExclusions, once the package is downloaded to a
     * temporary directory: prune the install directory, then merge the
     * download into it. A missing install directory makes the pruning fail,
     * and nothing is merged. The merge meets what the pruning left, so only
     * entries that survive it must agree in kind with the download.
     */
    method InstallCodeExceptExclusions(dir: Path, download: Node, exclusions: seq<string>) returns (ok: bool)
      requires download.Dir?
      requires IsDirAt(root, dir) ==> Compatible(download.children, PruneEntries(ChildrenAt(root, dir), exclusions, ""), exclusions, "")
      modifies this
      ensures ok <==> IsDirAt(old(root), dir)
      ensures ok ==> root == WithEntries(old(root), dir, InstallEntries(ChildrenAt(old(root), dir), download.children, exclusions))
      ensures !ok ==> root == old(root)
    {
      ghost var t0 := root;
      ok := RemovePreservingExclusions(dir, exclusions, "");
      if !ok {
        return;
      }
      var pruned := PruneEntries(ChildrenAt(t0, dir), exclusions, "");
      assert ChildrenAt(root, dir) == pruned;
      DirCanMkdir(root, dir);
      MergeDirectoriesSkippingExclusions(download, dir, exclusions, "");
      PutPut(t0, dir, Dir(pruned), Dir(MergeEntries(download.children, pruned, exclusions, "")));
    }

    /** removeCodePreservingExclusions: the package directory pruned. */
    method RemoveCodePreservingExclusions(dir: Path, exclusions: seq<string>) returns (ok: bool)
      modifies this
      ensures ok <==> IsDirAt(old(root), dir)
      ensures ok ==> root == WithEntries(old(root), dir, PruneEntries(ChildrenAt(old(root), dir), exclusions, ""))
      ensures !ok ==> root == old(root)
    {
      ok := RemovePreservingExclusions(dir, exclusions, "");
    }

    /**
     * updateCodeExceptExclusions: remove the old code preserving the
     * exclusions, then install the new code. The outcome is that of a plain
     * install.
     */
    method UpdateCodeExceptExclusions(dir: Path, download: Node, exclusions: seq<string>) returns (ok: bool)
      requires download.Dir?
      requires IsDirAt(root, dir) ==> Compatible(download.children, PruneEntries(ChildrenAt(root, dir), exclusions, ""), exclusions, "")
      modifies this
      ensures ok <==> IsDirAt(old(root), dir)
      ensures ok ==> root == WithEntries(old(root), dir, InstallEntries(ChildrenAt(old(root), dir), download.children, exclusions))
      ensures !ok ==> root == old(root)
    {
      ghost var t0 := root;
      ok := RemoveCodePreservingExclusions(dir, exclusions);
      if !ok {
        return;
      }
      var pruned := PruneEntries(ChildrenAt(t0, dir), exclusions, "");
      assert ChildrenAt(root, dir) == pruned;
      PruneIdempotent(ChildrenAt(t0, dir), exclusions, "");
      ok := InstallCodeExceptExclusions(dir, download, exclusions);
      UpdateIsInstall(ChildrenAt(t0, dir), download.children, exclusions);
      PutPut(t0, dir, Dir(pruned), Dir(InstallEntries(pruned, download.children, exclusions)));
    }
  }
}
