/**
 * What removePreservingExclusions and mergeDirectoriesSkippingExclusions do
 * to a directory's entries, as functions of the entries, and what install
 * (prune, then merge) and update (prune, then install) leave behind.
 *
 * Entries of a directory are keyed by `prefix + name`: "" at the top of the
 * package and "<key of the directory>/" below it.
 */
module Reconcile {
  import opened Strings
  import opened Tree
  import opened Exclusions

  // ---------------------------------------------------------------------
  // removePreservingExclusions

  /**
   * The entries left in a directory: an entry that array_item_begins_with
   * does not keep is deleted with everything below it; a kept directory is
   * pruned in turn unless its key is itself an exclusion.
   */
  function PruneEntries(ch: map<string, Node>, exclusions: seq<string>, prefix: string): map<string, Node>
    decreases Dir(ch), 0
  {
    map n | n in ch && Keep(prefix + n, exclusions) :: PruneChild(ch[n], exclusions, prefix + n)
  }

  /** A kept entry with key `key` after pruning. */
  function PruneChild(c: Node, exclusions: seq<string>, key: string): Node
    decreases c, 1
  {
    if c.Dir? && key !in exclusions then Dir(PruneEntries(c.children, exclusions, key + "/")) else c
  }

  /** The entries after the names in `done` have been visited, in whatever order. */
  function PartialPrune(ch: map<string, Node>, done: set<string>, exclusions: seq<string>, prefix: string): map<string, Node>
  {
    map n | n in ch && (n in done ==> Keep(prefix + n, exclusions)) ::
      if n in done then PruneChild(ch[n], exclusions, prefix + n) else ch[n]
  }

  lemma PartialPruneStart(ch: map<string, Node>, exclusions: seq<string>, prefix: string)
    ensures PartialPrune(ch, {}, exclusions, prefix) == ch
  {
  }

  lemma PartialPruneDone(ch: map<string, Node>, done: set<string>, exclusions: seq<string>, prefix: string)
    requires ch.Keys <= done
    ensures PartialPrune(ch, done, exclusions, prefix) == PruneEntries(ch, exclusions, prefix)
  {
  }

  /** Visiting one more name: it is deleted, or replaced by its pruned self. */
  lemma PartialPruneStep(ch: map<string, Node>, done: set<string>, n: string, exclusions: seq<string>, prefix: string)
    requires n in ch && n !in done
    ensures var before := PartialPrune(ch, done, exclusions, prefix);
      && n in before && before[n] == ch[n]
      && PartialPrune(ch, done + {n}, exclusions, prefix) ==
         if Keep(prefix + n, exclusions) then before[n := PruneChild(ch[n], exclusions, prefix + n)]
         else before - {n}
  {
  }

  // ---------------------------------------------------------------------
  // mergeDirectoriesSkippingExclusions

  /**
   * The entries of the target directory after merging the source entries
   * `src` into `tgt`: a source entry whose key is an exclusion is skipped, a
   * source file is copied over, a source directory is merged into the target
   * directory of that name (created empty if missing); target entries the
   * source does not touch stay as they are.
   */
  function MergeEntries(src: map<string, Node>, tgt: map<string, Node>, exclusions: seq<string>, prefix: string): map<string, Node>
    decreases Dir(src), 0
  {
    map n | n in tgt.Keys + src.Keys && (n in tgt || prefix + n !in exclusions) ::
      if n in src && prefix + n !in exclusions then MergeChild(src[n], tgt, n, exclusions, prefix + n) else tgt[n]
  }

  /** The entry `n` of the target after copying or merging the source entry `s` onto it. */
  function MergeChild(s: Node, tgt: map<string, Node>, n: string, exclusions: seq<string>, key: string): Node
    decreases s, 1
  {
    if s.File? then s
    else Dir(MergeEntries(s.children, SubdirEntries(tgt, n), exclusions, key + "/"))
  }

  /** The entries of the target directory `n`, or none when there is no such directory. */
  function SubdirEntries(tgt: map<string, Node>, n: string): map<string, Node>
  {
    if n in tgt && tgt[n].Dir? then tgt[n].children else map[]
  }

  /**
   * The merge succeeds without a type clash: wherever a source entry is
   * copied onto an existing target entry, both are files or both are
   * directories (copy() onto a directory and mkdir over a file fail).
   */
  predicate Compatible(src: map<string, Node>, tgt: map<string, Node>, exclusions: seq<string>, prefix: string)
    decreases Dir(src)
  {
    forall n :: n in src && n in tgt && prefix + n !in exclusions ==>
      && (src[n].Dir? <==> tgt[n].Dir?)
      && (src[n].Dir? ==> Compatible(src[n].children, tgt[n].children, exclusions, prefix + n + "/"))
  }

  /** The entries after the source names in `done` have been visited, in whatever order. */
  function PartialMerge(src: map<string, Node>, tgt: map<string, Node>, done: set<string>, exclusions: seq<string>, prefix: string): map<string, Node>
  {
    map n | n in tgt.Keys + src.Keys && (n in tgt || (n in done && prefix + n !in exclusions)) ::
      if n in done && n in src && prefix + n !in exclusions then MergeChild(src[n], tgt, n, exclusions, prefix + n) else tgt[n]
  }

  lemma PartialMergeStart(src: map<string, Node>, tgt: map<string, Node>, exclusions: seq<string>, prefix: string)
    ensures PartialMerge(src, tgt, {}, exclusions, prefix) == tgt
  {
  }

  lemma PartialMergeDone(src: map<string, Node>, tgt: map<string, Node>, done: set<string>, exclusions: seq<string>, prefix: string)
    requires src.Keys <= done
    ensures PartialMerge(src, tgt, done, exclusions, prefix) == MergeEntries(src, tgt, exclusions, prefix)
  {
  }

  /** Visiting one more source name that is not excluded. */
  lemma PartialMergeStep(src: map<string, Node>, tgt: map<string, Node>, done: set<string>, n: string, exclusions: seq<string>, prefix: string)
    requires n in src && n !in done && prefix + n !in exclusions
    ensures var before := PartialMerge(src, tgt, done, exclusions, prefix);
      && (n in before <==> n in tgt)
      && (n in tgt ==> before[n] == tgt[n])
      && PartialMerge(src, tgt, done + {n}, exclusions, prefix) ==
         before[n := MergeChild(src[n], tgt, n, exclusions, prefix + n)]
  {
  }

  /** Visiting a source name that is excluded changes nothing. */
  lemma PartialMergeSkip(src: map<string, Node>, tgt: map<string, Node>, done: set<string>, n: string, exclusions: seq<string>, prefix: string)
    requires n in src && prefix + n in exclusions
    ensures PartialMerge(src, tgt, done + {n}, exclusions, prefix) == PartialMerge(src, tgt, done, exclusions, prefix)
  {
  }

  // ---------------------------------------------------------------------
  // install and update

  /** The package directory's entries after installCodeExceptExclusions: pruned, then merged with the download. */
  function InstallEntries(target: map<string, Node>, download: map<string, Node>, exclusions: seq<string>): map<string, Node>
  {
    MergeEntries(download, PruneEntries(target, exclusions, ""), exclusions, "")
  }

  /** Pruning twice is pruning once. */
  lemma {:induction false} PruneIdempotent(ch: map<string, Node>, exclusions: seq<string>, prefix: string)
    ensures PruneEntries(PruneEntries(ch, exclusions, prefix), exclusions, prefix) == PruneEntries(ch, exclusions, prefix)
    decreases Dir(ch)
  {
    var p := PruneEntries(ch, exclusions, prefix);
    forall n | n in p
      ensures Keep(prefix + n, exclusions) && PruneChild(p[n], exclusions, prefix + n) == p[n]
    {
      var c := ch[n];
      assert p[n] == PruneChild(c, exclusions, prefix + n);
      if c.Dir? && prefix + n !in exclusions {
        assert Dir(c.children) == c && c < Dir(ch);
        PruneIdempotent(c.children, exclusions, prefix + n + "/");
        assert p[n] == Dir(PruneEntries(c.children, exclusions, prefix + n + "/"));
      }
    }
    assert PruneEntries(p, exclusions, prefix) == p;
  }

  /** Update prunes the directory and then installs, which prunes it again: the same as installing. */
  lemma UpdateIsInstall(target: map<string, Node>, download: map<string, Node>, exclusions: seq<string>)
    ensures InstallEntries(PruneEntries(target, exclusions, ""), download, exclusions) == InstallEntries(target, download, exclusions)
  {
    PruneIdempotent(target, exclusions, "");
  }

  /** Pruning the target keeps a merge free of type clashes. */
  lemma {:induction false} CompatiblePrune(src: map<string, Node>, tgt: map<string, Node>, exclusions: seq<string>, prefix: string)
    requires Compatible(src, tgt, exclusions, prefix)
    ensures Compatible(src, PruneEntries(tgt, exclusions, prefix), exclusions, prefix)
    decreases Dir(src)
  {
    var p := PruneEntries(tgt, exclusions, prefix);
    forall n | n in src && n in p && prefix + n !in exclusions
      ensures (src[n].Dir? <==> p[n].Dir?)
      ensures src[n].Dir? ==> Compatible(src[n].children, p[n].children, exclusions, prefix + n + "/")
    {
      assert n in tgt && p[n] == PruneChild(tgt[n], exclusions, prefix + n);
      if src[n].Dir? {
        assert tgt[n].Dir? && Compatible(src[n].children, tgt[n].children, exclusions, prefix + n + "/");
        assert Dir(src[n].children) == src[n] && src[n] < Dir(src);
        CompatiblePrune(src[n].children, tgt[n].children, exclusions, prefix + n + "/");
      }
    }
  }

  // ---------------------------------------------------------------------
  // What survives removePreservingExclusions

  /**
   * The entry at path `q` below a pruned directory is there exactly when it
   * was there before and survives (it is excluded, on the way to an
   * exclusion, or inside one); files keep their contents, and directories
   * stay directories.
   */
  lemma {:induction false} PruneAt(ch: map<string, Node>, exclusions: seq<string>, prefix: string, q: Path)
    requires ValidPath(q) && q != []
    requires NoExcludedAncestor(prefix, exclusions)
    ensures var before, after := At(Dir(ch), q), At(Dir(PruneEntries(ch, exclusions, prefix)), q);
      && (after.Some? <==> before.Some? && Survives(prefix + Join(q), exclusions))
      && (after.Some? && before.value.File? ==> after == before)
      && (after.Some? ==> (after.value.Dir? <==> before.value.Dir?))
    decreases q
  {
    var n := q[0];
    var key := prefix + n;
    var p := PruneEntries(ch, exclusions, prefix);
    assert ValidName(n);
    if |q| == 1 {
      assert Join(q) == n;
      SurvivesIsKeep(prefix, n, exclusions);
    } else {
      var rest := q[1..];
      assert ValidPath(rest) by {
        forall i | 0 <= i < |rest|
          ensures ValidName(rest[i])
        {
          assert rest[i] == q[i + 1];
        }
      }
      assert Join(q) == n + "/" + Join(rest);
      assert prefix + Join(q) == key + "/" + Join(rest);
      if n in ch {
        if !Keep(key, exclusions) {
          if Survives(key + "/" + Join(rest), exclusions) {
            SurvivesBelowKeep(prefix, n, Join(rest), exclusions);
          }
        } else {
          var c := ch[n];
          assert p[n] == PruneChild(c, exclusions, key);
          if c.Dir? && key !in exclusions {
            EnterKeeps(prefix, n, exclusions);
            assert Dir(c.children) == c && c < Dir(ch);
            PruneAt(c.children, exclusions, key + "/", rest);
          } else if c.Dir? {
            SurvivesInsideExcluded(key, Join(rest), exclusions);
          }
        }
      }
    }
  }

  /** An excluded entry, and everything below it, comes through pruning unchanged. */
  lemma {:induction false} PruneKeepsExcluded(ch: map<string, Node>, exclusions: seq<string>, prefix: string, q: Path)
    requires q != [] && prefix + Join(q) in exclusions
    ensures At(Dir(PruneEntries(ch, exclusions, prefix)), q) == At(Dir(ch), q)
    decreases q
  {
    var n := q[0];
    var key := prefix + n;
    var p := PruneEntries(ch, exclusions, prefix);
    if |q| == 1 {
      assert Join(q) == n;
    } else {
      var rest := q[1..];
      assert Join(q) == n + "/" + Join(rest);
      assert prefix + Join(q) == key + "/" + (Join(rest));
      assert key + "/" <= prefix + Join(q);
      if n in ch {
        var c := ch[n];
        assert p[n] == PruneChild(c, exclusions, key);
        if c.Dir? && key !in exclusions {
          assert Dir(c.children) == c && c < Dir(ch);
          PruneKeepsExcluded(c.children, exclusions, key + "/", rest);
        }
      }
    }
  }

  // ---------------------------------------------------------------------
  // What mergeDirectoriesSkippingExclusions leaves behind

  /** Some directory on path `q` (the entry itself included) has an excluded key. */
  predicate Shielded(prefix: string, q: Path, exclusions: seq<string>)
    decreases q
  {
    q != [] && (prefix + q[0] in exclusions || Shielded(prefix + q[0] + "/", q[1..], exclusions))
  }

  /** An entry whose own key is excluded is shielded. */
  lemma {:induction false} ExcludedIsShielded(prefix: string, q: Path, exclusions: seq<string>)
    requires q != [] && prefix + Join(q) in exclusions
    ensures Shielded(prefix, q, exclusions)
    decreases q
  {
    if |q| == 1 {
      assert Join(q) == q[0];
    } else {
      assert Join(q) == q[0] + "/" + Join(q[1..]);
      assert prefix + Join(q) == prefix + q[0] + "/" + Join(q[1..]);
      ExcludedIsShielded(prefix + q[0] + "/", q[1..], exclusions);
    }
  }

  /**
   * An exclusion written with a trailing "/" shields nothing: every key ends
   * with the last character of a name, never with "/".
   */
  lemma {:induction false} SlashEndedShieldsNothing(prefix: string, q: Path, exclusions: seq<string>)
    requires ValidPath(q)
    requires forall e :: e in exclusions ==> e != "" && e[|e| - 1] == '/'
    ensures !Shielded(prefix, q, exclusions)
    decreases q
  {
    if q != [] {
      var key := prefix + q[0];
      assert key[|key| - 1] == q[0][|q[0]| - 1] && q[0][|q[0]| - 1] in q[0];
      assert ValidName(q[0]);
      assert ValidPath(q[1..]) by {
        forall i | 0 <= i < |q[1..]| ensures ValidName(q[1..][i]) { assert q[1..][i] == q[i + 1]; }
      }
      SlashEndedShieldsNothing(prefix + q[0] + "/", q[1..], exclusions);
    }
  }

  /**
   * At each path `q` below the merged directory: an unshielded source file
   * has been copied there, an unshielded source directory exists there,
   * anything the source does not reach (shielded, or absent from the
   * source) is as the target had it, and no target entry is deleted or
   * changes kind.
   */
  lemma {:induction false} MergeAt(src: map<string, Node>, tgt: map<string, Node>, exclusions: seq<string>,
                                   prefix: string, q: Path)
    requires Compatible(src, tgt, exclusions, prefix)
    requires q != []
    ensures var s, t, m := At(Dir(src), q), At(Dir(tgt), q), At(Dir(MergeEntries(src, tgt, exclusions, prefix)), q);
      && (!Shielded(prefix, q, exclusions) && s.Some? && s.value.File? ==> m == s)
      && (!Shielded(prefix, q, exclusions) && s.Some? && s.value.Dir? ==> m.Some? && m.value.Dir?)
      && (Shielded(prefix, q, exclusions) || s.None? ==> m == t)
      && (t.Some? ==> m.Some? && (m.value.Dir? <==> t.value.Dir?))
    decreases q
  {
    var n := q[0];
    var key := prefix + n;
    var rest := q[1..];
    var merged := MergeEntries(src, tgt, exclusions, prefix);
    if n in src && key !in exclusions {
      assert merged[n] == MergeChild(src[n], tgt, n, exclusions, key);
      assert Shielded(prefix, q, exclusions) == Shielded(key + "/", rest, exclusions);
      if rest != [] && src[n].Dir? {
        var sub := SubdirEntries(tgt, n);
        assert Dir(src[n].children) == src[n] && src[n] < Dir(src);
        assert At(Dir(tgt), q) == At(Dir(sub), rest);
        MergeAt(src[n].children, sub, exclusions, key + "/", rest);
      }
    }
  }

  // ---------------------------------------------------------------------
  // What an install leaves behind

  /**
   * After installCodeExceptExclusions, an entry whose key is an exclusion
   * is exactly what it was before: the download never replaces it.
   */
  lemma InstallKeepsExcluded(target: map<string, Node>, download: map<string, Node>, exclusions: seq<string>, q: Path)
    requires Compatible(download, PruneEntries(target, exclusions, ""), exclusions, "")
    requires q != [] && Join(q) in exclusions
    ensures At(Dir(InstallEntries(target, download, exclusions)), q) == At(Dir(target), q)
  {
    assert "" + Join(q) == Join(q);
    PruneKeepsExcluded(target, exclusions, "", q);
    ExcludedIsShielded("", q, exclusions);
    MergeAt(download, PruneEntries(target, exclusions, ""), exclusions, "", q);
  }

  /**
   * After installCodeExceptExclusions, every file of the download that no
   * exclusion shields is in place with the download's contents.
   */
  lemma InstallCopiesDownload(target: map<string, Node>, download: map<string, Node>, exclusions: seq<string>, q: Path)
    requires Compatible(download, PruneEntries(target, exclusions, ""), exclusions, "")
    requires q != [] && !Shielded("", q, exclusions)
    requires At(Dir(download), q).Some? && At(Dir(download), q).value.File?
    ensures At(Dir(InstallEntries(target, download, exclusions)), q) == At(Dir(download), q)
  {
    MergeAt(download, PruneEntries(target, exclusions, ""), exclusions, "", q);
  }

  /**
   * With exclusions that all end in "/", installCodeExceptExclusions puts
   * every file of the download in place: such exclusions protect nothing.
   */
  lemma InstallIgnoresSlashEnded(target: map<string, Node>, download: map<string, Node>, exclusions: seq<string>, q: Path)
    requires Compatible(download, PruneEntries(target, exclusions, ""), exclusions, "")
    requires forall e :: e in exclusions ==> e != "" && e[|e| - 1] == '/'
    requires ValidPath(q) && q != []
    requires At(Dir(download), q).Some? && At(Dir(download), q).value.File?
    ensures At(Dir(InstallEntries(target, download, exclusions)), q) == At(Dir(download), q)
  {
    SlashEndedShieldsNothing("", q, exclusions);
    InstallCopiesDownload(target, download, exclusions, q);
  }

  /**
   * A file that the pruning deletes may come back from the download as a
   * directory: the merge then creates that directory and copies its
   * contents in.
   */
  lemma InstallFileBecomesDirectory(n: string, m: string, old_content: string, new_content: string,
                                    exclusions: seq<string>)
    requires !Keep(n, exclusions)
    ensures Compatible(map[n := Dir(map[m := File(new_content)])],
                       PruneEntries(map[n := File(old_content)], exclusions, ""), exclusions, "")
    ensures InstallEntries(map[n := File(old_content)], map[n := Dir(map[m := File(new_content)])], exclusions)
         == map[n := Dir(map[m := File(new_content)])]
  {
    var download := map[n := Dir(map[m := File(new_content)])];
    assert "" + n == n;
    assert PruneEntries(map[n := File(old_content)], exclusions, "") == map[];
    assert n + "/" <= n + "/" + m;
    assert n + "/" + m !in exclusions;
    assert MergeEntries(map[m := File(new_content)], map[], exclusions, n + "/") == map[m := File(new_content)];
    assert MergeEntries(download, map[], exclusions, "")[n] == download[n];
  }

  /**
   * After installCodeExceptExclusions, an entry the download does not reach
   * is there exactly when it survived the pruning.
   */
  lemma InstallOutsideDownload(target: map<string, Node>, download: map<string, Node>, exclusions: seq<string>, q: Path)
    requires Compatible(download, PruneEntries(target, exclusions, ""), exclusions, "")
    requires ValidPath(q) && q != [] && At(Dir(download), q).None?
    ensures var after := At(Dir(InstallEntries(target, download, exclusions)), q);
      && (after.Some? <==> At(Dir(target), q).Some? && Survives(Join(q), exclusions))
      && (after.Some? && At(Dir(target), q).value.File? ==> after == At(Dir(target), q))
  {
    assert "" + Join(q) == Join(q);
    TopHasNoExcludedAncestor(exclusions);
    PruneAt(target, exclusions, "", q);
    MergeAt(download, PruneEntries(target, exclusions, ""), exclusions, "", q);
  }
}
