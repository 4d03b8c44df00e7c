/**
 * The tests' install scenario: a package directory holding index.php,
 * .htaccess, core/ (with vendor/autoload.php, install.php and kittens.php)
 * and modules/READEME is overwritten by a download holding index.php,
 * .htaccess, core/ (with vendor/autoload.php and install.php) and
 * modules/READEME. The entry names are parameters: any valid names whose
 * siblings are distinct stand for the test's.
 */
module Scenario {
  import opened Wrappers
  import opened Tree
  import opened Exclusions
  import opened Reconcile

  /** The entry names of the scenario, one field per file or directory. */
  datatype Names = Names(index: string, htaccess: string, core: string, vendor: string, autoload: string,
                         install: string, kittens: string, modules: string, readme: string)

  predicate WellChosen(n: Names)
  {
    && ValidName(n.index) && ValidName(n.htaccess) && ValidName(n.core) && ValidName(n.vendor)
    && ValidName(n.autoload) && ValidName(n.install) && ValidName(n.kittens) && ValidName(n.modules)
    && ValidName(n.readme)
    && n.index != n.htaccess && n.index != n.core && n.index != n.modules
    && n.htaccess != n.core && n.htaccess != n.modules && n.core != n.modules
    && n.vendor != n.install && n.vendor != n.kittens && n.install != n.kittens
  }

  /** The downloaded package. */
  function SourceTree(n: Names): map<string, Node>
  {
    map[n.index := File("copy"), n.htaccess := File("copy"),
        n.core := Dir(map[n.vendor := Dir(map[n.autoload := File("ignore")]), n.install := File("copy")]),
        n.modules := Dir(map[n.readme := File("ignore")])]
  }

  /** The installed package before the update. */
  function TargetTree(n: Names): map<string, Node>
  {
    map[n.index := File("overwrite"), n.htaccess := File("overwrite"),
        n.core := Dir(map[n.vendor := Dir(map[n.autoload := File("preserve")]), n.install := File("overwrite"),
                          n.kittens := File("remove")]),
        n.modules := Dir(map[n.readme := File("preserve")])]
  }

  /** The tree the test expects afterwards. */
  function ExpectedTree(n: Names): map<string, Node>
  {
    map[n.index := File("copy"), n.htaccess := File("copy"),
        n.core := Dir(map[n.vendor := Dir(map[n.autoload := File("preserve")]), n.install := File("copy")]),
        n.modules := Dir(map[n.readme := File("preserve")])]
  }

  /** "a/" starts "c/v" only for a == c, when neither a nor c holds a "/". */
  lemma NameSlashPrefix(a: string, c: string, v: string)
    requires '/' !in a && '/' !in c
    ensures a + "/" <= c + "/" + v <==> a == c
  {
    var s := c + "/" + v;
    assert c + "/" <= s;
    if a + "/" <= s {
      assert s[|a|] == '/' && s[|c|] == '/';
      assert forall i :: 0 <= i < |c| ==> s[i] == c[i] && c[i] in c;
      assert forall i :: 0 <= i < |a| ==> s[i] == a[i] && a[i] in a;
      assert a == c;
    }
  }

  /** Keys one level below "c/" compare by their last name. */
  lemma ChildKeys(c: string, x: string, v: string)
    requires '/' !in x && '/' !in v
    ensures c + "/" + x == c + "/" + v <==> x == v
    ensures !(c + "/" + x + "/" <= c + "/" + v)
  {
    if c + "/" + x == c + "/" + v {
      assert x == (c + "/" + x)[|c| + 1..] == (c + "/" + v)[|c| + 1..] == v;
    }
    var k := |c| + 1 + |x|;
    assert (c + "/" + x + "/")[k] == '/';
    if k < |c + "/" + v| {
      assert (c + "/" + v)[k] == v[|x|];
      assert v[|x|] in v;
    }
  }

  /** A top-level name is kept by "c/v" and "m" exactly when it is c or m. */
  lemma TopKeep(a: string, c: string, v: string, m: string)
    requires '/' !in a && '/' !in c && '/' !in m
    ensures Keep(a, [c + "/" + v, m]) <==> a == c || a == m
  {
    var e := [c + "/" + v, m];
    NameSlashPrefix(a, c, v);
    assert e[0] in e && e[1] in e;
    assert (c + "/" + v)[|c|] == '/';
    assert (a + "/")[|a|] == '/';
    assert |a + "/"| <= |m| ==> m[|a|] in m;
  }

  /** A name below "c/" is kept by "c/v" and "m" exactly when it is v. */
  lemma CoreKeep(x: string, c: string, v: string, m: string)
    requires '/' !in x && '/' !in v && '/' !in m
    ensures Keep(c + "/" + x, [c + "/" + v, m]) <==> x == v
  {
    var e := [c + "/" + v, m];
    ChildKeys(c, x, v);
    assert e[0] in e && e[1] in e;
    assert (c + "/" + x)[|c|] == '/';
    assert (c + "/" + x + "/")[|c|] == '/';
    assert |c| < |m| ==> m[|c|] in m;
  }

  /** A name without "/" is neither "c/v" nor, when distinct from it, "m". */
  lemma TopNotExcluded(a: string, c: string, v: string, m: string)
    requires '/' !in a && a != m
    ensures a !in [c + "/" + v, m]
  {
    assert (c + "/" + v)[|c|] == '/';
  }

  /** A key below "c/" other than "c/v" is not excluded. */
  lemma CoreNotExcluded(x: string, c: string, v: string, m: string)
    requires '/' !in x && '/' !in v && '/' !in m && x != v
    ensures c + "/" + x !in [c + "/" + v, m]
  {
    ChildKeys(c, x, v);
    assert (c + "/" + x)[|c|] == '/';
  }

  /** Pruning core/ keeps vendor/ alone. */
  lemma PruneCoreDomain(n: Names)
    requires WellChosen(n)
    ensures PruneEntries(TargetTree(n)[n.core].children, [n.core + "/" + n.vendor, n.modules], n.core + "/").Keys == {n.vendor}
  {
    CoreKeep(n.vendor, n.core, n.vendor, n.modules);
    CoreKeep(n.install, n.core, n.vendor, n.modules);
    CoreKeep(n.kittens, n.core, n.vendor, n.modules);
  }

  /** Pruning core/ leaves vendor/ untouched. */
  lemma PruneCoreNormalised(n: Names)
    requires WellChosen(n)
    ensures PruneEntries(TargetTree(n)[n.core].children, [n.core + "/" + n.vendor, n.modules], n.core + "/") ==
            map[n.vendor := Dir(map[n.autoload := File("preserve")])]
  {
    var e := [n.core + "/" + n.vendor, n.modules];
    var ch := TargetTree(n)[n.core].children;
    var p := PruneEntries(ch, e, n.core + "/");
    PruneCoreDomain(n);
    assert n.vendor in p;
    assert n.core + "/" + n.vendor in e;
    assert p[n.vendor] == PruneChild(ch[n.vendor], e, n.core + "/" + n.vendor) == ch[n.vendor];
  }

  /** What pruning with "core/vendor" and "modules" leaves of the target. */
  function PrunedTarget(n: Names): map<string, Node>
  {
    map[n.core := Dir(map[n.vendor := Dir(map[n.autoload := File("preserve")])]),
        n.modules := Dir(map[n.readme := File("preserve")])]
  }

  /** Pruning the package keeps core/ and modules/. */
  lemma PruneTopDomain(n: Names)
    requires WellChosen(n)
    ensures PruneEntries(TargetTree(n), [n.core + "/" + n.vendor, n.modules], "").Keys == {n.core, n.modules}
  {
    assert forall a: string :: "" + a == a;
    TopKeep(n.index, n.core, n.vendor, n.modules);
    TopKeep(n.htaccess, n.core, n.vendor, n.modules);
    TopKeep(n.core, n.core, n.vendor, n.modules);
    TopKeep(n.modules, n.core, n.vendor, n.modules);
  }

  /** The target after pruning with the exclusions "core/vendor" and "modules". */
  lemma PruneNormalised(n: Names)
    requires WellChosen(n)
    ensures PruneEntries(TargetTree(n), [n.core + "/" + n.vendor, n.modules], "") == PrunedTarget(n)
  {
    var e := [n.core + "/" + n.vendor, n.modules];
    var t := TargetTree(n);
    var p := PruneEntries(t, e, "");
    PruneTopDomain(n);
    PruneCoreNormalised(n);
    TopNotExcluded(n.core, n.core, n.vendor, n.modules);
    assert "" + n.core == n.core && "" + n.modules == n.modules;
    assert n.core in p && n.modules in p;
    assert p[n.core] == PruneChild(t[n.core], e, n.core);
    assert n.modules in e;
    assert p[n.modules] == PruneChild(t[n.modules], e, n.modules);
  }

  /** Merging core/ yields vendor/ and install.php. */
  lemma MergeCoreDomain(n: Names)
    requires WellChosen(n)
    ensures MergeEntries(SourceTree(n)[n.core].children, map[n.vendor := Dir(map[n.autoload := File("preserve")])],
                         [n.core + "/" + n.vendor, n.modules], n.core + "/").Keys == {n.vendor, n.install}
  {
    CoreNotExcluded(n.install, n.core, n.vendor, n.modules);
  }

  /** Merging core/ copies install.php and leaves the excluded vendor/ alone. */
  lemma MergeCoreNormalised(n: Names)
    requires WellChosen(n)
    ensures MergeEntries(SourceTree(n)[n.core].children, map[n.vendor := Dir(map[n.autoload := File("preserve")])],
                         [n.core + "/" + n.vendor, n.modules], n.core + "/") == ExpectedTree(n)[n.core].children
  {
    var e := [n.core + "/" + n.vendor, n.modules];
    var s := SourceTree(n)[n.core].children;
    var tgt := map[n.vendor := Dir(map[n.autoload := File("preserve")])];
    var m := MergeEntries(s, tgt, e, n.core + "/");
    MergeCoreDomain(n);
    CoreNotExcluded(n.install, n.core, n.vendor, n.modules);
    assert n.core + "/" + n.vendor in e;
    assert n.vendor in m && n.install in m;
    assert m[n.vendor] == tgt[n.vendor];
    assert m[n.install] == MergeChild(s[n.install], tgt, n.install, e, n.core + "/" + n.install) == File("copy");
  }

  /** Merging the package yields its four top-level entries. */
  lemma MergeTopDomain(n: Names)
    requires WellChosen(n)
    ensures MergeEntries(SourceTree(n), PrunedTarget(n), [n.core + "/" + n.vendor, n.modules], "").Keys == {n.index, n.htaccess, n.core, n.modules}
  {
    assert forall a: string :: "" + a == a;
    TopNotExcluded(n.index, n.core, n.vendor, n.modules);
    TopNotExcluded(n.htaccess, n.core, n.vendor, n.modules);
  }

  /** After merging, core/ is as expected. */
  lemma MergeTopCore(n: Names)
    requires WellChosen(n)
    ensures var m := MergeEntries(SourceTree(n), PrunedTarget(n), [n.core + "/" + n.vendor, n.modules], "");
            n.core in m && m[n.core] == ExpectedTree(n)[n.core]
  {
    var e := [n.core + "/" + n.vendor, n.modules];
    MergeCoreNormalised(n);
    TopNotExcluded(n.core, n.core, n.vendor, n.modules);
    assert "" + n.core == n.core;
    assert SubdirEntries(PrunedTarget(n), n.core) == map[n.vendor := Dir(map[n.autoload := File("preserve")])];
  }

  /** After merging, the top-level files are copied and modules/ is kept. */
  lemma MergeTopFiles(n: Names)
    requires WellChosen(n)
    ensures var m := MergeEntries(SourceTree(n), PrunedTarget(n), [n.core + "/" + n.vendor, n.modules], "");
            && n.index in m && m[n.index] == File("copy")
            && n.htaccess in m && m[n.htaccess] == File("copy")
            && n.modules in m && m[n.modules] == Dir(map[n.readme := File("preserve")])
  {
    var e := [n.core + "/" + n.vendor, n.modules];
    TopNotExcluded(n.index, n.core, n.vendor, n.modules);
    TopNotExcluded(n.htaccess, n.core, n.vendor, n.modules);
    assert "" + n.index == n.index && "" + n.htaccess == n.htaccess && "" + n.modules == n.modules;
    assert n.modules in e;
  }

  /** Merging the download onto the pruned target gives the expected tree. */
  lemma MergeTopNormalised(n: Names)
    requires WellChosen(n)
    ensures MergeEntries(SourceTree(n), PrunedTarget(n), [n.core + "/" + n.vendor, n.modules], "") == ExpectedTree(n)
  {
    MergeTopDomain(n);
    MergeTopCore(n);
    MergeTopFiles(n);
  }

  /**
   * The tests' install scenario with the exclusions normalised to
   * "core/vendor" and "modules": the installed package is exactly the
   * expected tree.
   */
  lemma InstallScenarioNormalised(n: Names)
    requires WellChosen(n)
    ensures InstallEntries(TargetTree(n), SourceTree(n), [n.core + "/" + n.vendor, n.modules]) == ExpectedTree(n)
  {
    PruneNormalised(n);
    MergeTopNormalised(n);
  }

  /** Source and target agree on the kinds of core/'s shared entries. */
  lemma CompatibleCore(n: Names, exclusions: seq<string>)
    requires WellChosen(n)
    ensures Compatible(SourceTree(n)[n.core].children, TargetTree(n)[n.core].children, exclusions, n.core + "/")
  {
    var cs, ct := SourceTree(n)[n.core].children, TargetTree(n)[n.core].children;
    assert Compatible(cs[n.vendor].children, ct[n.vendor].children, exclusions, n.core + "/" + n.vendor + "/");
  }

  /** Source and target agree on the kind of every entry they share. */
  lemma ScenarioCompatible(n: Names, exclusions: seq<string>)
    requires WellChosen(n)
    ensures Compatible(SourceTree(n), TargetTree(n), exclusions, "")
  {
    var s, t := SourceTree(n), TargetTree(n);
    forall k | k in s && k in t && "" + k !in exclusions
      ensures (s[k].Dir? <==> t[k].Dir?)
      ensures s[k].Dir? ==> Compatible(s[k].children, t[k].children, exclusions, "" + k + "/")
    {
      assert "" + k == k;
      if k == n.core {
        CompatibleCore(n, exclusions);
      } else if k == n.modules {
        assert Compatible(s[k].children, t[k].children, exclusions, k + "/");
      }
    }
  }

  /** The file at core/vendor/autoload.php in a tree shaped like the scenario's. */
  lemma AutoloadAt(n: Names, top: map<string, Node>, content: string)
    requires n.core in top && top[n.core].Dir? && n.vendor in top[n.core].children
    requires top[n.core].children[n.vendor] == Dir(map[n.autoload := File(content)])
    ensures At(Dir(top), [n.core, n.vendor, n.autoload]) == Some(File(content))
  {
    var q := [n.core, n.vendor, n.autoload];
    assert q[1..] == [n.vendor, n.autoload] && [n.vendor, n.autoload][1..] == [n.autoload] && [n.autoload][1..] == [];
    assert At(Dir(top), q) == At(top[n.core], [n.vendor, n.autoload]);
    assert At(top[n.core], [n.vendor, n.autoload]) == At(Dir(map[n.autoload := File(content)]), [n.autoload]);
    assert At(Dir(map[n.autoload := File(content)]), [n.autoload]) == At(File(content), []);
  }

  /** The exclusions as the test writes them each end with "/". */
  lemma WrittenExclusionsEndInSlash(c: string, v: string, m: string)
    ensures forall x :: x in [c + "/" + v + "/", m + "/"] ==> x != "" && x[|x| - 1] == '/'
  {
  }

  /** The file at modules/READEME in a tree shaped like the scenario's. */
  lemma ReadmeAt(n: Names, top: map<string, Node>, content: string)
    requires n.modules in top && top[n.modules] == Dir(map[n.readme := File(content)])
    ensures At(Dir(top), [n.modules, n.readme]) == Some(File(content))
  {
    var q := [n.modules, n.readme];
    assert q[1..] == [n.readme] && [n.readme][1..] == [];
    assert At(Dir(top), q) == At(top[n.modules], [n.readme]);
    assert At(top[n.modules], [n.readme]) == At(File(content), []);
  }

  /**
   * The tests' install scenario with the exclusions as the test writes them,
   * "core/vendor/" and "modules/": they shield nothing, so the download's
   * core/vendor/autoload.php and modules/READEME replace the files the test
   * expects preserved.
   */
  lemma InstallScenarioAsWritten(n: Names)
    requires WellChosen(n)
    ensures var installed := InstallEntries(TargetTree(n), SourceTree(n), [n.core + "/" + n.vendor + "/", n.modules + "/"]);
            && At(Dir(installed), [n.core, n.vendor, n.autoload]) == Some(File("ignore"))
            && At(Dir(ExpectedTree(n)), [n.core, n.vendor, n.autoload]) == Some(File("preserve"))
            && At(Dir(installed), [n.modules, n.readme]) == Some(File("ignore"))
            && At(Dir(ExpectedTree(n)), [n.modules, n.readme]) == Some(File("preserve"))
            && installed != ExpectedTree(n)
  {
    var e := [n.core + "/" + n.vendor + "/", n.modules + "/"];
    AsWrittenOverwrites(n, e);
    AsWrittenOverwritesReadme(n, e);
    AutoloadAt(n, ExpectedTree(n), "preserve");
    ReadmeAt(n, ExpectedTree(n), "preserve");
  }

  /** With "core/vendor/" and "modules/", autoload.php takes the download's contents. */
  lemma AsWrittenOverwrites(n: Names, e: seq<string>)
    requires WellChosen(n) && e == [n.core + "/" + n.vendor + "/", n.modules + "/"]
    ensures At(Dir(InstallEntries(TargetTree(n), SourceTree(n), e)), [n.core, n.vendor, n.autoload]) == Some(File("ignore"))
  {
    var q := [n.core, n.vendor, n.autoload];
    WrittenExclusionsEndInSlash(n.core, n.vendor, n.modules);
    assert ValidPath(q);
    ScenarioCompatible(n, e);
    CompatiblePrune(SourceTree(n), TargetTree(n), e, "");
    AutoloadAt(n, SourceTree(n), "ignore");
    InstallIgnoresSlashEnded(TargetTree(n), SourceTree(n), e, q);
  }

  /** With "core/vendor/" and "modules/", READEME takes the download's contents. */
  lemma AsWrittenOverwritesReadme(n: Names, e: seq<string>)
    requires WellChosen(n) && e == [n.core + "/" + n.vendor + "/", n.modules + "/"]
    ensures At(Dir(InstallEntries(TargetTree(n), SourceTree(n), e)), [n.modules, n.readme]) == Some(File("ignore"))
  {
    var q := [n.modules, n.readme];
    WrittenExclusionsEndInSlash(n.core, n.vendor, n.modules);
    assert ValidPath(q);
    ScenarioCompatible(n, e);
    CompatiblePrune(SourceTree(n), TargetTree(n), e, "");
    ReadmeAt(n, SourceTree(n), "ignore");
    InstallIgnoresSlashEnded(TargetTree(n), SourceTree(n), e, q);
  }
}
