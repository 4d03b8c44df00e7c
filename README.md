# custom-installer, modelled in Dafny

The project models the core of `CustomInstaller`, a Composer installer
plugin. The plugin puts a package where a per-type path template says. It
also reinstalls a package without destroying a configured set of "merge
exclusions", which are sub-paths of the package directory that hold local
content.

The model covers these parts of the plugin:

- **Path templating** (module `Template`). `templatePath` fills `{$type}`,
  `{$vendor}` and `{$name}` placeholders. It is a method with a loop,
  proved against the function `Resolve`. A separate view of a template,
  as literal text and placeholders (`Segment`), states what `Resolve` means.
- **Install path** (module `InstallPath`). `getInstallPath` splits the
  package name on "/" (with `Strings.Explode`, which is PHP's `explode`) and
  resolves the type's template.
- **Configuration lookups** (module `Config`). `supports` and
  `getExclusions` read the root package's `extra` section, including PHP's
  `empty()` on the string "0".
- **The exclusion matcher** (module `Exclusions`). `array_item_begins_with`
  is a loop with an early return, proved against the predicate `Keep`.
- **Tree reconciliation** (modules `Tree`, `Reconcile` and `Installer`).
  - The filesystem is a tree of `File(content)` and
    `Dir(children: map<string, Node>)` values, owned by the class
    `Installer.Filesystem`.
  - `removePreservingExclusions` (prune) and
    `mergeDirectoriesSkippingExclusions` (merge) are recursive methods of
    that class. They visit a directory's entries in an arbitrary order
    (`:|` over the listing) and update `root` in place, one entry at a
    time.
  - Each method's postcondition pins the new tree to a specification
    function (`PruneEntries` or `MergeEntries`). Any visiting order
    therefore gives the same result.
  - `installCodeExceptExclusions`, `updateCodeExceptExclusions` and
    `removeCodePreservingExclusions` sequence prune and merge.
  - Lemmas about the specification functions say what survives a prune,
    what a merge copies and what it leaves alone, that pruning is
    idempotent, and that an update is an install.
- **The tests' scenarios** (modules `InstallPath` and `Scenario`). The
  three install-path cases of the tests are proved. The tests' tree case
  is proved for the exclusions spelled without a trailing "/". For the
  spelling the test uses, a lemma shows the expected tree is not what the
  code produces.

Two behaviours of the code are modelled as written:

- **Trailing-slash exclusions.** Keys are built as `prefix + name` and never
  end in "/". So an exclusion such as "core/vendor/" is never equal to a key
  (`in_array` at CustomInstaller.php:163 and 183). It takes effect only
  through `array_item_begins_with`, and that only keeps "core" and
  "core/vendor" from being deleted.
  - Prune therefore deletes the files below those directories.
  - Merge copies the download's files over them
    (`Reconcile.SlashEndedShieldsNothing`,
    `Reconcile.InstallIgnoresSlashEnded`).
  - The scenario in Tests/CustomInstallerTest.php:49-102 uses "core/vendor/"
    and "modules/" and expects "preserve" in core/vendor/autoload.php and
    modules/READEME. The code as written yields the download's "ignore" in
    both files (`Scenario.InstallScenarioAsWritten`).
  - Written as "core/vendor" and "modules", the exclusions give exactly the
    expected tree (`Scenario.InstallScenarioNormalised`).
  - The test's expectation (Tests/CustomInstallerTest.php:83-99) reads a
    trailing "/" as "this directory and everything in it". The code
    compares exactly (CustomInstaller.php:163 and 183). The model follows
    the code.
- **Recursion after deletion.** After prune deletes an unmatched directory,
  the code asks again whether the entry is a directory (line 165) before
  recursing. The model asks that of the current tree, where the entry is
  gone, so the net effect is "delete and stop", as CustomInstaller.php:163-167
  reads once line 160 has removed the directory.

Prune on a path that is not a directory stands for `DirectoryIterator`
throwing: the method returns `false` and changes nothing. The install and
update methods then stop before merging, as the exception would stop them.
The download is a separate tree, handed to install and update as a value.
The merge meets the target as the pruning left it, so only the surviving
entries must agree in kind with the download. A file that the pruning
deletes may come back as a directory.

## Model

| member | source | states |
|---|---|---|
| Strings.JoinExplode | CustomInstaller.php:32 | Joining the pieces of `explode('/', s)` with "/" gives back `s`. |
| Strings.ExplodeJoin | CustomInstaller.php:32 | Exploding the "/"-join of "/"-free pieces gives back the pieces. |
| Template.TemplatePath | CustomInstaller.php:78-91 | The loop's result is `Resolve(path, vars)`: each captured identifier's placeholder is replaced in turn. A path without "{" comes back unchanged. |
| Template.MatchesRender | CustomInstaller.php:82 | For a template of '{'-free text and placeholders, `preg_match_all` captures exactly the placeholder keys, in order. |
| Template.ReplaceAllRender | CustomInstaller.php:85 | One `str_replace` of `{$k}` fills every placeholder for `k` and leaves every other placeholder and all text alone. |
| Template.ReplaceEachRender | CustomInstaller.php:84-86 | Replacing the keys one after another fills exactly the placeholders of those keys. |
| Template.RenderRestrict | CustomInstaller.php:85 | Rendering depends only on the values bound to the template's own placeholder keys. |
| Template.ResolveFillsPlaceholders | CustomInstaller.php:80-90 | For a template whose every '{' opens a placeholder, with '{'-free values, `templatePath` turns the template into its text with each `{$k}` replaced by `vars[k]`, and the template's placeholders are all bindable. |
| Config.Supports | CustomInstaller.php:50-67 | True exactly when there is a root package whose `custom-installer` has an entry for the type that is neither "" nor "0". |
| Config.GetExclusions | CustomInstaller.php:93-110 | Returns the type's exclusion list exactly when there is a root package and the list is present and non-empty, and false (None) otherwise. |
| InstallPath.GetInstallPath | CustomInstaller.php:19-45 | Returns the type's template resolved with `type`, `vendor` and `name`, and null (None) exactly when the type has no template. |
| InstallPath.NameSplit | CustomInstaller.php:24-42 | `type` is the package type. With a "/" in the name, `vendor` is the text before the first "/" and `name` the text after it, up to the next "/" or the end. Without one, `vendor` is "" and `name` is the whole name. |
| InstallPath.VendorSlashName | CustomInstaller.php:30-36 | A name "vendor/name" with one "/" gives exactly those two variables. |
| InstallPath.InstallPathSite | Tests/CustomInstallerTest.php:211-216 | With template "sites/{$name}/", package "v/n" installs to "sites/n/" for every "/"- and "{"-free v and n. |
| InstallPath.InstallPathCustom | Tests/CustomInstallerTest.php:217-222 | With template "custom/{$vendor}/{$name}/", package "v/n" installs to "custom/v/n/". |
| InstallPath.InstallPathPlain | Tests/CustomInstallerTest.php:223-228 | The template "web/" is returned as is for "drupal/core". |
| Tree.Mkdir | CustomInstaller.php:175 | `ensureDirectoryExists`: afterwards the directory exists; an existing one is untouched; a new one is empty. |
| Tree.MkdirKeeps | CustomInstaller.php:175 | After `ensureDirectoryExists`, every directory on the way to the path exists; every entry that was there and is not a directory on that way is as it was; and nothing off that way is created. |
| Tree.FreshFrame | CustomInstaller.php:175 | A chain of directories created for a path holds nothing off that path. |
| Exclusions.SubstrPrefix | CustomInstaller.php:199 | `substr(c, 0, strlen(needle) + 1) == needle . "/"` exactly when `needle/` is a prefix of `c`. |
| Exclusions.ArrayItemBeginsWith | CustomInstaller.php:196-205 | True exactly when some exclusion equals the needle or starts with the needle followed by "/". |
| Exclusions.SurvivesInsideExcluded | CustomInstaller.php:163-168 | Every key inside an excluded key counts as surviving. |
| Exclusions.EnterKeeps | CustomInstaller.php:165-167 | Recursing into a non-excluded directory keeps the fact that no exclusion names a directory above the current keys. |
| Reconcile.PartialPruneStep | CustomInstaller.php:152-169 | Visiting one entry deletes it when it is not kept, and otherwise replaces it by its pruned self. |
| Reconcile.PartialMergeStep | CustomInstaller.php:179-194 | Visiting one non-excluded source entry replaces the target entry of that name by the copied file or the merged directory. |
| Reconcile.PruneIdempotent | CustomInstaller.php:148-171 | Pruning a pruned directory changes nothing. |
| Reconcile.UpdateIsInstall | CustomInstaller.php:223-228 | Prune followed by install (itself prune then merge) gives the same entries as install alone. |
| Reconcile.CompatiblePrune | CustomInstaller.php:219-220 | Pruning the target never introduces a file/directory clash for the following merge. |
| Reconcile.PruneAt | CustomInstaller.php:148-171 | After prune, an entry at key `p` exists exactly when it existed and some exclusion `e` has `e == p`, starts with `p/`, or `p` starts with `e/`. Surviving files keep their contents, directories stay directories, and nothing is created. |
| Reconcile.PruneKeepsExcluded | CustomInstaller.php:163-168 | An entry whose key is an exclusion, with everything below it, comes through prune unchanged. |
| Reconcile.ExcludedIsShielded | CustomInstaller.php:183 | An entry whose own key is an exclusion is skipped by merge. |
| Reconcile.SlashEndedShieldsNothing | CustomInstaller.php:183 | Exclusions that all end in "/" never match a key during merge. |
| Reconcile.MergeAt | CustomInstaller.php:173-195 | After merge, at every path: an unskipped source file is in place with the source's content, an unskipped source directory is a directory, anything the source does not reach is as the target had it, and no target entry is deleted or changes kind. |
| Reconcile.InstallKeepsExcluded | CustomInstaller.php:219-220 | After install, an entry whose key is an exclusion is exactly what it was before. |
| Reconcile.InstallCopiesDownload | CustomInstaller.php:219-220 | After install, every download file that no exclusion shields is in place with the download's content. |
| Reconcile.InstallIgnoresSlashEnded | CustomInstaller.php:219-220 | With exclusions that all end in "/", every file of the download is installed over the target's. |
| Reconcile.InstallFileBecomesDirectory | CustomInstaller.php:160-191 | A target file that prune deletes and the download brings back as a directory raises no clash for the merge, and install leaves exactly the download's directory in its place. |
| Reconcile.InstallOutsideDownload | CustomInstaller.php:219-220 | After install, an entry the download does not reach exists exactly when it existed and survives prune; such a file keeps its content. |
| Installer.Filesystem.RemovePreservingExclusions | CustomInstaller.php:148-171 | Succeeds exactly when the directory exists. Its entries then become `PruneEntries` of the old entries and nothing else in the tree changes. Otherwise the tree is unchanged. |
| Installer.Filesystem.MergeDirectoriesSkippingExclusions | CustomInstaller.php:173-195 | Creates the target directory if missing, then sets its entries to `MergeEntries` of the source onto the old entries; nothing else in the tree changes. |
| Installer.Filesystem.InstallCodeExceptExclusions | CustomInstaller.php:206-222 | Succeeds exactly when the package directory exists. Its entries then become the download merged onto the pruned old entries (`InstallEntries`). Otherwise the tree is unchanged. |
| Installer.Filesystem.UpdateCodeExceptExclusions | CustomInstaller.php:223-228 | Remove then install leaves the same tree as install alone, with the same success condition. |
| Installer.Filesystem.RemoveCodePreservingExclusions | CustomInstaller.php:229-239 | The package directory is pruned, with the same success condition as prune. |
| Scenario.PruneNormalised | Tests/CustomInstallerTest.php:40 | Pruning the test's target with "core/vendor" and "modules" leaves core/vendor/autoload.php and modules/READEME and nothing else. |
| Scenario.MergeTopNormalised | Tests/CustomInstallerTest.php:41 | Merging the test's source onto that pruned tree gives the test's expected tree. |
| Scenario.InstallScenarioNormalised | Tests/CustomInstallerTest.php:49-102 | With the exclusions "core/vendor" and "modules", prune then merge of the test's trees gives exactly the expected tree, for any valid entry names with distinct siblings. |
| Scenario.InstallScenarioAsWritten | Tests/CustomInstallerTest.php:83-86 | With the test's "core/vendor/" and "modules/", core/vendor/autoload.php and modules/READEME end up with the download's "ignore", where the test expects "preserve". |

## Left out

- Composer plumbing is not modelled: the `$this->composer` getter chains, `parent::` calls, the download manager, `io->write`, `cleanChanges` and `getPackageBasePath`. The configuration is a parameter (`Config.Extra`), and the downloaded tree is a value parameter of install and update.
- The temporary download path (`time() % 100000`) and its removal are not modelled. They involve the clock and cleanup I/O.
- `installCode`, `updateCode` and `removeCode` (CustomInstaller.php:117-146) are not modelled. They call `getExclusions` as a free function, which is a fatal error; `updateCode` uses an undefined `$package`; and `removeCode` calls `parent::updateCode`.
- Installer.Filesystem.UpdateCodeExceptExclusions takes one directory: it assumes the old and new package share a directory, as they do for one package of one type. The method does not cover an update that moves a package.
- Installer.Filesystem.InstallCodeExceptExclusions takes the install directory as a path of entry names. Turning the string from `getInstallPath` into that path is not modelled.
- Installer.Filesystem.InstallCodeExceptExclusions takes the download to lie outside the install directory. In the source the temporary path is the install path followed by "-" and a number (CustomInstaller.php:213). With a template that ends in "/", as all three of the tests' templates do, that path is an entry "-N" inside the install directory. The source then prunes that entry along with the rest (line 160), and the merge at line 220 fails on the missing source directory after the pruning (line 179). The model does not capture this; it installs the download in full.
- Installer.Filesystem.MergeDirectoriesSkippingExclusions requires that source and target agree on the kind of every entry the merge touches (`Compatible`) and that no file lies on the way to the target (`CanMkdir`). `copy()` onto a directory and `ensureDirectoryExists` on a file fail with I/O errors, and those are not modelled.
- Template.ResolveFillsPlaceholders covers only templates in which every '{' opens a placeholder. For a template with a stray '{' (such as "a{b/{$name}/"), `Resolve` and `Template.TemplatePath` still compute what the source does, but no lemma states what the result means.
- Template.TemplatePath requires every placeholder to name `type`, `vendor` or `name`. `$$var` on any other identifier, including the empty one that `{$}` captures, reads another local variable or an undefined one.
- PHP's loose `==` in `in_array` and `array_item_begins_with` is modelled as string equality. Loose comparison of numeric strings ("10" == "1e1") is not modelled.
- Dot entries, symbolic links, `DirectoryIterator` order, `DIRECTORY_SEPARATOR` and PHP's stat cache are not modelled. Entry names are non-empty, contain no "/" and are not "." or "..". Keys are joined with "/" as the code does.
- I/O failures other than a missing directory at the start of prune are not modelled.
- The test helpers that build and compare directory trees on disk are not modelled. The test's trees are functions of the entry names in `Scenario`.
