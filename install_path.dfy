/** getInstallPath: the package's install directory from its type's path template. */
module InstallPath {
  import opened Wrappers
  import opened Strings
  import opened Template
  import opened Config

  /**
   * The variables handed to templatePath: `type`, and `vendor` / `name` from
   * explode('/', prettyName) -- pieces 0 and 1 -- or "" and the whole name
   * when the name has no "/".
   */
  function InstallVars(packageType: string, prettyName: string): map<string, string>
  {
    if '/' in prettyName then
      var pieces := Explode(prettyName);
      map["type" := packageType, "vendor" := pieces[0], "name" := pieces[1]]
    else
      map["type" := packageType, "vendor" := "", "name" := prettyName]
  }

  /** The template of `packageType` can be resolved with the installer's variables. */
  predicate Resolvable(extra: Extra, packageType: string)
  {
    packageType in extra.customInstaller ==>
      forall i :: 0 <= i < |Matches(extra.customInstaller[packageType])| ==>
        Matches(extra.customInstaller[packageType])[i] in TemplateVars
  }

  /**
   * The path getInstallPath returns: None stands for the null that a missing
   * "custom-installer" entry yields.
   */
  function InstallPathOf(extra: Extra, packageType: string, prettyName: string): Option<string>
    requires Resolvable(extra, packageType)
  {
    if packageType in extra.customInstaller then
      Some(Resolve(extra.customInstaller[packageType], InstallVars(packageType, prettyName)))
    else None
  }

  /** getInstallPath($package) for a package of type `packageType` named `prettyName`. */
  method GetInstallPath(extra: Extra, packageType: string, prettyName: string) returns (r: Option<string>)
    requires Resolvable(extra, packageType)
    ensures r == InstallPathOf(extra, packageType, prettyName)
    ensures r.Some? <==> packageType in extra.customInstaller
  {
    var vars := map["type" := packageType];
    if '/' in prettyName {
      var pieces := Explode(prettyName);
      vars := vars["vendor" := pieces[0]]["name" := pieces[1]];
    } else {
      vars := vars["vendor" := ""]["name" := prettyName];
    }
    assert vars == InstallVars(packageType, prettyName);
    if packageType in extra.customInstaller {
      var path := TemplatePath(extra.customInstaller[packageType], vars);
      r := Some(path);
    } else {
      r := None;
    }
  }

  /**
   * How the package name is split: with a "/", `vendor` is the text before
   * the first "/" and `name` the text up to the next "/" (or the end);
   * without one, `vendor` is empty and `name` is the whole name.
   */
  lemma NameSplit(packageType: string, prettyName: string)
    ensures InstallVars(packageType, prettyName).Keys == TemplateVars
    ensures InstallVars(packageType, prettyName)["type"] == packageType
    ensures '/' !in prettyName ==>
      InstallVars(packageType, prettyName)["vendor"] == "" && InstallVars(packageType, prettyName)["name"] == prettyName
    ensures '/' in prettyName ==>
      var vendor, name := InstallVars(packageType, prettyName)["vendor"], InstallVars(packageType, prettyName)["name"];
      && '/' !in vendor && '/' !in name
      && vendor + "/" + name <= prettyName
      && (vendor + "/" + name == prettyName || vendor + "/" + name + "/" <= prettyName)
  {
    if '/' in prettyName {
      var pieces := Explode(prettyName);
      JoinExplode(prettyName);
      var tail := Join(pieces[1..]);
      assert prettyName == pieces[0] + "/" + tail;
      if |pieces| > 2 {
        assert tail == pieces[1] + "/" + Join(pieces[2..]);
        assert pieces[0] + "/" + pieces[1] + "/" <= prettyName;
      }
    }
  }

  /** A name with exactly one "/" splits into the text on either side of it. */
  lemma VendorSlashName(packageType: string, vendor: string, name: string)
    requires '/' !in vendor && '/' !in name
    ensures InstallVars(packageType, vendor + "/" + name) == map["type" := packageType, "vendor" := vendor, "name" := name]
  {
    ExplodeJoin([vendor, name]);
    assert Join([vendor, name]) == vendor + "/" + name;
    assert '/' in vendor + "/" + name by {
      assert (vendor + "/" + name)[|vendor|] == '/';
    }
  }

  /** Resolving a template given as segments with the installer's variables. */
  lemma ResolveSegments(segs: seq<Segment>, vars: map<string, string>, path: string, expected: string)
    requires WellFormedSegments(segs)
    requires vars.Keys == TemplateVars
    requires forall i :: 0 <= i < |HoleKeys(segs)| ==> HoleKeys(segs)[i] in vars
    requires forall j :: j in vars ==> '{' !in vars[j]
    requires path == Render(segs, map[]) && expected == Render(segs, vars)
    ensures forall i :: 0 <= i < |Matches(path)| ==> Matches(path)[i] in TemplateVars
    ensures Bindable(path, vars) && Resolve(path, vars) == expected
  {
    ResolveFillsPlaceholders(segs, vars);
    MatchesRender(segs);
  }

  /**
   * The install path of a package "vendor/name" whose type's template is
   * given as segments.
   */
  lemma InstallPathFromSegments(packageType: string, vendor: string, name: string, prettyName: string,
                                segs: seq<Segment>, template: string, expected: string)
    requires '/' !in vendor && '/' !in name && prettyName == vendor + "/" + name
    requires '{' !in packageType && '{' !in vendor && '{' !in name
    requires WellFormedSegments(segs)
    requires forall i :: 0 <= i < |HoleKeys(segs)| ==> HoleKeys(segs)[i] in TemplateVars
    requires template == Render(segs, map[])
    requires expected == Render(segs, map["type" := packageType, "vendor" := vendor, "name" := name])
    ensures Resolvable(Extra(map[packageType := template], map[]), packageType)
    ensures InstallPathOf(Extra(map[packageType := template], map[]), packageType, prettyName) == Some(expected)
  {
    VendorSlashName(packageType, vendor, name);
    ResolveSegments(segs, InstallVars(packageType, prettyName), template, expected);
  }

  // The tests' three cases. The first two are stated for every vendor and
  // name free of "/" and "{", the tests' packages among them; their templates
  // are spelled with Placeholder, so "sites/" + Placeholder("name") + "/" is
  // the template "sites/{$name}/".

  /** The tests' first case: a site package goes under sites/<name>/. */
  lemma InstallPathSite(vendor: string, name: string)
    requires '/' !in vendor && '/' !in name && '{' !in vendor && '{' !in name
    ensures Resolvable(Extra(map["drupal-site" := "sites/" + Placeholder("name") + "/"], map[]), "drupal-site")
    ensures InstallPathOf(Extra(map["drupal-site" := "sites/" + Placeholder("name") + "/"], map[]),
                          "drupal-site", vendor + "/" + name)
         == Some("sites/" + name + "/")
  {
    InstallPathFromSegments("drupal-site", vendor, name, vendor + "/" + name,
                            [Text("sites/"), Hole("name"), Text("/")],
                            "sites/" + Placeholder("name") + "/", "sites/" + name + "/");
  }

  /** The tests' second case: vendor and name both substituted. */
  lemma InstallPathCustom(vendor: string, name: string)
    requires '/' !in vendor && '/' !in name && '{' !in vendor && '{' !in name
    ensures Resolvable(Extra(map["custom-type" := "custom/" + Placeholder("vendor") + "/" + Placeholder("name") + "/"], map[]),
                       "custom-type")
    ensures InstallPathOf(Extra(map["custom-type" := "custom/" + Placeholder("vendor") + "/" + Placeholder("name") + "/"], map[]),
                          "custom-type", vendor + "/" + name)
         == Some("custom/" + vendor + "/" + name + "/")
  {
    InstallPathFromSegments("custom-type", vendor, name, vendor + "/" + name,
                            [Text("custom/"), Hole("vendor"), Text("/"), Hole("name"), Text("/")],
                            "custom/" + Placeholder("vendor") + "/" + Placeholder("name") + "/",
                            "custom/" + vendor + "/" + name + "/");
  }

  /** The tests' third case: a template without placeholders is returned as is. */
  lemma InstallPathPlain(extra: Extra, prettyName: string)
    requires extra == Extra(map["drupal-core" := "web/"], map[])
    requires prettyName == "drupal/core"
    ensures Resolvable(extra, "drupal-core")
    ensures InstallPathOf(extra, "drupal-core", prettyName) == Some("web/")
  {
    assert '{' !in "web/";
  }
}
