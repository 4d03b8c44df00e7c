/**
 * The installer's configuration: the root package's "extra" section, read
 * through its "custom-installer" (type -> path template) and
 * "merge-exclusions" (type -> list of relative paths) keys.
 */
module Config {
  import opened Wrappers

  /**
   * The two keys of "extra" that the installer reads. A missing key reads
   * the same as an empty array in every lookup, so it is an empty map here.
   */
  datatype Extra = Extra(customInstaller: map<string, string>, mergeExclusions: map<string, seq<string>>)

  /** PHP's empty() on a string: "" and "0" are empty. */
  predicate EmptyString(s: string)
  {
    s == "" || s == "0"
  }

  /**
   * supports($packageType); `root` is None when the composer instance has no
   * root package.
   */
  function Supports(root: Option<Extra>, packageType: string): (r: bool)
    ensures r <==> root.Some? && packageType in root.value.customInstaller
                   && !EmptyString(root.value.customInstaller[packageType])
  {
    match root
    case None => false
    case Some(extra) =>
      if |extra.customInstaller| != 0 then
        packageType in extra.customInstaller && !EmptyString(extra.customInstaller[packageType])
      else false
  }

  /** getExclusions($packageType): the type's exclusion list, or false (None) when it is missing or empty. */
  function GetExclusions(root: Option<Extra>, packageType: string): (r: Option<seq<string>>)
    ensures r.Some? <==> root.Some? && packageType in root.value.mergeExclusions
                         && root.value.mergeExclusions[packageType] != []
    ensures r.Some? ==> r.value == root.value.mergeExclusions[packageType] && |r.value| > 0
  {
    match root
    case None => None
    case Some(extra) =>
      if |extra.mergeExclusions| != 0 then
        if packageType in extra.mergeExclusions && extra.mergeExclusions[packageType] != [] then
          Some(extra.mergeExclusions[packageType])
        else None
      else None
  }
}
