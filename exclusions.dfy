/**
 * How an entry's key (its path below the package directory, names joined by
 * "/") is compared with the merge exclusions.
 */
module Exclusions {

  /**
   * array_item_begins_with: some exclusion is the key itself or starts with
   * the key followed by "/". An exclusion written with a trailing "/" thus
   * only matches its own spelling.
   */
  predicate Keep(key: string, exclusions: seq<string>)
  {
    exists e :: e in exclusions && (e == key || key + "/" <= e)
  }

  /**
   * Whether the entry at `key` outlives removePreservingExclusions: it is
   * excluded, lies on the way to an exclusion, or lies inside one.
   */
  predicate Survives(key: string, exclusions: seq<string>)
  {
    exists e :: e in exclusions && (e == key || key + "/" <= e || e + "/" <= key)
  }

  /** No exclusion names a directory above the entries whose keys start with `prefix`. */
  predicate NoExcludedAncestor(prefix: string, exclusions: seq<string>)
  {
    forall e :: e in exclusions ==> !(e + "/" <= prefix)
  }

  /** PHP's substr($s, 0, $n) for a non-negative length. */
  function Substr(s: string, n: nat): (r: string)
    ensures |r| == if n <= |s| then n else |s|
    ensures r <= s
  {
    if n <= |s| then s[..n] else s
  }

  lemma SubstrPrefix(c: string, needle: string)
    ensures Substr(c, |needle| + 1) == needle + "/" <==> needle + "/" <= c
  {
  }

  /** array_item_begins_with: scans the exclusions in order and stops at the first hit. */
  method ArrayItemBeginsWith(needle: string, haystack: seq<string>) returns (r: bool)
    ensures r <==> Keep(needle, haystack)
  {
    var i := 0;
    while i < |haystack|
      invariant 0 <= i <= |haystack|
      invariant forall j :: 0 <= j < i ==> !(haystack[j] == needle || needle + "/" <= haystack[j])
    {
      var comparitor := haystack[i];
      assert comparitor in haystack;
      SubstrPrefix(comparitor, needle);
      if comparitor == needle || Substr(comparitor, |needle| + 1) == needle + "/" {
        return true;
      }
      i := i + 1;
    }
    return false;
  }

  /** Nothing lies above the top of the package. */
  lemma TopHasNoExcludedAncestor(exclusions: seq<string>)
    ensures NoExcludedAncestor("", exclusions)
  {
  }

  /** A prefix "e/" of `prefix + n`, with no "/" in `n`, is a prefix of `prefix`. */
  lemma SlashPrefixOfChild(prefix: string, n: string, e: string)
    requires '/' !in n && e + "/" <= prefix + n
    ensures e + "/" <= prefix
  {
    assert (prefix + n)[|e|] == '/';
    assert forall j :: |prefix| <= j < |prefix + n| ==> (prefix + n)[j] == n[j - |prefix|];
    forall i | 0 <= i < |e + "/"|
      ensures (e + "/")[i] == prefix[i]
    {
      assert (e + "/")[i] == (prefix + n)[i];
    }
  }

  /** No exclusion "e" with e + "/" a prefix of a key one name below `prefix`. */
  lemma {:induction false} NoAncestorOfChild(prefix: string, n: string, exclusions: seq<string>, e: string)
    requires '/' !in n && NoExcludedAncestor(prefix, exclusions)
    requires e in exclusions
    ensures !(e + "/" <= prefix + n)
  {
    if e + "/" <= prefix + n {
      SlashPrefixOfChild(prefix, n, e);
    }
  }

  /** For an entry directly below `prefix`, surviving is being kept. */
  lemma {:induction false} SurvivesIsKeep(prefix: string, n: string, exclusions: seq<string>)
    requires '/' !in n && NoExcludedAncestor(prefix, exclusions)
    ensures Survives(prefix + n, exclusions) <==> Keep(prefix + n, exclusions)
  {
    if Survives(prefix + n, exclusions) {
      var e :| e in exclusions && (e == prefix + n || prefix + n + "/" <= e || e + "/" <= prefix + n);
      NoAncestorOfChild(prefix, n, exclusions, e);
    }
  }

  /** Where "e/" can sit at the start of `key + "/" + rest`. */
  lemma SlashPrefixCases(e: string, key: string, rest: string)
    requires e + "/" <= key + "/" + rest
    ensures |e| < |key| ==> e + "/" <= key
    ensures |e| == |key| ==> e == key
    ensures |e| > |key| ==> key + "/" <= e
  {
    var s := key + "/" + rest;
    assert forall i :: 0 <= i < |e| + 1 ==> (e + "/")[i] == s[i];
    assert forall i :: 0 <= i < |key| + 1 ==> (key + "/")[i] == s[i];
    if |e| == |key| {
      assert forall i :: 0 <= i < |e| ==> e[i] == (e + "/")[i] && key[i] == (key + "/")[i];
    }
  }

  /** An entry deep below `prefix + n` survives only if `prefix + n` is kept. */
  lemma {:induction false} SurvivesBelowKeep(prefix: string, n: string, rest: string, exclusions: seq<string>)
    requires '/' !in n && NoExcludedAncestor(prefix, exclusions)
    requires Survives(prefix + n + "/" + rest, exclusions)
    ensures Keep(prefix + n, exclusions)
  {
    var key := prefix + n;
    var e :| e in exclusions && (e == key + "/" + rest || key + "/" + rest + "/" <= e || e + "/" <= key + "/" + rest);
    NoAncestorOfChild(prefix, n, exclusions, e);
    if e == key + "/" + rest {
      assert key + "/" <= e;
    } else if key + "/" + rest + "/" <= e {
      assert key + "/" <= e;
    } else {
      SlashPrefixCases(e, key, rest);
    }
  }

  /** Everything inside an excluded entry survives. */
  lemma SurvivesInsideExcluded(key: string, rest: string, exclusions: seq<string>)
    requires key in exclusions
    ensures Survives(key + "/" + rest, exclusions)
  {
    assert key + "/" <= key + "/" + rest;
  }

  /** Entering a kept directory that is not itself excluded keeps the invariant. */
  lemma {:induction false} EnterKeeps(prefix: string, n: string, exclusions: seq<string>)
    requires '/' !in n && NoExcludedAncestor(prefix, exclusions)
    requires prefix + n !in exclusions
    ensures NoExcludedAncestor(prefix + n + "/", exclusions)
  {
    var key := prefix + n;
    assert key + "/" + "" == key + "/";
    forall e | e in exclusions
      ensures !(e + "/" <= key + "/")
    {
      NoAncestorOfChild(prefix, n, exclusions, e);
      if e + "/" <= key + "/" + "" {
        SlashPrefixCases(e, key, "");
      }
    }
  }
}
