/**
 * Install-path templating: the `{$identifier}` placeholder substitution that
 * CustomInstaller::templatePath performs with preg_match_all and str_replace.
 */
module Template {

  /** A character of the pattern's class [A-Za-z0-9_]. */
  predicate IsIdentChar(c: char)
  {
    ('A' <= c <= 'Z') || ('a' <= c <= 'z') || ('0' <= c <= '9') || c == '_'
  }

  predicate IsIdent(k: string)
  {
    forall i :: 0 <= i < |k| ==> IsIdentChar(k[i])
  }

  /** The placeholder text `{$k}`. */
  function Placeholder(k: string): string
  {
    "{$" + k + "}"
  }

  /** Length of the longest prefix of `s` made of identifier characters (the greedy `*`). */
  function IdentRun(s: string): (n: nat)
    ensures n <= |s|
    ensures IsIdent(s[..n])
    ensures n < |s| ==> !IsIdentChar(s[n])
    decreases |s|
  {
    if s != [] && IsIdentChar(s[0]) then 1 + IdentRun(s[1..]) else 0
  }

  /** Does a match of `\{\$([A-Za-z0-9_]*)\}` start at the beginning of `s`? */
  predicate MatchesAtStart(s: string)
  {
    2 <= |s| && s[0] == '{' && s[1] == '$'
    && 2 + IdentRun(s[2..]) < |s| && s[2 + IdentRun(s[2..])] == '}'
  }

  /**
   * The captured identifiers of preg_match_all('@\{\$([A-Za-z0-9_]*)\}@i', s),
   * left to right, matches not overlapping (group 1 of $matches).
   */
  function Matches(s: string): (r: seq<string>)
    ensures forall i :: 0 <= i < |r| ==> IsIdent(r[i])
    ensures '{' !in s ==> r == []
    decreases |s|
  {
    if s == [] then []
    else if MatchesAtStart(s) then
      var n := IdentRun(s[2..]);
      assert s[2..][..n] == s[2..2 + n];
      [s[2..2 + n]] + Matches(s[3 + n..])
    else Matches(s[1..])
  }

  /** str_replace(pat, v, s): every non-overlapping occurrence of `pat`, scanned left to right, becomes `v`. */
  function ReplaceAll(s: string, pat: string, v: string): (r: string)
    requires pat != []
    ensures pat[0] !in s ==> r == s
    decreases |s|
  {
    if s == [] then []
    else if pat <= s then v + ReplaceAll(s[|pat|..], pat, v)
    else [s[0]] + ReplaceAll(s[1..], pat, v)
  }

  /** The path after the foreach of templatePath has replaced the placeholders of `ks`, in order. */
  function ReplaceEach(s: string, ks: seq<string>, vars: map<string, string>): string
    requires forall i :: 0 <= i < |ks| ==> ks[i] in vars
    decreases |ks|
  {
    if ks == [] then s
    else
      var k := ks[|ks| - 1];
      ReplaceAll(ReplaceEach(s, ks[..|ks| - 1], vars), Placeholder(k), vars[k])
  }

  /** The identifiers templatePath's caller may bind: extract() makes each a local variable. */
  const TemplateVars: set<string> := {"type", "vendor", "name"}

  /**
   * The placeholders of `path` are all bound by `vars`; `vars` binds only the
   * three identifiers the installer supplies (other names would reach PHP's
   * other local variables through `$$var`).
   */
  predicate Bindable(path: string, vars: map<string, string>)
  {
    && vars.Keys <= TemplateVars
    && forall i :: 0 <= i < |Matches(path)| ==> Matches(path)[i] in vars
  }

  /** What templatePath returns. */
  function Resolve(path: string, vars: map<string, string>): string
    requires Bindable(path, vars)
  {
    if '{' in path then ReplaceEach(path, Matches(path), vars) else path
  }

  /** templatePath($path, $vars): rewrites the local path once per captured identifier. */
  method TemplatePath(path: string, vars: map<string, string>) returns (r: string)
    requires Bindable(path, vars)
    ensures r == Resolve(path, vars)
    ensures '{' !in path ==> r == path
  {
    r := path;
    if '{' in path {
      var ms := Matches(path);
      var i := 0;
      while i < |ms|
        invariant 0 <= i <= |ms|
        invariant r == ReplaceEach(path, ms[..i], vars)
      {
        assert ms[..i + 1][..i] == ms[..i];
        r := ReplaceAll(r, Placeholder(ms[i]), vars[ms[i]]);
        i := i + 1;
      }
      assert ms[..|ms|] == ms;
    }
  }

  // ---------------------------------------------------------------------
  // What Resolve means: a template seen as literal text and placeholders.
  // ---------------------------------------------------------------------

  /** One piece of a template: literal text without '{', or a placeholder `{$key}`. */
  datatype Segment = Text(text: string) | Hole(key: string)

  predicate WellFormedSegments(segs: seq<Segment>)
  {
    forall i :: 0 <= i < |segs| ==>
      match segs[i]
      case Text(t) => '{' !in t
      case Hole(k) => IsIdent(k)
  }

  /** The keys of the placeholders, in order. */
  function HoleKeys(segs: seq<Segment>): (r: seq<string>)
    decreases |segs|
  {
    if segs == [] then []
    else if segs[0].Hole? then [segs[0].key] + HoleKeys(segs[1..])
    else HoleKeys(segs[1..])
  }

  function Piece(s: Segment, m: map<string, string>): string
  {
    match s
    case Text(t) => t
    case Hole(k) => if k in m then m[k] else Placeholder(k)
  }

  /** The segments as text, with the placeholders whose key `m` binds filled in. */
  function Render(segs: seq<Segment>, m: map<string, string>): string
    decreases |segs|
  {
    if segs == [] then "" else Piece(segs[0], m) + Render(segs[1..], m)
  }

  /** `vars` restricted to the keys in `ks`. */
  function Restrict(vars: map<string, string>, ks: seq<string>): map<string, string>
  {
    map k | k in vars && k in ks :: vars[k]
  }

  lemma IdentRunAtClose(k: string, rest: string)
    requires IsIdent(k)
    ensures IdentRun(k + "}" + rest) == |k|
    decreases |k|
  {
    if k != [] {
      assert (k + "}" + rest)[1..] == k[1..] + "}" + rest;
      IdentRunAtClose(k[1..], rest);
    } else {
      assert (k + "}" + rest)[0] == '}';
    }
  }

  /** Text without '{' contributes no match. */
  lemma {:induction false} MatchesSkipText(t: string, rest: string)
    requires '{' !in t
    ensures Matches(t + rest) == Matches(rest)
    decreases |t|
  {
    if t != [] {
      var s := t + rest;
      assert s[0] == t[0] && t[0] != '{';
      assert !MatchesAtStart(s);
      assert s[1..] == t[1..] + rest;
      assert Matches(s) == Matches(s[1..]);
      MatchesSkipText(t[1..], rest);
    } else {
      assert t + rest == rest;
    }
  }

  /** A placeholder contributes its key, and scanning resumes right after it. */
  lemma MatchesPlaceholder(k: string, rest: string)
    requires IsIdent(k)
    ensures Matches(Placeholder(k) + rest) == [k] + Matches(rest)
  {
    var s := Placeholder(k) + rest;
    assert s[2..] == k + "}" + rest;
    IdentRunAtClose(k, rest);
    assert s[2 + |k|] == '}';
    assert s[2..2 + |k|] == k;
    assert s[3 + |k|..] == rest;
  }

  /** The identifiers preg_match_all captures in a template are its placeholder keys. */
  lemma {:induction false} MatchesRender(segs: seq<Segment>)
    requires WellFormedSegments(segs)
    ensures Matches(Render(segs, map[])) == HoleKeys(segs)
    decreases |segs|
  {
    if segs != [] {
      assert WellFormedSegments(segs[1..]) by {
        forall i | 0 <= i < |segs[1..]| ensures segs[1..][i] == segs[i + 1] { }
      }
      MatchesRender(segs[1..]);
      var rest := Render(segs[1..], map[]);
      match segs[0]
      case Text(t) =>
        MatchesSkipText(t, rest);
      case Hole(k) =>
        MatchesPlaceholder(k, rest);
    }
  }

  /** Replacing inside text that cannot start an occurrence leaves that text alone. */
  lemma {:induction false} ReplaceAllSkip(x: string, y: string, pat: string, v: string)
    requires pat != [] && pat[0] !in x
    ensures ReplaceAll(x + y, pat, v) == x + ReplaceAll(y, pat, v)
    decreases |x|
  {
    if x != [] {
      var s := x + y;
      assert s[0] == x[0] && x[0] != pat[0];
      assert !(pat <= s);
      assert s[1..] == x[1..] + y;
      assert ReplaceAll(s, pat, v) == [s[0]] + ReplaceAll(s[1..], pat, v);
      ReplaceAllSkip(x[1..], y, pat, v);
      assert x == [x[0]] + x[1..];
    } else {
      assert x + y == y;
    }
  }

  lemma ReplaceAllHit(y: string, pat: string, v: string)
    requires pat != []
    ensures ReplaceAll(pat + y, pat, v) == v + ReplaceAll(y, pat, v)
  {
    assert (pat + y)[|pat|..] == y;
  }

  /** A placeholder that starts another placeholder is that placeholder: its closing brace fixes the key. */
  lemma PlaceholderPrefixSameKey(k: string, k': string, y: string)
    requires IsIdent(k) && IsIdent(k')
    requires Placeholder(k) <= Placeholder(k') + y
    ensures k == k'
  {
    var pat, s := Placeholder(k), Placeholder(k') + y;
    assert s[2 + |k|] == pat[2 + |k|] == '}';
    assert |k'| <= |k|;
    assert pat[2 + |k'|] == s[2 + |k'|] == '}';
    assert |k| == |k'|;
    assert k == pat[2..2 + |k|] == s[2..2 + |k|] == k';
  }

  /** A placeholder for another key is not an occurrence of `{$k}` and is kept. */
  lemma ReplaceAllOtherPlaceholder(k: string, k': string, y: string, v: string)
    requires IsIdent(k) && IsIdent(k') && k != k'
    ensures ReplaceAll(Placeholder(k') + y, Placeholder(k), v) == Placeholder(k') + ReplaceAll(y, Placeholder(k), v)
  {
    var s := Placeholder(k') + y;
    var pat := Placeholder(k);
    if pat <= s {
      PlaceholderPrefixSameKey(k, k', y);
      assert false;
    }
    var w := Placeholder(k');
    assert s[1..] == w[1..] + y;
    assert '{' !in w[1..] by {
      assert w[1..] == "$" + k' + "}";
    }
    ReplaceAllSkip(w[1..], y, pat, v);
    assert [s[0]] + w[1..] == w;
  }

  /** One str_replace fills every placeholder for `k` and nothing else. */
  lemma {:induction false} ReplaceAllRender(segs: seq<Segment>, m: map<string, string>, k: string, v: string)
    requires WellFormedSegments(segs) && IsIdent(k)
    requires forall j :: j in m ==> '{' !in m[j]
    requires '{' !in v
    requires k in m ==> m[k] == v
    ensures ReplaceAll(Render(segs, m), Placeholder(k), v) == Render(segs, m[k := v])
    decreases |segs|
  {
    if segs != [] {
      assert WellFormedSegments(segs[1..]) by {
        forall i | 0 <= i < |segs[1..]| ensures segs[1..][i] == segs[i + 1] { }
      }
      ReplaceAllRender(segs[1..], m, k, v);
      var rest := Render(segs[1..], m);
      var pat := Placeholder(k);
      match segs[0]
      case Text(t) =>
        ReplaceAllSkip(t, rest, pat, v);
      case Hole(j) =>
        if j in m {
          ReplaceAllSkip(m[j], rest, pat, v);
        } else if j == k {
          ReplaceAllHit(rest, pat, v);
        } else {
          ReplaceAllOtherPlaceholder(k, j, rest, v);
        }
    }
  }

  lemma RestrictSnoc(vars: map<string, string>, ks: seq<string>, k: string)
    requires k in vars
    ensures Restrict(vars, ks + [k]) == Restrict(vars, ks)[k := vars[k]]
  {
  }

  /** Replacing the keys `ks` one after another fills exactly the placeholders for `ks`. */
  lemma {:induction false} ReplaceEachRender(segs: seq<Segment>, ks: seq<string>, vars: map<string, string>)
    requires WellFormedSegments(segs)
    requires forall i :: 0 <= i < |ks| ==> ks[i] in vars && IsIdent(ks[i])
    requires forall j :: j in vars ==> '{' !in vars[j]
    ensures ReplaceEach(Render(segs, map[]), ks, vars) == Render(segs, Restrict(vars, ks))
    decreases |ks|
  {
    if ks == [] {
      assert Restrict(vars, ks) == map[];
    } else {
      var init := ks[..|ks| - 1];
      var k := ks[|ks| - 1];
      ReplaceEachRender(segs, init, vars);
      ReplaceAllRender(segs, Restrict(vars, init), k, vars[k]);
      assert init + [k] == ks;
      RestrictSnoc(vars, init, k);
    }
  }

  /** Rendering only consults the bindings of the placeholder keys. */
  lemma {:induction false} RenderRestrict(segs: seq<Segment>, vars: map<string, string>, ks: seq<string>)
    requires forall i :: 0 <= i < |HoleKeys(segs)| ==> HoleKeys(segs)[i] in ks
    ensures Render(segs, Restrict(vars, ks)) == Render(segs, vars)
    decreases |segs|
  {
    if segs != [] {
      if segs[0].Hole? {
        assert HoleKeys(segs) == [segs[0].key] + HoleKeys(segs[1..]);
        assert forall i :: 0 <= i < |HoleKeys(segs[1..])| ==> HoleKeys(segs[1..])[i] == HoleKeys(segs)[i + 1];
        assert HoleKeys(segs)[0] == segs[0].key;
      } else {
        assert HoleKeys(segs) == HoleKeys(segs[1..]);
      }
      assert Piece(segs[0], Restrict(vars, ks)) == Piece(segs[0], vars);
      RenderRestrict(segs[1..], vars, ks);
    }
  }

  /**
   * templatePath fills every placeholder of a template with its value: for a
   * template made of '{'-free text and placeholders whose keys `vars` binds
   * to '{'-free values, the result is the template with each `{$k}` replaced
   * by vars[k], and only those.
   */
  lemma ResolveFillsPlaceholders(segs: seq<Segment>, vars: map<string, string>)
    requires WellFormedSegments(segs)
    requires vars.Keys <= TemplateVars
    requires forall i :: 0 <= i < |HoleKeys(segs)| ==> HoleKeys(segs)[i] in vars
    requires forall j :: j in vars ==> '{' !in vars[j]
    ensures Bindable(Render(segs, map[]), vars)
    ensures Resolve(Render(segs, map[]), vars) == Render(segs, vars)
  {
    var path := Render(segs, map[]);
    MatchesRender(segs);
    var ks := HoleKeys(segs);
    assert forall i :: 0 <= i < |ks| ==> IsIdent(ks[i]) by {
      assert Matches(path) == ks;
    }
    ReplaceEachRender(segs, ks, vars);
    RenderRestrict(segs, vars, ks);
    if '{' !in path {
      assert ks == [];
      assert Restrict(vars, ks) == map[];
    }
  }
}
