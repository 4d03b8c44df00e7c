/**
 * Splitting and joining on the "/" separator: PHP's explode('/', ...) as used
 * for package names, and the "/"-joined relative keys built while walking a tree.
 */
module Strings {

  /** The pieces of `pieces` joined with "/" (implode('/', ...)). */
  function Join(pieces: seq<string>): string
    requires |pieces| >= 1
    decreases |pieces|
  {
    if |pieces| == 1 then pieces[0] else pieces[0] + "/" + Join(pieces[1..])
  }

  /** explode('/', s): the maximal "/"-free pieces of `s`, in order. */
  function Explode(s: string): (r: seq<string>)
    ensures |r| >= 1
    ensures forall k :: 0 <= k < |r| ==> '/' !in r[k]
    ensures '/' !in s ==> r == [s]
    ensures '/' in s ==> |r| >= 2
    decreases |s|
  {
    if s == [] then [""]
    else
      var rest := Explode(s[1..]);
      assert s == [s[0]] + s[1..];
      if s[0] == '/' then [""] + rest
      else [[s[0]] + rest[0]] + rest[1..]
  }

  /** Joining the pieces of a string gives the string back. */
  lemma {:induction false} JoinExplode(s: string)
    ensures Join(Explode(s)) == s
    decreases |s|
  {
    if s != [] {
      var rest := Explode(s[1..]);
      JoinExplode(s[1..]);
      if s[0] == '/' {
        assert Explode(s) == [""] + rest;
        assert s == [s[0]] + s[1..];
      } else {
        var r := Explode(s);
        assert r == [[s[0]] + rest[0]] + rest[1..];
        if |rest| == 1 {
          assert s == [s[0]] + s[1..];
        } else {
          assert r[1..] == rest[1..];
          assert Join(rest) == rest[0] + "/" + Join(rest[1..]);
          assert s == [s[0]] + s[1..];
        }
      }
    }
  }

  /** Exploding "a/b" where `a` has no separator splits off `a` as the first piece. */
  lemma {:induction false} ExplodeCons(a: string, b: string)
    requires '/' !in a
    ensures Explode(a + "/" + b) == [a] + Explode(b)
    decreases |a|
  {
    var s := a + "/" + b;
    if a == [] {
      assert s[0] == '/' && s[1..] == b;
    } else {
      assert s[0] == a[0] && s[1..] == a[1..] + "/" + b;
      ExplodeCons(a[1..], b);
      assert [a[0]] + a[1..] == a;
    }
  }

  /** Exploding the join of "/"-free pieces gives the pieces back. */
  lemma {:induction false} ExplodeJoin(pieces: seq<string>)
    requires |pieces| >= 1
    requires forall k :: 0 <= k < |pieces| ==> '/' !in pieces[k]
    ensures Explode(Join(pieces)) == pieces
    decreases |pieces|
  {
    if |pieces| > 1 {
      ExplodeJoin(pieces[1..]);
      ExplodeCons(pieces[0], Join(pieces[1..]));
      assert [pieces[0]] + pieces[1..] == pieces;
    }
  }
}
