/**
 * The part of a filesystem the installer works on: files with contents and
 * directories mapping entry names to nodes. A path is the sequence of entry
 * names walked from the root; "." and ".." are not entries.
 */
module Tree {
  import opened Wrappers

  datatype Node = File(content: string) | Dir(children: map<string, Node>)

  type Path = seq<string>

  /** A name a directory can hold: non-empty, without "/", and not "." or "..". */
  predicate ValidName(n: string)
  {
    n != "" && '/' !in n && n != "." && n != ".."
  }

  predicate ValidPath(p: Path)
  {
    forall i :: 0 <= i < |p| ==> ValidName(p[i])
  }

  /** The node at path `p`, if there is one. */
  function At(t: Node, p: Path): (r: Option<Node>)
    ensures p == [] ==> r == Some(t)
    ensures r.Some? && p != [] ==> t.Dir? && p[0] in t.children
  {
    if p == [] then Some(t)
    else if t.Dir? && p[0] in t.children then At(t.children[p[0]], p[1..])
    else None
  }

  predicate IsDirAt(t: Node, p: Path)
  {
    At(t, p).Some? && At(t, p).value.Dir?
  }

  /** The entries of the directory at `p`; empty when there is none. */
  function ChildrenAt(t: Node, p: Path): map<string, Node>
  {
    if IsDirAt(t, p) then At(t, p).value.children else map[]
  }

  /** `t` with the node at the existing path `p` replaced by `n`. */
  function Put(t: Node, p: Path, n: Node): (r: Node)
    requires At(t, p).Some?
    ensures At(r, p) == Some(n)
  {
    if p == [] then n
    else Dir(t.children[p[0] := Put(t.children[p[0]], p[1..], n)])
  }

  /** No file stands at `p` or at any directory on the way to it. */
  predicate CanMkdir(t: Node, p: Path)
  {
    t.Dir? && (p != [] && p[0] in t.children ==> CanMkdir(t.children[p[0]], p[1..]))
  }

  /** The chain of empty directories a recursive mkdir creates for `p`. */
  function Fresh(p: Path): (r: Node)
    ensures IsDirAt(r, p) && ChildrenAt(r, p) == map[]
  {
    if p == [] then Dir(map[])
    else
      var r := Dir(map[p[0] := Fresh(p[1..])]);
      assert At(r, p) == At(Fresh(p[1..]), p[1..]);
      r
  }

  /**
   * ensureDirectoryExists: the directory at `p` exists afterwards, missing
   * directories on the way are created empty, and nothing already there
   * changes.
   */
  function Mkdir(t: Node, p: Path): (r: Node)
    requires CanMkdir(t, p)
    ensures IsDirAt(r, p)
    ensures IsDirAt(t, p) ==> r == t
    ensures !IsDirAt(t, p) ==> ChildrenAt(r, p) == map[]
  {
    if p == [] then t
    else if p[0] in t.children then
      var r := Dir(t.children[p[0] := Mkdir(t.children[p[0]], p[1..])]);
      assert At(r, p) == At(Mkdir(t.children[p[0]], p[1..]), p[1..]);
      assert IsDirAt(t, p) ==> t.children[p[0] := t.children[p[0]]] == t.children;
      r
    else
      var r := Dir(t.children[p[0] := Fresh(p[1..])]);
      assert At(r, p) == At(Fresh(p[1..]), p[1..]);
      r
  }

  /** Every directory on the way to `p` in a fresh chain exists. */
  lemma {:induction false} FreshPrefix(p: Path, q: Path)
    requires q <= p
    ensures IsDirAt(Fresh(p), q)
    decreases p
  {
    if q != [] {
      assert q[1..] <= p[1..];
      FreshPrefix(p[1..], q[1..]);
    }
  }

  /** A fresh chain holds nothing off the path it was made for. */
  lemma {:induction false} FreshFrame(p: Path, q: Path)
    ensures !(q <= p) ==> At(Fresh(p), q).None?
    decreases p
  {
    if p != [] && q != [] && q[0] == p[0] {
      assert q <= p <==> q[1..] <= p[1..];
      FreshFrame(p[1..], q[1..]);
    }
  }

  /**
   * ensureDirectoryExists keeps the rest of the tree: every directory on the
   * way to `p` exists afterwards, every entry that was there and is not a
   * directory on the way to `p` is as it was, and nothing appears off that
   * way.
   */
  lemma {:induction false} MkdirKeeps(t: Node, p: Path, q: Path)
    requires CanMkdir(t, p)
    ensures q < p ==> IsDirAt(Mkdir(t, p), q)
    ensures !(q < p) && At(t, q).Some? ==> At(Mkdir(t, p), q) == At(t, q)
    ensures !(q <= p) ==> At(Mkdir(t, p), q) == At(t, q)
    decreases p
  {
    if p != [] && q != [] && q[0] == p[0] {
      assert q < p <==> q[1..] < p[1..];
      assert q <= p <==> q[1..] <= p[1..];
      if p[0] in t.children {
        MkdirKeeps(t.children[p[0]], p[1..], q[1..]);
      } else {
        if q < p {
          FreshPrefix(p[1..], q[1..]);
        }
        FreshFrame(p[1..], q[1..]);
      }
    }
  }

  /** Looking one step further down. */
  lemma {:induction false} AtSnoc(t: Node, p: Path, x: string)
    ensures At(t, p + [x]) ==
      if IsDirAt(t, p) && x in ChildrenAt(t, p) then Some(ChildrenAt(t, p)[x]) else None
    decreases p
  {
    if p == [] {
      assert [x][1..] == [];
    } else {
      assert (p + [x])[1..] == p[1..] + [x];
      if t.Dir? && p[0] in t.children {
        AtSnoc(t.children[p[0]], p[1..], x);
      }
    }
  }

  /** Replacing an entry of a directory is replacing the directory. */
  lemma {:induction false} PutSnoc(t: Node, p: Path, x: string, n: Node)
    requires IsDirAt(t, p) && x in ChildrenAt(t, p)
    ensures At(t, p + [x]).Some?
    ensures Put(t, p + [x], n) == Put(t, p, Dir(ChildrenAt(t, p)[x := n]))
    decreases p
  {
    AtSnoc(t, p, x);
    if p == [] {
      assert [x][1..] == [];
    } else {
      assert (p + [x])[1..] == p[1..] + [x];
      PutSnoc(t.children[p[0]], p[1..], x, n);
    }
  }

  /** A second replacement at the same path overrides the first. */
  lemma {:induction false} PutPut(t: Node, p: Path, a: Node, b: Node)
    requires At(t, p).Some?
    ensures Put(Put(t, p, a), p, b) == Put(t, p, b)
    decreases p
  {
    if p != [] {
      PutPut(t.children[p[0]], p[1..], a, b);
    }
  }

  /** A directory that exists can always be "created". */
  lemma {:induction false} DirCanMkdir(t: Node, p: Path)
    requires IsDirAt(t, p)
    ensures CanMkdir(t, p)
    decreases p
  {
    if p != [] {
      DirCanMkdir(t.children[p[0]], p[1..]);
    }
  }

  /**
   * Creating `p + [x]` under an existing directory, then replacing it, is
   * replacing the entry `x` of that directory.
   */
  lemma {:induction false} MkdirSnoc(t: Node, p: Path, x: string, n: Node)
    requires IsDirAt(t, p)
    requires x in ChildrenAt(t, p) ==> ChildrenAt(t, p)[x].Dir?
    ensures CanMkdir(t, p + [x])
    ensures Put(Mkdir(t, p + [x]), p + [x], n) == Put(t, p, Dir(ChildrenAt(t, p)[x := n]))
    ensures ChildrenAt(Mkdir(t, p + [x]), p + [x]) ==
      if x in ChildrenAt(t, p) then ChildrenAt(t, p)[x].children else map[]
    decreases p
  {
    AtSnoc(t, p, x);
    if p == [] {
      assert [x][1..] == [];
      if x in t.children {
        assert At(t, [x]) == Some(t.children[x]);
        assert IsDirAt(t, [x]);
        DirCanMkdir(t, [x]);
      }
    } else {
      assert (p + [x])[1..] == p[1..] + [x];
      MkdirSnoc(t.children[p[0]], p[1..], x, n);
    }
  }

  /** Replacing a node by itself changes nothing. */
  lemma {:induction false} PutSame(t: Node, p: Path)
    requires At(t, p).Some?
    ensures Put(t, p, At(t, p).value) == t
    decreases p
  {
    if p != [] {
      PutSame(t.children[p[0]], p[1..]);
    }
  }
}
