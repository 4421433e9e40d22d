/** The trie is a map from paths to values, and its shape is determined by that map. */
module TrieMap {
  import opened Wrappers
  import opened Trie

  // ----- insertion -----

  lemma FreshGet(path: Path, v: Value, q: Path)
    ensures Canonical(Fresh(path, v))
    ensures Get(Fresh(path, v), q) == if q == path then Some(v) else None
  {
  }

  lemma ForkGet(key: Path, next: Node, path: Path, v: Value, q: Path)
    requires Shaped(next) && key != [] && (path != [] ==> path[0] != key[0])
    ensures Shaped(Fork(key, next, path, v))
    ensures Get(Fork(key, next, path, v), q) == if q == path then Some(v) else Get(Extension(key, next), q)
  {
    var n := Fork(key, next, path, v);
    forall i | 0 <= i < CHILDREN ensures Shaped(n.children[i]) {
    }
    if path != [] {
      FreshGet(path[1..], v, if q == [] then q else q[1..]);
    }
    if q != [] {
      assert key <= q <==> q[0] == key[0] && key[1..] <= q[1..];
      assert |key| <= |q| ==> q[|key|..] == q[1..][|key| - 1..];
    }
  }

  lemma SplitGet(key: Path, next: Node, path: Path, v: Value, q: Path)
    requires Shaped(next) && !(key <= path)
    ensures Shaped(Split(key, next, path, v))
    ensures Get(Split(key, next, path, v), q) == if q == path then Some(v) else Get(Extension(key, next), q)
  {
    var p := CommonPrefix(key, path);
    var prefix, k, r := key[..p], key[p..], path[p..];
    assert key == prefix + k && path == prefix + r;
    if prefix <= q {
      ForkGet(k, next, r, v, q[p..]);
      assert q == prefix + q[p..];
      assert key <= q <==> k <= q[p..];
      assert |key| <= |q| ==> q[|key|..] == q[p..][|k|..];
    } else {
      ForkGet(k, next, r, v, []);
    }
  }

  /** A lookup after an insertion finds the new value at its path and the old ones elsewhere. */
  lemma {:induction false} PutGet(n: Node, path: Path, v: Value, q: Path)
    requires Shaped(n)
    ensures Shaped(Put(n, path, v))
    ensures Get(Put(n, path, v), q) == if q == path then Some(v) else Get(n, q)
    decreases n
  {
    match n
    case Empty => FreshGet(path, v, q);
    case Leaf(_) =>
      if path != [] {
        FreshGet(path[1..], v, if q == [] then q else q[1..]);
      }
    case Extension(key, next) =>
      if key <= path {
        PutGet(next, path[|key|..], v, if key <= q then q[|key|..] else []);
        assert path == key + path[|key|..];
        assert key <= q ==> q == key + q[|key|..];
      } else {
        SplitGet(key, next, path, v, q);
      }
    case Branch(children) =>
      var i := if path == [] then VALUE_INDEX else path[0];
      PutGet(children[i], if path == [] then path else path[1..], v, if q == [] then q else q[1..]);
  }

  lemma {:induction false} PutCanonical(n: Node, path: Path, v: Value)
    requires Canonical(n)
    ensures var r := Put(n, path, v); Canonical(r) && r != Empty
    ensures n.Leaf? && path == [] ==> Put(n, path, v).Leaf?
    ensures n.Leaf? || n.Branch? ==> Put(n, path, v).Leaf? || Put(n, path, v).Branch?
    decreases n
  {
    match n
    case Empty =>
    case Leaf(_) =>
      if path != [] {
        var children := Put(n, path, v).children;
        FreshGet(path[1..], v, []);
        assert children[path[0]] != Empty && children[VALUE_INDEX] != Empty;
      }
    case Extension(key, next) =>
      if key <= path {
        PutCanonical(next, path[|key|..], v);
      } else {
        var p := CommonPrefix(key, path);
        ForkCanonical(key[p..], next, path[p..], v);
      }
    case Branch(children) =>
      var i := if path == [] then VALUE_INDEX else path[0];
      PutCanonical(children[i], if path == [] then path else path[1..], v);
      var after := Put(n, path, v).children;
      var a, b :| 0 <= a < b < CHILDREN && children[a] != Empty && children[b] != Empty;
      assert after[a] != Empty && after[b] != Empty;
  }

  lemma ForkCanonical(key: Path, next: Node, path: Path, v: Value)
    requires key != [] && (path != [] ==> path[0] != key[0])
    requires Canonical(next) && (next.Leaf? || next.Branch?)
    ensures Canonical(Fork(key, next, path, v))
  {
    var children := Fork(key, next, path, v).children;
    var i: nat := if path == [] then VALUE_INDEX else path[0];
    if path != [] {
      FreshGet(path[1..], v, []);
    }
    assert children[key[0]] != Empty && children[i] != Empty && i != key[0];
    assert exists a, b :: 0 <= a < b < CHILDREN && children[a] != Empty && children[b] != Empty by {
      var a: nat, b: nat := if i < key[0] then i else key[0], if i < key[0] then key[0] else i;
      assert 0 <= a < b < CHILDREN && children[a] != Empty && children[b] != Empty;
    }
  }

  // ----- removal -----

  lemma PrependGet(key: Path, n: Node, q: Path)
    requires Shaped(n)
    ensures Shaped(Prepend(key, n)) && Get(Prepend(key, n), q) == Get(Extension(key, n), q)
  {
    if n.Extension? {
      assert key + n.key <= q <==> key <= q && n.key <= q[|key|..];
      assert key + n.key <= q ==> q[|key + n.key|..] == q[|key|..][|n.key|..];
    }
  }

  lemma CollapseGet(children: seq<Node>, q: Path)
    requires Shaped(Branch(children)) && (children[VALUE_INDEX].Empty? || children[VALUE_INDEX].Leaf?)
    ensures Shaped(Collapse(children)) && Get(Collapse(children), q) == Get(Branch(children), q)
  {
    var i := FirstOccupied(children, 0);
    if i < VALUE_INDEX && FirstOccupied(children, i + 1) == CHILDREN {
      PrependGet([i], children[i], q);
      assert [i] <= q <==> q != [] && q[0] == i;
    }
  }

  /** A removal tells whether the path was there; afterwards it is gone and all others are as before. */
  lemma {:induction false} DeleteGet(n: Node, path: Path, q: Path)
    requires Canonical(n)
    ensures var r := Delete(n, path);
            && r.found == Get(n, path).Some?
            && Shaped(r.node)
            && Get(r.node, q) == (if q == path then None else Get(n, q))
            && (n.Empty? || n.Leaf? ==> r.node.Empty? || r.node.Leaf?)
    decreases n
  {
    match n
    case Empty =>
    case Leaf(_) =>
    case Extension(key, next) =>
      if key <= path {
        var r := Delete(next, path[|key|..]);
        DeleteGet(next, path[|key|..], if key <= q then q[|key|..] else []);
        assert path == key + path[|key|..];
        assert key <= q ==> q == key + q[|key|..];
        if r.found && r.node != Empty {
          PrependGet(key, r.node, q);
        }
      }
    case Branch(children) =>
      var i := if path == [] then VALUE_INDEX else path[0];
      var rest := if path == [] then path else path[1..];
      DeleteGet(children[i], rest, if q == [] then q else q[1..]);
      var r := Delete(children[i], rest);
      if r.found {
        CollapseGet(children[i := r.node], q);
      }
  }

  lemma CollapseCanonical(children: seq<Node>, i: nat)
    requires |children| == CHILDREN && (forall j :: 0 <= j < CHILDREN ==> Canonical(children[j]))
    requires children[VALUE_INDEX].Empty? || children[VALUE_INDEX].Leaf?
    requires i < CHILDREN && children[i] != Empty
    ensures Canonical(Collapse(children)) && Collapse(children) != Empty
  {
    var a := FirstOccupied(children, 0);
    var b := FirstOccupied(children, a + 1);
    if b < CHILDREN {
      assert 0 <= a < b < CHILDREN && children[a] != Empty && children[b] != Empty;
    }
  }

  lemma {:induction false} DeleteCanonical(n: Node, path: Path)
    requires Canonical(n)
    ensures Canonical(Delete(n, path).node)
    ensures n.Empty? || n.Leaf? ==> Delete(n, path).node.Empty? || Delete(n, path).node.Leaf?
    ensures n.Branch? ==> Delete(n, path).node != Empty
    decreases n
  {
    match n
    case Empty =>
    case Leaf(_) =>
    case Extension(key, next) =>
      if key <= path {
        DeleteCanonical(next, path[|key|..]);
      }
    case Branch(children) =>
      var i := if path == [] then VALUE_INDEX else path[0];
      var rest := if path == [] then path else path[1..];
      DeleteCanonical(children[i], rest);
      var r := Delete(children[i], rest);
      if r.found {
        var a, b :| 0 <= a < b < CHILDREN && children[a] != Empty && children[b] != Empty;
        CollapseCanonical(children[i := r.node], if a == i then b else a);
      }
  }
}
