/** The Merkle Patricia trie that holds the contract state: lookup, insertion and removal.

    Nodes are values here; resolving a hash-only node from the store is the
    business of `TrieProof`.
 */
module Trie {
  import opened Wrappers

  type Nibble = n: nat | n < 16
  type Path = seq<Nibble>
  type Value = seq<Byte>

  const CHILDREN: nat := 17
  const VALUE_INDEX: nat := 16
  const MAX_KEY_LENGTH: nat := (64 + 4) * 2
  const MAX_VALUE_LENGTH: nat := 3 + 65535 + 1

  datatype Node =
    | Empty
    | Leaf(value: Value)
    | Extension(key: Path, next: Node)
    | Branch(children: seq<Node>)

  function NoChildren(): (s: seq<Node>)
    ensures |s| == CHILDREN && forall i :: 0 <= i < CHILDREN ==> s[i] == Empty
  {
    seq(CHILDREN, _ => Empty)
  }

  function CommonPrefix(a: Path, b: Path): (n: nat)
    ensures n <= |a| && n <= |b| && a[..n] == b[..n]
    ensures n < |a| && n < |b| ==> a[n] != b[n]
  {
    if a != [] && b != [] && a[0] == b[0] then 1 + CommonPrefix(a[1..], b[1..]) else 0
  }

  // ----- the operations -----

  function Get(n: Node, path: Path): Option<Value>
    requires Shaped(n)
  {
    match n
    case Empty => None
    case Leaf(v) => if path == [] then Some(v) else None
    case Extension(key, next) => if key <= path then Get(next, path[|key|..]) else None
    case Branch(children) =>
      if path == [] then Get(children[VALUE_INDEX], path) else Get(children[path[0]], path[1..])
  }

  /** A path of its own for a value. */
  function Fresh(path: Path, v: Value): Node {
    if path == [] then Leaf(v) else Extension(path, Leaf(v))
  }

  /** Splits an extension where `path` leaves its key. */
  function Split(key: Path, next: Node, path: Path, v: Value): Node
    requires !(key <= path)
  {
    var p := CommonPrefix(key, path);
    assert p < |key|;
    var branch := Fork(key[p..], next, path[p..], v);
    if p == 0 then branch else Extension(key[..p], branch)
  }

  /** The branch at which a key and a path part. */
  function Fork(key: Path, next: Node, path: Path, v: Value): (n: Node)
    requires key != [] && (path != [] ==> path[0] != key[0])
  {
    var below := NoChildren()[key[0] := if |key| == 1 then next else Extension(key[1..], next)];
    Branch(if path == [] then below[VALUE_INDEX := Leaf(v)] else below[path[0] := Fresh(path[1..], v)])
  }

  function Put(n: Node, path: Path, v: Value): Node
    requires Shaped(n)
  {
    match n
    case Empty => Fresh(path, v)
    case Leaf(_) =>
      if path == [] then Leaf(v) else Branch(NoChildren()[VALUE_INDEX := n][path[0] := Fresh(path[1..], v)])
    case Extension(key, next) =>
      if key <= path then Extension(key, Put(next, path[|key|..], v)) else Split(key, next, path, v)
    case Branch(children) =>
      var i := if path == [] then VALUE_INDEX else path[0];
      Branch(children[i := Put(children[i], if path == [] then path else path[1..], v)])
  }

  /** The first child that is not empty, if any. */
  function FirstOccupied(children: seq<Node>, from: nat): (i: nat)
    requires from <= |children|
    ensures from <= i <= |children| && (i < |children| ==> children[i] != Empty)
    ensures forall j :: from <= j < i ==> children[j] == Empty
    decreases |children| - from
  {
    if from < |children| && children[from] == Empty then FirstOccupied(children, from + 1) else from
  }

  /** An extension that leads to `n`, merged with `n` if that is an extension itself. */
  function Prepend(key: Path, n: Node): Node {
    if n.Extension? then Extension(key + n.key, n.next) else Extension(key, n)
  }

  /** What is left of a branch after a removal: a branch with one child gives way to that child. */
  function Collapse(children: seq<Node>): Node
    requires |children| == CHILDREN
  {
    var i := FirstOccupied(children, 0);
    if i < CHILDREN && FirstOccupied(children, i + 1) < CHILDREN then Branch(children)
    else if i < VALUE_INDEX then Prepend([i], children[i])
    else children[VALUE_INDEX]
  }

  /** What a removal leaves, and whether the path was there. */
  datatype Removal = Removal(node: Node, found: bool)

  function Delete(n: Node, path: Path): Removal
    requires Shaped(n)
  {
    match n
    case Empty => Removal(n, false)
    case Leaf(_) => if path == [] then Removal(Empty, true) else Removal(n, false)
    case Extension(key, next) =>
      if !(key <= path) then Removal(n, false)
      else
        var r := Delete(next, path[|key|..]);
        if !r.found then Removal(n, false)
        else if r.node == Empty then Removal(Empty, true)
        else Removal(Prepend(key, r.node), true)
    case Branch(children) =>
      var i := if path == [] then VALUE_INDEX else path[0];
      var r := Delete(children[i], if path == [] then path else path[1..]);
      if r.found then Removal(Collapse(children[i := r.node]), true) else Removal(n, false)
  }

  // ----- the canonical form -----

  /** Every branch has its seventeen children. */
  predicate Shaped(n: Node) {
    match n
    case Empty => true
    case Leaf(_) => true
    case Extension(_, next) => Shaped(next)
    case Branch(children) => |children| == CHILDREN && forall i :: 0 <= i < CHILDREN ==> Shaped(children[i])
  }

  /** No empty or chained extensions, no branch with fewer than two children, values only at the ends. */
  predicate Canonical(n: Node)
    ensures Canonical(n) ==> Shaped(n)
  {
    match n
    case Empty => true
    case Leaf(_) => true
    case Extension(key, next) => key != [] && (next.Leaf? || next.Branch?) && Canonical(next)
    case Branch(children) =>
      && |children| == CHILDREN
      && (forall i :: 0 <= i < CHILDREN ==> Canonical(children[i]))
      && (children[VALUE_INDEX].Empty? || children[VALUE_INDEX].Leaf?)
      && exists i, j :: 0 <= i < j < CHILDREN && children[i] != Empty && children[j] != Empty
  }
}
