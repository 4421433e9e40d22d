/** Node hashes and Merkle proofs.

    A stored row holds a node with its children replaced by their hashes; its key is
    read from bytes, which need not be nibbles. The hash function is a parameter; what
    is proved holds unless a proof contains a row that collides with a row of the trie.
 */
module TrieProof {
  import opened Wrappers
  import opened Trie

  type Hash = h: seq<Byte> | |h| == 32 witness seq(32, _ => 0)

  datatype Ref = Nothing | To(hash: Hash)

  datatype Row = LeafRow(value: Value) | ExtensionRow(key: seq<Byte>, next: Ref) | BranchRow(children: seq<Ref>)

  type Hasher = Row -> Hash

  function RowOf(h: Hasher, n: Node): Row
    requires Shaped(n) && n != Empty
    decreases n, 0
  {
    match n
    case Leaf(v) => LeafRow(v)
    case Extension(key, next) => ExtensionRow(key, RefTo(h, next))
    case Branch(children) => BranchRow(seq(CHILDREN, i requires 0 <= i < CHILDREN => RefTo(h, children[i])))
  }

  function RefTo(h: Hasher, n: Node): Ref
    requires Shaped(n)
    decreases n, 1
  {
    if n == Empty then Nothing else To(h(RowOf(h, n)))
  }

  // ----- making a proof -----

  /** The rows on the way to `path`, if it is there. */
  ghost function ProofOf(h: Hasher, n: Node, path: Path): Option<set<Row>>
    requires Shaped(n)
  {
    match n
    case Empty => None
    case Leaf(_) => if path == [] then Some({RowOf(h, n)}) else None
    case Extension(key, next) =>
      if key <= path then WithRow(RowOf(h, n), ProofOf(h, next, path[|key|..])) else None
    case Branch(children) =>
      WithRow(RowOf(h, n),
              if path == [] then ProofOf(h, children[VALUE_INDEX], path) else ProofOf(h, children[path[0]], path[1..]))
  }

  ghost function WithRow(row: Row, proof: Option<set<Row>>): Option<set<Row>> {
    if proof.None? then None else Some({row} + proof.value)
  }

  // ----- checking a proof -----

  /** A row of the proof with the given hash. */
  ghost function Resolve(h: Hasher, proof: set<Row>, hash: Hash): (row: Option<Row>)
    ensures row.Some? ==> row.value in proof && h(row.value) == hash
    ensures row.None? ==> forall p :: p in proof ==> h(p) != hash
  {
    if exists p :: p in proof && h(p) == hash then
      var p :| p in proof && h(p) == hash;
      Some(p)
    else None
  }

  /** Lookup through the rows of a proof, down to the given depth. */
  ghost function Verify(h: Hasher, ref: Ref, path: Path, proof: set<Row>, depth: nat): Option<Value>
    decreases depth
  {
    if ref.Nothing? || depth == 0 then None
    else
      var row := Resolve(h, proof, ref.hash);
      if row.None? then None
      else
        match row.value
        case LeafRow(v) => if path == [] then Some(v) else None
        case ExtensionRow(key, next) =>
          if key <= path then Verify(h, next, path[|key|..], proof, depth - 1) else None
        case BranchRow(children) =>
          if |children| != CHILDREN then None
          else if path == [] then Verify(h, children[VALUE_INDEX], path, proof, depth - 1)
          else Verify(h, children[path[0]], path[1..], proof, depth - 1)
  }

  // ----- what a proof shows -----

  /** No row of the proof shares its hash with a different row of the trie. */
  ghost predicate CollisionFree(h: Hasher, n: Node, proof: set<Row>)
    requires Shaped(n)
  {
    n != Empty ==>
      && (forall p :: p in proof && h(p) == h(RowOf(h, n)) ==> p == RowOf(h, n))
      && (n.Extension? ==> CollisionFree(h, n.next, proof))
      && (n.Branch? ==> forall i :: 0 <= i < CHILDREN ==> CollisionFree(h, n.children[i], proof))
  }

  /** No collection of rows proves anything against the root hash that the trie does not hold. */
  lemma {:induction false} ProofIsSound(h: Hasher, n: Node, path: Path, proof: set<Row>, depth: nat)
    requires Shaped(n) && CollisionFree(h, n, proof)
    ensures Verify(h, RefTo(h, n), path, proof, depth).Some? ==>
              Verify(h, RefTo(h, n), path, proof, depth) == Get(n, path)
    decreases n
  {
    if n != Empty && depth != 0 && Resolve(h, proof, RefTo(h, n).hash).Some? {
      match n
      case Leaf(_) =>
      case Extension(key, next) =>
        if key <= path {
          ProofIsSound(h, next, path[|key|..], proof, depth - 1);
        }
      case Branch(children) =>
        var i := if path == [] then VALUE_INDEX else path[0];
        ProofIsSound(h, children[i], if path == [] then path else path[1..], proof, depth - 1);
    }
  }

  ghost function Depth(n: Node, path: Path): nat
    requires Shaped(n)
  {
    match n
    case Empty => 0
    case Leaf(_) => 1
    case Extension(key, next) => if key <= path then 1 + Depth(next, path[|key|..]) else 0
    case Branch(children) =>
      1 + if path == [] then Depth(children[VALUE_INDEX], path) else Depth(children[path[0]], path[1..])
  }

  /** There is a proof exactly for the paths that are there, and it verifies to their value. */
  lemma {:induction false} ProofIsComplete(h: Hasher, n: Node, path: Path, proof: set<Row>, depth: nat)
    requires Shaped(n)
    ensures ProofOf(h, n, path).Some? <==> Get(n, path).Some?
    ensures ProofOf(h, n, path).Some? && ProofOf(h, n, path).value <= proof && CollisionFree(h, n, proof)
            && Depth(n, path) <= depth ==>
              Verify(h, RefTo(h, n), path, proof, depth) == Get(n, path)
    decreases n
  {
    match n
    case Empty =>
    case Leaf(_) =>
    case Extension(key, next) =>
      if key <= path {
        ProofIsComplete(h, next, path[|key|..], proof, if depth == 0 then 0 else depth - 1);
      }
    case Branch(children) =>
      var i := if path == [] then VALUE_INDEX else path[0];
      ProofIsComplete(h, children[i], if path == [] then path else path[1..], proof, if depth == 0 then 0 else depth - 1);
  }

  // ----- the root hash -----

  /** All rows of a trie. */
  ghost function Rows(h: Hasher, n: Node): set<Row>
    requires Shaped(n)
  {
    match n
    case Empty => {}
    case Leaf(_) => {RowOf(h, n)}
    case Extension(_, next) => {RowOf(h, n)} + Rows(h, next)
    case Branch(children) =>
      {RowOf(h, n)} + set i, row | 0 <= i < CHILDREN && row in Rows(h, children[i]) :: row
  }

  lemma {:induction false} FewerRows(h: Hasher, n: Node, some: set<Row>, all: set<Row>)
    requires Shaped(n) && some <= all && CollisionFree(h, n, all)
    ensures CollisionFree(h, n, some)
    decreases n
  {
    if n.Extension? {
      FewerRows(h, n.next, some, all);
    } else if n.Branch? {
      forall i | 0 <= i < CHILDREN ensures CollisionFree(h, n.children[i], some) {
        FewerRows(h, n.children[i], some, all);
      }
    }
  }

  lemma ChildRows(h: Hasher, n: Node, i: nat)
    requires Shaped(n) && n.Branch? && i < CHILDREN
    ensures Rows(h, n.children[i]) <= Rows(h, n)
  {
  }

  /** The root hash determines the whole trie, unless rows of the two tries collide. */
  lemma {:induction false} RootHashBinds(h: Hasher, a: Node, b: Node)
    requires Shaped(a) && Shaped(b) && CollisionFree(h, a, Rows(h, b)) && RefTo(h, a) == RefTo(h, b)
    ensures a == b
    decreases a
  {
    if a != Empty {
      assert RowOf(h, b) in Rows(h, b);
      assert RowOf(h, a) == RowOf(h, b);
      match a
      case Leaf(_) =>
      case Extension(_, next) =>
        FewerRows(h, next, Rows(h, b.next), Rows(h, b));
        RootHashBinds(h, next, b.next);
      case Branch(children) =>
        forall i | 0 <= i < CHILDREN ensures children[i] == b.children[i] {
          ChildRows(h, b, i);
          FewerRows(h, children[i], Rows(h, b.children[i]), Rows(h, b));
          assert RowOf(h, a).children[i] == RowOf(h, b).children[i];
          RootHashBinds(h, children[i], b.children[i]);
        }
    }
  }
}
