/** The bytes of trie rows, which are what is hashed. */
module TrieRows {
  import opened Wrappers
  import opened StackItems
  import opened Trie
  import opened TrieProof

  type Digest = seq<Byte> -> Hash

  // ----- encoding -----

  /** The shortest width that holds a number. */
  function WidthFor(n: nat): (w: Width)
    ensures n < Power(8) ==> w.Holds(n)
    ensures forall v: Width :: v.Holds(n) ==> w.Payload() <= v.Payload()
  {
    if n < 0xFD then One else if n < 0x1_0000 then Three else if n < 0x1_0000_0000 then Five else Nine
  }

  function VarBytes(s: seq<Byte>): seq<Byte>
    requires |s| < Power(8)
  {
    VarInt(|s|, WidthFor(|s|)) + s
  }

  /** A child: the type byte of a hash node and the hash, or the type byte of an empty node. */
  function RefBytes(r: Ref): seq<Byte> {
    match r
    case Nothing => [4]
    case To(hash) => [3] + hash
  }

  function RefsBytes(refs: seq<Ref>): seq<Byte> {
    if refs == [] then [] else RefBytes(refs[0]) + RefsBytes(refs[1..])
  }

  /** Keys and values are shorter than their length prefix can hold, and a branch has all its children. */
  predicate Encodable(row: Row) {
    match row
    case LeafRow(v) => |v| < Power(8)
    case ExtensionRow(key, _) => |key| < Power(8)
    case BranchRow(children) => |children| == CHILDREN
  }

  function RowBytes(row: Row): seq<Byte>
    requires Encodable(row)
  {
    match row
    case BranchRow(children) => [0] + RefsBytes(children)
    case ExtensionRow(key, next) => [1] + (VarBytes(key) + RefBytes(next))
    case LeafRow(v) => [2] + VarBytes(v)
  }

  // ----- the encoding is injective -----

  lemma VarBytesPrefix(a: seq<Byte>, x: seq<Byte>, b: seq<Byte>, y: seq<Byte>)
    requires |a| < Power(8) && |b| < Power(8) && VarBytes(a) + x == VarBytes(b) + y
    ensures a == b && x == y
  {
    hide VarInt, ReadVarInt, Power;
    var data := VarBytes(a) + x;
    var p, q := VarInt(|a|, WidthFor(|a|)), VarInt(|b|, WidthFor(|b|));
    assert data == p + (a + x) && data == q + (b + y);
    assert At(data, 0, p) && At(data, 0, q);
    VarIntRead(data, 0, |a|, WidthFor(|a|));
    VarIntRead(data, 0, |b|, WidthFor(|b|));
    assert |p| == |q|;
    assert data[|p|..] == a + x && data[|p|..] == b + y;
    assert a == (a + x)[..|a|] && b == (b + y)[..|b|];
    assert x == (a + x)[|a|..] && y == (b + y)[|b|..];
  }

  lemma RefBytesPrefix(a: Ref, x: seq<Byte>, b: Ref, y: seq<Byte>)
    requires RefBytes(a) + x == RefBytes(b) + y
    ensures a == b && x == y
  {
    var data := RefBytes(a) + x;
    assert data[0] == RefBytes(a)[0] && data[0] == RefBytes(b)[0];
    var n := |RefBytes(a)|;
    assert data[..n] == RefBytes(a) && data[n..] == x;
    assert (RefBytes(b) + y)[..n] == RefBytes(b) && (RefBytes(b) + y)[n..] == y;
    if a.To? {
      assert RefBytes(a)[1..] == a.hash && RefBytes(b)[1..] == b.hash;
    }
  }

  lemma {:induction false} RefsBytesInjective(a: seq<Ref>, b: seq<Ref>)
    requires |a| == |b| && RefsBytes(a) == RefsBytes(b)
    ensures a == b
  {
    if a != [] {
      RefBytesPrefix(a[0], RefsBytes(a[1..]), b[0], RefsBytes(b[1..]));
      RefsBytesInjective(a[1..], b[1..]);
      assert a == [a[0]] + a[1..] && b == [b[0]] + b[1..];
    }
  }

  /** Different rows have different bytes. */
  lemma RowBytesInjective(a: Row, b: Row)
    requires Encodable(a) && Encodable(b) && RowBytes(a) == RowBytes(b)
    ensures a == b
  {
    hide VarBytes, RefsBytes, RefBytes, Power;
    assert RowBytes(a)[0] == RowBytes(b)[0];
    assert RowBytes(a)[1..] == RowBytes(b)[1..];
    match a
    case BranchRow(children) =>
      RefsBytesInjective(children, b.children);
    case ExtensionRow(key, next) =>
      VarBytesPrefix(key, RefBytes(next), b.key, RefBytes(b.next));
      assert RefBytes(next) + [] == RefBytes(next) && RefBytes(b.next) + [] == RefBytes(b.next);
      RefBytesPrefix(next, [], b.next, []);
    case LeafRow(v) =>
      assert VarBytes(v) + [] == VarBytes(v) && VarBytes(b.value) + [] == VarBytes(b.value);
      VarBytesPrefix(v, [], b.value, []);
  }

  // ----- hashes of bytes -----

  function HashOf(g: Digest, row: Row): Hash {
    if Encodable(row) then g(RowBytes(row)) else g([])
  }

  /** The hash of a row is the hash of its bytes. */
  function ByBytes(g: Digest): Hasher {
    (row: Row) => HashOf(g, row)
  }

  /** Every key and value of the trie can be encoded. */
  ghost predicate Small(n: Node)
    requires Shaped(n)
  {
    match n
    case Empty => true
    case Leaf(v) => |v| < Power(8)
    case Extension(key, next) => |key| < Power(8) && Small(next)
    case Branch(children) => forall i :: 0 <= i < CHILDREN ==> Small(children[i])
  }

  lemma {:induction false} SmallRows(h: Hasher, n: Node)
    requires Shaped(n) && Small(n)
    ensures forall row :: row in Rows(h, n) ==> Encodable(row)
    decreases n
  {
    hide Power;
    match n
    case Empty =>
    case Leaf(_) =>
    case Extension(_, next) => SmallRows(h, next);
    case Branch(children) =>
      forall i | 0 <= i < CHILDREN ensures forall row :: row in Rows(h, children[i]) ==> Encodable(row) {
        SmallRows(h, children[i]);
      }
  }

  /** The digest does not map the bytes of two of these rows to the same hash unless the bytes are the same. */
  ghost predicate NoByteCollision(g: Digest, some: set<Row>, others: set<Row>) {
    forall a, b :: a in some && b in others && Encodable(a) && Encodable(b) && g(RowBytes(a)) == g(RowBytes(b)) ==>
      RowBytes(a) == RowBytes(b)
  }

  lemma NoRowCollision(g: Digest, some: set<Row>, others: set<Row>, a: Row, b: Row)
    requires NoByteCollision(g, some, others) && a in some && b in others && Encodable(a) && Encodable(b)
    requires ByBytes(g)(a) == ByBytes(g)(b)
    ensures a == b
  {
    RowBytesInjective(a, b);
  }

  lemma {:induction false} BytesSuffice(g: Digest, n: Node, rows: set<Row>)
    requires Shaped(n) && Small(n) && (forall row :: row in rows ==> Encodable(row))
    requires NoByteCollision(g, Rows(ByBytes(g), n), rows)
    ensures CollisionFree(ByBytes(g), n, rows)
    decreases n
  {
    hide RowBytes, Encodable, NoByteCollision, Power;
    var h := ByBytes(g);
    if n != Empty {
      SmallRows(h, n);
      forall p | p in rows && h(p) == h(RowOf(h, n)) ensures p == RowOf(h, n) {
        NoRowCollision(g, Rows(h, n), rows, RowOf(h, n), p);
      }
      if n.Extension? {
        FewerCollisions(g, Rows(h, n.next), Rows(h, n), rows);
        BytesSuffice(g, n.next, rows);
      } else if n.Branch? {
        forall i | 0 <= i < CHILDREN ensures CollisionFree(h, n.children[i], rows) {
          ChildRows(h, n, i);
          FewerCollisions(g, Rows(h, n.children[i]), Rows(h, n), rows);
          BytesSuffice(g, n.children[i], rows);
        }
      }
    }
  }

  lemma FewerCollisions(g: Digest, some: set<Row>, more: set<Row>, others: set<Row>)
    requires NoByteCollision(g, more, others) && some <= more
    ensures NoByteCollision(g, some, others)
  {
  }

  /** Tries with the same root hash are the same, unless the bytes of two of their rows collide. */
  lemma RootHashBindsBytes(g: Digest, a: Node, b: Node)
    requires Shaped(a) && Shaped(b) && Small(a) && Small(b)
    requires NoByteCollision(g, Rows(ByBytes(g), a), Rows(ByBytes(g), b))
    requires RefTo(ByBytes(g), a) == RefTo(ByBytes(g), b)
    ensures a == b
  {
    hide Encodable, NoByteCollision, Small, RefTo, CollisionFree, Rows;
    SmallRows(ByBytes(g), b);
    BytesSuffice(g, a, Rows(ByBytes(g), b));
    RootHashBinds(ByBytes(g), a, b);
  }

  /** No rows verify to anything but what the trie holds, unless their bytes collide with bytes of its rows. */
  lemma ProofIsSoundOnBytes(g: Digest, n: Node, path: Path, proof: set<Row>, depth: nat)
    requires Shaped(n) && Small(n) && (forall row :: row in proof ==> Encodable(row))
    requires NoByteCollision(g, Rows(ByBytes(g), n), proof)
    ensures var v := Verify(ByBytes(g), RefTo(ByBytes(g), n), path, proof, depth);
            v.Some? ==> v == Get(n, path)
  {
    BytesSuffice(g, n, proof);
    ProofIsSound(ByBytes(g), n, path, proof, depth);
  }
}
