/** Enumeration of the trie by prefix, in key order, resuming behind a given key. */
module TrieFind {
  import opened Wrappers
  import opened Sequences
  import opened Trie

  datatype Entry = Entry(path: Path, value: Value)

  /** The lexicographic order of paths. */
  predicate Less(a: Path, b: Path) {
    b != [] && (a == [] || a[0] < b[0] || (a[0] == b[0] && Less(a[1..], b[1..])))
  }

  // ----- the traversal -----

  function Traverse(n: Node, path: Path, from: Path, offset: nat): seq<Entry>
    requires Shaped(n)
    decreases n, VALUE_INDEX + 1
  {
    match n
    case Empty => []
    case Leaf(v) => if |from| <= offset && path != from then [Entry(path, v)] else []
    case Branch(children) =>
      if offset < |from| then TraverseChildren(n, 0, path, from, offset)
      else Traverse(children[VALUE_INDEX], path, from, offset) + TraverseChildren(n, 0, path, from, offset)
    case Extension(key, next) =>
      if offset < |from| && key <= from[offset..] then Traverse(next, path + key, from, offset + |key|)
      else if |from| <= offset || Less(from[offset..], key) then Traverse(next, path + key, from, |from|)
      else []
  }

  /** The children of a branch from nibble `i` on. */
  function TraverseChildren(n: Node, i: nat, path: Path, from: Path, offset: nat): seq<Entry>
    requires Shaped(n) && n.Branch? && i <= VALUE_INDEX
    decreases n, VALUE_INDEX - i
  {
    if i == VALUE_INDEX then []
    else
      var here :=
        if |from| <= offset then Traverse(n.children[i], path + [i], from, offset)
        else if from[offset] < i then Traverse(n.children[i], path + [i], from, |from|)
        else if from[offset] == i then Traverse(n.children[i], path + [i], from, offset + 1)
        else [];
      here + TraverseChildren(n, i + 1, path, from, offset)
  }

  // ----- the order -----

  lemma {:induction false} LessWithin(p: Path, a: Path, b: Path)
    ensures Less(p + a, p + b) <==> Less(a, b)
  {
    if p == [] {
      assert p + a == a && p + b == b;
    } else {
      assert (p + a)[1..] == p[1..] + a && (p + b)[1..] == p[1..] + b;
      LessWithin(p[1..], a, b);
    }
  }

  /** Paths that part are ordered by the nibbles at which they do. */
  lemma LessAt(a: Path, b: Path, k: nat)
    requires k < |a| && k < |b| && a[..k] == b[..k] && a[k] != b[k]
    ensures Less(a, b) <==> a[k] < b[k]
  {
    assert a == a[..k] + a[k..] && b == a[..k] + b[k..];
    LessWithin(a[..k], a[k..], b[k..]);
  }

  lemma LessPrefix(a: Path, b: Path)
    requires a <= b
    ensures Less(a, b) <==> a != b
    ensures !Less(b, a)
  {
    assert a == a + [] && b == a + b[|a|..];
    LessWithin(a, [], b[|a|..]);
    LessWithin(a, b[|a|..], []);
  }

  lemma {:induction false} LessTransitive(a: Path, b: Path, c: Path)
    requires Less(a, b) && Less(b, c)
    ensures Less(a, c)
  {
    if a != [] && a[0] == b[0] && b[0] == c[0] {
      LessTransitive(a[1..], b[1..], c[1..]);
    }
  }

  lemma {:induction false} LessIrreflexive(a: Path)
    ensures !Less(a, a)
  {
    if a != [] {
      LessIrreflexive(a[1..]);
    }
  }

  lemma {:induction false} LessTotal(a: Path, b: Path)
    ensures a == b || Less(a, b) || Less(b, a)
  {
    if a != [] && b != [] && a[0] == b[0] {
      LessTotal(a[1..], b[1..]);
      assert a == [a[0]] + a[1..] && b == [b[0]] + b[1..];
    }
  }

  /** What lies behind a path of a subtrie depends only on that path when it parts from `from`. */
  lemma LessBelow(from: Path, path: Path, q: Path)
    requires path <= q
    ensures Less(from, path) ==> Less(from, q)
    ensures Less(path, from) && !(path <= from) ==> !Less(from, q)
  {
    var k := CommonPrefix(from, path);
    LessPrefix(path, q);
    if k < |from| && k < |path| {
      LessAt(from, path, k);
      LessAt(path, from, k);
      assert q[..k] == path[..k] && q[k] == path[k];
      LessAt(from, q, k);
    } else if k == |from| {
      assert from <= path && from <= q;
      LessPrefix(from, path);
      LessPrefix(from, q);
    } else {
      LessPrefix(path, from);
    }
  }

  // ----- what a traversal lists -----

  predicate EntryLess(a: Entry, b: Entry) {
    Less(a.path, b.path)
  }

  /** The entry is in the subtrie `n` that hangs at `path`, and lies behind `from`. */
  ghost predicate Holds(n: Node, path: Path, from: Path, e: Entry)
    requires Shaped(n)
  {
    path <= e.path && Get(n, e.path[|path|..]) == Some(e.value) && Less(from, e.path)
  }

  /** Exactly the entries of the subtrie behind `from`, in order. */
  ghost predicate Listing(out: seq<Entry>, n: Node, path: Path, from: Path)
    requires Shaped(n)
  {
    Sorted(EntryLess, out) && forall e :: e in out <==> Holds(n, path, from, e)
  }

  /** The same, for the children from nibble `i` on. */
  ghost predicate ListingChildren(out: seq<Entry>, n: Node, i: nat, path: Path, from: Path)
    requires Shaped(n)
  {
    Sorted(EntryLess, out) &&
    forall e :: e in out <==> Holds(n, path, from, e) && |path| < |e.path| && i <= e.path[|path|]
  }

  /** How far `path` agrees with `from`: still on the way, or past it. */
  ghost predicate Position(path: Path, from: Path, offset: nat) {
    if offset < |from| then path == from[..offset] else path == from || Less(from, path)
  }

  lemma SortedConcat(a: seq<Entry>, b: seq<Entry>)
    requires Sorted(EntryLess, a) && Sorted(EntryLess, b)
    requires forall x, y :: x in a && y in b ==> EntryLess(x, y)
    ensures Sorted(EntryLess, a + b)
  {
  }

  lemma BehindPath(from: Path, path: Path, offset: nat, q: Path)
    requires Position(path, from, offset) && path <= q
    ensures |from| <= offset && path != q ==> Less(from, q)
    ensures offset < |from| && path == q ==> !Less(from, q)
    ensures |from| <= offset && path == q ==> (Less(from, q) <==> path != from)
  {
    LessBelow(from, path, q);
    LessPrefix(path, q);
    LessIrreflexive(from);
    if offset < |from| {
      LessPrefix(path, from);
    }
  }

  lemma HoldsInExtension(n: Node, path: Path, from: Path, e: Entry)
    requires Shaped(n) && n.Extension?
    ensures Holds(n, path, from, e) <==> Holds(n.next, path + n.key, from, e)
  {
    if path <= e.path {
      var s := e.path[|path|..];
      assert e.path == path + s;
      assert path + n.key <= e.path <==> n.key <= s;
      assert n.key <= s ==> e.path[|path + n.key|..] == s[|n.key|..];
    }
  }

  lemma HoldsInChild(n: Node, path: Path, from: Path, e: Entry, i: Nibble)
    requires Shaped(n) && n.Branch?
    ensures Holds(n.children[i], path + [i], from, e) <==> Holds(n, path, from, e) && |path| < |e.path| && e.path[|path|] == i
  {
    if path <= e.path && |path| < |e.path| {
      assert path + [i] <= e.path <==> e.path[|path|] == i;
      assert e.path[|path|..][1..] == e.path[|path + [i]|..];
    }
  }

  lemma ExtensionPosition(path: Path, key: Path, from: Path, offset: nat)
    requires Position(path, from, offset) && key != []
    ensures offset < |from| && key <= from[offset..] ==> Position(path + key, from, offset + |key|)
    ensures |from| <= offset || (!(key <= from[offset..]) && Less(from[offset..], key)) ==> Position(path + key, from, |from|)
    ensures offset < |from| && !(key <= from[offset..]) && !Less(from[offset..], key) ==>
              forall q :: path + key <= q ==> !Less(from, q)
  {
    LessPrefix(path, path + key);
    LessBelow(from, path, path + key);
    if offset < |from| {
      var rest := from[offset..];
      assert from == path + rest;
      LessWithin(path, rest, key);
      LessWithin(path, key, rest);
      LessTotal(key, rest);
      assert path + key <= from <==> key <= rest;
      if !(key <= rest) && !Less(rest, key) {
        forall q | path + key <= q ensures !Less(from, q) {
          LessBelow(from, path + key, q);
        }
      }
    }
  }

  lemma ExtensionLists(n: Node, path: Path, from: Path, out: seq<Entry>)
    requires Shaped(n) && n.Extension? && Listing(out, n.next, path + n.key, from)
    ensures Listing(out, n, path, from)
  {
    forall e ensures e in out <==> Holds(n, path, from, e) {
      HoldsInExtension(n, path, from, e);
    }
  }

  lemma NothingListed(n: Node, path: Path, from: Path)
    requires Shaped(n) && n.Extension? && forall q :: path + n.key <= q ==> !Less(from, q)
    ensures Listing([], n, path, from)
  {
    forall e ensures !Holds(n, path, from, e) {
      HoldsInExtension(n, path, from, e);
    }
  }

  /** A traversal lists exactly what lies behind `from`, in order. */
  lemma {:induction false} TraverseLists(n: Node, path: Path, from: Path, offset: nat)
    requires Canonical(n) && Position(path, from, offset)
    ensures Listing(Traverse(n, path, from, offset), n, path, from)
    decreases n, VALUE_INDEX + 1
  {
    match n
    case Empty =>
    case Leaf(v) => LeafLists(n, path, from, offset);
    case Extension(key, next) =>
      ExtensionPosition(path, key, from, offset);
      if offset < |from| && key <= from[offset..] {
        TraverseLists(next, path + key, from, offset + |key|);
        ExtensionLists(n, path, from, Traverse(n, path, from, offset));
      } else if |from| <= offset || Less(from[offset..], key) {
        TraverseLists(next, path + key, from, |from|);
        ExtensionLists(n, path, from, Traverse(n, path, from, offset));
      } else {
        NothingListed(n, path, from);
      }
    case Branch(children) =>
      ChildrenList(n, 0, path, from, offset);
      if |from| <= offset {
        TraverseLists(children[VALUE_INDEX], path, from, offset);
      }
      BranchLists(n, path, from, offset);
  }

  lemma LeafLists(n: Node, path: Path, from: Path, offset: nat)
    requires n.Leaf? && Position(path, from, offset)
    ensures Listing(Traverse(n, path, from, offset), n, path, from)
  {
    var out := Traverse(n, path, from, offset);
    forall e ensures e in out <==> Holds(n, path, from, e) {
      if path <= e.path {
        BehindPath(from, path, offset, e.path);
      }
    }
  }

  lemma {:induction false} ChildrenList(n: Node, i: nat, path: Path, from: Path, offset: nat)
    requires Canonical(n) && n.Branch? && i <= VALUE_INDEX && Position(path, from, offset)
    ensures ListingChildren(TraverseChildren(n, i, path, from, offset), n, i, path, from)
    decreases n, VALUE_INDEX - i
  {
    if i < VALUE_INDEX {
      var rest := TraverseChildren(n, i + 1, path, from, offset);
      ChildrenList(n, i + 1, path, from, offset);
      ChildPosition(path, i, from, offset);
      if |from| <= offset {
        TraverseLists(n.children[i], path + [i], from, offset);
        ChildJoins(n, i, path, from, Traverse(n.children[i], path + [i], from, offset), rest);
      } else if from[offset] < i {
        TraverseLists(n.children[i], path + [i], from, |from|);
        ChildJoins(n, i, path, from, Traverse(n.children[i], path + [i], from, |from|), rest);
      } else if from[offset] == i {
        TraverseLists(n.children[i], path + [i], from, offset + 1);
        ChildJoins(n, i, path, from, Traverse(n.children[i], path + [i], from, offset + 1), rest);
      } else {
        assert Listing([], n.children[i], path + [i], from);
        ChildJoins(n, i, path, from, [], rest);
      }
    }
  }

  lemma ChildPosition(path: Path, i: Nibble, from: Path, offset: nat)
    requires Position(path, from, offset)
    ensures |from| <= offset ==> Position(path + [i], from, offset)
    ensures offset < |from| && from[offset] < i ==> Position(path + [i], from, |from|)
    ensures offset < |from| && from[offset] == i ==> Position(path + [i], from, offset + 1)
    ensures offset < |from| && i < from[offset] ==> forall q :: path + [i] <= q ==> !Less(from, q)
  {
    ExtensionPosition(path, [i], from, offset);
    if offset < |from| {
      var rest := from[offset..];
      assert [i] <= rest <==> rest[0] == i;
    }
  }

  lemma ChildJoins(n: Node, i: nat, path: Path, from: Path, here: seq<Entry>, rest: seq<Entry>)
    requires Canonical(n) && n.Branch? && i < VALUE_INDEX
    requires Listing(here, n.children[i], path + [i], from) && ListingChildren(rest, n, i + 1, path, from)
    ensures ListingChildren(here + rest, n, i, path, from)
  {
    forall e ensures e in here <==> Holds(n, path, from, e) && |path| < |e.path| && e.path[|path|] == i {
      HoldsInChild(n, path, from, e, i);
    }
    forall x, y | x in here && y in rest ensures EntryLess(x, y) {
      assert Holds(n, path, from, x) && Holds(n, path, from, y);
      LessAt(x.path, y.path, |path|);
    }
    SortedConcat(here, rest);
  }

  lemma BranchLists(n: Node, path: Path, from: Path, offset: nat)
    requires Canonical(n) && n.Branch? && Position(path, from, offset)
    requires ListingChildren(TraverseChildren(n, 0, path, from, offset), n, 0, path, from)
    requires |from| <= offset ==>
               Listing(Traverse(n.children[VALUE_INDEX], path, from, offset), n.children[VALUE_INDEX], path, from)
    ensures Listing(Traverse(n, path, from, offset), n, path, from)
  {
    var below := TraverseChildren(n, 0, path, from, offset);
    if offset < |from| {
      forall e ensures e in below <==> Holds(n, path, from, e) {
        if path <= e.path {
          BehindPath(from, path, offset, e.path);
        }
      }
    } else {
      var own := Traverse(n.children[VALUE_INDEX], path, from, offset);
      forall e ensures e in own <==> Holds(n, path, from, e) && |e.path| == |path| {
        assert e in own <==> Holds(n.children[VALUE_INDEX], path, from, e);
      }
      forall x, y | x in own && y in below ensures EntryLess(x, y) {
        assert x.path == path && path <= y.path;
        LessPrefix(path, y.path);
      }
      SortedConcat(own, below);
    }
  }

  // ----- finding by prefix -----

  /** Where the search for a prefix ends: a subtrie and the path at which it hangs. */
  datatype Place = Place(path: Path, node: Option<Node>)

  function Seek(n: Node, path: Path): (r: Place)
    requires Shaped(n)
    ensures r.node.Some? ==> Shaped(r.node.value)
  {
    match n
    case Empty => Place([], None)
    case Leaf(_) => if path == [] then Place([], Some(n)) else Place([], None)
    case Branch(children) =>
      if path == [] then Place([], Some(n))
      else
        var r := Seek(children[path[0]], path[1..]);
        if r.node.None? && r.path == [] then Place([], None) else Place([path[0]] + r.path, r.node)
    case Extension(key, next) =>
      if path == [] then Place(key, Some(next))
      else if key <= path then
        var r := Seek(next, path[|key|..]);
        Place(key + r.path, r.node)
      else if path <= key then Place(key, Some(next))
      else Place([], None)
  }

  /** The subtrie found holds exactly the paths that begin with the prefix; stated for one path `q`. */
  ghost predicate Reaches(n: Node, path: Path, r: Place, q: Path)
    requires Shaped(n) && (r.node.Some? ==> Shaped(r.node.value))
  {
    if r.node.None? then path <= q ==> Get(n, q).None?
    else
      && path <= r.path
      && (path <= q && Get(n, q).Some? ==> r.path <= q)
      && (r.path <= q ==> Get(n, q) == Get(r.node.value, q[|r.path|..]))
  }

  lemma BranchReaches(n: Node, path: Path, r: Place, q: Path)
    requires Shaped(n) && n.Branch? && path != [] && (r.node.Some? ==> Shaped(r.node.value))
    requires Reaches(n.children[path[0]], path[1..], r, if q == [] then q else q[1..])
    ensures Reaches(n, path, Place([path[0]] + r.path, r.node), q)
    ensures r.node.None? ==> Reaches(n, path, Place([], None), q)
  {
    var i := path[0];
    if q != [] {
      assert path <= q <==> q[0] == i && path[1..] <= q[1..];
      assert [i] + r.path <= q <==> q[0] == i && r.path <= q[1..];
      assert [i] + r.path <= q ==> q[|[i] + r.path|..] == q[1..][|r.path|..];
    }
  }

  lemma ExtensionReaches(n: Node, path: Path, r: Place, q: Path)
    requires Shaped(n) && n.Extension? && n.key <= path && (r.node.Some? ==> Shaped(r.node.value))
    requires Reaches(n.next, path[|n.key|..], r, if n.key <= q then q[|n.key|..] else [])
    ensures Reaches(n, path, Place(n.key + r.path, r.node), q)
  {
    var key := n.key;
    assert path == key + path[|key|..];
    if key <= q {
      assert q == key + q[|key|..];
      assert path <= q <==> path[|key|..] <= q[|key|..];
      assert key + r.path <= q <==> r.path <= q[|key|..];
      assert key + r.path <= q ==> q[|key + r.path|..] == q[|key|..][|r.path|..];
    }
  }

  lemma {:induction false} SeekFinds(n: Node, path: Path, q: Path)
    requires Canonical(n)
    ensures Reaches(n, path, Seek(n, path), q)
    ensures Seek(n, path).node.Some? ==> Canonical(Seek(n, path).node.value)
    decreases n
  {
    match n
    case Empty =>
    case Leaf(_) =>
    case Branch(children) =>
      if path != [] {
        SeekFinds(children[path[0]], path[1..], if q == [] then q else q[1..]);
        BranchReaches(n, path, Seek(children[path[0]], path[1..]), q);
      }
    case Extension(key, next) =>
      if path != [] && key <= path {
        SeekFinds(next, path[|key|..], if key <= q then q[|key|..] else []);
        ExtensionReaches(n, path, Seek(next, path[|key|..]), q);
      }
  }

  /** The offset from which a traversal of the subtrie at `path` has to compare, if it has to start at all. */
  function StartOffset(path: Path, from: Path): Option<nat> {
    var k := CommonPrefix(path, from);
    if k < |path| && k < |from| then (if path[k] < from[k] then None else Some(|from|)) else Some(k)
  }

  /** The entries under `prefix` behind `from`; `from` has to begin with the prefix. */
  function Find(n: Node, prefix: Path, from: Option<Path>): Result<seq<Entry>>
    requires Shaped(n)
  {
    if from.Some? && !(prefix <= from.value) then Failure
    else
      var start, f := Seek(n, prefix), if from.Some? then from.value else [];
      var offset := StartOffset(start.path, f);
      if start.node.None? || offset.None? then Success([])
      else Success(Traverse(start.node.value, start.path, f, offset.value))
  }

  lemma StartPosition(path: Path, from: Path)
    ensures StartOffset(path, from).Some? ==> Position(path, from, StartOffset(path, from).value)
    ensures StartOffset(path, from).None? ==> forall q :: path <= q ==> !Less(from, q)
  {
    var k := CommonPrefix(path, from);
    if k < |path| && k < |from| {
      LessAt(from, path, k);
      LessAt(path, from, k);
      if path[k] < from[k] {
        forall q | path <= q ensures !Less(from, q) {
          LessBelow(from, path, q);
        }
      }
    } else if k == |from| {
      LessPrefix(from, path);
    }
  }

  ghost predicate Wanted(n: Node, prefix: Path, from: Path, e: Entry)
    requires Shaped(n)
  {
    prefix <= e.path && Get(n, e.path) == Some(e.value) && Less(from, e.path)
  }

  /** A search lists exactly the entries under the prefix behind `from`, in key order. Without `from`
      that is every entry but the one at the empty path, which no key has. */
  lemma FindLists(n: Node, prefix: Path, from: Option<Path>)
    requires Canonical(n)
    ensures var r := Find(n, prefix, from);
            && (r.Failure? <==> from.Some? && !(prefix <= from.value))
            && (r.Success? ==> Sorted(EntryLess, r.value)
                               && forall e :: e in r.value <==> Wanted(n, prefix, if from.Some? then from.value else [], e))
  {
    hide Traverse, Seek, Get, Less, StartOffset;
    var r := Find(n, prefix, from);
    if r.Success? {
      var start, f := Seek(n, prefix), if from.Some? then from.value else [];
      var offset := StartOffset(start.path, f);
      StartPosition(start.path, f);
      SeekFinds(n, prefix, []);
      if start.node.Some? && offset.Some? {
        TraverseLists(start.node.value, start.path, f, offset.value);
      }
      forall e ensures e in r.value <==> Wanted(n, prefix, f, e) {
        SeekFinds(n, prefix, e.path);
      }
    }
  }

  lemma LessIsStrict()
    ensures StrictOrder(EntryLess)
  {
    forall x: Entry ensures !EntryLess(x, x) {
      LessIrreflexive(x.path);
    }
    forall x: Entry, y: Entry, z: Entry | EntryLess(x, y) && EntryLess(y, z) ensures EntryLess(x, z) {
      LessTransitive(x.path, y.path, z.path);
    }
  }

  /** Paging: a search that resumes behind the last entry of a page yields exactly the remaining entries. */
  lemma PagesJoin(n: Node, prefix: Path, from: Option<Path>, k: nat)
    requires Canonical(n) && Find(n, prefix, from).Success? && 0 < k <= |Find(n, prefix, from).value|
    ensures var all := Find(n, prefix, from).value;
            Find(n, prefix, Some(all[k - 1].path)) == Success(all[k..])
  {
    hide Find, Get, Less;
    var all, f := Find(n, prefix, from).value, if from.Some? then from.value else [];
    var last := all[k - 1];
    FindLists(n, prefix, from);
    assert last in all && Wanted(n, prefix, f, last);
    FindLists(n, prefix, Some(last.path));
    var page := Find(n, prefix, Some(last.path)).value;
    LessIsStrict();
    forall e ensures e in page <==> e in all[k..] {
      PageMember(n, prefix, f, all, k, e);
    }
    SortedUnique(EntryLess, page, all[k..]);
  }

  lemma LessAsymmetric(a: Path, b: Path)
    requires Less(a, b)
    ensures !Less(b, a)
  {
    if Less(b, a) {
      LessTransitive(a, b, a);
      LessIrreflexive(a);
    }
  }

  lemma PageMember(n: Node, prefix: Path, f: Path, all: seq<Entry>, k: nat, e: Entry)
    requires Shaped(n) && 0 < k <= |all| && Sorted(EntryLess, all)
    requires forall x :: x in all <==> Wanted(n, prefix, f, x)
    ensures Wanted(n, prefix, all[k - 1].path, e) <==> e in all[k..]
  {
    hide Get, Less;
    var last := all[k - 1];
    assert last in all;
    forall i | 0 <= i < k ensures !Less(last.path, all[i].path) {
      if i == k - 1 {
        LessIrreflexive(last.path);
      } else {
        assert EntryLess(all[i], last);
        LessAsymmetric(all[i].path, last.path);
      }
    }
    if Wanted(n, prefix, last.path, e) {
      LessTransitive(f, last.path, e.path);
      assert Wanted(n, prefix, f, e);
      var i :| 0 <= i < |all| && all[i] == e;
      assert all[k..][i - k] == e;
    }
    if e in all[k..] {
      var i :| 0 <= i < |all[k..]| && all[k..][i] == e;
      assert e == all[k + i] && e in all;
      assert EntryLess(last, e);
    }
  }
}
