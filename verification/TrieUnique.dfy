/** The trie does not depend on how its contents came about. */
module TrieUnique {
  import opened Wrappers
  import opened Trie
  import opened TrieMap

  ghost predicate SameContents(a: Node, b: Node)
    requires Shaped(a) && Shaped(b)
  {
    forall q :: Get(a, q) == Get(b, q)
  }

  /** A leaf or branch holds a path that does not begin with the nibble `h`. */
  lemma {:induction false} PathAvoiding(n: Node, h: nat) returns (q: Path)
    requires Canonical(n) && (n.Leaf? || n.Branch?)
    ensures Get(n, q).Some? && (q == [] || q[0] != h)
    decreases n, 0
  {
    match n
    case Leaf(_) => q := [];
    case Branch(children) =>
      var a, b :| 0 <= a < b < CHILDREN && children[a] != Empty && children[b] != Empty;
      var i := if a == h then b else a;
      var rest := SomePath(children[i]);
      if i == VALUE_INDEX {
        assert children[i].Leaf?;
        q := [];
      } else {
        q := [i] + rest;
        assert q[1..] == rest;
      }
  }

  /** A canonical trie that is not empty holds something. */
  lemma {:induction false} SomePath(n: Node) returns (q: Path)
    requires Canonical(n) && n != Empty
    ensures Get(n, q).Some?
    decreases n, 1
  {
    match n
    case Extension(key, next) =>
      var rest := SomePath(next);
      q := key + rest;
      assert q[|key|..] == rest;
    case Leaf(_) => q := [];
    case Branch(_) => q := PathAvoiding(n, 0);
  }

  /** Tries of different kinds differ at some path. */
  lemma Distinguish(a: Node, b: Node) returns (q: Path)
    requires Canonical(a) && Canonical(b)
    requires a.Empty? != b.Empty? || a.Leaf? != b.Leaf? || a.Extension? != b.Extension?
    ensures Get(a, q) != Get(b, q)
  {
    if a.Empty? {
      q := SomePath(b);
    } else if b.Empty? {
      q := SomePath(a);
    } else if a.Branch? {
      if b.Leaf? {
        q := NonEmptyPath(a);
      } else {
        q := PathAvoiding(a, b.key[0]);
      }
    } else if b.Branch? {
      if a.Leaf? {
        q := NonEmptyPath(b);
      } else {
        q := PathAvoiding(b, a.key[0]);
      }
    } else {
      q := [];
    }
  }

  lemma SameKind(a: Node, b: Node)
    requires Canonical(a) && Canonical(b) && SameContents(a, b)
    ensures a.Empty? == b.Empty? && a.Leaf? == b.Leaf? && a.Extension? == b.Extension?
  {
    if a.Empty? != b.Empty? || a.Leaf? != b.Leaf? || a.Extension? != b.Extension? {
      var q := Distinguish(a, b);
    }
  }

  lemma NonEmptyPath(n: Node) returns (q: Path)
    requires Canonical(n) && n.Branch?
    ensures Get(n, q).Some? && q != []
  {
    var a, b :| 0 <= a < b < CHILDREN && n.children[a] != Empty && n.children[b] != Empty;
    var rest := SomePath(n.children[a]);
    q := [a] + rest;
    assert q[1..] == rest;
  }

  /** Unless the key of `b` is a prefix of the key of `a`, some path of `a` leaves it. */
  lemma LeavesKey(a: Node, b: Node) returns (q: Path)
    requires Canonical(a) && Canonical(b) && a.Extension? && b.Extension? && !(b.key <= a.key)
    ensures Get(a, q) != Get(b, q)
  {
    var rest := PathAvoiding(a.next, if |a.key| < |b.key| then b.key[|a.key|] else 0);
    q := a.key + rest;
    assert q[|a.key|..] == rest;
    if |a.key| < |b.key| {
      assert |a.key| < |q| ==> q[|a.key|] == rest[0];
    } else {
      assert q[..|b.key|] == a.key[..|b.key|];
    }
  }

  lemma SameKey(a: Node, b: Node)
    requires Canonical(a) && Canonical(b) && a.Extension? && b.Extension? && SameContents(a, b)
    ensures a.key == b.key
  {
    if !(b.key <= a.key) {
      var q := LeavesKey(a, b);
    } else if !(a.key <= b.key) {
      var q := LeavesKey(b, a);
    }
  }

  lemma ChildContents(a: Node, b: Node, i: nat)
    requires Canonical(a) && Canonical(b) && a.Branch? && b.Branch? && SameContents(a, b) && i < CHILDREN
    ensures SameContents(a.children[i], b.children[i])
  {
    forall q ensures Get(a.children[i], q) == Get(b.children[i], q) {
      if i == VALUE_INDEX {
        assert Get(a, []) == Get(b, []);
      } else {
        assert ([i] + q)[1..] == q;
        assert Get(a, [i] + q) == Get(b, [i] + q);
      }
    }
  }

  lemma NextContents(a: Node, b: Node)
    requires Canonical(a) && Canonical(b) && a.Extension? && b.Extension? && a.key == b.key && SameContents(a, b)
    ensures SameContents(a.next, b.next)
  {
    forall q ensures Get(a.next, q) == Get(b.next, q) {
      assert (a.key + q)[|a.key|..] == q;
      assert Get(a, a.key + q) == Get(b, a.key + q);
    }
  }

  /** Canonical tries with the same contents are the same trie. */
  lemma {:induction false} CanonicalUnique(a: Node, b: Node)
    requires Canonical(a) && Canonical(b) && SameContents(a, b)
    ensures a == b
    decreases a
  {
    hide SameContents, Get;
    SameKind(a, b);
    match a
    case Empty =>
    case Leaf(_) => LeafContents(a, b);
    case Extension(_, next) =>
      SameKey(a, b);
      NextContents(a, b);
      CanonicalUnique(next, b.next);
    case Branch(children) =>
      forall i | 0 <= i < CHILDREN ensures children[i] == b.children[i] {
        ChildContents(a, b, i);
        CanonicalUnique(children[i], b.children[i]);
      }
  }

  lemma LeafContents(a: Node, b: Node)
    requires a.Leaf? && b.Leaf? && SameContents(a, b)
    ensures a == b
  {
    assert Get(a, []) == Get(b, []);
  }

  // ----- histories -----

  datatype Change = Store(path: Path, value: Value) | Remove(path: Path)

  function Applied(n: Node, c: Change): Node
    requires Shaped(n)
  {
    match c
    case Store(path, v) => Put(n, path, v)
    case Remove(path) => Delete(n, path).node
  }

  /** The trie after a sequence of changes. */
  function Replayed(changes: seq<Change>): (n: Node)
    ensures Canonical(n)
  {
    if changes == [] then Empty
    else
      var last := changes[|changes| - 1];
      var before := Replayed(changes[..|changes| - 1]);
      PutCanonical(before, last.path, if last.Store? then last.value else []);
      DeleteCanonical(before, last.path);
      Applied(before, last)
  }

  /** What the changes amount to: the last one of each path counts. */
  function Contents(changes: seq<Change>): map<Path, Value> {
    if changes == [] then map[]
    else
      var last, before := changes[|changes| - 1], Contents(changes[..|changes| - 1]);
      match last
      case Store(path, v) => before[path := v]
      case Remove(path) => before - {path}
  }

  lemma {:induction false} ReplayedHolds(changes: seq<Change>, q: Path)
    ensures Get(Replayed(changes), q) == if q in Contents(changes) then Some(Contents(changes)[q]) else None
  {
    hide Get, Put, Delete;
    if changes == [] {
      NothingStored(q);
    } else {
      var last := changes[|changes| - 1];
      var before := Replayed(changes[..|changes| - 1]);
      ReplayedHolds(changes[..|changes| - 1], q);
      if last.Store? {
        PutGet(before, last.path, last.value, q);
      } else {
        DeleteGet(before, last.path, q);
      }
    }
  }

  lemma NothingStored(q: Path)
    ensures Get(Empty, q) == None
  {
  }

  /** Whatever the order, the overwriting and the detours: equal contents give the same trie. */
  lemma HistoryIndependent(a: seq<Change>, b: seq<Change>)
    ensures Contents(a) == Contents(b) <==> Replayed(a) == Replayed(b)
  {
    hide Get, Replayed, Contents;
    if Contents(a) == Contents(b) {
      forall q ensures Get(Replayed(a), q) == Get(Replayed(b), q) {
        ReplayedHolds(a, q);
        ReplayedHolds(b, q);
      }
      CanonicalUnique(Replayed(a), Replayed(b));
    } else if Replayed(a) == Replayed(b) {
      forall q ensures q in Contents(a) <==> q in Contents(b) {
        ReplayedHolds(a, q);
        ReplayedHolds(b, q);
      }
      forall q | q in Contents(a) ensures Contents(a)[q] == Contents(b)[q] {
        ReplayedHolds(a, q);
        ReplayedHolds(b, q);
      }
    }
  }
}
