/** The trie as its users see it: byte keys, limits and a root that changes in place. */
module StateTrie {
  import opened Wrappers
  import opened Trie
  import opened TrieMap

  /** Two nibbles for each byte, the high one first. */
  function Nibbles(key: seq<Byte>): (path: Path)
    ensures |path| == 2 * |key|
    ensures forall i :: 0 <= i < |key| ==> path[2 * i] == key[i] / 16 && path[2 * i + 1] == key[i] % 16
  {
    if key == [] then []
    else
      var n := |key| - 1;
      Nibbles(key[..n]) + [key[n] / 16, key[n] % 16]
  }

  lemma NibblesInjective(a: seq<Byte>, b: seq<Byte>)
    ensures Nibbles(a) == Nibbles(b) ==> a == b
  {
    if Nibbles(a) == Nibbles(b) {
      forall i | 0 <= i < |a| ensures a[i] == b[i] {
        assert Nibbles(a)[2 * i] == Nibbles(b)[2 * i] && Nibbles(a)[2 * i + 1] == Nibbles(b)[2 * i + 1];
      }
    }
  }

  predicate ValidKey(key: seq<Byte>) {
    0 < |Nibbles(key)| <= MAX_KEY_LENGTH
  }

  class StateTrie {
    var root: Node

    ghost predicate Valid()
      reads this
    {
      Canonical(root)
    }

    /** The value stored under a key. */
    ghost function At(key: seq<Byte>): Option<Value>
      requires Valid()
      reads this
    {
      Get(root, Nibbles(key))
    }

    constructor ()
      ensures Valid() && forall key :: At(key) == None
    {
      root := Empty;
    }

    method Fetch(key: seq<Byte>) returns (r: Result<Option<Value>>)
      requires Valid()
      ensures r == if 0 < |key| <= 68 then Success(At(key)) else Failure
    {
      if !ValidKey(key) {
        return Failure;
      }
      return Success(Get(root, Nibbles(key)));
    }

    /** A refused call changes nothing; an accepted one changes the value of its key and of no other. */
    method Update(key: seq<Byte>, value: Value) returns (ok: bool)
      requires Valid()
      modifies this
      ensures Valid()
      ensures ok <==> 0 < |key| <= 68 && |value| <= 65539
      ensures !ok ==> root == old(root)
      ensures ok ==> forall k :: At(k) == if k == key then Some(value) else old(At(k))
    {
      if !ValidKey(key) || MAX_VALUE_LENGTH < |value| {
        return false;
      }
      var before := root;
      root := Put(root, Nibbles(key), value);
      PutCanonical(before, Nibbles(key), value);
      forall k ensures At(k) == if k == key then Some(value) else Get(before, Nibbles(k)) {
        PutGet(before, Nibbles(key), value, Nibbles(k));
        NibblesInjective(k, key);
      }
      return true;
    }

    /** Reports whether the key was there; removing a key that was not there leaves the root as it is. */
    method Erase(key: seq<Byte>) returns (r: Result<bool>)
      requires Valid()
      modifies this
      ensures Valid()
      ensures r == if 0 < |key| <= 68 then Success(old(At(key)).Some?) else Failure
      ensures r != Success(true) ==> root == old(root)
      ensures r.Success? ==> forall k :: At(k) == if k == key then None else old(At(k))
    {
      if !ValidKey(key) {
        return Failure;
      }
      var before := root;
      var removal := Delete(root, Nibbles(key));
      root := removal.node;
      DeleteCanonical(before, Nibbles(key));
      DeleteMissing(before, Nibbles(key));
      forall k ensures At(k) == if k == key then None else Get(before, Nibbles(k)) {
        DeleteGet(before, Nibbles(key), Nibbles(k));
        NibblesInjective(k, key);
      }
      DeleteGet(before, Nibbles(key), []);
      return Success(removal.found);
    }
  }

  lemma DeleteMissing(n: Node, path: Path)
    requires Shaped(n)
    ensures !Delete(n, path).found ==> Delete(n, path).node == n
  {
  }
}
