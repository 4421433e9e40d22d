/** The search for the first block whose state roots differ.

    Every node has a root for every block, but any single request may go
    unanswered: `up` says which requests, by number and block, are answered.
 */
module Divergence {
  import opened Wrappers

  type Root = string

  datatype Node = Node(root: int -> Root, up: (nat, int) -> bool) {
    function Get(t: nat, block: int): Option<Root> {
      if up(t, block) then Some(root(block)) else None
    }
  }

  ghost predicate Same(local: Node, reference: Node, block: int) {
    local.root(block) == reference.root(block)
  }

  /** `block` lies in the searched range, its roots differ and those of its predecessor agree. */
  ghost predicate Diverges(local: Node, reference: Node, block: int, top: int) {
    0 < block <= top && !Same(local, reference, block) && Same(local, reference, block - 1)
  }

  /** Once the roots differ they differ for good. */
  ghost predicate Permanent(local: Node, reference: Node) {
    forall i, j :: i <= j && !Same(local, reference, i) ==> !Same(local, reference, j)
  }

  /** If divergence is permanent, the only diverging block is the first one. */
  lemma DivergingBlockIsFirst(local: Node, reference: Node, block: int, top: int, earlier: int)
    requires Permanent(local, reference) && Diverges(local, reference, block, top)
    ensures earlier < block <==> Same(local, reference, earlier)
  {
    if earlier < block {
      assert earlier <= block - 1;
    } else {
      assert block <= earlier;
    }
  }

  function PowerOfTwo(n: nat): nat {
    if n == 0 then 1 else 2 * PowerOfTwo(n - 1)
  }

  ghost predicate Answering(node: Node, from: int, to: int) {
    forall t: nat, block :: from <= block < to ==> node.up(t, block)
  }

  /** The blocks from `from` to below `to` are all available and agree. */
  ghost predicate Quiet(local: Node, reference: Node, from: int, to: int) {
    && Answering(local, from, to) && Answering(reference, from, to)
    && forall block :: from <= block < to ==> Same(local, reference, block)
  }

  datatype Near = Found(block: int, same: bool) | NotFound

  /** Both requests for the block `offset` behind `mid` are answered, in a row of requests that starts at `t`. */
  predicate BothAnswer(local: Node, reference: Node, t: nat, mid: int, offset: int)
    requires 1 <= offset
  {
    local.up(t + 2 * (offset - 1), mid + offset) && reference.up(t + 2 * (offset - 1) + 1, mid + offset)
  }

  /** Of the next `n` blocks up to `high` none is returned by both nodes. */
  ghost predicate NoneNear(local: Node, reference: Node, t: nat, mid: int, n: int, high: int) {
    forall k :: 1 <= k <= n && mid + k <= high ==> !BothAnswer(local, reference, t, mid, k)
  }

  /** The nearest of the next four blocks up to `high` that both nodes return. */
  method Nearby(local: Node, reference: Node, t: nat, mid: int, high: int) returns (r: Near, t': nat)
    ensures r.Found? ==>
              && mid < r.block <= high && r.block <= mid + 4
              && r.same == Same(local, reference, r.block)
              && BothAnswer(local, reference, t, mid, r.block - mid)
              && NoneNear(local, reference, t, mid, r.block - mid - 1, high)
    ensures r.NotFound? ==> NoneNear(local, reference, t, mid, 4, high)
  {
    t' := t;
    for offset := 1 to 5
      invariant NoneNear(local, reference, t, mid, offset - 1, high)
      invariant mid + offset - 1 <= high ==> t' == t + 2 * (offset - 1)
    {
      if mid + offset <= high {
        var lr, rr := local.Get(t', mid + offset), reference.Get(t' + 1, mid + offset);
        t' := t' + 2;
        if lr.Some? && rr.Some? {
          return Found(mid + offset, lr == rr), t';
        }
      }
    }
    return NotFound, t';
  }

  /** An interval that the search can be in: it begins with or behind an agreeing block and ends at `top` or
      at a differing block. */
  ghost predicate Bracket(local: Node, reference: Node, top: int, l: int, h: int) {
    && 0 <= l < h <= top
    && (Same(local, reference, l) || (0 < l && Same(local, reference, l - 1)))
    && (h == top || !Same(local, reference, h))
  }

  /** From request `t` on the middle of the interval could not be compared: the local node did not return it
      and no block of the next four was returned by both nodes, or the reference failed twice. */
  ghost predicate Stuck(local: Node, reference: Node, top: int, t: nat, l: int, h: int) {
    var mid := (l + h) / 2;
    && Bracket(local, reference, top, l, h)
    && ((!local.up(t, mid) && NoneNear(local, reference, t + 1, mid, 4, h))
        || (local.up(t, mid) && !reference.up(t + 1, mid) && !reference.up(t + 2, mid)))
  }

  /** The middle is missing and its nearest substitute is the upper end itself, so the interval stays as it is. */
  ghost predicate Stalled(local: Node, reference: Node, top: int, t: nat, l: int, h: int) {
    var mid := (l + h) / 2;
    && Bracket(local, reference, top, l, h) && !Same(local, reference, h) && h <= mid + 4
    && !local.up(t, mid) && BothAnswer(local, reference, t + 1, mid, h - mid)
    && NoneNear(local, reference, t + 1, mid, h - mid - 1, h)
  }

  ghost predicate SomewhereStuck(local: Node, reference: Node, top: int) {
    exists t, l, h :: Stuck(local, reference, top, t, l, h)
  }

  ghost predicate SomewhereStalled(local: Node, reference: Node, top: int) {
    exists t, l, h :: Stalled(local, reference, top, t, l, h)
  }

  lemma IsStuck(local: Node, reference: Node, top: int, t: nat, l: int, h: int)
    requires Stuck(local, reference, top, t, l, h)
    ensures SomewhereStuck(local, reference, top)
  {
  }

  lemma IsStalled(local: Node, reference: Node, top: int, t: nat, l: int, h: int)
    requires Stalled(local, reference, top, t, l, h)
    ensures SomewhereStalled(local, reference, top)
  {
  }

  /** Binary search. It fails only where roots could not be got, and is given up only after `patience` rounds
      in which a substitute left the interval as it was; such rounds the original repeats for ever.

      A block below `high` is returned only if it diverges; `high` itself is
      returned rightly exactly when its roots differ, which the search does not check. */
  method BinarySearch(local: Node, reference: Node, t: nat, low: int, high: int, patience: nat, ghost bits: nat)
    returns (r: Option<int>, stopped: bool, rounds: nat)
    requires 0 <= low <= high && Same(local, reference, low)
    ensures r.Some? ==> low <= r.value <= high + 1
    ensures r.Some? ==> (Diverges(local, reference, r.value, high) <==> !Same(local, reference, high) || r.value < high)
    ensures r.None? && !stopped ==> SomewhereStuck(local, reference, high)
    ensures stopped ==> r.None? && SomewhereStalled(local, reference, high)
    ensures Answering(local, low, high) && Answering(reference, low, high) ==> r.Some?
    ensures Answering(local, low, high) && Answering(reference, low, high) && high - low < PowerOfTwo(bits) ==> rounds <= bits
    ensures Quiet(local, reference, low, high) ==> r == Some(high)
  {
    hide SomewhereStuck, SomewhereStalled, NoneNear;
    var t', l, h, left := t, low, high, patience;
    rounds := 0;
    while l < h
      invariant low <= l <= h + 1 && h <= high
      invariant l == low || Same(local, reference, l - 1)
      invariant h < high ==> !Same(local, reference, h) && l <= h
      invariant l == h + 1 ==> h == high && Same(local, reference, high)
      invariant Answering(local, low, high) && Answering(reference, low, high) ==> l <= h
      invariant Answering(local, low, high) && Answering(reference, low, high) && high - low < PowerOfTwo(bits) ==>
                  rounds <= bits && h - l < PowerOfTwo(bits - rounds)
      invariant Quiet(local, reference, low, high) ==> h == high
      decreases h - l, left
    {
      assert Bracket(local, reference, high, l, h);
      rounds := rounds + 1;
      var mid := (l + h) / 2;
      var localRoot := local.Get(t', mid);
      t' := t' + 1;
      if localRoot.None? {
        var near;
        ghost var asked := t' - 1;
        near, t' := Nearby(local, reference, t', mid, h);
        if near.NotFound? {
          IsStuck(local, reference, high, asked, l, h);
          return None, false, rounds;
        }
        if near.same {
          l := near.block + 1;
        } else {
          if near.block == h {
            if left == 0 {
              IsStalled(local, reference, high, asked, l, h);
              return None, true, rounds;
            }
            left := left - 1;
          }
          h := near.block;
        }
        continue;
      }
      var refRoot := reference.Get(t', mid);
      t' := t' + 1;
      if refRoot.None? {
        refRoot := reference.Get(t', mid);
        t' := t' + 1;
        if refRoot.None? {
          IsStuck(local, reference, high, t' - 3, l, h);
          return None, false, rounds;
        }
      }
      if localRoot == refRoot {
        l := mid + 1;
      } else {
        h := mid;
      }
    }
    return Some(l), false, rounds;
  }

  /** Exponential probing: the powers of two below `top`, then `top` itself. */
  method Probe(local: Node, reference: Node, t: nat, top: int) returns (low: int, high: int, t': nat)
    requires 0 <= top && Same(local, reference, 0)
    ensures 0 <= low <= high <= top && Same(local, reference, low)
    ensures !Same(local, reference, high) <==> !Same(local, reference, top) || high < top
    ensures Quiet(local, reference, 0, top) ==> high == top
    ensures Answering(local, 0, top + 1) && Answering(reference, 0, top + 1) && !Same(local, reference, top) ==>
              high <= 1 || high <= 2 * low
  {
    low, high, t' := 0, top, t;
    var p := 1;
    var probing := true;
    while probing
      invariant 0 <= low <= high == top && low < p && 1 <= p && Same(local, reference, low)
      invariant Answering(local, 0, top + 1) && Answering(reference, 0, top + 1) && !Same(local, reference, top) ==>
                  probing && (p == 1 || p == 2 * low)
      decreases probing, top - p
    {
      var probe := if p < top then p else top;
      probing := p < top;
      var lr, rr := local.Get(t', probe), reference.Get(t' + 1, probe);
      t' := t' + 2;
      if lr.Some? && rr.Some? {
        if lr == rr {
          low := probe;
        } else {
          high := probe;
          return;
        }
      }
      p := p * 2;
    }
  }

  datatype Outcome =
    | Unreachable
    | Genesis
    | NoDivergence(top: int)
    | Failed(top: int)
    | Reported(block: int, top: int, confirmed: bool)

  /** Requests made from the top down: the one for block `k` has the number `t + (top - k)`. */
  predicate AnswersAt(local: Node, t: nat, top: int, k: int)
    requires k <= top
  {
    local.up(t + (top - k), k)
  }

  /** The highest of the last hundred blocks whose root the local node returns. */
  method HighestAvailable(local: Node, t: nat, top: int) returns (r: Option<int>, t': nat)
    requires 0 <= top
    ensures r.Some? ==> 0 < r.value <= top && top - 100 < r.value && AnswersAt(local, t, top, r.value)
    ensures r.Some? ==> forall k :: r.value < k <= top ==> !AnswersAt(local, t, top, k)
    ensures r.None? ==> forall k :: 0 < k <= top && top - 100 < k ==> !AnswersAt(local, t, top, k)
    ensures r.Some? ==> t' == t + (top - r.value) + 1
  {
    t' := t;
    var h := top;
    while (if top < 100 then 0 else top - 100) < h
      invariant 0 <= h <= top && (if top < 100 then 0 else top - 100) <= h && t' == t + (top - h)
      invariant forall k :: h < k <= top ==> !AnswersAt(local, t, top, k)
    {
      var lr := local.Get(t', h);
      t' := t' + 1;
      if lr.Some? {
        return Some(h), t';
      }
      h := h - 1;
    }
    return None, t';
  }

  /** The block that the search takes as its top: the requested one, or else the highest of the last hundred
      that the local node returns. */
  ghost predicate TopIs(local: Node, maxHeight: int, top: int) {
    if local.up(2, maxHeight) then top == maxHeight
    else
      && 0 < top <= maxHeight && maxHeight - 100 < top && AnswersAt(local, 4, maxHeight, top)
      && forall k :: top < k <= maxHeight ==> !AnswersAt(local, 4, maxHeight, k)
  }

  ghost predicate NoTop(local: Node, maxHeight: int) {
    && !local.up(2, maxHeight)
    && forall k :: 0 < k <= maxHeight && maxHeight - 100 < k ==> !AnswersAt(local, 4, maxHeight, k)
  }

  /** The reference answers the one request for the root at the top. */
  ghost predicate TopAnswered(local: Node, reference: Node, maxHeight: int, top: int)
    requires top <= maxHeight
  {
    reference.up(if local.up(2, maxHeight) then 3 else 5 + (maxHeight - top), top)
  }

  lemma WiderTop(local: Node, reference: Node, high: int, top: int)
    requires high <= top && (high < top ==> !Same(local, reference, high))
    ensures SomewhereStuck(local, reference, high) ==> SomewhereStuck(local, reference, top)
    ensures SomewhereStalled(local, reference, high) ==> SomewhereStalled(local, reference, top)
  {
    if t, l, h :| Stuck(local, reference, high, t, l, h) {
      assert Stuck(local, reference, top, t, l, h);
    }
    if t, l, h :| Stalled(local, reference, high, t, l, h) {
      assert Stalled(local, reference, top, t, l, h);
    }
  }

  /** The whole search. A report is confirmed when the reference answered for the top block.

      A confirmed report names a diverging block. In general a report is right exactly when the roots at the
      top differ or a block below the top is named; if divergence is permanent, exactly when the top differs. */
  method FindDivergence(local: Node, reference: Node, maxHeight: int, patience: nat) returns (r: Outcome)
    requires 0 <= maxHeight
    ensures r.Unreachable? <==>
              !local.up(0, 0) || !reference.up(1, 0) || (Same(local, reference, 0) && NoTop(local, maxHeight))
    ensures r.Genesis? <==> local.up(0, 0) && reference.up(1, 0) && !Same(local, reference, 0)
    ensures !r.Unreachable? && !r.Genesis? ==> r.top <= maxHeight && TopIs(local, maxHeight, r.top)
    ensures !r.Unreachable? && !r.Genesis? ==>
              (r.NoDivergence? <==> TopAnswered(local, reference, maxHeight, r.top) && Same(local, reference, r.top))
    ensures r.Reported? ==> (r.confirmed <==> TopAnswered(local, reference, maxHeight, r.top))
    ensures r.Failed? ==> SomewhereStuck(local, reference, r.top) || SomewhereStalled(local, reference, r.top)
    ensures r.Reported? ==>
              (Diverges(local, reference, r.block, r.top) <==> !Same(local, reference, r.top) || r.block < r.top)
    ensures r.Reported? && Permanent(local, reference) ==>
              (Diverges(local, reference, r.block, r.top) <==> !Same(local, reference, r.top))
    ensures r.Reported? && r.confirmed ==> Diverges(local, reference, r.block, r.top)
    ensures Answering(local, 0, maxHeight + 1) && Answering(reference, 0, maxHeight + 1) ==>
              if !Same(local, reference, 0) then r.Genesis?
              else if Same(local, reference, maxHeight) then r == NoDivergence(maxHeight)
              else r.Reported? && r.top == maxHeight && r.confirmed && Diverges(local, reference, r.block, maxHeight)
    ensures SilentTop(local, reference, maxHeight) ==> r == Reported(maxHeight, maxHeight, false)
  {
    var l0, r0 := local.Get(0, 0), reference.Get(1, 0);
    if l0.None? || r0.None? {
      return Unreachable;
    }
    if l0 != r0 {
      return Genesis;
    }
    var top, t := maxHeight, 4;
    var localTop, refTop := local.Get(2, top), reference.Get(3, top);
    if localTop.None? {
      var h;
      h, t := HighestAvailable(local, t, top);
      if h.None? {
        return Unreachable;
      }
      top := h.value;
      localTop, refTop := Some(local.root(top)), reference.Get(t, top);
      t := t + 1;
    }
    if localTop == refTop {
      return NoDivergence(top);
    }
    var low, high;
    low, high, t := Probe(local, reference, t, top);
    var found, stopped, rounds := BinarySearch(local, reference, t, low, high, patience, 0);
    if found.None? {
      WiderTop(local, reference, high, top);
      return Failed(top);
    }
    return Reported(found.value, top, refTop.Some?);
  }

  /** No roots differ below `top`, and the reference never answers for `top` itself. */
  ghost predicate SilentTop(local: Node, reference: Node, top: int) {
    && 0 < top && Quiet(local, reference, 0, top) && Answering(local, top, top + 1)
    && forall t: nat :: !reference.up(t, top)
  }

  /** So the report can name a block whose roots agree: two nodes with equal roots everywhere, where the
      reference is silent at the top only, make the search report the top although nothing diverges. */
  lemma SilentReference(top: int, root: Root)
    requires 0 < top
    ensures var local, reference := Node(_ => root, (_, _) => true), Node(_ => root, (_, block) => block != top);
            SilentTop(local, reference, top) && forall block :: !Diverges(local, reference, block, top)
  {
  }
}
