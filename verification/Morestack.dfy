/** The stack segments of a thread compiled with split stacks (plugin-libc/libgcc/generic-morestack.c): a
    doubly linked chain of segments, each with two lists of dynamically allocated blocks. */
module Morestack {

  /** `dynamic_allocation_blocks`. */
  class Block {
    var next: Block?
    const size: nat

    constructor (size: nat)
      ensures this.next == null && this.size == size
    {
      this.next := null;
      this.size := size;
    }
  }

  /** `stack_segment`; `address` is where the segment was mapped. */
  class Segment {
    var prev: Segment?
    var next: Segment?
    var size: nat
    var oldStack: int
    var dynamic: Block?      // dynamic_allocation
    var free: Block?         // free_dynamic_allocation
    const address: int

    constructor (size: nat, address: int)
      ensures this.prev == null && this.next == null && this.size == size && this.address == address
      ensures this.dynamic == null && this.free == null
    {
      this.prev, this.next, this.size, this.address := null, null, size, address;
      this.dynamic, this.free := null, null;
    }
  }

  /** What a segment's two lists hold, front first. */
  datatype Lists = Lists(dynamic: seq<Block>, free: seq<Block>)

  ghost function Range(s: seq<Block>): set<Block> {
    set b <- s
  }

  ghost function Own(l: Lists): set<Block> {
    Range(l.dynamic) + Range(l.free)
  }

  ghost predicate NoDuplicates<T>(s: seq<T>) {
    forall i, j | 0 <= i < j < |s| :: s[i] != s[j]
  }

  /** `head` starts a list of exactly the blocks of `s`. */
  ghost predicate IsList(head: Block?, s: seq<Block>)
    reads Range(s)`next
  {
    && NoDuplicates(s)
    && head == (if s == [] then null else s[0])
    && forall i | 0 <= i < |s| :: LinkedBlock(s, i)
  }

  ghost predicate LinkedBlock(s: seq<Block>, i: nat)
    requires i < |s|
    reads {s[i]}`next
  {
    s[i].next == Following(s, i)
  }

  ghost function Following(s: seq<Block>, i: nat): Block? {
    if i + 1 < |s| then s[i + 1] else null
  }

  /** All blocks of some segments, in order. */
  ghost function All(ls: seq<Lists>): seq<Block> {
    if ls == [] then [] else All(ls[..|ls| - 1]) + ls[|ls| - 1].dynamic + ls[|ls| - 1].free
  }

  /** The blocks of some segments in the order in which releasing them joins their lists. */
  ghost function Collected(ls: seq<Lists>): seq<Block> {
    if ls == [] then [] else ls[|ls| - 1].free + (ls[|ls| - 1].dynamic + Collected(ls[..|ls| - 1]))
  }

  /** Releasing loses no block and duplicates none. */
  lemma {:induction false} CollectedConserves(ls: seq<Lists>)
    ensures multiset(Collected(ls)) == multiset(All(ls))
  {
    if ls != [] {
      CollectedConserves(ls[..|ls| - 1]);
    }
  }

  lemma {:induction false} AllAppends(xs: seq<Lists>, ys: seq<Lists>)
    ensures multiset(All(xs + ys)) == multiset(All(xs)) + multiset(All(ys))
  {
    if ys == [] {
      assert xs + ys == xs;
    } else {
      var front := ys[..|ys| - 1];
      var zs := xs + ys;
      assert zs[..|zs| - 1] == xs + front;
      var last := ys[|ys| - 1];
      AllAppends(xs, front);
      assert All(zs) == All(xs + front) + last.dynamic + last.free;
      assert All(ys) == All(front) + last.dynamic + last.free;
      hide All;
    }
  }

  /** `merge_dynamic_blocks`: the second list is appended in place to the first. */
  method MergeDynamicBlocks(a: Block?, b: Block?, ghost sa: seq<Block>, ghost sb: seq<Block>) returns (r: Block?)
    requires IsList(a, sa) && IsList(b, sb) && Range(sa) !! Range(sb)
    modifies Range(sa)`next
    ensures IsList(r, sa + sb)
  {
    if a == null {
      assert sa + sb == sb;
      return b;
    }
    if b == null {
      assert sa + sb == sa;
      return a;
    }
    var p := a;
    ghost var i := 0;
    while p.next != null
      invariant 0 <= i < |sa| && p == sa[i]
      invariant IsList(a, sa)
      decreases |sa| - i
    {
      assert LinkedBlock(sa, i);
      p := p.next;
      i := i + 1;
    }
    assert LinkedBlock(sa, i);
    assert i == |sa| - 1;
    forall j | 0 <= j < |sa|
      ensures sa[j].next == Following(sa, j)
    {
      assert LinkedBlock(sa, j);
    }
    forall j | 0 <= j < |sb|
      ensures sb[j].next == Following(sb, j)
    {
      assert LinkedBlock(sb, j);
    }
    p.next := b;
    forall j, k | 0 <= j < k < |sa + sb|
      ensures (sa + sb)[j] != (sa + sb)[k]
    {
      if j < |sa| <= k {
        assert sa[j] in Range(sa) && sb[k - |sa|] in Range(sb);
      }
    }
    forall j | 0 <= j < |sb|
      ensures LinkedBlock(sb, j) && LinkedBlock(sa + sb, |sa| + j)
    {
      assert sb[j] in Range(sb) && p in Range(sa);
    }
    forall j | 0 <= j < |sa|
      ensures LinkedBlock(sa + sb, j)
    {
      if j < i {
        assert sa[j] != p;
      }
    }
    r := a;
  }

  /** Joining a segment's two lists in front of those collected so far. */
  method CollectBlocks(pss: Segment, ret: Block?, ghost l: Lists, ghost sr: seq<Block>) returns (r: Block?)
    requires HasLists(pss, l) && IsList(ret, sr) && Own(l) !! Range(sr)
    modifies Own(l)`next
    ensures IsList(r, l.free + (l.dynamic + sr))
  {
    r := ret;
    if pss.dynamic != null || pss.free != null {
      r := MergeDynamicBlocks(pss.dynamic, r, l.dynamic, sr);
      r := MergeDynamicBlocks(pss.free, r, l.free, l.dynamic + sr);
    } else {
      assert l.free + (l.dynamic + sr) == sr;
    }
  }

  ghost function Owned(ls: seq<Lists>): set<Block> {
    set i, b | 0 <= i < |ls| && b in Own(ls[i]) :: b
  }

  /** The segment before position `i` of a chain, if any. */
  ghost function Before(c: seq<Segment>, i: nat): Segment?
    requires i <= |c|
  {
    if i == 0 then null else c[i - 1]
  }

  ghost function After(c: seq<Segment>, i: nat): Segment? {
    if i < |c| then c[i] else null
  }

  ghost predicate LinkedBack(c: seq<Segment>, i: nat)
    requires i < |c|
    reads {c[i]}`prev
  {
    c[i].prev == Before(c, i)
  }

  ghost predicate LinkedOn(c: seq<Segment>, i: nat)
    requires i < |c|
    reads {c[i]}`next
  {
    c[i].next == After(c, i + 1)
  }

  ghost function Members(c: seq<Segment>): set<Segment> {
    set s <- c
  }

  /** The two lists of a segment. */
  ghost predicate HasLists(s: Segment, l: Lists)
    reads s`dynamic, s`free, Own(l)`next
  {
    IsList(s.dynamic, l.dynamic) && IsList(s.free, l.free) && Range(l.dynamic) !! Range(l.free)
  }

  /** The segments of a chain share no block. */
  ghost predicate Separate(ls: seq<Lists>) {
    forall i, j | 0 <= i < j < |ls| :: Own(ls[i]) !! Own(ls[j])
  }

  /** The thread-local variables. `chain` is the chain of segments from the first, `lists` their blocks,
      `depth` how many of the segments are in use, `saved` the stack pointers they return to; `freed` and `unmapped` record what was given back. */
  class Thread {
    var segments: Segment?
    var current: Segment?
    ghost var chain: seq<Segment>
    ghost var lists: seq<Lists>
    ghost var depth: nat
    ghost var saved: seq<int>
    ghost var freed: seq<Block>
    ghost var unmapped: seq<Segment>

    /** `next` and `prev` are each other's inverse on a chain without cycles that starts at the first segment. */
    ghost predicate Chained()
      reads `segments, `chain, Members(chain)`prev, Members(chain)`next
    {
      && NoDuplicates(chain)
      && segments == After(chain, 0)
      && forall i | 0 <= i < |chain| :: LinkedBack(chain, i) && LinkedOn(chain, i)
    }

    /** The current segment is on the chain, or there is none. */
    ghost predicate Linked()
      reads `segments, `current, `chain, `depth, Members(chain)`prev, Members(chain)`next
    {
      Chained() && depth <= |chain| && current == Before(chain, depth)
    }

    ghost predicate Listed()
      reads `chain, `lists, Members(chain)`dynamic, Members(chain)`free, Owned(lists)`next
    {
      && |lists| == |chain| && Separate(lists)
      && forall i | 0 <= i < |chain| :: HasLists(chain[i], lists[i])
    }

    /** Nothing was given back twice, and nothing in use was. */
    ghost predicate Returned()
      reads `chain, `lists, `freed, `unmapped
    {
      && NoDuplicates(freed) && Range(freed) !! Owned(lists)
      && NoDuplicates(unmapped) && forall s <- unmapped :: s !in chain
    }

    ghost predicate InUse()
      reads `chain, `depth, `saved, Members(chain)`oldStack
    {
      |saved| == depth <= |chain| && forall i | 0 <= i < depth :: chain[i].oldStack == saved[i]
    }

    ghost predicate Valid()
      reads this, chain, Owned(lists)`next
    {
      Linked() && Listed() && Returned() && InUse()
    }

    constructor ()
      ensures Valid() && chain == [] && lists == [] && depth == 0 && freed == [] && unmapped == []
    {
      segments, current := null, null;
      chain, lists, depth, saved, freed, unmapped := [], [], 0, [], [], [];
    }

    /** `free_dynamic_blocks`. */
    method FreeDynamicBlocks(p0: Block?, ghost s: seq<Block>)
      requires IsList(p0, s)
      modifies this`freed
      ensures freed == old(freed) + s
    {
      var p := p0;
      ghost var i := 0;
      while p != null
        invariant 0 <= i <= |s| && p == if i < |s| then s[i] else null
        invariant freed == old(freed) + s[..i]
        decreases |s| - i
      {
        assert LinkedBlock(s, i);
        var next := p.next;
        freed := freed + [p];
        p := next;
        i := i + 1;
      }
      assert s[..i] == s;
    }

    /** One segment released: its blocks freed, or joined to those collected so far. */
    method ReleaseSegment(pss: Segment, ret0: Block?, freeDynamic: bool, ghost ls: seq<Lists>, ghost l: Lists)
      returns (ret: Block?)
      requires HasLists(pss, l) && IsList(ret0, if freeDynamic then [] else Collected(ls)) && Own(l) !! Owned(ls)
      modifies `freed, `unmapped, Own(l)`next
      ensures unmapped == old(unmapped) + [pss]
      ensures freed == old(freed) + if freeDynamic then l.dynamic + l.free else []
      ensures IsList(ret, if freeDynamic then [] else Collected(ls + [l]))
    {
      hide Owned;
      ret := ret0;
      if freeDynamic {
        FreeDynamicBlocks(pss.dynamic, l.dynamic);
        FreeDynamicBlocks(pss.free, l.free);
      } else {
        CollectedOwned(ls);
        ret := CollectBlocks(pss, ret, l, Collected(ls));
        assert (ls + [l])[..|ls|] == ls;
      }
      unmapped := unmapped + [pss];
    }

    /** The same for segment `i` of `c`, whose lists are `ls`: those after it keep theirs. */
    method ReleaseAt(pss: Segment, ret0: Block?, freeDynamic: bool, ghost c: seq<Segment>, ghost ls: seq<Lists>, ghost i: nat)
      returns (ret: Block?)
      requires i < |c| == |ls| && Separate(ls) && pss == c[i]
      requires IsList(ret0, if freeDynamic then [] else Collected(ls[..i]))
      requires forall j | i <= j < |c| :: HasLists(c[j], ls[j])
      modifies `freed, `unmapped, Owned(ls)`next
      ensures c[..i + 1] == c[..i] + [pss] && unmapped == old(unmapped) + [pss]
      ensures freeDynamic ==> All(ls[..i + 1]) == All(ls[..i]) + (ls[i].dynamic + ls[i].free)
      ensures freed == old(freed) + if freeDynamic then ls[i].dynamic + ls[i].free else []
      ensures IsList(ret, if freeDynamic then [] else Collected(ls[..i + 1]))
      ensures forall j | i < j < |c| :: HasLists(c[j], ls[j])
    {
      hide IsList, Collected, Owned, All;
      OwnedApart(ls, i);
      ret := ReleaseSegment(pss, ret0, freeDynamic, ls[..i], ls[i]);
      forall j | i < j < |c|
        ensures HasLists(c[j], ls[j])
      {
        assert Range(ls[j].dynamic) !! Own(ls[i]) && Range(ls[j].free) !! Own(ls[i]);
      }
    }

    /** The loop of `__morestack_release_segments`, over the segments `c` with the lists `ls`. */
    method ReleaseLoop(pss0: Segment?, freeDynamic: bool, ghost c: seq<Segment>, ghost ls: seq<Lists>) returns (ret: Block?)
      requires |c| == |ls| && Separate(ls) && pss0 == After(c, 0)
      requires forall i | 0 <= i < |c| :: HasLists(c[i], ls[i]) && LinkedOn(c, i)
      modifies `freed, `unmapped, Owned(ls)`next
      ensures unmapped == old(unmapped) + c
      ensures freed == old(freed) + if freeDynamic then All(ls) else []
      ensures IsList(ret, if freeDynamic then [] else Collected(ls))
    {
      hide HasLists, IsList, Collected, All, Owned, Separate;
      var pss := pss0;
      ret := null;
      ghost var i := 0;
      EmptyLists();
      while pss != null
        invariant 0 <= i <= |c| && pss == After(c, i)
        invariant unmapped == old(unmapped) + c[..i]
        invariant freed == old(freed) + if freeDynamic then All(ls[..i]) else []
        invariant IsList(ret, if freeDynamic then [] else Collected(ls[..i]))
        invariant forall j | i <= j < |c| :: HasLists(c[j], ls[j])
        decreases |c| - i
      {
        assert LinkedOn(c, i);
        var next := pss.next;
        ret := ReleaseAt(pss, ret, freeDynamic, c, ls, i);
        pss := next;
        i := i + 1;
      }
      assert c[..i] == c && ls[..i] == ls;
    }

    /** `__morestack_release_segments`: gives back all segments after `owner`, or all when there is none; `k` is
        how many stay. The blocks are freed, or come back as one list. When segments in use are released, as at a
        thread's exit, the current segment is none of the thread's any more. */
    method ReleaseSegments(owner: Segment?, freeDynamic: bool, ghost k: nat) returns (ret: Block?)
      requires Valid() && k <= |chain| && owner == Before(chain, k)
      modifies `segments, `chain, `lists, `freed, `unmapped, Members(chain)`next, Owned(lists)`next
      ensures Chained() && Listed() && Returned() && (k >= depth ==> Valid())
      ensures chain == old(chain)[..k] && lists == old(lists)[..k]
      ensures unmapped == old(unmapped) + old(chain)[k..]
      ensures freed == old(freed) + if freeDynamic then All(old(lists)[k..]) else []
      ensures var blocks := if freeDynamic then [] else Collected(old(lists)[k..]);
        IsList(ret, blocks) && Range(blocks) !! Owned(lists) && Range(blocks) !! Range(freed)
    {
      hide All, Collected, HasLists, Owned, LinkedBack, LinkedOn, Own, Separate, InUse, IsList;
      ghost var c, ls := chain, lists;
      WellFormedLists(c, ls);
      GivenBack(c, ls, k, freed, unmapped, freeDynamic);
      ret := ReleaseTail(owner, freeDynamic, k);
      ghost var blocks := if freeDynamic then [] else Collected(ls[k..]);
      assert Range([]) == {} && IsList(ret, blocks);
      hide Linked, Listed;
      CutAt(owner, k);
      assert Returned();
    }

    /** Ending the chain at `owner`. */
    method CutAt(owner: Segment?, ghost k: nat)
      requires Linked() && InUse() && k <= |chain|
      requires |lists| == |chain| && owner == Before(chain, k) && Separate(lists)
      requires forall i | 0 <= i < k :: HasLists(chain[i], lists[i])
      modifies `segments, `chain, `lists, Members(chain)`next
      ensures Chained() && chain == old(chain)[..k] && lists == old(lists)[..k] && Listed()
      ensures k >= depth ==> Linked() && InUse()
    {
      hide IsList, HasLists, Own;
      ghost var c := chain;
      if owner == null {
        segments := null;
      } else {
        owner.next := null;
      }
      chain, lists := c[..k], lists[..k];
      forall i | 0 <= i < k
        ensures LinkedBack(chain, i) && LinkedOn(chain, i)
      {
        assert LinkedBack(c, i);
        if i + 1 < k {
          assert c[i] != c[k - 1];
          assert old(LinkedOn(c, i));
        }
      }
    }

    /** The tail's segments and blocks given back; nothing of the rest changes. */
    method ReleaseTail(owner: Segment?, freeDynamic: bool, ghost k: nat) returns (ret: Block?)
      requires Linked() && Listed() && k <= |chain| && owner == Before(chain, k)
      modifies `freed, `unmapped, Owned(lists)`next
      ensures forall i | 0 <= i < k :: HasLists(chain[i], lists[i])
      ensures unmapped == old(unmapped) + chain[k..]
      ensures freed == old(freed) + if freeDynamic then All(lists[k..]) else []
      ensures IsList(ret, if freeDynamic then [] else Collected(lists[k..]))
    {
      hide All, Collected, NoDuplicates;
      if owner != null {
        assert LinkedOn(chain, k - 1);
      }
      var pss := if owner == null then segments else owner.next;
      Suffix(chain, lists, k);
      ret := ReleaseLoop(pss, freeDynamic, chain[k..], lists[k..]);
      forall i | 0 <= i < k
        ensures HasLists(chain[i], lists[i])
      {
        assert Own(lists[i]) !! Owned(lists[k..]);
        assert Range(lists[i].dynamic) <= Own(lists[i]) && Range(lists[i].free) <= Own(lists[i]);
      }
    }

    /** A new segment after the current one, which is the last. */
    method AppendSegment(size: nat, address: int) returns (pss: Segment)
      requires Valid() && depth == |chain|
      modifies `segments, `chain, `lists, Members(chain)`next
      ensures Valid() && fresh(pss) && pss.size == size && pss.address == address
      ensures chain == old(chain) + [pss] && lists == old(lists) + [Lists([], [])]
    {
      ghost var c, ls := chain, lists;
      hide Linked, InUse, IsList;
      pss := NewSegment(size, address);
      lists := lists + [Lists([], [])];
      AppendedLists(c, ls, pss);
    }

    method NewSegment(size: nat, address: int) returns (pss: Segment)
      requires Linked() && InUse() && depth == |chain|
      modifies `segments, `chain, Members(chain)`next
      ensures fresh(pss) && pss.size == size && pss.address == address && pss.dynamic == null && pss.free == null
      ensures Linked() && InUse() && chain == old(chain) + [pss]
    {
      hide Linked, InUse;
      pss := new Segment(size, address);
      LinkSegment(pss);
    }

    method LinkSegment(pss: Segment)
      requires Linked() && depth == |chain| && pss !in chain && pss.next == null
      modifies `segments, `chain, pss`prev, Members(chain)`next
      ensures Linked() && chain == old(chain) + [pss]
      ensures old(InUse()) ==> InUse()
    {
      ghost var c := chain;
      pss.prev := current;
      if current != null {
        current.next := pss;
      } else {
        segments := pss;
      }
      chain := chain + [pss];
      forall i | 0 <= i < |chain|
        ensures LinkedBack(chain, i) && LinkedOn(chain, i)
      {
        if i < |c| {
          assert old(LinkedBack(c, i)) && old(LinkedOn(c, i));
        }
      }
    }

    /** The released blocks put in front of the current segment's free list. */
    method Attach(dynamic: Block?, ghost blocks: seq<Block>)
      requires Valid() && depth > 0 && IsList(dynamic, blocks)
      requires Range(blocks) !! Owned(lists) && Range(blocks) !! Range(freed)
      modifies `lists, current`free, Range(blocks)`next
      ensures Valid()
      ensures var l := old(lists)[depth - 1];
        lists == old(lists)[depth - 1 := Lists(l.dynamic, blocks + l.free)]
    {
      hide Listed, Returned, HasLists, IsList, NoDuplicates, Separate, Owned;
      Shape();
      ghost var c, ls, k := chain, lists, depth - 1;
      ghost var l := Lists(ls[k].dynamic, blocks + ls[k].free);
      ReplacedOwned(ls, k, l, Range(blocks));
      AttachList(dynamic, blocks, c, ls, k, current);
      lists := ls[k := l];
      IsListed();
      IsReturned();
    }

    method AttachList(dynamic: Block?, ghost blocks: seq<Block>, ghost c: seq<Segment>, ghost ls: seq<Lists>, ghost k: nat,
                      current: Segment)
      requires |c| == |ls| && k < |c| && NoDuplicates(c) && current == c[k]
      requires forall i | 0 <= i < |c| :: HasLists(c[i], ls[i]) && Range(blocks) !! Own(ls[i])
      requires IsList(dynamic, blocks)
      modifies current`free, Range(blocks)`next
      ensures HasLists(current, Lists(ls[k].dynamic, blocks + ls[k].free))
      ensures forall i | 0 <= i < |c| && i != k :: HasLists(c[i], ls[i])
    {
      assert HasLists(c[k], ls[k]);
      assert Range(blocks) !! Range(ls[k].free) && Range(blocks) !! Range(ls[k].dynamic);
      current.free := MergeDynamicBlocks(dynamic, current.free, blocks, ls[k].free);
      forall i | 0 <= i < |c| && i != k
        ensures HasLists(c[i], ls[i])
      {
        assert Range(blocks) !! Own(ls[i]) && c[i] != c[k];
      }
    }

    /** Making `pss` the current segment. */
    method Enter(pss: Segment, oldStack: int)
      requires Valid() && depth < |chain| && pss == chain[depth]
      modifies `current, `depth, `saved, pss`oldStack
      ensures Valid() && depth == old(depth) + 1 && current == pss && pss.oldStack == oldStack
      ensures saved == old(saved) + [oldStack]
    {
      hide Listed, Returned;
      pss.oldStack := oldStack;
      current := pss;
      depth, saved := depth + 1, saved + [oldStack];
    }

    /** `__generic_morestack`: a call needs `frameSize` bytes. The next segment is used again when it is large
        enough; otherwise it and those after it are released, and a new one of `size` bytes takes their place
        and gets their blocks as blocks to be freed. `size` and `address` are what the mapping of a new segment
        gives. */
    method Morestack(frameSize: nat, oldStack: int, paramSize: nat, size: nat, address: int) returns (available: int)
      requires Valid()
      modifies this, Members(chain), Owned(lists)`next
      ensures Valid() && depth == old(depth) + 1 && current == chain[old(depth)] && current.oldStack == oldStack
      ensures available == current.size - paramSize
      ensures freed == old(freed)
      ensures chain[..old(depth)] == old(chain)[..old(depth)]
      ensures if old(depth < |chain| && chain[depth].size >= frameSize)
        then chain == old(chain) && lists == old(lists) && unmapped == old(unmapped)
        else
          && fresh(current) && |chain| == depth && current.size == size
          && unmapped == old(unmapped) + old(chain)[old(depth)..]
          && lists == old(lists)[..old(depth)] + [Lists([], Collected(old(lists)[old(depth)..]))]
      ensures saved == old(saved) + [oldStack]
      ensures multiset(All(lists)) == multiset(All(old(lists)))
    {
      hide Owned, HasLists, IsList, Collected, NoDuplicates, All;
      ReplacedConserves(lists, depth);
      var next := if current != null then current.next else segments;
      NextSegment();
      if next != null && next.size >= frameSize {
        Enter(next, oldStack);
      } else {
        Replace(oldStack, size, address);
      }
      available := current.size - paramSize;
    }

    /** `__generic_releasestack`: back to the segment before, and to the stack pointer saved by the call that
        returns. */
    method ReleaseStack() returns (oldStack: int)
      requires Valid() && depth > 0
      modifies `current, `depth, `saved
      ensures Valid() && depth == old(depth) - 1
      ensures old(saved) == saved + [oldStack]
    {
      hide Listed, Returned;
      assert LinkedBack(chain, depth - 1);
      oldStack := current.oldStack;
      current := current.prev;
      depth, saved := depth - 1, saved[..depth - 1];
    }

    /** `__generic_findstack`: the current segment becomes the innermost one in use that holds the address
        `stack`, if any does. */
    method FindStack(stack: int) returns (ghost i: int)
      requires Valid()
      modifies `current, `depth, `saved
      ensures Valid() && -1 <= i < old(depth) && depth == if i >= 0 then i + 1 else old(depth)
      ensures saved <= old(saved) && (i >= 0 ==> Inside(chain[i], stack))
      ensures forall j | i < j < old(depth) :: !Inside(chain[j], stack)
    {
      var pss := current;
      hide Returned, Listed, InUse;
      i := depth - 1;
      while pss != null
        invariant -1 <= i < depth && pss == Before(chain, i + 1)
        invariant forall j | i < j < depth :: !Inside(chain[j], stack)
        decreases i
      {
        assert LinkedBack(chain, i);
        if Inside(pss, stack) {
          Unwind(pss, i + 1);
          return;
        }
        pss := pss.prev;
        i := i - 1;
      }
    }

    /** `__morestack_allocate_stack_space`: memory for `size` bytes, taken from the first free list whose first
        block is large enough, the free lists before it being freed; otherwise it is new. It goes to the current
        segment, if there is one. `j` is the position of the list it came from. */
    method AllocateStackSpace(size: nat) returns (p: Block, ghost j: nat)
      requires Valid()
      modifies `lists, `freed, Members(chain)`dynamic, Members(chain)`free, Owned(lists)`next
      ensures Valid() && size <= p.size && j <= |old(lists)| && Skipped(old(lists)[..j], size)
      ensures if j < |old(lists)| then old(lists)[j].free != [] && p == old(lists)[j].free[0] else fresh(p) && p.size == size
      ensures freed == old(freed) + Frees(old(lists)[..j])
      ensures lists == Given(Swept(old(lists), j), depth, p)
    {
      hide IsList, Emptied, Skipped, Frees, Listed, Returned, InUse, NoDuplicates;
      var found;
      found, j := Reclaim(size);
      if found == null {
        p := new Block(size);
      } else {
        p := found;
      }
      if current != null {
        Give(p);
      }
    }

    /** The loop over the free lists. */
    method Reclaim(size: nat) returns (p: Block?, ghost j: nat)
      requires Valid()
      modifies `lists, `freed, Members(chain)`free
      ensures Valid() && j <= |old(lists)| && Skipped(old(lists)[..j], size)
      ensures if j < |old(lists)| then old(lists)[j].free != [] && p == old(lists)[j].free[0] && p.size >= size else p == null
      ensures p != null ==> p !in Owned(lists) && p !in Range(freed) && p in Owned(old(lists))
      ensures freed == old(freed) + Frees(old(lists)[..j]) && lists == Swept(old(lists), j)
      ensures Owned(lists) <= Owned(old(lists))
    {
      ghost var ls, before := lists, freed;
      NothingSwept(ls, size);
      Shape();
      hide Listed, Returned, InUse, Owned, IsList, Emptied, Skipped, Frees, Swept;
      var seg := segments;
      p := null;
      j := 0;
      while seg != null
        invariant Valid() && j <= |ls| == |chain| && seg == After(chain, j) && p == null
        invariant lists == Emptied(ls, j) && Skipped(ls[..j], size)
        invariant freed == before + Frees(ls[..j])
        invariant Owned(lists) <= Owned(ls)
        decreases |chain| - j
      {
        p := ReclaimAt(seg, size, ls, before, j);
        if p != null {
          return;
        }
        seg := seg.next;
        j := j + 1;
      }
      NothingFound(ls);
    }

    /** One round: the first block of this segment's free list if it is large enough, otherwise the list is
        freed. */
    method ReclaimAt(seg: Segment, size: nat, ghost ls: seq<Lists>, ghost before: seq<Block>, ghost j: nat)
      returns (p: Block?)
      requires Valid() && j < |ls| == |chain| && seg == chain[j]
      requires lists == Emptied(ls, j) && Skipped(ls[..j], size) && freed == before + Frees(ls[..j])
      modifies `lists, `freed, seg`free
      ensures Valid() && seg.next == After(chain, j + 1) && Owned(lists) <= Owned(old(lists))
      ensures p == null ==> lists == Emptied(ls, j + 1) && Skipped(ls[..j + 1], size) && freed == before + Frees(ls[..j + 1])
      ensures p != null ==>
        && ls[j].free != [] && p == ls[j].free[0] && p.size >= size && freed == old(freed)
        && lists == Swept(ls, j) && p !in Owned(lists) && p !in Range(freed) && p in Owned(old(lists))
    {
      hide Listed, Linked, Returned, InUse, Valid, Owned, IsList, Emptied, Swept, Skipped, Frees;
      FirstFree(j);
      EmptiedAt(ls, j);
      p := seg.free;
      if p != null {
        if p.size >= size {
          TakeFirst(seg, j);
          FoundAt(ls, j);
          return;
        }
        EmptyFree(seg, j);
        p := null;
      }
      SweptFurther(ls, j, size);
    }

    /** What the invariant says of the lists and of what was given back. */
    lemma Shape()
      requires Valid()
      ensures depth <= |chain| == |lists| && NoDuplicates(chain) && Separate(lists) && current == Before(chain, depth)
      ensures forall i | 0 <= i < |chain| :: HasLists(chain[i], lists[i])
      ensures NoDuplicates(freed) && Range(freed) !! Owned(lists)
      ensures NoDuplicates(unmapped) && forall s <- unmapped :: s !in chain
    {
    }

    lemma IsListed()
      requires |lists| == |chain| && Separate(lists) && forall i | 0 <= i < |chain| :: HasLists(chain[i], lists[i])
      ensures Listed()
    {
    }

    lemma IsReturned()
      requires NoDuplicates(freed) && Range(freed) !! Owned(lists)
      requires NoDuplicates(unmapped) && forall s <- unmapped :: s !in chain
      ensures Returned()
    {
    }

    /** What the loop finds at position `j`. */
    lemma FirstFree(j: nat)
      requires Valid() && j < |chain|
      ensures chain[j].free == if lists[j].free == [] then null else lists[j].free[0]
      ensures chain[j].next == After(chain, j + 1)
    {
      assert HasLists(chain[j], lists[j]) && LinkedOn(chain, j);
    }

    /** A segment's free list shortened to `l.free`. */
    method SetFree(seg: Segment, head: Block?, ghost j: nat, ghost l: Lists)
      requires Listed() && NoDuplicates(chain) && j < |chain| && seg == chain[j]
      requires IsList(head, l.free) && l.dynamic == lists[j].dynamic && Range(l.free) <= Range(lists[j].free)
      modifies `lists, seg`free
      ensures Listed() && lists == old(lists)[j := l] && Owned(lists) <= Owned(old(lists))
    {
      ghost var c, ls := chain, lists;
      assert HasLists(seg, ls[j]);
      ReplacedOwned(ls, j, l, {});
      seg.free := head;
      lists := ls[j := l];
      forall i | 0 <= i < |c|
        ensures HasLists(c[i], lists[i])
      {
        if i != j {
          assert c[i] != seg && old(HasLists(c[i], ls[i]));
        }
      }
    }

    /** The first block of a free list taken out. */
    method TakeFirst(seg: Segment, ghost j: nat)
      requires Valid() && j < |chain| && seg == chain[j] && lists[j].free != []
      modifies `lists, seg`free
      ensures Valid() && lists == old(lists)[j := Lists(old(lists)[j].dynamic, old(lists)[j].free[1..])]
      ensures Owned(lists) <= Owned(old(lists))
      ensures var p := old(lists)[j].free[0]; p !in Owned(lists) && p !in Range(freed) && p in Owned(old(lists))
    {
      ghost var s := lists[j].free;
      assert HasLists(seg, lists[j]);
      TailIsList(s);
      TakenOut(lists, j);
      hide IsList, HasLists;
      SetFree(seg, seg.free.next, j, Lists(lists[j].dynamic, s[1..]));
    }

    /** A free list freed. */
    method EmptyFree(seg: Segment, ghost j: nat)
      requires Valid() && j < |chain| && seg == chain[j]
      modifies `lists, `freed, seg`free
      ensures Valid() && lists == old(lists)[j := Lists(old(lists)[j].dynamic, [])]
      ensures Owned(lists) <= Owned(old(lists)) && freed == old(freed) + old(lists)[j].free
    {
      hide Returned, IsList, NoDuplicates, Separate, Owned;
      Shape();
      assert HasLists(seg, lists[j]);
      ListWellFormed(seg, lists[j]);
      FreedOut(lists, j);
      BlocksJoined(freed, lists[j].free);
      FreeDynamicBlocks(seg.free, lists[j].free);
      EmptyLists();
      SetFree(seg, null, j, Lists(lists[j].dynamic, []));
      IsReturned();
    }

    /** A block put in front of the current segment's list. */
    method Give(p: Block)
      requires Valid() && depth > 0 && p !in Owned(lists) && p !in Range(freed)
      modifies `lists, current`dynamic, p`next
      ensures Valid() && lists == Given(old(lists), depth, p)
    {
      hide Listed, Returned, HasLists, IsList, NoDuplicates, Separate, Owned;
      Shape();
      ghost var k := depth - 1;
      ghost var l := Lists([p] + lists[k].dynamic, lists[k].free);
      ReplacedOwned(lists, k, l, {p});
      GiveList(p, chain, lists, k, current);
      lists := lists[k := l];
      IsListed();
      IsReturned();
    }

    method GiveList(p: Block, ghost c: seq<Segment>, ghost ls: seq<Lists>, ghost k: nat, current: Segment)
      requires |c| == |ls| && k < |c| && NoDuplicates(c) && current == c[k]
      requires forall i | 0 <= i < |c| :: HasLists(c[i], ls[i]) && {p} !! Own(ls[i])
      modifies current`dynamic, p`next
      ensures HasLists(current, Lists([p] + ls[k].dynamic, ls[k].free))
      ensures forall i | 0 <= i < |c| && i != k :: HasLists(c[i], ls[i])
    {
      assert HasLists(c[k], ls[k]) && p !in Own(ls[k]);
      p.next := current.dynamic;
      ConsIsList(p, ls[k].dynamic);
      current.dynamic := p;
      forall i | 0 <= i < |c| && i != k
        ensures HasLists(c[i], ls[i])
      {
        assert p !in Own(ls[i]) && c[i] != c[k];
      }
    }

    method Unwind(pss: Segment, ghost n: nat)
      requires Valid() && 0 < n <= depth && pss == chain[n - 1]
      modifies `current, `depth, `saved
      ensures Valid() && depth == n && saved <= old(saved)
    {
      hide Listed, Returned;
      current := pss;
      depth, saved := n, saved[..n];
    }

    /** What the source finds after the current segment. */
    lemma NextSegment()
      requires Valid()
      ensures (if current != null then current.next else segments) == After(chain, depth)
      ensures forall s <- chain[..depth] :: s != After(chain, depth)
    {
      if depth > 0 {
        assert LinkedOn(chain, depth - 1);
      }
    }

    /** The segments after the current one, if any, replaced by a new one. */
    method Replace(oldStack: int, size: nat, address: int)
      requires Valid()
      modifies this, Members(chain)`next, Owned(lists)`next
      ensures Valid() && depth == old(depth) + 1 == |chain| && current == chain[old(depth)] && current.oldStack == oldStack
      ensures freed == old(freed) && unmapped == old(unmapped) + old(chain)[old(depth)..]
      ensures chain[..old(depth)] == old(chain)[..old(depth)] && fresh(current) && current.size == size
      ensures lists == old(lists)[..old(depth)] + [Lists([], Collected(old(lists)[old(depth)..]))]
      ensures saved == old(saved) + [oldStack]
    {
      ghost var blocks := Collected(lists[depth..]);
      CollectedOwned(lists[depth..]);
      TailApart(lists, depth);
      assert Members(chain[..depth]) <= Members(chain);
      hide Owned, Collected, HasLists, IsList, NoDuplicates, Linked, Listed, Returned;
      var dynamic := ReleaseNext();
      Install(dynamic, blocks, oldStack, size, address);
    }

    /** The segments after the current one released, and their blocks returned. */
    method ReleaseNext() returns (dynamic: Block?)
      requires Valid()
      modifies `segments, `chain, `lists, `freed, `unmapped, Members(chain)`next, Owned(lists)`next
      ensures Valid() && chain == old(chain)[..depth] && lists == old(lists)[..depth]
      ensures freed == old(freed) && unmapped == old(unmapped) + old(chain)[depth..]
      ensures var blocks := Collected(old(lists)[depth..]);
        IsList(dynamic, blocks) && Range(blocks) !! Owned(lists) && Range(blocks) !! Range(freed)
    {
      dynamic := null;
      NextSegment();
      var next := if current != null then current.next else segments;
      if next != null {
        dynamic := ReleaseSegments(current, false, depth);
      } else {
        EmptyLists();
        assert lists[depth..] == [] && chain[depth..] == [] && chain[..depth] == chain && lists[..depth] == lists;
      }
    }

    method Install(dynamic: Block?, ghost blocks: seq<Block>, oldStack: int, size: nat, address: int)
      requires Valid() && depth == |chain| && IsList(dynamic, blocks)
      requires Range(blocks) !! Owned(lists) && Range(blocks) !! Range(freed)
      modifies `segments, `current, `chain, `lists, `depth, `saved, Members(chain)`next, Range(blocks)`next
      ensures Valid() && depth == old(depth) + 1 && fresh(current) && chain == old(chain) + [current]
      ensures current.oldStack == oldStack && current.size == size
      ensures lists == old(lists) + [Lists([], blocks)]
      ensures saved == old(saved) + [oldStack]
    {
      hide HasLists, Own, NoDuplicates, InUse, Returned;
      OwnedSplit(lists, Lists([], []));
      EmptyOwn();
      var pss := AppendSegment(size, address);
      Enter(pss, oldStack);
      if dynamic != null {
        Attach(dynamic, blocks);
      }
      assert blocks + [] == blocks;
    }
  }

  predicate Inside(s: Segment, stack: int)
    reads s`size
  {
    s.address < stack < s.address + s.size
  }

  /** Moving the blocks of released segments to one free list conserves them. */
  lemma ReplacedConserves(ls: seq<Lists>, k: nat)
    requires k <= |ls|
    ensures multiset(All(ls[..k] + [Lists([], Collected(ls[k..]))])) == multiset(All(ls))
  {
    hide All, Collected;
    CollectedConserves(ls[k..]);
    OneList(Collected(ls[k..]));
    SplitConserves(ls[..k], [Lists([], Collected(ls[k..]))], ls[k..], ls);
  }

  lemma SplitConserves(xs: seq<Lists>, ys: seq<Lists>, zs: seq<Lists>, ls: seq<Lists>)
    requires ls == xs + zs && multiset(All(ys)) == multiset(All(zs))
    ensures multiset(All(xs + ys)) == multiset(All(ls))
  {
    AllAppends(xs, ys);
    AllAppends(xs, zs);
  }

  lemma OneList(blocks: seq<Block>)
    ensures All([Lists([], blocks)]) == blocks
  {
    var l := [Lists([], blocks)];
    assert l[..0] == [] && All(l[..0]) == [];
    assert All(l) == All(l[..0]) + [] + blocks;
  }

  lemma EmptyOwn()
    ensures Own(Lists([], [])) == {}
  {
  }

  /** A segment's lists replaced by others, of its own blocks and of ones no segment had. */
  lemma ReplacedOwned(ls: seq<Lists>, k: nat, l: Lists, extra: set<Block>)
    requires k < |ls| && Separate(ls) && extra !! Owned(ls) && Own(l) <= Own(ls[k]) + extra
    ensures Separate(ls[k := l]) && Owned(ls[k := l]) <= Owned(ls) + extra
    ensures forall i | 0 <= i < |ls| :: extra !! Own(ls[i])
  {
    forall i | 0 <= i < |ls|
      ensures Own(ls[i]) <= Owned(ls)
    {
    }
  }

  lemma TailIsList(s: seq<Block>)
    requires s != [] && IsList(s[0], s)
    ensures s[0].next == (if |s| == 1 then null else s[1]) && IsList(s[0].next, s[1..])
  {
    assert LinkedBlock(s, 0);
    forall i | 0 <= i < |s[1..]|
      ensures LinkedBlock(s[1..], i)
    {
      assert LinkedBlock(s, i + 1);
    }
  }

  lemma ConsIsList(p: Block, s: seq<Block>)
    requires IsList(p.next, s) && p !in s
    ensures IsList(p, [p] + s)
  {
    forall i | 0 <= i < |[p] + s|
      ensures LinkedBlock([p] + s, i)
    {
      if i > 0 {
        assert LinkedBlock(s, i - 1);
      }
    }
  }

  lemma TakenOut(ls: seq<Lists>, j: nat)
    requires Separate(ls) && j < |ls| && WellFormed(ls[j]) && ls[j].free != []
    ensures ls[j].free[0] !in Owned(ls[j := Lists(ls[j].dynamic, ls[j].free[1..])]) && ls[j].free[0] in Owned(ls)
  {
    assert ls[j].free[0] in Own(ls[j]);
  }

  lemma FreedOut(ls: seq<Lists>, j: nat)
    requires Separate(ls) && j < |ls| && WellFormed(ls[j])
    ensures Range(ls[j].free) !! Owned(ls[j := Lists(ls[j].dynamic, [])]) && Range(ls[j].free) <= Owned(ls)
  {
    assert Range(ls[j].free) <= Own(ls[j]);
  }

  /** The segments' lists after the first `j` free lists were freed. */
  ghost function Emptied(ls: seq<Lists>, j: nat): seq<Lists>
    requires j <= |ls|
  {
    seq(|ls|, i requires 0 <= i < |ls| => if i < j then Lists(ls[i].dynamic, []) else ls[i])
  }

  lemma NothingSwept(ls: seq<Lists>, size: nat)
    ensures Emptied(ls, 0) == ls && Skipped(ls[..0], size) && Frees(ls[..0]) == []
  {
  }

  lemma EmptiedAt(ls: seq<Lists>, j: nat)
    requires j <= |ls|
    ensures |Emptied(ls, j)| == |ls| && (j < |ls| ==> Emptied(ls, j)[j] == ls[j])
    ensures j < |ls| && ls[j].free == [] ==> Emptied(ls, j)[j := Lists(ls[j].dynamic, [])] == Emptied(ls, j)
  {
  }

  lemma FoundAt(ls: seq<Lists>, j: nat)
    requires j < |ls| && ls[j].free != []
    ensures Emptied(ls, j)[j := Lists(ls[j].dynamic, ls[j].free[1..])] == Swept(ls, j)
  {
  }

  ghost function Occurrences(s: seq<Block>, b: Block): nat {
    multiset(s)[b]
  }

  /** How often a block occurs in some segments' lists. */
  ghost function Count(ls: seq<Lists>, b: Block): nat {
    if ls == [] then 0
    else Count(ls[..|ls| - 1], b) + Occurrences(ls[|ls| - 1].dynamic, b) + Occurrences(ls[|ls| - 1].free, b)
  }

  lemma OccurrencesAdd(s: seq<Block>, t: seq<Block>, b: Block)
    ensures Occurrences(s + t, b) == Occurrences(s, b) + Occurrences(t, b)
  {
  }

  lemma {:induction false} CountIsAll(ls: seq<Lists>, b: Block)
    ensures Count(ls, b) == Occurrences(All(ls), b)
  {
    if ls != [] {
      var front, last := ls[..|ls| - 1], ls[|ls| - 1];
      CountIsAll(front, b);
      OccurrencesAdd(All(front), last.dynamic, b);
      OccurrencesAdd(All(front) + last.dynamic, last.free, b);
      hide Occurrences;
    }
  }

  lemma {:induction false} CountReplaced(ls: seq<Lists>, i: nat, l: Lists, b: Block)
    requires i < |ls|
    ensures Count(ls[i := l], b) + Occurrences(ls[i].dynamic, b) + Occurrences(ls[i].free, b)
         == Count(ls, b) + Occurrences(l.dynamic, b) + Occurrences(l.free, b)
  {
    hide Occurrences;
    var n := |ls| - 1;
    if i == n {
      assert ls[i := l][..n] == ls[..n];
    } else {
      CountReplaced(ls[..n], i, l, b);
      assert ls[i := l][..n] == ls[..n][i := l];
    }
  }

  lemma {:induction false} EmptiedConserves(ls: seq<Lists>, j: nat, b: Block)
    requires j <= |ls|
    ensures Count(Emptied(ls, j), b) + Occurrences(Frees(ls[..j]), b) == Count(ls, b)
  {
    hide Occurrences, Count, Frees, Emptied;
    if j == 0 {
      NothingSwept(ls, 0);
      OccurrencesOfNone(b);
    } else {
      EmptiedConserves(ls, j - 1, b);
      EmptiedNext(ls, j - 1);
      CountReplaced(Emptied(ls, j - 1), j - 1, Lists(ls[j - 1].dynamic, []), b);
      OccurrencesAdd(Frees(ls[..j - 1]), ls[j - 1].free, b);
      OccurrencesOfNone(b);
    }
  }

  lemma EmptiedNext(ls: seq<Lists>, j: nat)
    requires j < |ls|
    ensures |Emptied(ls, j)| == |ls| && Emptied(ls, j)[j] == ls[j]
    ensures Emptied(ls, j)[j := Lists(ls[j].dynamic, [])] == Emptied(ls, j + 1)
    ensures Frees(ls[..j + 1]) == Frees(ls[..j]) + ls[j].free
  {
    assert ls[..j + 1][..j] == ls[..j];
  }

  lemma OccurrencesOfNone(b: Block)
    ensures Occurrences([], b) == 0
  {
  }

  /** Allocating conserves the blocks: each is still in a list, was freed, or is the one handed out while the
      thread is on its initial stack; only a new block adds to them. */
  lemma SpaceConserves(ls: seq<Lists>, j: nat, depth: nat, p: Block, b: Block)
    requires j <= |ls| && depth <= |ls| && (j < |ls| ==> ls[j].free != [] && p == ls[j].free[0])
    ensures Count(Given(Swept(ls, j), depth, p), b) + Occurrences(Frees(ls[..j]), b) + (if depth == 0 then Occurrences([p], b) else 0)
         == Count(ls, b) + (if j < |ls| then 0 else Occurrences([p], b))
  {
    hide Occurrences, Count, Frees, Emptied, Swept, Given;
    SweptCount(ls, j, p, b);
    GivenCount(Swept(ls, j), depth, p, b);
  }

  lemma SweptCount(ls: seq<Lists>, j: nat, p: Block, b: Block)
    requires j <= |ls| && (j < |ls| ==> ls[j].free != [] && p == ls[j].free[0])
    ensures |Swept(ls, j)| == |ls|
    ensures Count(Swept(ls, j), b) + Occurrences(Frees(ls[..j]), b) + (if j < |ls| then Occurrences([p], b) else 0) == Count(ls, b)
  {
    EmptiedConserves(ls, j, b);
    EmptiedAt(ls, j);
    if j < |ls| {
      FoundAt(ls, j);
      hide Occurrences, Count, Frees, Emptied, Swept;
      CountReplaced(Emptied(ls, j), j, Lists(ls[j].dynamic, ls[j].free[1..]), b);
      OccurrencesAdd([p], ls[j].free[1..], b);
      assert ls[j].free == [p] + ls[j].free[1..];
    }
  }

  lemma GivenCount(ls: seq<Lists>, depth: nat, p: Block, b: Block)
    requires depth <= |ls|
    ensures Count(Given(ls, depth, p), b) == Count(ls, b) + if depth == 0 then 0 else Occurrences([p], b)
  {
    hide Occurrences, Count;
    if depth > 0 {
      var g := ls[depth - 1];
      CountReplaced(ls, depth - 1, Lists([p] + g.dynamic, g.free), b);
      OccurrencesAdd([p], g.dynamic, b);
    }
  }

  lemma NothingFound(ls: seq<Lists>)
    ensures Swept(ls, |ls|) == Emptied(ls, |ls|) && ls[..|ls|] == ls
  {
  }

  /** And after the first block of the next one was taken. */
  ghost function Swept(ls: seq<Lists>, j: nat): (r: seq<Lists>)
    requires j <= |ls|
    ensures |r| == |ls|
  {
    if j < |ls| && ls[j].free != [] then Emptied(ls, j)[j := Lists(ls[j].dynamic, ls[j].free[1..])] else Emptied(ls, j)
  }

  ghost function Given(ls: seq<Lists>, depth: nat, p: Block): seq<Lists>
    requires depth <= |ls|
  {
    if depth == 0 then ls else ls[depth - 1 := Lists([p] + ls[depth - 1].dynamic, ls[depth - 1].free)]
  }

  ghost function Frees(ls: seq<Lists>): seq<Block> {
    if ls == [] then [] else Frees(ls[..|ls| - 1]) + ls[|ls| - 1].free
  }

  /** No first free block is large enough. */
  ghost predicate Skipped(ls: seq<Lists>, size: nat) {
    forall l <- ls :: l.free == [] || l.free[0].size < size
  }

  lemma SweptFurther(ls: seq<Lists>, j: nat, size: nat)
    requires j < |ls| && Skipped(ls[..j], size) && (ls[j].free == [] || ls[j].free[0].size < size)
    ensures Emptied(ls, j)[j := Lists(ls[j].dynamic, [])] == Emptied(ls, j + 1)
    ensures Skipped(ls[..j + 1], size) && Frees(ls[..j + 1]) == Frees(ls[..j]) + ls[j].free
  {
    assert ls[..j + 1] == ls[..j] + [ls[j]];
    assert ls[..j + 1][..j] == ls[..j];
  }

  lemma AppendedLists(c: seq<Segment>, ls: seq<Lists>, pss: Segment)
    requires |c| == |ls| && Separate(ls) && forall i | 0 <= i < |c| :: HasLists(c[i], ls[i])
    requires pss.dynamic == null && pss.free == null
    ensures Separate(ls + [Lists([], [])]) && Owned(ls + [Lists([], [])]) == Owned(ls)
    ensures forall i | 0 <= i <= |c| :: HasLists((c + [pss])[i], (ls + [Lists([], [])])[i])
  {
    OwnedSplit(ls, Lists([], []));
  }

  /** The tail of a chain is a chain. */
  lemma Suffix(c: seq<Segment>, ls: seq<Lists>, k: nat)
    requires |c| == |ls| && k <= |c| && Separate(ls)
    requires forall i | 0 <= i < |c| :: HasLists(c[i], ls[i]) && LinkedOn(c, i)
    ensures Separate(ls[k..]) && After(c[k..], 0) == After(c, k) && Owned(ls[k..]) <= Owned(ls)
    ensures forall i | 0 <= i < k :: Own(ls[i]) !! Owned(ls[k..])
    ensures forall i | 0 <= i < |c[k..]| :: HasLists(c[k..][i], ls[k..][i]) && LinkedOn(c[k..], i)
  {
    forall i | 0 <= i < |c[k..]|
      ensures HasLists(c[k..][i], ls[k..][i]) && LinkedOn(c[k..], i)
    {
      assert LinkedOn(c, k + i) && HasLists(c[k + i], ls[k + i]);
    }
    assert forall i | 0 <= i < |ls[k..]| :: ls[k..][i] == ls[k + i];
  }

  ghost predicate WellFormed(l: Lists) {
    NoDuplicates(l.dynamic) && NoDuplicates(l.free) && Range(l.dynamic) !! Range(l.free)
  }

  lemma ListWellFormed(s: Segment, l: Lists)
    requires HasLists(s, l)
    ensures WellFormed(l)
  {
  }

  lemma {:induction false} AllOwned(ls: seq<Lists>)
    requires Separate(ls) && forall i | 0 <= i < |ls| :: WellFormed(ls[i])
    ensures Range(All(ls)) == Owned(ls) && NoDuplicates(All(ls))
  {
    if ls != [] {
      var front, last := ls[..|ls| - 1], ls[|ls| - 1];
      AllOwned(front);
      OwnedSplit(front, last);
      assert front + [last] == ls;
      OwnedApart(ls, |front|);
      BlocksJoined(All(front), last.dynamic);
      BlocksJoined(All(front) + last.dynamic, last.free);
    }
  }

  lemma Joined<T>(a: seq<T>, b: seq<T>)
    requires NoDuplicates(a) && NoDuplicates(b) && forall x | x in a :: x !in b
    ensures NoDuplicates(a + b)
  {
    forall i, j | 0 <= i < j < |a + b|
      ensures (a + b)[i] != (a + b)[j]
    {
      if i < |a| <= j {
        assert a[i] in a && b[j - |a|] in b;
      }
    }
  }

  lemma BlocksJoined(a: seq<Block>, b: seq<Block>)
    requires NoDuplicates(a) && NoDuplicates(b) && Range(a) !! Range(b)
    ensures NoDuplicates(a + b) && Range(a + b) == Range(a) + Range(b)
  {
    forall x | x in a
      ensures x !in b
    {
      assert x in Range(a);
    }
    Joined(a, b);
  }

  /** The records of what was given back stay without duplicates, and apart from what is kept. */
  lemma GivenBack(c: seq<Segment>, ls: seq<Lists>, k: nat, freed: seq<Block>, unmapped: seq<Segment>, freeDynamic: bool)
    requires |c| == |ls| && k <= |c| && NoDuplicates(c) && Separate(ls)
    requires forall i | 0 <= i < |c| :: WellFormed(ls[i])
    requires NoDuplicates(freed) && Range(freed) !! Owned(ls) && NoDuplicates(unmapped)
    requires forall s <- unmapped :: s !in c
    ensures var freed' := freed + if freeDynamic then All(ls[k..]) else [];
      NoDuplicates(freed') && Range(freed') !! Owned(ls[..k]) && (!freeDynamic ==> Range(freed') !! Range(Collected(ls[k..])))
    ensures NoDuplicates(unmapped + c[k..]) && forall s <- unmapped + c[k..] :: s !in c[..k]
    ensures Separate(ls[..k]) && Range(Collected(ls[k..])) !! Owned(ls[..k])
  {
    AllOwned(ls[k..]);
    CollectedOwned(ls[k..]);
    TailApart(ls, k);
    if freeDynamic {
      BlocksJoined(freed, All(ls[k..]));
    } else {
      assert freed + [] == freed;
    }
    Joined(unmapped, c[k..]);
  }

  lemma WellFormedLists(c: seq<Segment>, ls: seq<Lists>)
    requires |c| == |ls| && forall i | 0 <= i < |c| :: HasLists(c[i], ls[i])
    ensures forall i | 0 <= i < |c| :: WellFormed(ls[i])
  {
    forall i | 0 <= i < |c|
      ensures WellFormed(ls[i])
    {
      assert HasLists(c[i], ls[i]);
    }
  }

  lemma TailApart(ls: seq<Lists>, k: nat)
    requires k <= |ls| && Separate(ls)
    ensures Owned(ls[..k]) !! Owned(ls[k..]) && Owned(ls[..k]) <= Owned(ls) && Owned(ls[k..]) <= Owned(ls)
  {
    assert forall i | 0 <= i < |ls[k..]| :: ls[k..][i] == ls[k + i];
  }

  lemma EmptyLists()
    ensures All([]) == [] && Collected([]) == [] && IsList(null, [])
  {
  }

  /** A segment's blocks are none of those of the other segments. */
  lemma OwnedApart(ls: seq<Lists>, i: nat)
    requires Separate(ls) && i < |ls|
    ensures Own(ls[i]) !! Owned(ls[..i]) && Own(ls[i]) <= Owned(ls)
    ensures forall j | 0 <= j < |ls| && j != i :: Own(ls[j]) !! Own(ls[i])
    ensures ls[..i + 1] == ls[..i] + [ls[i]]
    ensures All(ls[..i + 1]) == All(ls[..i]) + (ls[i].dynamic + ls[i].free)
  {
    assert ls[..i + 1][..i] == ls[..i];
  }

  lemma {:induction false} CollectedOwned(ls: seq<Lists>)
    ensures Range(Collected(ls)) == Owned(ls)
  {
    if ls == [] {
    } else {
      var front := ls[..|ls| - 1];
      CollectedOwned(front);
      OwnedSplit(front, ls[|ls| - 1]);
      assert front + [ls[|ls| - 1]] == ls;
      assert forall b :: b in Collected(ls) <==> b in ls[|ls| - 1].free || b in ls[|ls| - 1].dynamic || b in Collected(front);
    }
  }

  lemma OwnedSplit(front: seq<Lists>, last: Lists)
    ensures Owned(front + [last]) == Owned(front) + Own(last)
  {
    var ls := front + [last];
    forall b | b in Own(last)
      ensures b in Owned(ls)
    {
      assert b in Own(ls[|front|]);
    }
    forall b | b in Owned(front)
      ensures b in Owned(ls)
    {
      var i :| 0 <= i < |front| && b in Own(front[i]);
      assert b in Own(ls[i]);
    }
  }
}
