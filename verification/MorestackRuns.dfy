/** Whole runs of the split-stack functions of one thread (plugin-libc/libgcc/generic-morestack.c and
    generic-morestack-thread.c), in any order, up to its exit. */
module MorestackRuns {
  import opened Morestack

  /** What the thread's code calls; `size` and `address` are those of the segment mapped if one is needed. */
  datatype Call =
    | Grow(frameSize: nat, oldStack: int, paramSize: nat, size: nat, address: int)
    | Shrink
    | Find(stack: int)
    | Allocate(bytes: nat)
    | Exit

  /** The thread's exit, if it comes, is the last of its calls. */
  predicate ExitLast(calls: seq<Call>) {
    forall i | 0 <= i < |calls| - 1 :: !calls[i].Exit?
  }

  predicate Exited(calls: seq<Call>) {
    calls != [] && calls[|calls| - 1].Exit?
  }

  /** The blocks the thread still has, and those it gave back. */
  ghost function Accounted(t: Thread): multiset<Block>
    reads t`lists, t`freed
  {
    multiset(All(t.lists)) + multiset(t.freed)
  }

  /** The segments the thread still has, and those it unmapped. */
  ghost function Mapped(t: Thread): multiset<Segment>
    reads t`chain, t`unmapped
  {
    multiset(t.chain) + multiset(t.unmapped)
  }

  /** What a thread that has exited leaves: nothing, and nothing given back twice. */
  ghost predicate Gone(t: Thread)
    reads t
  {
    t.chain == [] && t.lists == [] && t.Returned()
  }

  /** The blocks in some segments' lists, those given back, and some others. */
  ghost function Tally(ls: seq<Lists>, freed: seq<Block>, others: seq<Block>): multiset<Block> {
    multiset(All(ls)) + multiset(freed) + multiset(others)
  }

  /** Blocks and segments are old ones, or were made since. */
  twostate predicate OldOrNew(t: Thread)
    reads t`chain, t`lists
  {
    && (forall s <- t.chain :: s in old(t.chain) || fresh(s))
    && (forall b <- Owned(t.lists) :: b in old(Owned(t.lists)) || fresh(b))
  }

  lemma OwnedAreAll(t: Thread, b: Block)
    requires t.Valid()
    ensures b in Owned(t.lists) <==> multiset(All(t.lists))[b] > 0
  {
    WellFormedLists(t.chain, t.lists);
    AllOwned(t.lists);
    assert b in All(t.lists) <==> b in multiset(All(t.lists));
  }

  /** What allocation does to the blocks, counted. */
  lemma AllocationAccounts(ls: seq<Lists>, j: nat, depth: nat, p: Block, freed: seq<Block>)
    requires j <= |ls| && depth <= |ls| && (j < |ls| ==> ls[j].free != [] && p == ls[j].free[0])
    ensures Tally(Given(Swept(ls, j), depth, p), freed + Frees(ls[..j]), if depth == 0 then [p] else [])
         == Tally(ls, freed, if j < |ls| then [] else [p])
  {
    hide All, Given, Swept, Frees;
    var ls' := Given(Swept(ls, j), depth, p);
    var kept, gone, out := multiset(All(ls')), multiset(freed + Frees(ls[..j])), multiset(if depth == 0 then [p] else []);
    var had, before, new_ := multiset(All(ls)), multiset(freed), multiset(if j < |ls| then [] else [p]);
    var after, then_ := kept + gone + out, had + before + new_;
    forall b <- after + then_
      ensures after[b] == then_[b]
    {
      SpaceConserves(ls, j, depth, p, b);
      CountIsAll(ls', b);
      CountIsAll(ls, b);
      OccurrencesAdd(freed, Frees(ls[..j]), b);
      hide Count;
    }
    SameCounts(after, then_);
  }

  lemma SameCounts<T>(a: multiset<T>, b: multiset<T>)
    requires forall x <- a + b :: a[x] == b[x]
    ensures a == b
  {
  }

  method PerformGrow(t: Thread, call: Call) returns (ghost mapped: seq<Segment>)
    requires t.Valid() && call.Grow?
    modifies t, Members(t.chain), Owned(t.lists)`next
    ensures t.Valid() && OldOrNew(t) && t.freed == old(t.freed) && multiset(All(t.lists)) == multiset(All(old(t.lists)))
    ensures Mapped(t) == old(Mapped(t)) + multiset(mapped) && forall s <- mapped :: fresh(s)
  {
    hide All, Owned, Collected, Thread.Valid;
    ghost var c, ls, depth, owned, unmapped := t.chain, t.lists, t.depth, Owned(t.lists), t.unmapped;
    Sizes(t);
    WasOwned(t);
    var available := t.Morestack(call.frameSize, call.oldStack, call.paramSize, call.size, call.address);
    mapped := [];
    if t.chain != c || t.unmapped != unmapped {
      OnlyLastNew(c, t.chain, depth, t.current);
      mapped := [t.current];
      TailUnmapped(c, depth, unmapped, t.current);
    }
    KeepsOwned(t, ls, owned);
  }

  lemma TailUnmapped(c: seq<Segment>, depth: nat, unmapped: seq<Segment>, s: Segment)
    requires depth <= |c|
    ensures multiset(c[..depth] + [s]) + multiset(unmapped + c[depth..]) == multiset(c) + multiset(unmapped) + multiset([s])
  {
    assert c == c[..depth] + c[depth..];
  }

  lemma KeepsOwned(t: Thread, ls: seq<Lists>, owned: set<Block>)
    requires t.Valid() && multiset(All(t.lists)) == multiset(All(ls))
    requires forall b | b in multiset(All(ls)) :: b in owned
    ensures Owned(t.lists) <= owned
  {
    forall b <- Owned(t.lists)
      ensures b in owned
    {
      OwnedAreAll(t, b);
    }
  }

  lemma OnlyLastNew(c: seq<Segment>, c': seq<Segment>, depth: nat, last: Segment)
    requires depth <= |c| && |c'| == depth + 1 && c'[..depth] == c[..depth] && c'[depth] == last
    ensures c' == c[..depth] + [last] && forall s <- c' :: s in c || s == last
  {
    assert c' == c[..depth] + [last];
  }

  /** A thread's blocks, as a set and as a multiset. */
  lemma WasOwned(t: Thread)
    requires t.Valid()
    ensures forall b | b in multiset(All(t.lists)) :: b in Owned(t.lists)
  {
    forall b | b in multiset(All(t.lists))
      ensures b in Owned(t.lists)
    {
      OwnedAreAll(t, b);
    }
  }

  method AllocateAccounted(t: Thread, bytes: nat) returns (ghost made: seq<Block>, ghost handed: seq<Block>)
    requires t.Valid()
    modifies t`lists, t`freed, Members(t.chain)`dynamic, Members(t.chain)`free, Owned(t.lists)`next
    ensures t.Valid() && old(t.freed) <= t.freed && forall b <- made :: fresh(b)
    ensures Tally(t.lists, t.freed, handed) == Tally(old(t.lists), old(t.freed), made)
  {
    hide All, Tally, Owned, Given, Swept, Frees, Skipped, Thread.Valid;
    ghost var ls, depth, freed := t.lists, t.depth, t.freed;
    Sizes(t);
    var p;
    ghost var j;
    p, j := t.AllocateStackSpace(bytes);
    made, handed := if j < |ls| then [] else [p], if depth == 0 then [p] else [];
    AllocationAccounts(ls, j, depth, p, freed);
  }

  method PerformAllocate(t: Thread, bytes: nat) returns (ghost made: seq<Block>, ghost handed: seq<Block>)
    requires t.Valid()
    modifies t, Members(t.chain), Owned(t.lists)`next
    ensures t.Valid() && OldOrNew(t) && forall b <- made :: fresh(b)
    ensures Accounted(t) + multiset(handed) == old(Accounted(t)) + multiset(made)
    ensures t.chain == old(t.chain) && t.unmapped == old(t.unmapped)
  {
    hide All, Owned, Thread.Valid;
    ghost var ls, freed := t.lists, t.freed;
    WasOwned(t);
    made, handed := AllocateAccounted(t, bytes);
    forall b <- Owned(t.lists)
      ensures b in old(Owned(t.lists)) || fresh(b)
    {
      StillListed(t, b);
      OwnedAreAll(t, b);
      FromSomewhere(b, t.lists, t.freed, handed, ls, freed, made);
    }
  }

  lemma FromSomewhere(b: Block, ls: seq<Lists>, freed: seq<Block>, handed: seq<Block>, had: seq<Lists>, before: seq<Block>, made: seq<Block>)
    requires Tally(ls, freed, handed) == Tally(had, before, made) && b in multiset(All(ls))
    ensures b in multiset(All(had)) || b in before || b in made
  {
    hide All;
    assert b in Tally(ls, freed, handed);
    assert b in Tally(had, before, made);
  }

  lemma StillListed(t: Thread, b: Block)
    requires t.Valid() && b in Owned(t.lists)
    ensures b !in t.freed
  {
    assert b !in Range(t.freed);
  }

  lemma Sizes(t: Thread)
    requires t.Valid()
    ensures t.depth <= |t.lists| == |t.chain|
  {
  }

  /** The thread's exit releases all its segments and frees all its blocks, wherever it was. */
  method PerformExit(t: Thread)
    requires t.Valid()
    modifies t, Members(t.chain), Owned(t.lists)`next
    ensures Gone(t) && Accounted(t) == old(Accounted(t)) && Mapped(t) == old(Mapped(t))
  {
    hide Thread.Listed, Thread.InUse, Owned;
    ghost var c, ls, freed, unmapped := t.chain, t.lists, t.freed, t.unmapped;
    var ret := t.ReleaseSegments(null, true, 0);
    assert c[0..] == c && ls[0..] == ls;
    assert multiset(freed + All(ls)) == multiset(freed) + multiset(All(ls));
    assert multiset(unmapped + c) == multiset(unmapped) + multiset(c);
  }

  /** One call. `made` are the blocks it created, `handed` those given to the caller while the thread is on its
      initial stack, which has no list for them, `mapped` the segments it created. A return with no segment in use is
      not a call of this thread's. */
  method Perform(t: Thread, call: Call) returns (ghost made: seq<Block>, ghost handed: seq<Block>, ghost mapped: seq<Segment>)
    requires t.Valid()
    modifies t, Members(t.chain), Owned(t.lists)`next
    ensures OldOrNew(t) && (forall b <- made :: fresh(b)) && forall s <- mapped :: fresh(s)
    ensures if call.Exit? then Gone(t) else t.Valid()
    ensures !call.Allocate? ==> made == [] && handed == []
    ensures !call.Allocate? && !call.Exit? ==> t.freed == old(t.freed)
    ensures Accounted(t) + multiset(handed) == old(Accounted(t)) + multiset(made)
    ensures Mapped(t) == old(Mapped(t)) + multiset(mapped)
  {
    made, handed, mapped := [], [], [];
    hide All, Owned, Thread.Listed, Thread.InUse, Thread.Returned;
    match call
    case Grow(_, _, _, _, _) =>
      mapped := PerformGrow(t, call);
    case Shrink =>
      if t.current != null {
        var oldStack := t.ReleaseStack();
      }
    case Find(stack) =>
      ghost var i := t.FindStack(stack);
    case Allocate(bytes) =>
      made, handed := PerformAllocate(t, bytes);
    case Exit =>
      PerformExit(t);
      NoneOwned();
  }

  lemma NoneOwned()
    ensures Owned([]) == {}
  {
  }

  /** Any run of calls keeps the chain and the lists well-formed, and accounts for every block and every segment: a
      block is in a list, was freed, or was handed out on the initial stack; a segment is on the chain or was unmapped.
      A run that ends with the thread's exit leaves no list and no chain, so every block not handed out was freed and
      every segment unmapped, each exactly once. Without allocation, no block is made, freed or lost before that. */
  method RunCalls(t: Thread, calls: seq<Call>) returns (ghost made: seq<Block>, ghost handed: seq<Block>, ghost mapped: seq<Segment>)
    requires t.Valid() && ExitLast(calls)
    modifies t, Members(t.chain), Owned(t.lists)`next
    ensures (forall b <- made :: fresh(b)) && forall s <- mapped :: fresh(s)
    ensures if Exited(calls) then Gone(t) else t.Valid()
    ensures Accounted(t) + multiset(handed) == old(Accounted(t)) + multiset(made)
    ensures Mapped(t) == old(Mapped(t)) + multiset(mapped)
    ensures Exited(calls) ==>
      && multiset(t.freed) + multiset(handed) == old(Accounted(t)) + multiset(made)
      && multiset(t.unmapped) == old(Mapped(t)) + multiset(mapped)
    ensures (forall c <- calls :: !c.Allocate? && !c.Exit?) ==>
      t.freed == old(t.freed) && multiset(All(t.lists)) == old(multiset(All(t.lists)))
  {
    hide Thread.Valid, All, Owned, Accounted, Mapped, Gone, Exited;
    made, handed, mapped := [], [], [];
    AccountedIs(t);
    NotExited(calls);
    for i := 0 to |calls|
      invariant OldOrNew(t) && (forall b <- made :: fresh(b)) && forall s <- mapped :: fresh(s)
      invariant if Exited(calls[..i]) then Gone(t) else t.Valid()
      invariant Accounted(t) + multiset(handed) == old(Accounted(t)) + multiset(made)
      invariant Mapped(t) == old(Mapped(t)) + multiset(mapped)
      invariant (forall c <- calls :: !c.Allocate? && !c.Exit?) ==> made == [] && handed == [] && t.freed == old(t.freed)
    {
      ghost var m, h, ss;
      ghost var was, had := Accounted(t), Mapped(t);
      m, h, ss := Perform(t, calls[i]);
      Adds(Accounted(t), was, old(Accounted(t)), made, m, handed, h);
      AddsMapped(Mapped(t), had, old(Mapped(t)), mapped, ss);
      NowExited(calls, i);
      made, handed, mapped := made + m, handed + h, mapped + ss;
    }
    assert calls[..|calls|] == calls;
    if Exited(calls) {
      AllGivenBack(t);
    }
    AccountedIs(t);
    if forall c <- calls :: !c.Allocate? && !c.Exit? {
      Cancels(multiset(All(t.lists)), old(multiset(All(t.lists))), multiset(t.freed));
    }
  }

  lemma AccountedIs(t: Thread)
    ensures Accounted(t) == multiset(All(t.lists)) + multiset(t.freed)
  {
  }

  lemma AllGivenBack(t: Thread)
    requires Gone(t)
    ensures Accounted(t) == multiset(t.freed) && Mapped(t) == multiset(t.unmapped)
  {
  }

  lemma NotExited(calls: seq<Call>)
    requires ExitLast(calls)
    ensures !Exited(calls[..0]) && forall i | 0 <= i < |calls| :: !Exited(calls[..i])
  {
  }

  lemma NowExited(calls: seq<Call>, i: nat)
    requires i < |calls|
    ensures Exited(calls[..i + 1]) <==> calls[i].Exit?
  {
  }

  lemma AddsMapped(now: multiset<Segment>, was: multiset<Segment>, first: multiset<Segment>, mapped: seq<Segment>, ss: seq<Segment>)
    requires was == first + multiset(mapped) && now == was + multiset(ss)
    ensures now == first + multiset(mapped + ss)
  {
    assert multiset(mapped + ss) == multiset(mapped) + multiset(ss);
  }

  lemma Adds(now: multiset<Block>, was: multiset<Block>, first: multiset<Block>, made: seq<Block>, m: seq<Block>, handed: seq<Block>, h: seq<Block>)
    requires was + multiset(handed) == first + multiset(made) && now + multiset(h) == was + multiset(m)
    ensures now + multiset(handed + h) == first + multiset(made + m)
  {
    assert multiset(made + m) == multiset(made) + multiset(m) && multiset(handed + h) == multiset(handed) + multiset(h);
    assert now + (multiset(handed) + multiset(h)) == now + multiset(h) + multiset(handed);
    assert was + multiset(m) + multiset(handed) == was + multiset(handed) + multiset(m);
    assert first + multiset(made) + multiset(m) == first + (multiset(made) + multiset(m));
  }

  lemma Cancels(a: multiset<Block>, b: multiset<Block>, c: multiset<Block>)
    ensures a + c + multiset([]) == b + c + multiset([]) ==> a == b
  {
    if a + c == b + c {
      forall x <- a + b
        ensures a[x] == b[x]
      {
        assert (a + c)[x] == (b + c)[x];
      }
      SameCounts(a, b);
    }
    assert a + c + multiset([]) == a + c && b + c + multiset([]) == b + c;
  }
}
