/** Emulated thread-local storage (plugin-libc/libgcc/emutls.c: `__emutls_get_address`) as the interleaved
    steps of any number of threads. One step is one access to shared memory, or one stretch of work on data
    only the thread itself can reach. */
module Emutls {
  import opened Bytes
  import Powers

  /** A pointer to a block; blocks are numbered in the order of their allocation. */
  datatype Ptr = Null | Block(id: nat)

  /** A thread's `__emutls_array`: the `size` field, and the words that follow it in memory. */
  datatype Table = Table(size: nat, data: seq<Ptr>)

  datatype Owner = Owner(thread: nat, obj: nat)

  /** A call by `thread` for `obj` came back with `ptr`. */
  datatype Event = Returned(thread: nat, obj: nat, ptr: Ptr)

  /** Where a thread stands in `__emutls_get_address`: the next access it makes. */
  datatype Pc =
    | Idle
    | Load(obj: nat)                            // the atomic load outside the mutex
    | Once(obj: nat)
    | Lock(obj: nat)
    | Recheck(obj: nat)                         // the load under the mutex
    | Bump(obj: nat)                            // ++emutls_size
    | Publish(obj: nat, offset: nat)            // the atomic store
    | Unlock(obj: nat, offset: nat)
    | Prepare(obj: nat, offset: nat)            // finding, allocating or growing the table
    | Look(obj: nat, offset: nat)               // reading the slot, allocating the block
    | Fill(obj: nat, offset: nat, ptr: Ptr)     // writing the slot
    | Finish(obj: nat, ptr: Ptr)
    | Exited

  /** `fault` is an access outside a table, the use of a key not created, the release of a mutex not held, or
      a block freed twice; `aborted` the source's call of `abort` when it runs out of resources. */
  datatype State = State(
    initialized: bool,
    mutex: Option<nat>,
    size: nat,                                  // emutls_size
    offsets: map<nat, nat>,                     // the objects whose offset is not zero
    pcs: map<nat, Pc>,
    tables: map<nat, Table>,
    owners: seq<Owner>,                         // of every block ever allocated
    live: set<nat>,
    trace: seq<Event>,
    aborted: bool,
    fault: bool)

  /** What a thread may do: start a call, take its next step (`junk` is what memory from `realloc` holds
      beyond the old contents), find no memory for it, or exit. */
  datatype Action = Call(obj: nat) | Step(junk: Ptr) | OutOfMemory | Exit

  const INITIAL := State(false, None, 0, map[], map[], map[], [], {}, [], false, false)

  function Offset(s: State, o: nat): nat {
    if o in s.offsets then s.offsets[o] else 0
  }

  function At(s: State, t: nat): Pc {
    if t in s.pcs then s.pcs[t] else Idle
  }

  function Go(s: State, t: nat, pc: Pc): State {
    s.(pcs := s.pcs[t := pc])
  }

  /** A new table of `words` words, the first of which holds its size. */
  function Calloc(words: nat): (r: Table)
    requires words >= 1
    ensures |r.data| == words - 1
  {
    Table(0, seq(words - 1, _ => Null))
  }

  function Realloc(table: Table, words: nat, junk: Ptr): (r: Table)
    requires words >= 1
    ensures |r.data| == words - 1
  {
    var n := words - 1;
    if n <= |table.data| then Table(table.size, table.data[..n])
    else Table(table.size, table.data + seq(n - |table.data|, _ => junk))
  }

  /** `memset` to zero of `count` words from `from`; nothing when that is outside the table. */
  function Clear(data: seq<Ptr>, from: nat, count: nat): Option<seq<Ptr>> {
    if from + count <= |data| then Some(data[..from] + seq(count, _ => Null) + data[from + count..]) else None
  }

  /** The table after a call has made room for `offset`; nothing when it wrote outside of it. */
  function MakeRoom(table: Option<Table>, offset: nat, junk: Ptr): Option<Table> {
    match table
    case None =>
      var size := offset + 32;
      Some(Calloc(size + 1).(size := size))
    case Some(arr) =>
      if offset > arr.size then
        var origSize := arr.size;
        var size := if offset > origSize * 2 then offset + 32 else origSize * 2;
        var grown := Realloc(arr, size + 1, junk);
        match Clear(grown.data, origSize, size - origSize)
        case None => None
        case Some(data) => Some(Table(size, data))
      else
        Some(arr)
  }

  /** `emutls_destroy`: frees the blocks of a table's first `n` slots; nothing when it frees a block that is
      not live or reads outside the table. */
  function Destroy(live: set<nat>, data: seq<Ptr>, n: nat): Option<set<nat>> {
    if n == 0 then Some(live)
    else if n > |data| then None
    else
      match Destroy(live, data, n - 1)
      case None => None
      case Some(rest) =>
        if data[n - 1].Null? then Some(rest)
        else if data[n - 1].id in rest then Some(rest - {data[n - 1].id})
        else None
  }

  function StartStep(s: State, t: nat): (r: State)
    ensures r.offsets == s.offsets
  {
    var pc := At(s, t);
    match pc
    case Load(o) =>
      Go(s, t, if Offset(s, o) == 0 then Once(o) else Prepare(o, Offset(s, o)))
    case Once(o) =>
      Go(s.(initialized := true), t, Lock(o))
    case Lock(o) =>
      if s.mutex.None? then Go(s.(mutex := Some(t)), t, Recheck(o)) else s
    case _ => s
  }

  function LockedStep(s: State, t: nat): State {
    var pc := At(s, t);
    match pc
    case Recheck(o) =>
      Go(s, t, if Offset(s, o) == 0 then Bump(o) else Unlock(o, Offset(s, o)))
    case Bump(o) =>
      Go(s.(size := s.size + 1), t, Publish(o, s.size + 1))
    case Publish(o, offset) =>
      Go(s.(offsets := s.offsets[o := offset]), t, Unlock(o, offset))
    case Unlock(o, offset) =>
      if s.mutex == Some(t) then Go(s.(mutex := None), t, Prepare(o, offset)) else s.(fault := true)
    case _ => s
  }

  predicate InTable(s: State, t: nat, offset: nat) {
    t in s.tables && 1 <= offset <= |s.tables[t].data|
  }

  function PrepareStep(s: State, t: nat, o: nat, offset: nat, junk: Ptr): (r: State)
    ensures r.offsets == s.offsets
  {
    if !s.initialized then s.(fault := true)
    else
      match MakeRoom(if t in s.tables then Some(s.tables[t]) else None, offset, junk)
      case None => s.(fault := true)
      case Some(table) => Go(s.(tables := s.tables[t := table]), t, Look(o, offset))
  }

  function LookStep(s: State, t: nat, o: nat, offset: nat): (r: State)
    ensures r.offsets == s.offsets
  {
    if !InTable(s, t, offset) then s.(fault := true)
    else
      var ret := s.tables[t].data[offset - 1];
      if ret.Null? then
        var b := |s.owners|;
        Go(s.(owners := s.owners + [Owner(t, o)], live := s.live + {b}), t, Fill(o, offset, Block(b)))
      else
        Go(s, t, Finish(o, ret))
  }

  function FillStep(s: State, t: nat, o: nat, offset: nat, ptr: Ptr): (r: State)
    ensures r.offsets == s.offsets
  {
    if !InTable(s, t, offset) then s.(fault := true)
    else
      var table := s.tables[t];
      Go(s.(tables := s.tables[t := table.(data := table.data[offset - 1 := ptr])]), t, Finish(o, ptr))
  }

  function ExitStep(s: State, t: nat): (r: State)
    ensures r.offsets == s.offsets
  {
    if t !in s.tables then Go(s, t, Exited)
    else
      match Destroy(s.live, s.tables[t].data, s.tables[t].size)
      case None => s.(fault := true)
      case Some(live) => Go(s.(live := live, tables := s.tables - {t}), t, Exited)
  }

  /** The system's step when `t` does `a`; a thread that cannot do it stays where it is. */
  function Next(s: State, t: nat, a: Action): State {
    if s.aborted || s.fault then s
    else
      var pc := At(s, t);
      match a
      case Call(obj) => if pc.Idle? then Go(s, t, Load(obj)) else s
      case Exit => if pc.Idle? then ExitStep(s, t) else s
      case OutOfMemory => if pc.Once? || pc.Prepare? || pc.Look? then s.(aborted := true) else s
      case Step(junk) =>
        match pc
        case Prepare(o, offset) => PrepareStep(s, t, o, offset, junk)
        case Look(o, offset) => LookStep(s, t, o, offset)
        case Fill(o, offset, ptr) => FillStep(s, t, o, offset, ptr)
        case Finish(o, ptr) => Go(s.(trace := s.trace + [Returned(t, o, ptr)]), t, Idle)
        case Load(_) => StartStep(s, t)
        case Once(_) => StartStep(s, t)
        case Lock(_) => StartStep(s, t)
        case _ => LockedStep(s, t)
  }

  /** The state a schedule leads to. */
  function Run(s: State, schedule: seq<(nat, Action)>): State {
    if schedule == [] then s
    else
      var last := schedule[|schedule| - 1];
      Next(Run(s, schedule[..|schedule| - 1]), last.0, last.1)
  }

  // The invariant, in parts.

  ghost predicate OffsetsOk(s: State) {
    && (forall o <- s.offsets :: 1 <= s.offsets[o] <= s.size && s.initialized)
    && (forall o <- s.offsets, p <- s.offsets :: s.offsets[o] == s.offsets[p] ==> o == p)
  }

  predicate Holds(pc: Pc) {
    pc.Recheck? || pc.Bump? || pc.Publish? || pc.Unlock?
  }

  ghost predicate MutexOk(s: State) {
    && (forall t <- s.pcs :: Holds(s.pcs[t]) ==> s.mutex == Some(t))
    && (s.mutex.Some? ==> s.mutex.value in s.pcs && Holds(s.pcs[s.mutex.value]))
  }

  predicate Publishing(s: State) {
    s.mutex.Some? && At(s, s.mutex.value).Publish?
  }

  /** Every offset up to `emutls_size` has been given to an object, or is about to be. */
  ghost predicate CountOk(s: State) {
    s.size == |s.offsets| + if Publishing(s) then 1 else 0
  }

  ghost predicate ControlOk(s: State) {
    OffsetsOk(s) && CountOk(s) && MutexOk(s)
  }

  /** What holds of the thread `t` at `pc`. */
  ghost predicate PcOk(s: State, t: nat, pc: Pc) {
    match pc
    case Idle => true
    case Load(_) => true
    case Once(_) => true
    case Lock(_) => s.initialized
    case Recheck(_) => s.initialized
    case Bump(o) => s.initialized && o !in s.offsets
    case Publish(o, offset) =>
      && s.initialized && o !in s.offsets && 1 <= offset == s.size
      && forall p <- s.offsets :: s.offsets[p] < offset
    case Unlock(o, offset) => o in s.offsets && s.offsets[o] == offset
    case Prepare(o, offset) => o in s.offsets && s.offsets[o] == offset
    case Look(o, offset) => o in s.offsets && s.offsets[o] == offset && InTable(s, t, offset)
    case Fill(o, offset, ptr) =>
      && o in s.offsets && s.offsets[o] == offset && InTable(s, t, offset)
      && s.tables[t].data[offset - 1] == Null
      && ptr.Block? && ptr.id < |s.owners| && s.owners[ptr.id] == Owner(t, o) && ptr.id in s.live
    case Finish(o, ptr) =>
      && o in s.offsets && InTable(s, t, s.offsets[o])
      && ptr.Block? && s.tables[t].data[s.offsets[o] - 1] == ptr
    case Exited => t !in s.tables
  }

  ghost predicate PcsOk(s: State) {
    forall t <- s.pcs :: PcOk(s, t, s.pcs[t])
  }

  /** The block in slot `k` of `t` belongs to `t` and to the object with the offset `k + 1`. */
  ghost predicate SlotOk(s: State, t: nat, k: nat, p: Ptr) {
    p.Block? ==>
      && p.id < |s.owners| && p.id in s.live
      && s.owners[p.id].thread == t
      && Offset(s, s.owners[p.id].obj) == k + 1
  }

  ghost predicate TablesOk(s: State) {
    && (forall t <- s.tables :: s.tables[t].size == |s.tables[t].data| && t in s.pcs)
    && (forall t <- s.tables, k | 0 <= k < |s.tables[t].data| :: SlotOk(s, t, k, s.tables[t].data[k]))
  }

  /** A live block is in its owner's slot, or on its way there; a block not live had an owner that exited. */
  ghost predicate BlockOk(s: State, b: nat, owner: Owner) {
    var t, o := owner.thread, owner.obj;
    if b in s.live then
      && o in s.offsets && InTable(s, t, s.offsets[o])
      && (s.tables[t].data[s.offsets[o] - 1] == Block(b) || At(s, t) == Fill(o, s.offsets[o], Block(b)))
    else
      At(s, t).Exited?
  }

  ghost predicate BlocksOk(s: State) {
    && (forall b <- s.live :: b < |s.owners|)
    && (forall b | 0 <= b < |s.owners| :: BlockOk(s, b, s.owners[b]))
    && (forall b, c | 0 <= b < c < |s.owners| :: s.owners[b] != s.owners[c])
  }

  ghost predicate EventOk(s: State, e: Event) {
    e.ptr.Block? && e.ptr.id < |s.owners| && s.owners[e.ptr.id] == Owner(e.thread, e.obj)
  }

  ghost predicate TraceOk(s: State) {
    forall e <- s.trace :: EventOk(s, e)
  }

  ghost predicate Inv(s: State) {
    ControlOk(s) && PcsOk(s) && TablesOk(s) && BlocksOk(s) && TraceOk(s) && !s.fault
  }

  // Tables.

  /** Making room never writes outside the table, leaves `offset` in bounds, and keeps every entry; the new
      ones are empty. */
  lemma RoomMade(table: Option<Table>, offset: nat, junk: Ptr)
    requires table.Some? ==> table.value.size == |table.value.data|
    ensures var r := MakeRoom(table, offset, junk);
      && r.Some? && r.value.size == |r.value.data| >= offset
      && (table.Some? ==> table.value.data <= r.value.data)
      && forall k | (if table.Some? then |table.value.data| else 0) <= k < |r.value.data| :: r.value.data[k] == Null
  {
  }

  /** Freeing a table's blocks frees each once and nothing else. */
  lemma {:induction false} Destroyed(live: set<nat>, data: seq<Ptr>, n: nat)
    requires n <= |data|
    requires forall k | 0 <= k < n :: data[k].Block? ==> data[k].id in live
    requires forall j, k | 0 <= j < k < n :: data[j].Block? ==> data[j] != data[k]
    ensures var r := Destroy(live, data, n);
      r.Some? && forall b :: b in r.value <==> b in live && Block(b) !in data[..n]
  {
    if n > 0 {
      Destroyed(live, data, n - 1);
      assert data[..n] == data[..n - 1] + [data[n - 1]];
    }
  }

  // Every step keeps the invariant.

  lemma OwnPc(s: State, t: nat)
    requires PcsOk(s) && t in s.pcs
    ensures PcOk(s, t, s.pcs[t])
  {
  }

  lemma OwnTable(s: State, t: nat)
    requires TablesOk(s) && t in s.tables
    ensures s.tables[t].size == |s.tables[t].data| && t in s.pcs
  {
  }

  /** A step that moves one thread, taking or leaving no mutex and changing nothing else. */
  lemma MoveKeeps(s: State, t: nat, pc: Pc)
    requires Inv(s) && Holds(pc) == Holds(At(s, t)) && PcOk(s, t, pc)
    requires !At(s, t).Fill? && !At(s, t).Exited? && !pc.Exited? && !At(s, t).Publish? && !pc.Publish?
    ensures Inv(Go(s, t, pc))
  {
    var s' := Go(s, t, pc);
    hide ControlOk, PcsOk, TablesOk, BlocksOk, TraceOk;
    ControlKept(s, s', t);
    KeptElsewhere(s, s', t);
  }

  /** A step that changes nothing but the thread's own state, the mutex, the counter or the key. */
  lemma KeptElsewhere(s: State, s': State, t: nat)
    requires PcsOk(s) && TablesOk(s) && BlocksOk(s) && TraceOk(s) && !s.fault && ControlOk(s')
    requires s'.offsets == s.offsets && s'.tables == s.tables && s'.owners == s.owners && s'.live == s.live
    requires s'.trace == s.trace && !s'.fault && (s.initialized ==> s'.initialized)
    requires t in s'.pcs && s'.pcs == s.pcs[t := s'.pcs[t]] && PcOk(s', t, s'.pcs[t])
    requires !At(s, t).Fill? && !At(s, t).Exited? && !s'.pcs[t].Exited?
    requires s'.size == s.size || forall u <- s.pcs :: u != t ==> !s.pcs[u].Publish?
    ensures Inv(s')
  {
    hide ControlOk, PcsOk, TablesOk, BlocksOk, TraceOk, PcOk;
    PcsKept(s, s', t);
    SlotsKept(s, s');
    BlocksKept(s, s');
    EventsKept(s, s');
  }

  lemma ControlKept(s: State, s': State, t: nat)
    requires ControlOk(s) && s'.offsets == s.offsets && s'.size == s.size && s'.mutex == s.mutex
    requires s.initialized ==> s'.initialized
    requires t in s'.pcs && s'.pcs == s.pcs[t := s'.pcs[t]]
    requires Holds(s'.pcs[t]) == Holds(At(s, t)) && !At(s, t).Publish? && !s'.pcs[t].Publish?
    ensures ControlOk(s')
  {
  }

  /** The other threads' states do not depend on the thread that moved, as long as offsets, tables and blocks
      stay. */
  lemma PcsKept(s: State, s': State, t: nat)
    requires PcsOk(s) && t in s'.pcs && PcOk(s', t, s'.pcs[t])
    requires forall u <- s'.pcs :: u != t ==> u in s.pcs && s'.pcs[u] == s.pcs[u]
    requires s'.offsets == s.offsets && s'.tables == s.tables && s.owners <= s'.owners && s.live <= s'.live
    requires s.initialized ==> s'.initialized
    requires s'.size == s.size || forall u <- s.pcs :: u != t ==> !s.pcs[u].Publish?
    ensures PcsOk(s')
  {
    forall u <- s'.pcs
      ensures PcOk(s', u, s'.pcs[u])
    {
      if u != t {
        assert PcOk(s, u, s.pcs[u]);
      }
    }
  }

  lemma SlotsKept(s: State, s': State)
    requires TablesOk(s) && s'.tables == s.tables && s.owners <= s'.owners && s.live <= s'.live && s'.offsets == s.offsets
    requires s.pcs.Keys <= s'.pcs.Keys
    ensures TablesOk(s')
  {
    forall t <- s'.tables, k | 0 <= k < |s'.tables[t].data|
      ensures SlotOk(s', t, k, s'.tables[t].data[k])
    {
      assert SlotOk(s, t, k, s.tables[t].data[k]);
    }
  }

  lemma BlocksKept(s: State, s': State)
    requires BlocksOk(s) && s'.owners == s.owners && s'.live == s.live && s'.tables == s.tables && s'.offsets == s.offsets
    requires forall t :: At(s, t) != At(s', t) ==> !At(s, t).Fill? && !At(s, t).Exited?
    ensures BlocksOk(s')
  {
    forall b | 0 <= b < |s'.owners|
      ensures BlockOk(s', b, s'.owners[b])
    {
      assert BlockOk(s, b, s.owners[b]);
    }
  }

  lemma EventsKept(s: State, s': State)
    requires TraceOk(s) && s'.trace == s.trace && s.owners <= s'.owners
    ensures TraceOk(s')
  {
    forall e <- s'.trace
      ensures EventOk(s', e)
    {
      assert EventOk(s, e);
    }
  }

  lemma LockControl(s: State, t: nat, o: nat)
    requires ControlOk(s) && At(s, t) == Lock(o) && s.mutex.None?
    ensures ControlOk(StartStep(s, t))
  {
  }

  lemma StartKeeps(s: State, t: nat)
    requires Inv(s) && (At(s, t).Load? || At(s, t).Once? || At(s, t).Lock?)
    ensures Inv(StartStep(s, t))
  {
    hide ControlOk, PcsOk, TablesOk, BlocksOk, TraceOk;
    var pc := At(s, t);
    var s' := StartStep(s, t);
    assert t in s.pcs;
    OwnPc(s, t);
    match pc
    case Load(o) =>
      LoadedOk(s, t, o);
      MoveKeeps(s, t, if Offset(s, o) == 0 then Once(o) else Prepare(o, Offset(s, o)));
    case Once(o) =>
      ControlKept(s, s', t);
      KeptElsewhere(s, s', t);
    case Lock(o) =>
      if s.mutex.None? {
        LockControl(s, t, o);
        KeptElsewhere(s, s', t);
      }
  }

  lemma LoadedOk(s: State, t: nat, o: nat)
    requires ControlOk(s)
    ensures Offset(s, o) == 0 <==> o !in s.offsets
  {
  }

  lemma LockedKeeps(s: State, t: nat)
    requires Inv(s) && Holds(At(s, t))
    ensures Inv(LockedStep(s, t))
  {
    var pc := At(s, t);
    assert t in s.pcs && PcOk(s, t, pc);
    hide PcsOk, TablesOk, BlocksOk, TraceOk;
    match pc
    case Recheck(o) =>
      LoadedOk(s, t, o);
      hide ControlOk;
      MoveKeeps(s, t, if Offset(s, o) == 0 then Bump(o) else Unlock(o, Offset(s, o)));
    case Bump(o) =>
      BumpKeeps(s, t, o);
    case Publish(o, offset) =>
      PublishKeeps(s, t, o, offset);
    case Unlock(o, offset) =>
      UnlockKeeps(s, t, o, offset);
  }

  lemma BumpControl(s: State, t: nat, o: nat)
    requires ControlOk(s) && At(s, t) == Bump(o)
    ensures ControlOk(LockedStep(s, t))
    ensures forall p <- s.offsets :: s.offsets[p] < s.size + 1
  {
  }

  lemma BumpKeeps(s: State, t: nat, o: nat)
    requires Inv(s) && At(s, t) == Bump(o)
    ensures Inv(LockedStep(s, t))
  {
    hide ControlOk, PcsOk, TablesOk, BlocksOk, TraceOk;
    HolderIn(s, t);
    OwnPc(s, t);
    BumpControl(s, t, o);
    OthersNotPublishing(s, t);
    KeptElsewhere(s, LockedStep(s, t), t);
  }

  lemma UnlockControl(s: State, t: nat, o: nat, offset: nat)
    requires ControlOk(s) && At(s, t) == Unlock(o, offset)
    ensures ControlOk(LockedStep(s, t)) && s.mutex == Some(t)
  {
  }

  lemma UnlockKeeps(s: State, t: nat, o: nat, offset: nat)
    requires Inv(s) && At(s, t) == Unlock(o, offset)
    ensures Inv(LockedStep(s, t))
  {
    hide ControlOk, PcsOk, TablesOk, BlocksOk, TraceOk;
    HolderIn(s, t);
    OwnPc(s, t);
    UnlockControl(s, t, o, offset);
    KeptElsewhere(s, LockedStep(s, t), t);
  }

  lemma OthersNotPublishing(s: State, t: nat)
    requires ControlOk(s) && Holds(At(s, t))
    ensures forall u <- s.pcs :: u != t ==> !s.pcs[u].Publish?
  {
  }

  lemma HolderIn(s: State, t: nat)
    requires Holds(At(s, t))
    ensures t in s.pcs && At(s, t) == s.pcs[t]
  {
  }

  lemma PublishControl(s: State, t: nat, o: nat, offset: nat)
    requires ControlOk(s) && At(s, t) == Publish(o, offset) && PcOk(s, t, Publish(o, offset))
    ensures ControlOk(LockedStep(s, t))
  {
  }

  /** The object that gets its offset had none, so no thread, slot or block refers to it by an offset. */
  lemma PublishKeeps(s: State, t: nat, o: nat, offset: nat)
    requires Inv(s) && At(s, t) == Publish(o, offset)
    ensures Inv(LockedStep(s, t))
  {
    hide ControlOk, PcsOk, TablesOk, BlocksOk, TraceOk;
    var s' := LockedStep(s, t);
    HolderIn(s, t);
    OwnPc(s, t);
    PublishPcs(s, s', t, o, offset);
    PublishSlots(s, s', t, o, offset);
    PublishBlocks(s, s', t, o, offset);
    EventsKept(s, s');
    PublishControl(s, t, o, offset);
  }

  lemma PublishPcs(s: State, s': State, t: nat, o: nat, offset: nat)
    requires PcsOk(s) && ControlOk(s) && At(s, t) == Publish(o, offset)
    requires s' == Go(s.(offsets := s.offsets[o := offset]), t, Unlock(o, offset))
    ensures PcsOk(s')
  {
    assert t in s.pcs && PcOk(s, t, s.pcs[t]);
    forall u <- s'.pcs
      ensures PcOk(s', u, s'.pcs[u])
    {
      if u != t {
        assert PcOk(s, u, s.pcs[u]) && !Holds(s.pcs[u]);
      }
    }
  }

  lemma PublishSlots(s: State, s': State, t: nat, o: nat, offset: nat)
    requires TablesOk(s) && o !in s.offsets
    requires s' == Go(s.(offsets := s.offsets[o := offset]), t, Unlock(o, offset))
    ensures TablesOk(s')
  {
    forall u <- s'.tables, k | 0 <= k < |s'.tables[u].data|
      ensures SlotOk(s', u, k, s'.tables[u].data[k])
    {
      assert SlotOk(s, u, k, s.tables[u].data[k]);
    }
  }

  lemma PublishBlocks(s: State, s': State, t: nat, o: nat, offset: nat)
    requires BlocksOk(s) && o !in s.offsets && At(s, t) == Publish(o, offset)
    requires s' == Go(s.(offsets := s.offsets[o := offset]), t, Unlock(o, offset))
    ensures BlocksOk(s')
  {
    forall b | 0 <= b < |s'.owners|
      ensures BlockOk(s', b, s'.owners[b])
    {
      assert BlockOk(s, b, s.owners[b]);
    }
  }

  /** The table's entries are kept, and whatever it has beyond them is empty. */
  ghost predicate Extends(before: Option<Table>, table: Table) {
    && table.size == |table.data|
    && (before.Some? ==> before.value.data <= table.data)
    && forall k | (if before.Some? then |before.value.data| else 0) <= k < |table.data| :: table.data[k] == Null
  }

  function TableOf(s: State, t: nat): Option<Table> {
    if t in s.tables then Some(s.tables[t]) else None
  }

  /** A thread's own table replaced by one that extends it. */
  lemma PrepareKeeps(s: State, t: nat, o: nat, offset: nat, junk: Ptr)
    requires Inv(s) && At(s, t) == Prepare(o, offset)
    ensures Inv(PrepareStep(s, t, o, offset, junk))
  {
    assert t in s.pcs && PcOk(s, t, s.pcs[t]);
    assert t in s.tables ==> s.tables[t].size == |s.tables[t].data|;
    RoomMade(TableOf(s, t), offset, junk);
    var table := MakeRoom(TableOf(s, t), offset, junk).value;
    var s' := Go(s.(tables := s.tables[t := table]), t, Look(o, offset));
    assert s' == PrepareStep(s, t, o, offset, junk);
    hide MakeRoom, PrepareStep;
    hide ControlOk, PcsOk, TablesOk, BlocksOk, TraceOk;
    ControlKept(s, s', t);
    ExtendPcs(s, s', t, table);
    ExtendSlots(s, s', t, table);
    ExtendBlocks(s, s', t, table);
    EventsKept(s, s');
  }

  lemma ExtendPcs(s: State, s': State, t: nat, table: Table)
    requires PcsOk(s) && s' == Go(s.(tables := s.tables[t := table]), t, At(s', t)) && PcOk(s', t, At(s', t))
    ensures PcsOk(s')
  {
    forall u <- s'.pcs
      ensures PcOk(s', u, s'.pcs[u])
    {
      if u != t {
        assert PcOk(s, u, s.pcs[u]);
      }
    }
  }

  lemma ExtendSlots(s: State, s': State, t: nat, table: Table)
    requires TablesOk(s) && s' == Go(s.(tables := s.tables[t := table]), t, At(s', t))
    requires Extends(TableOf(s, t), table)
    ensures TablesOk(s')
  {
    forall u <- s'.tables, k | 0 <= k < |s'.tables[u].data|
      ensures SlotOk(s', u, k, s'.tables[u].data[k])
    {
      if u in s.tables && k < |s.tables[u].data| {
        assert SlotOk(s, u, k, s.tables[u].data[k]);
        assert s'.tables[u].data[k] == s.tables[u].data[k];
      }
    }
  }

  lemma ExtendBlocks(s: State, s': State, t: nat, table: Table)
    requires BlocksOk(s) && s' == Go(s.(tables := s.tables[t := table]), t, At(s', t))
    requires Extends(TableOf(s, t), table) && At(s, t).Prepare?
    ensures BlocksOk(s')
  {
    forall b | 0 <= b < |s'.owners|
      ensures BlockOk(s', b, s'.owners[b])
    {
      assert BlockOk(s, b, s.owners[b]);
    }
  }

  lemma LookKeeps(s: State, t: nat, o: nat, offset: nat)
    requires Inv(s) && At(s, t) == Look(o, offset)
    ensures Inv(LookStep(s, t, o, offset))
  {
    assert t in s.pcs && PcOk(s, t, s.pcs[t]);
    var ret := s.tables[t].data[offset - 1];
    if ret.Null? {
      AllocateKeeps(s, t, o, offset);
    } else {
      MoveKeeps(s, t, Finish(o, ret));
    }
  }

  /** The new block is the thread's only one for the object: another would be in the empty slot. */
  lemma AllocateKeeps(s: State, t: nat, o: nat, offset: nat)
    requires Inv(s) && At(s, t) == Look(o, offset) && InTable(s, t, offset) && s.tables[t].data[offset - 1].Null?
    ensures Inv(LookStep(s, t, o, offset))
  {
    assert t in s.pcs && PcOk(s, t, s.pcs[t]);
    var b := |s.owners|;
    var s' := Go(s.(owners := s.owners + [Owner(t, o)], live := s.live + {b}), t, Fill(o, offset, Block(b)));
    assert s' == LookStep(s, t, o, offset);
    hide ControlOk, PcsOk, TablesOk, BlocksOk, TraceOk;
    ControlKept(s, s', t);
    PcsKept(s, s', t);
    SlotsKept(s, s');
    EventsKept(s, s');
    AllocateBlocks(s, s', t, o, offset);
  }

  lemma AllocateBlocks(s: State, s': State, t: nat, o: nat, offset: nat)
    requires BlocksOk(s) && At(s, t) == Look(o, offset) && o in s.offsets && s.offsets[o] == offset
    requires InTable(s, t, offset) && s.tables[t].data[offset - 1].Null?
    requires var b := |s.owners|;
      s' == Go(s.(owners := s.owners + [Owner(t, o)], live := s.live + {b}), t, Fill(o, offset, Block(b)))
    ensures BlocksOk(s')
  {
    var b := |s.owners|;
    forall c | 0 <= c < |s'.owners|
      ensures BlockOk(s', c, s'.owners[c])
    {
      if c < b {
        assert BlockOk(s, c, s.owners[c]);
      }
    }
    forall c | 0 <= c < b
      ensures s'.owners[c] != s'.owners[b]
    {
      assert BlockOk(s, c, s.owners[c]);
    }
  }

  lemma FillKeeps(s: State, t: nat, o: nat, offset: nat, ptr: Ptr)
    requires Inv(s) && At(s, t) == Fill(o, offset, ptr)
    ensures Inv(FillStep(s, t, o, offset, ptr))
  {
    assert t in s.pcs && PcOk(s, t, s.pcs[t]);
    var table := s.tables[t].(data := s.tables[t].data[offset - 1 := ptr]);
    var s' := Go(s.(tables := s.tables[t := table]), t, Finish(o, ptr));
    assert s' == FillStep(s, t, o, offset, ptr);
    hide ControlOk, PcsOk, TablesOk, BlocksOk, TraceOk;
    ControlKept(s, s', t);
    ExtendPcs(s, s', t, table);
    FillSlots(s, s', t, offset, ptr);
    FillBlocks(s, s', t, o, offset, ptr);
    EventsKept(s, s');
  }

  lemma FillSlots(s: State, s': State, t: nat, offset: nat, ptr: Ptr)
    requires TablesOk(s) && InTable(s, t, offset) && SlotOk(s, t, offset - 1, ptr)
    requires s' == Go(s.(tables := s.tables[t := s.tables[t].(data := s.tables[t].data[offset - 1 := ptr])]), t, At(s', t))
    ensures TablesOk(s')
  {
    forall u <- s'.tables, k | 0 <= k < |s'.tables[u].data|
      ensures SlotOk(s', u, k, s'.tables[u].data[k])
    {
      assert SlotOk(s, u, k, s.tables[u].data[k]);
    }
  }

  lemma FillBlocks(s: State, s': State, t: nat, o: nat, offset: nat, ptr: Ptr)
    requires BlocksOk(s) && InTable(s, t, offset) && At(s, t) == Fill(o, offset, ptr)
    requires s.tables[t].data[offset - 1] == Null
    requires s' == Go(s.(tables := s.tables[t := s.tables[t].(data := s.tables[t].data[offset - 1 := ptr])]), t, Finish(o, ptr))
    ensures BlocksOk(s')
  {
    forall b | 0 <= b < |s'.owners|
      ensures BlockOk(s', b, s'.owners[b])
    {
      assert BlockOk(s, b, s.owners[b]);
    }
  }

  lemma OwnSlot(s: State, t: nat, k: nat)
    requires TablesOk(s) && t in s.tables && k < |s.tables[t].data|
    ensures SlotOk(s, t, k, s.tables[t].data[k])
  {
  }

  lemma OffsetOwner(s: State, o: nat, p: nat)
    requires ControlOk(s)
    ensures o in s.offsets && Offset(s, p) == s.offsets[o] ==> p == o
  {
  }

  lemma OneMoreEvent(s: State, e: Event)
    requires TraceOk(s)
    ensures EventOk(s, e) ==> TraceOk(s.(trace := s.trace + [e]))
  {
    var s0 := s.(trace := s.trace + [e]);
    forall f <- s0.trace
      ensures EventOk(s, e) ==> EventOk(s0, f)
    {
      if f in s.trace {
        assert EventOk(s, f);
      }
    }
  }

  lemma FinishKeeps(s: State, t: nat, o: nat, ptr: Ptr)
    requires Inv(s) && At(s, t) == Finish(o, ptr)
    ensures Inv(Go(s.(trace := s.trace + [Returned(t, o, ptr)]), t, Idle))
  {
    hide ControlOk, PcsOk, TablesOk, BlocksOk, TraceOk;
    assert t in s.pcs;
    OwnPc(s, t);
    var k := s.offsets[o] - 1;
    OwnSlot(s, t, k);
    var s0 := s.(trace := s.trace + [Returned(t, o, ptr)]);
    OneMoreEvent(s, Returned(t, o, ptr));
    OffsetOwner(s, o, s.owners[ptr.id].obj);
    PcsKept(s, s0, t);
    ControlKept(s, s0, t);
    SlotsKept(s, s0);
    BlocksKept(s, s0);
    MoveKeeps(s0, t, Idle);
  }

  /** What a thread's exit frees: its own blocks, all of them. */
  lemma ExitFrees(s: State, t: nat)
    requires TablesOk(s) && BlocksOk(s) && At(s, t).Idle?
    ensures var s' := ExitStep(s, t);
      && s' == Go(s.(live := s'.live, tables := s.tables - {t}), t, Exited)
      && s'.live <= s.live
      && forall b <- s.live :: b in s'.live <==> s.owners[b].thread != t
  {
    if t in s.tables {
      OwnSlots(s, t);
      var data := s.tables[t].data;
      Destroyed(s.live, data, |data|);
      assert data[..|data|] == data;
    } else {
      assert s.tables - {t} == s.tables;
    }
    forall b <- s.live
      ensures s.owners[b].thread == t ==> t in s.tables && Block(b) in s.tables[t].data
    {
      assert BlockOk(s, b, s.owners[b]);
    }
  }

  /** A table's slots hold live blocks of its thread, each once. */
  lemma OwnSlots(s: State, t: nat)
    requires TablesOk(s) && t in s.tables
    ensures var data := s.tables[t].data;
      && (forall k | 0 <= k < |data| :: data[k].Block? ==>
             data[k].id in s.live && data[k].id < |s.owners| && s.owners[data[k].id].thread == t)
      && (forall j, k | 0 <= j < k < |data| :: data[j].Block? ==> data[j] != data[k])
      && s.tables[t].size == |data|
  {
    var data := s.tables[t].data;
    forall k | 0 <= k < |data|
      ensures data[k].Block? ==>
        data[k].id in s.live && data[k].id < |s.owners| && s.owners[data[k].id].thread == t
    {
      assert SlotOk(s, t, k, data[k]);
    }
    forall j, k | 0 <= j < k < |data| && data[j].Block?
      ensures data[j] != data[k]
    {
      assert SlotOk(s, t, j, data[j]) && SlotOk(s, t, k, data[k]);
    }
  }

  lemma ExitKeeps(s: State, t: nat)
    requires Inv(s) && At(s, t).Idle?
    ensures Inv(ExitStep(s, t))
  {
    ExitFrees(s, t);
    var s' := ExitStep(s, t);
    hide ExitStep;
    hide ControlOk, PcsOk, TablesOk, BlocksOk, TraceOk;
    ControlKept(s, s', t);
    ExitPcs(s, s', t);
    ExitSlots(s, s', t);
    ExitBlocks(s, s', t);
    EventsKept(s, s');
  }

  lemma ExitPcs(s: State, s': State, t: nat)
    requires PcsOk(s) && BlocksOk(s) && s' == Go(s.(live := s'.live, tables := s.tables - {t}), t, Exited)
    requires forall b <- s.live :: b in s'.live <==> s.owners[b].thread != t
    ensures PcsOk(s')
  {
    forall u <- s'.pcs
      ensures PcOk(s', u, s'.pcs[u])
    {
      if u != t {
        assert PcOk(s, u, s.pcs[u]);
      }
    }
  }

  lemma ExitSlots(s: State, s': State, t: nat)
    requires TablesOk(s) && s' == Go(s.(live := s'.live, tables := s.tables - {t}), t, Exited)
    requires forall b <- s.live :: 0 <= b < |s.owners| ==> (b in s'.live <==> s.owners[b].thread != t)
    ensures TablesOk(s')
  {
    forall u <- s'.tables, k | 0 <= k < |s'.tables[u].data|
      ensures SlotOk(s', u, k, s'.tables[u].data[k])
    {
      assert SlotOk(s, u, k, s.tables[u].data[k]);
    }
  }

  lemma ExitBlocks(s: State, s': State, t: nat)
    requires BlocksOk(s) && s' == Go(s.(live := s'.live, tables := s.tables - {t}), t, Exited) && At(s, t).Idle?
    requires s'.live <= s.live && forall b <- s.live :: b in s'.live <==> s.owners[b].thread != t
    ensures BlocksOk(s')
  {
    forall b | 0 <= b < |s.owners|
      ensures BlockOk(s', b, s'.owners[b])
    {
      assert BlockOk(s, b, s.owners[b]);
    }
  }

  /** Every step of every thread keeps the invariant. */
  lemma NextKeeps(s: State, t: nat, a: Action)
    requires Inv(s)
    ensures Inv(Next(s, t, a))
  {
    hide ControlOk, PcsOk, TablesOk, BlocksOk, TraceOk;
    var pc := At(s, t);
    if !s.aborted {
      match a
      case Call(obj) =>
        if pc.Idle? {
          MoveKeeps(s, t, Load(obj));
        }
      case Exit =>
        if pc.Idle? {
          ExitKeeps(s, t);
        }
      case OutOfMemory =>
        AbortKeeps(s);
      case Step(junk) =>
        match pc
        case Prepare(o, offset) => PrepareKeeps(s, t, o, offset, junk);
        case Look(o, offset) => LookKeeps(s, t, o, offset);
        case Fill(o, offset, ptr) => FillKeeps(s, t, o, offset, ptr);
        case Finish(o, ptr) => FinishKeeps(s, t, o, ptr);
        case Load(_) => StartKeeps(s, t);
        case Once(_) => StartKeeps(s, t);
        case Lock(_) => StartKeeps(s, t);
        case Idle =>
        case Exited =>
        case _ => LockedKeeps(s, t);
    }
  }

  lemma AbortedPcs(s: State)
    requires PcsOk(s)
    ensures PcsOk(s.(aborted := true))
  {
    forall t <- s.pcs
      ensures PcOk(s.(aborted := true), t, s.pcs[t])
    {
      assert PcOk(s, t, s.pcs[t]);
    }
  }

  lemma AbortedControl(s: State)
    requires ControlOk(s)
    ensures ControlOk(s.(aborted := true))
  {
  }

  lemma AbortKeeps(s: State)
    requires Inv(s)
    ensures Inv(s.(aborted := true))
  {
    hide ControlOk, PcsOk, TablesOk, BlocksOk, TraceOk, PcOk;
    var s' := s.(aborted := true);
    AbortedPcs(s);
    AbortedControl(s);
    SlotsKept(s, s');
    BlocksKept(s, s');
    EventsKept(s, s');
  }

  // Runs.

  lemma {:induction false} RunKeeps(s: State, schedule: seq<(nat, Action)>)
    requires Inv(s)
    ensures Inv(Run(s, schedule))
  {
    if schedule != [] {
      RunKeeps(s, schedule[..|schedule| - 1]);
      var last := schedule[|schedule| - 1];
      NextKeeps(Run(s, schedule[..|schedule| - 1]), last.0, last.1);
    }
  }

  ghost predicate Distinct(m: map<nat, nat>, n: nat) {
    && (forall o <- m :: 1 <= m[o] <= n)
    && (forall o <- m, p <- m :: m[o] == m[p] ==> o == p)
  }

  /** Distinct numbers up to `n` are at most `n`. */
  lemma {:induction false} AtMost(m: map<nat, nat>, n: nat)
    requires Distinct(m, n)
    ensures |m| <= n
  {
    if m != map[] {
      assert n > 0 by {
        var o :| o in m;
      }
      if exists o <- m :: m[o] == n {
        var o :| o in m && m[o] == n;
        Without(m, o);
        AtMost(m - {o}, n - 1);
      } else {
        AtMost(m, n - 1);
      }
    }
  }

  lemma Without(m: map<nat, nat>, o: nat)
    requires o in m
    ensures |m - {o}| == |m| - 1
  {
    assert m == (m - {o})[o := m[o]];
  }

  /** And when they are `n`, none is left out. */
  lemma {:induction false} NoneLeftOut(m: map<nat, nat>, n: nat, k: nat) returns (o: nat)
    requires Distinct(m, n) && |m| == n && 1 <= k <= n
    ensures o in m && m[o] == k
    decreases n
  {
    if p :| p in m && m[p] == n {
      if k == n {
        return p;
      }
      Without(m, p);
      o := NoneLeftOut(m - {p}, n - 1, k);
    } else {
      AtMost(m, n - 1);
      assert false;
    }
  }

  /** The number `k` is some object's offset. */
  ghost predicate IsUsed(s: State, k: nat) {
    exists o :: o in s.offsets && s.offsets[o] == k
  }

  /** Every number but perhaps the newest is in use. */
  lemma UsedOffset(s: State, k: nat)
    requires ControlOk(s) && PcsOk(s) && 1 <= k < s.size
    ensures IsUsed(s, k)
  {
    if Publishing(s) {
      var t := s.mutex.value;
      assert PcOk(s, t, s.pcs[t]);
      var o := NoneLeftOut(s.offsets, s.size - 1, k);
    } else {
      var o := NoneLeftOut(s.offsets, s.size, k);
    }
  }

  /** Under every schedule: no access is out of bounds and no block is freed twice; an object's offset is at most
      `emutls_size`, different objects have different ones, and every number up to `emutls_size`, but perhaps the
      newest, is some object's offset. */
  lemma NoRunFaults(schedule: seq<(nat, Action)>)
    ensures var s := Run(INITIAL, schedule);
      && !s.fault
      && (forall o <- s.offsets :: 1 <= s.offsets[o] <= s.size)
      && (forall o <- s.offsets, p <- s.offsets :: s.offsets[o] == s.offsets[p] ==> o == p)
      && |s.offsets| <= s.size <= |s.offsets| + 1
      && (forall k | 1 <= k < s.size :: IsUsed(s, k))
  {
    RunKeeps(INITIAL, schedule);
    var s := Run(INITIAL, schedule);
    hide Run, PcsOk, TablesOk, BlocksOk, TraceOk, IsUsed;
    forall k: nat | 1 <= k < s.size
      ensures IsUsed(s, k)
    {
      UsedOffset(s, k);
    }
  }

  /** Two records of calls that came back have the same block exactly when they have the same object and thread,
      whatever happened between them. */
  lemma SameOwner(schedule: seq<(nat, Action)>, e: Event, f: Event)
    requires e in Run(INITIAL, schedule).trace && f in Run(INITIAL, schedule).trace
    ensures e.ptr.Block? && (e.ptr == f.ptr <==> e.thread == f.thread && e.obj == f.obj)
  {
    RunKeeps(INITIAL, schedule);
    var s := Run(INITIAL, schedule);
    assert EventOk(s, e) && EventOk(s, f);
  }

  lemma KnownEvent(s: State, e: Event)
    requires TraceOk(s) && e in s.trace
    ensures EventOk(s, e)
  {
  }

  lemma KnownBlock(s: State, b: nat)
    requires BlocksOk(s) && b < |s.owners|
    ensures BlockOk(s, b, s.owners[b])
  {
  }

  /** A block handed out stays live until its thread exits, and none is left then. */
  lemma LiveUntilExit(schedule: seq<(nat, Action)>, e: Event)
    requires e in Run(INITIAL, schedule).trace
    ensures var s := Run(INITIAL, schedule);
      e.ptr.Block? && (e.ptr.id in s.live <==> !At(s, e.thread).Exited?)
  {
    hide Run, ControlOk, PcsOk, TablesOk, BlocksOk, TraceOk;
    RunKeeps(INITIAL, schedule);
    var s := Run(INITIAL, schedule);
    KnownEvent(s, e);
    KnownBlock(s, e.ptr.id);
    if e.ptr.id in s.live {
      OwnTable(s, e.thread);
      OwnPc(s, e.thread);
    }
  }

  /** An object's offset, once given, never changes. */
  lemma {:induction false} OffsetNeverChanges(s: State, schedule: seq<(nat, Action)>, o: nat)
    requires Inv(s) && Offset(s, o) != 0
    ensures Offset(Run(s, schedule), o) == Offset(s, o)
  {
    if schedule != [] {
      var front := schedule[..|schedule| - 1];
      OffsetNeverChanges(s, front, o);
      RunKeeps(s, front);
      var last := schedule[|schedule| - 1];
      OffsetKept(Run(s, front), last.0, last.1, o);
    }
  }

  /** Only publishing an offset changes the offsets. */
  lemma OffsetsElsewhere(s: State, t: nat, a: Action)
    ensures Next(s, t, a).offsets == s.offsets || (a.Step? && At(s, t).Publish? && Next(s, t, a) == LockedStep(s, t))
  {
    hide PrepareStep, LookStep, FillStep, ExitStep, StartStep;
  }

  lemma OffsetKept(s: State, t: nat, a: Action, o: nat)
    requires Inv(s) && Offset(s, o) != 0
    ensures Offset(Next(s, t, a), o) == Offset(s, o)
  {
    hide ControlOk, PcsOk, TablesOk, BlocksOk, TraceOk, PrepareStep, LookStep, FillStep, ExitStep, StartStep;
    if t in s.pcs {
      OwnPc(s, t);
    }
    OffsetsElsewhere(s, t, a);
  }

  /** How many of its own steps a thread is from the end of its call. */
  function Rank(pc: Pc): nat {
    match pc
    case Load(_) => 12
    case Once(_) => 11
    case Lock(_) => 10
    case Recheck(_) => 9
    case Bump(_) => 8
    case Publish(_, _) => 7
    case Unlock(_, _) => 6
    case Prepare(_, _) => 5
    case Look(_, _) => 4
    case Fill(_, _, _) => 3
    case Finish(_, _) => 2
    case Idle => 0
    case Exited => 0
  }

  /** Whenever a thread is inside a call it can come closer to its end, unless it waits for the mutex; and
      then the thread that holds the mutex can. */
  lemma Progress(s: State, t: nat, junk: Ptr)
    requires Inv(s) && !s.aborted && Rank(At(s, t)) > 0
    ensures Rank(At(Next(s, t, Step(junk)), t)) < Rank(At(s, t))
      || (s.mutex.Some? && Rank(At(Next(s, s.mutex.value, Step(junk)), s.mutex.value)) < Rank(At(s, s.mutex.value)))
  {
    assert t in s.pcs && PcOk(s, t, s.pcs[t]);
    if At(s, t).Lock? && s.mutex.Some? {
      var u := s.mutex.value;
      assert PcOk(s, u, s.pcs[u]);
      StepProgress(s, u, junk);
    } else {
      StepProgress(s, t, junk);
    }
  }

  lemma GivenOffset(s: State, o: nat)
    requires ControlOk(s) && o in s.offsets
    ensures s.initialized
  {
  }

  lemma MemoryProgress(s: State, t: nat, junk: Ptr)
    requires !s.aborted && !s.fault && t in s.pcs && PcOk(s, t, s.pcs[t]) && (s.pcs[t].Prepare? ==> s.initialized)
    requires s.pcs[t].Prepare? || s.pcs[t].Look? || s.pcs[t].Fill?
    requires t in s.tables ==> s.tables[t].size == |s.tables[t].data|
    ensures Rank(At(Next(s, t, Step(junk)), t)) < Rank(At(s, t))
  {
    hide MakeRoom;
    var pc := s.pcs[t];
    if pc.Prepare? {
      RoomMade(if t in s.tables then Some(s.tables[t]) else None, pc.offset, junk);
    }
  }

  lemma SharedProgress(s: State, t: nat, junk: Ptr)
    requires !s.aborted && !s.fault && t in s.pcs && ControlOk(s) && Rank(s.pcs[t]) > 0 && (s.pcs[t].Lock? ==> s.mutex.None?)
    requires !s.pcs[t].Prepare? && !s.pcs[t].Look? && !s.pcs[t].Fill?
    ensures Rank(At(Next(s, t, Step(junk)), t)) < Rank(At(s, t))
  {
    hide OffsetsOk, CountOk, PrepareStep, LookStep, FillStep;
  }

  lemma StepProgress(s: State, t: nat, junk: Ptr)
    requires Inv(s) && !s.aborted && t in s.pcs && Rank(s.pcs[t]) > 0 && (s.pcs[t].Lock? ==> s.mutex.None?)
    ensures Rank(At(Next(s, t, Step(junk)), t)) < Rank(At(s, t))
  {
    hide PcsOk, TablesOk, BlocksOk, TraceOk, ControlOk;
    OwnPc(s, t);
    var pc := s.pcs[t];
    if pc.Prepare? || pc.Look? || pc.Fill? {
      if t in s.tables {
        OwnTable(s, t);
      }
      GivenOffset(s, pc.obj);
      MemoryProgress(s, t, junk);
    } else {
      SharedProgress(s, t, junk);
    }
  }

  // Where `emutls_alloc` puts a block in the memory it gets.

  /** The bytes asked of `malloc`; `word` is the size of a pointer. */
  function Requested(word: nat, size: nat, align: nat): nat
    requires align >= 1
  {
    if align <= word then size + word else size + word + align - 1
  }

  /** The block's address in the memory at `p`; clearing the low bits rounds down to a multiple of the
      alignment, a power of two. */
  function Placed(word: nat, p: nat, align: nat): nat
    requires align >= 1
  {
    if align <= word then p + word
    else
      var x := p + word + align - 1;
      x - x % align
  }

  /** The block is aligned and inside the memory, with room before it for the pointer `emutls_destroy`
      frees. */
  lemma PlacedInside(word: nat, p: nat, size: nat, align: nat)
    requires word >= 1 && align >= 1 && p % word == 0
    requires align <= word ==> word % align == 0
    ensures var ret := Placed(word, p, align);
      ret % align == 0 && p + word <= ret && ret + size <= p + Requested(word, size, align)
  {
    if align <= word {
      MultipleOfMultiple(p, word, align);
    } else {
      RoundedDown(p + word + align - 1, align);
    }
  }

  lemma MultipleOfMultiple(p: nat, word: nat, align: nat)
    requires word >= 1 && align >= 1 && p % word == 0 && word % align == 0
    ensures (p + word) % align == 0
  {
    Powers.DivModFacts(p, word);
    Powers.DivModFacts(word, align);
    var a, b := p / word + 1, word / align;
    assert p + word == a * word;
    assert a * (b * align) == a * b * align;
    Powers.DivModUnique(p + word, align, a * b, 0);
  }

  lemma RoundedDown(x: nat, align: nat)
    requires align >= 1
    ensures x - align < x - x % align <= x && (x - x % align) % align == 0
  {
    Powers.DivModFacts(x, align);
    Powers.DivModUnique(x - x % align, align, x / align, 0);
  }
}
