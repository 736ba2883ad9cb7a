/**
 * Properties of the client-slot table that relate several operations:
 * the counter invariant, reuse of the lowest freed handle, the absence of
 * address de-duplication and the lookup quirks of server/serversocket.cpp.
 */
module ServerSocketProps {
  import opened Types
  import opened ServerSocket

  /** `allocClient` keeps the counter equal to the number of used slots. */
  lemma AllocPreservesValid(t: ClientTable, address: Option<IPaddress>)
    requires Valid(t)
    ensures Valid(AllocClient(t, address).table)
    ensures AllocClient(t, address).handle != -1 ==>
              AllocClient(t, address).table.clientCount == t.clientCount + 1
  {
    var r := AllocClient(t, address);
    if r.handle != -1 {
      var h := r.handle;
      assert r.table.clients == t.clients[h := r.table.clients[h]];
      UsedCountUpdate(t.clients, h, r.table.clients[h]);
    }
  }

  /** `freeClient` keeps the counter equal to the number of used slots. */
  lemma FreePreservesValid(t: ClientTable, handle: U32)
    requires Valid(t)
    ensures Valid(FreeClient(t, handle))
    ensures handle < |t.clients| && t.clients[handle].used ==>
              FreeClient(t, handle).clientCount == t.clientCount - 1
  {
    if handle < |t.clients| && t.clients[handle].used {
      var t' := FreeClient(t, handle);
      assert t'.clients == t.clients[handle := t'.clients[handle]];
      UsedCountUpdate(t.clients, handle, t'.clients[handle]);
    }
  }

  /** `setPrivateData` never changes which slots are used. */
  lemma SetPrivateDataPreservesValid(t: ClientTable, handle: U32, ptr: Ptr)
    requires Valid(t)
    ensures Valid(SetPrivateData(t, handle, ptr))
  {
    if handle < |t.clients| && t.clients[handle].used {
      var t' := SetPrivateData(t, handle, ptr);
      assert t'.clients == t.clients[handle := t'.clients[handle]];
      UsedCountUpdate(t.clients, handle, t'.clients[handle]);
    }
  }

  /** Once the counter reaches the capacity, allocation fails and changes nothing. */
  lemma AllocFailsWhenFull(t: ClientTable, address: Option<IPaddress>)
    requires Valid(t)
    requires t.clientCount == |t.clients|
    ensures AllocClient(t, address) == AllocResult(t, -1)
  {
    UsedCountFull(t.clients);
  }

  /** The mutating operations of the table, as a caller may issue them. */
  datatype Op = Alloc(address: Option<IPaddress>) | Free(handle: U32) | SetData(handle: U32, ptr: Ptr)

  function Apply(t: ClientTable, op: Op): ClientTable {
    match op
    case Alloc(a) => AllocClient(t, a).table
    case Free(h) => FreeClient(t, h)
    case SetData(h, p) => SetPrivateData(t, h, p)
  }

  function Run(t: ClientTable, ops: seq<Op>): ClientTable
    decreases |ops|
  {
    if |ops| == 0 then t else Run(Apply(t, ops[0]), ops[1..])
  }

  /**
   * For every sequence of operations on any valid table, the counter
   * equals the number of used slots, never exceeds the capacity, and the
   * capacity never changes.
   */
  lemma {:induction false} RunPreservesValid(t: ClientTable, ops: seq<Op>)
    requires Valid(t)
    ensures Valid(Run(t, ops))
    ensures |Run(t, ops).clients| == |t.clients|
    ensures Run(t, ops).clientCount <= |t.clients|
    decreases |ops|
  {
    if |ops| > 0 {
      match ops[0] {
        case Alloc(a) => AllocPreservesValid(t, a);
        case Free(h) => FreePreservesValid(t, h);
        case SetData(h, p) => SetPrivateDataPreservesValid(t, h, p);
      }
      RunPreservesValid(Apply(t, ops[0]), ops[1..]);
    }
  }

  /**
   * Lowest-free reuse: when every slot below `h` is in use, freeing `h`
   * makes the next allocation return `h` again.
   */
  lemma FreedLowestSlotIsReused(t: ClientTable, h: U32, address: IPaddress)
    requires h < |t.clients| && t.clients[h].used
    requires forall j :: 0 <= j < h ==> t.clients[j].used
    ensures AllocClient(FreeClient(t, h), Some(address)).handle == h
  {
    var t' := FreeClient(t, h);
    assert !t'.clients[h].used;
    var r := AllocClient(t', Some(address));
    assert forall j :: 0 <= j < h ==> t'.clients[j].used;
  }

  /** A table of two slots freshly cleared by `init`. */
  function EmptyTable2(): (t: ClientTable)
    ensures Valid(t)
  {
    var c := ClientConn(false, NoAddress, Null);
    assert UsedCount([c, c]) == 0 by {
      assert [c, c][1..] == [c];
      assert [c][1..] == [];
    }
    ClientTable([c, c], 0)
  }

  /** Capacity two: alloc A gets 0, alloc B gets 1, free 0, alloc C gets 0 (not 2). */
  lemma HandleReuseWithTwoSlots(a: IPaddress, b: IPaddress, c: IPaddress)
    ensures var r1 := AllocClient(EmptyTable2(), Some(a));
            var r2 := AllocClient(r1.table, Some(b));
            var r3 := AllocClient(FreeClient(r2.table, 0), Some(c));
            && r1.handle == 0 && r2.handle == 1 && r3.handle == 0
            && r3.table.clientCount == 2
            && r3.table.clients[0].address == c && r3.table.clients[1].address == b
  {
    var t0 := EmptyTable2();
    var r1 := AllocClient(t0, Some(a));
    assert r1.handle == 0;
    var r2 := AllocClient(r1.table, Some(b));
    assert r2.handle == 1;
    FreedLowestSlotIsReused(r2.table, 0, c);
  }

  /** The table does not de-duplicate: the same address may own two used slots. */
  lemma DuplicateAddressGetsTwoHandles(t: ClientTable, address: IPaddress)
    requires UsedCount(t.clients) + 2 <= |t.clients|
    ensures var r1 := AllocClient(t, Some(address));
            var r2 := AllocClient(r1.table, Some(address));
            && r1.handle != -1 && r2.handle != -1 && r1.handle != r2.handle
            && r2.table.clients[r1.handle].used && r2.table.clients[r2.handle].used
            && r2.table.clients[r1.handle].address == address
            && r2.table.clients[r2.handle].address == address
  {
    var r1 := AllocClient(t, Some(address));
    HasFreeSlot(t.clients);
    assert r1.handle != -1;
    assert r1.table.clients == t.clients[r1.handle := r1.table.clients[r1.handle]];
    UsedCountUpdate(t.clients, r1.handle, r1.table.clients[r1.handle]);
    HasFreeSlot(r1.table.clients);
  }

  /** A table whose used count is below its capacity has an unused slot. */
  lemma {:induction false} HasFreeSlot(s: seq<ClientConn>)
    requires UsedCount(s) < |s|
    ensures exists j :: 0 <= j < |s| && !s[j].used
  {
    if s[0].used {
      HasFreeSlot(s[1..]);
      var j :| 0 <= j < |s[1..]| && !s[1..][j].used;
      assert !s[j + 1].used;
    }
  }

  /**
   * Lookup ignores `used`: after freeing slot `h`, whose address is zeroed,
   * the query 0:0 finds `h` when no lower slot holds 0:0.
   */
  lemma LookupOfZeroFindsFreedSlot(t: ClientTable, h: U32)
    requires h < |t.clients| && t.clients[h].used
    requires forall j :: 0 <= j < h ==> t.clients[j].address != NoAddress
    ensures PeerIPaddressToHandle(FreeClient(t, h), NoAddress) == h
  {
  }

  /**
   * `appData` is neither cleared by `freeClient` nor set by `allocClient`:
   * a client that takes over a freed slot sees the previous occupant's pointer.
   */
  lemma ReusedSlotKeepsStaleData(t: ClientTable, h: U32, address: IPaddress)
    requires h < |t.clients| && t.clients[h].used
    requires forall j :: 0 <= j < h ==> t.clients[j].used
    ensures var r := AllocClient(FreeClient(t, h), Some(address));
            r.handle == h && GetPrivateData(r.table, h) == t.clients[h].appData
  {
    FreedLowestSlotIsReused(t, h, address);
  }

  /** An address no slot holds yet maps back to the handle it is given, and that handle to it. */
  lemma AllocThenLookup(t: ClientTable, address: IPaddress)
    requires |t.clients| < U32_LIMIT
    requires forall j :: 0 <= j < |t.clients| ==> t.clients[j].address != address
    ensures var r := AllocClient(t, Some(address));
            r.handle != -1 ==>
              && PeerIPaddressToHandle(r.table, address) == r.handle
              && HandleToPeerIPaddress(r.table, r.handle) == Some(address)
  {
  }

  /** `getPrivateData` returns what `setPrivateData` stored in a used slot, and NULL where the store was refused. */
  lemma SetThenGetPrivateData(t: ClientTable, handle: U32, other: U32, ptr: Ptr)
    requires other != handle
    ensures var t' := SetPrivateData(t, handle, ptr);
            && GetPrivateData(t', handle)
               == (if handle < |t.clients| && t.clients[handle].used then ptr else Null)
            && GetPrivateData(t', other) == GetPrivateData(t, other)
  {
  }

  /**
   * Every unused slot holds address 0:0.  `init` establishes this and
   * `freeClient` re-establishes it for the slot it releases.
   */
  predicate FreeSlotsZeroed(t: ClientTable) {
    forall j :: 0 <= j < |t.clients| && !t.clients[j].used ==> t.clients[j].address == NoAddress
  }

  /** Each table operation keeps unused slots at 0:0. */
  lemma ApplyKeepsFreeSlotsZeroed(t: ClientTable, op: Op)
    requires FreeSlotsZeroed(t)
    ensures FreeSlotsZeroed(Apply(t, op))
  {
  }

  /** For every sequence of operations on a table whose unused slots hold 0:0, they keep holding 0:0. */
  lemma {:induction false} RunKeepsFreeSlotsZeroed(t: ClientTable, ops: seq<Op>)
    requires FreeSlotsZeroed(t)
    ensures FreeSlotsZeroed(Run(t, ops))
    decreases |ops|
  {
    if |ops| > 0 {
      ApplyKeepsFreeSlotsZeroed(t, ops[0]);
      RunKeepsFreeSlotsZeroed(Apply(t, ops[0]), ops[1..]);
    }
  }

  /**
   * A table built by `init` and then driven by any sequence of operations
   * keeps its counter equal to its used slots and its unused slots at 0:0.
   */
  lemma {:induction false} InitThenRunIsValid(raw: seq<ClientConn>, ops: seq<Op>)
    requires |raw| < U32_LIMIT
    ensures Valid(Run(InitTable(raw), ops))
    ensures FreeSlotsZeroed(Run(InitTable(raw), ops))
    ensures Run(InitTable(raw), ops).clientCount <= |raw|
  {
    RunPreservesValid(InitTable(raw), ops);
    RunKeepsFreeSlotsZeroed(InitTable(raw), ops);
  }

  /** Releasing the handle just allocated gives back the table as it was. */
  lemma AllocThenFreeRestores(t: ClientTable, address: IPaddress)
    requires Valid(t) && FreeSlotsZeroed(t)
    ensures var r := AllocClient(t, Some(address));
            r.handle != -1 ==> FreeClient(r.table, r.handle) == t
  {
    var r := AllocClient(t, Some(address));
    if r.handle != -1 {
      AllocPreservesValid(t, Some(address));
      var t' := FreeClient(r.table, r.handle);
      assert t'.clients == t.clients;
    }
  }

  /**
   * Because lookup ignores `used`, on a table whose used slots avoid 0:0
   * the query 0:0 returns the first free slot, or -1 when the table is full.
   */
  lemma LookupOfZeroFindsFirstFree(t: ClientTable)
    requires FreeSlotsZeroed(t)
    requires forall j :: 0 <= j < |t.clients| && t.clients[j].used ==> t.clients[j].address != NoAddress
    ensures var i := FirstFree(t.clients);
            PeerIPaddressToHandle(t, NoAddress) == if i == |t.clients| then -1 else i
  {
  }
}
