/**
 * The server's fixed-capacity client-slot table (server/serversocket.cpp,
 * server/serversocket.h).
 *
 * `ServerSocket` owns an array of `mMaxClients` slots and a counter
 * `mClientCount`.  A slot records whether it is in use, the peer's
 * address and an opaque per-client data pointer.  A handle is a slot
 * index.  The table is modelled as an immutable value: every operation
 * returns the new table.  The array length is the capacity.
 */
module ServerSocket {
  import opened Types

  /** SDL_net's IPaddress: a 32-bit host and a 16-bit port. */
  datatype IPaddress = IPaddress(host: U32, port: U16)

  /** The address a cleared slot holds. */
  const NoAddress: IPaddress := IPaddress(0, 0)

  /** The per-client `void *appData`: NULL or some object. */
  datatype Ptr = Null | Obj(id: nat)

  datatype ClientConn = ClientConn(used: bool, address: IPaddress, appData: Ptr)

  /** `mClientList` (its length is `mMaxClients`) and `mClientCount`. */
  datatype ClientTable = ClientTable(clients: seq<ClientConn>, clientCount: U32)

  /** Number of slots whose `used` flag is set. */
  function UsedCount(s: seq<ClientConn>): (n: nat)
    ensures n <= |s|
  {
    if |s| == 0 then 0 else (if s[0].used then 1 else 0) + UsedCount(s[1..])
  }

  /**
   * The table invariant: the capacity fits the `U32 mMaxClients` and the
   * counter equals the number of used slots (so it never exceeds the
   * capacity).
   */
  predicate Valid(t: ClientTable) {
    |t.clients| < U32_LIMIT && t.clientCount == UsedCount(t.clients)
  }

  // ---------------------------------------------------------------------
  // Counting lemmas
  // ---------------------------------------------------------------------

  /** Replacing one slot changes the used count by the change in that slot's flag. */
  lemma {:induction false} UsedCountUpdate(s: seq<ClientConn>, i: nat, c: ClientConn)
    requires i < |s|
    ensures UsedCount(s[i := c]) + (if s[i].used then 1 else 0)
         == UsedCount(s) + (if c.used then 1 else 0)
  {
    if i == 0 {
      assert s[i := c][1..] == s[1..];
    } else {
      assert s[i := c][1..] == s[1..][i - 1 := c];
      UsedCountUpdate(s[1..], i - 1, c);
    }
  }

  /** When every slot is counted as used, every slot is used. */
  lemma {:induction false} UsedCountFull(s: seq<ClientConn>)
    requires UsedCount(s) == |s|
    ensures forall j :: 0 <= j < |s| ==> s[j].used
  {
    if |s| > 0 {
      assert s[0].used;
      UsedCountFull(s[1..]);
      forall j | 0 < j < |s|
        ensures s[j].used
      {
        assert s[j] == s[1..][j - 1];
      }
    }
  }

  /** A sequence of unused slots counts zero. */
  lemma {:induction false} UsedCountNone(s: seq<ClientConn>)
    requires forall j :: 0 <= j < |s| ==> !s[j].used
    ensures UsedCount(s) == 0
  {
    if |s| > 0 {
      UsedCountNone(s[1..]);
    }
  }

  // ---------------------------------------------------------------------
  // Slot operations
  // ---------------------------------------------------------------------

  /** `ClientConn::clear`: marks the slot unused and zeroes its address; `appData` is not touched. */
  function ClearConn(c: ClientConn): (r: ClientConn)
    ensures !r.used && r.address == NoAddress
    ensures r.appData == c.appData
  {
    c.(used := false, address := NoAddress)
  }

  /**
   * The slot-clearing part of `ServerSocket::init`: the counter is set to
   * zero and every slot of the freshly allocated array is cleared.  The
   * array's prior contents are indeterminate in C++, so they are a
   * parameter here; only their `appData` survives.
   */
  function InitTable(raw: seq<ClientConn>): (t: ClientTable)
    ensures |t.clients| == |raw|
    ensures forall i :: 0 <= i < |raw| ==>
              !t.clients[i].used && t.clients[i].address == NoAddress
              && t.clients[i].appData == raw[i].appData
    ensures t.clientCount == 0
    ensures |raw| < U32_LIMIT ==> Valid(t)
  {
    var clients := seq(|raw|, j requires 0 <= j < |raw| => ClearConn(raw[j]));
    UsedCountNone(clients);
    ClientTable(clients, 0)
  }

  /** The `for` loop of `init` that clears slot after slot, as the C++ does it. */
  method InitClientList(maxClients: U32, raw: seq<ClientConn>) returns (t: ClientTable)
    requires |raw| == maxClients
    ensures t == InitTable(raw)
    ensures |t.clients| == maxClients
    ensures forall i :: 0 <= i < maxClients ==>
              !t.clients[i].used && t.clients[i].address == NoAddress
              && t.clients[i].appData == raw[i].appData
    ensures t.clientCount == 0
    ensures Valid(t)
  {
    var clients := raw;
    var i := 0;
    while i < maxClients
      invariant i <= maxClients
      invariant |clients| == maxClients
      invariant forall j :: 0 <= j < i ==> clients[j] == ClearConn(raw[j])
      invariant forall j :: i <= j < maxClients ==> clients[j] == raw[j]
    {
      clients := clients[i := ClearConn(clients[i])];
      i := i + 1;
    }
    UsedCountNone(clients);
    t := ClientTable(clients, 0);
    assert clients == InitTable(raw).clients;
  }

  /** Index of the first unused slot, or `|s|` when every slot is used. */
  function FirstFree(s: seq<ClientConn>): (i: nat)
    ensures i <= |s|
    ensures forall j :: 0 <= j < i ==> s[j].used
    ensures i < |s| ==> !s[i].used
  {
    if |s| == 0 || !s[0].used then 0 else 1 + FirstFree(s[1..])
  }

  /** The ascending first-free scan of `allocClient`, as the C++ loop does it. */
  method ScanFirstFree(clients: seq<ClientConn>) returns (clientIndex: nat)
    ensures clientIndex == FirstFree(clients)
  {
    clientIndex := 0;
    while clientIndex < |clients|
      invariant clientIndex <= |clients|
      invariant forall j :: 0 <= j < clientIndex ==> clients[j].used
    {
      if !clients[clientIndex].used {
        break;
      }
      clientIndex := clientIndex + 1;
    }
  }

  /** The new table and the handle (`-1` on failure) that `allocClient` returns. */
  datatype AllocResult = AllocResult(table: ClientTable, handle: int)

  /**
   * `allocClient`: a NULL address fails; otherwise the lowest unused slot
   * is taken, marked used and given the address, and the counter is
   * incremented; no free slot fails.  The address is not checked against
   * the addresses already in the table, and `appData` is left as it was.
   */
  function AllocClient(t: ClientTable, address: Option<IPaddress>): (r: AllocResult)
    ensures address.None? ==> r == AllocResult(t, -1)
    ensures (forall j :: 0 <= j < |t.clients| ==> t.clients[j].used) ==> r == AllocResult(t, -1)
    ensures address.Some? && (exists j :: 0 <= j < |t.clients| && !t.clients[j].used) ==>
              r.handle == FirstFree(t.clients)
    ensures r.handle == -1 ==> r.table == t
    ensures r.handle != -1 ==>
              && address.Some?
              && 0 <= r.handle < |t.clients|
              && !t.clients[r.handle].used
              && (forall j :: 0 <= j < r.handle ==> t.clients[j].used)
              && |r.table.clients| == |t.clients|
              && r.table.clients[r.handle]
                 == ClientConn(true, address.value, t.clients[r.handle].appData)
              && (forall j :: 0 <= j < |t.clients| && j != r.handle ==>
                    r.table.clients[j] == t.clients[j])
              && r.table.clientCount == Inc32(t.clientCount)
  {
    if address.None? then AllocResult(t, -1)
    else
      var i := FirstFree(t.clients);
      if i >= |t.clients| then AllocResult(t, -1)
      else
        var c := t.clients[i].(used := true, address := address.value);
        AllocResult(ClientTable(t.clients[i := c], Inc32(t.clientCount)), i)
  }

  /**
   * `freeClient`: an out-of-range or unused handle is a no-op; a used slot
   * is cleared and the counter decremented.
   */
  function FreeClient(t: ClientTable, handle: U32): (t': ClientTable)
    ensures (handle >= |t.clients| || !t.clients[handle].used) ==> t' == t
    ensures handle < |t.clients| && t.clients[handle].used ==>
              && |t'.clients| == |t.clients|
              && !t'.clients[handle].used
              && t'.clients[handle].address == NoAddress
              && t'.clients[handle].appData == t.clients[handle].appData
              && (forall j :: 0 <= j < |t.clients| && j != handle ==>
                    t'.clients[j] == t.clients[j])
              && t'.clientCount == Dec32(t.clientCount)
  {
    if handle >= |t.clients| then t
    else if t.clients[handle].used then
      ClientTable(t.clients[handle := ClearConn(t.clients[handle])], Dec32(t.clientCount))
    else t
  }

  /**
   * `setPrivateData`: stores the pointer in a used, in-range slot and
   * changes nothing else; otherwise a no-op.
   */
  function SetPrivateData(t: ClientTable, handle: U32, ptr: Ptr): (t': ClientTable)
    ensures (handle >= |t.clients| || !t.clients[handle].used) ==> t' == t
    ensures handle < |t.clients| && t.clients[handle].used ==>
              && t'.clientCount == t.clientCount
              && |t'.clients| == |t.clients|
              && t'.clients[handle].appData == ptr
              && t'.clients[handle].used
              && t'.clients[handle].address == t.clients[handle].address
              && (forall j :: 0 <= j < |t.clients| && j != handle ==>
                    t'.clients[j] == t.clients[j])
  {
    if handle >= |t.clients| then t
    else if t.clients[handle].used then
      t.(clients := t.clients[handle := t.clients[handle].(appData := ptr)])
    else t
  }

  /** `getPrivateData`: the pointer of a used, in-range slot, otherwise NULL. */
  function GetPrivateData(t: ClientTable, handle: U32): (p: Ptr)
    ensures (handle >= |t.clients| || !t.clients[handle].used) ==> p == Null
    ensures handle < |t.clients| && t.clients[handle].used ==> p == t.clients[handle].appData
  {
    if handle >= |t.clients| then Null
    else if t.clients[handle].used then t.clients[handle].appData
    else Null
  }

  /**
   * `handleToPeerIPaddress`: NULL exactly when the handle is out of range;
   * the `used` flag is not consulted, so a free slot yields its (zeroed)
   * address.
   */
  function HandleToPeerIPaddress(t: ClientTable, handle: U32): (a: Option<IPaddress>)
    ensures a.None? <==> handle >= |t.clients|
    ensures a.Some? ==> a.value == t.clients[handle].address
  {
    if handle >= |t.clients| then None else Some(t.clients[handle].address)
  }

  /** Index of the first slot holding `address`, or `|s|` when none does. */
  function FindAddress(s: seq<ClientConn>, address: IPaddress): (i: nat)
    ensures i <= |s|
    ensures forall j :: 0 <= j < i ==> s[j].address != address
    ensures i < |s| ==> s[i].address == address
  {
    if |s| == 0 || s[0].address == address then 0 else 1 + FindAddress(s[1..], address)
  }

  /** The linear lookup loop of `peerIPaddressToHandle`, host compared before port. */
  method ScanAddress(clients: seq<ClientConn>, address: IPaddress) returns (handle: int)
    ensures handle == -1 <==> FindAddress(clients, address) == |clients|
    ensures handle != -1 ==> handle == FindAddress(clients, address)
  {
    handle := -1;
    var clientIndex := 0;
    while clientIndex < |clients|
      invariant clientIndex <= |clients|
      invariant handle == -1
      invariant forall j :: 0 <= j < clientIndex ==> clients[j].address != address
    {
      if clients[clientIndex].address.host == address.host {
        if clients[clientIndex].address.port == address.port {
          handle := clientIndex;
          break;
        }
      }
      clientIndex := clientIndex + 1;
    }
  }

  /**
   * `peerIPaddressToHandle`: the lowest slot whose host and port both
   * equal the query, or -1.  Every slot is scanned whether used or not.
   */
  function PeerIPaddressToHandle(t: ClientTable, address: IPaddress): (h: int)
    ensures h == -1 <==> forall j :: 0 <= j < |t.clients| ==> t.clients[j].address != address
    ensures h != -1 ==>
              && 0 <= h < |t.clients|
              && t.clients[h].address == address
              && (forall j :: 0 <= j < h ==> t.clients[j].address != address)
  {
    var i := FindAddress(t.clients, address);
    if i == |t.clients| then -1 else i
  }
}
