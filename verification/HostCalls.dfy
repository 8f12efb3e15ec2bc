/**
  The two channel host functions an agent's code can call: each passes the capability gate first.
  The agent's linear memory is a byte string, absent when the module exports none.
 */
module HostCalls {
  import opened Wrappers
  import opened Capabilities
  import opened CapTables
  import opened Channels

  /** A signed 32-bit argument as the kernel's unsigned word. */
  function AsUsize(x: int): nat
    requires -0x8000_0000 <= x < 0x8000_0000
  {
    if x < 0 then x + 0x1_0000_0000_0000_0000 else x
  }

  /** The kernel's word for a negative address is so large that no memory of less than 2^63 bytes reaches it. */
  lemma NegativeIsOutOfBounds(memory: Option<seq<Byte>>, ptr: int, n: nat)
    requires -0x8000_0000 <= ptr < 0x8000_0000 && (memory.Some? ==> |memory.value| < 0x8000_0000_0000_0000)
    ensures AsUsize(ptr) <= USIZE_MAX && (AsUsize(ptr) as int - ptr) % 0x1_0000_0000_0000_0000 == 0
    ensures InBounds(memory, AsUsize(ptr), n) <==> memory.Some? && 0 <= ptr && ptr + n <= |memory.value|
  {
  }

  /**
    What one agent sends from its memory is what another receives into its own, cut to 256 bytes and to the
    room offered.
   */
  lemma BytesArrive(agent: AgentId, sent: seq<Byte>, tick: nat, room: nat)
    ensures
      var m := NewMessage(agent, sent, tick);
      var n := Min(m.len, room);
      m.sender == agent && n == Min(Min(|sent|, 256), room) && m.data[..n] == sent[..n]
  {
    PayloadIsCutPayload(agent, sent, tick);
  }

  predicate InBounds(memory: Option<seq<Byte>>, at: nat, n: nat) {
    memory.Some? && at + n <= |memory.value|
  }

  /** The channel a capability is bound to, if it exists. */
  ghost function Target(cap: Option<(CapHandle, nat)>, registry: ChannelRegistry): Option<Channel>
    reads registry
  {
    if cap.Some? && cap.value.1 < |registry.channels| then Some(registry.channels[cap.value.1]) else None
  }

  ghost function Footprint(c: Option<Channel>): set<object> {
    match c
    case Some(ch) => {ch, ch.buffer}
    case None => {}
  }

  /** The gate: a capability that is held and checks for the right asked for. */
  ghost predicate Allowed(caps: CapTable, cap: Option<(CapHandle, nat)>, right: Right, tick: nat)
    reads caps
  {
    cap.Some? && Check(caps.slots, cap.value.0, {right}, tick).Ok?
  }

  /** Sends iff the gate opens, the memory can be read, and the channel exists with room; otherwise nothing changes. */
  method ChanSend(caps: CapTable, registry: ChannelRegistry, agent: AgentId, cap: Option<(CapHandle, nat)>,
                  ptr: int, len: int, memory: Option<seq<Byte>>, tick: nat)
    returns (r: int)
    requires -0x8000_0000 <= ptr < 0x8000_0000 && -0x8000_0000 <= len < 0x8000_0000
    requires caps.Valid() && registry.Valid()
    requires Target(cap, registry).Some? ==> Target(cap, registry).value.Valid()
    modifies Footprint(Target(cap, registry))
    ensures Target(cap, registry).Some? ==> Target(cap, registry).value.Valid()
    ensures
      var at, n := AsUsize(ptr), Min(AsUsize(len), MAX_MSG_SIZE);
      var c := Target(cap, registry);
      if Allowed(caps, cap, Write, tick) && InBounds(memory, at, n) && c.Some? && |old(c.value.queue)| < CHANNEL_CAPACITY
      then r == n && c.value.queue == old(c.value.queue) + [NewMessage(agent, memory.value[at..at + n], tick)]
      else r == -1 && (c.Some? ==> c.value.queue == old(c.value.queue))
  {
    if cap.Some? {
      var checked := caps.CheckHandle(cap.value.0, {Write}, tick);
      if checked.Ok? {
        var at, n := AsUsize(ptr), Min(AsUsize(len), MAX_MSG_SIZE);
        if memory.Some? && at + n <= |memory.value| {
          var ch := registry.Get(cap.value.1);
          if ch.Some? {
            PayloadIsCutPayload(agent, memory.value[at..at + n], tick);
            var sent := ch.value.Send(NewMessage(agent, memory.value[at..at + n], tick));
            if sent.Ok? {
              return n;
            }
          }
        }
      }
    }
    r := -1;
  }

  /**
    Receives iff the gate opens and a message is waiting.  The message leaves the channel before the
    agent's memory is written, so a bad address loses it: the call reports -1 and the queue is shorter.
   */
  method ChanRecv(caps: CapTable, registry: ChannelRegistry, cap: Option<(CapHandle, nat)>,
                  ptr: int, len: int, memory: Option<seq<Byte>>, tick: nat)
    returns (r: int, memory': Option<seq<Byte>>)
    requires -0x8000_0000 <= ptr < 0x8000_0000 && -0x8000_0000 <= len < 0x8000_0000
    requires caps.Valid() && registry.Valid()
    requires Target(cap, registry).Some? ==> Target(cap, registry).value.Valid()
    modifies Footprint(Target(cap, registry))
    ensures Target(cap, registry).Some? ==> Target(cap, registry).value.Valid()
    ensures
      var c := Target(cap, registry);
      if Allowed(caps, cap, Read, tick) && c.Some? && old(c.value.queue) != [] then
        var m, at := old(c.value.queue)[0], AsUsize(ptr);
        var n := Min(m.len, AsUsize(len));
        && c.value.queue == old(c.value.queue)[1..]
        && (if InBounds(memory, at, n)
            then r == n && memory' == Some(memory.value[..at] + m.data[..n] + memory.value[at + n..])
            else r == -1 && memory' == memory)
      else r == -1 && memory' == memory && (c.Some? ==> c.value.queue == old(c.value.queue))
  {
    r, memory' := -1, memory;
    if cap.Some? {
      var checked := caps.CheckHandle(cap.value.0, {Read}, tick);
      if checked.Ok? {
        var ch := registry.Get(cap.value.1);
        if ch.Some? {
          var received := ch.value.Recv();
          if received.Some? {
            var m := received.value;
            var at, n := AsUsize(ptr), Min(m.len, AsUsize(len));
            if memory.Some? && at + n <= |memory.value| {
              memory' := Some(memory.value[..at] + m.data[..n] + memory.value[at + n..]);
              r := n;
            }
          }
        }
      }
    }
  }
}
