/**
  Message channels: a fixed ring of slots used as a bounded first-in first-out queue.
 */
module Channels {
  import opened Wrappers

  const MAX_MSG_SIZE: nat := 256
  const CHANNEL_CAPACITY: nat := 64
  const MAX_CHANNELS: nat := 128

  datatype Message = Message(sender: nat, data: seq<Byte>, len: nat, tick: nat)

  datatype ChannelError = ChannelFull | MaxChannelsReached

  /** Copies at most 256 bytes into a zeroed buffer. */
  function NewMessage(sender: nat, payload: seq<Byte>, tick: nat): Message {
    var len := if |payload| <= MAX_MSG_SIZE then |payload| else MAX_MSG_SIZE;
    Message(sender, payload[..len] + seq(MAX_MSG_SIZE - len, _ => 0), len, tick)
  }

  /** The shape of every message the source can build. */
  predicate Fits(m: Message) {
    |m.data| == MAX_MSG_SIZE && m.len <= MAX_MSG_SIZE
  }

  function Payload(m: Message): seq<Byte>
    requires m.len <= |m.data|
  {
    m.data[..m.len]
  }

  /**
    The payload read back is the payload sent, cut to 256 bytes, with its sender and its tick; nothing of
    the padding shows.
   */
  lemma PayloadIsCutPayload(sender: nat, payload: seq<Byte>, tick: nat)
    ensures
      var m := NewMessage(sender, payload, tick);
      && Fits(m) && m.sender == sender && m.tick == tick && m.len == Min(|payload|, 256)
      && Payload(m) == if |payload| <= MAX_MSG_SIZE then payload else payload[..MAX_MSG_SIZE]
  {
    var m := NewMessage(sender, payload, tick);
    assert m.data[..m.len] == payload[..m.len];
  }

  /** A slot number counted on from the tail, wrapped back into the buffer. */
  function Wrap(slot: nat): nat {
    if slot < CHANNEL_CAPACITY then slot else slot - CHANNEL_CAPACITY
  }

  datatype ChannelOp = SendOp(msg: Message) | RecvOp

  /** The queue, everything accepted and everything delivered so far. */
  datatype Traffic = Traffic(queue: seq<Message>, accepted: seq<Message>, delivered: seq<Message>)

  function Step(t: Traffic, op: ChannelOp): Traffic {
    match op
    case SendOp(m) =>
      if |t.queue| < CHANNEL_CAPACITY then Traffic(t.queue + [m], t.accepted + [m], t.delivered) else t
    case RecvOp =>
      if t.queue == [] then t else Traffic(t.queue[1..], t.accepted, t.delivered + [t.queue[0]])
  }

  class Channel {
    const id: nat
    const buffer: array<Option<Message>>
    var head: nat
    var tail: nat
    var count: nat
    ghost var queue: seq<Message>  // sent and not yet received, oldest first
    ghost var accepted: seq<Message>
    ghost var delivered: seq<Message>

    ghost function View(): Traffic
      reads this
    {
      Traffic(queue, accepted, delivered)
    }

    ghost predicate Valid()
      reads this, buffer
    {
      && buffer.Length == CHANNEL_CAPACITY
      && count == |queue| <= CHANNEL_CAPACITY
      && tail < CHANNEL_CAPACITY
      && head == Wrap(tail + count)
      && (forall i | 0 <= i < count :: buffer[Wrap(tail + i)] == Some(queue[i]))
      && (forall i | 0 <= i < count :: Fits(queue[i]))
    }

    constructor (id: nat)
      ensures Valid() && View() == Traffic([], [], []) && this.id == id && fresh(buffer)
    {
      this.id := id;
      buffer := new Option<Message>[CHANNEL_CAPACITY](_ => None);
      head, tail, count := 0, 0, 0;
      queue, accepted, delivered := [], [], [];
    }

    method Send(msg: Message) returns (r: Result<(), ChannelError>)
      requires Valid() && Fits(msg)
      modifies this, buffer
      ensures Valid()
      ensures View() == Step(old(View()), SendOp(msg))
      ensures if |old(queue)| < 64 then r == Ok(()) && queue == old(queue) + [msg]
              else r == Err(ChannelFull) && queue == old(queue)
    {
      if count >= CHANNEL_CAPACITY {
        return Err(ChannelFull);
      }
      buffer[head] := Some(msg);
      head := (head + 1) % CHANNEL_CAPACITY;
      count := count + 1;
      queue, accepted := queue + [msg], accepted + [msg];
      r := Ok(());
    }

    /** Never None while messages are waiting: the slot at the tail is always full then. */
    method Recv() returns (r: Option<Message>)
      requires Valid()
      modifies this, buffer
      ensures Valid()
      ensures View() == Step(old(View()), RecvOp)
      ensures if old(queue) == [] then r == None && queue == []
              else r == Some(old(queue)[0]) && queue == old(queue)[1..]
    {
      if count == 0 {
        return None;
      }
      assert buffer[Wrap(tail + 0)] == Some(queue[0]);
      r := buffer[tail];
      buffer[tail] := None;
      tail := (tail + 1) % CHANNEL_CAPACITY;
      count := count - 1;
      queue, delivered := queue[1..], delivered + [queue[0]];
    }

    method MessageCount() returns (n: nat)
      requires Valid()
      ensures n == |queue|
    {
      n := count;
    }
  }

  class ChannelRegistry {
    var channels: seq<Channel>
    var nextId: nat

    /** Channels are never removed, so ids are positions. */
    ghost predicate Valid()
      reads this
    {
      && nextId == |channels| <= MAX_CHANNELS
      && forall i | 0 <= i < |channels| :: channels[i].id == i
    }

    constructor ()
      ensures Valid() && channels == []
    {
      channels, nextId := [], 0;
    }

    method Create() returns (r: Result<nat, ChannelError>)
      requires Valid()
      modifies this
      ensures Valid()
      ensures if |old(channels)| < 128
              then r == Ok(|old(channels)|) && |channels| == |old(channels)| + 1 && old(channels) <= channels &&
                   fresh(channels[|old(channels)|]) && channels[|old(channels)|].Valid() &&
                   channels[|old(channels)|].View() == Traffic([], [], [])
              else r == Err(MaxChannelsReached) && channels == old(channels)
    {
      if |channels| >= MAX_CHANNELS {
        return Err(MaxChannelsReached);
      }
      var id := nextId;
      nextId := nextId + 1;
      var c := new Channel(id);
      channels := channels + [c];
      r := Ok(id);
    }

    method Get(id: nat) returns (r: Option<Channel>)
      requires Valid()
      ensures r == if id < |channels| then Some(channels[id]) else None
    {
      for i := 0 to |channels|
        invariant i <= id
      {
        if channels[i].id == id {
          return Some(channels[i]);
        }
      }
      r := None;
    }
  }
}

/** Whole runs of one channel: what comes out is what went in, in order. */
module ChannelRuns {
  import opened Wrappers
  import opened Channels

  function Run(ops: seq<ChannelOp>): Traffic {
    if ops == [] then Traffic([], [], []) else Step(Run(ops[..|ops| - 1]), ops[|ops| - 1])
  }

  /** Nothing is lost, duplicated or reordered, and at most 64 messages are ever in flight. */
  lemma {:induction false} FirstInFirstOut(ops: seq<ChannelOp>)
    ensures
      var t := Run(ops);
      t.accepted == t.delivered + t.queue && |t.queue| <= 64
  {
    if ops != [] {
      FirstInFirstOut(ops[..|ops| - 1]);
      var t := Run(ops[..|ops| - 1]);
      if ops[|ops| - 1].RecvOp? && t.queue != [] {
        assert t.queue == [t.queue[0]] + t.queue[1..];
      }
    }
  }
}
