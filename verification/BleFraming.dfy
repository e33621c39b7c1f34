/** pkg/connector/ble/ble.go: length-prefixed frames over characteristic writes. */
module BleFraming {
  import opened Primitives
  import opened GoTime

  const MAX_MESSAGE_SIZE := 1024
  const RX_TIMEOUT := SECOND

  /** Send's frame: the length in two bytes, then the message. Longer lengths are cut. */
  function Frame(message: bytes): bytes {
    [ToByte(|message| / 0x100), ToByte(|message|)] + message
  }

  function Frames(messages: seq<bytes>): bytes {
    if messages == [] then [] else Frame(messages[0]) + Frames(messages[1..])
  }

  /** The length that the first two bytes of a buffer announce. */
  function Announced(buffer: bytes): nat
    requires |buffer| >= 2
  {
    var high: nat := buffer[0];
    0x100 * high + buffer[1]
  }

  predicate Oversized(buffer: bytes) {
    |buffer| >= 2 && Announced(buffer) > MAX_MESSAGE_SIZE
  }

  predicate Complete(buffer: bytes) {
    |buffer| >= 2 && Announced(buffer) <= MAX_MESSAGE_SIZE && |buffer| >= 2 + Announced(buffer)
  }

  function Concat(chunks: seq<bytes>): bytes {
    if chunks == [] then [] else chunks[0] + Concat(chunks[1..])
  }

  /** The state of the receiving side: buffered bytes and messages not yet read from the
      inbox, which has room for `capacity` of them. */
  datatype Receiver = Receiver(buffer: bytes, inbox: seq<bytes>, capacity: nat)
  {
    /** One call of flush and its result. A message that does not fit the inbox is lost. */
    function Flush(): (Receiver, bool) {
      if Oversized(buffer) then (this.(buffer := []), false)
      else if Complete(buffer) then
        var n := Announced(buffer);
        var rest := this.(buffer := buffer[2 + n..]);
        if |inbox| < capacity then (rest.(inbox := inbox + [buffer[2..2 + n]]), true) else (rest, false)
      else (this, false)
    }

    function FlushAll(): Receiver
      decreases |buffer|
    {
      var (r, more) := Flush();
      if more then r.FlushAll() else r
    }

    /** One call of rx with data p that is not preceded by a timeout. */
    function Take(p: bytes): Receiver {
      this.(buffer := buffer + p).FlushAll()
    }

    function TakeAll(chunks: seq<bytes>): Receiver
      decreases |chunks|
    {
      if chunks == [] then this else Take(chunks[0]).TakeAll(chunks[1..])
    }
  }

  // ---- the code ----

  class Connection {
    var inbox: seq<bytes>
    var inputBuffer: bytes
    var lastRx: Time
    const capacity: nat
    const blockLength: nat
    ghost var written: seq<bytes>     // blocks handed to WriteCharacteristic

    ghost function State(): Receiver
      reads this
    {
      Receiver(inputBuffer, inbox, capacity)
    }

    constructor (capacity: nat, blockLength: nat, now: Time)
      ensures State() == Receiver([], [], capacity) && this.blockLength == blockLength && lastRx == now && written == []
    {
      this.capacity, this.blockLength := capacity, blockLength;
      inbox, inputBuffer, lastRx := [], [], now;
      written := [];
    }

    method Flush() returns (more: bool)
      modifies this`inbox, this`inputBuffer
      ensures (State(), more) == old(State()).Flush()
    {
      if |inputBuffer| >= 2 {
        var high: nat := inputBuffer[0];
        var msgLength := 0x100 * high + inputBuffer[1];
        if msgLength > MAX_MESSAGE_SIZE {
          inputBuffer := [];
          return false;
        }
        if |inputBuffer| >= 2 + msgLength {
          var buffer := inputBuffer[2..2 + msgLength];
          inputBuffer := inputBuffer[2 + msgLength..];
          if |inbox| < capacity {
            inbox := inbox + [buffer];
          } else {
            return false;
          }
          return true;
        }
      }
      more := false;
    }

    /** The clock is read once for the timeout and once to remember this call. */
    method Rx(p: bytes, now: Time, later: Time)
      modifies this`inbox, this`inputBuffer, this`lastRx
      ensures lastRx == later
      ensures var late := Sub(now, old(lastRx)) > RX_TIMEOUT;
              State() == (if late then old(State()).(buffer := []) else old(State())).Take(p)
    {
      if Sub(now, lastRx) > RX_TIMEOUT {
        inputBuffer := [];
      }
      lastRx := later;
      inputBuffer := inputBuffer + p;
      ghost var start := State();
      var more := true;
      while more
        invariant lastRx == later
        invariant more ==> State().FlushAll() == start.FlushAll()
        invariant !more ==> State() == start.FlushAll()
        decreases more, |inputBuffer|
      {
        more := Flush();
      }
    }

    /** Writes the frame in blocks; `failing` is the number of writes after which the next
        one returns an error, if any does. */
    method Send(message: bytes, failing: Option<nat>) returns (ok: bool)
      requires blockLength > 0
      modifies this`written
      ensures old(written) <= written
      ensures var blocks := written[|old(written)|..];
              && (forall b | b in blocks :: 0 < |b| <= blockLength)
              && (forall i | 0 <= i < |blocks| - 1 :: |blocks[i]| == blockLength)
              && Concat(blocks) <= Frame(message)
              && (ok ==> Concat(blocks) == Frame(message) && (failing.Some? ==> failing.value >= |blocks|))
              && (!ok ==> failing == Some(|blocks|) && Concat(blocks) != Frame(message))
    {
      ghost var before := written;
      ghost var blocks: seq<bytes> := [];
      var out := [ToByte(|message| / 0x100), ToByte(|message|)] + message;
      var length := blockLength;
      var count := 0;
      while |out| > 0
        invariant 0 < length <= blockLength
        invariant written == before + blocks && count == |blocks|
        invariant forall b | b in blocks :: 0 < |b| <= blockLength
        invariant forall i | 0 <= i < |blocks| :: i < |blocks| - 1 || |out| > 0 ==> |blocks[i]| == blockLength
        invariant |out| > 0 ==> length == blockLength
        invariant failing.Some? ==> failing.value >= count
        invariant Concat(blocks) + out == Frame(message)
      {
        if length > |out| {
          length := |out|;
        }
        if failing == Some(count) {
          return false;
        }
        ConcatOneMore(blocks, out, length);
        blocks := blocks + [out[..length]];
        written := written + [out[..length]];
        out := out[length..];
        count := count + 1;
      }
      ok := true;
    }
  }

  // ---- sequences ----

  lemma Associative(a: bytes, b: bytes, c: bytes)
    ensures a + b + c == a + (b + c)
  {
  }

  lemma EmptyCancels(a: bytes)
    ensures [] + a == a && a + [] == a
  {
  }

  lemma InitAndLast(a: bytes)
    requires a != []
    ensures a == a[..|a| - 1] + [a[|a| - 1]]
  {
  }

  lemma PrefixCancels(a: bytes, b: bytes, c: bytes)
    requires a + b <= a + c
    ensures b <= c
  {
    assert b == (a + b)[|a|..] && c == (a + c)[|a|..];
  }

  lemma TailOfAppend(a: seq<bytes>, b: seq<bytes>)
    requires a != []
    ensures (a + b)[0] == a[0] && (a + b)[1..] == a[1..] + b
  {
  }

  lemma {:induction false} ConcatAppend(a: seq<bytes>, b: seq<bytes>)
    ensures Concat(a + b) == Concat(a) + Concat(b)
  {
    if a == [] {
      assert a + b == b;
    } else {
      TailOfAppend(a, b);
      ConcatAppend(a[1..], b);
      Associative(a[0], Concat(a[1..]), Concat(b));
    }
  }

  lemma ConcatOne(c: bytes)
    ensures Concat([c]) == c
  {
    var chunks := [c];
    assert chunks[1..] == [];
  }

  lemma ConcatTwo(c: bytes, d: bytes)
    ensures Concat([c, d]) == c + d
  {
    var chunks := [c, d];
    assert chunks[1..] == [d];
    ConcatOne(d);
  }

  /** Moving the first n bytes of `rest` into a block of their own. */
  lemma ConcatOneMore(blocks: seq<bytes>, rest: bytes, n: nat)
    requires n <= |rest|
    ensures Concat(blocks + [rest[..n]]) + rest[n..] == Concat(blocks) + rest
  {
    ConcatAppend(blocks, [rest[..n]]);
    ConcatOne(rest[..n]);
    Associative(Concat(blocks), rest[..n], rest[n..]);
  }

  lemma {:induction false} FramesAppend(a: seq<bytes>, b: seq<bytes>)
    ensures Frames(a + b) == Frames(a) + Frames(b)
  {
    if a == [] {
      assert a + b == b;
    } else {
      TailOfAppend(a, b);
      FramesAppend(a[1..], b);
      Associative(Frame(a[0]), Frames(a[1..]), Frames(b));
    }
  }

  lemma FrameAlone(m: bytes)
    ensures Frames([m]) == Frame(m)
  {
    assert Frames([m][1..]) == [];
  }

  // ---- sender and receiver together ----

  predicate Sendable(messages: seq<bytes>) {
    forall m | m in messages :: |m| <= MAX_MESSAGE_SIZE
  }

  predicate Unused(r: Receiver) {
    r.buffer == [] && r.inbox == []
  }

  /** The receiver has seen `stream`, the beginning of the frames of `messages` followed by
      `tail`, has delivered some of the messages and still buffers the rest of the stream. */
  ghost predicate Tracks(r: Receiver, messages: seq<bytes>, stream: bytes, tail: bytes) {
    r.inbox <= messages && stream == Frames(r.inbox) + r.buffer && stream <= Frames(messages) + tail
  }

  /** The next message can be delivered, if there is one. */
  predicate HasRoom(r: Receiver, messages: seq<bytes>) {
    |r.inbox| < r.capacity || |r.inbox| == |messages|
  }

  lemma FrameHead(buffer: bytes, m: bytes, tail: bytes)
    requires buffer <= Frame(m) + tail && |buffer| >= 2 && |m| <= MAX_MESSAGE_SIZE
    ensures Announced(buffer) == |m|
    ensures Complete(buffer) ==> buffer[2..2 + |m|] == m && buffer == Frame(m) + buffer[2 + |m|..]
  {
    var stream := Frame(m) + tail;
    assert buffer[0] == stream[0] && buffer[1] == stream[1];
    if Complete(buffer) {
      assert buffer[..2 + |m|] == stream[..2 + |m|] == Frame(m);
    }
  }

  /** The buffer is the beginning of what is still to be delivered. */
  lemma BufferIsAhead(r: Receiver, messages: seq<bytes>, stream: bytes, tail: bytes)
    requires Tracks(r, messages, stream, tail)
    ensures r.buffer <= Frames(messages[|r.inbox|..]) + tail
    ensures Frames(messages) + tail == Frames(r.inbox) + (Frames(messages[|r.inbox|..]) + tail)
  {
    var rest := messages[|r.inbox|..];
    assert messages == r.inbox + rest;
    FramesAppend(r.inbox, rest);
    Associative(Frames(r.inbox), Frames(rest), tail);
    PrefixCancels(Frames(r.inbox), r.buffer, Frames(rest) + tail);
  }

  /** What the buffer starts with when the next message is m. */
  lemma NextFrame(r: Receiver, messages: seq<bytes>, stream: bytes, tail: bytes)
    requires Sendable(messages) && Tracks(r, messages, stream, tail) && |r.inbox| < |messages| && |r.buffer| >= 2
    ensures var m := messages[|r.inbox|];
            && !Oversized(r.buffer) && Announced(r.buffer) == |m|
            && (Complete(r.buffer) ==> r.buffer[2..2 + |m|] == m && r.buffer == Frame(m) + r.buffer[2 + |m|..])
  {
    BufferIsAhead(r, messages, stream, tail);
    var rest := messages[|r.inbox|..];
    assert rest[0] in messages;
    Associative(Frame(rest[0]), Frames(rest[1..]), tail);
    FrameHead(r.buffer, rest[0], Frames(rest[1..]) + tail);
  }

  lemma DeliverTracks(r: Receiver, messages: seq<bytes>, stream: bytes, tail: bytes)
    requires Sendable(messages) && Tracks(r, messages, stream, tail) && |r.inbox| < |messages|
    requires Complete(r.buffer) && |r.inbox| < r.capacity
    ensures r.Flush().1 && Tracks(r.Flush().0, messages, stream, tail)
    ensures r.Flush().0.inbox == r.inbox + [messages[|r.inbox|]] && r.Flush().0.capacity == r.capacity
  {
    NextFrame(r, messages, stream, tail);
    var m := messages[|r.inbox|];
    FramesAppend(r.inbox, [m]);
    FrameAlone(m);
    Associative(Frames(r.inbox), Frame(m), r.buffer[2 + |m|..]);
  }

  /** When all messages are delivered, the buffer holds less than a header. */
  lemma AllDelivered(r: Receiver, messages: seq<bytes>, stream: bytes, tail: bytes)
    requires Tracks(r, messages, stream, tail) && |r.inbox| == |messages|
    ensures r.inbox == messages && |stream| == |Frames(messages)| + |r.buffer|
  {
    assert r.inbox == messages;
  }

  /** As long as there is room, nothing is lost. */
  lemma {:induction false} FlushUntilFull(r: Receiver, messages: seq<bytes>, stream: bytes, tail: bytes)
    requires Sendable(messages) && Tracks(r, messages, stream, tail) && |r.inbox| <= r.capacity
    requires |stream| < |Frames(messages)| + 2
    ensures var r' := r.FlushAll();
            && r'.inbox <= messages && r'.capacity == r.capacity && |r'.inbox| <= r.capacity
            && (HasRoom(r', messages) ==> Tracks(r', messages, stream, tail) && !Complete(r'.buffer))
    decreases |r.buffer|
  {
    if |r.inbox| == |messages| {
      AllDelivered(r, messages, stream, tail);
    } else if |r.buffer| >= 2 && |r.inbox| < r.capacity {
      NextFrame(r, messages, stream, tail);
      if Complete(r.buffer) {
        DeliverTracks(r, messages, stream, tail);
        FlushUntilFull(r.Flush().0, messages, stream, tail);
      }
    }
  }

  lemma {:induction false} FullInboxStays(r: Receiver, chunks: seq<bytes>)
    requires |r.inbox| >= r.capacity
    ensures r.TakeAll(chunks).inbox == r.inbox && r.TakeAll(chunks).capacity == r.capacity
    decreases |chunks|
  {
    if chunks != [] {
      var r' := r.(buffer := r.buffer + chunks[0]);
      assert !r'.Flush().1;
      FullInboxStays(r.Take(chunks[0]), chunks[1..]);
    }
  }

  lemma TakeUntilFull(r: Receiver, messages: seq<bytes>, stream: bytes, tail: bytes, c: bytes)
    requires Sendable(messages) && Tracks(r, messages, stream, tail) && |r.inbox| <= r.capacity
    requires stream + c <= Frames(messages) + tail && |stream + c| < |Frames(messages)| + 2
    ensures var r' := r.Take(c);
            && r'.inbox <= messages && r'.capacity == r.capacity && |r'.inbox| <= r.capacity
            && (HasRoom(r', messages) ==> Tracks(r', messages, stream + c, tail) && !Complete(r'.buffer))
  {
    Associative(Frames(r.inbox), r.buffer, c);
    FlushUntilFull(r.(buffer := r.buffer + c), messages, stream + c, tail);
  }

  lemma {:induction false} TakeAllUntilFull(r: Receiver, messages: seq<bytes>, stream: bytes, chunks: seq<bytes>)
    requires Sendable(messages) && Tracks(r, messages, stream, []) && HasRoom(r, messages) && |r.inbox| <= r.capacity
    requires !Complete(r.buffer) && stream + Concat(chunks) <= Frames(messages)
    ensures var r' := r.TakeAll(chunks);
            && r'.inbox <= messages && r'.capacity == r.capacity && |r'.inbox| <= r.capacity
            && (HasRoom(r', messages) ==> Tracks(r', messages, stream + Concat(chunks), []) && !Complete(r'.buffer))
    decreases |chunks|
  {
    if chunks == [] {
      assert stream + Concat(chunks) == stream;
    } else {
      var c := chunks[0];
      Associative(stream, c, Concat(chunks[1..]));
      assert Frames(messages) + [] == Frames(messages);
      TakeUntilFull(r, messages, stream, [], c);
      if HasRoom(r.Take(c), messages) {
        TakeAllUntilFull(r.Take(c), messages, stream + c, chunks[1..]);
      } else {
        FullInboxStays(r.Take(c), chunks[1..]);
      }
    }
  }

  lemma FromTheStart(r: Receiver, messages: seq<bytes>, chunks: seq<bytes>)
    requires Unused(r) && Sendable(messages) && Concat(chunks) <= Frames(messages)
    requires HasRoom(r, messages)
    ensures var r' := r.TakeAll(chunks);
            && r'.inbox <= messages && r'.capacity == r.capacity && |r'.inbox| <= r.capacity
            && (HasRoom(r', messages) ==> Tracks(r', messages, Concat(chunks), []) && !Complete(r'.buffer))
  {
    EmptyCancels(Concat(chunks));
    StartTracks(r, messages, []);
    TakeAllUntilFull(r, messages, [], chunks);
  }

  /** Reassembly: however the beginning of a stream of frames is cut into chunks, exactly
      the messages whose frames are complete are delivered, in order, and exactly the
      bytes of the unfinished frame stay in the buffer. */
  lemma ReassemblyExact(r: Receiver, messages: seq<bytes>, chunks: seq<bytes>)
    requires Unused(r) && Sendable(messages) && r.capacity >= |messages|
    requires Concat(chunks) <= Frames(messages)
    ensures var r' := r.TakeAll(chunks);
            && r'.inbox <= messages
            && Concat(chunks) == Frames(r'.inbox) + r'.buffer
            && !Complete(r'.buffer)
  {
    FromTheStart(r, messages, chunks);
  }

  /** At the end of the stream, everything has been delivered. */
  lemma NothingLeft(r: Receiver, messages: seq<bytes>)
    requires Sendable(messages) && Tracks(r, messages, Frames(messages), []) && !Complete(r.buffer)
    ensures r.inbox == messages && r.buffer == []
  {
    BufferIsAhead(r, messages, Frames(messages), []);
    var rest := messages[|r.inbox|..];
    assert |r.buffer| == |Frames(rest)|;
    if rest != [] {
      NextFrame(r, messages, Frames(messages), []);
    }
  }

  /** Round trip: any re-chunking of the frames of a list of messages delivers that list. */
  lemma RoundTrip(r: Receiver, messages: seq<bytes>, chunks: seq<bytes>)
    requires Unused(r) && Sendable(messages) && r.capacity >= |messages|
    requires Concat(chunks) == Frames(messages)
    ensures r.TakeAll(chunks) == Receiver([], messages, r.capacity)
  {
    FromTheStart(r, messages, chunks);
    NothingLeft(r.TakeAll(chunks), messages);
  }

  /** For any capacity and any cutting: while nobody reads the inbox, it gets exactly the
      messages that fit, in order. Those that come when it is full are lost, or stay
      buffered behind a lost one until the next call of rx. */
  lemma InboxGetsWhatFits(r: Receiver, messages: seq<bytes>, chunks: seq<bytes>)
    requires Unused(r) && Sendable(messages) && Concat(chunks) == Frames(messages)
    ensures r.TakeAll(chunks).inbox == if r.capacity < |messages| then messages[..r.capacity] else messages
  {
    if HasRoom(r, messages) {
      FromTheStart(r, messages, chunks);
      var r' := r.TakeAll(chunks);
      if HasRoom(r', messages) {
        NothingLeft(r', messages);
      } else {
        assert r'.inbox == messages[..r.capacity];
      }
    } else {
      FullInboxStays(r, chunks);
    }
  }

  // ---- a reader beside the receiver ----

  /** A call of rx, or a message taken from the inbox by whoever reads it. */
  datatype Event = Chunk(p: bytes) | Read

  datatype Link = Link(receiver: Receiver, taken: seq<bytes>)
  {
    function Step(e: Event): Link {
      match e
      case Chunk(p) => this.(receiver := receiver.Take(p))
      case Read =>
        if receiver.inbox == [] then this
        else Link(receiver.(inbox := receiver.inbox[1..]), taken + [receiver.inbox[0]])
    }

    /** Everything that was ever delivered, in order. */
    function Delivered(): seq<bytes> {
      taken + receiver.inbox
    }
  }

  function Run(x: Link, es: seq<Event>): Link {
    if es == [] then x else Run(x, es[..|es| - 1]).Step(es[|es| - 1])
  }

  function Received(es: seq<Event>): bytes {
    if es == [] then []
    else Received(es[..|es| - 1]) + if es[|es| - 1].Chunk? then es[|es| - 1].p else []
  }

  /** a is what is left of b when some of its elements are removed. */
  predicate Sublist(a: seq<bytes>, b: seq<bytes>)
    decreases |b|
  {
    if a == [] then true
    else if b == [] then false
    else
      || (a[|a| - 1] == b[|b| - 1] && Sublist(a[..|a| - 1], b[..|b| - 1]))
      || Sublist(a, b[..|b| - 1])
  }

  lemma SublistGrows(a: seq<bytes>, b: seq<bytes>, m: bytes)
    requires Sublist(a, b)
    ensures Sublist(a, b + [m]) && Sublist(a + [m], b + [m])
  {
    assert (b + [m])[..|b|] == b && (a + [m])[..|a|] == a;
  }

  /** k messages have been consumed: delivered or, when the inbox was full, lost. What the
      receiver still buffers starts with message k. */
  ghost predicate Consumed(r: Receiver, messages: seq<bytes>, stream: bytes, k: nat) {
    k <= |messages| && Tracks(r.(inbox := messages[..k]), messages, stream, [])
  }

  lemma ConsumeNext(r: Receiver, messages: seq<bytes>, stream: bytes, k: nat)
    requires Sendable(messages) && Consumed(r, messages, stream, k) && Complete(r.buffer)
    ensures k < |messages| && Consumed(r.Flush().0, messages, stream, k + 1)
    ensures r.Flush().1 == (|r.inbox| < r.capacity) && r.Flush().0.capacity == r.capacity
    ensures r.Flush().0.inbox == if |r.inbox| < r.capacity then r.inbox + [messages[k]] else r.inbox
  {
    var x := Receiver(r.buffer, messages[..k], k + 1);
    if k == |messages| {
      AllDelivered(x, messages, stream, []);
      EmptyCancels(Frames(messages));
    } else {
      NextFrame(x, messages, stream, []);
      DeliverTracks(x, messages, stream, []);
      assert x.Flush().0.inbox == messages[..k + 1];
    }
  }

  lemma OneMore(messages: seq<bytes>, k: nat)
    requires k < |messages|
    ensures messages[..k + 1] == messages[..k] + [messages[k]]
  {
  }

  lemma OneFirst(messages: seq<bytes>, k: nat, n: nat)
    requires k < n <= |messages|
    ensures messages[k..n] == [messages[k]] + messages[k + 1..n]
  {
  }

  lemma AppendLater(a: seq<bytes>, b: seq<bytes>, c: seq<bytes>)
    ensures a + b + c == a + (b + c)
  {
  }

  /** What one run of flush leaves behind: messages consumed up to some k', those that were
      delivered in order; and all of them if the inbox is not full in the end. */
  lemma {:induction false} FlushConsumes(r: Receiver, taken: seq<bytes>, messages: seq<bytes>, stream: bytes, k: nat)
    returns (k': nat)
    requires Sendable(messages) && Consumed(r, messages, stream, k) && Sublist(taken + r.inbox, messages[..k])
    requires |r.inbox| <= r.capacity
    ensures var r' := r.FlushAll();
            && k <= k' && Consumed(r', messages, stream, k') && Sublist(taken + r'.inbox, messages[..k'])
            && r'.capacity == r.capacity && |r'.inbox| <= r.capacity
            && (|r'.inbox| < r.capacity ==> r'.inbox == r.inbox + messages[k..k'] && !Complete(r'.buffer))
    decreases |r.buffer|
  {
    if Complete(r.buffer) {
      ConsumeNext(r, messages, stream, k);
      var r1 := r.Flush().0;
      OneMore(messages, k);
      SublistGrows(taken + r.inbox, messages[..k], messages[k]);
      if r.Flush().1 {
        AppendLater(taken, r.inbox, [messages[k]]);
        k' := FlushConsumes(r1, taken, messages, stream, k + 1);
        OneFirst(messages, k, k');
        AppendLater(r.inbox, [messages[k]], messages[k + 1..k']);
      } else {
        k' := k + 1;
      }
    } else {
      NotOversized(r, messages, stream, k);
      k' := k;
      assert messages[k..k'] == [];
    }
  }

  lemma NotOversized(r: Receiver, messages: seq<bytes>, stream: bytes, k: nat)
    requires Sendable(messages) && Consumed(r, messages, stream, k)
    ensures !Oversized(r.buffer)
  {
    var x := r.(inbox := messages[..k]);
    if k < |messages| && |r.buffer| >= 2 {
      NextFrame(x, messages, stream, []);
    } else if k == |messages| {
      AllDelivered(x, messages, stream, []);
      EmptyCancels(Frames(messages));
    }
  }

  /** The inbox is never full after a call of rx. */
  predicate NeverFull(x: Link, es: seq<Event>) {
    es == []
    || (NeverFull(x, es[..|es| - 1])
        && (es[|es| - 1].Chunk? ==> |Run(x, es).receiver.inbox| < x.receiver.capacity))
  }

  ghost predicate InState(x: Link, messages: seq<bytes>, stream: bytes, k: nat) {
    && Consumed(x.receiver, messages, stream, k) && Sublist(x.Delivered(), messages[..k])
    && |x.receiver.inbox| <= x.receiver.capacity
  }

  ghost predicate Lossless(x: Link, messages: seq<bytes>, k: nat)
    requires k <= |messages|
  {
    x.Delivered() == messages[..k] && !Complete(x.receiver.buffer)
  }

  lemma StartsInState(x: Link, messages: seq<bytes>)
    requires Unused(x.receiver) && x.taken == []
    ensures InState(x, messages, [], 0) && Lossless(x, messages, 0)
  {
    StartTracks(x.receiver.(inbox := messages[..0]), messages, []);
  }

  lemma ReadKeepsDelivered(x: Link)
    ensures x.Step(Read).Delivered() == x.Delivered() && x.Step(Read).receiver.buffer == x.receiver.buffer
    ensures x.Step(Read).receiver.capacity == x.receiver.capacity
    ensures |x.Step(Read).receiver.inbox| <= |x.receiver.inbox|
  {
  }

  lemma {:induction false} RunConsumes(x: Link, messages: seq<bytes>, es: seq<Event>) returns (k: nat)
    requires Unused(x.receiver) && x.taken == [] && Sendable(messages) && Received(es) <= Frames(messages)
    ensures var x' := Run(x, es);
            && InState(x', messages, Received(es), k) && x'.receiver.capacity == x.receiver.capacity
            && (NeverFull(x, es) ==> Lossless(x', messages, k))
    decreases |es|
  {
    if es == [] {
      StartsInState(x, messages);
      k := 0;
    } else {
      var before, e := es[..|es| - 1], es[|es| - 1];
      k := RunConsumes(x, messages, before);
      var y := Run(x, before);
      if e.Read? {
        EmptyCancels(Received(before));
        ReadKeepsDelivered(y);
        assert y.Step(e).receiver.(inbox := messages[..k]) == y.receiver.(inbox := messages[..k]);
      } else {
        k := ChunkConsumes(y, messages, Received(before), e.p, k);
      }
    }
  }

  lemma ChunkConsumes(y: Link, messages: seq<bytes>, stream: bytes, p: bytes, k: nat) returns (k': nat)
    requires Sendable(messages) && InState(y, messages, stream, k) && stream + p <= Frames(messages)
    ensures var y' := y.Step(Chunk(p));
            && InState(y', messages, stream + p, k') && y'.receiver.capacity == y.receiver.capacity
            && (|y'.receiver.inbox| < y.receiver.capacity && Lossless(y, messages, k) ==> Lossless(y', messages, k'))
  {
    var r := y.receiver.(buffer := y.receiver.buffer + p);
    Associative(Frames(messages[..k]), y.receiver.buffer, p);
    EmptyCancels(Frames(messages));
    k' := FlushConsumes(r, y.taken, messages, stream + p, k);
    assert messages[..k'] == messages[..k] + messages[k..k'];
    AppendLater(y.taken, r.inbox, messages[k..k']);
  }

  /** For any capacity, any cutting and any reader: what is delivered is a sublist of the
      messages, in order and none of them altered. If the inbox is never full after a call
      of rx, it is exactly the messages whose frames are complete, and exactly the bytes of
      the unfinished frame stay in the buffer. */
  lemma ReadersGetMessages(x: Link, messages: seq<bytes>, es: seq<Event>)
    requires Unused(x.receiver) && x.taken == [] && Sendable(messages) && Received(es) <= Frames(messages)
    ensures var x' := Run(x, es);
            && (exists k: nat :: k <= |messages| && Sublist(x'.Delivered(), messages[..k]))
            && (NeverFull(x, es) ==>
                  && x'.Delivered() <= messages && Received(es) == Frames(x'.Delivered()) + x'.receiver.buffer
                  && !Complete(x'.receiver.buffer))
  {
    var k := RunConsumes(x, messages, es);
    assert k <= |messages| && Sublist(Run(x, es).Delivered(), messages[..k]);
  }

  // ---- messages over the limit ----

  lemma {:induction false} InboxGrows(r: Receiver)
    ensures r.inbox <= r.FlushAll().inbox
    decreases |r.buffer|
  {
    var (r', more) := r.Flush();
    if more {
      InboxGrows(r');
    }
  }

  lemma LengthWraps(n: nat)
    ensures 0x100 * (n / 0x100 % 0x100) + n % 0x100 == n % 0x1_0000
  {
    var high, low := n / 0x100, n % 0x100;
    assert high == 0x100 * (high / 0x100) + high % 0x100;
    assert n == 0x1_0000 * (high / 0x100) + (0x100 * (high % 0x100) + low);
  }

  /** The length that the first two bytes of a frame announce. */
  lemma FrameAnnounces(m: bytes, tail: bytes)
    ensures |Frame(m) + tail| >= 2 && Announced(Frame(m) + tail) == |m| % 0x1_0000
  {
    var stream := Frame(m) + tail;
    assert stream[0] == ToByte(|m| / 0x100) && stream[1] == ToByte(|m|);
    LengthWraps(|m|);
  }

  /** A message over the limit is dropped with the rest of the buffer or, if its length
      wraps to a small one, cut short. */
  lemma {:induction false} UnsendableNotDelivered(r: Receiver, messages: seq<bytes>)
    requires r.buffer == Frames(messages) && !Sendable(messages)
    ensures r.FlushAll().inbox != r.inbox + messages
    decreases |messages|
  {
    var m, rest := messages[0], messages[1..];
    assert messages == [m] + rest;
    FrameAnnounces(m, Frames(rest));
    var (r', more) := r.Flush();
    if |m| <= MAX_MESSAGE_SIZE {
      FrameHead(r.buffer, m, Frames(rest));
      assert !Sendable(rest);
      if more {
        assert r.buffer[2 + |m|..] == Frames(rest);
        UnsendableNotDelivered(r', rest);
        assert r'.inbox + rest == r.inbox + messages;
      }
    } else if more {
      InboxGrows(r');
      assert r'.inbox[|r.inbox|] != m;
      assert (r.inbox + messages)[|r.inbox|] == m;
    }
  }

  lemma TakeOne(r: Receiver, c: bytes)
    ensures r.TakeAll([c]) == r.Take(c)
  {
    var chunks := [c];
    assert chunks[1..] == [];
  }

  lemma TakeTwo(r: Receiver, c: bytes, d: bytes)
    ensures r.TakeAll([c, d]) == r.Take(c).Take(d)
  {
    var chunks := [c, d];
    assert chunks[1..] == [d];
    TakeOne(r.Take(c), d);
  }

  lemma UnsendableLost(r: Receiver, messages: seq<bytes>)
    requires Unused(r) && !Sendable(messages)
    ensures r.TakeAll([Frames(messages)]).inbox != messages
  {
    assert r.buffer + Frames(messages) == Frames(messages) && r.inbox + messages == messages;
    UnsendableNotDelivered(r.(buffer := Frames(messages)), messages);
    TakeOne(r, Frames(messages));
  }

  /** The round trip and its exact condition: any cutting of the frames of a list delivers
      that list if and only if no message is longer than the limit. */
  lemma RoundTripExactly(r: Receiver, messages: seq<bytes>)
    requires Unused(r) && r.capacity >= |messages|
    ensures (forall chunks | Concat(chunks) == Frames(messages) ::
               r.TakeAll(chunks) == Receiver([], messages, r.capacity))
            <==> forall m | m in messages :: |m| <= 1024
  {
    if Sendable(messages) {
      forall chunks | Concat(chunks) == Frames(messages)
        ensures r.TakeAll(chunks) == Receiver([], messages, r.capacity)
      {
        RoundTrip(r, messages, chunks);
      }
    } else {
      UnsendableLost(r, messages);
      ConcatOne(Frames(messages));
    }
  }

  // ---- after an oversized header ----

  predicate BadHeader(header: bytes) {
    |header| == 2 && Oversized(header)
  }

  /** As soon as the whole header has arrived, the buffer is dropped with all that follows
      the header in it. */
  lemma {:induction false} FlushPastHeader(r: Receiver, messages: seq<bytes>, tail: bytes)
    requires Sendable(messages) && |tail| >= 2 && BadHeader(tail[..2]) && r.capacity >= |messages|
    requires Tracks(r, messages, Frames(messages) + tail, tail)
    ensures r.FlushAll() == Receiver([], messages, r.capacity)
    decreases |r.buffer|
  {
    var stream := Frames(messages) + tail;
    BufferIsAhead(r, messages, stream, tail);
    var ahead := messages[|r.inbox|..];
    assert |r.buffer| == |Frames(ahead) + tail|;
    if |r.inbox| < |messages| {
      assert |Frames(ahead)| >= 2 + |ahead[0]|;
      NextFrame(r, messages, stream, tail);
      assert ahead[0] in messages;
      DeliverTracks(r, messages, stream, tail);
      FlushPastHeader(r.Flush().0, messages, tail);
    } else {
      AllDelivered(r, messages, stream, tail);
      assert r.buffer == tail;
      assert tail[0] == tail[..2][0] && tail[1] == tail[..2][1];
    }
  }

  lemma TakePastHeader(r: Receiver, messages: seq<bytes>, stream: bytes, tail: bytes, c: bytes)
    requires Sendable(messages) && |tail| >= 2 && BadHeader(tail[..2]) && r.capacity >= |messages|
    requires Tracks(r, messages, stream, tail) && stream + c == Frames(messages) + tail
    ensures r.Take(c) == Receiver([], messages, r.capacity)
  {
    Associative(Frames(r.inbox), r.buffer, c);
    FlushPastHeader(r.(buffer := r.buffer + c), messages, tail);
  }

  lemma {:induction false} TakeNothing(r: Receiver, chunks: seq<bytes>)
    requires r.buffer == [] && Concat(chunks) == []
    ensures r.TakeAll(chunks) == r
    decreases |chunks|
  {
    if chunks != [] {
      assert chunks[0] == [] && Concat(chunks[1..]) == [];
      assert r.(buffer := r.buffer + []) == r;
      TakeNothing(r, chunks[1..]);
    }
  }

  /** Reading the frames and the header, in any cutting, leaves nothing in the buffer. */
  lemma {:induction false} HeaderDrops(r: Receiver, messages: seq<bytes>, stream: bytes, header: bytes,
                                       chunks: seq<bytes>)
    requires Sendable(messages) && BadHeader(header) && r.capacity >= |messages|
    requires Tracks(r, messages, stream, header) && |stream| < |Frames(messages)| + 2
    requires stream + Concat(chunks) == Frames(messages) + header
    ensures r.TakeAll(chunks) == Receiver([], messages, r.capacity)
    decreases |chunks|
  {
    var c := chunks[0];
    Associative(stream, c, Concat(chunks[1..]));
    if |stream + c| < |Frames(messages)| + 2 {
      TakeUntilFull(r, messages, stream, header, c);
      HeaderDrops(r.Take(c), messages, stream + c, header, chunks[1..]);
    } else {
      assert header[..2] == header;
      assert Concat(chunks[1..]) == [];
      TakePastHeader(r, messages, stream, header, c);
      TakeNothing(r.Take(c), chunks[1..]);
    }
  }

  lemma StartTracks(r: Receiver, messages: seq<bytes>, tail: bytes)
    requires Unused(r)
    ensures Tracks(r, messages, [], tail)
  {
  }

  lemma HeaderFirst(header: bytes, rest: bytes)
    requires |header| == 2
    ensures |header + rest| >= 2 && (header + rest)[..2] == header
  {
  }

  lemma TakeOversized(r: Receiver, messages: seq<bytes>, header: bytes, rest: bytes)
    requires Unused(r) && Sendable(messages) && r.capacity >= |messages| && BadHeader(header)
    ensures r.Take(Frames(messages) + (header + rest)) == Receiver([], messages, r.capacity)
  {
    var stream := Frames(messages) + (header + rest);
    EmptyCancels(stream);
    HeaderFirst(header, rest);
    StartTracks(r, messages, header + rest);
    TakePastHeader(r, messages, [], header + rest, stream);
  }

  /** All cuttings of a stream end in the same state of the receiver. */
  ghost predicate CuttingIrrelevant(r: Receiver, stream: bytes) {
    forall chunks, chunks' | Concat(chunks) == stream && Concat(chunks') == stream ::
      r.TakeAll(chunks) == r.TakeAll(chunks')
  }

  lemma NothingAfterHeader(r: Receiver, messages: seq<bytes>, header: bytes)
    requires Unused(r) && Sendable(messages) && r.capacity >= |messages| && BadHeader(header)
    ensures CuttingIrrelevant(r, Frames(messages) + header)
  {
    forall chunks | Concat(chunks) == Frames(messages) + header
      ensures r.TakeAll(chunks) == Receiver([], messages, r.capacity)
    {
      EmptyCancels(Concat(chunks));
      StartTracks(r, messages, header);
      HeaderDrops(r, messages, [], header, chunks);
    }
  }

  /** Taken in one chunk, the rest is lost; cut before its last byte, this byte stays. */
  lemma CutBeforeLast(r: Receiver, messages: seq<bytes>, header: bytes, init: bytes, last: byte)
    requires Unused(r) && Sendable(messages) && r.capacity >= |messages| && BadHeader(header)
    ensures var whole, first := Frames(messages) + (header + (init + [last])), Frames(messages) + (header + init);
            && r.TakeAll([whole]) == Receiver([], messages, r.capacity)
            && r.TakeAll([first, [last]]) == Receiver([last], messages, r.capacity)
  {
    var whole, first := Frames(messages) + (header + (init + [last])), Frames(messages) + (header + init);
    TakeOversized(r, messages, header, init + [last]);
    TakeOversized(r, messages, header, init);
    TakeOne(r, whole);
    TakeTwo(r, first, [last]);
    TakeByte(Receiver([], messages, r.capacity), last);
  }

  lemma TakeByte(r: Receiver, b: byte)
    requires r.buffer == []
    ensures r.Take([b]) == r.(buffer := [b])
  {
    assert r.buffer + [b] == [b];
  }

  lemma Disagree(r: Receiver, stream: bytes, chunks: seq<bytes>, chunks': seq<bytes>)
    requires Concat(chunks) == stream && Concat(chunks') == stream && r.TakeAll(chunks) != r.TakeAll(chunks')
    ensures !CuttingIrrelevant(r, stream)
  {
  }

  lemma SomethingAfterHeader(r: Receiver, messages: seq<bytes>, header: bytes, init: bytes, last: byte)
    requires Unused(r) && Sendable(messages) && r.capacity >= |messages| && BadHeader(header)
    ensures !CuttingIrrelevant(r, Frames(messages) + (header + (init + [last])))
  {
    var whole, first := Frames(messages) + (header + (init + [last])), Frames(messages) + (header + init);
    Associative(header, init, [last]);
    Associative(Frames(messages), header + init, [last]);
    ConcatOne(whole);
    ConcatTwo(first, [last]);
    CutBeforeLast(r, messages, header, init, last);
    Disagree(r, whole, [whole], [first, [last]]);
  }

  /** After an oversized header the receiver drops whatever it has buffered. So the state
      after any messages, any such header and any rest of the stream depends on the cutting
      if and only if there is a rest. */
  lemma OversizedHeaderDependsOnChunks(r: Receiver, messages: seq<bytes>, header: bytes, rest: bytes)
    requires Unused(r) && Sendable(messages) && r.capacity >= |messages| && BadHeader(header)
    ensures CuttingIrrelevant(r, Frames(messages) + (header + rest)) <==> rest == []
  {
    if rest == [] {
      EmptyCancels(header);
      NothingAfterHeader(r, messages, header);
    } else {
      InitAndLast(rest);
      SomethingAfterHeader(r, messages, header, rest[..|rest| - 1], rest[|rest| - 1]);
    }
  }
}
