/** A sender, the bytes in transit, and a receiver: the whole message pipeline under any interleaving of writes,
    partial sends and partial receives. */
module Link {
  import opened Bytes
  import opened CircleBuffer
  import opened FrameParser
  import opened Messages
  import opened Session

  datatype Event = WriteEvent(m: Message) | SendEvent(out: seq<SendReply>) | RecvEvent(ins: seq<RecvReply>)

  /** Everything about a link that its ends and its peers can tell. */
  datatype Moment = Moment(
    ix: Indices, ring: seq<byte>, wire: seq<byte>, kept: seq<byte>, accepted: seq<Message>, dispatched: seq<Message>,
    senderUp: bool, receiverUp: bool)

  /** A write: the message is accepted, and its frame joins the ring, exactly when the indices admit it. */
  ghost predicate Writes(m: Message, a: Moment, b: Moment, from: Endpoint) {
    && Sendable(m, from)
    && var f := FrameOf(m, from);
       b == if a.ix.Admits(f.Size())
            then a.(ix := a.ix.AfterWrite(f.Size()), ring := a.ring + f.Wire(), accepted := a.accepted + [m])
            else a.(ix := a.ix.WriteOverAgain(f.Size()))
  }

  /** A send: what the socket took of the range at the front is in transit, and has left the ring unless the
      connection broke. */
  ghost predicate Sends(out: seq<SendReply>, a: Moment, b: Moment) {
    && a.ix.Valid()
    && var n := Moved(a.ix, a.ring, out);
       var up := EndsUp(a.ix, a.ring, out);
       && n <= |a.ring|
       && b == a.(ix := SentFrom(a.ix, a.ring, out), wire := a.wire + a.ring[..n],
                  ring := if up then a.ring[n..] else a.ring, senderUp := up)
  }

  /** A receive: what was read is no longer in transit, and its messages are handed up unless the peer closed. */
  ghost predicate Receives(ins: seq<RecvReply>, a: Moment, b: Moment, to: Endpoint) {
    && |a.kept| <= 32768
    && var chunks := Reads(a.kept, a.wire, ins);
       var n := |Concat(chunks)|;
       && n <= |a.wire| && a.wire[..n] == Concat(chunks)
       && if |chunks| < |ins| && ins[|chunks|].PeerClosed? then
            b == a.(wire := a.wire[n..], kept := b.kept, receiverUp := false)
          else
            && to.Valid() && Fits(Receiver([], a.kept), chunks)
            && var st := FeedAll(Receiver([], a.kept), chunks);
               b == a.(wire := a.wire[n..], kept := st.kept, dispatched := a.dispatched + AcceptAll(st.frames, to))
  }

  /** One event; an end that is down does nothing. */
  ghost predicate StepOf(e: Event, a: Moment, b: Moment, from: Endpoint, to: Endpoint) {
    match e
    case WriteEvent(m) => if a.senderUp then Writes(m, a, b, from) else b == a
    case SendEvent(out) => if a.senderUp then Sends(out, a, b) else b == a
    case RecvEvent(ins) => if a.receiverUp then Receives(ins, a, b, to) else b == a
  }

  /** What the receiver has handed up, seen from what the sender accepted. */
  ghost predicate InOrder(dispatched: seq<Message>, accepted: seq<Message>, to: Endpoint) {
    dispatched <= Intended(accepted, to)
  }

  /** The two histories agree on every byte: taken off the link, in transit, or still in the ring buffer. While
      the sender's connection is up the ring starts where the transit ends; a send that broke off leaves bytes
      both in transit and in the ring, and nothing is sent after it. */
  ghost predicate Conserved(stream: seq<byte>, taken: seq<byte>, wire: seq<byte>, ring: seq<byte>, up: bool) {
    if up then stream == taken + wire + ring else taken + wire <= stream
  }

  lemma WriteConserves(stream: seq<byte>, taken: seq<byte>, wire: seq<byte>, ring: seq<byte>, w: seq<byte>)
    requires Conserved(stream, taken, wire, ring, true)
    ensures Conserved(stream + w, taken, wire, ring + w, true)
  {
    assert stream + w == taken + wire + (ring + w);
  }

  lemma SendConserves(stream: seq<byte>, taken: seq<byte>, wire: seq<byte>, ring: seq<byte>, sent: seq<byte>,
                      ring': seq<byte>, up: bool)
    requires Conserved(stream, taken, wire, ring, true)
    requires if up then ring == sent + ring' else sent <= ring
    ensures Conserved(stream, taken, wire + sent, ring', up)
  {
    if up {
      assert taken + wire + ring == taken + (wire + sent) + ring';
    } else {
      var rest := ring[|sent|..];
      assert ring == sent + rest;
      assert stream == (taken + (wire + sent)) + rest;
    }
  }

  lemma RecvConserves(stream: seq<byte>, taken: seq<byte>, wire: seq<byte>, ring: seq<byte>, got: nat, up: bool)
    requires Conserved(stream, taken, wire, ring, up) && got <= |wire|
    ensures Conserved(stream, taken + wire[..got], wire[got..], ring, up)
  {
    assert (taken + wire[..got]) + wire[got..] == taken + wire;
  }

  lemma TakenIsPrefix(stream: seq<byte>, taken: seq<byte>, wire: seq<byte>, ring: seq<byte>, up: bool)
    requires Conserved(stream, taken, wire, ring, up)
    ensures taken <= stream
  {
    if up {
      assert stream == taken + (wire + ring);
    } else {
      assert taken == (taken + wire)[..|taken|] == stream[..|taken|];
    }
  }

  lemma {:induction false} FlattenAppend(fs: seq<Frame>, f: Frame)
    ensures Flatten(fs + [f]) == Flatten(fs) + f.Wire()
  {
    hide Frame.Wire;
    FlattenSplit(fs + [f], |fs|);
    assert (fs + [f])[..|fs|] == fs && (fs + [f])[|fs|..] == [f];
    assert [f][1..] == [];
    assert Flatten([f]) == f.Wire() + [] == f.Wire();
  }

  /** The receiver's state tells how much of the stream it has taken, and what it must have handed up. */
  ghost predicate Caught(ms: seq<Message>, from: Endpoint, to: Endpoint, taken: seq<byte>, kept: seq<byte>,
                         dispatched: seq<Message>) {
    && from.Valid() && to.Valid()
    && ParseAll(taken).status.NeedMore? && ParseAll(taken).rest == kept
    && dispatched == AcceptAll(ParseAll(taken).frames, to)
  }

  lemma {:induction false} FeedAllKeepsFrames(frames: seq<Frame>, kept: seq<byte>, chunks: seq<seq<byte>>)
    requires Fits(Receiver(frames, kept), chunks) && Fits(Receiver([], kept), chunks)
    ensures FeedAll(Receiver(frames, kept), chunks).kept == FeedAll(Receiver([], kept), chunks).kept
    ensures FeedAll(Receiver(frames, kept), chunks).frames == frames + FeedAll(Receiver([], kept), chunks).frames
    decreases |chunks|
  {
    hide First;
    if chunks == [] {
      assert frames + [] == frames;
    } else {
      var p := ParseAll(kept + chunks[0]);
      assert [] + p.frames == p.frames;
      FitsIgnoresFrames(frames + p.frames, [], Keep(p), chunks[1..]);
      FeedAllKeepsFrames(frames + p.frames, Keep(p), chunks[1..]);
      FeedAllKeepsFrames(p.frames, Keep(p), chunks[1..]);
      var more := FeedAll(Receiver([], Keep(p)), chunks[1..]).frames;
      assert frames + (p.frames + more) == (frames + p.frames) + more;
    }
  }

  lemma {:induction false} FitsIgnoresFrames(a: seq<Frame>, b: seq<Frame>, kept: seq<byte>, chunks: seq<seq<byte>>)
    requires Fits(Receiver(a, kept), chunks)
    ensures Fits(Receiver(b, kept), chunks)
    decreases |chunks|
  {
    if chunks != [] {
      var p := ParseAll(kept + chunks[0]);
      FitsIgnoresFrames(a + p.frames, b + p.frames, Keep(p), chunks[1..]);
    }
  }

  /** One successful receive keeps the receiver caught up with what it has taken. */
  lemma RecvCatches(ms: seq<Message>, from: Endpoint, to: Endpoint, taken: seq<byte>, kept: seq<byte>,
                    dispatched: seq<Message>, chunks: seq<seq<byte>>)
    requires forall m :: m in ms ==> Sendable(m, from)
    requires Caught(ms, from, to, taken, kept, dispatched) && Fits(Receiver([], kept), chunks)
    requires taken + Concat(chunks) <= Flatten(FramesOf(ms, from))
    ensures var st := FeedAll(Receiver([], kept), chunks);
            Caught(ms, from, to, taken + Concat(chunks), st.kept, dispatched + AcceptAll(st.frames, to))
  {
    hide First, Accept, Feed;
    var frames := ParseAll(taken).frames;
    FramesGood(ms, from);
    FitsIgnoresFrames([], frames, kept, chunks);
    ChunkIndependent(FramesOf(ms, from), taken, chunks, Receiver(frames, kept));
    FeedAllKeepsFrames(frames, kept, chunks);
    AcceptAllAppend(frames, FeedAll(Receiver([], kept), chunks).frames, to);
  }

  /** A receiver that has taken a prefix of the stream has handed up a prefix of the messages meant for it, and
      all of them once it has taken everything. */
  lemma CaughtInOrder(ms: seq<Message>, from: Endpoint, to: Endpoint, taken: seq<byte>, kept: seq<byte>,
                      dispatched: seq<Message>)
    requires forall m :: m in ms ==> Sendable(m, from)
    requires Caught(ms, from, to, taken, kept, dispatched)
    requires from.security == to.security && from.digest == to.digest
    requires taken <= Flatten(FramesOf(ms, from))
    ensures InOrder(dispatched, ms, to)
    ensures taken == Flatten(FramesOf(ms, from)) ==> dispatched == Intended(ms, to)
  {
    hide First, Accept;
    var fs := FramesOf(ms, from);
    FramesGood(ms, from);
    ParsePrefix(fs, taken);
    var p := ParseAll(taken);
    AcceptAllAppend(p.frames, fs[|p.frames|..], to);
    assert fs == p.frames + fs[|p.frames|..];
    AcceptFrames(ms, from, to);
    if taken == Flatten(fs) {
      ParseWhole(fs);
    }
  }

  class Link {
    const sender: Session
    const receiver: Session
    var wire: seq<byte>
    var accepted: seq<Message>
    var dispatched: seq<Message>
    var senderUp: bool
    var receiverUp: bool
    ghost var taken: seq<byte>

    ghost function Stream(): seq<byte>
      reads this
      requires forall m :: m in accepted ==> Sendable(m, sender.m_self)
    {
      Flatten(FramesOf(accepted, sender.m_self))
    }

    ghost predicate Valid()
      reads this, sender, sender.bufSend, sender.bufSend.m_buffer, sender.m_bufRecv,
            receiver, receiver.bufSend, receiver.bufSend.m_buffer, receiver.m_bufRecv
    {
      && sender != receiver && sender.bufSend != receiver.bufSend
      && sender.bufSend.m_buffer != receiver.m_bufRecv && sender.bufSend.m_buffer != receiver.bufSend.m_buffer
      && sender.Formed() && receiver.Formed() && (receiverUp ==> receiver.Valid())
      && sender.m_self.security == receiver.m_self.security && sender.m_self.digest == receiver.m_self.digest
      && !receiver.m_remoteIsClient
      && (forall m :: m in accepted ==> Sendable(m, sender.m_self))
      && Conserved(Stream(), taken, wire, sender.bufSend.Contents(), senderUp)
      && (receiverUp ==> Caught(accepted, sender.m_self, receiver.m_self, taken, receiver.Kept(), dispatched))
      && InOrder(dispatched, accepted, receiver.m_self)
    }

    ghost function Here(): Moment
      requires sender.Formed() && receiver.Formed()
      reads this, sender, sender.bufSend, sender.bufSend.m_buffer, receiver, receiver.bufSend, receiver.m_bufRecv
    {
      Moment(sender.bufSend.Ix(), sender.bufSend.Contents(), wire, receiver.Kept(), accepted, dispatched,
             senderUp, receiverUp)
    }

    constructor (sender: Session, receiver: Session)
      requires sender != receiver && sender.bufSend != receiver.bufSend
      requires sender.bufSend.m_buffer != receiver.m_bufRecv && sender.bufSend.m_buffer != receiver.bufSend.m_buffer
      requires sender.Valid() && receiver.Valid() && !receiver.m_remoteIsClient
      requires sender.m_self.security == receiver.m_self.security && sender.m_self.digest == receiver.m_self.digest
      requires sender.bufSend.Contents() == [] && receiver.Kept() == []
      ensures Valid() && this.sender == sender && this.receiver == receiver
      ensures accepted == [] && dispatched == [] && senderUp && receiverUp
    {
      this.sender, this.receiver := sender, receiver;
      wire, accepted, dispatched, taken := [], [], [], [];
      senderUp, receiverUp := true, true;
    }

    method Write(m: Message)
      requires Valid() && senderUp && Sendable(m, sender.m_self)
      modifies this, sender.bufSend, sender.bufSend.m_buffer
      ensures Valid() && senderUp && receiverUp == old(receiverUp) && dispatched == old(dispatched)
      ensures sender.bufSend.m_buffer == old(sender.bufSend.m_buffer)
      ensures Writes(m, old(Here()), Here(), sender.m_self)
    {
      hide First, Accept, FrameOf, Frame.Wire, OnWire;
      ghost var ring := sender.bufSend.Contents();
      var rc := sender.Write(m);
      if rc.Success? {
        ghost var f := FrameOf(m, sender.m_self);
        WriteConserves(Stream(), taken, wire, ring, f.Wire());
        FlattenAppend(FramesOf(accepted, sender.m_self), f);
        assert (accepted + [m])[..|accepted|] == accepted;
        accepted := accepted + [m];
        assert Stream() == old(Stream()) + f.Wire();
      } else {
        assert sender.bufSend.Contents() == ring;
        assert accepted + [] == accepted;
      }
    }

    method Send(out: seq<SendReply>)
      requires Valid() && senderUp
      modifies this, sender.bufSend
      ensures Valid() && receiverUp == old(receiverUp) && accepted == old(accepted) && dispatched == old(dispatched)
      ensures (forall r :: r in out ==> !Broken(r)) ==> senderUp
      ensures Sends(out, old(Here()), Here())
      ensures out != [] && out[0].Accepted? && out[0].n >= sender.bufSend.m_bufCapacity > 0 ==>
                senderUp && sender.bufSend.Ix() == old(sender.bufSend.Ix()).AfterSend()
      ensures sender.bufSend.m_buffer == old(sender.bufSend.m_buffer)
    {
      hide First, Accept, AcceptAll, FrameOf, FramesOf, Frame.Wire, Flatten, Intended, ParseAll, Conserved, Caught,
        InOrder, Sendable, Indices.Contents, Indices.AfterSend, Endpoint.Valid;
      ghost var ring := sender.bufSend.Contents();
      var rc, sent := sender.Send(out);
      SendConserves(Stream(), taken, wire, ring, sent, sender.bufSend.Contents(), rc.Success?);
      wire := wire + sent;
      senderUp := rc.Success?;
    }

    method Recv(ins: seq<RecvReply>)
      requires Valid() && receiverUp
      modifies this, receiver, receiver.m_bufRecv
      ensures Valid() && senderUp == old(senderUp) && accepted == old(accepted) && old(dispatched) <= dispatched
      ensures PeerClosed !in ins ==> receiverUp
      ensures Receives(ins, old(Here()), Here(), receiver.m_self)
    {
      hide First, Accept, AcceptAll, FrameOf, FramesOf, Frame.Wire, Flatten, Intended, ParseAll, Conserved, Caught,
        Sendable, Indices.Contents, Fits, FeedAll, Quiet, Concat, Endpoint.Valid, Reads;
      ghost var kept := receiver.Kept();
      QuietFacts(kept);
      ghost var chunks := Reads(kept, wire, ins);
      var ret, batch, got := receiver.Recv(wire, ins);
      RecvConserves(Stream(), taken, wire, sender.bufSend.Contents(), got, senderUp);
      if ret.Success? {
        TakenIsPrefix(Stream(), taken + wire[..got], wire[got..], sender.bufSend.Contents(), senderUp);
        RecvCatches(accepted, sender.m_self, receiver.m_self, taken, kept, dispatched, chunks);
        taken, wire := taken + wire[..got], wire[got..];
        dispatched := dispatched + batch;
        CaughtInOrder(accepted, sender.m_self, receiver.m_self, taken, receiver.Kept(), dispatched);
      } else {
        taken, wire := taken + wire[..got], wire[got..];
        receiverUp := false;
      }
    }

    /** Any interleaving. What has been handed up is always, in order and without gaps, the start of what was
        accepted for this receiver; with nothing left in transit or in the ring it is all of it. */
    method Run(events: seq<Event>) returns (ghost trace: seq<Moment>)
      requires Valid()
      requires forall e :: e in events && e.WriteEvent? ==> Sendable(e.m, sender.m_self)
      modifies this, sender, sender.bufSend, sender.bufSend.m_buffer, receiver, receiver.m_bufRecv
      ensures Valid() && |trace| == |events| + 1 && trace[0] == old(Here()) && trace[|events|] == Here()
      ensures forall i :: 0 <= i < |events| ==>
                StepOf(events[i], trace[i], trace[i + 1], sender.m_self, receiver.m_self)
      ensures forall i :: 0 <= i <= |events| ==> InOrder(trace[i].dispatched, trace[i].accepted, receiver.m_self)
      ensures senderUp && receiverUp && wire == [] && sender.bufSend.Contents() == [] ==>
                dispatched == Intended(accepted, receiver.m_self)
    {
      hide Writes, Sends, Receives, Intended;
      var i := 0;
      trace := [Here()];
      while i < |events|
        invariant Valid() && 0 <= i <= |events| && |trace| == i + 1
        invariant sender.bufSend.m_buffer == old(sender.bufSend.m_buffer)
        invariant trace[0] == old(Here()) && trace[i] == Here()
        invariant forall k :: 0 <= k < i ==>
                    StepOf(events[k], trace[k], trace[k + 1], sender.m_self, receiver.m_self)
        invariant forall k :: 0 <= k <= i ==> InOrder(trace[k].dispatched, trace[k].accepted, receiver.m_self)
      {
        Handle(events[i]);
        trace := trace + [Here()];
        i := i + 1;
      }
      Drained();
    }

    method Handle(e: Event)
      requires Valid() && (e.WriteEvent? ==> Sendable(e.m, sender.m_self))
      modifies this, sender, sender.bufSend, sender.bufSend.m_buffer, receiver, receiver.m_bufRecv
      ensures Valid() && sender.bufSend.m_buffer == old(sender.bufSend.m_buffer)
      ensures StepOf(e, old(Here()), Here(), sender.m_self, receiver.m_self)
    {
      hide Writes, Sends, Receives, Conserved, Caught, InOrder, Sendable, Indices.Contents;
      match e {
        case WriteEvent(m) => if senderUp { Write(m); }
        case SendEvent(out) => if senderUp { Send(out); }
        case RecvEvent(ins) => if receiverUp { Recv(ins); }
      }
    }

    /** From any moment with both ends up: two sends into a socket that takes everything and a receive from one that
        brings everything, however little at a time, and all that was accepted for this receiver is handed up. */
    method Settle()
      requires Valid() && senderUp && receiverUp && sender.bufSend.m_bufCapacity > 0
      modifies this, sender, sender.bufSend, receiver, receiver.m_bufRecv
      ensures Valid() && senderUp && receiverUp && accepted == old(accepted)
      ensures wire == [] && sender.bufSend.Contents() == []
      ensures old(dispatched) <= dispatched == Intended(accepted, receiver.m_self)
    {
      hide Sends, Receives, Writes, Intended, Conserved, Caught, InOrder;
      Send([Accepted(sender.bufSend.m_bufCapacity)]);
      Send([Accepted(sender.bufSend.m_bufCapacity)]);
      var ins := seq(|wire|, _ => Arrived(1));
      ghost var before := Here();
      ReadsItAll(before.kept, wire, ins);
      Recv(ins);
      AllRead(ins, before, Here(), receiver.m_self);
      Drained();
    }

    lemma ReadsItAll(kept: seq<byte>, w: seq<byte>, ins: seq<RecvReply>)
      requires receiverUp && Valid() && kept == receiver.Kept() && |ins| == |w|
      requires forall i :: 0 <= i < |ins| ==> ins[i] == Arrived(1)
      ensures |kept| <= 32768 && Concat(Reads(kept, w, ins)) == w
    {
      QuietFacts(kept);
      assert forall r :: r in ins ==> r.Arrived? && r.n > 0;
      ReadsAll(kept, w, ins);
    }

    static lemma AllRead(ins: seq<RecvReply>, a: Moment, b: Moment, to: Endpoint)
      requires Receives(ins, a, b, to) && PeerClosed !in ins && Concat(Reads(a.kept, a.wire, ins)) == a.wire
      ensures b.wire == [] && b.receiverUp == a.receiverUp && b.ring == a.ring && b.accepted == a.accepted
    {
    }

    lemma Drained()
      requires Valid()
      ensures senderUp && receiverUp && wire == [] && sender.bufSend.Contents() == [] ==>
                dispatched == Intended(accepted, receiver.m_self)
    {
      if senderUp && receiverUp && wire == [] && sender.bufSend.Contents() == [] {
        assert Stream() == taken;
        CaughtInOrder(accepted, sender.m_self, receiver.m_self, taken, receiver.Kept(), dispatched);
      }
    }
  }
}
