/** Requests waiting for their answers (CommBase/Network/DispatchMessage.h, DispatchMessage.cpp): every request sent
    is given a token and a deadline, and is completed by the acknowledgement that carries the token or by the sweep
    that finds the deadline passed. Clocks and handlers are parameters. */
module DispatchMessage {
  import opened Bytes
  import opened Collections

  const TOKENS := 0x7FFF_FFFF
  const SWEEP_INTERVAL := 1000

  datatype Request = Request(
    messageID: uint32, remoteType: byte, remoteID: int16, channelID: int, loopIndex: int, timeout: uint16)

  datatype Kind = SimpleMessage | RequestMessage | Ack | SystemMessage | Unknown

  /** timedOut stands for the error number eReqTimeOut, which only the sweep sets. */
  datatype Message = Message(
    kind: Kind, messageID: uint32, reqID: int32, timedOut: bool, request: Option<Request>,
    channelID: int, loopIndex: int)

  datatype AckItem = AckItem(token: int32, req: Request, time: int)

  // ---- Tokens ----

  /** The token of the n-th request. */
  function Token(n: nat): (t: int32)
    ensures 1 <= t
  {
    1 + n % TOKENS
  }

  /** Tokens repeat exactly after 2^31 - 1 requests. */
  lemma TokensRepeat(n: nat, m: nat)
    ensures Token(n) == Token(m) <==> (n - m) % TOKENS == 0
    ensures n < m < n + TOKENS ==> Token(n) != Token(m)
  {
    var k := n / TOKENS - m / TOKENS;
    assert n - m == k * TOKENS + (n % TOKENS - m % TOKENS);
  }

  /** m_token before the n-th request: it has overflowed after the last token, and the next call notices. */
  predicate Counter(token: int32, n: nat) {
    token == if n > 0 && n % TOKENS == 0 then -0x8000_0000 else 1 + n % TOKENS
  }

  // ---- What happens to a request ----

  /** The n-th request is over; msg is what its handler is to be given. */
  datatype Completion = Completion(serial: nat, msg: Message)

  function Deadline(req: Request, now: int): int { now + req.timeout * 1000 }

  function TimeoutOf(req: Request): Message {
    Message(Ack, req.messageID, 0, true, Some(req), req.channelID, req.loopIndex)
  }

  ghost predicate Answers(c: Completion, item: AckItem) {
    c.msg.kind == Ack && c.msg.request == Some(item.req) && (!c.msg.timedOut ==> c.msg.reqID == item.token)
  }

  /** Everything that has happened so far. */
  datatype History = History(registered: seq<AckItem>, serials: map<int, nat>, completions: seq<Completion>,
                             lost: set<nat>) {
    ghost predicate Completed(n: nat) {
      exists i :: 0 <= i < |completions| && completions[i].serial == n
    }

    ghost predicate Waiting(n: nat) {
      Token(n) in serials && serials[Token(n)] == n
    }

    /** Every request is waiting, completed once, or lost to a later one that was given the same token. */
    ghost predicate Inv() {
      && (forall n :: 0 <= n < |registered| ==> registered[n].token == Token(n))
      && (forall t :: t in serials ==> serials[t] < |registered| && Token(serials[t]) == t)
      && (forall n :: 0 <= n < |registered| ==> Waiting(n) || Completed(n) || n in lost)
      && (forall i :: 0 <= i < |completions| ==> CompletionOk(completions[i]))
      && (forall i, j :: 0 <= i < j < |completions| ==> completions[i].serial != completions[j].serial)
      && (forall n :: n in lost ==> n + TOKENS <= |registered| - 1 && !Waiting(n) && !Completed(n))
    }

    ghost predicate CompletionOk(c: Completion) {
      c.serial < |registered| && !Waiting(c.serial) && Answers(c, registered[c.serial])
    }

    ghost function Registered(item: AckItem): History {
      var n := |registered|;
      History(registered + [item], serials[item.token := n], completions,
              if item.token in serials then lost + {serials[item.token]} else lost)
    }

    ghost function Over(token: int, msg: Message): History
      requires token in serials
    {
      this.(serials := serials - {token}, completions := completions + [Completion(serials[token], msg)])
    }

    /** Nothing that has happened is undone. */
    ghost predicate Grew(h: History) {
      registered <= h.registered && completions <= h.completions && lost <= h.lost
    }
  }

  lemma NotBoth(h: History, n: nat)
    requires h.Inv()
    ensures !(h.Waiting(n) && h.Completed(n))
  {
    if h.Completed(n) {
      var i :| 0 <= i < |h.completions| && h.completions[i].serial == n;
      assert h.CompletionOk(h.completions[i]);
    }
  }

  lemma RegisteredKeeps(h: History, item: AckItem)
    requires h.Inv() && item.token == Token(|h.registered|)
    ensures h.Registered(item).Inv() && h.Grew(h.Registered(item))
  {
    var n := |h.registered|;
    var h' := h.Registered(item);
    forall k | 0 <= k < |h'.registered|
      ensures h'.registered[k].token == Token(k) && (h'.Waiting(k) || h'.Completed(k) || k in h'.lost)
    {
      if k < n {
        if h.Waiting(k) {
          assert Token(k) != item.token ==> h'.Waiting(k);
        } else if h.Completed(k) {
          var i :| 0 <= i < |h.completions| && h.completions[i].serial == k;
          assert h'.completions[i].serial == k;
        }
      } else {
        assert h'.Waiting(k);
      }
    }
    forall i | 0 <= i < |h'.completions|
      ensures h'.CompletionOk(h'.completions[i])
    {
      assert h.CompletionOk(h.completions[i]);
    }
    if item.token in h.serials {
      var over := h.serials[item.token];
      TokensRepeat(over, n);
      assert h.Waiting(over);
      NotBoth(h, over);
    }
    forall k | k in h'.lost
      ensures k + TOKENS <= |h'.registered| - 1 && !h'.Waiting(k) && !h'.Completed(k)
    {
      assert h'.Completed(k) <==> h.Completed(k);
    }
  }

  lemma CompletedSnoc(h: History, token: int, msg: Message, n: nat)
    requires token in h.serials
    ensures h.Over(token, msg).Completed(n) <==> h.Completed(n) || n == h.serials[token]
  {
    var h' := h.Over(token, msg);
    assert h'.completions[|h.completions|].serial == h.serials[token];
    assert forall i :: 0 <= i < |h.completions| ==> h'.completions[i] == h.completions[i];
  }

  lemma OverKeeps(h: History, token: int, msg: Message)
    requires h.Inv() && token in h.serials && Answers(Completion(h.serials[token], msg), h.registered[h.serials[token]])
    ensures h.Over(token, msg).Inv() && h.Grew(h.Over(token, msg))
  {
    var n := h.serials[token];
    var h' := h.Over(token, msg);
    assert h.Waiting(n);
    assert h'.completions[|h.completions|].serial == n;
    forall k | 0 <= k < |h'.registered|
      ensures h'.Waiting(k) || h'.Completed(k) || k in h'.lost
    {
      if h.Waiting(k) {
        assert k == n || h'.Waiting(k);
      } else if h.Completed(k) {
        var i :| 0 <= i < |h.completions| && h.completions[i].serial == k;
        assert h'.completions[i].serial == k;
      }
    }
    forall i | 0 <= i < |h'.completions|
      ensures h'.CompletionOk(h'.completions[i])
    {
      if i < |h.completions| { assert h.CompletionOk(h.completions[i]); }
    }
    forall k | k in h'.lost
      ensures !h'.Waiting(k) && !h'.Completed(k)
    {
      assert !h.Completed(k) && k != n;
      CompletedSnoc(h, token, msg, k);
    }
  }

  /** Below 2^31 - 1 requests no token is given twice and none is lost. */
  lemma NoneLost(h: History)
    requires h.Inv() && |h.registered| <= TOKENS
    ensures h.lost == {}
    ensures forall n, m :: 0 <= n < m < |h.registered| ==> h.registered[n].token != h.registered[m].token
    ensures forall n :: 0 <= n < |h.registered| ==> (h.Waiting(n) <==> !h.Completed(n))
  {
    forall n, m | 0 <= n < m < |h.registered|
      ensures h.registered[n].token != h.registered[m].token
    {
      TokensRepeat(n, m);
    }
    forall n | 0 <= n < |h.registered|
      ensures h.Waiting(n) <==> !h.Completed(n)
    {
      NotBoth(h, n);
    }
  }

  /** Exactly when a request is lost: a later one is registered while it waits and the numbers agree. */
  lemma LostIff(h: History, item: AckItem, n: nat)
    requires h.Inv() && n < |h.registered| && item.token == Token(|h.registered|) && n !in h.lost
    ensures n in h.Registered(item).lost <==> h.Waiting(n) && (|h.registered| - n) % TOKENS == 0
  {
    TokensRepeat(|h.registered|, n);
  }

  // ---- The pending table as a value ----

  /** n requests have been registered, and these are waiting. */
  datatype Pending = Pending(table: map<int, AckItem>, n: nat) {
    function Register(req: Request, now: int): Pending {
      Pending(table[Token(n) := AckItem(Token(n), req, Deadline(req, now))], n + 1)
    }

    function RegisterAll(reqs: seq<Request>, now: int): Pending
      decreases |reqs|
    {
      if reqs == [] then this else RegisterAll(reqs[..|reqs| - 1], now).Register(reqs[|reqs| - 1], now)
    }

    predicate Completes(m: Message) { m.kind == Ack && !m.timedOut && m.reqID in table }

    /** The message with the request it answers. */
    function Matched(m: Message): Message {
      if Completes(m) then m.(request := Some(table[m.reqID].req)) else m
    }

    function Without(m: Message): Pending {
      if Completes(m) then this.(table := table - {m.reqID}) else this
    }

    /** What a handler is given: nothing when there is none, or when an acknowledgement comes too late. */
    function Handed(m: Message, handlers: set<(Kind, uint32)>): Option<Message> {
      match m.kind
      case Unknown => None
      case SystemMessage => Some(m)
      case Ack => if (m.timedOut || m.reqID in table) && (Ack, m.messageID) in handlers then Some(Matched(m)) else None
      case _ => if (m.kind, m.messageID) in handlers then Some(m) else None
    }
  }

  /** An acknowledgement is good for one answer: the second copy is dropped, whatever else was registered between. */
  lemma SecondAckDropped(p: Pending, m: Message, handlers: set<(Kind, uint32)>, reqs: seq<Request>, now: int)
    requires m.kind == Ack && !m.timedOut && p.n + |reqs| <= TOKENS
    requires forall t :: t in p.table ==> exists k :: 0 <= k < p.n && t == Token(k)
    requires m.reqID in p.table
    ensures var q := p.Without(m).RegisterAll(reqs, now);
            q.Handed(m, handlers) == None && q.Without(m) == q
  {
    var k :| 0 <= k < p.n && m.reqID == Token(k);
    StaysOut(p.Without(m), m.reqID, k, reqs, now);
  }

  lemma {:induction false} StaysOut(p: Pending, t: int, k: nat, reqs: seq<Request>, now: int)
    requires k < p.n && t == Token(k) && t !in p.table && p.n + |reqs| <= TOKENS
    ensures t !in p.RegisterAll(reqs, now).table && p.RegisterAll(reqs, now).n == p.n + |reqs|
    decreases |reqs|
  {
    if reqs != [] {
      StaysOut(p, t, k, reqs[..|reqs| - 1], now);
      TokensRepeat(k, p.n + |reqs| - 1);
    }
  }

  // ---- What handlers are given ----

  function Acks(ms: seq<Message>): seq<Message>
    decreases |ms|
  {
    if ms == [] then [] else
    Acks(ms[..|ms| - 1]) + if ms[|ms| - 1].kind == Ack then [ms[|ms| - 1]] else []
  }

  /** Of acknowledgements, those for which there is a handler. */
  function Served(ms: seq<Message>, handlers: set<(Kind, uint32)>): seq<Message>
    decreases |ms|
  {
    if ms == [] then [] else
    Served(ms[..|ms| - 1], handlers) + if (Ack, ms[|ms| - 1].messageID) in handlers then [ms[|ms| - 1]] else []
  }

  function Answered(cs: seq<Completion>): (ms: seq<Message>)
    ensures |ms| == |cs| && forall i :: 0 <= i < |cs| ==> ms[i] == cs[i].msg
  {
    seq(|cs|, i requires 0 <= i < |cs| => cs[i].msg)
  }

  lemma AcksSnoc(ms: seq<Message>, m: Message)
    ensures Acks(ms + [m]) == Acks(ms) + if m.kind == Ack then [m] else []
  {
    assert (ms + [m])[..|ms|] == ms;
  }

  lemma ServedSnoc(ms: seq<Message>, m: Message, handlers: set<(Kind, uint32)>)
    ensures Served(ms + [m], handlers) == Served(ms, handlers) + if (Ack, m.messageID) in handlers then [m] else []
  {
    assert (ms + [m])[..|ms|] == ms;
  }

  lemma {:induction false} AcksAppend(a: seq<Message>, b: seq<Message>)
    ensures Acks(a + b) == Acks(a) + Acks(b)
    decreases |b|
  {
    if b == [] {
      assert a + b == a && Acks(b) == [];
    } else {
      hide Acks;
      var n := |b| - 1;
      LastApart(a, b);
      AcksAppend(a, b[..n]);
      AcksSnoc(a + b[..n], b[n]);
      AcksSnoc(b[..n], b[n]);
      Regrouped(Acks(a), Acks(b[..n]), if b[n].kind == Ack then [b[n]] else []);
    }
  }

  lemma {:induction false} ServedAppend(a: seq<Message>, b: seq<Message>, handlers: set<(Kind, uint32)>)
    ensures Served(a + b, handlers) == Served(a, handlers) + Served(b, handlers)
    decreases |b|
  {
    if b == [] {
      assert a + b == a && Served(b, handlers) == [];
    } else {
      hide Served;
      var n := |b| - 1;
      LastApart(a, b);
      ServedAppend(a, b[..n], handlers);
      ServedSnoc(a + b[..n], b[n], handlers);
      ServedSnoc(b[..n], b[n], handlers);
      Regrouped(Served(a, handlers), Served(b[..n], handlers),
                if (Ack, b[n].messageID) in handlers then [b[n]] else []);
    }
  }

  lemma {:induction false} AllAcks(ms: seq<Message>)
    requires forall m :: m in ms ==> m.kind == Ack
    ensures Acks(ms) == ms
    decreases |ms|
  {
    if ms != [] {
      var n := |ms| - 1;
      assert ms == ms[..n] + [ms[n]] && ms[n] in ms;
      AllAcks(ms[..n]);
    }
  }

  lemma {:induction false} ServedAreAcks(ms: seq<Message>, handlers: set<(Kind, uint32)>)
    requires forall m :: m in ms ==> m.kind == Ack
    ensures forall m :: m in Served(ms, handlers) ==> m.kind == Ack
    decreases |ms|
  {
    if ms != [] {
      var n := |ms| - 1;
      assert ms == ms[..n] + [ms[n]] && ms[n] in ms;
      ServedAreAcks(ms[..n], handlers);
    }
  }

  /** Between two moments, the acknowledgements handed to handlers are those of the requests completed, in order. */
  ghost predicate HandsOver(h: History, h': History, handed: seq<Message>, handlers: set<(Kind, uint32)>)
    requires h.Grew(h')
  {
    Acks(handed) == Served(Answered(h'.completions[|h.completions|..]), handlers)
  }

  lemma GrewTrans(a: History, b: History, c: History)
    requires a.Grew(b) && b.Grew(c)
    ensures a.Grew(c)
  {
  }

  lemma HandsOverTrans(a: History, b: History, c: History, ms: seq<Message>, ns: seq<Message>,
                       handlers: set<(Kind, uint32)>)
    requires a.Grew(b) && b.Grew(c) && HandsOver(a, b, ms, handlers) && HandsOver(b, c, ns, handlers)
    ensures a.Grew(c) && HandsOver(a, c, ms + ns, handlers)
  {
    hide Acks, Served, Answered;
    AcksAppend(ms, ns);
    var x, y := b.completions[|a.completions|..], c.completions[|b.completions|..];
    GrewTrans(a, b, c);
    assert c.completions[|a.completions|..] == x + y;
    assert Answered(x + y) == Answered(x) + Answered(y);
    ServedAppend(Answered(x), Answered(y), handlers);
  }

  lemma NothingHanded(h: History, h': History, handlers: set<(Kind, uint32)>)
    requires h.Grew(h') && h'.completions == h.completions
    ensures HandsOver(h, h', [], handlers)
  {
  }

  /** One completion, and its message handed over if there is a handler. */
  lemma OneHanded(h: History, h': History, c: Completion, handlers: set<(Kind, uint32)>)
    requires h.Grew(h') && h'.completions == h.completions + [c] && c.msg.kind == Ack
    ensures HandsOver(h, h', if (Ack, c.msg.messageID) in handlers then [c.msg] else [], handlers)
  {
    assert h'.completions[|h.completions|..] == [c];
    assert Answered([c]) == [c.msg] == [] + [c.msg];
    ServedSnoc([], c.msg, handlers);
    AcksSnoc([], c.msg);
  }

  /** A message that completes nothing hands no acknowledgement over. */
  lemma NoAckHanded(h: History, h': History, handed: seq<Message>, handlers: set<(Kind, uint32)>)
    requires h.Grew(h') && h'.completions == h.completions && |handed| <= 1 && forall m :: m in handed ==> m.kind != Ack
    ensures HandsOver(h, h', handed, handlers)
  {
    if handed != [] {
      assert handed == [] + [handed[0]] && handed[0] in handed;
    }
  }

  /** The same history, except for requests registered. */
  lemma HandsOverLater(h: History, h': History, h'': History, handed: seq<Message>, handlers: set<(Kind, uint32)>)
    requires h.Grew(h') && h'.Grew(h'') && h''.completions == h'.completions && HandsOver(h, h', handed, handlers)
    ensures h.Grew(h'') && HandsOver(h, h'', handed, handlers)
  {
  }

  // ---- Messages that are no acknowledgements ----

  /** Of what handlers are given, all but the acknowledgements. */
  function Others(ms: seq<Message>): seq<Message>
    decreases |ms|
  {
    if ms == [] then [] else
    Others(ms[..|ms| - 1]) + if ms[|ms| - 1].kind == Ack then [] else [ms[|ms| - 1]]
  }

  /** Of what is received, the system messages, and the simple messages and requests for which there is a handler. */
  function Wanted(ms: seq<Message>, handlers: set<(Kind, uint32)>): seq<Message>
    decreases |ms|
  {
    if ms == [] then [] else
    Wanted(ms[..|ms| - 1], handlers) + if Picked(ms[|ms| - 1], handlers) then [ms[|ms| - 1]] else []
  }

  predicate Picked(m: Message, handlers: set<(Kind, uint32)>) {
    || m.kind == SystemMessage
    || (m.kind in {SimpleMessage, RequestMessage} && (m.kind, m.messageID) in handlers)
  }

  lemma WantedSnoc(ms: seq<Message>, m: Message, handlers: set<(Kind, uint32)>)
    ensures Wanted(ms + [m], handlers) == Wanted(ms, handlers) + if Picked(m, handlers) then [m] else []
  {
    assert (ms + [m])[..|ms|] == ms;
  }

  lemma OthersSnoc(ms: seq<Message>, m: Message)
    ensures Others(ms + [m]) == Others(ms) + if m.kind == Ack then [] else [m]
  {
    assert (ms + [m])[..|ms|] == ms;
  }

  lemma {:induction false} OthersAppend(a: seq<Message>, b: seq<Message>)
    ensures Others(a + b) == Others(a) + Others(b)
    decreases |b|
  {
    if b == [] {
      assert a + b == a && Others(b) == [];
    } else {
      hide Others;
      var n := |b| - 1;
      LastApart(a, b);
      OthersAppend(a, b[..n]);
      OthersSnoc(a + b[..n], b[n]);
      OthersSnoc(b[..n], b[n]);
      Regrouped(Others(a), Others(b[..n]), if b[n].kind == Ack then [] else [b[n]]);
    }
  }

  lemma {:induction false} WantedAppend(a: seq<Message>, b: seq<Message>, handlers: set<(Kind, uint32)>)
    ensures Wanted(a + b, handlers) == Wanted(a, handlers) + Wanted(b, handlers)
    decreases |b|
  {
    if b == [] {
      assert a + b == a && Wanted(b, handlers) == [];
    } else {
      hide Wanted, Picked;
      var n := |b| - 1;
      LastApart(a, b);
      WantedAppend(a, b[..n], handlers);
      WantedSnoc(a + b[..n], b[n], handlers);
      WantedSnoc(b[..n], b[n], handlers);
      Regrouped(Wanted(a, handlers), Wanted(b[..n], handlers), if Picked(b[n], handlers) then [b[n]] else []);
    }
  }

  lemma {:induction false} NoOthers(ms: seq<Message>, handlers: set<(Kind, uint32)>)
    requires forall m :: m in ms ==> m.kind == Ack
    ensures Wanted(ms, handlers) == []
    decreases |ms|
  {
    if ms != [] {
      var n := |ms| - 1;
      assert ms == ms[..n] + [ms[n]] && ms[n] in ms;
      NoOthers(ms[..n], handlers);
    }
  }

  // ---- Which requests a round registers ----

  /** These requests, and no others, have been registered since, in order, each due after its timeout in seconds. */
  ghost predicate RegisteredFor(h0: History, h1: History, reqs: seq<Request>, now: int) {
    && |h1.registered| == |h0.registered| + |reqs| && h0.registered <= h1.registered
    && forall k :: 0 <= k < |reqs| ==>
         var item := h1.registered[|h0.registered| + k];
         item.req == reqs[k] && item.time == now + 1000 * reqs[k].timeout
  }

  lemma RegisteredTrans(h0: History, h1: History, h2: History, a: seq<Request>, b: seq<Request>, now: int)
    requires RegisteredFor(h0, h1, a, now) && RegisteredFor(h1, h2, b, now)
    ensures RegisteredFor(h0, h2, a + b, now)
  {
    var n := |h0.registered|;
    forall k | 0 <= k < |a + b|
      ensures h2.registered[n + k].req == (a + b)[k] && h2.registered[n + k].time == now + 1000 * (a + b)[k].timeout
    {
      if k < |a| {
        assert h2.registered[n + k] == h1.registered[n + k];
      } else {
        assert h2.registered[n + k] == h2.registered[|h1.registered| + (k - |a|)];
      }
    }
  }

  lemma NoneRegistered(h0: History, h1: History, now: int)
    requires h1.registered == h0.registered
    ensures RegisteredFor(h0, h1, [], now)
  {
  }

  // ---- Which requests a round completes ----

  /** One of the messages is the acknowledgement that carries this token. */
  ghost predicate AckedIn(ms: seq<Message>, token: int) {
    exists i :: 0 <= i < |ms| && ms[i].kind == Ack && !ms[i].timedOut && ms[i].reqID == token
  }

  lemma AckedInSnoc(ms: seq<Message>, m: Message, token: int)
    ensures AckedIn(ms + [m], token)
            <==> AckedIn(ms, token) || (m.kind == Ack && !m.timedOut && m.reqID == token)
  {
    var s := ms + [m];
    if AckedIn(ms, token) {
      var i :| 0 <= i < |ms| && ms[i].kind == Ack && !ms[i].timedOut && ms[i].reqID == token;
      assert s[i] == ms[i];
    }
    assert s[|ms|] == m;
  }

  /** Of the requests waiting, exactly those acknowledged are completed; the others go on waiting, unless one sent
      meanwhile has been given the same token. */
  ghost predicate AckedOnly(h0: History, h1: History, ms: seq<Message>) {
    forall n :: h0.Waiting(n) ==>
      if AckedIn(ms, Token(n)) then h1.Completed(n) || n in h1.lost else h1.Waiting(n) || n in h1.lost
  }

  /** A request completed by an acknowledgement gets that message, and the request with it. */
  ghost predicate AnsweredBy(h: History, c: Completion, ms: seq<Message>) {
    exists i :: 0 <= i < |ms| && ms[i].kind == Ack && !ms[i].timedOut && ms[i].reqID == Token(c.serial)
                && c.serial < |h.registered| && c.msg == ms[i].(request := Some(h.registered[c.serial].req))
  }

  ghost predicate Sourced(h0: History, h1: History, ms: seq<Message>) {
    forall k :: |h0.completions| <= k < |h1.completions| ==> AnsweredBy(h1, h1.completions[k], ms)
  }

  lemma SourcedMore(h0: History, h1: History, h2: History, ms: seq<Message>, m: Message)
    requires Sourced(h0, h1, ms) && h1.Grew(h2)
    requires forall k :: |h1.completions| <= k < |h2.completions| ==> AnsweredBy(h2, h2.completions[k], [m])
    ensures Sourced(h0, h2, ms + [m])
  {
    var s := ms + [m];
    forall k | |h0.completions| <= k < |h2.completions|
      ensures AnsweredBy(h2, h2.completions[k], s)
    {
      var c := h2.completions[k];
      if k < |h1.completions| {
        assert c == h1.completions[k] && AnsweredBy(h1, c, ms);
        var i :| 0 <= i < |ms| && ms[i].kind == Ack && !ms[i].timedOut && ms[i].reqID == Token(c.serial)
                 && c.serial < |h1.registered| && c.msg == ms[i].(request := Some(h1.registered[c.serial].req));
        assert s[i] == ms[i];
      } else {
        assert s[|ms|] == m;
      }
    }
  }

  lemma StillOpen(h: History, h': History, n: nat)
    requires h.Inv() && h'.Inv() && h.Grew(h') && h'.completions == h.completions && h.Waiting(n)
    ensures h'.Waiting(n) || n in h'.lost
  {
    NotBoth(h, n);
  }

  lemma OneAcked(h0: History, h: History, h': History, ms: seq<Message>, m: Message, token: int, msg: Message)
    requires h.Inv() && AckedOnly(h0, h, ms) && h'.Inv() && h.Grew(h')
    requires m.kind == Ack && !m.timedOut && m.reqID == token && token in h.serials
    requires h'.completions == h.Over(token, msg).completions
    ensures AckedOnly(h0, h', ms + [m])
  {
    forall n | h0.Waiting(n)
      ensures if AckedIn(ms + [m], Token(n)) then h'.Completed(n) || n in h'.lost else h'.Waiting(n) || n in h'.lost
    {
      AckedInSnoc(ms, m, Token(n));
      CompletedSnoc(h, token, msg, n);
      assert h'.Completed(n) <==> h.Over(token, msg).Completed(n);
      if h.Waiting(n) {
        NotBoth(h, n);
        assert Token(n) == token <==> n == h.serials[token];
      }
    }
  }

  lemma NoneAcked(h0: History, h: History, h': History, ms: seq<Message>, m: Message)
    requires h.Inv() && AckedOnly(h0, h, ms) && h'.Inv() && h.Grew(h') && h'.completions == h.completions
    requires m.kind == Ack && !m.timedOut ==> m.reqID !in h.serials
    ensures AckedOnly(h0, h', ms + [m])
  {
    forall n | h0.Waiting(n)
      ensures if AckedIn(ms + [m], Token(n)) then h'.Completed(n) || n in h'.lost else h'.Waiting(n) || n in h'.lost
    {
      AckedInSnoc(ms, m, Token(n));
      if h.Waiting(n) { StillOpen(h, h', n); }
      assert h'.Completed(n) <==> h.Completed(n);
    }
  }

  /** Both, after some messages of a queue. */
  ghost predicate Tracked(h0: History, h: History, ms: seq<Message>) {
    AckedOnly(h0, h, ms) && Sourced(h0, h, ms)
  }

  lemma TrackedStart(h: History)
    ensures Tracked(h, h, [])
  {
  }

  lemma OneTracked(h0: History, h: History, h': History, ms: seq<Message>, m: Message, msg: Message)
    requires h.Inv() && Tracked(h0, h, ms) && h'.Inv() && h.Grew(h')
    requires m.kind == Ack && !m.timedOut && m.reqID in h.serials
    requires msg == m.(request := Some(h.registered[h.serials[m.reqID]].req))
    requires h'.completions == h.Over(m.reqID, msg).completions
    ensures Tracked(h0, h', ms + [m])
  {
    OneAcked(h0, h, h', ms, m, m.reqID, msg);
    forall k | |h.completions| <= k < |h'.completions|
      ensures AnsweredBy(h', h'.completions[k], [m])
    {
      assert [m][0].reqID == Token(h'.completions[k].serial);
    }
    SourcedMore(h0, h, h', ms, m);
  }

  lemma NoneTracked(h0: History, h: History, h': History, ms: seq<Message>, m: Message)
    requires h.Inv() && Tracked(h0, h, ms) && h'.Inv() && h.Grew(h') && h'.completions == h.completions
    requires m.kind == Ack && !m.timedOut ==> m.reqID !in h.serials
    ensures Tracked(h0, h', ms + [m])
  {
    NoneAcked(h0, h, h', ms, m);
    SourcedMore(h0, h, h', ms, m);
  }

  /** A sweep completes exactly the requests waiting past their deadline; the others go on waiting, unless a handler
      that ran has sent a request with the same token. */
  ghost predicate SweepOnly(h0: History, before: map<int, AckItem>, h1: History, now: int) {
    forall n :: h0.Waiting(n) && Token(n) in before ==>
      if now >= before[Token(n)].time then h1.Completed(n) else h1.Waiting(n) || n in h1.lost
  }

  /** A round: the requests past their deadline when the sweep is due, then those acknowledged, and no others. */
  ghost predicate EndsExactly(h0: History, h1: History, ms: seq<Message>, due: bool, now: int) {
    forall n: nat :: h0.Waiting(n) && n < |h0.registered| ==>
      if due && now >= h0.registered[n].time then h1.Completed(n)
      else if AckedIn(ms, Token(n)) then h1.Completed(n) || n in h1.lost
      else h1.Waiting(n) || n in h1.lost
  }

  /** What a request is completed with: an acknowledgement of the queue, or a timeout made for it. */
  ghost predicate SourcedOrLate(h0: History, h1: History, ms: seq<Message>, due: bool, now: int) {
    forall k :: |h0.completions| <= k < |h1.completions| ==>
      var c := h1.completions[k];
      AnsweredBy(h1, c, ms) || (due && LateBy(h1, c, now))
  }

  ghost predicate AllLate(h0: History, h1: History, now: int) {
    forall k :: |h0.completions| <= k < |h1.completions| ==> LateBy(h1, h1.completions[k], now)
  }

  lemma LateThenTracked(h0: History, h1: History, h2: History, ms: seq<Message>, due: bool, now: int)
    requires h0.Grew(h1) && h1.Grew(h2) && Tracked(h1, h2, ms) && (if due then AllLate(h0, h1, now) else h1 == h0)
    ensures SourcedOrLate(h0, h2, ms, due, now)
  {
    forall k | |h0.completions| <= k < |h1.completions|
      ensures due && LateBy(h2, h2.completions[k], now)
    {
      assert LateBy(h1, h1.completions[k], now);
    }
    hide AnsweredBy, LateBy, AckedOnly;
  }

  ghost predicate LateBy(h: History, c: Completion, now: int) {
    && c.serial < |h.registered| && now >= h.registered[c.serial].time
    && var req := h.registered[c.serial].req;
       c.msg == Message(Ack, req.messageID, 0, true, Some(req), req.channelID, req.loopIndex)
  }

  lemma RoundEnds(h0: History, before: map<int, AckItem>, h1: History, h2: History, ms: seq<Message>, due: bool,
                  now: int)
    requires h0.Grew(h1) && h1.Grew(h2) && AckedOnly(h1, h2, ms) && before.Keys == h0.serials.Keys
    requires forall t :: t in before ==> h0.serials[t] < |h0.registered| && before[t] == h0.registered[h0.serials[t]]
    requires if due then SweepOnly(h0, before, h1, now) else h1 == h0
    ensures EndsExactly(h0, h2, ms, due, now)
  {
    hide AckedIn;
    forall n: nat | h0.Waiting(n)
      ensures Token(n) in before && n < |h0.registered| && before[Token(n)] == h0.registered[n]
    {
      assert Token(n) in before.Keys;
    }
    forall n | h1.Completed(n)
      ensures h2.Completed(n)
    {
      var i :| 0 <= i < |h1.completions| && h1.completions[i].serial == n;
      assert h2.completions[i].serial == n;
    }
    hide Token;
  }

  function TimesDone(cs: seq<Completion>, n: nat): nat
    decreases |cs|
  {
    if cs == [] then 0 else
    TimesDone(cs[..|cs| - 1], n) + if cs[|cs| - 1].serial == n then 1 else 0
  }

  lemma {:induction false} DoneOnce(cs: seq<Completion>, n: nat)
    requires forall i, j :: 0 <= i < j < |cs| ==> cs[i].serial != cs[j].serial
    ensures TimesDone(cs, n) <= 1 && (TimesDone(cs, n) == 1 <==> exists i :: 0 <= i < |cs| && cs[i].serial == n)
    decreases |cs|
  {
    if cs != [] {
      var m := |cs| - 1;
      DoneOnce(cs[..m], n);
      if TimesDone(cs[..m], n) == 1 {
        var i :| 0 <= i < m && cs[..m][i].serial == n;
        assert cs[i].serial == n;
      }
      if i :| 0 <= i < m && cs[i].serial == n {
        assert cs[..m][i].serial == n;
      }
    }
  }

  /** A request is answered or timed out at most once, and not again after that. */
  lemma HandedOnce(h: History, h': History, n: nat)
    requires h.Grew(h') && h'.Inv()
    ensures TimesDone(h'.completions[|h.completions|..], n) <= if h.Completed(n) then 0 else 1
  {
    var more := h'.completions[|h.completions|..];
    DoneOnce(more, n);
    if h.Completed(n) {
      var i :| 0 <= i < |h.completions| && h.completions[i].serial == n;
      forall j | 0 <= j < |more|
        ensures more[j].serial != n
      {
        assert h'.completions[i].serial != h'.completions[|h.completions| + j].serial;
      }
    }
  }

  // ---- The dispatcher ----

  class DispatchBase {
    /** The handlers installed, by kind and message. */
    const handlers: set<(Kind, uint32)>
    /** The requests a handler sends out when it is given a message. */
    const sends: Message -> seq<Request>
    var m_deque: seq<Message>
    var m_timeOut: map<int, AckItem>
    var m_token: int32
    var m_timeNow: int
    ghost var h: History

    ghost predicate Valid()
      reads this
    {
      && (forall m :: m in m_deque ==> !m.timedOut)
      && h.Inv() && Counter(m_token, |h.registered|) && m_timeOut.Keys == h.serials.Keys
      && forall t :: t in m_timeOut ==> h.serials[t] < |h.registered| && m_timeOut[t] == h.registered[h.serials[t]]
    }

    constructor (handlers: set<(Kind, uint32)>, sends: Message -> seq<Request>)
      ensures Valid() && m_timeOut == map[] && m_deque == [] && m_timeNow == 0
      ensures h == History([], map[], [], {}) && this.handlers == handlers && this.sends == sends
    {
      this.handlers, this.sends := handlers, sends;
      m_deque, m_timeOut, m_token, m_timeNow := [], map[], 1, 0;
      h := History([], map[], [], {});
    }

    method GetToken(ghost n: nat) returns (tmp: int32)
      requires Counter(m_token, n)
      modifies this`m_token
      ensures tmp == Token(n) && Counter(m_token, n + 1)
    {
      tmp := m_token;
      m_token := if m_token == 0x7FFF_FFFF then -0x8000_0000 else m_token + 1;
      if tmp < 0 {
        m_token := 1;
        tmp := m_token;
        m_token := m_token + 1;
      }
    }

    /** AddAckTimeOut. */
    method AddAckTimeOut(req: Request, now: int) returns (reqID: int32)
      requires Valid()
      modifies this`m_token, this`m_timeOut, this`h
      ensures Valid() && reqID == Token(|old(h).registered|)
      ensures h == old(h).Registered(AckItem(reqID, req, Deadline(req, now)))
      ensures m_timeOut == old(m_timeOut)[reqID := AckItem(reqID, req, Deadline(req, now))]
    {
      hide Token, Counter, History.Inv;
      reqID := GetToken(|h.registered|);
      var item := AckItem(reqID, req, Deadline(req, now));
      RegisteredKeeps(h, item);
      m_timeOut := m_timeOut[reqID := item];
      h := h.Registered(item);
    }

    /** DelAckTimeOut: the request the token was given to, if it is still waiting. */
    method DelAckTimeOut(message: Message) returns (req: Option<Request>)
      requires Valid() && message.kind == Ack && !message.timedOut
      modifies this`m_timeOut, this`h
      ensures Valid() && m_timeOut == old(m_timeOut) - {message.reqID}
      ensures req == if message.reqID in old(m_timeOut) then Some(old(m_timeOut)[message.reqID].req) else None
      ensures h == if message.reqID in old(m_timeOut) then old(h).Over(message.reqID, message.(request := req))
                   else old(h)
    {
      hide Counter;
      var token: int := message.reqID;
      if token !in m_timeOut {
        return None;
      }
      req := Some(m_timeOut[token].req);
      OverKeeps(h, token, message.(request := req));
      hide History.Inv;
      m_timeOut := m_timeOut - {token};
      h := h.Over(token, message.(request := req));
    }

    ghost function Now(): Pending
      reads this`m_timeOut, this`h
    {
      Pending(m_timeOut, |h.registered|)
    }

    /** Dispatch, up to the call of the handler: an acknowledgement completes the request it names; one that names
        none is dropped without a trace. */
    method Dispatch(message: Message) returns (handed: Option<Message>)
      requires Valid()
      modifies this`m_timeOut, this`h
      ensures Valid() && handed == old(Now()).Handed(message, handlers) && Now() == old(Now()).Without(message)
      ensures h == if old(Now()).Completes(message) then old(h).Over(message.reqID, old(Now()).Matched(message))
                   else old(h)
      ensures !message.timedOut ==> old(h).Grew(h) && HandsOver(old(h), h, Opt(handed), handlers)
      ensures message.kind == SystemMessage ==> handed == Some(message)
      ensures message.kind in {SimpleMessage, RequestMessage} ==>
                handed == if (message.kind, message.messageID) in handlers then Some(message) else None
    {
      hide History.Inv, Counter, HandsOver;
      if !message.timedOut { HandingOver(message); }
      if message.kind.Unknown? {
        return None;
      }
      if message.kind.SystemMessage? {
        return Some(message);
      }
      var m := message;
      if message.kind.Ack? && !message.timedOut {
        var req := DelAckTimeOut(message);
        if req.None? {
          return None;
        }
        m := message.(request := req);
      }
      handed := if (m.kind, m.messageID) in handlers then Some(m) else None;
    }

    static function Opt(m: Option<Message>): seq<Message> { if m.Some? then [m.value] else [] }

    lemma HandingOver(message: Message)
      requires Valid() && !message.timedOut
      ensures var h' := if Now().Completes(message) then h.Over(message.reqID, Now().Matched(message)) else h;
              h.Grew(h') && HandsOver(h, h', Opt(Now().Handed(message, handlers)), handlers)
    {
      if Now().Completes(message) {
        var h' := h.Over(message.reqID, Now().Matched(message));
        OneHanded(h, h', Completion(h.serials[message.reqID], Now().Matched(message)), handlers);
      } else {
        NoAckHanded(h, h, Opt(Now().Handed(message, handlers)), handlers);
      }
    }

    /** The handler runs and sends its requests. */
    method Handle(message: Message, now: int)
      requires Valid()
      modifies this`m_token, this`m_timeOut, this`h
      ensures Valid() && old(h).Grew(h) && h.completions == old(h).completions
      ensures Now() == old(Now()).RegisterAll(sends(message), now)
      ensures RegisteredFor(old(h), h, sends(message), now)
    {
      hide History.Inv, Counter, Token;
      var reqs := sends(message);
      var i := 0;
      ghost var p := Now();
      assert reqs[..0] == [];
      while i < |reqs|
        invariant 0 <= i <= |reqs| && Valid() && old(h).Grew(h) && h.completions == old(h).completions
        invariant Now() == p.RegisterAll(reqs[..i], now) && RegisteredFor(old(h), h, reqs[..i], now)
      {
        assert reqs[..i + 1][..i] == reqs[..i];
        var reqID := AddAckTimeOut(reqs[i], now);
        i := i + 1;
      }
      assert reqs[..i] == reqs;
    }

    /** What the handlers of some messages send. */
    function AllSent(ms: seq<Message>): seq<Request>
      decreases |ms|
    {
      if ms == [] then [] else AllSent(ms[..|ms| - 1]) + sends(ms[|ms| - 1])
    }

    lemma AllSentSnoc(ms: seq<Message>, m: Message)
      ensures AllSent(ms + [m]) == AllSent(ms) + sends(m)
    {
      assert (ms + [m])[..|ms|] == ms;
    }

    lemma {:induction false} AllSentAppend(a: seq<Message>, b: seq<Message>)
      ensures AllSent(a + b) == AllSent(a) + AllSent(b)
      decreases |b|
    {
      if b == [] {
        assert a + b == a && AllSent(b) == [];
      } else {
        hide AllSent;
        var n := |b| - 1;
        LastApart(a, b);
        AllSentAppend(a, b[..n]);
        AllSentSnoc(a + b[..n], b[n]);
        AllSentSnoc(b[..n], b[n]);
        Regrouped(AllSent(a), AllSent(b[..n]), sends(b[n]));
      }
    }

    /** One message after the other, each handler sending before the next message is looked at. */
    function TakeAll(p: Pending, ms: seq<Message>, now: int): (Pending, seq<Message>)
      decreases |ms|
    {
      if ms == [] then (p, []) else
      var (q, handed) := TakeAll(p, ms[..|ms| - 1], now);
      var m := ms[|ms| - 1];
      match q.Handed(m, handlers)
      case None => (q.Without(m), handed)
      case Some(x) => (q.Without(m).RegisterAll(sends(x), now), handed + [x])
    }

    /** The loop over a queue of messages. Of those received, the handlers are given the answers that complete a
        request; timeouts of the sweep go to their handlers and complete nothing more. */
    method TakeEach(ms: seq<Message>, now: int) returns (handed: seq<Message>)
      requires Valid()
      modifies this`m_token, this`m_timeOut, this`h
      ensures Valid() && old(h).Grew(h) && (Now(), handed) == TakeAll(old(Now()), ms, now)
      ensures Tracked(old(h), h, ms) && Others(handed) == Wanted(ms, handlers)
      ensures RegisteredFor(old(h), h, AllSent(handed), now)
      ensures (forall m :: m in ms ==> !m.timedOut) ==> HandsOver(old(h), h, handed, handlers)
      ensures (forall m :: m in ms ==> m.kind == Ack && m.timedOut) ==>
                h.completions == old(h).completions && handed == Served(ms, handlers)
    {
      hide History.Inv, Counter, HandsOver, Tracked, RegisteredFor, TakeAll, AllSent, Served, Pending.Handed;
      handed := [];
      var i := 0;
      ghost var p, received, timeouts := Now(), forall m :: m in ms ==> !m.timedOut,
                                         forall m :: m in ms ==> m.kind == Ack && m.timedOut;
      NoneTaken(p, ms, h, now);
      while i < |ms|
        invariant 0 <= i <= |ms| && Valid() && old(h).Grew(h)
        invariant (Now(), handed) == TakeAll(p, ms[..i], now) && Tracked(old(h), h, ms[..i])
        invariant RegisteredFor(old(h), h, AllSent(handed), now)
        invariant received ==> HandsOver(old(h), h, handed, handlers)
        invariant timeouts ==> h.completions == old(h).completions && handed == Served(ms[..i], handlers)
      {
        assert ms[i] in ms;
        OneTaken(p, ms, i, now);
        handed := TakeOne(ms[i], handed, old(h), ms[..i], now);
        i := i + 1;
      }
      assert ms[..i] == ms;
      TakeAllOthers(p, ms, now);
    }

    lemma NoneTaken(p: Pending, ms: seq<Message>, h: History, now: int)
      ensures TakeAll(p, ms[..0], now) == (p, []) && Served(ms[..0], handlers) == []
      ensures Tracked(h, h, ms[..0]) && RegisteredFor(h, h, AllSent([]), now) && HandsOver(h, h, [], handlers)
    {
      TrackedStart(h);
      NoneRegistered(h, h, now);
      NothingHanded(h, h, handlers);
    }

    /** One message more of a queue. */
    lemma OneTaken(p: Pending, ms: seq<Message>, i: nat, now: int)
      requires i < |ms|
      ensures ms[..i] + [ms[i]] == ms[..i + 1]
      ensures var (q, handed) := TakeAll(p, ms[..i], now);
              var out := q.Handed(ms[i], handlers);
              && TakeAll(p, ms[..i + 1], now)
                 == (if out.Some? then q.Without(ms[i]).RegisterAll(sends(out.value), now) else q.Without(ms[i]),
                     handed + Opt(out))
              && (ms[i].kind == Ack && ms[i].timedOut ==>
                    Served(ms[..i + 1], handlers) == Served(ms[..i], handlers) + Opt(out))
    {
      assert ms[..i + 1][..i] == ms[..i];
      hide Pending.RegisterAll;
      var (q, handed) := TakeAll(p, ms[..i], now);
      assert handed + [] == handed;
    }

    /** However requests are answered meanwhile, the other messages go to their handlers one by one. */
    lemma {:induction false} TakeAllOthers(p: Pending, ms: seq<Message>, now: int)
      ensures Others(TakeAll(p, ms, now).1) == Wanted(ms, handlers)
      decreases |ms|
    {
      if ms != [] {
        var n := |ms| - 1;
        TakeAllOthers(p, ms[..n], now);
        var (q, handed) := TakeAll(p, ms[..n], now);
        match q.Handed(ms[n], handlers)
        case None =>
        case Some(x) => OthersSnoc(handed, x);
      }
    }

    /** One message of the queue. */
    method TakeOne(m: Message, handed: seq<Message>, ghost h0: History, ghost before: seq<Message>, now: int)
      returns (handed': seq<Message>)
      requires Valid() && h0.Grew(h)
      modifies this`m_token, this`m_timeOut, this`h
      ensures Valid() && h0.Grew(h)
      ensures var out := old(Now()).Handed(m, handlers);
              && handed' == handed + Opt(out)
              && Now() == if out.Some? then old(Now()).Without(m).RegisterAll(sends(out.value), now)
                          else old(Now()).Without(m)
      ensures !m.timedOut && HandsOver(h0, old(h), handed, handlers) ==> HandsOver(h0, h, handed', handlers)
      ensures m.timedOut ==> h.completions == old(h).completions
      ensures Tracked(h0, old(h), before) ==> Tracked(h0, h, before + [m])
      ensures RegisteredFor(h0, old(h), AllSent(handed), now) ==> RegisteredFor(h0, h, AllSent(handed'), now)
    {
      hide History.Inv, Counter, HandsOver, Tracked, RegisteredFor;
      ghost var p := Now();
      InvHolds();
      MatchedIs(m);
      ghost var h1 := h;
      var out := Dispatch(m);
      ghost var h2 := h;
      handed' := handed + Opt(out);
      if !m.timedOut && HandsOver(h0, h1, handed, handlers) {
        HandsOverTrans(h0, h1, h2, handed, Opt(out), handlers);
      }
      GrewTrans(h0, h1, h2);
      if out.Some? {
        Handle(out.value, now);
        GrewTrans(h0, h2, h);
        AllSentSnoc(handed, out.value);
        if !m.timedOut && HandsOver(h0, h1, handed, handlers) {
          HandsOverLater(h0, h2, h, handed', handlers);
        }
      }
      InvHolds();
      NoneRegistered(h1, h2, now);
      if RegisteredFor(h0, h1, AllSent(handed), now) {
        RegisteredTrans(h0, h1, h2, AllSent(handed), [], now);
        assert AllSent(handed) + [] == AllSent(handed) && handed + [] == handed;
        if out.Some? {
          RegisteredTrans(h0, h2, h, AllSent(handed), sends(out.value), now);
        }
      }
      if Tracked(h0, h1, before) {
        if p.Completes(m) {
          OneTracked(h0, h1, h, before, m, p.Matched(m));
        } else {
          NoneTracked(h0, h1, h, before, m);
        }
      }
    }

    lemma InvHolds()
      requires Valid()
      ensures h.Inv()
    {
    }

    lemma MatchedIs(m: Message)
      requires Valid()
      ensures Now().Completes(m) <==> m.kind == Ack && !m.timedOut && m.reqID in h.serials
      ensures Now().Completes(m) ==>
                h.serials[m.reqID] < |h.registered|
                && Now().Matched(m) == m.(request := Some(h.registered[h.serials[m.reqID]].req))
    {
      assert m.reqID in m_timeOut.Keys <==> m.reqID in h.serials.Keys;
    }

    /** The tokens a sweep takes out, in order. */
    ghost predicate Swept(tokens: seq<int>, before: map<int, AckItem>, now: int) {
      && (forall i :: 0 <= i < |tokens| ==> tokens[i] in before && now >= before[tokens[i]].time)
      && (forall t :: t in before && now >= before[t].time ==> t in tokens)
      && (forall i, j :: 0 <= i < j < |tokens| ==> tokens[i] < tokens[j])
    }

    /** The sweep has visited every entry but those in todo. */
    ghost predicate Halfway(before: map<int, AckItem>, table: map<int, AckItem>, now: int, todo: set<int>,
                            tokens: seq<int>, made: seq<Message>) {
      && todo <= table.Keys && |made| == |tokens|
      && (forall t :: t in table <==> t in before && (t in todo || now < before[t].time))
      && (forall t :: t in table ==> table[t] == before[t])
      && (forall t :: t in before && now >= before[t].time && t !in todo ==> t in tokens)
      && (forall i :: 0 <= i < |tokens| ==>
            && tokens[i] in before && now >= before[tokens[i]].time
            && forall x :: x in todo ==> tokens[i] < x)
      && (forall i, j :: 0 <= i < j < |tokens| ==> tokens[i] < tokens[j])
      && (forall i :: 0 <= i < |tokens| ==> made[i] == TimeoutOf(before[tokens[i]].req))
    }

    static lemma LeastFacts(todo: set<int>, t: int)
      requires Least(t, todo)
      ensures t in todo && forall x :: x in todo - {t} ==> t < x
    {
    }

    lemma HalfwayStep(before: map<int, AckItem>, table: map<int, AckItem>, now: int, todo: set<int>, tokens: seq<int>,
                      made: seq<Message>, t: int)
      requires Halfway(before, table, now, todo, tokens, made) && Least(t, todo)
      ensures t in table
      ensures if now >= table[t].time
              then Halfway(before, table - {t}, now, todo - {t}, tokens + [t], made + [TimeoutOf(table[t].req)])
              else Halfway(before, table, now, todo - {t}, tokens, made)
    {
      hide Least, TimeoutOf;
      LeastFacts(todo, t);
      assert t in table;
      if now >= table[t].time {
        var tokens' := tokens + [t];
        assert forall x :: x in tokens ==> x in tokens';
        assert t == tokens'[|tokens|];
      }
    }

    /** What the sweep has completed so far. */
    ghost predicate Recorded(h0: History, h1: History, tokens: seq<int>, made: seq<Message>) {
      && |made| == |tokens|
      && h0.Grew(h1) && h1.registered == h0.registered && h1.lost == h0.lost
      && (forall t :: t in h1.serials ==> t in h0.serials && h1.serials[t] == h0.serials[t])
      && |h1.completions| == |h0.completions| + |tokens|
      && (forall i :: 0 <= i < |tokens| ==> tokens[i] in h0.serials)
      && forall i :: 0 <= i < |tokens| ==>
           h1.completions[|h0.completions| + i] == Completion(h0.serials[tokens[i]], made[i])
    }

    lemma RecordedStep(h0: History, h1: History, tokens: seq<int>, made: seq<Message>, t: int, m: Message)
      requires Recorded(h0, h1, tokens, made) && t in h1.serials
      ensures Recorded(h0, h1.Over(t, m), tokens + [t], made + [m])
    {
    }

    lemma SweepStarts(now: int)
      ensures Halfway(m_timeOut, m_timeOut, now, m_timeOut.Keys, [], []) && Recorded(h, h, [], [])
    {
    }

    lemma SweepEnds(before: map<int, AckItem>, table: map<int, AckItem>, now: int, tokens: seq<int>, made: seq<Message>)
      requires Halfway(before, table, now, {}, tokens, made)
      ensures Swept(tokens, before, now) && |made| == |tokens|
      ensures forall t :: t in table <==> t in before && now < before[t].time
      ensures forall t :: t in table ==> table[t] == before[t]
      ensures forall i :: 0 <= i < |tokens| ==> made[i] == TimeoutOf(before[tokens[i]].req)
    {
    }

    /** The loop over the pending table: the entries whose deadline has passed, and only those, are completed by a
        timeout each, in the order of their tokens. */
    method Sweep(now: int) returns (tTimeOut: seq<Message>, ghost tokens: seq<int>)
      requires Valid()
      modifies this`m_timeOut, this`h
      ensures Valid() && Swept(tokens, old(m_timeOut), now) && |tTimeOut| == |tokens|
      ensures forall t :: t in m_timeOut <==> t in old(m_timeOut) && now < old(m_timeOut)[t].time
      ensures forall t :: t in m_timeOut ==> m_timeOut[t] == old(m_timeOut)[t]
      ensures forall i :: 0 <= i < |tokens| ==> tTimeOut[i] == TimeoutOf(old(m_timeOut)[tokens[i]].req)
      ensures Recorded(old(h), h, tokens, tTimeOut)
    {
      hide Counter, History.Inv, Halfway, Recorded;
      ghost var before, h0 := m_timeOut, h;
      tTimeOut, tokens := [], [];
      var todo := m_timeOut.Keys;
      SweepStarts(now);
      while todo != {}
        invariant Valid()
        invariant Halfway(before, m_timeOut, now, todo, tokens, tTimeOut) && Recorded(h0, h, tokens, tTimeOut)
        decreases |todo|
      {
        LeastExists(todo);
        var t :| Least(t, todo);
        HalfwayStep(before, m_timeOut, now, todo, tokens, tTimeOut, t);
        var item := m_timeOut[t];
        if now >= item.time {
          OverKeeps(h, t, TimeoutOf(item.req));
          RecordedStep(h0, h, tokens, tTimeOut, t, TimeoutOf(item.req));
          tTimeOut := tTimeOut + [TimeoutOf(item.req)];
          tokens := tokens + [t];
          m_timeOut := m_timeOut - {t};
          h := h.Over(t, TimeoutOf(item.req));
        }
        todo := todo - {t};
      }
      SweepEnds(before, m_timeOut, now, tokens, tTimeOut);
    }

    /** The entries a sweep leaves, and the timeouts it makes. */
    ghost predicate SweptTo(before: map<int, AckItem>, after: map<int, AckItem>, now: int, made: seq<Message>) {
      && (forall t :: t in after <==> t in before && now < before[t].time)
      && (forall t :: t in after ==> after[t] == before[t])
      && exists tokens :: Swept(tokens, before, now) && |made| == |tokens|
           && forall i :: 0 <= i < |tokens| ==> made[i] == TimeoutOf(before[tokens[i]].req)
    }

    /** Messages received; the error number of a timeout never travels. */
    method AddMessage(messages: seq<Message>)
      requires Valid() && forall m :: m in messages ==> !m.timedOut
      modifies this`m_deque
      ensures Valid() && m_deque == old(m_deque) + messages
    {
      assert forall m :: m in m_deque + messages ==> m in m_deque || m in messages;
      m_deque := m_deque + messages;
    }

    /** The first half of ProcessMessage: the sweep, at most once a second by the clock, and its timeouts. */
    method SweepIfDue(now: int) returns (handed: seq<Message>, ghost made: seq<Message>)
      requires Valid()
      modifies this`m_token, this`m_timeOut, this`m_timeNow, this`h
      ensures Valid() && old(h).Grew(h) && |h.completions| == |old(h).completions| + |made|
      ensures HandsOver(old(h), h, handed, handlers)
      ensures m_timeNow == if now - old(m_timeNow) > SWEEP_INTERVAL then now else old(m_timeNow)
      ensures now - old(m_timeNow) <= SWEEP_INTERVAL ==>
                made == [] && handed == [] && Now() == old(Now()) && h == old(h)
      ensures now - old(m_timeNow) > SWEEP_INTERVAL ==> SweepOnly(old(h), old(m_timeOut), h, now)
      ensures now - old(m_timeNow) > SWEEP_INTERVAL ==> AllLate(old(h), h, now)
      ensures Others(handed) == [] && RegisteredFor(old(h), h, AllSent(handed), now)
      ensures now - old(m_timeNow) > SWEEP_INTERVAL ==>
                exists left :: SweptTo(old(m_timeOut), left, now, made)
                  && (Now(), handed) == TakeAll(Pending(left, old(Now()).n), made, now)
    {
      hide History.Inv, Counter, HandsOver, SweepOnly, SweptTo, TakeAll, AllLate, RegisteredFor;
      handed, made := [], [];
      NoneRegistered(h, h, now);
      NothingHanded(h, h, handlers);
      if now - m_timeNow <= SWEEP_INTERVAL {
        return;
      }
      handed, made := SweepNow(now);
      m_timeNow := now;
    }

    method SweepNow(now: int) returns (handed: seq<Message>, ghost made: seq<Message>)
      requires Valid()
      modifies this`m_token, this`m_timeOut, this`h
      ensures Valid() && old(h).Grew(h) && |h.completions| == |old(h).completions| + |made|
      ensures HandsOver(old(h), h, handed, handlers) && SweepOnly(old(h), old(m_timeOut), h, now)
      ensures AllLate(old(h), h, now) && Others(handed) == [] && RegisteredFor(old(h), h, AllSent(handed), now)
      ensures exists left :: SweptTo(old(m_timeOut), left, now, made)
                && (Now(), handed) == TakeAll(Pending(left, old(Now()).n), made, now)
    {
      hide History.Inv, Counter, Swept, HandsOver, Recorded, SweepOnly, SweptTo, TakeAll, AllLate, Tracked,
           RegisteredFor;
      ghost var before, h0, p := m_timeOut, h, Now();
      BeforeSweep();
      var tTimeOut, tokens := Sweep(now);
      ghost var h1, left := h, m_timeOut;
      made := tTimeOut;
      SweptFacts(before, left, now, tokens, made);
      RecordedFacts(h0, h1, tokens, made);
      SweepHands(h0, h1, tokens, made);
      handed := TakeEach(tTimeOut, now);
      GrewTrans(h0, h1, h);
      HandsOverLater(h0, h1, h, handed, handlers);
      SweepDone(h0, before, h1, h, tokens, made, now);
      SweptLate(h0, before, h1, h, tokens, made, now);
      NoOthers(made, handlers);
      RecordedNone(h0, h1, tokens, made, now);
      RegisteredTrans(h0, h1, h, [], AllSent(handed), now);
      assert [] + AllSent(handed) == AllSent(handed);
    }

    lemma RecordedNone(h0: History, h1: History, tokens: seq<int>, made: seq<Message>, now: int)
      requires Recorded(h0, h1, tokens, made)
      ensures RegisteredFor(h0, h1, [], now)
    {
    }

    lemma SweptLate(h0: History, before: map<int, AckItem>, h1: History, h2: History, tokens: seq<int>,
                    made: seq<Message>, now: int)
      requires before.Keys == h0.serials.Keys && Swept(tokens, before, now) && Recorded(h0, h1, tokens, made)
      requires forall t :: t in before ==> h0.serials[t] < |h0.registered| && before[t] == h0.registered[h0.serials[t]]
      requires forall i :: 0 <= i < |tokens| ==> made[i] == TimeoutOf(before[tokens[i]].req)
      requires h1.Grew(h2) && h2.completions == h1.completions
      ensures AllLate(h0, h2, now)
    {
      forall k | |h0.completions| <= k < |h2.completions|
        ensures LateBy(h2, h2.completions[k], now)
      {
        var i := k - |h0.completions|;
        assert h1.completions[|h0.completions| + i] == Completion(h0.serials[tokens[i]], made[i]);
        var t := tokens[i];
        assert t in before && h0.serials[t] < |h0.registered|;
        assert before[t] == h0.registered[h0.serials[t]] && h2.registered[h0.serials[t]] == before[t];
      }
    }

    lemma SweptFacts(before: map<int, AckItem>, left: map<int, AckItem>, now: int, tokens: seq<int>, made: seq<Message>)
      requires Swept(tokens, before, now) && |made| == |tokens|
      requires forall t :: t in left <==> t in before && now < before[t].time
      requires forall t :: t in left ==> left[t] == before[t]
      requires forall i :: 0 <= i < |tokens| ==> made[i] == TimeoutOf(before[tokens[i]].req)
      ensures SweptTo(before, left, now, made) && forall m :: m in made ==> m.kind == Ack && m.timedOut
    {
    }

    lemma RecordedFacts(h0: History, h1: History, tokens: seq<int>, made: seq<Message>)
      requires Recorded(h0, h1, tokens, made)
      ensures h0.Grew(h1) && h1.registered == h0.registered && |h1.completions| == |h0.completions| + |made|
    {
    }

    lemma BeforeSweep()
      requires Valid()
      ensures h.Inv() && m_timeOut.Keys == h.serials.Keys
      ensures forall t :: t in m_timeOut ==>
                h.serials[t] < |h.registered| && m_timeOut[t] == h.registered[h.serials[t]]
    {
    }

    lemma SweepHands(h0: History, h1: History, tokens: seq<int>, made: seq<Message>)
      requires Recorded(h0, h1, tokens, made) && forall m :: m in made ==> m.kind == Ack
      ensures h0.Grew(h1) && |h1.completions| == |h0.completions| + |made|
      ensures HandsOver(h0, h1, Served(made, handlers), handlers)
    {
      var new_ := h1.completions[|h0.completions|..];
      assert Answered(new_) == made;
      ServedAreAcks(made, handlers);
      AllAcks(Served(made, handlers));
    }

    lemma SweepDone(h0: History, before: map<int, AckItem>, h1: History, h2: History, tokens: seq<int>,
                    made: seq<Message>, now: int)
      requires h0.Inv() && before.Keys == h0.serials.Keys && Swept(tokens, before, now)
      requires Recorded(h0, h1, tokens, made)
      requires h1.Grew(h2) && h2.completions == h1.completions && h2.Inv()
      ensures SweepOnly(h0, before, h2, now)
    {
      forall n | h0.Waiting(n) && Token(n) in before
        ensures if now >= before[Token(n)].time then h2.Completed(n) else h2.Waiting(n) || n in h2.lost
      {
        if now >= before[Token(n)].time {
          var i :| 0 <= i < |tokens| && tokens[i] == Token(n);
          assert h2.completions[|h0.completions| + i].serial == n;
        } else {
          NotBoth(h0, n);
          forall k | 0 <= k < |h2.completions|
            ensures h2.completions[k].serial != n
          {
            if k < |h0.completions| {
              assert h2.completions[k] == h0.completions[k];
            } else {
              var i := k - |h0.completions|;
              assert h2.completions[|h0.completions| + i].serial == h0.serials[tokens[i]];
              assert Token(h0.serials[tokens[i]]) == tokens[i];
            }
          }
        }
      }
    }

    /** What a round makes of the waiting requests p0 and the messages received, and what it hands over: the sweep and
        its timeouts when it is due, then every message. */
    ghost predicate Processed(now: int, p0: Pending, deque: seq<Message>, timeNow: int,
                              p1: Pending, handed: seq<Message>) {
      exists p, timeouts, rest ::
        && (p1, rest) == TakeAll(p, deque, now) && handed == timeouts + rest
        && (now - timeNow <= SWEEP_INTERVAL ==> p == p0 && timeouts == [])
        && (now - timeNow > SWEEP_INTERVAL ==>
              exists left, made :: SweptTo(p0.table, left, now, made)
                && (p, timeouts) == TakeAll(Pending(left, p0.n), made, now))
    }

    /** ProcessMessage: the sweep when it is due, then everything received so far, in order. */
    method ProcessMessage(now: int) returns (handed: seq<Message>)
      requires Valid()
      modifies this
      ensures Valid() && old(h).Grew(h) && m_deque == [] && HandsOver(old(h), h, handed, handlers)
      ensures forall n: nat ::
                TimesDone(h.completions[|old(h).completions|..], n) <= if old(h).Completed(n) then 0 else 1
      ensures m_timeNow == if now - old(m_timeNow) > SWEEP_INTERVAL then now else old(m_timeNow)
      ensures Processed(now, old(Now()), old(m_deque), old(m_timeNow), Now(), handed)
      ensures Others(handed) == Wanted(old(m_deque), handlers) && RegisteredFor(old(h), h, AllSent(handed), now)
      ensures var due := now - old(m_timeNow) > SWEEP_INTERVAL;
              EndsExactly(old(h), h, old(m_deque), due, now) && SourcedOrLate(old(h), h, old(m_deque), due, now)
    {
      hide History.Inv, Counter, SweptTo, TakeAll, HandsOver, SweepOnly, AllLate, Tracked, EndsExactly, SourcedOrLate,
           RegisteredFor;
      ghost var h0, before, due := h, m_timeOut, now - m_timeNow > SWEEP_INTERVAL;
      BeforeSweep();
      var timeouts, made := SweepIfDue(now);
      ghost var p, h1 := Now(), h;
      if m_deque == [] {
        EmptyQueue(p, now);
        assert (Now(), []) == TakeAll(p, old(m_deque), now) && timeouts == timeouts + [];
        RunEnds(h0);
        TrackedStart(h);
        Ending(h0, before, h1, h, [], due, now);
        return timeouts;
      }
      var tmpQue := m_deque;
      m_deque := [];
      var rest := TakeEach(tmpQue, now);
      HandsOverTrans(h0, h1, h, timeouts, rest, handlers);
      RunEnds(h0);
      Ending(h0, before, h1, h, tmpQue, due, now);
      OthersAppend(timeouts, rest);
      RegisteredTrans(h0, h1, h, AllSent(timeouts), AllSent(rest), now);
      AllSentAppend(timeouts, rest);
      handed := timeouts + rest;
    }

    lemma Ending(h0: History, before: map<int, AckItem>, h1: History, h2: History, ms: seq<Message>, due: bool,
                 now: int)
      requires h0.Grew(h1) && h1.Grew(h2) && Tracked(h1, h2, ms) && before.Keys == h0.serials.Keys
      requires forall t :: t in before ==> h0.serials[t] < |h0.registered| && before[t] == h0.registered[h0.serials[t]]
      requires if due then SweepOnly(h0, before, h1, now) && AllLate(h0, h1, now) else h1 == h0
      ensures EndsExactly(h0, h2, ms, due, now) && SourcedOrLate(h0, h2, ms, due, now)
    {
      LateThenTracked(h0, h1, h2, ms, due, now);
      RoundEnds(h0, before, h1, h2, ms, due, now);
    }

    lemma EmptyQueue(p: Pending, now: int)
      ensures TakeAll(p, [], now) == (p, [])
    {
    }

    ghost function Here(): Moment
      reads this
    {
      Moment(Now(), h, m_deque, m_timeNow)
    }

    /** One call, and what it hands over. */
    ghost predicate StepOf(call: Call, a: Moment, b: Moment, handed: seq<Message>) {
      && Agree(a) && Agree(b) && a.h.Grew(b.h) && HandsOver(a.h, b.h, handed, handlers)
      && match call
         case Arrive(messages) => b == a.(deque := a.deque + messages) && handed == []
         case Send(req, now) =>
           && handed == []
           && b == a.(p := a.p.Register(req, now),
                      h := a.h.Registered(AckItem(Token(a.p.n), req, Deadline(req, now))))
         case Process(now) =>
           && Processed(now, a.p, a.deque, a.timeNow, b.p, handed) && b.deque == []
           && b.timeNow == (if now - a.timeNow > SWEEP_INTERVAL then now else a.timeNow)
           && Others(handed) == Wanted(a.deque, handlers) && RegisteredFor(a.h, b.h, AllSent(handed), now)
           && EndsExactly(a.h, b.h, a.deque, now - a.timeNow > 1000, now)
           && SourcedOrLate(a.h, b.h, a.deque, now - a.timeNow > 1000, now)
    }

    ghost predicate IsRun(calls: seq<Call>, trace: seq<Moment>, outs: seq<seq<Message>>) {
      && |trace| == |calls| + 1 && |outs| == |calls|
      && forall i :: 0 <= i < |calls| ==> StepOf(calls[i], trace[i], trace[i + 1], outs[i])
    }

    /** Any calls in any order: the answers and timeouts handed to the handlers are those of the requests completed,
        in order, and no request is completed twice. */
    method Run(calls: seq<Call>) returns (outs: seq<seq<Message>>, ghost trace: seq<Moment>)
      requires Valid() && forall i :: 0 <= i < |calls| ==> Proper(calls[i])
      modifies this
      ensures Valid() && IsRun(calls, trace, outs) && trace[0] == old(Here()) && trace[|calls|] == Here()
      ensures old(h).Grew(h) && HandsOver(old(h), h, Flat(outs), handlers)
      ensures forall n: nat ::
                TimesDone(h.completions[|old(h).completions|..], n) <= if old(h).Completed(n) then 0 else 1
      ensures |h.registered| <= TOKENS ==>
                forall n :: 0 <= n < |h.registered| ==> (h.Waiting(n) <==> !h.Completed(n))
      ensures Others(Flat(outs)) + Wanted(m_deque, handlers) == Wanted(old(m_deque) + Arrivals(calls), handlers)
    {
      hide History.Inv, Counter, HandsOver, StepOf, Others, Wanted;
      outs, trace := [], [Here()];
      NothingHanded(h, h, handlers);
      OthersStart(m_deque);
      assert calls[..0] == [];
      var i := 0;
      while i < |calls|
        invariant 0 <= i <= |calls| && Valid() && old(h).Grew(h) && HandsOver(old(h), h, Flat(outs), handlers)
        invariant IsRun(calls[..i], trace, outs) && trace[0] == old(Here()) && trace[i] == Here()
        invariant Others(Flat(outs)) + Wanted(m_deque, handlers)
                  == Wanted(old(m_deque) + Arrivals(calls[..i]), handlers)
      {
        ghost var h1, q := h, m_deque;
        var more := Do(calls[i]);
        OthersStep(calls, i, old(m_deque), q, m_deque, Flat(outs), more);
        HandsOverTrans(old(h), h1, h, Flat(outs), more, handlers);
        RunSnoc(calls, i, trace, outs, Here(), more);
        FlatSnoc(outs, more);
        outs, trace := outs + [more], trace + [Here()];
        i := i + 1;
      }
      assert calls[..i] == calls;
      RunEnds(old(h));
    }

    lemma OthersStart(q: seq<Message>)
      ensures Others(Flat([])) + Wanted(q, handlers) == Wanted(q + Arrivals([]), handlers)
    {
      NoneLeft();
      assert Flat([]) == [] && Arrivals([]) == [];
      hide *;
      assert q + [] == q;
    }

    /** What a call does to the queue of messages received. */
    ghost predicate PassesOn(call: Call, q: seq<Message>, q': seq<Message>, more: seq<Message>) {
      match call
      case Arrive(messages) => q' == q + messages && more == []
      case Send(_, _) => q' == q && more == []
      case Process(_) => q' == [] && Others(more) == Wanted(q, handlers)
    }

    /** One call more, for the messages that are no acknowledgements. */
    lemma OthersStep(calls: seq<Call>, i: nat, q0: seq<Message>, q: seq<Message>, q': seq<Message>,
                     handed: seq<Message>, more: seq<Message>)
      requires i < |calls|
      requires Others(handed) + Wanted(q, handlers) == Wanted(q0 + Arrivals(calls[..i]), handlers)
      requires PassesOn(calls[i], q, q', more)
      ensures Others(handed + more) + Wanted(q', handlers) == Wanted(q0 + Arrivals(calls[..i + 1]), handlers)
    {
      hide Others, Wanted, Arrivals;
      ArrivalsSnoc(calls, i);
      OthersAppend(handed, more);
      NoneLeft();
      var before := q0 + Arrivals(calls[..i]);
      if calls[i].Arrive? {
        WantedAppend(q, calls[i].messages, handlers);
        WantedAppend(before, calls[i].messages, handlers);
        assert q0 + Arrivals(calls[..i + 1]) == before + calls[i].messages;
      } else {
        assert q0 + Arrivals(calls[..i + 1]) == before;
      }
    }

    lemma NoneLeft()
      ensures Others([]) == [] && Wanted([], handlers) == []
    {
    }

    static lemma ArrivalsSnoc(calls: seq<Call>, i: nat)
      requires i < |calls|
      ensures Arrivals(calls[..i + 1]) == Arrivals(calls[..i]) + if calls[i].Arrive? then calls[i].messages else []
    {
      assert calls[..i + 1][..i] == calls[..i];
    }

    /** The deadline of a request, over whole runs: sent at one time with a timeout in seconds and still waiting, it is
        timed out by the first round whose sweep is due at least that many seconds later, and by none before. */
    lemma TimesOutInTime(calls: seq<Call>, trace: seq<Moment>, outs: seq<seq<Message>>, i: nat, j: nat)
      requires IsRun(calls, trace, outs) && i < j < |calls| && calls[i].Send? && calls[j].Process?
      requires trace[j].h.Waiting(trace[i].p.n)
      ensures var n := trace[i].p.n;
              var late := calls[j].now >= calls[i].now + 1000 * calls[i].req.timeout;
              var due := calls[j].now - trace[j].timeNow > 1000;
              var acked := AckedIn(trace[j].deque, Token(n));
              && (due && late ==> trace[j + 1].h.Completed(n))
              && (!(due && late) && !acked ==> trace[j + 1].h.Waiting(n) || n in trace[j + 1].h.lost)
    {
      var n := trace[i].p.n;
      assert StepOf(calls[i], trace[i], trace[i + 1], outs[i]);
      assert StepOf(calls[j], trace[j], trace[j + 1], outs[j]);
      hide History.Inv, Processed, HandsOver, SourcedOrLate, AckedIn, TakeAll, RegisteredFor;
      GrowsOver(calls, trace, outs, i + 1, j);
      assert trace[j].h.registered[n] == trace[i + 1].h.registered[n];
    }

    lemma {:induction false} GrowsOver(calls: seq<Call>, trace: seq<Moment>, outs: seq<seq<Message>>, i: nat, j: nat)
      requires IsRun(calls, trace, outs) && i <= j <= |calls|
      ensures trace[i].h.Grew(trace[j].h)
      decreases j - i
    {
      hide History.Inv, HandsOver, Processed, EndsExactly, SourcedOrLate, RegisteredFor, Others, Wanted, Token, Agree;
      if i < j {
        GrowsOver(calls, trace, outs, i, j - 1);
        assert StepOf(calls[j - 1], trace[j - 1], trace[j], outs[j - 1]);
        hide StepOf;
        StepGrows(calls[j - 1], trace[j - 1], trace[j], outs[j - 1]);
        GrewTrans(trace[i].h, trace[j - 1].h, trace[j].h);
      }
    }

    lemma StepGrows(call: Call, a: Moment, b: Moment, handed: seq<Message>)
      requires StepOf(call, a, b, handed)
      ensures a.h.Grew(b.h)
    {
    }

    lemma RunSnoc(calls: seq<Call>, i: nat, trace: seq<Moment>, outs: seq<seq<Message>>, m: Moment, more: seq<Message>)
      requires i < |calls| && IsRun(calls[..i], trace, outs) && StepOf(calls[i], trace[i], m, more)
      ensures IsRun(calls[..i + 1], trace + [m], outs + [more]) && (trace + [m])[0] == trace[0]
    {
      hide StepOf;
    }

    method Do(call: Call) returns (handed: seq<Message>)
      requires Valid() && Proper(call)
      modifies this
      ensures Valid() && old(h).Grew(h) && HandsOver(old(h), h, handed, handlers)
      ensures StepOf(call, old(Here()), Here(), handed)
      ensures PassesOn(call, old(m_deque), m_deque, handed)
    {
      hide History.Inv, Counter, HandsOver, SweptTo, TakeAll, Processed, EndsExactly, SourcedOrLate, Others, Wanted,
           RegisteredFor;
      handed := [];
      NothingHanded(h, h, handlers);
      Agreeing();
      match call
      case Arrive(messages) =>
        AddMessage(messages);
        Agreeing();
      case Send(req, now) =>
        ghost var h0 := h;
        SendKeeps(AckItem(Token(|h.registered|), req, Deadline(req, now)));
        var reqID := AddAckTimeOut(req, now);
        NothingHanded(h0, h, handlers);
        Agreeing();
      case Process(now) =>
        handed := ProcessMessage(now);
        Agreeing();
    }

    lemma Agreeing()
      requires Valid()
      ensures Agree(Here())
    {
    }

    lemma SendKeeps(item: AckItem)
      requires Valid() && item.token == Token(|h.registered|)
      ensures h.Grew(h.Registered(item))
    {
      RegisteredKeeps(h, item);
    }

    lemma RunEnds(h0: History)
      requires Valid() && h0.Grew(h)
      ensures forall n: nat :: TimesDone(h.completions[|h0.completions|..], n) <= if h0.Completed(n) then 0 else 1
      ensures |h.registered| <= TOKENS ==>
                forall n :: 0 <= n < |h.registered| ==> (h.Waiting(n) <==> !h.Completed(n))
    {
      forall n: nat
        ensures TimesDone(h.completions[|h0.completions|..], n) <= if h0.Completed(n) then 0 else 1
      {
        HandedOnce(h0, h, n);
      }
      if |h.registered| <= TOKENS {
        NoneLost(h);
      }
    }
  }

  /** A dispatcher at one moment. */
  datatype Moment = Moment(p: Pending, h: History, deque: seq<Message>, timeNow: int)

  /** The table holds exactly the requests of the history that are waiting, as they were registered. */
  ghost predicate Agree(m: Moment) {
    && m.h.Inv() && m.p.n == |m.h.registered| && m.p.table.Keys == m.h.serials.Keys
    && forall t :: t in m.p.table ==>
         m.h.serials[t] < |m.h.registered| && m.p.table[t] == m.h.registered[m.h.serials[t]]
  }

  /** All messages that arrive. */
  function Arrivals(calls: seq<Call>): seq<Message>
    decreases |calls|
  {
    if calls == [] then [] else
    var n := |calls| - 1;
    Arrivals(calls[..n]) + if calls[n].Arrive? then calls[n].messages else []
  }

  function Flat(outs: seq<seq<Message>>): seq<Message>
    decreases |outs|
  {
    if outs == [] then [] else Flat(outs[..|outs| - 1]) + outs[|outs| - 1]
  }

  lemma FlatSnoc(outs: seq<seq<Message>>, more: seq<Message>)
    ensures Flat(outs + [more]) == Flat(outs) + more
  {
    assert (outs + [more])[..|outs|] == outs;
  }

  /** What happens to a dispatcher from outside. */
  datatype Call = Arrive(messages: seq<Message>) | Send(req: Request, now: int) | Process(now: int)

  predicate Proper(call: Call) {
    call.Arrive? ==> forall m :: m in call.messages ==> !m.timedOut
  }
}
