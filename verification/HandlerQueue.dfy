/** The segmented multi-producer queue of a handler and the try-lock that makes its consumer unique, one atomic
    instruction a step (antlib/commandlib/squeue.h, hqueue.h; antlib/handlerlib/handler.h, thread_proc.h).
    Segments are numbered in allocation order and never reused. */
module HandlerQueue {

  const SIZE := 1021  // SQUEUE_NODE_SIZE
  const LAST := SIZE - 1

  /** push_squeue refuses NULL. */
  type Msg = x: int | x != 0 witness 1

  /** Where a producer is inside push_squeue. */
  datatype Producer =
    | Idle
    | Start(v: Msg)                         // about to read qu->_tail
    | Loaded(v: Msg, node: nat)             // about to fetch-and-add node->_head
    | Reserved(v: Msg, node: nat, idx: nat) // about to store into node->_queue[idx]
    | Filled(node: nat)                     // stored into the last slot; about to link a new segment
    | Linked(node: nat)                     // about to advance qu->_tail
    | Ready                                 // about to add to qu->_count

  /** Where the consumer is inside handler_pop_squeue. */
  datatype Consumer =
    | AtAssert
    | Waiting(node: nat, idx: nat)          // node->_tail was idx; spinning on node->_queue[idx]
    | Swing(v: Msg, node: nat)              // took the last slot; spinning on node == qu->_tail
    | Leaving(v: Msg)                       // about to subtract from qu->_count

  /** Where a thread is inside handlers_list_thread_proc and do_handler; i pops done of n. */
  datatype Worker = Out | Locked | Draining(i: nat, n: int, c: Consumer)

  datatype State = State(
    heads: seq<nat>,              // _head of each segment: the producers' counter
    tails: seq<nat>,              // _tail of each segment: the consumer's counter
    next: map<nat, nat>,          // _next
    slots: map<(nat, nat), Msg>,  // _queue; absent is NULL
    tail: nat, head: nat, count: int,
    producers: map<nat, Producer>,
    locker: bool,
    workers: map<nat, Worker>,
    // history
    ok: bool,                     // no ASSERT has failed
    log: seq<(nat, Msg)>,         // reservations in the order they were made
    calls: map<nat, seq<Msg>>,    // what each producer has been asked to push
    popped: seq<Msg>)

  datatype Step =
    | Call(p: nat, v: Msg) | Load(p: nat) | Reserve(p: nat) | Store(p: nat) | Link(p: nat) | Advance(p: nat)
    | Publish(p: nat)
    | TryLock(t: nat) | Snapshot(t: nat) | Fetch(t: nat) | Take(t: nat) | Retire(t: nat) | Finish(t: nat)
    | Unlock(t: nat)

  function Pos(node: nat, idx: nat): nat { node * SIZE + idx }

  lemma PosInjective(n1: nat, i1: nat, n2: nat, i2: nat)
    requires i1 < SIZE && i2 < SIZE && Pos(n1, i1) == Pos(n2, i2)
    ensures n1 == n2 && i1 == i2
  {
  }

  predicate Enabled(s: State, step: Step) {
    match step
    case Call(p, v) => p in s.producers && s.producers[p].Idle? && p in s.calls
    case Load(p) => p in s.producers && s.producers[p].Start?
    case Reserve(p) => p in s.producers && s.producers[p].Loaded? && s.producers[p].node < |s.heads|
    case Store(p) => p in s.producers && s.producers[p].Reserved?
    case Link(p) => p in s.producers && s.producers[p].Filled?
    case Advance(p) => p in s.producers && s.producers[p].Linked? && s.tail in s.next
    case Publish(p) => p in s.producers && s.producers[p].Ready?
    case TryLock(t) => t in s.workers && s.workers[t].Out?
    case Snapshot(t) => t in s.workers && s.workers[t].Locked?
    case Fetch(t) =>
      t in s.workers && s.workers[t].Draining? && s.workers[t].c.AtAssert? && s.workers[t].i < s.workers[t].n
                     && s.head < |s.tails|
    case Take(t) => t in s.workers && s.workers[t].Draining? && s.workers[t].c.Waiting?
                    && (s.workers[t].c.node, s.workers[t].c.idx) in s.slots
    case Retire(t) => t in s.workers && s.workers[t].Draining? && s.workers[t].c.Swing?
                      && s.workers[t].c.node != s.tail && s.head in s.next
    case Finish(t) => t in s.workers && s.workers[t].Draining? && s.workers[t].c.Leaving?
    case Unlock(t) =>
      t in s.workers && s.workers[t].Draining? && s.workers[t].c.AtAssert? && s.workers[t].i >= s.workers[t].n
  }

  function SetP(s: State, p: nat, q: Producer): State { s.(producers := s.producers[p := q]) }
  function SetW(s: State, t: nat, w: Worker): State { s.(workers := s.workers[t := w]) }

  function Apply(s: State, step: Step): State
    requires Enabled(s, step)
  {
    match step
    case Call(p, v) => SetP(s, p, Start(v)).(calls := s.calls[p := s.calls[p] + [v]])
    case Load(p) => SetP(s, p, Loaded(s.producers[p].v, s.tail))
    case Reserve(p) =>
      var v, node := s.producers[p].v, s.producers[p].node;
      var index := s.heads[node];
      var s1 := s.(heads := s.heads[node := index + 1]);
      if index < SIZE then SetP(s1, p, Reserved(v, node, index)).(log := s.log + [(p, v)]) else SetP(s1, p, Start(v))
    case Store(p) =>
      var Reserved(v, node, index) := s.producers[p];
      SetP(s, p, if index < LAST then Ready else Filled(node)).(slots := s.slots[(node, index) := v])
    case Link(p) =>
      SetP(s, p, Linked(s.producers[p].node)).(
        next := s.next[s.tail := |s.heads|], heads := s.heads + [0], tails := s.tails + [0])
    case Advance(p) => SetP(s, p, Ready).(tail := s.next[s.tail])
    case Publish(p) => SetP(s, p, Idle).(count := s.count + 1)
    case TryLock(t) => SetW(s, t, if s.locker then Out else Locked).(locker := true)
    case Snapshot(t) => SetW(s, t, Draining(0, s.count, AtAssert))
    case Fetch(t) =>
      var w := s.workers[t];
      SetW(s, t, w.(c := Waiting(s.head, s.tails[s.head]))).(
        ok := s.ok && s.count > 0, tails := s.tails[s.head := s.tails[s.head] + 1])
    case Take(t) =>
      var w := s.workers[t];
      var v := s.slots[(w.c.node, w.c.idx)];
      SetW(s, t, w.(c := if w.c.idx == LAST then Swing(v, w.c.node) else Leaving(v)))
    case Retire(t) =>
      var w := s.workers[t];
      SetW(s, t, w.(c := Leaving(w.c.v))).(head := s.next[s.head])
    case Finish(t) =>
      var w := s.workers[t];
      SetW(s, t, Draining(w.i + 1, w.n, AtAssert)).(count := s.count - 1, popped := s.popped + [w.c.v])
    case Unlock(t) => SetW(s, t, Out).(locker := false)
  }

  /** One empty segment, every producer idle, every thread outside. */
  predicate Init(s: State) {
    && s.heads == [0] && s.tails == [0] && s.next == map[] && s.slots == map[]
    && s.tail == 0 && s.head == 0 && s.count == 0 && !s.locker && s.ok && s.log == [] && s.popped == []
    && (forall p :: p in s.producers ==> s.producers[p] == Idle && p in s.calls && s.calls[p] == [])
    && (forall t :: t in s.workers ==> s.workers[t] == Out)
  }

  // ---- The invariant ----

  /** The segments: all but the newest are full and linked; the reservations number the slots without gaps. */
  ghost predicate Shape(s: State) {
    && |s.tails| == |s.heads| && s.head <= s.tail < |s.heads| <= s.tail + 2
    && (forall k :: 0 <= k < s.tail ==> s.heads[k] >= SIZE && k in s.next && s.next[k] == k + 1)
    && (forall k :: k in s.next ==> k < |s.heads| - 1)
    && (|s.heads| == s.tail + 2 ==> s.heads[s.tail] >= SIZE && s.heads[s.tail + 1] == 0
                                    && s.tail in s.next && s.next[s.tail] == s.tail + 1)
    && |s.log| == Pos(s.tail, if s.heads[s.tail] < SIZE then s.heads[s.tail] else SIZE)
  }

  /** The slot a producer has reserved and not yet published, if any. */
  predicate Holds(q: Producer, node: nat, idx: nat) {
    match q
    case Reserved(_, n, i) => n == node && i == idx
    case Filled(n) => n == node && idx == LAST
    case Linked(n) => n == node && idx == LAST
    case _ => false
  }

  ghost predicate ProducerOk(s: State, p: nat)
    requires p in s.producers
  {
    match s.producers[p]
    case Loaded(_, n) => n <= s.tail
    case Reserved(v, n, i) =>
      i < SIZE && n <= s.tail && (i == LAST ==> n == s.tail && |s.heads| == s.tail + 1)
      && Pos(n, i) < |s.log| && s.log[Pos(n, i)] == (p, v) && (n, i) !in s.slots
    case Filled(n) => n == s.tail && |s.heads| == s.tail + 1 && Pos(n, LAST) < |s.log| && s.log[Pos(n, LAST)].0 == p
    case Linked(n) => n == s.tail && |s.heads| == s.tail + 2 && Pos(n, LAST) < |s.log| && s.log[Pos(n, LAST)].0 == p
    case _ => true
  }

  ghost predicate Producers(s: State) {
    forall p :: p in s.producers ==> ProducerOk(s, p)
  }

  /** Every reserved slot holds its value or is still to be filled by the producer that reserved it. */
  ghost predicate Slots(s: State) {
    && (forall n: nat, i: nat :: (n, i) in s.slots ==>
          i < SIZE && Pos(n, i) < |s.log| && s.slots[(n, i)] == s.log[Pos(n, i)].1)
    && (forall n: nat, i: nat :: i < SIZE && Pos(n, i) < |s.log| ==>
          || (n, i) in s.slots
          || (&& s.log[Pos(n, i)].0 in s.producers
              && s.producers[s.log[Pos(n, i)].0] == Reserved(s.log[Pos(n, i)].1, n, i)))
  }

  /** While the newest segment is full, the producer of its last slot is on its way to replace it. */
  ghost predicate Linker(s: State) {
    s.tail < |s.heads| && s.heads[s.tail] >= SIZE ==>
      Pos(s.tail, LAST) < |s.log| &&
      var p := s.log[Pos(s.tail, LAST)].0;
      p in s.producers && Holds(s.producers[p], s.tail, LAST)
  }

  /** The producers between reservation and publication. */
  predicate InFlight(q: Producer) { q.Reserved? || q.Filled? || q.Linked? || q.Ready? }

  ghost function Flying(s: State): set<nat> { set p | p in s.producers && InFlight(s.producers[p]) }

  /** _count is completed pushes minus completed pops. */
  ghost predicate Counts(s: State) {
    s.count + |Flying(s)| == |s.log| - |s.popped|
  }

  predicate Inside(w: Worker) { !w.Out? }
  predicate MidPop(w: Worker) { w.Draining? && !w.c.AtAssert? }

  /** At most one thread per handler. */
  ghost predicate Exclusive(s: State) {
    && (forall t :: t in s.workers && Inside(s.workers[t]) ==> s.locker)
    && (forall t, u :: t in s.workers && u in s.workers && Inside(s.workers[t]) && Inside(s.workers[u]) ==> t == u)
  }

  ghost predicate Resting(s: State) {
    s.head < |s.tails| && s.tails[s.head] < SIZE && |s.popped| == Pos(s.head, s.tails[s.head])
  }

  ghost predicate WorkerOk(s: State, w: Worker) {
    w.Draining? ==>
      && s.head < |s.tails|
      && (w.i < w.n ==> s.count >= w.n - w.i)
      && (MidPop(w) ==> w.i < w.n)
      && match w.c
         case AtAssert => true
         case Waiting(n, i) => n == s.head && i < SIZE && s.tails[n] == i + 1 && |s.popped| == Pos(n, i)
         case Swing(v, n) =>
           && n == s.head && s.tails[n] == SIZE && (n, LAST) in s.slots && |s.popped| == Pos(n, LAST)
           && |s.popped| < |s.log| && v == s.log[|s.popped|].1
         case Leaving(v) =>
           && s.tails[s.head] < SIZE && |s.popped| + 1 == Pos(s.head, s.tails[s.head])
           && |s.popped| < |s.log| && v == s.log[|s.popped|].1
  }

  ghost predicate Workers(s: State) {
    && s.head < |s.tails|
    && (forall k :: s.head < k < |s.tails| ==> s.tails[k] == 0)
    && (forall t :: t in s.workers ==> WorkerOk(s, s.workers[t]))
    && ((forall t :: t in s.workers ==> !MidPop(s.workers[t])) ==> Resting(s))
  }

  function By(p: nat, log: seq<(nat, Msg)>): seq<Msg> {
    if log == [] then [] else
    By(p, log[..|log| - 1]) + (if log[|log| - 1].0 == p then [log[|log| - 1].1] else [])
  }

  function Pending(q: Producer): seq<Msg> {
    match q
    case Start(v) => [v]
    case Loaded(v, _) => [v]
    case _ => []
  }

  /** Pops follow the log, and the log follows each producer's own order. */
  ghost predicate Order(s: State) {
    && |s.popped| <= |s.log| && (forall k :: 0 <= k < |s.popped| ==> s.popped[k] == s.log[k].1)
    && (forall p :: p in s.producers ==> p in s.calls && s.calls[p] == By(p, s.log) + Pending(s.producers[p]))
  }

  ghost predicate Inv(s: State) {
    s.ok && Shape(s) && Producers(s) && Slots(s) && Linker(s) && Counts(s) && Exclusive(s) && Workers(s) && Order(s)
  }

  lemma InitInv(s: State)
    requires Init(s)
    ensures Inv(s)
  {
    assert Flying(s) == {};
  }

  /** Only producer p has moved. */
  ghost predicate Moved(s: State, s': State, p: nat) {
    p in s.producers && p in s'.producers && s'.producers == s.producers[p := s'.producers[p]]
  }

  /** A producer's own move touches at most its place in Flying. */
  lemma FlyingUpdate(s: State, s': State, p: nat)
    requires Moved(s, s', p)
    ensures |Flying(s')|
            == |Flying(s)| + (if InFlight(s'.producers[p]) then 1 else 0) - (if InFlight(s.producers[p]) then 1 else 0)
  {
    var a, b := Flying(s), Flying(s');
    if InFlight(s.producers[p]) && !InFlight(s'.producers[p]) {
      assert b == a - {p};
    } else if !InFlight(s.producers[p]) && InFlight(s'.producers[p]) {
      assert b == a + {p};
    } else {
      assert b == a;
    }
  }

  // ---- What each part of the invariant depends on ----

  lemma ShapeSame(s: State, s': State)
    requires Shape(s) && s'.heads == s.heads && |s'.tails| == |s.tails| && s'.next == s.next
    requires s'.tail == s.tail && s'.head == s.head && |s'.log| == |s.log|
    ensures Shape(s')
  {
  }

  lemma ProducersSame(s: State, s': State, p: nat)
    requires Producers(s) && Moved(s, s', p)
    requires s'.tail == s.tail && |s'.heads| == |s.heads| && s.log <= s'.log && s'.slots == s.slots
    requires ProducerOk(s', p)
    ensures Producers(s')
  {
    forall q | q in s'.producers && q != p
      ensures ProducerOk(s', q)
    {
      assert ProducerOk(s, q);
    }
  }

  lemma SlotsSame(s: State, s': State, p: nat)
    requires Slots(s) && s'.log == s.log && s'.slots == s.slots
    requires Moved(s, s', p) && !s.producers[p].Reserved?
    ensures Slots(s')
  {
  }

  lemma LinkerSame(s: State, s': State, p: nat)
    requires Linker(s) && Moved(s, s', p) && s'.tail == s.tail && s'.heads == s.heads && s'.log == s.log
    requires Holds(s.producers[p], s.tail, LAST) ==> Holds(s'.producers[p], s.tail, LAST)
    ensures Linker(s')
  {
  }

  lemma WorkersSame(s: State, s': State)
    requires Workers(s) && s'.workers == s.workers && s'.tails == s.tails && s'.head == s.head && s'.popped == s.popped
    requires s.count <= s'.count && s.log <= s'.log && s.slots.Keys <= s'.slots.Keys
    ensures Workers(s')
  {
    forall t | t in s'.workers
      ensures WorkerOk(s', s'.workers[t])
    {
      assert WorkerOk(s, s.workers[t]);
    }
    assert Resting(s) ==> Resting(s');
  }

  lemma OrderMoved(s: State, s': State, p: nat)
    requires Order(s) && Moved(s, s', p) && s'.log == s.log && s'.popped == s.popped
    requires s'.calls == s.calls && Pending(s'.producers[p]) == Pending(s.producers[p])
    ensures Order(s')
  {
  }

  /** A thread inside is alone, so its own place is all that matters. */
  lemma WorkersMoved(s: State, s': State, t: nat)
    requires Exclusive(s) && t in s.workers && Inside(s.workers[t])
    requires t in s'.workers && s'.workers == s.workers[t := s'.workers[t]]
    requires s'.head < |s'.tails| && forall k :: s'.head < k < |s'.tails| ==> s'.tails[k] == 0
    requires WorkerOk(s', s'.workers[t]) && (MidPop(s'.workers[t]) || Resting(s'))
    ensures Workers(s')
  {
  }

  lemma ExclusiveMoved(s: State, s': State, t: nat)
    requires Exclusive(s) && t in s.workers && Inside(s.workers[t]) && s'.locker == s.locker
    requires t in s'.workers && s'.workers == s.workers[t := s'.workers[t]] && Inside(s'.workers[t])
    ensures Exclusive(s')
  {
  }

  /** A step of a thread leaves the producers' side alone. */
  lemma ConsumerFrame(s: State, s': State)
    requires Producers(s) && Slots(s) && Linker(s) && s'.producers == s.producers && s'.slots == s.slots
    requires s'.log == s.log
    requires s'.tail == s.tail && s'.heads == s.heads
    ensures Producers(s') && Slots(s') && Linker(s') && Flying(s') == Flying(s)
  {
    forall p | p in s'.producers
      ensures ProducerOk(s', p)
    {
      assert ProducerOk(s, p);
    }
  }

  lemma OrderFrame(s: State, s': State)
    requires Order(s) && s'.producers == s.producers && s'.log == s.log && s'.popped == s.popped && s'.calls == s.calls
    ensures Order(s')
  {
  }

  lemma {:induction false} ByAppend(p: nat, log: seq<(nat, Msg)>, e: (nat, Msg))
    ensures By(p, log + [e]) == By(p, log) + (if e.0 == p then [e.1] else [])
  {
    assert (log + [e])[..|log|] == log;
  }

  // ---- Producer steps ----

  lemma ExclusiveSame(s: State, s': State)
    requires Exclusive(s) && s'.workers == s.workers && s'.locker == s.locker
    ensures Exclusive(s')
  {
  }

  lemma CallInv(s: State, p: nat, v: Msg)
    requires Inv(s) && Enabled(s, Call(p, v))
    ensures Inv(Apply(s, Call(p, v)))
  {
    hide Shape, Producers, Slots, Linker, Workers, Exclusive;
    var s' := Apply(s, Call(p, v));
    ShapeSame(s, s');
    ProducersSame(s, s', p);
    SlotsSame(s, s', p);
    LinkerSame(s, s', p);
    WorkersSame(s, s');
    ExclusiveSame(s, s');
    FlyingUpdate(s, s', p);
    assert By(p, s.log) + [] == By(p, s.log);
  }

  lemma LoadInv(s: State, p: nat)
    requires Inv(s) && Enabled(s, Load(p))
    ensures Inv(Apply(s, Load(p)))
  {
    hide Shape, Producers, Slots, Linker, Workers, Exclusive, Order;
    var s' := Apply(s, Load(p));
    ShapeSame(s, s');
    ProducersSame(s, s', p);
    SlotsSame(s, s', p);
    LinkerSame(s, s', p);
    WorkersSame(s, s');
    ExclusiveSame(s, s');
    FlyingUpdate(s, s', p);
    OrderMoved(s, s', p);
  }

  lemma PublishInv(s: State, p: nat)
    requires Inv(s) && Enabled(s, Publish(p))
    ensures Inv(Apply(s, Publish(p)))
  {
    hide Shape, Producers, Slots, Linker, Workers, Exclusive, Order;
    var s' := Apply(s, Publish(p));
    ShapeSame(s, s');
    ProducersSame(s, s', p);
    SlotsSame(s, s', p);
    LinkerSame(s, s', p);
    WorkersSame(s, s');
    ExclusiveSame(s, s');
    FlyingUpdate(s, s', p);
    OrderMoved(s, s', p);
  }

  /** A counter past the end of a segment: nothing but the counter moves, and the producer starts again. */
  lemma RetryInv(s: State, p: nat)
    requires Inv(s) && Enabled(s, Reserve(p)) && s.heads[s.producers[p].node] >= SIZE
    ensures Inv(Apply(s, Reserve(p)))
  {
    hide Shape, Linker, Producers, Slots, Workers, Exclusive, Order;
    var s' := Apply(s, Reserve(p));
    ProducerFact(s, p);
    TailFact(s);
    RetryShape(s, s', p, s.producers[p].node);
    ProducersSame(s, s', p);
    SlotsSame(s, s', p);
    WorkersSame(s, s');
    ExclusiveSame(s, s');
    FlyingUpdate(s, s', p);
    OrderMoved(s, s', p);
  }

  lemma ProducerFact(s: State, p: nat)
    requires Producers(s) && p in s.producers
    ensures ProducerOk(s, p)
  {
  }

  /** A slot of the newest segment: the next position in the log. */
  lemma ReserveInv(s: State, p: nat)
    requires Inv(s) && Enabled(s, Reserve(p)) && s.heads[s.producers[p].node] < SIZE
    ensures Inv(Apply(s, Reserve(p)))
  {
    hide Shape, Linker, Producers, Slots, Workers, Exclusive, Order;
    var s' := Apply(s, Reserve(p));
    var v, node := s.producers[p].v, s.producers[p].node;
    ProducerFact(s, p);
    ReserveShape(s, s', p, v, node);
    var index := s.heads[node];
    ReserveSlots(s, s', p, v, node, index);
    assert ProducerOk(s', p);
    ProducersSame(s, s', p);
    WorkersSame(s, s');
    ExclusiveSame(s, s');
    FlyingUpdate(s, s', p);
    ReserveOrder(s, s', p, v);
  }

  lemma TailFact(s: State)
    requires Shape(s)
    ensures s.tail < |s.heads|
  {
  }

  /** A counter already past the end says nothing about the segment. */
  lemma RetryShape(s: State, s': State, p: nat, node: nat)
    requires Shape(s) && Linker(s) && Moved(s, s', p) && node <= s.tail && s.heads[node] >= SIZE
    requires s'.heads == s.heads[node := s.heads[node] + 1] && s'.tails == s.tails && s'.next == s.next
    requires s'.tail == s.tail && s'.head == s.head && s'.log == s.log && !Holds(s.producers[p], s.tail, LAST)
    ensures Shape(s') && Linker(s')
  {
  }

  lemma ReserveShape(s: State, s': State, p: nat, v: Msg, node: nat)
    requires Shape(s) && Moved(s, s', p) && node <= s.tail && s.heads[node] < SIZE
    requires s'.heads == s.heads[node := s.heads[node] + 1] && s'.tails == s.tails && s'.next == s.next
    requires s'.tail == s.tail && s'.head == s.head && s'.log == s.log + [(p, v)]
    requires s'.producers[p] == Reserved(v, node, s.heads[node])
    ensures Shape(s') && Linker(s')
    ensures node == s.tail && |s.heads| == s.tail + 1 && |s.log| == Pos(node, s.heads[node])
  {
  }

  lemma ReserveSlots(s: State, s': State, p: nat, v: Msg, node: nat, index: nat)
    requires Slots(s) && Moved(s, s', p) && s.producers[p] == Loaded(v, node) && index < SIZE
    requires |s.log| == Pos(node, index) && s'.log == s.log + [(p, v)] && s'.slots == s.slots
    requires s'.producers[p] == Reserved(v, node, index)
    ensures Slots(s') && (node, index) !in s.slots
  {
    forall n: nat, i: nat | i < SIZE && Pos(n, i) < |s'.log|
      ensures
        || (n, i) in s'.slots
        || (&& s'.log[Pos(n, i)].0 in s'.producers
            && s'.producers[s'.log[Pos(n, i)].0] == Reserved(s'.log[Pos(n, i)].1, n, i))
    {
      if Pos(n, i) == |s.log| {
        PosInjective(n, i, node, index);
      }
    }
  }

  lemma ReserveOrder(s: State, s': State, p: nat, v: Msg)
    requires Order(s) && Moved(s, s', p) && s'.popped == s.popped && s'.calls == s.calls
    requires Pending(s.producers[p]) == [v] && Pending(s'.producers[p]) == [] && s'.log == s.log + [(p, v)]
    ensures Order(s')
  {
    forall q | q in s'.producers
      ensures q in s'.calls && s'.calls[q] == By(q, s'.log) + Pending(s'.producers[q])
    {
      ByAppend(q, s.log, (p, v));
      assert By(q, s.log) + [] == By(q, s.log);
      assert By(q, s.log) + [v] + [] == By(q, s.log) + [v];
    }
  }

  lemma StoreInv(s: State, p: nat)
    requires Inv(s) && Enabled(s, Store(p))
    ensures Inv(Apply(s, Store(p)))
  {
    hide Shape, Slots, Producers, Linker, Workers, Exclusive, Order;
    var s' := Apply(s, Store(p));
    ShapeSame(s, s');
    ProducerFact(s, p);
    StoreProducers(s, s', p);
    LinkerSame(s, s', p);
    WorkersSame(s, s');
    ExclusiveSame(s, s');
    FlyingUpdate(s, s', p);
    OrderMoved(s, s', p);
  }

  lemma StoreProducers(s: State, s': State, p: nat)
    requires Producers(s) && Slots(s) && p in s.producers && s.producers[p].Reserved? && s' == Apply(s, Store(p))
    ensures Producers(s') && Slots(s')
  {
    var Reserved(v, node, index) := s.producers[p];
    assert ProducerOk(s, p);
    forall q | q in s'.producers
      ensures ProducerOk(s', q)
    {
      assert ProducerOk(s, q);
      if q != p && s.producers[q].Reserved? && (s.producers[q].node, s.producers[q].idx) == (node, index) {
        assert false;
      }
    }
    forall n: nat, i: nat | i < SIZE && Pos(n, i) < |s'.log|
      ensures
        || (n, i) in s'.slots
        || (&& s'.log[Pos(n, i)].0 in s'.producers
            && s'.producers[s'.log[Pos(n, i)].0] == Reserved(s'.log[Pos(n, i)].1, n, i))
    {
      if (n, i) != (node, index) {
        assert (n, i) in s.slots || s.producers[s.log[Pos(n, i)].0] == Reserved(s.log[Pos(n, i)].1, n, i);
      }
    }
  }

  /** The holder of the last slot of the newest segment is the only one. */
  lemma OneHolder(s: State, p: nat, q: nat)
    requires Producers(s) && p in s.producers && q in s.producers
    requires Holds(s.producers[p], s.tail, LAST) && Holds(s.producers[q], s.tail, LAST)
    ensures p == q
  {
    assert ProducerOk(s, p) && ProducerOk(s, q);
  }

  lemma LinkShape(s: State, s': State, p: nat)
    requires Shape(s) && Linker(s) && Enabled(s, Link(p)) && ProducerOk(s, p) && s' == Apply(s, Link(p))
    ensures Shape(s') && Linker(s')
    ensures s.heads[s.tail] >= SIZE
  {
  }

  lemma AdvanceShape(s: State, s': State, p: nat)
    requires Shape(s) && Linker(s) && Enabled(s, Advance(p)) && ProducerOk(s, p) && s' == Apply(s, Advance(p))
    ensures Shape(s') && Linker(s') && s'.tail == s.tail + 1
  {
  }

  /** While p replaces the newest segment, no other producer depends on which segment that is. */
  lemma ReplaceProducers(s: State, s': State, p: nat)
    requires Producers(s) && Moved(s, s', p) && Holds(s.producers[p], s.tail, LAST) && ProducerOk(s', p)
    requires s.tail <= s'.tail && s'.log == s.log && s'.slots == s.slots
    ensures Producers(s')
  {
    forall q | q in s'.producers && q != p
      ensures ProducerOk(s', q)
    {
      assert ProducerOk(s, q);
      if Holds(s.producers[q], s.tail, LAST) { OneHolder(s, p, q); }
    }
  }

  lemma LinkInv(s: State, p: nat)
    requires Inv(s) && Enabled(s, Link(p))
    ensures Inv(Apply(s, Link(p)))
  {
    hide Shape, Linker, Slots, Producers, Workers, Exclusive, Order;
    var s' := Apply(s, Link(p));
    ProducerFact(s, p);
    LinkShape(s, s', p);
    SlotsSame(s, s', p);
    ReplaceProducers(s, s', p);
    LinkWorkers(s, s');
    ExclusiveSame(s, s');
    FlyingUpdate(s, s', p);
    OrderMoved(s, s', p);
  }

  lemma LinkWorkers(s: State, s': State)
    requires Workers(s) && s'.workers == s.workers && s'.tails == s.tails + [0] && s'.head == s.head
    requires s'.popped == s.popped
    requires s.count == s'.count && s.log == s'.log && s.slots == s'.slots
    ensures Workers(s')
  {
    forall t | t in s'.workers
      ensures WorkerOk(s', s'.workers[t])
    {
      assert WorkerOk(s, s.workers[t]);
    }
    assert Resting(s) ==> Resting(s');
  }

  lemma AdvanceInv(s: State, p: nat)
    requires Inv(s) && Enabled(s, Advance(p))
    ensures Inv(Apply(s, Advance(p)))
  {
    hide Shape, Linker, Slots, Producers, Workers, Exclusive, Order;
    var s' := Apply(s, Advance(p));
    ProducerFact(s, p);
    AdvanceShape(s, s', p);
    SlotsSame(s, s', p);
    ReplaceProducers(s, s', p);
    WorkersSame(s, s');
    ExclusiveSame(s, s');
    FlyingUpdate(s, s', p);
    OrderMoved(s, s', p);
  }

  // ---- Consumer steps ----

  lemma TryLockInv(s: State, t: nat)
    requires Inv(s) && Enabled(s, TryLock(t))
    ensures Inv(Apply(s, TryLock(t)))
  {
    hide Shape, Slots, Producers, Linker, Order, Workers, Exclusive;
    var s' := Apply(s, TryLock(t));
    ShapeSame(s, s');
    ConsumerFrame(s, s');
    OrderFrame(s, s');
    TryLockWorkers(s, s', t);
  }

  lemma TryLockWorkers(s: State, s': State, t: nat)
    requires Workers(s) && Exclusive(s) && Enabled(s, TryLock(t)) && s' == Apply(s, TryLock(t))
    ensures Workers(s') && Exclusive(s')
  {
    hide Resting;
    RestingSame(s, s');
    forall u | u in s'.workers
      ensures WorkerOk(s', s'.workers[u])
    {
      assert WorkerOk(s, s.workers[u]);
    }
    if forall u :: u in s'.workers ==> !MidPop(s'.workers[u]) {
      forall u | u in s.workers
        ensures !MidPop(s.workers[u])
      {
        assert u in s'.workers && (u != t ==> s'.workers[u] == s.workers[u]);
      }
    }
  }

  lemma RestingSame(s: State, s': State)
    requires s'.head == s.head && s'.tails == s.tails && s'.popped == s.popped
    ensures Resting(s) <==> Resting(s')
  {
  }

  /** A thread inside is where its own record says, and between pops the consumer is at rest. */
  lemma WorkerFact(s: State, t: nat)
    requires Workers(s) && Exclusive(s) && t in s.workers && Inside(s.workers[t])
    ensures WorkerOk(s, s.workers[t]) && (MidPop(s.workers[t]) || Resting(s))
    ensures s.locker && forall k :: s.head < k < |s.tails| ==> s.tails[k] == 0
  {
  }

  lemma SnapshotInv(s: State, t: nat)
    requires Inv(s) && Enabled(s, Snapshot(t))
    ensures Inv(Apply(s, Snapshot(t)))
  {
    hide Shape, Slots, Producers, Linker, Order, Workers, Exclusive;
    var s' := Apply(s, Snapshot(t));
    WorkerFact(s, t);
    ShapeSame(s, s');
    ConsumerFrame(s, s');
    OrderFrame(s, s');
    WorkersMoved(s, s', t);
    ExclusiveMoved(s, s', t);
  }

  lemma FetchInv(s: State, t: nat)
    requires Inv(s) && Enabled(s, Fetch(t))
    ensures Inv(Apply(s, Fetch(t)))
  {
    hide Shape, Slots, Producers, Linker, Order, Workers, Exclusive;
    var s' := Apply(s, Fetch(t));
    WorkerFact(s, t);
    ShapeSame(s, s');
    ConsumerFrame(s, s');
    OrderFrame(s, s');
    WorkersMoved(s, s', t);
    ExclusiveMoved(s, s', t);
  }

  /** A position below the reservations holds what was reserved there, or nothing yet. */
  lemma SlotFact(s: State, n: nat, i: nat)
    requires Slots(s) && (n, i) in s.slots
    ensures i < SIZE && Pos(n, i) < |s.log| && s.slots[(n, i)] == s.log[Pos(n, i)].1
  {
  }

  lemma TakeInv(s: State, t: nat)
    requires Inv(s) && Enabled(s, Take(t))
    ensures Inv(Apply(s, Take(t)))
  {
    hide Shape, Slots, Producers, Linker, Order, Workers, Exclusive;
    var s' := Apply(s, Take(t));
    WorkerFact(s, t);
    SlotFact(s, s.workers[t].c.node, s.workers[t].c.idx);
    ShapeSame(s, s');
    ConsumerFrame(s, s');
    OrderFrame(s, s');
    WorkersMoved(s, s', t);
    ExclusiveMoved(s, s', t);
  }

  lemma RetireShape(s: State, s': State, t: nat)
    requires Shape(s) && Enabled(s, Retire(t)) && WorkerOk(s, s.workers[t]) && s' == Apply(s, Retire(t))
    ensures Shape(s') && s'.head == s.head + 1 < |s.tails|
  {
  }

  lemma RetireInv(s: State, t: nat)
    requires Inv(s) && Enabled(s, Retire(t))
    ensures Inv(Apply(s, Retire(t)))
  {
    hide Shape, Slots, Producers, Linker, Order, Workers, Exclusive;
    var s' := Apply(s, Retire(t));
    WorkerFact(s, t);
    RetireShape(s, s', t);
    ConsumerFrame(s, s');
    OrderFrame(s, s');
    WorkersMoved(s, s', t);
    ExclusiveMoved(s, s', t);
  }

  lemma OrderPopped(s: State, s': State, v: Msg)
    requires Order(s) && s'.producers == s.producers && s'.log == s.log && s'.calls == s.calls
    requires |s.popped| < |s.log| && v == s.log[|s.popped|].1 && s'.popped == s.popped + [v]
    ensures Order(s')
  {
  }

  lemma FinishInv(s: State, t: nat)
    requires Inv(s) && Enabled(s, Finish(t))
    ensures Inv(Apply(s, Finish(t)))
  {
    hide Shape, Slots, Producers, Linker, Order, Workers, Exclusive;
    var s' := Apply(s, Finish(t));
    WorkerFact(s, t);
    ShapeSame(s, s');
    ConsumerFrame(s, s');
    OrderPopped(s, s', s.workers[t].c.v);
    WorkersMoved(s, s', t);
    ExclusiveMoved(s, s', t);
  }

  lemma UnlockInv(s: State, t: nat)
    requires Inv(s) && Enabled(s, Unlock(t))
    ensures Inv(Apply(s, Unlock(t)))
  {
    hide Shape, Slots, Producers, Linker, Order, Workers;
    var s' := Apply(s, Unlock(t));
    WorkerFact(s, t);
    ShapeSame(s, s');
    ConsumerFrame(s, s');
    OrderFrame(s, s');
    WorkersMoved(s, s', t);
  }

  lemma StepInv(s: State, step: Step)
    requires Inv(s) && Enabled(s, step)
    ensures Inv(Apply(s, step))
  {
    hide Inv, Apply;
    match step
    case Call(p, v) => CallInv(s, p, v);
    case Load(p) => LoadInv(s, p);
    case Reserve(p) => if s.heads[s.producers[p].node] < SIZE { ReserveInv(s, p); } else { RetryInv(s, p); }
    case Store(p) => StoreInv(s, p);
    case Link(p) => LinkInv(s, p);
    case Advance(p) => AdvanceInv(s, p);
    case Publish(p) => PublishInv(s, p);
    case TryLock(t) => TryLockInv(s, t);
    case Snapshot(t) => SnapshotInv(s, t);
    case Fetch(t) => FetchInv(s, t);
    case Take(t) => TakeInv(s, t);
    case Retire(t) => RetireInv(s, t);
    case Finish(t) => FinishInv(s, t);
    case Unlock(t) => UnlockInv(s, t);
  }

  // ---- Whole runs ----

  predicate CanRun(s: State, steps: seq<Step>)
    decreases |steps|
  {
    steps == [] || (Enabled(s, steps[0]) && CanRun(Apply(s, steps[0]), steps[1..]))
  }

  function Run(s: State, steps: seq<Step>): State
    requires CanRun(s, steps)
    decreases |steps|
  {
    if steps == [] then s else Run(Apply(s, steps[0]), steps[1..])
  }

  lemma {:induction false} RunInv(s: State, steps: seq<Step>)
    requires Inv(s) && CanRun(s, steps)
    ensures Inv(Run(s, steps))
    decreases |steps|
  {
    hide Inv, Apply;
    if steps != [] {
      StepInv(s, steps[0]);
      RunInv(Apply(s, steps[0]), steps[1..]);
    }
  }

  function Values(log: seq<(nat, Msg)>): (vs: seq<Msg>)
    ensures |vs| == |log| && forall k :: 0 <= k < |log| ==> vs[k] == log[k].1
  {
    if log == [] then [] else [log[0].1] + Values(log[1..])
  }

  /** However producers, the consumer and the threads around it are interleaved: what has been popped is the
      start of the reservation order, across segments; that order holds each producer's pushes as it made them,
      all but the one it may still be starting; and no assertion has failed. */
  lemma Linearizable(s0: State, steps: seq<Step>)
    requires Init(s0) && CanRun(s0, steps)
    ensures var s := Run(s0, steps);
            && s.ok
            && |s.popped| <= |s.log| && s.popped == Values(s.log[..|s.popped|])
            && (forall p :: p in s.producers ==> p in s.calls && s.calls[p] == By(p, s.log) + Pending(s.producers[p]))
  {
    InitInv(s0);
    RunInv(s0, steps);
    hide Run;
  }

  /** With nobody in the middle of a push or a pop, a zero count means everything pushed has been popped. */
  lemma DrainedMeansAll(s0: State, steps: seq<Step>)
    requires Init(s0) && CanRun(s0, steps)
    requires var s := Run(s0, steps);
             s.count == 0 && forall p :: p in s.producers ==> s.producers[p].Idle?
    ensures var s := Run(s0, steps);
            s.popped == Values(s.log) && forall p :: p in s.producers ==> p in s.calls && s.calls[p] == By(p, s.log)
  {
    InitInv(s0);
    RunInv(s0, steps);
    var s := Run(s0, steps);
    assert Flying(s) == {};
    forall p | p in s.producers
      ensures p in s.calls && s.calls[p] == By(p, s.log)
    {
      assert By(p, s.log) + [] == By(p, s.log);
    }
  }

  /** The lock admits one thread; during its drain the count covers the pops still to come and never runs ahead
      of the completed pushes; the slot it waits on has been reserved. */
  lemma SafeDrain(s0: State, steps: seq<Step>, t: nat)
    requires Init(s0) && CanRun(s0, steps)
    requires var s := Run(s0, steps);
             t in s.workers && s.workers[t].Draining? && s.workers[t].i < s.workers[t].n
    ensures var s := Run(s0, steps);
            var w := s.workers[t];
            && (forall u :: u in s.workers && u != t ==> s.workers[u].Out?)
            && 0 < w.n - w.i <= s.count == |s.log| - |Flying(s)| - |s.popped|
            && |s.popped| < |s.log|
            && (w.c.Waiting? ==> Pos(w.c.node, w.c.idx) == |s.popped|)
  {
    InitInv(s0);
    RunInv(s0, steps);
  }

  /** A spinning consumer is never stuck: the step it waits for is one that a named producer can take now. */
  lemma WaitEnds(s0: State, steps: seq<Step>, t: nat)
    requires Init(s0) && CanRun(s0, steps)
    requires var s := Run(s0, steps);
             t in s.workers && s.workers[t].Draining? && s.workers[t].c.Waiting?
    ensures var s := Run(s0, steps);
            |s.popped| < |s.log| && (Enabled(s, Take(t)) || Enabled(s, Store(s.log[|s.popped|].0)))
  {
    InitInv(s0);
    RunInv(s0, steps);
    hide Run;
    WaitFact(Run(s0, steps), t);
  }

  lemma WaitFact(s: State, t: nat)
    requires Inv(s) && t in s.workers && s.workers[t].Draining? && s.workers[t].c.Waiting?
    ensures |s.popped| < |s.log| && (Enabled(s, Take(t)) || Enabled(s, Store(s.log[|s.popped|].0)))
  {
    hide Shape, Linker, Producers, Order, Exclusive;
    assert WorkerOk(s, s.workers[t]);
  }

  lemma SwingEnds(s0: State, steps: seq<Step>, t: nat)
    requires Init(s0) && CanRun(s0, steps)
    requires var s := Run(s0, steps);
             t in s.workers && s.workers[t].Draining? && s.workers[t].c.Swing?
    ensures var s := Run(s0, steps);
            |s.popped| < |s.log| &&
            (Enabled(s, Retire(t)) || Enabled(s, Link(s.log[|s.popped|].0)) || Enabled(s, Advance(s.log[|s.popped|].0)))
  {
    InitInv(s0);
    RunInv(s0, steps);
    hide Run;
    var s := Run(s0, steps);
    SwingFact(s, t);
  }

  lemma SwingFact(s: State, t: nat)
    requires Inv(s) && t in s.workers && s.workers[t].Draining? && s.workers[t].c.Swing?
    ensures |s.popped| < |s.log| &&
            (Enabled(s, Retire(t)) || Enabled(s, Link(s.log[|s.popped|].0)) || Enabled(s, Advance(s.log[|s.popped|].0)))
  {
    hide Slots, Order, Exclusive, Counts;
    assert WorkerOk(s, s.workers[t]);
    if s.workers[t].c.node == s.tail {
      var p := s.log[|s.popped|].0;
      assert Holds(s.producers[p], s.tail, LAST);
      assert ProducerOk(s, p);
    }
  }

  // ---- What a drain leaves behind ----

  /** Between runs of the consumer nothing is owed: no pop is ahead of its push, and only a thread inside holds the
      lock. */
  ghost predicate Settled(s: State) {
    Inv(s) && s.count >= 0 && Held(s)
  }

  ghost predicate Held(s: State) {
    s.locker ==> exists t :: t in s.workers && Inside(s.workers[t])
  }

  lemma StepHeld(s: State, step: Step)
    requires Held(s) && Enabled(s, step)
    ensures Held(Apply(s, step))
  {
    var s' := Apply(s, step);
    match step
    case Unlock(t) =>
    case TryLock(t) =>
      if s.locker {
        var u :| u in s.workers && Inside(s.workers[u]);
        assert Inside(s'.workers[u]);
      } else {
        assert Inside(s'.workers[t]);
      }
    case Snapshot(t) => assert Inside(s'.workers[t]);
    case Fetch(t) => assert Inside(s'.workers[t]);
    case Take(t) => assert Inside(s'.workers[t]);
    case Retire(t) => assert Inside(s'.workers[t]);
    case Finish(t) => assert Inside(s'.workers[t]);
    case _ => assert s'.workers == s.workers;
  }

  /** A pop takes away only what the count has. */
  lemma StepCount(s: State, step: Step)
    requires Inv(s) && s.count >= 0 && Enabled(s, step)
    ensures Apply(s, step).count >= 0
  {
    hide Shape, Slots, Producers, Linker, Order, Counts, Exclusive, Resting;
    if step.Finish? {
      assert WorkerOk(s, s.workers[step.t]);
    }
  }

  lemma StepSettled(s: State, step: Step)
    requires Settled(s) && Enabled(s, step)
    ensures Settled(Apply(s, step))
  {
    StepInv(s, step);
    StepHeld(s, step);
    StepCount(s, step);
    hide Inv, Apply, Held;
  }

  lemma {:induction false} RunSettled(s: State, steps: seq<Step>)
    requires Settled(s) && CanRun(s, steps)
    ensures Settled(Run(s, steps))
    decreases |steps|
  {
    hide Settled, Apply;
    if steps != [] {
      StepSettled(s, steps[0]);
      RunSettled(Apply(s, steps[0]), steps[1..]);
    }
  }

  function Publishes(steps: seq<Step>): nat {
    if steps == [] then 0 else (if steps[0].Publish? then 1 else 0) + Publishes(steps[1..])
  }

  /** The drain of thread t has popped i of the n values it found, on top of those popped before. */
  ghost predicate Progress(s: State, t: nat, n: int, popped: nat) {
    && t in s.workers && s.workers[t].Draining? && s.workers[t].n == n
    && s.workers[t].i <= n && |s.popped| == popped + s.workers[t].i
  }

  lemma ProgressStep(s: State, step: Step, t: nat, n: int, popped: nat)
    requires Inv(s) && Enabled(s, step) && Progress(s, t, n, popped) && step != Unlock(t)
    ensures Progress(Apply(s, step), t, n, popped)
    ensures var s' := Apply(s, step);
            s'.count + |s'.popped| == s.count + |s.popped| + Publishes([step])
  {
    hide Shape, Slots, Producers, Linker, Order, Counts, Resting;
    assert WorkerOk(s, s.workers[t]);
    assert [step][1..] == [];
  }

  lemma {:induction false} ProgressRun(s: State, mid: seq<Step>, t: nat, n: int, popped: nat)
    requires Inv(s) && Progress(s, t, n, popped) && Unlock(t) !in mid && CanRun(s, mid + [Unlock(t)])
    ensures var s' := Run(s, mid + [Unlock(t)]);
            |s'.popped| == popped + n && s'.count + |s'.popped| == s.count + |s.popped| + Publishes(mid)
    decreases |mid|
  {
    hide Inv;
    if mid == [] {
      assert mid + [Unlock(t)] == [Unlock(t)];
      var last := Apply(s, Unlock(t));
      assert [] + [Unlock(t)] == [Unlock(t)] && [Unlock(t)][1..] == [];
      assert Run(s, [Unlock(t)]) == Run(last, []) == last;
    } else {
      hide Apply;
      var all := mid + [Unlock(t)];
      assert all[0] == mid[0] && all[1..] == mid[1..] + [Unlock(t)];
      ProgressStep(s, mid[0], t, n, popped);
      StepInv(s, mid[0]);
      ProgressRun(Apply(s, mid[0]), mid[1..], t, n, popped);
      assert [mid[0]][1..] == [];
    }
  }

  /** From the moment a thread reads the count to its next unlock, whatever the others do, exactly as many values are
      popped as the count said, the next ones of the reservation order; what the count says then was published in
      between. */
  lemma DrainsTheCount(s0: State, before: seq<Step>, t: nat, mid: seq<Step>)
    requires Init(s0) && CanRun(s0, before) && Unlock(t) !in mid
    requires CanRun(Run(s0, before), [Snapshot(t)] + (mid + [Unlock(t)]))
    ensures var s := Run(s0, before);
            var s' := Run(s, [Snapshot(t)] + (mid + [Unlock(t)]));
            && |s'.popped| == |s.popped| + s.count
            && |s'.popped| <= |s'.log| && s'.popped == Values(s'.log[..|s.popped| + s.count])
            && s'.count == Publishes(mid)
  {
    hide Apply, Enabled, Inv, Progress, Run, CanRun, Settled;
    StartSettled(s0);
    RunSettled(s0, before);
    var s := Run(s0, before);
    RunFirst(s, Snapshot(t), mid + [Unlock(t)]);
    SnapshotProgress(s, t);
    var s1 := Apply(s, Snapshot(t));
    ProgressRun(s1, mid, t, s.count, |s.popped|);
    RunInv(s1, mid + [Unlock(t)]);
    OrderFact(Run(s1, mid + [Unlock(t)]));
  }

  lemma StartSettled(s: State)
    requires Init(s)
    ensures Settled(s)
  {
    InitInv(s);
  }

  lemma RunFirst(s: State, step: Step, rest: seq<Step>)
    requires CanRun(s, [step] + rest)
    ensures Enabled(s, step) && CanRun(Apply(s, step), rest)
    ensures Run(s, [step] + rest) == Run(Apply(s, step), rest)
  {
    hide Apply, Enabled;
    assert ([step] + rest)[1..] == rest;
  }

  lemma SnapshotProgress(s: State, t: nat)
    requires Settled(s) && Enabled(s, Snapshot(t))
    ensures var s' := Apply(s, Snapshot(t));
            Inv(s') && Progress(s', t, s.count, |s.popped|) && s'.count == s.count && s'.popped == s.popped
  {
    hide Inv, Apply, Progress;
    StepInv(s, Snapshot(t));
    SnapshotIs(s, t);
  }

  lemma SnapshotIs(s: State, t: nat)
    requires s.count >= 0 && Enabled(s, Snapshot(t))
    ensures var s' := Apply(s, Snapshot(t));
            Progress(s', t, s.count, |s.popped|) && s'.count == s.count && s'.popped == s.popped
  {
  }

  lemma OrderFact(s: State)
    requires Inv(s)
    ensures |s.popped| <= |s.log| && s.popped == Values(s.log[..|s.popped|])
  {
  }

  /** A thread that tries the lock gets in exactly when no thread is inside. */
  lemma LockAdmits(s0: State, steps: seq<Step>, t: nat)
    requires Init(s0) && CanRun(s0, steps) && Enabled(Run(s0, steps), TryLock(t))
    ensures var s := Run(s0, steps);
            Inside(Apply(s, TryLock(t)).workers[t]) <==> forall u :: u in s.workers ==> s.workers[u].Out?
  {
    StartSettled(s0);
    RunSettled(s0, steps);
    hide Run, Settled;
    LockFact(Run(s0, steps), t);
  }

  lemma LockFact(s: State, t: nat)
    requires Settled(s) && Enabled(s, TryLock(t))
    ensures Inside(Apply(s, TryLock(t)).workers[t]) <==> forall u :: u in s.workers ==> s.workers[u].Out?
  {
    hide Shape, Slots, Producers, Linker, Order, Counts, Workers;
    if s.locker {
      var u :| u in s.workers && Inside(s.workers[u]);
      assert !s.workers[u].Out?;
    }
  }

  ghost predicate ProducerCanMove(s: State, p: nat)
    requires p in s.producers
  {
    match s.producers[p]
    case Idle => Enabled(s, Call(p, 1))
    case Start(_) => Enabled(s, Load(p))
    case Loaded(_, _) => Enabled(s, Reserve(p))
    case Reserved(_, _, _) => Enabled(s, Store(p))
    case Filled(_) => Enabled(s, Link(p))
    case Linked(_) => Enabled(s, Advance(p))
    case Ready => Enabled(s, Publish(p))
  }

  ghost predicate WorkerCanMove(s: State, t: nat)
    requires t in s.workers
  {
    match s.workers[t]
    case Out => Enabled(s, TryLock(t))
    case Locked => Enabled(s, Snapshot(t))
    case Draining(i, n, AtAssert) => if i < n then Enabled(s, Fetch(t)) else Enabled(s, Unlock(t))
    case Draining(_, _, Leaving(_)) => Enabled(s, Finish(t))
    case Draining(_, _, Waiting(_, _)) => Enabled(s, Take(t)) || exists p :: Enabled(s, Store(p))
    case Draining(_, _, Swing(_, _)) =>
      Enabled(s, Retire(t)) || exists p :: Enabled(s, Link(p)) || Enabled(s, Advance(p))
  }

  /** Nobody is ever stuck: a producer can always take its next step, and so can a thread, unless it spins on a step
      that some producer can take. */
  lemma NeverStuck(s0: State, steps: seq<Step>)
    requires Init(s0) && CanRun(s0, steps)
    ensures var s := Run(s0, steps);
            && (forall p :: p in s.producers ==> ProducerCanMove(s, p))
            && (forall t :: t in s.workers ==> WorkerCanMove(s, t))
  {
    InitInv(s0);
    RunInv(s0, steps);
    hide Run, Inv, ProducerCanMove, WorkerCanMove;
    var s := Run(s0, steps);
    forall p | p in s.producers
      ensures ProducerCanMove(s, p)
    {
      ProducerNext(s, p);
    }
    forall t | t in s.workers
      ensures WorkerCanMove(s, t)
    {
      WorkerNext(s, t);
    }
  }

  lemma ProducerNext(s: State, p: nat)
    requires Inv(s) && p in s.producers
    ensures ProducerCanMove(s, p)
  {
    hide Slots, Linker, Counts, Exclusive, Workers;
    assert ProducerOk(s, p);
    assert p in s.calls;
    hide Order;
  }

  lemma WorkerNext(s: State, t: nat)
    requires Inv(s) && t in s.workers
    ensures WorkerCanMove(s, t)
  {
    hide Slots, Linker, Counts, Exclusive, Shape, Producers, Order;
    if s.workers[t].Draining? && s.workers[t].c.Waiting? {
      WaitFact(s, t);
    } else if s.workers[t].Draining? && s.workers[t].c.Swing? {
      SwingFact(s, t);
    }
  }

  /** A producer that finds the newest segment full tries again until it is replaced, which a named producer is about
      to do. */
  lemma FullEnds(s0: State, steps: seq<Step>)
    requires Init(s0) && CanRun(s0, steps)
    requires var s := Run(s0, steps);
             s.tail < |s.heads| && s.heads[s.tail] >= SIZE
    ensures var s := Run(s0, steps);
            && Pos(s.tail, LAST) < |s.log|
            && var p := s.log[Pos(s.tail, LAST)].0;
               Enabled(s, Store(p)) || Enabled(s, Link(p)) || Enabled(s, Advance(p))
  {
    InitInv(s0);
    RunInv(s0, steps);
    hide Run, Inv;
    FullFact(Run(s0, steps));
  }

  lemma FullFact(s: State)
    requires Inv(s) && s.heads[s.tail] >= SIZE
    ensures Pos(s.tail, LAST) < |s.log|
    ensures var p := s.log[Pos(s.tail, LAST)].0;
            Enabled(s, Store(p)) || Enabled(s, Link(p)) || Enabled(s, Advance(p))
  {
    hide Slots, Counts, Exclusive, Workers, Order;
    assert Holds(s.producers[s.log[Pos(s.tail, LAST)].0], s.tail, LAST);
    hide Linker;
    var p := s.log[Pos(s.tail, LAST)].0;
    assert ProducerOk(s, p);
  }
}
