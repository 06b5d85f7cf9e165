/** What a timer manager owes each timer over a run: how often its callback has run, what its target is by then, and
    that nothing runs after a cancel. */
module TimerLives {
  import opened Bytes
  import opened Collections
  import opened TimerWheel

  // ---- What callbacks do ----

  /** The timers a callback cancels. */
  function CancelledBy(cancels: map<int, set<int>>, id: int): set<int> {
    if id in cancels then cancels[id] else {}
  }

  /** What all the callbacks that ran cancel. */
  ghost function Cancelled(ran: seq<int>, cancels: map<int, set<int>>): set<int> {
    set r, id | r in ran && id in CancelledBy(cancels, r) :: id
  }

  lemma CancelledSnoc(ran: seq<int>, id: int, cancels: map<int, set<int>>)
    ensures Cancelled(ran + [id], cancels) == Cancelled(ran, cancels) + CancelledBy(cancels, id)
  {
    hide CancelledBy;
    assert forall r :: r in ran + [id] <==> r in ran || r == id;
    forall x
      ensures x in Cancelled(ran + [id], cancels) <==> x in Cancelled(ran, cancels) + CancelledBy(cancels, id)
    {
      if x in CancelledBy(cancels, id) { assert id in ran + [id]; }
    }
  }

  lemma CancelledCons(id: int, ran: seq<int>, cancels: map<int, set<int>>)
    ensures Cancelled([id] + ran, cancels) == CancelledBy(cancels, id) + Cancelled(ran, cancels)
  {
    hide CancelledBy;
    assert forall r :: r in [id] + ran <==> r == id || r in ran;
    forall x
      ensures x in Cancelled([id] + ran, cancels) <==> x in CancelledBy(cancels, id) + Cancelled(ran, cancels)
    {
      if x in CancelledBy(cancels, id) { assert id in [id] + ran; }
    }
  }

  /** How often a callback ran. */
  function Runs(ran: seq<int>, id: int): (n: nat)
    ensures n > 0 <==> id in ran
  {
    if ran == [] then 0 else (if ran[0] == id then 1 else 0) + Runs(ran[1..], id)
  }

  lemma RunsCons(x: int, ran: seq<int>, id: int)
    ensures Runs([x] + ran, id) == (if x == id then 1 else 0) + Runs(ran, id)
  {
    assert ([x] + ran)[1..] == ran;
  }

  lemma {:induction false} RunsOnce(ran: seq<int>, id: int)
    requires Distinct(ran)
    ensures Runs(ran, id) == if id in ran then 1 else 0
    decreases |ran|
  {
    if ran != [] {
      RunsOnce(ran[1..], id);
      assert ran == [ran[0]] + ran[1..];
    }
  }

  /** How often a callback ran in several batches. */
  function Total(rans: seq<seq<int>>, id: int): (n: nat)
    ensures n > 0 <==> exists k :: 0 <= k < |rans| && id in rans[k]
  {
    if rans == [] then 0 else
    var m := |rans| - 1;
    assert forall k :: 0 <= k < m ==> rans[..m][k] == rans[k];
    Total(rans[..m], id) + Runs(rans[m], id)
  }

  // ---- The life of a timer ----

  /** The target of a timer that has run so often. */
  function TargetAfter(first: int, interval: int, ran: nat): int { first + ran * interval }

  /** What a timer was added with, how often its callback has run, and whether it has been cancelled. */
  datatype Life = Life(kind: TimerType, first: int, interval: int, ran: nat, cancelled: bool) {
    function Target(): int { TargetAfter(first, interval, ran) }

    /** A timer still held: its target is the first one and an interval more for every time it ran. */
    predicate Fits(t: TimerState) {
      && t.kind == kind && t.interval == interval && t.bePoint == Target() && t.deleted == cancelled
      && (kind == OnceTimer ==> ran == 0)
    }

    predicate Pending() { !cancelled && (kind == OnceTimer ==> ran == 0) }
  }

  type Lives = map<int, Life>

  function NewLife(t: TimerState): Life { Life(t.kind, t.bePoint, t.interval, 0, t.deleted) }

  function LivesAfter(lives: Lives, ran: seq<int>, cancelled: set<int>): (r: Lives)
    ensures forall id :: id in r <==> id in lives
  {
    map id | id in lives ::
      lives[id].(ran := lives[id].ran + Runs(ran, id), cancelled := lives[id].cancelled || id in cancelled)
  }

  /** Some time later: nothing is taken back, and a cancelled timer has not run again. */
  ghost predicate Evolves(lives: Lives, lives': Lives) {
    forall id :: id in lives ==>
      && id in lives'
      && lives'[id].kind == lives[id].kind
      && lives'[id].first == lives[id].first && lives'[id].interval == lives[id].interval
      && lives'[id].ran >= lives[id].ran
      && (lives[id].cancelled ==> lives'[id].cancelled && lives'[id].ran == lives[id].ran)
  }

  /** A timer's life over its turn in a batch. */
  lemma LifeGoesOn(l: Life, t: TimerState, tick: int, n: nat, cancelled: bool)
    requires l.Fits(t) && n <= 1 && (!cancelled && !t.deleted ==> n == 1)
    ensures var l' := l.(ran := l.ran + n, cancelled := l.cancelled || cancelled);
            && (l.kind == OnceTimer ==> l'.ran <= 1)
            && (l.kind != OnceTimer && !cancelled && !t.deleted ==> l'.Fits(Reattach(t, tick)))
            && (l'.Pending() ==> l.kind != OnceTimer && !cancelled && !t.deleted)
  {
    assert (l.ran + 1) * l.interval == l.ran * l.interval + l.interval;
  }

  lemma LivesCancelled(lives: Lives, id: int)
    ensures var lives' := LivesAfter(lives, [], {id});
            && lives'.Keys == lives.Keys
            && forall k :: k in lives ==> lives'[k] == lives[k].(cancelled := lives[k].cancelled || k == id)
  {
  }

  /** The id after the last one; 0 is left out when the counter wraps. */
  function NextId(lastTimerID: uint32): (id: uint32)
    ensures id != 0
  {
    if lastTimerID == 0xFFFF_FFFF then 1 else lastTimerID + 1
  }

  /** The id given to the k-th timer from now. */
  function IdAfter(last: uint32, k: nat): uint32 {
    if k == 0 then last else NextId(IdAfter(last, k - 1))
  }

  /** Ids count on, and come round again after exactly 2^32 - 1 timers. */
  lemma {:induction false} IdsCountOn(last: uint32, k: nat)
    requires k > 0
    ensures IdAfter(last, k) == 1 + (last + k - 1) % 0xFFFF_FFFF
  {
    if k == 1 {
      assert IdAfter(last, 0) == last;
    } else {
      IdsCountOn(last, k - 1);
      CountsOn(last + k - 2);
    }
  }

  lemma CountsOn(n: nat)
    ensures (n + 1) % 0xFFFF_FFFF == if n % 0xFFFF_FFFF == 0xFFFF_FFFE then 0 else n % 0xFFFF_FFFF + 1
  {
  }

  // ---- Runs ----

  /** A call of a manager; Op are the calls that differ between managers. */
  datatype Event<Op> = AddCall(t: TimerState) | CancelCall(id: int) | Operate(op: Op)

  /** One call as the books see it: the callbacks that ran, and the timers it cancelled. */
  ghost predicate Lived<Op>(e: Event<Op>, lives: Lives, lives': Lives, ran: seq<int>, gone: set<int>) {
    && Evolves(lives, lives')
    && (forall id :: id in lives' ==> lives'[id].ran == RanBefore(lives, id) + Runs(ran, id))
    && (forall id :: id in ran ==> id in lives)
    && (forall id :: id in lives' && id !in lives ==> e.AddCall? && lives'[id] == NewLife(e.t))
    && (forall id :: id in gone && id in lives ==> lives'[id].cancelled)
  }

  function RanBefore(lives: Lives, id: int): nat { if id in lives then lives[id].ran else 0 }

  ghost predicate LivedThrough<Op>(events: seq<Event<Op>>, history: seq<Lives>, rans: seq<seq<int>>,
                                   gone: seq<set<int>>) {
    && |rans| == |gone| == |events| && |history| == |events| + 1
    && forall i :: 0 <= i < |events| ==> Lived(events[i], history[i], history[i + 1], rans[i], gone[i])
  }

  lemma LivedStart<Op>(events: seq<Event<Op>>, lives: Lives)
    requires events == []
    ensures LivedThrough(events, [lives], [], [])
  {
  }

  lemma LivedSnoc<Op>(events: seq<Event<Op>>, history: seq<Lives>, rans: seq<seq<int>>, gone: seq<set<int>>,
                      e: Event<Op>, lives: Lives, ran: seq<int>, more: set<int>)
    requires LivedThrough(events, history, rans, gone) && Lived(e, history[|events|], lives, ran, more)
    ensures LivedThrough(events + [e], history + [lives], rans + [ran], gone + [more])
  {
    hide Lived;
  }

  lemma {:induction false} EvolvesOver<Op>(events: seq<Event<Op>>, history: seq<Lives>, rans: seq<seq<int>>,
                                           gone: seq<set<int>>, i: nat, j: nat)
    requires LivedThrough(events, history, rans, gone) && i <= j <= |events|
    ensures Evolves(history[i], history[j])
    decreases j - i
  {
    if i < j {
      EvolvesOver(events, history, rans, gone, i, j - 1);
      assert Lived(events[j - 1], history[j - 1], history[j], rans[j - 1], gone[j - 1]);
    }
  }

  /** A timer once cancelled, by a call or by a callback, runs in no later call. */
  lemma Silenced<Op>(events: seq<Event<Op>>, history: seq<Lives>, rans: seq<seq<int>>, gone: seq<set<int>>)
    requires LivedThrough(events, history, rans, gone)
    ensures forall i, j, id :: 0 <= i < j < |events| && id in gone[i] && id in history[i] ==> id !in rans[j]
  {
    forall i, j, id | 0 <= i < j < |events| && id in gone[i] && id in history[i]
      ensures id !in rans[j]
    {
      assert Lived(events[i], history[i], history[i + 1], rans[i], gone[i]);
      EvolvesOver(events, history, rans, gone, i + 1, j);
      assert Lived(events[j], history[j], history[j + 1], rans[j], gone[j]);
    }
  }

  /** The books count every callback. */
  lemma {:induction false} RunCounts<Op>(events: seq<Event<Op>>, history: seq<Lives>, rans: seq<seq<int>>,
                                         gone: seq<set<int>>)
    requires LivedThrough(events, history, rans, gone)
    ensures forall id :: id in history[|events|] ==>
              history[|events|][id].ran == RanBefore(history[0], id) + Total(rans, id)
    decreases |events|
  {
    if events != [] {
      var n := |events| - 1;
      RunCounts(events[..n], history[..n + 1], rans[..n], gone[..n]);
      assert Lived(events[n], history[n], history[n + 1], rans[n], gone[n]);
      EvolvesOver(events, history, rans, gone, 0, n);
      forall id | id in history[n + 1]
        ensures history[n + 1][id].ran == RanBefore(history[0], id) + Total(rans, id)
      {
        if id !in history[n] {
          NotBefore(events[..n], history[..n + 1], rans[..n], gone[..n], id);
        }
      }
    }
  }

  lemma NotBefore<Op>(events: seq<Event<Op>>, history: seq<Lives>, rans: seq<seq<int>>, gone: seq<set<int>>, id: int)
    requires LivedThrough(events, history, rans, gone) && id !in history[|events|]
    ensures Total(rans, id) == 0
  {
    forall k | 0 <= k < |rans|
      ensures id !in rans[k]
    {
      assert Lived(events[k], history[k], history[k + 1], rans[k], gone[k]);
      EvolvesOver(events, history, rans, gone, k, |events|);
    }
  }
}
