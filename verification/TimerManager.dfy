/** The multi-thread timer manager (CommBase/Timer/TimerManager.cpp): the same wheel, but callbacks run in the middle of
    a slot's visit, and loop timers go back at once. */
module TimerManager {
  import opened Bytes
  import opened Collections
  import opened TimerLives
  import opened TimerWheel
  import opened TimerSlots

  /** One timer of the slot, whether or not it has been cancelled meanwhile: its countdown, and what follows. */
  function Step(w: Wheel, id: int, slot: nat, tick: int, cancels: map<int, set<int>>): (Wheel, bool)
    requires slot < SLOT_COUNT && id in w
  {
    var t := w[id].t;
    match VisitTimer(t.(deleted := false), slot, tick)
    case Dropped => (w, false)
    case Fired(t') => (MarkAll(w[id := Place(slot, t'.(deleted := t.deleted))], CancelledBy(cancels, id)), true)
    case Stays(t') => (w[id := Place(slot, t'.(deleted := t.deleted))], false)
    case Moves(t', s) => (w[id := Place(s, t'.(deleted := t.deleted))], false)
  }

  /** The middle loop of Slot::OnTick: the wheel it leaves and the callbacks it runs. */
  function Visits(w: Wheel, ids: seq<int>, slot: nat, tick: int, cancels: map<int, set<int>>): (r: (Wheel, seq<int>))
    requires slot < SLOT_COUNT && forall id :: id in ids ==> id in w
    ensures r.0.Keys == w.Keys
    decreases |ids|
  {
    if ids == [] then (w, []) else
    var n := |ids| - 1;
    assert forall id :: id in ids[..n] ==> id in ids;
    var (w1, ran) := Visits(w, ids[..n], slot, tick, cancels);
    assert ids[n] in ids;
    var (w2, due) := Step(w1, ids[n], slot, tick, cancels);
    (w2, if due then ran + [ids[n]] else ran)
  }

  predicate Due(w: Wheel, id: int, tick: int) {
    id in w && OnTickEx(w[id].t, tick).0
  }

  lemma DueIsFired(t: TimerState, slot: nat, tick: int)
    requires slot < SLOT_COUNT
    ensures VisitTimer(t.(deleted := false), slot, tick).Fired? <==> OnTickEx(t, tick).0
    ensures !VisitTimer(t.(deleted := false), slot, tick).Dropped?
  {
  }

  /** A timer with the mark it has after some cancels. */
  function Marked(p: Place, ids: set<int>, id: int): Place {
    if id in ids then p.(t := p.t.(deleted := true)) else p
  }

  /** What a visit of its slot does to a timer, marks apart. */
  function Moved(p: Place, slot: nat, tick: int): Place
    requires slot < SLOT_COUNT
  {
    match VisitTimer(p.t.(deleted := false), slot, tick)
    case Dropped => p
    case Fired(t) => Place(slot, t.(deleted := p.t.deleted))
    case Stays(t) => Place(slot, t.(deleted := p.t.deleted))
    case Moves(t, s) => Place(s, t.(deleted := p.t.deleted))
  }

  lemma StepIs(w: Wheel, id: int, slot: nat, tick: int, cancels: map<int, set<int>>)
    requires slot < SLOT_COUNT && id in w
    ensures var (w', due) := Step(w, id, slot, tick, cancels);
            && due == Due(w, id, tick) && w'.Keys == w.Keys
            && forall k :: k in w ==>
                 w'[k] == Marked(if k == id then Moved(w[id], slot, tick) else w[k],
                                 if due then CancelledBy(cancels, id) else {}, k)
  {
    DueIsFired(w[id].t, slot, tick);
  }

  lemma MarkedMoved(p: Place, slot: nat, tick: int, ids: set<int>, id: int)
    requires slot < SLOT_COUNT
    ensures Moved(Marked(p, ids, id), slot, tick) == Marked(Moved(p, slot, tick), ids, id)
    ensures OnTickEx(Marked(p, ids, id).t, tick).0 == OnTickEx(p.t, tick).0
  {
    assert Marked(p, ids, id).t.(deleted := false) == p.t.(deleted := false);
    DueIsFired(p.t, slot, tick);
    DueIsFired(Marked(p, ids, id).t, slot, tick);
  }

  /** The callbacks of a visit are exactly those of the timers due at its start, in order: a cancel by an earlier
      callback of the same visit comes too late. Every timer has done its step and carries the cancels of all. */
  lemma {:induction false} VisitsExactly(w: Wheel, ids: seq<int>, slot: nat, tick: int, cancels: map<int, set<int>>)
    requires slot < SLOT_COUNT && Distinct(ids) && forall id :: id in ids ==> id in w
    ensures var (w', ran) := Visits(w, ids, slot, tick, cancels);
            && ran == DueOf(w, ids, tick)
            && forall k :: k in w ==>
                 w'[k] == Marked(if k in ids then Moved(w[k], slot, tick) else w[k], Cancelled(ran, cancels), k)
    decreases |ids|
  {
    if ids != [] {
      var n := |ids| - 1;
      var id := ids[n];
      assert ids == ids[..n] + [id] && id in ids && id !in ids[..n];
      VisitsExactly(w, ids[..n], slot, tick, cancels);
      var (w1, ran) := Visits(w, ids[..n], slot, tick, cancels);
      VisitsSnoc(w, ids, slot, tick, cancels);
      hide Visits, Moved, CancelledBy, Cancelled, OnTickEx, Step, Marked;
      OneMore(w, w1, ids[..n], id, slot, tick, cancels, ran);
    }
  }

  /** The last step of a visit. */
  lemma OneMore(w: Wheel, w1: Wheel, ids: seq<int>, id: int, slot: nat, tick: int, cancels: map<int, set<int>>,
                ran: seq<int>)
    requires slot < SLOT_COUNT && id in w && id !in ids && w1.Keys == w.Keys && id in w1
    requires forall k :: k in w ==>
               w1[k] == Marked(if k in ids then Moved(w[k], slot, tick) else w[k], Cancelled(ran, cancels), k)
    ensures var (w2, due) := Step(w1, id, slot, tick, cancels);
            var ran' := if due then ran + [id] else ran;
            && due == Due(w, id, tick) && w2.Keys == w.Keys
            && forall k :: k in w ==>
                 w2[k] == Marked(if k in ids + [id] then Moved(w[k], slot, tick) else w[k], Cancelled(ran', cancels), k)
  {
    hide Moved, CancelledBy, Cancelled, OnTickEx, Step;
    StepIs(w1, id, slot, tick, cancels);
    MarkedMoved(w[id], slot, tick, Cancelled(ran, cancels), id);
    CancelledSnoc(ran, id, cancels);
  }

  lemma VisitsSnoc(w: Wheel, ids: seq<int>, slot: nat, tick: int, cancels: map<int, set<int>>)
    requires slot < SLOT_COUNT && ids != [] && forall id :: id in ids ==> id in w
    ensures var n := |ids| - 1;
            && (forall id :: id in ids[..n] ==> id in w) && ids[n] in Visits(w, ids[..n], slot, tick, cancels).0
            && var (w1, ran) := Visits(w, ids[..n], slot, tick, cancels);
               var (w2, due) := Step(w1, ids[n], slot, tick, cancels);
               Visits(w, ids, slot, tick, cancels) == (w2, if due then ran + [ids[n]] else ran)
  {
    var n := |ids| - 1;
    var last := ids[n];
    assert last in ids && last in w;
    assert forall id :: id in ids[..n] ==> id in ids;
    assert last in Visits(w, ids[..n], slot, tick, cancels).0.Keys;
  }

  /** The timers of a list that are due. */
  function DueOf(w: Wheel, ids: seq<int>, tick: int): seq<int>
    decreases |ids|
  {
    if ids == [] then [] else
    var n := |ids| - 1;
    DueOf(w, ids[..n], tick) + if Due(w, ids[n], tick) then [ids[n]] else []
  }

  /** Which callbacks run does not depend on what they cancel. */
  lemma CancelsComeTooLate(w: Wheel, ids: seq<int>, slot: nat, tick: int, cancels: map<int, set<int>>, id: int)
    requires slot < SLOT_COUNT && Distinct(ids) && forall id :: id in ids ==> id in w
    ensures Visits(w, ids, slot, tick, cancels).1 == Visits(w, ids, slot, tick, map[]).1
    ensures id in Visits(w, ids, slot, tick, cancels).1 <==> id in ids && Due(w, id, tick)
  {
    VisitsExactly(w, ids, slot, tick, cancels);
    VisitsExactly(w, ids, slot, tick, map[]);
    DueOfExactly(w, ids, tick, id);
  }

  lemma {:induction false} DueOfExactly(w: Wheel, ids: seq<int>, tick: int, id: int)
    ensures id in DueOf(w, ids, tick) <==> id in ids && Due(w, id, tick)
    decreases |ids|
  {
    if ids != [] {
      var n := |ids| - 1;
      DueOfExactly(w, ids[..n], tick, id);
      assert id in ids <==> id in ids[..n] || id == ids[n];
    }
  }

  lemma {:induction false} DueDistinct(w: Wheel, ids: seq<int>, tick: int)
    requires Distinct(ids)
    ensures Distinct(DueOf(w, ids, tick))
    decreases |ids|
  {
    if ids != [] {
      var n := |ids| - 1;
      var id := ids[n];
      assert id !in ids[..n];
      DueDistinct(w, ids[..n], tick);
      DueOfExactly(w, ids[..n], tick, id);
      var d := DueOf(w, ids[..n], tick);
      assert forall i :: 0 <= i < |d| ==> d[i] in d;
    }
  }

  /** The timers of a slot that are not cancelled, in id order. */
  ghost predicate IsBatch(ids: seq<int>, w: Wheel, slot: nat) {
    && (forall id :: id in ids <==> id in w && w[id].slot == slot && !w[id].t.deleted)
    && (forall i, j :: 0 <= i < j < |ids| ==> ids[i] < ids[j])
  }

  /** The wheel without the cancelled timers of a slot. */
  ghost predicate IsSwept(w': Wheel, w: Wheel, slot: nat) {
    && (forall id :: id in w' <==> id in w && !(w[id].slot == slot && w[id].t.deleted))
    && (forall id :: id in w' ==> w'[id] == w[id])
  }

  predicate Again(t: TimerState) { t.kind != OnceTimer && !t.deleted }

  function Replaced(t: TimerState, curr: nat, tick: int): Place {
    Place(SlotFor(curr, Reattach(t, tick).ticks), Reattach(t, tick))
  }

  /** After the visit: timers that fired leave, and loop timers not cancelled by then come back. */
  ghost predicate IsFinished(w': Wheel, w: Wheel, ran: seq<int>, curr: nat, tick: int) {
    && (forall id :: id in w' <==> id in w && (id in ran ==> Again(w[id].t)))
    && (forall id :: id in w' ==> w'[id] == if id in ran then Replaced(w[id].t, curr, tick) else w[id])
  }

  /** One whole tick, timer by timer; cancelled holds what the callbacks of the tick cancel. */
  function AfterTick(p: Place, id: int, slot: nat, tick: int, cancelled: set<int>): Option<Place>
    requires slot < SLOT_COUNT
  {
    if p.slot != slot then Some(Marked(p, cancelled, id))
    else if p.t.deleted then None
    else
      var p' := Marked(Moved(p, slot, tick), cancelled, id);
      if !OnTickEx(p.t, tick).0 then Some(p')
      else if Again(p'.t) then Some(Replaced(p'.t, NextSlot(slot), tick)) else None
  }

  ghost predicate TickOf(w: Wheel, w': Wheel, slot: nat, tick: int, ran: seq<int>, cancels: map<int, set<int>>)
    requires slot < SLOT_COUNT
  {
    && w'.Keys <= w.Keys
    && (forall id :: id in w ==>
          AfterTick(w[id], id, slot, tick, Cancelled(ran, cancels)) == if id in w' then Some(w'[id]) else None)
    && (forall id :: id in ran <==> id in w && w[id].slot == slot && !w[id].t.deleted && Due(w, id, tick))
    && Distinct(ran)
  }

  /** What the middle loop leaves: who ran, and where everybody is. */
  ghost predicate Visited(w1: Wheel, w0: Wheel, ids: seq<int>, slot: nat, tick: int, ran: seq<int>, gone: set<int>)
    requires slot < SLOT_COUNT
  {
    && (forall id :: id in ran <==> id in ids && Due(w0, id, tick))
    && (forall id :: id in w1 <==> id in w0)
    && forall id :: id in w0 ==> w1[id] == Marked(if id in ids then Moved(w0[id], slot, tick) else w0[id], gone, id)
  }

  lemma VisitsAre(w0: Wheel, ids: seq<int>, slot: nat, tick: int, cancels: map<int, set<int>>)
    requires slot < SLOT_COUNT && Distinct(ids) && forall id :: id in ids ==> id in w0
    ensures var (w1, ran) := Visits(w0, ids, slot, tick, cancels);
            Distinct(ran) && Visited(w1, w0, ids, slot, tick, ran, Cancelled(ran, cancels))
  {
    VisitsExactly(w0, ids, slot, tick, cancels);
    DueDistinct(w0, ids, tick);
    var (w1, ran) := Visits(w0, ids, slot, tick, cancels);
    hide Visits, Moved, Cancelled, Marked;
    forall id
      ensures id in ran <==> id in ids && Due(w0, id, tick)
    {
      DueOfExactly(w0, ids, tick, id);
    }
    forall id
      ensures id in w1 <==> id in w0
    {
      assert id in w1.Keys <==> id in w0.Keys;
    }
  }

  lemma TickIs(w: Wheel, w0: Wheel, w': Wheel, ids: seq<int>, slot: nat, tick: int, cancels: map<int, set<int>>)
    requires slot < SLOT_COUNT && IsBatch(ids, w, slot) && IsSwept(w0, w, slot)
    requires forall id :: id in ids ==> id in w0
    requires var (w1, ran) := Visits(w0, ids, slot, tick, cancels);
             IsFinished(w', w1, ran, NextSlot(slot), tick)
    ensures TickOf(w, w', slot, tick, Visits(w0, ids, slot, tick, cancels).1, cancels)
  {
    hide Visits, Visited, Cancelled, IsSwept, IsFinished;
    VisitsAre(w0, ids, slot, tick, cancels);
    var (w1, ran) := Visits(w0, ids, slot, tick, cancels);
    TickFrom(w, w0, w1, w', ids, ran, slot, tick, Cancelled(ran, cancels));
    hide IsBatch;
    assert forall id :: id in w'.Keys ==> id in w' && id in w;
  }

  lemma TickFrom(w: Wheel, w0: Wheel, w1: Wheel, w': Wheel, ids: seq<int>, ran: seq<int>, slot: nat, tick: int,
                 gone: set<int>)
    requires slot < SLOT_COUNT && IsBatch(ids, w, slot) && IsSwept(w0, w, slot)
    requires Visited(w1, w0, ids, slot, tick, ran, gone) && IsFinished(w', w1, ran, NextSlot(slot), tick)
    ensures forall id :: id in w ==> AfterTick(w[id], id, slot, tick, gone) == if id in w' then Some(w'[id]) else None
    ensures forall id :: id in ran <==> id in w && w[id].slot == slot && !w[id].t.deleted && Due(w, id, tick)
    ensures forall id :: id in w' ==> id in w
  {
    hide AfterTick, Marked, Moved, Again, Replaced, OnTickEx;
    forall id | id in w
      ensures AfterTick(w[id], id, slot, tick, gone) == if id in w' then Some(w'[id]) else None
    {
      TickOne(w[id], id, slot, tick, gone, id in w0, id in ids, id in ran,
              if id in w1 then Some(w1[id]) else None, if id in w' then Some(w'[id]) else None);
    }
  }

  /** The parts of a tick, for one timer: kept by the sweep, visited, run, and where it is then and at the end. */
  lemma TickOne(p: Place, id: int, slot: nat, tick: int, gone: set<int>, kept: bool, visited: bool, ran: bool,
                p1: Option<Place>, p2: Option<Place>)
    requires slot < SLOT_COUNT && kept == !(p.slot == slot && p.t.deleted)
    requires visited == (p.slot == slot && !p.t.deleted) && ran == (visited && OnTickEx(p.t, tick).0)
    requires p1 == if kept then Some(Marked(if visited then Moved(p, slot, tick) else p, gone, id)) else None
    requires p2 == match p1
                   case None => None
                   case Some(x) => if !ran then Some(x)
                                   else if Again(x.t) then Some(Replaced(x.t, NextSlot(slot), tick)) else None
    ensures AfterTick(p, id, slot, tick, gone) == p2
  {
    hide Moved, Marked, Again, Replaced, OnTickEx;
  }

  /** One tick in plain arithmetic: who runs, who is in the wheel afterwards, and where. */
  ghost predicate TickLaw(w: Wheel, w': Wheel, slot: nat, tick: int, ran: seq<int>, gone: set<int>)
    requires slot < SLOT_COUNT
  {
    forall id :: id in w ==>
      var t := w[id].t;
      if w[id].slot != slot then
        id !in ran && id in w' && w'[id].slot == w[id].slot && w'[id].t == t.(deleted := t.deleted || id in gone)
      else if t.deleted then id !in ran && id !in w'
      else if id !in ran then
        && id in w' && w'[id].t.deleted == (id in gone)
        && VisitLaw(t, slot, tick, Found(w'[id].(t := w'[id].t.(deleted := false)), slot))
      else
        && (tick >= t.bePoint || t.round <= 1)
        && (id in w' <==> t.kind == LoopTimer && id !in gone)
        && (id in w' ==> Renewed(t, w'[id], (slot + 1) % 3000, tick))
  }

  /** A timer that has run waits the whole slots up to its next target, as good as new. */
  ghost predicate Renewed(t: TimerState, p: Place, curr: nat, tick: int) {
    var wait := t.bePoint + t.interval - tick;
    && p.t == t.(bePoint := t.bePoint + t.interval, tickPoint := 0, elapseRound := 0,
                 ticks := (if wait < 0 then 0 else wait / 100) % 0x1_0000_0000, round := p.t.round)
    && p.slot < 3000 && p.t.round >= 1 && (p.slot - curr) % 3000 + 3000 * (p.t.round - 1) == p.t.ticks
  }

  lemma ReplacedIsRenewed(t: TimerState, curr: nat, tick: int)
    requires curr < SLOT_COUNT
    ensures Renewed(t, Replaced(t, curr, tick), curr, tick)
  {
    AttachRemaining(Reattach(t, tick), curr);
    hide SlotFor;
  }

  lemma TickIsLawful(w: Wheel, w': Wheel, slot: nat, tick: int, ran: seq<int>, cancels: map<int, set<int>>)
    requires slot < SLOT_COUNT && TickOf(w, w', slot, tick, ran, cancels)
    ensures TickLaw(w, w', slot, tick, ran, Cancelled(ran, cancels))
  {
    hide Cancelled, AfterTick, VisitLaw, Renewed, OnTickEx;
    forall id | id in w
      ensures OneLaw(w[id], id, slot, tick, Cancelled(ran, cancels), id in ran, if id in w' then Some(w'[id]) else None)
    {
      OneIsLawful(w[id], id, slot, tick, Cancelled(ran, cancels));
    }
    hide TickOf;
  }

  ghost predicate OneLaw(p: Place, id: int, slot: nat, tick: int, gone: set<int>, ran: bool, p': Option<Place>)
    requires slot < SLOT_COUNT
  {
    if p.slot != slot then !ran && p' == Some(p.(t := p.t.(deleted := p.t.deleted || id in gone)))
    else if p.t.deleted then !ran && p'.None?
    else if !ran then
      && p'.Some? && p'.value.t.deleted == (id in gone)
      && VisitLaw(p.t, slot, tick, Found(p'.value.(t := p'.value.t.(deleted := false)), slot))
    else
      && (tick >= p.t.bePoint || p.t.round <= 1) && (p'.Some? <==> p.t.kind == LoopTimer && id !in gone)
      && (p'.Some? ==> Renewed(p.t, p'.value, (slot + 1) % 3000, tick))
  }

  lemma OneIsLawful(p: Place, id: int, slot: nat, tick: int, gone: set<int>)
    requires slot < SLOT_COUNT
    ensures OneLaw(p, id, slot, tick, gone, p.slot == slot && !p.t.deleted && OnTickEx(p.t, tick).0,
                   AfterTick(p, id, slot, tick, gone))
  {
    assert NextSlot(slot) == (slot + 1) % 3000;
    if p.slot == slot && !p.t.deleted {
      assert p.t.(deleted := false) == p.t;
      DueIsFired(p.t, slot, tick);
      VisitIs(p.t, slot, tick);
      KeepsFlag(p.t, slot, tick);
      if OnTickEx(p.t, tick).0 {
        RanIsRenewed(p.t, Moved(p, slot, tick).t, NextSlot(slot), tick);
        hide Renewed, VisitTimer, VisitLaw, Replaced;
      } else {
        hide VisitTimer, OnTickEx;
        var v := VisitTimer(p.t, slot, tick);
        var q := Moved(p, slot, tick);
        assert Found(q, slot) == v;
        var q' := Marked(q, gone, id);
        assert q'.(t := q'.t.(deleted := false)) == q;
      }
    }
  }

  lemma RanIsRenewed(t: TimerState, t1: TimerState, curr: nat, tick: int)
    requires curr < SLOT_COUNT && t1 == t.(round := t1.round)
    ensures Renewed(t, Replaced(t1, curr, tick), curr, tick)
  {
    ReplacedIsRenewed(t1, curr, tick);
    hide SlotFor;
  }

  /** A timer that is not cancelled and does not fire goes the way of the countdown; one that fires is gone, or waits
      exactly the ticks up to its next target. */
  lemma SameWheel(p: Place, id: int, slot: nat, tick: int, cancelled: set<int>)
    requires slot < SLOT_COUNT && !p.t.deleted && id !in cancelled
    ensures match After(p, slot, tick)
            case Some(p') => AfterTick(p, id, slot, tick, cancelled) == Some(p')
            case None =>
              && p.slot == slot && OnTickEx(p.t, tick).0
              && match AfterTick(p, id, slot, tick, cancelled)
                 case None => p.t.kind == OnceTimer
                 case Some(p') => p.t.kind != OnceTimer && p'.t.bePoint == p.t.bePoint + p.t.interval
                                  && p'.Left(NextSlot(slot)) == p'.t.ticks
  {
    assert p.t.(deleted := false) == p.t;
    DueIsFired(p.t, slot, tick);
    KeepsFlag(p.t, slot, tick);
    if After(p, slot, tick).None? {
      var p' := Moved(p, slot, tick);
      AttachRemaining(Reattach(p'.t, tick), NextSlot(slot));
    }
  }

  /** A step, by the tests the loop makes. */
  lemma StepCases(w: Wheel, id: int, slot: nat, tick: int, cancels: map<int, set<int>>)
    requires slot < SLOT_COUNT && id in w
    ensures var (due, t) := OnTickEx(w[id].t, tick);
            Step(w, id, slot, tick, cancels)
            == if due then (MarkAll(w[id := Place(slot, t)], CancelledBy(cancels, id)), true)
               else if t.tickPoint <= 0 then (w[id := Place(slot, t.(tickPoint := tick, elapseRound := 1))], false)
               else if Drifted(t, tick) then
                 (w[id := Place(BackSlots(slot, Drift(t, tick)), SetOn(t))], false)
               else (w[id := Place(slot, t.(elapseRound := (t.elapseRound + 1) % 0x1_0000))], false)
  {
    hide MarkAll, CancelledBy, BackSlots;
  }

  // ---- The books ----

  function AttachWhole(t: TimerState): TimerState {
    t.(ticks := t.start / SLOT_CHANGE_TIME, round := t.start / SLOT_CHANGE_TIME / SLOT_COUNT + 1)
  }

  lemma AddKeepsBooks(w: Wheel, lives: Lives, id: int, t: TimerState, slot: nat)
    requires Booked(w, lives) && id !in w && !t.deleted
    ensures Booked(w[id := Place(slot, AttachWhole(t))], lives[id := NewLife(t)])
  {
  }

  /** The timers held agree with their lives, and no timer still pending is missing. */
  ghost predicate Booked(w: Wheel, lives: Lives) {
    && (forall id :: id in w ==> id in lives && lives[id].Fits(w[id].t) && w[id].t.round >= 1)
    && (forall id :: id in lives && lives[id].Pending() ==> id in w)
    && (forall id :: id in lives && lives[id].kind == OnceTimer ==> lives[id].ran <= 1)
  }

  /** A tick leaves what a timer owes to its life. */
  lemma TickKeepsLife(p: Place, l: Life, id: int, slot: nat, tick: int, cancelled: set<int>, n: nat)
    requires slot < SLOT_COUNT && l.Fits(p.t) && p.t.round >= 1
    requires n == if p.slot == slot && !p.t.deleted && OnTickEx(p.t, tick).0 then 1 else 0
    ensures var l' := l.(ran := l.ran + n, cancelled := l.cancelled || id in cancelled);
            && (l.kind == OnceTimer ==> l'.ran <= 1)
            && match AfterTick(p, id, slot, tick, cancelled)
               case None => !l'.Pending()
               case Some(p') => l'.Fits(p'.t) && p'.t.round >= 1
  {
    hide TargetAfter, BackSlots, SlotFor, Drift, Drifted;
    if p.slot == slot && !p.t.deleted {
      DueIsFired(p.t, slot, tick);
      assert p.t.(deleted := false) == p.t;
      KeepsFlag(p.t, slot, tick);
      hide VisitTimer, OnTickEx;
      if n == 1 {
        LifeGoesOn(l, Moved(p, slot, tick).t, tick, n, id in cancelled);
        hide Reattach;
        RoundsAgain(Moved(p, slot, tick).t, tick);
      }
    }
  }

  lemma RoundsAgain(t: TimerState, tick: int)
    ensures Reattach(t, tick).round >= 1
    ensures Reattach(t.(deleted := true), tick) == Reattach(t, tick).(deleted := true)
  {
  }

  lemma TickKeepsBooks(w: Wheel, w': Wheel, slot: nat, tick: int, ran: seq<int>, cancels: map<int, set<int>>,
                       lives: Lives)
    requires slot < SLOT_COUNT && TickOf(w, w', slot, tick, ran, cancels) && Booked(w, lives)
    ensures Booked(w', LivesAfter(lives, ran, Cancelled(ran, cancels)))
    ensures forall id :: id in ran ==> id in lives && !lives[id].cancelled
  {
    var gone := Cancelled(ran, cancels);
    var lives' := LivesAfter(lives, ran, gone);
    hide Cancelled, AfterTick, OnTickEx;
    forall id | id in lives
      ensures lives'[id].kind == OnceTimer ==> lives'[id].ran <= 1
      ensures if id in w' then lives'[id].Fits(w'[id].t) && w'[id].t.round >= 1 else !lives'[id].Pending()
    {
      RunsOnce(ran, id);
      if id in w {
        TickKeepsLife(w[id], lives[id], id, slot, tick, gone, Runs(ran, id));
      } else {
        assert id !in w'.Keys;
      }
    }
    forall id | id in w'
      ensures id in lives
    {
      assert id in w'.Keys;
    }
  }

  lemma BatchStep(e: Event<Operation>, ran: seq<int>, cancels: map<int, set<int>>, lives: Lives)
    requires e.Operate? && forall id :: id in ran ==> id in lives && !lives[id].cancelled
    ensures Lived(e, lives, LivesAfter(lives, ran, Cancelled(ran, cancels)), ran, Cancelled(ran, cancels))
  {
    hide Cancelled;
  }

  lemma CancelKeepsBooks(w: Wheel, lives: Lives, id: int)
    requires Booked(w, lives)
    ensures Booked(CancelInWheel(w, id), LivesAfter(lives, [], {id}))
    ensures Lived<Operation>(CancelCall(id), lives, LivesAfter(lives, [], {id}), [], {id})
  {
    LivesCancelled(lives, id);
    hide LivesAfter, TargetAfter;
    forall k | k in LivesAfter(lives, [], {id})
      ensures k in lives
    {
      assert k in lives.Keys;
    }
  }

  /** The call of its own: a tick, with what the callbacks cancel. */
  datatype Operation = OnTickCall(tick: int, cancels: map<int, set<int>>)

  /** The manager at one moment. */
  datatype Moment = Moment(w: Wheel, curr: nat, lives: Lives, last: uint32)

  /** The timers an event cancels. */
  ghost function Gone(e: Event<Operation>, ran: seq<int>): set<int> {
    match e
    case CancelCall(id) => {id}
    case Operate(OnTickCall(_, cancels)) => Cancelled(ran, cancels)
    case _ => {}
  }

  /** What one call makes of the manager, and the callbacks it runs. */
  ghost predicate StepOf(e: Event<Operation>, a: Moment, b: Moment, ran: seq<int>) {
    && a.curr < SLOT_COUNT
    && match e
       case AddCall(t) =>
         var id := NextId(a.last);
         && ran == []
         && b == if t.start <= 0 || t.deleted then a else
                 a.(w := a.w[id := Place(SlotFor(a.curr, t.start / SLOT_CHANGE_TIME), AttachWhole(t))],
                    lives := a.lives[id := NewLife(t)], last := id)
       case CancelCall(id) =>
         ran == [] && b == a.(w := CancelInWheel(a.w, id), lives := LivesAfter(a.lives, [], {id}))
       case Operate(OnTickCall(tick, cancels)) =>
         && TickOf(a.w, b.w, a.curr, tick, ran, cancels)
         && b == a.(w := b.w, curr := NextSlot(a.curr), lives := LivesAfter(a.lives, ran, Cancelled(ran, cancels)))
  }

  /** No timer is lost, and targets agree with the lives. */
  ghost predicate Sound(m: Moment) { Booked(m.w, m.lives) }

  ghost predicate IsRun(events: seq<Event<Operation>>, trace: seq<Moment>, rans: seq<seq<int>>) {
    && |rans| == |events| && |trace| == |events| + 1
    && (forall i :: 0 <= i < |events| ==> StepOf(events[i], trace[i], trace[i + 1], rans[i]))
    && forall i :: 0 <= i <= |events| ==> Sound(trace[i])
  }

  lemma RunStart(events: seq<Event<Operation>>, m: Moment)
    requires events == [] && Sound(m)
    ensures IsRun(events, [m], [])
  {
  }

  lemma RunSnoc(events: seq<Event<Operation>>, trace: seq<Moment>, rans: seq<seq<int>>, e: Event<Operation>, m: Moment,
                ran: seq<int>)
    requires IsRun(events, trace, rans) && StepOf(e, trace[|events|], m, ran) && Sound(m)
    ensures IsRun(events + [e], trace + [m], rans + [ran])
  {
    hide StepOf, Sound;
  }

  /** history and gone are what the trace says of lives and cancels. */
  ghost predicate Matches(events: seq<Event<Operation>>, trace: seq<Moment>, rans: seq<seq<int>>, history: seq<Lives>,
                          gone: seq<set<int>>) {
    && |trace| == |history| && |rans| == |gone| <= |events|
    && (forall i :: 0 <= i < |history| ==> trace[i].lives == history[i])
    && forall i :: 0 <= i < |gone| ==> gone[i] == Gone(events[i], rans[i])
  }

  lemma MatchesStart(events: seq<Event<Operation>>, m: Moment, lives: Lives)
    requires m.lives == lives
    ensures Matches(events, [m], [], [lives], [])
  {
  }

  lemma MatchesMore(events: seq<Event<Operation>>, trace: seq<Moment>, rans: seq<seq<int>>, history: seq<Lives>,
                    gone: seq<set<int>>, m: Moment, ran: seq<int>, lives: Lives, more: set<int>)
    requires Matches(events, trace, rans, history, gone) && |gone| < |events|
    requires m.lives == lives && more == Gone(events[|gone|], ran)
    ensures Matches(events, trace + [m], rans + [ran], history + [lives], gone + [more])
  {
    hide Gone;
  }

  lemma SilencedSo(events: seq<Event<Operation>>, trace: seq<Moment>, rans: seq<seq<int>>, history: seq<Lives>,
                   gone: seq<set<int>>)
    requires Matches(events, trace, rans, history, gone) && |gone| == |events| && |history| == |events| + 1
    requires forall i, j, id :: 0 <= i < j < |events| && id in gone[i] && id in history[i] ==> id !in rans[j]
    ensures |trace| == |events| + 1
    ensures forall i, j, id ::
              0 <= i < j < |events| && id in Gone(events[i], rans[i]) && id in trace[i].lives ==> id !in rans[j]
  {
    hide Gone;
  }

  class TimerManager {
    const table: SlotTable
    var m_currSlot: nat
    var m_lastTimerID: uint32
    /** Every timer added so far. */
    ghost var lives: Lives

    ghost predicate Valid()
      reads this, table
    {
      table.Placed() && m_currSlot < SLOT_COUNT && Booked(table.wheel, lives)
    }

    constructor ()
      ensures Valid() && fresh(table) && table.wheel == map[] && m_lastTimerID == 0 && m_currSlot == 0 && lives == map[]
    {
      table := new SlotTable();
      m_currSlot, m_lastTimerID, lives := 0, 0, map[];
    }

    /** AddTimer and AttachTimer for a new timer: here the whole start delay counts. */
    method AddTimer(t: TimerState) returns (rc: int, id: uint32)
      requires Valid() && NextId(m_lastTimerID) !in table.wheel
      modifies this, table
      ensures Valid() && m_currSlot == old(m_currSlot) && rc == (if t.start <= 0 then -1 else 0)
      ensures rc != 0 || t.deleted ==>
                table.wheel == old(table.wheel) && m_lastTimerID == old(m_lastTimerID) && lives == old(lives)
      ensures rc == 0 && !t.deleted ==>
                && id == m_lastTimerID == NextId(old(m_lastTimerID)) && id !in old(table.wheel) && id in table.wheel
                && table.wheel
                   == old(table.wheel)[id := Place(SlotFor(m_currSlot, t.start / SLOT_CHANGE_TIME), AttachWhole(t))]
                && table.wheel[id].Left(m_currSlot) == t.start / SLOT_CHANGE_TIME
                && lives == old(lives)[id := NewLife(t)]
    {
      hide Remaining, SlotFor, Booked, SlotTable.Placed;
      id := 0;
      if t.start <= 0 {
        return -1, 0;
      }
      if t.deleted {
        return 0, 0;
      }
      m_lastTimerID := (m_lastTimerID + 1) % 0x1_0000_0000;
      if m_lastTimerID == 0 {
        m_lastTimerID := 1;
      }
      id := m_lastTimerID;
      var ticks := t.start / SLOT_CHANGE_TIME;
      var t' := t.(ticks := ticks, round := ticks / SLOT_COUNT + 1);
      AttachRemaining(t', m_currSlot);
      AddKeepsBooks(table.wheel, lives, id, t, SlotFor(m_currSlot, ticks));
      lives := lives[id := NewLife(t)];
      table.AddToSlot(id, t', SlotFor(m_currSlot, ticks));
      rc := 0;
    }

    /** Timer::Cancel through the handle of a timer. */
    method Cancel(id: int)
      requires Valid()
      modifies this, table
      ensures Valid() && m_currSlot == old(m_currSlot) && m_lastTimerID == old(m_lastTimerID)
      ensures table.wheel == CancelInWheel(old(table.wheel), id) && lives == LivesAfter(old(lives), [], {id})
    {
      hide SlotTable.Placed, Booked, CancelInWheel, LivesAfter;
      CancelKeepsBooks(table.wheel, lives, id);
      lives := LivesAfter(lives, [], {id});
      table.Mark(id);
    }

    /** The first loop of Slot::OnTick. */
    method Collect(slot: nat) returns (batch: seq<int>)
      requires table.Placed() && slot < SLOT_COUNT
      modifies table
      ensures table.Placed() && IsBatch(batch, old(table.wheel), slot) && IsSwept(table.wheel, old(table.wheel), slot)
    {
      ghost var w := table.wheel;
      table.SlotKeys(slot);
      var todo := table.m_slots[slot].Keys;
      batch := [];
      hide SlotTable.Placed, Collecting;
      CollectStart(w, slot, todo);
      while todo != {}
        invariant table.Placed() && Collecting(w, table.wheel, slot, todo, batch)
        decreases |todo|
      {
        LeastExists(todo);
        var id :| Least(id, todo);
        CollectNext(w, table.wheel, slot, todo, batch, id);
        var t := table.GetTimer(slot, id);
        if t.deleted {
          table.Erase(slot, id);
        } else {
          batch := batch + [id];
        }
        todo := todo - {id};
      }
      CollectEnd(w, table.wheel, slot, batch);
    }

    /** All of the slot but the timers in todo has been looked at. */
    static ghost predicate Collecting(w: Wheel, w': Wheel, slot: nat, todo: set<int>, batch: seq<int>) {
      && (forall id :: id in todo ==> id in w && w[id].slot == slot)
      && (forall id :: id in w' <==> id in w && !(w[id].slot == slot && w[id].t.deleted && id !in todo))
      && (forall id :: id in w' ==> w'[id] == w[id])
      && (forall id :: id in batch <==> id in w && w[id].slot == slot && !w[id].t.deleted && id !in todo)
      && (forall i, x :: 0 <= i < |batch| && x in todo ==> batch[i] < x)
      && (forall i, j :: 0 <= i < j < |batch| ==> batch[i] < batch[j])
    }

    static lemma CollectStart(w: Wheel, slot: nat, todo: set<int>)
      requires todo <= w.Keys && forall id :: id in w ==> (w[id].slot == slot <==> id in todo)
      ensures Collecting(w, w, slot, todo, [])
    {
      forall id | id in todo
        ensures id in w && w[id].slot == slot
      {
        assert id in w.Keys;
      }
    }

    static lemma CollectNext(w: Wheel, w': Wheel, slot: nat, todo: set<int>, batch: seq<int>, id: int)
      requires Collecting(w, w', slot, todo, batch) && Least(id, todo)
      ensures id in w' && w'[id].slot == slot
      ensures if w'[id].t.deleted then Collecting(w, w' - {id}, slot, todo - {id}, batch)
              else Collecting(w, w', slot, todo - {id}, batch + [id])
    {
      assert forall x :: x in batch + [id] <==> x in batch || x == id;
    }

    static lemma CollectEnd(w: Wheel, w': Wheel, slot: nat, batch: seq<int>)
      requires Collecting(w, w', slot, {}, batch)
      ensures IsBatch(batch, w, slot) && IsSwept(w', w, slot)
    {
    }

    /** The middle loop on one timer. A moved timer is taken out of this slot at once; the source leaves it there too
        until the end of the visit, when nothing looks at it. */
    method VisitOne(slot: nat, id: int, tick: int, cancels: map<int, set<int>>) returns (due: bool)
      requires table.Placed() && slot < SLOT_COUNT && id in table.wheel && table.wheel[id].slot == slot
      modifies table
      ensures table.Placed() && (table.wheel, due) == Step(old(table.wheel), id, slot, tick, cancels)
    {
      hide SlotTable.Placed, BackSlots, MarkAll, CancelledBy;
      ghost var w := table.wheel;
      StepCases(w, id, slot, tick, cancels);
      hide Step, Drift, Drifted, OnTickEx, VisitTimer;
      var (iTimeout, pTimer) := OnTickEx(table.GetTimer(slot, id), tick);
      if iTimeout {
        table.Replace(slot, id, pTimer);
        table.MarkEach(CancelledBy(cancels, id));
        return true;
      }
      if pTimer.tickPoint <= 0 {
        table.Replace(slot, id, pTimer.(tickPoint := tick, elapseRound := 1));
      } else if Drifted(pTimer, tick) {
        var back := BackSlots(slot, Drift(pTimer, tick));
        table.Erase(slot, id);
        var tickPoint := pTimer.tickPoint + RoundsTime(pTimer.elapseRound);
        table.AddToSlot(id, pTimer.(tickPoint := tickPoint, elapseRound := 1), back);
        assert table.wheel == w[id := table.wheel[id]];
      } else {
        table.Replace(slot, id, pTimer.(elapseRound := (pTimer.elapseRound + 1) % 0x1_0000));
      }
      due := false;
    }

    /** The middle loop of Slot::OnTick. */
    method VisitEach(batch: seq<int>, slot: nat, tick: int, cancels: map<int, set<int>>) returns (ran: seq<int>)
      requires table.Placed() && slot < SLOT_COUNT && Distinct(batch) && AllIn(batch, table.wheel, slot)
      modifies table
      ensures table.Placed() && (forall id :: id in batch ==> id in old(table.wheel))
      ensures (table.wheel, ran) == Visits(old(table.wheel), batch, slot, tick, cancels)
    {
      hide SlotTable.Placed, Step, Moved, OnTickEx;
      ghost var w := table.wheel;
      ran := [];
      var i := 0;
      assert batch[..0] == [];
      while i < |batch|
        invariant 0 <= i <= |batch| && table.Placed() && AllIn(batch[i..], table.wheel, slot)
        invariant (table.wheel, ran) == Visits(w, batch[..i], slot, tick, cancels)
      {
        var id := batch[i];
        ghost var w1 := table.wheel;
        StepIs(w1, id, slot, tick, cancels);
        RestStays(batch, i, w1, slot, tick, cancels);
        assert batch[..i + 1][..i] == batch[..i] && batch[..i + 1][i] == id;
        VisitsSnoc(w, batch[..i + 1], slot, tick, cancels);
        var due := VisitOne(slot, id, tick, cancels);
        if due {
          ran := ran + [id];
        }
        i := i + 1;
      }
      assert batch[..i] == batch;
    }

    static ghost predicate AllIn(ids: seq<int>, w: Wheel, slot: nat) {
      forall id :: id in ids ==> id in w && w[id].slot == slot
    }

    /** A step leaves the timers still to be visited in the slot. */
    static lemma RestStays(batch: seq<int>, i: nat, w: Wheel, slot: nat, tick: int, cancels: map<int, set<int>>)
      requires slot < SLOT_COUNT && i < |batch| && Distinct(batch) && AllIn(batch[i..], w, slot)
      ensures var id := batch[i];
              && id in w && w[id].slot == slot && AllIn(batch[i + 1..], Step(w, id, slot, tick, cancels).0, slot)
      ensures forall id :: id in batch[i + 1..] ==> id in w
    {
      var id := batch[i];
      assert id == batch[i..][0] && id in batch[i..];
      StepIs(w, id, slot, tick, cancels);
      forall k | k in batch[i + 1..]
        ensures k in w && k in Step(w, id, slot, tick, cancels).0 && Step(w, id, slot, tick, cancels).0[k].slot == slot
      {
        var j :| i + 1 <= j < |batch| && batch[j] == k;
        assert batch[i..][j - i] == k;
        assert k in batch[i..];
      }
    }

    /** The last loop of Slot::OnTick: what fired leaves the slot, and the loop timers of it are handed back. */
    method Clean(ran: seq<int>, slot: nat) returns (loops: seq<(int, TimerState)>)
      requires table.Placed() && slot < SLOT_COUNT && Distinct(ran) && AllIn(ran, table.wheel, slot)
      modifies table
      ensures table.Placed() && IsLoops(loops, old(table.wheel), ran)
      ensures forall id :: id in table.wheel <==> id in old(table.wheel) && id !in ran
      ensures forall id :: id in table.wheel ==> table.wheel[id] == old(table.wheel)[id]
    {
      hide SlotTable.Placed, IsLoops, AllIn, Distinct;
      ghost var w := table.wheel;
      loops := [];
      var i := 0;
      LoopsStart(w);
      assert ran[0..] == ran && ran[..0] == [];
      while i < |ran|
        invariant 0 <= i <= |ran| && table.Placed() && AllIn(ran[i..], table.wheel, slot)
        invariant forall id :: id in table.wheel <==> id in w && id !in ran[..i]
        invariant forall id :: id in table.wheel ==> table.wheel[id] == w[id]
        invariant IsLoops(loops, w, ran[..i])
      {
        var id := ran[i];
        RestIn(ran, i, table.wheel, slot);
        var t := table.GetTimer(slot, id);
        LoopsSnoc(loops, w, ran, i, t);
        table.Erase(slot, id);
        if t.kind != OnceTimer {
          loops := loops + [(id, t)];
        }
        i := i + 1;
      }
      assert ran[..i] == ran;
    }

    static ghost predicate IsLoops(loops: seq<(int, TimerState)>, w: Wheel, ran: seq<int>) {
      && (forall k :: 0 <= k < |loops| ==> LoopOf(loops[k], w, ran))
      && (forall id :: id in ran && id in w && w[id].t.kind != OnceTimer ==> Back(loops, id))
      && (forall j, k :: 0 <= j < k < |loops| ==> loops[j].0 != loops[k].0)
    }

    static ghost predicate Back(loops: seq<(int, TimerState)>, id: int) {
      exists k :: 0 <= k < |loops| && loops[k].0 == id
    }

    static ghost predicate LoopOf(f: (int, TimerState), w: Wheel, ran: seq<int>) {
      f.0 in ran && f.0 in w && f.1 == w[f.0].t && f.1.kind != OnceTimer
    }

    static lemma LoopsStart(w: Wheel)
      ensures IsLoops([], w, [])
    {
    }

    static lemma LoopsSnoc(loops: seq<(int, TimerState)>, w: Wheel, ran: seq<int>, i: nat, t: TimerState)
      requires i < |ran| && Distinct(ran) && IsLoops(loops, w, ran[..i]) && ran[i] in w && w[ran[i]].t == t
      ensures IsLoops(if t.kind != OnceTimer then loops + [(ran[i], t)] else loops, w, ran[..i + 1])
      ensures forall id :: id in ran[..i + 1] <==> id in ran[..i] || id == ran[i]
    {
      assert ran[..i + 1] == ran[..i] + [ran[i]];
      assert ran[i] !in ran[..i];
      LoopsMore(loops, w, ran[..i], ran[i], t);
    }

    static lemma LoopsMore(loops: seq<(int, TimerState)>, w: Wheel, ran: seq<int>, id: int, t: TimerState)
      requires IsLoops(loops, w, ran) && id in w && w[id].t == t && id !in ran
      ensures IsLoops(if t.kind != OnceTimer then loops + [(id, t)] else loops, w, ran + [id])
    {
      var loops' := if t.kind != OnceTimer then loops + [(id, t)] else loops;
      assert forall x :: x in ran + [id] <==> x in ran || x == id;
      forall k | 0 <= k < |loops|
        ensures LoopOf(loops[k], w, ran + [id]) && loops[k].0 != id
      {
        assert LoopOf(loops[k], w, ran);
      }
      forall x | x in ran + [id] && x in w && w[x].t.kind != OnceTimer
        ensures Back(loops', x)
      {
        BackMore(loops, (id, t), x);
      }
      hide Back, LoopOf;
    }

    static lemma BackMore(loops: seq<(int, TimerState)>, f: (int, TimerState), id: int)
      ensures Back(loops + [f], f.0) && (Back(loops, id) ==> Back(loops + [f], id))
    {
      assert (loops + [f])[|loops|] == f;
      if Back(loops, id) {
        var k :| 0 <= k < |loops| && loops[k].0 == id;
        assert (loops + [f])[k].0 == id;
      }
    }

    static lemma RestIn(ran: seq<int>, i: nat, w: Wheel, slot: nat)
      requires i < |ran| && Distinct(ran) && AllIn(ran[i..], w, slot)
      ensures AllIn(ran[i + 1..], w - {ran[i]}, slot) && ran[i] in w && w[ran[i]].slot == slot
    {
      var id := ran[i];
      assert id == ran[i..][0] && id in ran[i..];
      forall k | k in ran[i + 1..]
        ensures k in w - {ran[i]} && (w - {ran[i]})[k].slot == slot
      {
        var j :| i + 1 <= j < |ran| && ran[j] == k;
        assert ran[i..][j - i] == k;
        assert k in ran[i..];
      }
    }

    /** AttachTimer for each loop timer that fired; one that has been cancelled is ignored. */
    method AttachEach(loops: seq<(int, TimerState)>, tick: int)
      requires table.Placed() && m_currSlot < SLOT_COUNT
      requires forall k :: 0 <= k < |loops| ==> loops[k].0 !in table.wheel
      requires forall j, k :: 0 <= j < k < |loops| ==> loops[j].0 != loops[k].0
      modifies table
      ensures table.Placed() && IsAttached(table.wheel, old(table.wheel), loops, m_currSlot, tick)
    {
      hide SlotTable.Placed, Reattach, SlotFor;
      ghost var w := table.wheel;
      var i := 0;
      while i < |loops|
        invariant 0 <= i <= |loops| && table.Placed() && IsAttached(table.wheel, w, loops[..i], m_currSlot, tick)
        invariant forall k :: i <= k < |loops| ==> loops[k].0 !in table.wheel
      {
        var (id, t) := loops[i];
        ghost var w1 := table.wheel;
        if !t.deleted {
          var again := Reattach(t, tick);
          table.AddToSlot(id, again, SlotFor(m_currSlot, again.ticks));
        }
        AttachedSnoc(table.wheel, w1, w, loops, i, m_currSlot, tick);
        i := i + 1;
      }
      assert loops[..i] == loops;
    }

    static ghost predicate IsAttached(w': Wheel, w: Wheel, loops: seq<(int, TimerState)>, curr: nat, tick: int) {
      && (forall k :: 0 <= k < |loops| ==> BackIn(w', loops[k], curr, tick))
      && (forall id :: id in w ==> id in w' && w'[id] == w[id])
      && (forall id :: id in w' && id !in w ==> exists k :: 0 <= k < |loops| && loops[k].0 == id && !loops[k].1.deleted)
    }

    static ghost predicate BackIn(w: Wheel, f: (int, TimerState), curr: nat, tick: int) {
      if f.1.deleted then f.0 !in w else f.0 in w && w[f.0] == Replaced(f.1, curr, tick)
    }

    static lemma AttachedSnoc(w': Wheel, w1: Wheel, w: Wheel, loops: seq<(int, TimerState)>, i: nat, curr: nat,
                              tick: int)
      requires i < |loops| && IsAttached(w1, w, loops[..i], curr, tick) && loops[i].0 !in w1
      requires forall j, k :: 0 <= j < k < |loops| ==> loops[j].0 != loops[k].0
      requires w' == if loops[i].1.deleted then w1 else w1[loops[i].0 := Replaced(loops[i].1, curr, tick)]
      ensures IsAttached(w', w, loops[..i + 1], curr, tick)
    {
      hide Replaced;
      var a, b := loops[..i], loops[..i + 1];
      assert b == a + [loops[i]];
      forall k | 0 <= k < |a|
        ensures BackIn(w', a[k], curr, tick)
      {
        assert BackIn(w1, a[k], curr, tick) && a[k] == loops[k];
      }
      forall id | id in w' && id !in w
        ensures exists k :: 0 <= k < |b| && b[k].0 == id && !b[k].1.deleted
      {
        if id in w1 {
          var k :| 0 <= k < |a| && a[k].0 == id && !a[k].1.deleted;
          assert b[k] == a[k];
        } else {
          assert b[i].0 == id;
        }
      }
    }

    /** Cleaning, then attaching. */
    static lemma Finished(w': Wheel, w2: Wheel, w1: Wheel, ran: seq<int>, loops: seq<(int, TimerState)>, curr: nat,
                          tick: int)
      requires IsLoops(loops, w1, ran) && IsAttached(w', w2, loops, curr, tick) && forall id :: id in ran ==> id in w1
      requires forall id :: id in w2 <==> id in w1 && id !in ran
      requires forall id :: id in w2 ==> w2[id] == w1[id]
      ensures IsFinished(w', w1, ran, curr, tick)
    {
      hide Replaced;
      forall id | id in ran
        ensures id in w' <==> Again(w1[id].t)
        ensures id in w' ==> w'[id] == Replaced(w1[id].t, curr, tick)
      {
        if w1[id].t.kind != OnceTimer {
          var k :| 0 <= k < |loops| && loops[k].0 == id;
          assert LoopOf(loops[k], w1, ran) && BackIn(w', loops[k], curr, tick);
        } else {
          forall k | 0 <= k < |loops|
            ensures loops[k].0 != id
          {
            assert LoopOf(loops[k], w1, ran);
          }
        }
      }
      forall id | id in w' && id !in w2
        ensures id in ran && id in w1
      {
        var k :| 0 <= k < |loops| && loops[k].0 == id && !loops[k].1.deleted;
        assert LoopOf(loops[k], w1, ran);
      }
    }

    /** OnTick: the hand moves on, the slot it left is visited, and loop timers that fired go back at once. */
    method OnTick(tick: int, cancels: map<int, set<int>>) returns (ran: seq<int>)
      requires Valid()
      modifies this, table
      ensures Valid() && m_lastTimerID == old(m_lastTimerID) && m_currSlot == NextSlot(old(m_currSlot))
      ensures lives == LivesAfter(old(lives), ran, Cancelled(ran, cancels))
      ensures forall id :: id in ran ==> id in old(lives) && !old(lives)[id].cancelled
      ensures TickOf(old(table.wheel), table.wheel, old(m_currSlot), tick, ran, cancels)
      ensures TickLaw(old(table.wheel), table.wheel, old(m_currSlot), tick, ran, Cancelled(ran, cancels))
    {
      hide SlotTable.Placed, TickOf, TickLaw, IsFinished, IsLoops, IsAttached, Visits, Booked, Cancelled, LivesAfter;
      var slot := m_currSlot;
      m_currSlot := m_currSlot + 1;
      if m_currSlot >= SLOT_COUNT {
        m_currSlot := 0;
      }
      ghost var w := table.wheel;
      var batch := Collect(slot);
      ghost var w0 := table.wheel;
      ran := VisitEach(batch, slot, tick, cancels);
      ghost var w1 := table.wheel;
      RanInSlot(w0, batch, slot, tick, cancels);
      var loops := Clean(ran, slot);
      ghost var w2 := table.wheel;
      LoopsApart(loops, w1, ran, w2);
      AttachEach(loops, tick);
      Finished(table.wheel, w2, w1, ran, loops, m_currSlot, tick);
      TickIs(w, w0, table.wheel, batch, slot, tick, cancels);
      TickIsLawful(w, table.wheel, slot, tick, ran, cancels);
      TickKeepsBooks(w, table.wheel, slot, tick, ran, cancels, lives);
      lives := LivesAfter(lives, ran, Cancelled(ran, cancels));
    }

    static lemma LoopsApart(loops: seq<(int, TimerState)>, w1: Wheel, ran: seq<int>, w2: Wheel)
      requires IsLoops(loops, w1, ran) && forall id :: id in w2 <==> id in w1 && id !in ran
      ensures forall k :: 0 <= k < |loops| ==> loops[k].0 !in w2
      ensures forall j, k :: 0 <= j < k < |loops| ==> loops[j].0 != loops[k].0
    {
      forall k | 0 <= k < |loops|
        ensures loops[k].0 !in w2
      {
        assert LoopOf(loops[k], w1, ran);
        var id := loops[k].0;
        assert id in ran;
      }
    }

    /** The timers whose callbacks have run are still in the slot, each once. */
    static lemma RanInSlot(w: Wheel, ids: seq<int>, slot: nat, tick: int, cancels: map<int, set<int>>)
      requires slot < SLOT_COUNT && Distinct(ids) && AllIn(ids, w, slot) && forall id :: id in ids ==> id in w
      ensures var (w', ran) := Visits(w, ids, slot, tick, cancels);
              Distinct(ran) && AllIn(ran, w', slot) && forall id :: id in ran ==> id in w'
    {
      VisitsExactly(w, ids, slot, tick, cancels);
      DueDistinct(w, ids, tick);
      var (w', ran) := Visits(w, ids, slot, tick, cancels);
      hide Visits;
      forall id | id in ran
        ensures id in w' && w'[id].slot == slot
      {
        DueOfExactly(w, ids, tick, id);
        assert id in w && id in w'.Keys;
        DueIsFired(w[id].t, slot, tick);
      }
    }

    /** Any number of ticks, whatever the clock reads and whatever the callbacks cancel. From any tick on, a timer
        nobody cancels runs its callback within the countdown it then has; so a repeating one runs again and again. */
    method RunTicks(clock: seq<int>, cancels: seq<map<int, set<int>>>)
      returns (rans: seq<seq<int>>, ghost wheels: seq<Wheel>)
      requires Valid() && |cancels| == |clock|
      modifies this, table
      ensures Valid() && IsTicking(wheels, old(m_currSlot), clock, cancels, rans)
      ensures wheels[0] == old(table.wheel) && wheels[|clock|] == table.wheel
      ensures forall i, id :: 0 <= i < |clock| && id in wheels[i] && Wanted(wheels[i][id], id, cancels) ==>
                var left := wheels[i][id].Left(HandAfter(old(m_currSlot), i));
                i + left < |clock| ==> RunsWithin(rans, id, i, i + left + 1)
      ensures forall i, j, id ::
                0 <= i <= j <= |clock| && id in wheels[i] && WantedAgain(wheels[i][id], id, cancels) ==> id in wheels[j]
    {
      hide SlotTable.Placed, Booked, IsTicking, Wanted, WantedAgain, RunsWithin, TickOf, Cancelled, LivesAfter, Rounded,
        Place.Left;
      ghost var curr := m_currSlot;
      var i := 0;
      rans, wheels := [], [table.wheel];
      IsRounded();
      TickingStart(table.wheel, curr, clock[..0], cancels[..0]);
      while i < |clock|
        invariant Valid() && 0 <= i <= |clock| && curr < SLOT_COUNT && m_currSlot == HandAfter(curr, i)
        invariant |wheels| == i + 1 && wheels[0] == old(table.wheel) && wheels[i] == table.wheel
        invariant IsTicking(wheels, curr, clock[..i], cancels[..i], rans)
      {
        ghost var slot := m_currSlot;
        var ran := OnTick(clock[i], cancels[i]);
        IsRounded();
        TickingSnoc(wheels, curr, clock, cancels, i, rans, table.wheel, ran);
        rans, wheels := rans + [ran], wheels + [table.wheel];
        i := i + 1;
      }
      assert clock[..i] == clock && cancels[..i] == cancels;
      forall i, id | 0 <= i < |clock| && id in wheels[i] && Wanted(wheels[i][id], id, cancels)
        ensures var left := wheels[i][id].Left(HandAfter(curr, i));
                i + left < |clock| ==> RunsWithin(rans, id, i, i + left + 1)
      {
        RunsInTime(wheels, curr, clock, cancels, rans, i, id);
      }
      forall i, j, id | 0 <= i <= j <= |clock| && id in wheels[i] && WantedAgain(wheels[i][id], id, cancels)
        ensures id in wheels[j]
      {
        GoesOn(wheels, curr, clock, cancels, rans, i, j, id);
      }
    }

    lemma IsRounded()
      requires Valid()
      ensures Rounded(table.wheel) && m_currSlot < SLOT_COUNT
    {
    }

    /** Any calls in any order. No timer is lost, targets keep the interval however late the visits are, a once-timer
        runs at most once, and nothing runs in a tick after its cancel. */
    method Run(events: seq<Event<Operation>>) returns (rans: seq<seq<int>>, ghost trace: seq<Moment>)
      requires Valid() && m_lastTimerID + |events| <= 0xFFFF_FFFF && forall id :: id in lives ==> id <= m_lastTimerID
      modifies this, table
      ensures Valid() && IsRun(events, trace, rans) && trace[0] == old(Here()) && trace[|events|] == Here()
      ensures forall i, j, id ::
                0 <= i < j < |events| && id in Gone(events[i], rans[i]) && id in trace[i].lives ==> id !in rans[j]
      ensures forall id :: id in lives ==> lives[id].ran == RanBefore(old(lives), id) + Total(rans, id)
      ensures forall id :: id in lives && lives[id].kind == OnceTimer ==> Total(rans, id) <= 1
      ensures forall id :: id in lives && lives[id].Pending() ==> id in table.wheel
      ensures forall id :: id in table.wheel ==>
                id in lives && table.wheel[id].t.bePoint == lives[id].Target()
    {
      hide *;
      rans, trace := [], [Here()];
      ghost var history, gone := [lives], [];
      var i := 0;
      LivedStart(events[..0], lives);
      HereIs();
      MatchesStart(events, Here(), lives);
      RunStart(events[..0], Here());
      while i < |events|
        invariant 0 <= i <= |events| && Valid() && m_lastTimerID + |events| - i <= 0xFFFF_FFFF
        invariant forall id :: id in lives ==> id <= m_lastTimerID
        invariant |trace| == |history| == i + 1 && |rans| == |gone| == i
        invariant trace[0] == old(Here()) && trace[i] == Here() && history[0] == old(lives) && history[i] == lives
        invariant IsRun(events[..i], trace, rans) && LivedThrough(events[..i], history, rans, gone)
        invariant Matches(events, trace, rans, history, gone)
      {
        var ran := Do(events[i]);
        ghost var more := Gone(events[i], ran);
        LivedSnoc(events[..i], history, rans, gone, events[i], lives, ran, more);
        RunSnoc(events[..i], trace, rans, events[i], Here(), ran);
        MatchesMore(events, trace, rans, history, gone, Here(), ran, lives, more);
        assert events[..i] + [events[i]] == events[..i + 1];
        rans, trace, history, gone := rans + [ran], trace + [Here()], history + [lives], gone + [more];
        i := i + 1;
      }
      assert events[..i] == events;
      Silenced(events, history, rans, gone);
      RunCounts(events, history, rans, gone);
      SilencedSo(events, trace, rans, history, gone);
      RunEnds();
    }

    lemma HereIs()
      requires Valid()
      ensures Here().lives == lives && Sound(Here())
    {
    }

    ghost function Here(): Moment
      reads this, table
    {
      Moment(table.wheel, m_currSlot, lives, m_lastTimerID)
    }

    lemma RunEnds()
      requires Valid()
      ensures forall id :: id in lives && lives[id].Pending() ==> id in table.wheel
      ensures forall id :: id in table.wheel ==>
                id in lives && table.wheel[id].t.bePoint == lives[id].Target()
      ensures forall id :: id in lives && lives[id].kind == OnceTimer ==> lives[id].ran <= 1
    {
    }

    /** One call. */
    method Do(e: Event<Operation>) returns (ran: seq<int>)
      requires Valid() && m_lastTimerID < 0xFFFF_FFFF && forall id :: id in lives ==> id <= m_lastTimerID
      modifies this, table
      ensures Valid() && m_lastTimerID <= old(m_lastTimerID) + 1 && forall id :: id in lives ==> id <= m_lastTimerID
      ensures Lived(e, old(lives), lives, ran, Gone(e, ran))
      ensures StepOf(e, old(Here()), Here(), ran) && Sound(Here()) && Here().lives == lives
    {
      hide SlotTable.Placed, TickOf, Cancelled, LivesAfter, AttachWhole, TargetAfter;
      ran := [];
      match e {
        case AddCall(t) =>
          UnusedNext();
          hide Booked;
          var rc, id := AddTimer(t);
        case Operate(OnTickCall(tick, cancels)) =>
          hide Booked;
          ghost var before := lives;
          ran := OnTick(tick, cancels);
          BatchStep(e, ran, cancels, before);
        case CancelCall(id) =>
          CancelKeepsBooks(table.wheel, lives, id);
          hide Booked;
          Cancel(id);
      }
    }

    lemma UnusedNext()
      requires Valid() && m_lastTimerID < 0xFFFF_FFFF && forall id :: id in lives ==> id <= m_lastTimerID
      ensures NextId(m_lastTimerID) !in table.wheel && NextId(m_lastTimerID) !in lives
    {
    }
  }

  // ---- Many ticks ----

  /** wheels[i] is the wheel before the i-th tick. */
  ghost predicate IsTicking(wheels: seq<Wheel>, curr: nat, clock: seq<int>, cancels: seq<map<int, set<int>>>,
                            rans: seq<seq<int>>)
  {
    && curr < SLOT_COUNT && |wheels| == |clock| + 1 && |cancels| == |rans| == |clock|
    && (forall i :: 0 <= i < |clock| ==>
          TickOf(wheels[i], wheels[i + 1], HandAfter(curr, i), clock[i], rans[i], cancels[i]))
    && forall i :: 0 <= i < |wheels| ==> Rounded(wheels[i])
  }

  ghost predicate Rounded(w: Wheel) {
    forall id :: id in w ==> w[id].t.round >= 1
  }

  /** Nobody has cancelled the timer or will. */
  ghost predicate Wanted(p: Place, id: int, cancels: seq<map<int, set<int>>>) {
    && !p.t.deleted && p.slot < SLOT_COUNT
    && forall k, r :: 0 <= k < |cancels| && r in cancels[k] ==> id !in cancels[k][r]
  }

  ghost predicate WantedAgain(p: Place, id: int, cancels: seq<map<int, set<int>>>) {
    Wanted(p, id, cancels) && p.t.kind != OnceTimer
  }

  ghost predicate RunsWithin(rans: seq<seq<int>>, id: int, from: int, end: int) {
    exists k :: 0 <= k < |rans| && from <= k < end && id in rans[k]
  }

  lemma TickingStart(w: Wheel, curr: nat, clock: seq<int>, cancels: seq<map<int, set<int>>>)
    requires curr < SLOT_COUNT && clock == [] && cancels == [] && Rounded(w)
    ensures IsTicking([w], curr, clock, cancels, []) && HandAfter(curr, 0) == curr
  {
  }

  lemma TickingSnoc(wheels: seq<Wheel>, curr: nat, clock: seq<int>, cancels: seq<map<int, set<int>>>, i: nat,
                    rans: seq<seq<int>>, w: Wheel, ran: seq<int>)
    requires i < |clock| == |cancels| && IsTicking(wheels, curr, clock[..i], cancels[..i], rans) && Rounded(w)
    requires TickOf(wheels[i], w, HandAfter(curr, i), clock[i], ran, cancels[i])
    ensures IsTicking(wheels + [w], curr, clock[..i + 1], cancels[..i + 1], rans + [ran])
  {
    hide TickOf;
  }

  /** One tick of a timer that nobody cancels. */
  lemma TickOfWanted(w: Wheel, w': Wheel, slot: nat, tick: int, ran: seq<int>, cancels: seq<map<int, set<int>>>, i: nat,
                     id: int)
    requires slot < SLOT_COUNT && i < |cancels| && TickOf(w, w', slot, tick, ran, cancels[i])
    requires id in w && Wanted(w[id], id, cancels)
    ensures match After(w[id], slot, tick)
            case Some(p') => id in w' && w'[id] == p' && Wanted(p', id, cancels) && p'.t.kind == w[id].t.kind
            case None => id in ran && (w[id].t.kind != OnceTimer ==> id in w' && Wanted(w'[id], id, cancels)
                                                                     && w'[id].t.kind == w[id].t.kind)
  {
    var gone := Cancelled(ran, cancels[i]);
    assert id !in gone;
    SameWheel(w[id], id, slot, tick, gone);
    KeepsFlag(w[id].t, slot, tick);
    assert AfterTick(w[id], id, slot, tick, gone) == if id in w' then Some(w'[id]) else None;
  }

  /** The fate of a timer from tick i to tick n. */
  lemma {:induction false} FateFrom(wheels: seq<Wheel>, curr: nat, clock: seq<int>, cancels: seq<map<int, set<int>>>,
                                    rans: seq<seq<int>>, i: nat, n: nat, id: int)
    requires IsTicking(wheels, curr, clock, cancels, rans) && i <= n <= |clock|
    requires id in wheels[i] && Wanted(wheels[i][id], id, cancels)
    ensures match Trace(wheels[i][id], HandAfter(curr, i), clock[i..n])
            case None => RunsWithin(rans, id, i, n)
            case Some(p') => id in wheels[n] && wheels[n][id] == p' && Wanted(p', id, cancels)
    decreases n
  {
    hide TickOf, Wanted, After;
    if i < n {
      FateFrom(wheels, curr, clock, cancels, rans, i, n - 1, id);
      assert clock[i..n - 1] + [clock[n - 1]] == clock[i..n];
      TraceMore(wheels[i][id], HandAfter(curr, i), clock[i..n - 1], clock[n - 1]);
      HandAdd(curr, i, n - 1 - i);
      if Trace(wheels[i][id], HandAfter(curr, i), clock[i..n - 1]).Some? {
        TickOfWanted(wheels[n - 1], wheels[n], HandAfter(curr, n - 1), clock[n - 1], rans[n - 1], cancels, n - 1, id);
      }
    } else {
      assert clock[i..n] == [];
    }
  }

  /** Within the countdown it has at any tick, a timer that nobody cancels runs. */
  lemma RunsInTime(wheels: seq<Wheel>, curr: nat, clock: seq<int>, cancels: seq<map<int, set<int>>>,
                   rans: seq<seq<int>>, i: nat, id: int)
    requires IsTicking(wheels, curr, clock, cancels, rans) && i < |clock|
    requires id in wheels[i] && Wanted(wheels[i][id], id, cancels)
    ensures var left := wheels[i][id].Left(HandAfter(curr, i));
            0 <= left && (i + left < |clock| ==> RunsWithin(rans, id, i, i + left + 1))
  {
    hide TickOf;
    var p, hand := wheels[i][id], HandAfter(curr, i);
    assert Rounded(wheels[i]);
    LeftNonNegative(p, hand);
    var left := p.Left(hand);
    hide Place.Left;
    if i + left < |clock| {
      FateFrom(wheels, curr, clock, cancels, rans, i, i + left + 1, id);
      TraceEnds(p, hand, clock[i..i + left + 1]);
    }
  }

  /** A repeating timer that nobody cancels stays in the wheel. */
  lemma {:induction false} GoesOn(wheels: seq<Wheel>, curr: nat, clock: seq<int>, cancels: seq<map<int, set<int>>>,
                                  rans: seq<seq<int>>, i: nat, j: nat, id: int)
    requires IsTicking(wheels, curr, clock, cancels, rans) && i <= j <= |clock|
    requires id in wheels[i] && WantedAgain(wheels[i][id], id, cancels)
    ensures id in wheels[j] && WantedAgain(wheels[j][id], id, cancels)
    decreases j
  {
    hide TickOf, Wanted, After;
    if i < j {
      GoesOn(wheels, curr, clock, cancels, rans, i, j - 1, id);
      TickOfWanted(wheels[j - 1], wheels[j], HandAfter(curr, j - 1), clock[j - 1], rans[j - 1], cancels, j - 1, id);
    }
  }
}
