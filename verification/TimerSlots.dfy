/** What both timer managers keep: 3000 slots of timers (CommBase/Timer/NewSingleTimerMgr.cpp, TimerManager.cpp), and
    one timer's way through them. Timers are values held under their ids. */
module TimerSlots {
  import opened Bytes
  import opened Collections
  import opened TimerWheel

  /** A timer and the slot it waits in. */
  datatype Place = Place(slot: nat, t: TimerState) {
    function Left(curr: nat): int { Remaining(t, slot, curr) }
  }

  type Wheel = map<int, Place>

  /** Where one tick leaves a timer, if it is still in the wheel. */
  function After(p: Place, slot: nat, tick: int): Option<Place>
    requires slot < SLOT_COUNT
  {
    if p.slot != slot then Some(p) else
    match VisitTimer(p.t, slot, tick)
    case Dropped => None
    case Fired(_) => None
    case Stays(t) => Some(Place(slot, t))
    case Moves(t, s) => Some(Place(s, t))
  }

  /** One tick of the whole wheel. */
  ghost predicate WheelTick(w: Wheel, w': Wheel, slot: nat, tick: int)
    requires slot < SLOT_COUNT
  {
    && w'.Keys <= w.Keys
    && (forall id :: id in w ==> After(w[id], slot, tick) == if id in w' then Some(w'[id]) else None)
  }

  /** Where a visited timer is afterwards, read as a verdict of the visit. */
  function Found(p: Place, slot: nat): Visit {
    if p.slot == slot then Stays(p.t) else Moves(p.t, p.slot)
  }

  function CancelInWheel(w: Wheel, id: int): Wheel {
    if id in w then w[id := w[id].(t := w[id].t.(deleted := true))] else w
  }

  /** Every timer of the set, wherever it is, is cancelled. */
  function MarkAll(w: Wheel, ids: set<int>): (r: Wheel)
    ensures r.Keys == w.Keys
    ensures forall id :: id in w ==> r[id] == if id in ids then CancelInWheel(w, id)[id] else w[id]
  {
    map id | id in w :: if id in ids then CancelInWheel(w, id)[id] else w[id]
  }

  lemma MarkTwice(w: Wheel, a: set<int>, b: set<int>)
    ensures MarkAll(MarkAll(w, a), b) == MarkAll(w, a + b)
  {
  }

  class SlotTable {
    var m_slots: seq<map<int, TimerState>>
    /** What the slots hold, by timer. */
    ghost var wheel: Wheel

    ghost predicate Placed()
      reads this`m_slots, this`wheel
    {
      && |m_slots| == SLOT_COUNT
      && (forall s, id :: 0 <= s < SLOT_COUNT && id in m_slots[s] ==>
            id in wheel && wheel[id] == Place(s, m_slots[s][id]))
      && (forall id :: id in wheel ==> wheel[id].slot < SLOT_COUNT && id in m_slots[wheel[id].slot])
    }

    constructor ()
      ensures Placed() && wheel == map[]
    {
      m_slots := seq(SLOT_COUNT, _ => map[]);
      wheel := map[];
    }

    /** AddTimer of a slot. */
    method AddToSlot(id: int, t: TimerState, slot: nat)
      requires Placed() && slot < SLOT_COUNT && id !in wheel
      modifies this
      ensures Placed() && wheel == old(wheel)[id := Place(slot, t)]
    {
      var slotMap: map<int, TimerState> := m_slots[slot];
      slotMap := slotMap[id := t];
      m_slots := m_slots[slot := slotMap];
      wheel := wheel[id := Place(slot, t)];
    }

    method Erase(slot: nat, id: int)
      requires Placed() && id in wheel && wheel[id].slot == slot
      modifies this
      ensures Placed() && wheel == old(wheel) - {id}
      ensures m_slots[slot] == old(m_slots[slot]) - {id}
    {
      m_slots := m_slots[slot := m_slots[slot] - {id}];
      wheel := wheel - {id};
    }

    method Replace(slot: nat, id: int, t: TimerState)
      requires Placed() && id in wheel && wheel[id].slot == slot
      modifies this
      ensures Placed() && wheel == old(wheel)[id := Place(slot, t)]
      ensures m_slots[slot] == old(m_slots[slot])[id := t]
    {
      var slotMap: map<int, TimerState> := m_slots[slot];
      slotMap := slotMap[id := t];
      m_slots := m_slots[slot := slotMap];
      wheel := wheel[id := Place(slot, t)];
    }

    function GetTimer(slot: nat, id: int): (t: TimerState)
      requires Placed() && id in wheel && wheel[id].slot == slot
      reads this
      ensures t == wheel[id].t
    {
      m_slots[slot][id]
    }

    lemma SlotKeys(slot: nat)
      requires Placed() && slot < SLOT_COUNT
      ensures m_slots[slot].Keys <= wheel.Keys
      ensures forall id :: id in wheel && wheel[id].slot == slot ==> id in m_slots[slot].Keys
    {
      assert forall id :: id in m_slots[slot].Keys ==> id in m_slots[slot] && id in wheel;
    }

    /** The slot that holds a timer, or SLOT_COUNT. */
    method SlotOf(id: int) returns (s: nat)
      requires Placed()
      ensures s < SLOT_COUNT <==> id in wheel
      ensures id in wheel ==> s == wheel[id].slot
    {
      s := 0;
      while s < SLOT_COUNT && id !in m_slots[s]
        invariant 0 <= s <= SLOT_COUNT && forall k :: 0 <= k < s ==> id !in m_slots[k]
      {
        s := s + 1;
      }
    }

    /** Timer::Cancel through the handle of a timer, wherever it is. */
    method Mark(id: int)
      requires Placed()
      modifies this
      ensures Placed() && wheel == CancelInWheel(old(wheel), id)
    {
      hide Placed;
      var s := SlotOf(id);
      if s < SLOT_COUNT {
        Replace(s, id, GetTimer(s, id).(deleted := true));
      }
    }

    /** The same for every timer of a set. */
    method MarkEach(ids: set<int>)
      requires Placed()
      modifies this
      ensures Placed() && wheel == MarkAll(old(wheel), ids)
    {
      hide Placed;
      ghost var w := wheel;
      var todo := ids;
      assert MarkAll(w, ids - todo) == w;
      while todo != {}
        invariant Placed() && todo <= ids && wheel == MarkAll(w, ids - todo)
        decreases |todo|
      {
        LeastExists(todo);
        var id :| Least(id, todo);
        Mark(id);
        MarkOne(w, ids - todo, id);
        assert ids - (todo - {id}) == ids - todo + {id};
        todo := todo - {id};
      }
      assert ids - {} == ids;
    }

    static lemma MarkOne(w: Wheel, ids: set<int>, id: int)
      ensures CancelInWheel(MarkAll(w, ids), id) == MarkAll(w, ids + {id})
    {
    }
  }

  // ---- One timer over many ticks ----

  function Trace(p: Place, curr: nat, clock: seq<int>): Option<Place>
    requires curr < SLOT_COUNT
    decreases |clock|
  {
    if clock == [] then Some(p) else
    match After(p, curr, clock[0])
    case None => None
    case Some(p') => Trace(p', NextSlot(curr), clock[1..])
  }

  /** An uncancelled timer has left the wheel after as many ticks as its countdown, and one more. */
  lemma {:induction false} TraceEnds(p: Place, curr: nat, clock: seq<int>)
    requires p.slot < SLOT_COUNT && curr < SLOT_COUNT && !p.t.deleted && p.t.round >= 1
    ensures |clock| > p.Left(curr) ==> Trace(p, curr, clock).None?
    ensures match Trace(p, curr, clock)
            case None => FateOf(p.t, p.slot, curr, clock).Some?
            case Some(p') => p'.t.round >= 1 && p'.slot < SLOT_COUNT && FateOf(p.t, p.slot, curr, clock).None?
    decreases |clock|
  {
    hide VisitTimer;
    if clock != [] {
      if p.slot != curr {
        IdleTick(p.t, p.slot, curr);
        TraceEnds(p, NextSlot(curr), clock[1..]);
      } else {
        VisitTick(p.t, curr, clock[0]);
        KeepsFlag(p.t, curr, clock[0]);
        match VisitTimer(p.t, curr, clock[0])
        case Dropped =>
        case Fired(_) =>
        case Stays(t) => TraceEnds(Place(curr, t), NextSlot(curr), clock[1..]);
        case Moves(t, s) => TraceEnds(Place(s, t), NextSlot(curr), clock[1..]);
      }
    } else {
      LeftNonNegative(p, curr);
    }
  }

  lemma LeftNonNegative(p: Place, curr: nat)
    requires p.t.round >= 1
    ensures p.Left(curr) >= 0
  {
  }

  function HandAfter(curr: nat, n: nat): (r: nat)
    requires curr < SLOT_COUNT
    ensures r < SLOT_COUNT
  {
    if n == 0 then curr else NextSlot(HandAfter(curr, n - 1))
  }

  lemma {:induction false} HandShift(curr: nat, n: nat)
    requires curr < SLOT_COUNT
    ensures HandAfter(NextSlot(curr), n) == HandAfter(curr, n + 1)
  {
    if n > 0 {
      HandShift(curr, n - 1);
    }
  }

  lemma {:induction false} HandAdd(curr: nat, i: nat, n: nat)
    requires curr < SLOT_COUNT
    ensures HandAfter(HandAfter(curr, i), n) == HandAfter(curr, i + n)
  {
    if n > 0 {
      HandAdd(curr, i, n - 1);
    }
  }

  lemma {:induction false} TraceMore(p: Place, curr: nat, clock: seq<int>, tick: int)
    requires curr < SLOT_COUNT
    ensures Trace(p, curr, clock + [tick])
            == match Trace(p, curr, clock)
               case None => None
               case Some(p') => After(p', HandAfter(curr, |clock|), tick)
    decreases |clock|
  {
    hide After;
    if clock == [] {
      assert [tick][1..] == [];
      assert clock + [tick] == [tick];
    } else {
      assert (clock + [tick])[1..] == clock[1..] + [tick];
      match After(p, curr, clock[0])
      case None =>
      case Some(p') =>
        TraceMore(p', NextSlot(curr), clock[1..], tick);
        HandShift(curr, |clock| - 1);
    }
  }
}
