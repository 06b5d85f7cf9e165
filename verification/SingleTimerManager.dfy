/** The single-thread timer manager: 3000 slots of timers, a hand that moves one slot a tick, and a list of timers
    waiting for their callbacks (CommBase/Timer/NewSingleTimerMgr.cpp). Timers are values held under their ids. */
module SingleTimerManager {
  import opened Bytes
  import opened Collections
  import opened TimerLives
  import opened TimerWheel
  import opened TimerSlots

  type Fires = seq<(int, TimerState)>

  /** The tick times timer id out, in state t. */
  predicate FiresAs(w: Wheel, id: int, slot: nat, tick: int, t: TimerState)
    requires slot < SLOT_COUNT
  {
    id in w && w[id].slot == slot && VisitTimer(w[id].t, slot, tick) == Fired(t)
  }

  /** out lists, by increasing id, the timers of the slot that the tick times out. */
  ghost predicate FiredList(out: Fires, w: Wheel, slot: nat, tick: int)
    requires slot < SLOT_COUNT
  {
    && (forall i :: 0 <= i < |out| ==> FiresAs(w, out[i].0, slot, tick, out[i].1))
    && (forall id, t :: FiresAs(w, id, slot, tick, t) ==> (id, t) in out)
    && (forall i, j :: 0 <= i < j < |out| ==> out[i].0 < out[j].0)
  }

  /** The first loop of SingleSlot::OnTick has visited every timer of the slot but those in todo: timers to be
      moved are out of the wheel, on the list resets with their round already counted down. */
  ghost predicate Halfway(w: Wheel, w': Wheel, slot: nat, tick: int, todo: set<int>, out: Fires, resets: Fires)
    requires slot < SLOT_COUNT
  {
    && w'.Keys <= w.Keys && todo <= w.Keys
    && (forall id :: id in w ==> Sorted(w, w', slot, tick, todo, id))
    && (forall i :: 0 <= i < |out| ==>
          FiresAs(w, out[i].0, slot, tick, out[i].1) && forall x :: x in todo ==> out[i].0 < x)
    && (forall id, t :: FiresAs(w, id, slot, tick, t) && id !in todo ==> (id, t) in out)
    && (forall i, j :: 0 <= i < j < |out| ==> out[i].0 < out[j].0)
    && (forall i :: 0 <= i < |resets| ==> MovesAs(w, resets[i].0, slot, tick, resets[i].1) && resets[i].0 !in todo)
    && (forall id, t :: MovesAs(w, id, slot, tick, t) && id !in todo ==> (id, t) in resets)
    && (forall i, j :: 0 <= i < j < |resets| ==> resets[i].0 != resets[j].0)
  }

  ghost predicate Sorted(w: Wheel, w': Wheel, slot: nat, tick: int, todo: set<int>, id: int)
    requires slot < SLOT_COUNT && id in w
  {
    if w[id].slot != slot || id in todo then id in w' && w'[id] == w[id] else
    match VisitTimer(w[id].t, slot, tick)
    case Stays(t) => id in w' && w'[id] == Place(slot, t)
    case _ => id !in w'
  }

  predicate MovesAs(w: Wheel, id: int, slot: nat, tick: int, t: TimerState)
    requires slot < SLOT_COUNT
  {
    id in w && w[id].slot == slot && VisitTimer(w[id].t, slot, tick).Moves? && t == w[id].t.(round := w[id].t.round - 1)
  }

  /** The second loop has put back all but those in pending. */
  ghost predicate Restored(w: Wheel, w': Wheel, slot: nat, tick: int, pending: Fires)
    requires slot < SLOT_COUNT
  {
    && w'.Keys <= w.Keys
    && (forall id :: id in w ==>
          if exists t :: (id, t) in pending then id !in w'
          else After(w[id], slot, tick) == if id in w' then Some(w'[id]) else None)
  }

  lemma RestoredAll(w: Wheel, w': Wheel, slot: nat, tick: int)
    requires slot < SLOT_COUNT && Restored(w, w', slot, tick, [])
    ensures WheelTick(w, w', slot, tick)
  {
    hide After;
    forall id | id in w
      ensures After(w[id], slot, tick) == if id in w' then Some(w'[id]) else None
    {
      assert forall t: TimerState :: (id, t) !in [];
    }
  }

  lemma HalfwayStart(w: Wheel, slot: nat, tick: int, todo: set<int>)
    requires slot < SLOT_COUNT && todo <= w.Keys && forall id :: id in w && w[id].slot == slot ==> id in todo
    ensures Halfway(w, w, slot, tick, todo, [], [])
  {
  }

  lemma HalfwayEnd(w: Wheel, w': Wheel, slot: nat, tick: int, out: Fires, resets: Fires)
    requires slot < SLOT_COUNT && Halfway(w, w', slot, tick, {}, out, resets)
    ensures FiredList(out, w, slot, tick) && Restored(w, w', slot, tick, resets) && Pending(w, slot, tick, resets)
  {
    hide VisitTimer;
    forall id | id in w
      ensures if exists t :: (id, t) in resets then id !in w'
              else After(w[id], slot, tick) == if id in w' then Some(w'[id]) else None
    {
      assert Sorted(w, w', slot, tick, {}, id);
      if t :| (id, t) in resets {
        assert MovesAs(w, id, slot, tick, t);
      } else {
        assert !MovesAs(w, id, slot, tick, w[id].t.(round := w[id].t.round - 1));
      }
    }
  }

  /** Visiting the least timer left, by its verdict. */
  lemma HalfwayStep(w: Wheel, w1: Wheel, w2: Wheel, slot: nat, tick: int, todo: set<int>, out: Fires, resets: Fires,
                    id: int)
    returns (out': Fires, resets': Fires)
    requires slot < SLOT_COUNT && Halfway(w, w1, slot, tick, todo, out, resets)
    requires Least(id, todo) && id in w && w[id].slot == slot
    requires match VisitTimer(w[id].t, slot, tick)
             case Stays(t) => w2 == w1[id := Place(slot, t)]
             case _ => w2 == w1 - {id}
    ensures match VisitTimer(w[id].t, slot, tick)
            case Fired(t) => out' == out + [(id, t)] && resets' == resets
            case Moves(_, _) => out' == out && resets' == resets + [(id, w[id].t.(round := w[id].t.round - 1))]
            case _ => out' == out && resets' == resets
    ensures Halfway(w, w2, slot, tick, todo - {id}, out', resets')
  {
    hide VisitTimer;
    out', resets' := out, resets;
    match VisitTimer(w[id].t, slot, tick) {
      case Fired(t) => out' := out + [(id, t)];
      case Moves(_, _) => resets' := resets + [(id, w[id].t.(round := w[id].t.round - 1))];
      case _ =>
    }
    forall k | k in w
      ensures Sorted(w, w2, slot, tick, todo - {id}, k)
    {
      assert Sorted(w, w1, slot, tick, todo, k);
    }
  }

  ghost predicate Pending(w: Wheel, slot: nat, tick: int, pending: Fires)
    requires slot < SLOT_COUNT
  {
    && (forall i :: 0 <= i < |pending| ==> MovesAs(w, pending[i].0, slot, tick, pending[i].1))
    && (forall i, j :: 0 <= i < j < |pending| ==> pending[i].0 != pending[j].0)
  }

  /** What the second loop finds at the head of its list. */
  lemma PendingHead(w: Wheel, w1: Wheel, slot: nat, tick: int, pending: Fires)
    requires slot < SLOT_COUNT && pending != [] && Restored(w, w1, slot, tick, pending)
    requires Pending(w, slot, tick, pending)
    ensures var (id, t) := pending[0];
            && id in w && id !in w1 && Drifted(t, tick)
            && VisitTimer(w[id].t, slot, tick)
               == Moves(SetOn(t), BackSlots(slot, Drift(t, tick)))
    ensures Pending(w, slot, tick, pending[1..])
  {
    var (id, t) := pending[0];
    assert MovesAs(w, id, slot, tick, t);
    ReslotIsMove(w[id].t, slot, tick);
    assert (id, t) in pending;
  }

  /** Putting one moved timer back. */
  lemma RestoreStep(w: Wheel, w1: Wheel, w2: Wheel, slot: nat, tick: int, pending: Fires)
    requires slot < SLOT_COUNT && pending != [] && Restored(w, w1, slot, tick, pending)
    requires Pending(w, slot, tick, pending)
    requires pending[0].0 in w
    requires var v := VisitTimer(w[pending[0].0].t, slot, tick);
             v.Moves? && w2 == w1[pending[0].0 := Place(v.slot, v.t)]
    ensures Restored(w, w2, slot, tick, pending[1..])
  {
    hide VisitTimer;
    var id := pending[0].0;
    forall k | k in w
      ensures if exists t :: (k, t) in pending[1..] then k !in w2
              else After(w[k], slot, tick) == if k in w2 then Some(w2[k]) else None
    {
      if t :| (k, t) in pending[1..] {
        assert (k, t) in pending;
        assert k != id;
      } else if k != id {
        assert forall t :: (k, t) in pending ==> (k, t) in pending[1..];
      }
    }
  }

  /** What the second loop computes from the fields is where the visit moves the timer. */
  lemma ReslotIsMove(t0: TimerState, slot: nat, tick: int)
    requires slot < SLOT_COUNT && VisitTimer(t0, slot, tick).Moves?
    ensures var t := t0.(round := t0.round - 1);
            Drifted(t, tick) && VisitTimer(t0, slot, tick)
                                == Moves(SetOn(t), BackSlots(slot, Drift(t, tick)))
  {
  }

  /** One tick in plain arithmetic: who is in the wheel afterwards, where, and who has timed out. */
  ghost predicate TickLaw(w: Wheel, w': Wheel, slot: nat, tick: int, out: Fires)
    requires slot < SLOT_COUNT
  {
    forall id :: id in w ==>
      if w[id].slot != slot then id in w' && w'[id] == w[id] && !Listed(out, id)
      else if id in w' then VisitLaw(w[id].t, slot, tick, Found(w'[id], slot)) && !Listed(out, id)
      else if w[id].t.deleted then !Listed(out, id)
      else exists t :: (id, t) in out && VisitLaw(w[id].t, slot, tick, Fired(t))
  }

  lemma TickIsLawful(w: Wheel, w': Wheel, slot: nat, tick: int, out: Fires)
    requires slot < SLOT_COUNT && WheelTick(w, w', slot, tick) && FiredList(out, w, slot, tick)
    ensures TickLaw(w, w', slot, tick, out)
  {
    hide VisitTimer, VisitLaw;
    forall id | id in w
      ensures Listed(out, id) ==> w[id].slot == slot && VisitTimer(w[id].t, slot, tick).Fired?
      ensures After(w[id], slot, tick) == if id in w' then Some(w'[id]) else None
      ensures VisitLaw(w[id].t, slot, tick, VisitTimer(w[id].t, slot, tick))
      ensures w[id].slot == slot && VisitTimer(w[id].t, slot, tick).Fired? ==>
                (id, VisitTimer(w[id].t, slot, tick).t) in out
    {
      VisitIs(w[id].t, slot, tick);
      if w[id].slot == slot && VisitTimer(w[id].t, slot, tick).Fired? {
        assert FiresAs(w, id, slot, tick, VisitTimer(w[id].t, slot, tick).t);
      }
    }
    forall id | id in w
      ensures VisitTimer(w[id].t, slot, tick).Dropped? <==> w[id].t.deleted
    {
      KeepsFlag(w[id].t, slot, tick);
    }
    hide WheelTick, FiredList;
  }

  lemma TickKeepsValid(w: Wheel, w': Wheel, slot: nat, tick: int, out: Fires)
    requires slot < SLOT_COUNT && WheelTick(w, w', slot, tick) && FiredList(out, w, slot, tick)
    requires forall id :: id in w ==> w[id].t.round >= 1
    ensures forall id :: id in w' ==> id in w && w'[id].t.round >= 1
    ensures w'.Keys <= w.Keys
    ensures forall i :: 0 <= i < |out| ==> out[i].0 in w && out[i].0 !in w'
    ensures forall i, j :: 0 <= i < j < |out| ==> out[i].0 != out[j].0
  {
    hide VisitTimer;
    forall id | id in w'
      ensures id in w && w'[id].t.round >= 1
    {
      assert id in w;
      KeepsFlag(w[id].t, slot, tick);
    }
  }

  lemma AddKeepsBooks(w: Wheel, fs: Fires, lives: Lives, id: int, t: TimerState, slot: nat)
    requires Booked(w, fs, lives) && id !in w && !Listed(fs, id) && !t.deleted
    ensures Booked(w[id := Place(slot, AttachNew(t))], fs, lives[id := NewLife(t)])
    ensures forall i :: 0 <= i < |fs| ==> fs[i].0 != id
  {
    assert forall i :: 0 <= i < |fs| ==> fs[i].0 != id;
  }

  /** A tick moves timers about and changes nothing their lives record. */
  lemma TickKeepsBooked(w: Wheel, w': Wheel, slot: nat, tick: int, out: Fires, fs: Fires, lives: Lives)
    requires slot < SLOT_COUNT && WheelTick(w, w', slot, tick) && FiredList(out, w, slot, tick) && Booked(w, fs, lives)
    ensures Booked(w', fs + out, lives)
  {
    hide VisitTimer, TargetAfter;
    forall id | id in w'
      ensures id in lives && lives[id].Fits(w'[id].t)
    {
      assert id in w;
      KeepsFlag(w[id].t, slot, tick);
    }
    forall i | 0 <= i < |out|
      ensures out[i].0 in lives && lives[out[i].0].Fits(out[i].1)
    {
      assert FiresAs(w, out[i].0, slot, tick, out[i].1);
      KeepsFlag(w[out[i].0].t, slot, tick);
    }
    forall id | id in lives && lives[id].Pending()
      ensures id in w' || Listed(fs + out, id)
    {
      if id in w && id !in w' {
        KeepsFlag(w[id].t, slot, tick);
        var t := VisitTimer(w[id].t, slot, tick).t;
        assert FiresAs(w, id, slot, tick, t);
        var i :| 0 <= i < |out| && out[i] == (id, t);
        assert (fs + out)[|fs| + i].0 == id;
      } else if id !in w {
        var i :| 0 <= i < |fs| && fs[i].0 == id;
        assert (fs + out)[i].0 == id;
      }
    }
  }

  ghost predicate Listed(fs: Fires, id: int) {
    exists i :: 0 <= i < |fs| && fs[i].0 == id
  }

  predicate Apart(fs: Fires) {
    forall i, j :: 0 <= i < j < |fs| ==> fs[i].0 != fs[j].0
  }

  /** The timers held agree with their lives, and no timer still pending is missing. */
  ghost predicate Booked(w: Wheel, fs: Fires, lives: Lives) {
    && (forall id :: id in w ==> id in lives && lives[id].Fits(w[id].t))
    && (forall i :: 0 <= i < |fs| ==> fs[i].0 in lives && lives[fs[i].0].Fits(fs[i].1))
    && (forall id :: id in lives && lives[id].Pending() ==> id in w || Listed(fs, id))
    && (forall id :: id in lives && lives[id].kind == OnceTimer ==> lives[id].ran <= 1)
  }

  class SingleTimerManager {
    const table: SlotTable
    var m_currSlot: nat
    var m_lastTimerID: uint32
    var m_timeout: Fires
    /** Every timer added so far. */
    ghost var lives: Lives

    /** Every live timer is in exactly one slot or, once, in the timed-out list. */
    ghost predicate Valid()
      reads this, table
    {
      && table.Placed() && m_currSlot < SLOT_COUNT
      && (forall id :: id in table.wheel ==> table.wheel[id].t.round >= 1)
      && (forall i :: 0 <= i < |m_timeout| ==> m_timeout[i].0 !in table.wheel)
      && Apart(m_timeout) && Booked(table.wheel, m_timeout, lives)
    }

    /** No timer held bears this id. */
    ghost predicate Unused(id: int)
      reads this, table
    {
      id !in table.wheel && !Listed(m_timeout, id)
    }

    constructor ()
      ensures Valid() && fresh(table) && table.wheel == map[] && m_timeout == [] && m_lastTimerID == 0
      ensures m_currSlot == 0
      ensures lives == map[]
    {
      table := new SlotTable();
      m_currSlot, m_lastTimerID, m_timeout, lives := 0, 0, [], map[];
    }

    /** AddTimer and AttachTimer for a new timer; a zero start is refused, a cancelled timer ignored. */
    method AddTimer(t: TimerState) returns (rc: int, id: uint32)
      requires Valid() && Unused(NextId(m_lastTimerID))
      modifies this, table
      ensures Valid() && m_timeout == old(m_timeout) && m_currSlot == old(m_currSlot)
      ensures rc == (if t.start <= 0 then -1 else 0)
      ensures rc != 0 || t.deleted ==>
                table.wheel == old(table.wheel) && m_lastTimerID == old(m_lastTimerID) && lives == old(lives)
      ensures rc == 0 && !t.deleted ==>
                && id == m_lastTimerID == NextId(old(m_lastTimerID)) && id !in old(table.wheel) && id in table.wheel
                && table.wheel == old(table.wheel)[id := Place(SlotFor(m_currSlot, FirstTicks(t.start)), AttachNew(t))]
                && table.wheel[id].Left(m_currSlot) == FirstTicks(t.start)
                && lives == old(lives)[id := NewLife(t)]
    {
      hide Remaining, SlotFor, FirstTicks, Booked, Listed, Apart, SlotTable.Placed;
      id := 0;
      if t.start <= 0 {
        return -1, 0;
      }
      if t.deleted {
        return 0, 0;
      }
      m_lastTimerID := (m_lastTimerID + 1) % 0x1_0000_0000;
      if m_lastTimerID == 0 {
        m_lastTimerID := 1;
      }
      id := m_lastTimerID;
      AttachRemaining(AttachNew(t), m_currSlot);
      AddKeepsBooks(table.wheel, m_timeout, lives, id, t, SlotFor(m_currSlot, FirstTicks(t.start)));
      lives := lives[id := NewLife(t)];
      table.AddToSlot(id, AttachNew(t), SlotFor(m_currSlot, FirstTicks(t.start)));
      rc := 0;
    }

    /** The first loop of SingleSlot::OnTick on one timer: what joins the timed-out list, what the list of moves. */
    method VisitOne(slot: nat, id: int, tick: int) returns (timedOut: Fires, reset: Fires)
      requires table.Placed() && id in table.wheel && table.wheel[id].slot == slot
      modifies table
      ensures table.Placed() && table.m_slots[slot].Keys >= old(table.m_slots[slot].Keys) - {id}
      ensures var t0 := old(table.wheel)[id].t;
              match VisitTimer(t0, slot, tick)
              case Dropped => table.wheel == old(table.wheel) - {id} && timedOut == [] && reset == []
              case Fired(t) => table.wheel == old(table.wheel) - {id} && timedOut == [(id, t)] && reset == []
              case Stays(t) => table.wheel == old(table.wheel)[id := Place(slot, t)] && timedOut == [] && reset == []
              case Moves(_, _) =>
                && table.wheel == old(table.wheel) - {id} && timedOut == []
                && reset == [(id, t0.(round := t0.round - 1))]
    {
      hide SlotTable.Placed, BackSlots;
      timedOut, reset := [], [];
      var pTimer: TimerState := table.GetTimer(slot, id);
      if pTimer.deleted {
        table.Erase(slot, id);
        return;
      }
      var (iTimeout, t) := OnTickEx(pTimer, tick);
      if iTimeout {
        timedOut := [(id, t)];
        table.Erase(slot, id);
      } else if t.tickPoint <= 0 {
        table.Replace(slot, id, t.(elapseRound := 1, tickPoint := tick));
      } else if Drifted(t, tick) {
        reset := [(id, t)];
        table.Erase(slot, id);
      } else {
        table.Replace(slot, id, t.(elapseRound := (t.elapseRound + 1) % 0x1_0000));
      }
    }

    /** SingleSlot::OnTick: one visit of every timer of the slot, in id order, then the moves. */
    method SlotOnTick(slot: nat, tick: int) returns (lTimeoutTimer: Fires)
      requires table.Placed() && slot < SLOT_COUNT
      modifies table
      ensures table.Placed() && WheelTick(old(table.wheel), table.wheel, slot, tick)
      ensures FiredList(lTimeoutTimer, old(table.wheel), slot, tick)
    {
      hide *;
      ghost var w := table.wheel;
      var lResetTimer;
      lTimeoutTimer, lResetTimer := VisitAll(slot, tick);
      HalfwayEnd(w, table.wheel, slot, tick, lTimeoutTimer, lResetTimer);
      MoveAll(slot, tick, w, lResetTimer);
    }

    /** The first loop. */
    method VisitAll(slot: nat, tick: int) returns (lTimeoutTimer: Fires, lResetTimer: Fires)
      requires table.Placed() && slot < SLOT_COUNT
      modifies table
      ensures table.Placed() && Halfway(old(table.wheel), table.wheel, slot, tick, {}, lTimeoutTimer, lResetTimer)
    {
      hide VisitTimer, Halfway;
      ghost var w := table.wheel;
      var todo := table.m_slots[slot].Keys;
      lTimeoutTimer, lResetTimer := [], [];
      table.SlotKeys(slot);
      HalfwayStart(w, slot, tick, todo);
      hide *;
      while todo != {}
        invariant table.Placed() && slot < |table.m_slots| && todo <= table.m_slots[slot].Keys
        invariant Halfway(w, table.wheel, slot, tick, todo, lTimeoutTimer, lResetTimer)
        decreases |todo|
      {
        LeastExists(todo);
        var id :| Least(id, todo);
        TodoFact(slot, tick, w, todo, lTimeoutTimer, lResetTimer, id);
        ghost var w1, out, resets := table.wheel, lTimeoutTimer, lResetTimer;
        var timedOut, reset := VisitOne(slot, id, tick);
        lTimeoutTimer, lResetTimer := lTimeoutTimer + timedOut, lResetTimer + reset;
        assert out + [] == out && resets + [] == resets;
        ghost var out', resets' := HalfwayStep(w, w1, table.wheel, slot, tick, todo, out, resets, id);
        assert id in todo;
        todo := todo - {id};
      }
    }

    /** The second loop. */
    method MoveAll(slot: nat, tick: int, ghost w: Wheel, lResetTimer: Fires)
      requires table.Placed() && slot < SLOT_COUNT
      requires Restored(w, table.wheel, slot, tick, lResetTimer) && Pending(w, slot, tick, lResetTimer)
      modifies table
      ensures table.Placed() && WheelTick(w, table.wheel, slot, tick)
    {
      hide *;
      var i := 0;
      assert lResetTimer[0..] == lResetTimer;
      while i < |lResetTimer|
        invariant 0 <= i <= |lResetTimer| && table.Placed()
        invariant Restored(w, table.wheel, slot, tick, lResetTimer[i..]) && Pending(w, slot, tick, lResetTimer[i..])
      {
        var (id, t) := lResetTimer[i];
        ghost var pending, w1 := lResetTimer[i..], table.wheel;
        assert pending[0] == lResetTimer[i] && pending[1..] == lResetTimer[i + 1..];
        PendingHead(w, w1, slot, tick, pending);
        var back := BackSlots(slot, Drift(t, tick));
        table.AddToSlot(id, SetOn(t), back);
        RestoreStep(w, w1, table.wheel, slot, tick, pending);
        i := i + 1;
      }
      assert lResetTimer[i..] == [];
      RestoredAll(w, table.wheel, slot, tick);
    }

    lemma TodoFact(slot: nat, tick: int, w: Wheel, todo: set<int>, out: Fires, resets: Fires, id: int)
      requires table.Placed() && slot < SLOT_COUNT && todo <= table.m_slots[slot].Keys && id in todo
      requires Halfway(w, table.wheel, slot, tick, todo, out, resets)
      ensures id in table.wheel && table.wheel[id].slot == slot && id in w && table.wheel[id] == w[id]
    {
      assert id in table.m_slots[slot];
      assert Sorted(w, table.wheel, slot, tick, todo, id);
    }

    /** SingleTimerManager::OnTick: the hand moves on, then the slot it pointed at is visited. */
    method OnTick(tick: int)
      requires Valid()
      modifies this, table
      ensures Valid() && m_lastTimerID == old(m_lastTimerID) && m_currSlot == NextSlot(old(m_currSlot))
      ensures lives == old(lives)
      ensures WheelTick(old(table.wheel), table.wheel, old(m_currSlot), tick)
      ensures exists out ::
                && FiredList(out, old(table.wheel), old(m_currSlot), tick) && m_timeout == old(m_timeout) + out
                && TickLaw(old(table.wheel), table.wheel, old(m_currSlot), tick, out)
    {
      hide SlotTable.Placed, WheelTick, FiredList, Booked, TickLaw;
      var slot := m_currSlot;
      m_currSlot := m_currSlot + 1;
      if m_currSlot >= SLOT_COUNT {
        m_currSlot := 0;
      }
      ghost var w := table.wheel;
      var timeoutTimer := SlotOnTick(slot, tick);
      TickKeepsValid(w, table.wheel, slot, tick, timeoutTimer);
      TickIsLawful(w, table.wheel, slot, tick, timeoutTimer);
      TickKeepsBooked(w, table.wheel, slot, tick, timeoutTimer, m_timeout, lives);
      m_timeout := m_timeout + timeoutTimer;
      assert FiredList(timeoutTimer, w, slot, tick) && m_timeout == old(m_timeout) + timeoutTimer;
    }

    /** Any number of ticks, whatever the clock reads at each: every timer follows its own countdown. */
    method RunTicks(clock: seq<int>)
      requires Valid()
      modifies this, table
      ensures Valid() && lives == old(lives) && m_currSlot == HandAfter(old(m_currSlot), |clock|)
      ensures forall id :: id in lives && lives[id].Pending() ==> id in table.wheel || Listed(m_timeout, id)
      ensures forall id :: id in old(table.wheel) ==>
                Trace(old(table.wheel)[id], old(m_currSlot), clock)
                == if id in table.wheel then Some(table.wheel[id]) else None
      ensures forall id :: id in old(table.wheel) && !old(table.wheel)[id].t.deleted ==>
                var p := old(table.wheel)[id];
                |clock| > p.Left(old(m_currSlot)) ==>
                  id !in table.wheel && FateOf(p.t, p.slot, old(m_currSlot), clock).Some?
    {
      hide Place.Left;
      var i := 0;
      ghost var w := table.wheel;
      ghost var curr := m_currSlot;
      assert clock[..0] == [];
      while i < |clock|
        invariant Valid() && 0 <= i <= |clock|
        invariant m_currSlot == HandAfter(curr, i) && lives == old(lives)
        invariant forall id :: id in w ==>
                    Trace(w[id], curr, clock[..i]) == if id in table.wheel then Some(table.wheel[id]) else None
      {
        ghost var w1 := table.wheel;
        OnTick(clock[i]);
        forall id | id in w
          ensures Trace(w[id], curr, clock[..i + 1]) == if id in table.wheel then Some(table.wheel[id]) else None
        {
          TraceMore(w[id], curr, clock[..i], clock[i]);
          assert clock[..i] + [clock[i]] == clock[..i + 1];
        }
        i := i + 1;
      }
      assert clock[..i] == clock;
      forall id | id in w && !w[id].t.deleted
        ensures |clock| > w[id].Left(curr) ==> id !in table.wheel && FateOf(w[id].t, w[id].slot, curr, clock).Some?
      {
        TraceEnds(w[id], curr, clock);
      }
    }

    /** SingleTimerManager::Tick: run the callbacks of the timed-out timers, then attach the loop timers again. A
        callback may cancel timers, wherever they are; cancels says which. */
    method Tick(tick: int, cancels: map<int, set<int>>) returns (ran: seq<int>)
      requires Valid()
      modifies this, table
      ensures Valid() && m_timeout == [] && m_currSlot == old(m_currSlot) && m_lastTimerID == old(m_lastTimerID)
      ensures ran == Callbacks(old(m_timeout), 0, cancels).0
      ensures table.wheel == AttachAll(MarkAll(old(table.wheel), Cancelled(ran, cancels)), m_currSlot, tick,
                                       CancelIn(old(m_timeout), Cancelled(ran, cancels)))
      ensures lives == LivesAfter(old(lives), ran, Cancelled(ran, cancels))
    {
      hide SlotTable.Placed, AttachAll, Callbacks, CancelIn, MarkAll, Booked, Cancelled, LivesAfter, Apart, Reattach;
      ran := [];
      if |m_timeout| <= 0 {
        EmptyTick(table.wheel, m_timeout, m_currSlot, tick, cancels, lives);
        return;
      }
      var timeoutTimer := m_timeout;
      TickKeepsBooks(table.wheel, timeoutTimer, m_currSlot, tick, cancels, lives);
      LeftIs(timeoutTimer, 0, cancels);
      LeftApart(table.wheel, timeoutTimer, Cancelled(Callbacks(timeoutTimer, 0, cancels).0, cancels));
      m_timeout := [];
      ran, timeoutTimer := RunCallbacks(timeoutTimer, cancels);
      AttachAgainAll(timeoutTimer, tick);
      lives := LivesAfter(lives, ran, Cancelled(ran, cancels));
    }

    /** The first loop of Tick. */
    method RunCallbacks(batch: Fires, cancels: map<int, set<int>>) returns (ran: seq<int>, timeoutTimer: Fires)
      requires table.Placed()
      modifies table
      ensures table.Placed() && (ran, timeoutTimer) == Callbacks(batch, 0, cancels)
      ensures table.wheel == MarkAll(old(table.wheel), Cancelled(ran, cancels))
    {
      hide SlotTable.Placed, CancelIn, CancelledBy, MarkAll, Cancelled;
      ghost var w := table.wheel;
      ran, timeoutTimer := [], batch;
      var i := 0;
      assert [] + Callbacks(batch, 0, cancels).0 == Callbacks(batch, 0, cancels).0;
      NothingCancelled(w, cancels);
      while i < |timeoutTimer|
        invariant 0 <= i <= |timeoutTimer| == |batch| && table.Placed()
        invariant Callbacks(batch, 0, cancels)
                  == (ran + Callbacks(timeoutTimer, i, cancels).0, Callbacks(timeoutTimer, i, cancels).1)
        invariant table.wheel == MarkAll(w, Cancelled(ran, cancels))
      {
        var (id, t) := timeoutTimer[i];
        if !t.deleted {
          ghost var rest := Callbacks(CancelIn(timeoutTimer, CancelledBy(cancels, id)), i + 1, cancels);
          assert ran + ([id] + rest.0) == (ran + [id]) + rest.0;
          MarkTwice(w, Cancelled(ran, cancels), CancelledBy(cancels, id));
          CancelledSnoc(ran, id, cancels);
          ran := ran + [id];
          timeoutTimer := CancelIn(timeoutTimer, CancelledBy(cancels, id));
          table.MarkEach(CancelledBy(cancels, id));
        }
        i := i + 1;
      }
      assert ran + [] == ran;
    }

    /** The second loop of Tick. */
    method AttachAgainAll(timeoutTimer: Fires, tick: int)
      requires table.Placed() && m_currSlot < SLOT_COUNT && Apart(timeoutTimer)
      requires forall k :: 0 <= k < |timeoutTimer| ==> timeoutTimer[k].0 !in table.wheel
      modifies table
      ensures table.Placed() && table.wheel == AttachAll(old(table.wheel), m_currSlot, tick, timeoutTimer)
    {
      hide Reattach, SlotFor, SlotTable.Placed;
      var i := 0;
      while i < |timeoutTimer|
        invariant 0 <= i <= |timeoutTimer| && table.Placed()
        invariant forall k :: i <= k < |timeoutTimer| ==> timeoutTimer[k].0 !in table.wheel
        invariant AttachAll(old(table.wheel), m_currSlot, tick, timeoutTimer)
                  == AttachAll(table.wheel, m_currSlot, tick, timeoutTimer[i..])
      {
        assert timeoutTimer[i..][0] == timeoutTimer[i] && timeoutTimer[i..][1..] == timeoutTimer[i + 1..];
        var (id, t) := timeoutTimer[i];
        if t.kind != OnceTimer && !t.deleted {
          var again := Reattach(t, tick);
          table.AddToSlot(id, again, SlotFor(m_currSlot, again.ticks));
        }
        i := i + 1;
      }
      assert timeoutTimer[i..] == [];
    }

    /** Timer::Cancel through the handle of a timer, wherever it is. */
    method Cancel(id: int)
      requires Valid()
      modifies this, table
      ensures Valid() && m_currSlot == old(m_currSlot) && m_lastTimerID == old(m_lastTimerID)
      ensures table.wheel == CancelInWheel(old(table.wheel), id) && m_timeout == CancelIn(old(m_timeout), {id})
      ensures lives == LivesAfter(old(lives), [], {id})
    {
      hide SlotTable.Placed, Booked, CancelIn, CancelInWheel, LivesAfter, Apart;
      CancelKeepsBooks(table.wheel, m_timeout, lives, id);
      m_timeout := CancelIn(m_timeout, {id});
      lives := LivesAfter(lives, [], {id});
      table.Mark(id);
    }

    /** Any calls in any order. No timer is lost or held twice, targets keep the interval however late the callbacks
        are, a once-timer runs at most once, and nothing runs after its cancel. */
    method Run(events: seq<Event<Operation>>) returns (rans: seq<seq<int>>, ghost trace: seq<Moment>)
      requires Valid() && m_lastTimerID + |events| <= 0xFFFF_FFFF && forall id :: id in lives ==> id <= m_lastTimerID
      modifies this, table
      ensures Valid() && IsRun(events, trace, rans) && trace[0] == old(Here()) && trace[|events|] == Here()
      ensures forall i, j, id ::
                0 <= i < j < |events| && id in Gone(events[i], rans[i]) && id in trace[i].lives ==> id !in rans[j]
      ensures forall id :: id in lives ==> lives[id].ran == RanBefore(old(lives), id) + Total(rans, id)
      ensures forall id :: id in lives && lives[id].kind == OnceTimer ==> Total(rans, id) <= 1
      ensures forall id :: id in lives && lives[id].Pending() ==> (id in table.wheel <==> !Listed(m_timeout, id))
      ensures forall id :: id in table.wheel ==>
                id in lives && table.wheel[id].t.bePoint == lives[id].Target()
      ensures forall k :: 0 <= k < |m_timeout| ==>
                var (id, t) := m_timeout[k];
                id in lives && t.bePoint == lives[id].Target()
    {
      hide *;
      rans, trace := [], [Here()];
      ghost var history, gone := [lives], [];
      var i := 0;
      LivedStart(events[..0], lives);
      HereIs();
      MatchesStart(events, Here(), lives);
      RunStart(events[..0], Here());
      while i < |events|
        invariant 0 <= i <= |events| && Valid() && m_lastTimerID + |events| - i <= 0xFFFF_FFFF
        invariant forall id :: id in lives ==> id <= m_lastTimerID
        invariant |trace| == |history| == i + 1 && |rans| == |gone| == i
        invariant trace[0] == old(Here()) && trace[i] == Here() && history[0] == old(lives) && history[i] == lives
        invariant IsRun(events[..i], trace, rans) && LivedThrough(events[..i], history, rans, gone)
        invariant Matches(events, trace, rans, history, gone)
      {
        var ran := Do(events[i]);
        ghost var more := Gone(events[i], ran);
        LivedSnoc(events[..i], history, rans, gone, events[i], lives, ran, more);
        RunSnoc(events[..i], trace, rans, events[i], Here(), ran);
        MatchesMore(events, trace, rans, history, gone, Here(), ran, lives, more);
        assert events[..i] + [events[i]] == events[..i + 1];
        rans, trace, history, gone := rans + [ran], trace + [Here()], history + [lives], gone + [more];
        i := i + 1;
      }
      assert events[..i] == events;
      Silenced(events, history, rans, gone);
      RunCounts(events, history, rans, gone);
      SilencedSo(events, trace, rans, history, gone);
      RunEnds();
    }

    lemma HereIs()
      requires Valid()
      ensures Here().lives == lives && Sound(Here())
    {
    }

    ghost function Here(): Moment
      reads this, table
    {
      Moment(table.wheel, m_currSlot, m_timeout, lives, m_lastTimerID)
    }

    /** What Valid says, spelt out. */
    lemma RunEnds()
      requires Valid()
      ensures forall id :: id in lives && lives[id].Pending() ==> (id in table.wheel <==> !Listed(m_timeout, id))
      ensures forall id :: id in table.wheel ==>
                id in lives && table.wheel[id].t.bePoint == lives[id].Target()
      ensures forall k :: 0 <= k < |m_timeout| ==>
                var (id, t) := m_timeout[k];
                id in lives && t.bePoint == lives[id].Target()
      ensures forall id :: id in lives && lives[id].kind == OnceTimer ==> lives[id].ran <= 1
    {
    }

    /** One call. */
    method Do(e: Event<Operation>) returns (ran: seq<int>)
      requires Valid() && m_lastTimerID < 0xFFFF_FFFF && forall id :: id in lives ==> id <= m_lastTimerID
      modifies this, table
      ensures Valid() && m_lastTimerID <= old(m_lastTimerID) + 1 && forall id :: id in lives ==> id <= m_lastTimerID
      ensures Lived(e, old(lives), lives, ran, Gone(e, ran))
      ensures StepOf(e, old(Here()), Here(), ran) && Sound(Here()) && Here().lives == lives
    {
      hide SlotTable.Placed, WheelTick, FiredList, AttachAll, MarkAll, Callbacks, CancelIn, LivesAfter, Cancelled,
        FirstTicks, AttachNew;
      ran := [];
      ghost var before := lives;
      match e {
        case AddCall(t) =>
          UnusedNext();
          hide Booked;
          var rc, id := AddTimer(t);
        case Operate(OnTickCall(tick)) =>
          hide Booked;
          OnTick(tick);
        case Operate(TickCall(tick, cancels)) =>
          BatchStep(e, table.wheel, m_timeout, cancels, lives);
          hide Booked;
          ran := Tick(tick, cancels);
        case CancelCall(id) =>
          LivesCancelled(lives, id);
          hide Booked;
          Cancel(id);
      }
    }

    lemma UnusedNext()
      requires Valid() && m_lastTimerID < 0xFFFF_FFFF && forall id :: id in lives ==> id <= m_lastTimerID
      ensures Unused(NextId(m_lastTimerID)) && NextId(m_lastTimerID) !in lives
    {
    }
  }

  /** The calls of its own: a tick, and a batch of callbacks. */
  datatype Operation = OnTickCall(tick: int) | TickCall(tick: int, cancels: map<int, set<int>>)

  /** The manager at one moment. */
  datatype Moment = Moment(w: Wheel, curr: nat, fs: Fires, lives: Lives, last: uint32)

  /** The timers an event cancels. */
  ghost function Gone(e: Event<Operation>, ran: seq<int>): set<int> {
    match e
    case CancelCall(id) => {id}
    case Operate(TickCall(_, cancels)) => Cancelled(ran, cancels)
    case _ => {}
  }

  /** What one call makes of the manager, and the callbacks it runs. */
  ghost predicate StepOf(e: Event<Operation>, a: Moment, b: Moment, ran: seq<int>) {
    && a.curr < SLOT_COUNT
    && match e
       case AddCall(t) =>
         var id := NextId(a.last);
         && ran == []
         && b == if t.start <= 0 || t.deleted then a else
                 a.(w := a.w[id := Place(SlotFor(a.curr, FirstTicks(t.start)), AttachNew(t))],
                    lives := a.lives[id := NewLife(t)], last := id)
       case CancelCall(id) =>
         && ran == []
         && b == a.(w := CancelInWheel(a.w, id), fs := CancelIn(a.fs, {id}), lives := LivesAfter(a.lives, [], {id}))
       case Operate(OnTickCall(tick)) =>
         && ran == [] && WheelTick(a.w, b.w, a.curr, tick)
         && exists out :: FiredList(out, a.w, a.curr, tick)
                          && b == a.(w := b.w, curr := NextSlot(a.curr), fs := a.fs + out)
       case Operate(TickCall(tick, cancels)) =>
         var gone := Cancelled(ran, cancels);
         && ran == Callbacks(a.fs, 0, cancels).0
         && b == a.(w := AttachAll(MarkAll(a.w, gone), a.curr, tick, CancelIn(a.fs, gone)), fs := [],
                    lives := LivesAfter(a.lives, ran, gone))
  }

  /** No timer is held twice or lost, and targets agree with the lives. */
  ghost predicate Sound(m: Moment) {
    Booked(m.w, m.fs, m.lives) && Apart(m.fs) && forall i :: 0 <= i < |m.fs| ==> m.fs[i].0 !in m.w
  }

  ghost predicate IsRun(events: seq<Event<Operation>>, trace: seq<Moment>, rans: seq<seq<int>>) {
    && |rans| == |events| && |trace| == |events| + 1
    && (forall i :: 0 <= i < |events| ==> StepOf(events[i], trace[i], trace[i + 1], rans[i]))
    && forall i :: 0 <= i <= |events| ==> Sound(trace[i])
  }

  lemma RunStart(events: seq<Event<Operation>>, m: Moment)
    requires events == [] && Sound(m)
    ensures IsRun(events, [m], [])
  {
  }

  lemma RunSnoc(events: seq<Event<Operation>>, trace: seq<Moment>, rans: seq<seq<int>>, e: Event<Operation>, m: Moment,
                ran: seq<int>)
    requires IsRun(events, trace, rans) && StepOf(e, trace[|events|], m, ran) && Sound(m)
    ensures IsRun(events + [e], trace + [m], rans + [ran])
  {
    hide StepOf, Sound;
  }

  /** history and gone are what the trace says of lives and cancels. */
  ghost predicate Matches(events: seq<Event<Operation>>, trace: seq<Moment>, rans: seq<seq<int>>, history: seq<Lives>,
                          gone: seq<set<int>>) {
    && |trace| == |history| && |rans| == |gone| <= |events|
    && (forall i :: 0 <= i < |history| ==> trace[i].lives == history[i])
    && forall i :: 0 <= i < |gone| ==> gone[i] == Gone(events[i], rans[i])
  }

  lemma MatchesStart(events: seq<Event<Operation>>, m: Moment, lives: Lives)
    requires m.lives == lives
    ensures Matches(events, [m], [], [lives], [])
  {
  }

  lemma MatchesMore(events: seq<Event<Operation>>, trace: seq<Moment>, rans: seq<seq<int>>, history: seq<Lives>,
                    gone: seq<set<int>>, m: Moment, ran: seq<int>, lives: Lives, more: set<int>)
    requires Matches(events, trace, rans, history, gone) && |gone| < |events|
    requires m.lives == lives && more == Gone(events[|gone|], ran)
    ensures Matches(events, trace + [m], rans + [ran], history + [lives], gone + [more])
  {
    hide Gone;
  }

  lemma SilencedSo(events: seq<Event<Operation>>, trace: seq<Moment>, rans: seq<seq<int>>, history: seq<Lives>,
                   gone: seq<set<int>>)
    requires Matches(events, trace, rans, history, gone) && |gone| == |events| && |history| == |events| + 1
    requires forall i, j, id :: 0 <= i < j < |events| && id in gone[i] && id in history[i] ==> id !in rans[j]
    ensures |trace| == |events| + 1
    ensures forall i, j, id ::
              0 <= i < j < |events| && id in Gone(events[i], rans[i]) && id in trace[i].lives ==> id !in rans[j]
  {
    hide Gone;
  }

  /** What a batch of callbacks writes into the books. */
  lemma BatchStep(e: Event<Operation>, w: Wheel, fs: Fires, cancels: map<int, set<int>>, lives: Lives)
    requires !e.CancelCall? && Booked(w, fs, lives) && Apart(fs)
    ensures var ran := Callbacks(fs, 0, cancels).0;
            Lived(e, lives, LivesAfter(lives, ran, Cancelled(ran, cancels)), ran, Cancelled(ran, cancels))
  {
    var ran := Callbacks(fs, 0, cancels).0;
    hide Callbacks, Cancelled;
    forall id | id in ran
      ensures id in lives && !lives[id].cancelled
    {
      RanListed(fs, 0, cancels, id);
      var k :| 0 <= k < |fs| && fs[k].0 == id;
      RunsIff(fs, 0, cancels, k);
    }
  }

  /** A list of timed-out timers after some have been cancelled. */
  function CancelIn(fs: Fires, ids: set<int>): (r: Fires)
    ensures |r| == |fs|
    ensures forall i :: 0 <= i < |fs| ==>
              r[i] == (fs[i].0, if fs[i].0 in ids then fs[i].1.(deleted := true) else fs[i].1)
  {
    if fs == [] then [] else
    [(fs[0].0, if fs[0].0 in ids then fs[0].1.(deleted := true) else fs[0].1)] + CancelIn(fs[1..], ids)
  }

  /** The first loop of Tick from position i: the callbacks run, and the batch as they leave it. */
  function Callbacks(fs: Fires, i: nat, cancels: map<int, set<int>>): (r: (seq<int>, Fires))
    requires i <= |fs|
    ensures |r.1| == |fs|
    decreases |fs| - i
  {
    if i == |fs| then ([], fs)
    else if fs[i].1.deleted then Callbacks(fs, i + 1, cancels)
    else
      var (ran, left) := Callbacks(CancelIn(fs, CancelledBy(cancels, fs[i].0)), i + 1, cancels);
      ([fs[i].0] + ran, left)
  }

  /** The second loop of Tick: loop timers still wanted go back into the wheel. */
  function AttachAll(w: Wheel, curr: nat, tick: int, fs: Fires): Wheel
    decreases |fs|
  {
    if fs == [] then w else
    var (id, t) := fs[0];
    AttachAll(if t.kind != OnceTimer && !t.deleted
              then w[id := Place(SlotFor(curr, Reattach(t, tick).ticks), Reattach(t, tick))] else w,
              curr, tick, fs[1..])
  }

  lemma RoundPositive(t: TimerState, tick: int)
    ensures Reattach(t, tick).round >= 1
  {
  }

  /** Callbacks leave the batch as it was but for the marks of those that ran. */
  lemma {:induction false} LeftIs(fs: Fires, i: nat, cancels: map<int, set<int>>)
    requires i <= |fs|
    ensures var (ran, left) := Callbacks(fs, i, cancels);
            left == CancelIn(fs, Cancelled(ran, cancels))
    decreases |fs| - i
  {
    hide Cancelled;
    if i == |fs| {
      NothingCancelled(map[], cancels);
      assert CancelIn(fs, {}) == fs;
    } else if fs[i].1.deleted {
      LeftIs(fs, i + 1, cancels);
    } else {
      var marked := CancelledBy(cancels, fs[i].0);
      var fs' := CancelIn(fs, marked);
      LeftIs(fs', i + 1, cancels);
      var ran := Callbacks(fs', i + 1, cancels).0;
      CancelledCons(fs[i].0, ran, cancels);
      assert CancelIn(fs', Cancelled(ran, cancels)) == CancelIn(fs, marked + Cancelled(ran, cancels));
    }
  }

  lemma NothingCancelled(w: Wheel, cancels: map<int, set<int>>)
    ensures Cancelled([], cancels) == {} && MarkAll(w, {}) == w
  {
  }

  lemma {:induction false} RanListed(fs: Fires, i: nat, cancels: map<int, set<int>>, id: int)
    requires i <= |fs| && id in Callbacks(fs, i, cancels).0
    ensures exists k :: i <= k < |fs| && fs[k].0 == id
    decreases |fs| - i
  {
    if fs[i].1.deleted {
      RanListed(fs, i + 1, cancels, id);
    } else if id != fs[i].0 {
      var fs' := CancelIn(fs, CancelledBy(cancels, fs[i].0));
      RanListed(fs', i + 1, cancels, id);
      var k :| i + 1 <= k < |fs'| && fs'[k].0 == id;
      assert fs[k].0 == id;
    }
  }

  /** A timer cancelled before its turn never runs its callback. */
  lemma {:induction false} CancelledNeverRuns(fs: Fires, i: nat, cancels: map<int, set<int>>, k: nat)
    requires i <= |fs| && k < |fs| && Apart(fs) && (k < i || fs[k].1.deleted)
    ensures Runs(Callbacks(fs, i, cancels).0, fs[k].0) == 0
    decreases |fs| - i
  {
    if i < |fs| {
      if fs[i].1.deleted {
        CancelledNeverRuns(fs, i + 1, cancels, k);
      } else {
        var fs' := CancelIn(fs, CancelledBy(cancels, fs[i].0));
        CancelledNeverRuns(fs', i + 1, cancels, k);
        RunsCons(fs[i].0, Callbacks(fs', i + 1, cancels).0, fs[k].0);
      }
    }
  }

  /** A callback that ran before its turn has cancelled the timer. */
  ghost predicate CancelledBefore(fs: Fires, i: nat, ran: seq<int>, cancels: map<int, set<int>>, k: nat)
    requires k < |fs|
  {
    exists j :: i <= j < k && fs[j].0 in ran && fs[k].0 in CancelledBy(cancels, fs[j].0)
  }

  /** A timer of the batch runs its callback, and once, exactly if it is not cancelled at the start nor by a callback
      that ran before it. */
  lemma {:induction false} RunsIff(fs: Fires, i: nat, cancels: map<int, set<int>>, k: nat)
    requires i <= k < |fs| && Apart(fs)
    ensures var ran := Callbacks(fs, i, cancels).0;
            Runs(ran, fs[k].0) == if fs[k].1.deleted || CancelledBefore(fs, i, ran, cancels, k) then 0 else 1
    decreases |fs| - i
  {
    hide Runs, CancelIn, CancelledBy;
    var ran := Callbacks(fs, i, cancels).0;
    if fs[k].1.deleted {
      CancelledNeverRuns(fs, i, cancels, k);
    } else if fs[i].1.deleted {
      RunsIff(fs, i + 1, cancels, k);
      CancelledNeverRuns(fs, i, cancels, i);
    } else {
      var fs' := CancelIn(fs, CancelledBy(cancels, fs[i].0));
      var rest := Callbacks(fs', i + 1, cancels).0;
      RunsCons(fs[i].0, rest, fs[k].0);
      CancelledNeverRuns(fs', i + 1, cancels, i);
      if k == i {
        assert !CancelledBefore(fs, i, ran, cancels, k);
      } else {
        RunsIff(fs', i + 1, cancels, k);
        BeforeCons(fs, fs', i, rest, cancels, k);
      }
    }
  }

  lemma BeforeCons(fs: Fires, fs': Fires, i: nat, rest: seq<int>, cancels: map<int, set<int>>, k: nat)
    requires i < k < |fs| == |fs'| && Apart(fs) && forall j :: 0 <= j < |fs| ==> fs'[j].0 == fs[j].0
    ensures CancelledBefore(fs, i, [fs[i].0] + rest, cancels, k)
            <==> fs[k].0 in CancelledBy(cancels, fs[i].0) || CancelledBefore(fs', i + 1, rest, cancels, k)
  {
    hide CancelledBy;
    assert forall x :: x in [fs[i].0] + rest <==> x == fs[i].0 || x in rest;
    if CancelledBefore(fs', i + 1, rest, cancels, k) {
      var j :| i + 1 <= j < k && fs'[j].0 in rest && fs'[k].0 in CancelledBy(cancels, fs'[j].0);
      assert fs[j].0 in [fs[i].0] + rest;
    }
    if CancelledBefore(fs, i, [fs[i].0] + rest, cancels, k) {
      var j :| i <= j < k && fs[j].0 in [fs[i].0] + rest && fs[k].0 in CancelledBy(cancels, fs[j].0);
      if j != i {
        assert fs'[j].0 in rest;
      }
    }
  }

  /** A timer cancelled by a callback of its own batch that comes earlier does not run, if that one ran. */
  lemma CancelInBatchIsInTime(fs: Fires, cancels: map<int, set<int>>, j: nat, k: nat)
    requires j < k < |fs| && Apart(fs) && fs[k].0 in CancelledBy(cancels, fs[j].0)
    ensures var ran := Callbacks(fs, 0, cancels).0;
            Runs(ran, fs[j].0) > 0 ==> Runs(ran, fs[k].0) == 0
  {
    RunsIff(fs, 0, cancels, k);
  }

  /** A timer nobody cancels runs its callback, and once. */
  lemma UncancelledRunsOnce(fs: Fires, i: nat, cancels: map<int, set<int>>, k: nat)
    requires i <= k < |fs| && Apart(fs) && !fs[k].1.deleted
    requires forall id :: id in cancels ==> fs[k].0 !in cancels[id]
    ensures Runs(Callbacks(fs, i, cancels).0, fs[k].0) == 1
    ensures Callbacks(fs, i, cancels).1[k] == fs[k]
  {
    RunsIff(fs, i, cancels, k);
    LeftIs(fs, i, cancels);
  }

  /** Who is back in the wheel after Tick, and in what state. */
  lemma {:induction false} AttachedExactly(w: Wheel, curr: nat, tick: int, fs: Fires, id: int)
    requires Apart(fs)
    ensures var w' := AttachAll(w, curr, tick, fs);
            if k :| 0 <= k < |fs| && fs[k].0 == id && fs[k].1.kind != OnceTimer && !fs[k].1.deleted then
              var t := Reattach(fs[k].1, tick);
              id in w' && w'[id] == Place(SlotFor(curr, t.ticks), t)
            else (id in w' <==> id in w) && (id in w ==> w'[id] == w[id])
    decreases |fs|
  {
    if fs != [] {
      var (i0, t) := fs[0];
      var w1 := if t.kind != OnceTimer && !t.deleted
                then w[i0 := Place(SlotFor(curr, Reattach(t, tick).ticks), Reattach(t, tick))] else w;
      hide Reattach, SlotFor;
      AttachedExactly(w1, curr, tick, fs[1..], id);
      assert forall k :: 0 <= k < |fs[1..]| ==> fs[1..][k] == fs[k + 1];
      if k :| 0 <= k < |fs| && fs[k].0 == id && fs[k].1.kind != OnceTimer && !fs[k].1.deleted {
        if k > 0 {
          assert fs[1..][k - 1] == fs[k];
        }
      }
    }
  }

  /** A timer cancelled while it waits for its callback: the callback does not run and it is not attached again. */
  lemma CancelledStaysOut(w: Wheel, curr: nat, tick: int, fs: Fires, cancels: map<int, set<int>>, k: nat)
    requires Apart(fs) && k < |fs| && fs[k].1.deleted && fs[k].0 !in w
    ensures var (ran, left) := Callbacks(fs, 0, cancels);
            Runs(ran, fs[k].0) == 0 && fs[k].0 !in AttachAll(w, curr, tick, left)
  {
    CancelledNeverRuns(fs, 0, cancels, k);
    LeftIs(fs, 0, cancels);
    var left := Callbacks(fs, 0, cancels).1;
    assert Apart(left);
    AttachedExactly(w, curr, tick, left, fs[k].0);
  }

  /** A loop timer nobody cancels runs once and waits again for exactly the ticks up to its next target. */
  lemma LoopGoesOn(w: Wheel, curr: nat, tick: int, fs: Fires, cancels: map<int, set<int>>, k: nat)
    requires Apart(fs) && k < |fs| && !fs[k].1.deleted && fs[k].1.kind == LoopTimer && curr < SLOT_COUNT
    requires forall id :: id in cancels ==> fs[k].0 !in cancels[id]
    ensures var (ran, left) := Callbacks(fs, 0, cancels);
            var w' := AttachAll(w, curr, tick, left);
            && Runs(ran, fs[k].0) == 1 && fs[k].0 in w'
            && w'[fs[k].0].t.bePoint == fs[k].1.bePoint + fs[k].1.interval
            && w'[fs[k].0].Left(curr) == w'[fs[k].0].t.ticks
  {
    UncancelledRunsOnce(fs, 0, cancels, k);
    LeftIs(fs, 0, cancels);
    var left := Callbacks(fs, 0, cancels).1;
    assert Apart(left);
    AttachedExactly(w, curr, tick, left, fs[k].0);
    var t := Reattach(fs[k].1, tick);
    AttachRemaining(t, curr);
  }

  // ---- The books over a Tick and a Cancel ----

  lemma EmptyTick(w: Wheel, fs: Fires, curr: nat, tick: int, cancels: map<int, set<int>>, lives: Lives)
    requires |fs| <= 0
    ensures fs == [] && Callbacks(fs, 0, cancels).0 == [] && LivesAfter(lives, [], Cancelled([], cancels)) == lives
    ensures AttachAll(MarkAll(w, Cancelled([], cancels)), curr, tick, CancelIn(fs, Cancelled([], cancels))) == w
  {
    NothingCancelled(w, cancels);
  }

  lemma LeftApart(w: Wheel, fs: Fires, ids: set<int>)
    requires Apart(fs) && forall i :: 0 <= i < |fs| ==> fs[i].0 !in w
    ensures Apart(CancelIn(fs, ids))
    ensures forall i :: 0 <= i < |CancelIn(fs, ids)| ==> CancelIn(fs, ids)[i].0 !in MarkAll(w, ids)
    ensures Apart([])
  {
  }

  /** The books with nobody waiting for a callback, for one id. */
  ghost predicate BookedFor(w: Wheel, lives: Lives, id: int) {
    && (id in w ==> id in lives && lives[id].Fits(w[id].t) && w[id].t.round >= 1)
    && (id in lives ==> (lives[id].Pending() ==> id in w) && (lives[id].kind == OnceTimer ==> lives[id].ran <= 1))
  }

  /** What one batch of callbacks leaves: the wheel and the lives. */
  ghost function BatchEnd(w: Wheel, fs: Fires, curr: nat, tick: int, cancels: map<int, set<int>>,
                          lives: Lives): (Wheel, Lives) {
    var ran := Callbacks(fs, 0, cancels).0;
    var gone := Cancelled(ran, cancels);
    (AttachAll(MarkAll(w, gone), curr, tick, CancelIn(fs, gone)), LivesAfter(lives, ran, gone))
  }

  lemma ListedGoesOn(w: Wheel, fs: Fires, curr: nat, tick: int, cancels: map<int, set<int>>, lives: Lives, k: nat)
    requires curr < SLOT_COUNT && Booked(w, fs, lives) && Apart(fs) && k < |fs| && fs[k].0 !in w
    ensures var (w', lives') := BatchEnd(w, fs, curr, tick, cancels, lives);
            BookedFor(w', lives', fs[k].0)
  {
    var id := fs[k].0;
    assert id in lives && lives[id].Fits(fs[k].1);
    hide Callbacks, Cancelled, CancelledBefore, Runs, Booked, AttachAll, SlotFor, MarkAll, CancelIn, TargetAfter,
      Reattach;
    var ran := Callbacks(fs, 0, cancels).0;
    var gone := Cancelled(ran, cancels);
    RunsIff(fs, 0, cancels, k);
    BeforeIsGone(fs, ran, cancels, k);
    AttachedListed(MarkAll(w, gone), curr, tick, CancelIn(fs, gone), k);
    LifeGoesOn(lives[id], fs[k].1, tick, Runs(ran, id), id in gone);
    var w' := AttachAll(MarkAll(w, gone), curr, tick, CancelIn(fs, gone));
    var lives' := LivesAfter(lives, ran, gone);
    assert lives'[id] == lives[id].(ran := lives[id].ran + Runs(ran, id),
                                    cancelled := lives[id].cancelled || id in gone);
    hide LivesAfter;
    assert id in w' ==> w'[id].t == Reattach(CancelIn(fs, gone)[k].1, tick);
    RoundPositive(CancelIn(fs, gone)[k].1, tick);
  }

  lemma AttachedListed(w: Wheel, curr: nat, tick: int, fs: Fires, k: nat)
    requires Apart(fs) && k < |fs| && fs[k].0 !in w
    ensures var (id, t) := fs[k];
            var w' := AttachAll(w, curr, tick, fs);
            && (id in w' <==> t.kind != OnceTimer && !t.deleted)
            && (id in w' ==> w'[id].t == Reattach(t, tick))
  {
    AttachedExactly(w, curr, tick, fs, fs[k].0);
    hide AttachAll, Reattach, SlotFor;
    assert forall j :: 0 <= j < |fs| && fs[j].0 == fs[k].0 ==> j == k;
  }

  lemma BeforeIsGone(fs: Fires, ran: seq<int>, cancels: map<int, set<int>>, k: nat)
    requires k < |fs|
    ensures CancelledBefore(fs, 0, ran, cancels, k) ==> fs[k].0 in Cancelled(ran, cancels)
  {
    if CancelledBefore(fs, 0, ran, cancels, k) {
      var j :| 0 <= j < k && fs[j].0 in ran && fs[k].0 in CancelledBy(cancels, fs[j].0);
      var first, id := fs[j].0, fs[k].0;
      assert first in ran && id in CancelledBy(cancels, first);
    }
  }

  lemma UnlistedStays(w: Wheel, fs: Fires, curr: nat, tick: int, cancels: map<int, set<int>>, lives: Lives, id: int)
    requires curr < SLOT_COUNT && Booked(w, fs, lives) && Apart(fs) && !Listed(fs, id)
    requires id in w ==> w[id].t.round >= 1
    ensures var (w', lives') := BatchEnd(w, fs, curr, tick, cancels, lives);
            BookedFor(w', lives', id)
  {
    hide Callbacks, Cancelled, CancelIn, AttachAll, SlotFor, Reattach, TargetAfter, Runs;
    var ran := Callbacks(fs, 0, cancels).0;
    var gone := Cancelled(ran, cancels);
    if id in ran {
      RanListed(fs, 0, cancels, id);
    }
    assert forall j :: 0 <= j < |fs| ==> CancelIn(fs, gone)[j].0 == fs[j].0 != id;
    AttachedExactly(MarkAll(w, gone), curr, tick, CancelIn(fs, gone), id);
  }

  /** The callbacks and the attaching after them keep the books. */
  lemma TickKeepsBooks(w: Wheel, fs: Fires, curr: nat, tick: int, cancels: map<int, set<int>>, lives: Lives)
    requires curr < SLOT_COUNT && Booked(w, fs, lives) && Apart(fs) && forall i :: 0 <= i < |fs| ==> fs[i].0 !in w
    requires forall id :: id in w ==> w[id].t.round >= 1
    ensures var ran := Callbacks(fs, 0, cancels).0;
            var gone := Cancelled(ran, cancels);
            var w' := AttachAll(MarkAll(w, gone), curr, tick, CancelIn(fs, gone));
            Booked(w', [], LivesAfter(lives, ran, gone)) && forall id :: id in w' ==> w'[id].t.round >= 1
  {
    hide Callbacks, AttachAll, MarkAll, CancelIn, LivesAfter, Cancelled;
    var (w', lives') := BatchEnd(w, fs, curr, tick, cancels, lives);
    forall id
      ensures BookedFor(w', lives', id)
    {
      if k :| 0 <= k < |fs| && fs[k].0 == id {
        ListedGoesOn(w, fs, curr, tick, cancels, lives, k);
      } else {
        UnlistedStays(w, fs, curr, tick, cancels, lives, id);
      }
    }
    BookedAll(w', lives');
  }

  lemma BookedAll(w: Wheel, lives: Lives)
    requires forall id :: BookedFor(w, lives, id)
    ensures Booked(w, [], lives) && forall id :: id in w ==> w[id].t.round >= 1
  {
    forall id
      ensures id in w ==> id in lives && lives[id].Fits(w[id].t) && w[id].t.round >= 1
      ensures id in lives ==> (lives[id].Pending() ==> id in w) && (lives[id].kind == OnceTimer ==> lives[id].ran <= 1)
    {
      assert BookedFor(w, lives, id);
    }
  }

  lemma CancelKeepsBooks(w: Wheel, fs: Fires, lives: Lives, id: int)
    requires Booked(w, fs, lives) && forall k :: k in w ==> w[k].t.round >= 1
    requires Apart(fs) && forall i :: 0 <= i < |fs| ==> fs[i].0 !in w
    ensures Booked(CancelInWheel(w, id), CancelIn(fs, {id}), LivesAfter(lives, [], {id}))
    ensures Apart(CancelIn(fs, {id}))
    ensures forall i :: 0 <= i < |CancelIn(fs, {id})| ==> CancelIn(fs, {id})[i].0 !in CancelInWheel(w, id)
    ensures forall k :: k in CancelInWheel(w, id) ==> CancelInWheel(w, id)[k].t.round >= 1
  {
    var fs', lives' := CancelIn(fs, {id}), LivesAfter(lives, [], {id});
    LivesCancelled(lives, id);
    hide CancelIn, LivesAfter, TargetAfter;
    forall i | 0 <= i < |fs'|
      ensures fs'[i].0 in lives' && lives'[fs'[i].0].Fits(fs'[i].1)
    {
      assert fs[i].0 in lives && lives[fs[i].0].Fits(fs[i].1);
    }
    forall k | k in lives' && lives'[k].Pending()
      ensures k in w || Listed(fs', k)
    {
      assert k in lives.Keys && k in lives && lives[k].Pending();
      if k !in w {
        var i :| 0 <= i < |fs| && fs[i].0 == k;
        assert fs'[i].0 == k;
      }
    }
  }
}
