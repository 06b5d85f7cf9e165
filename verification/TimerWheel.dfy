/** A timer in the hashed wheel, as a value: what one visit of its slot does to it, and the countdown that its
    slot and round encode (CommBase/Timer/NewSingleTimerMgr.cpp, TimerManager.cpp, Timer.cpp). */
module TimerWheel {
  import opened Bytes
  import opened Collections

  const SLOT_COUNT := 3000
  const SLOT_CHANGE_TIME := 100
  const CYCLE := SLOT_CHANGE_TIME * SLOT_COUNT
  /** The rounds whose time still fits an int. */
  const ROUNDS_LIMIT := 0x8000_0000 / CYCLE + 1

  datatype TimerType = LoopTimer | OnceTimer

  /** round is the number of visits still needed; bePoint is the target time. */
  datatype TimerState = TimerState(
    kind: TimerType, interval: int, start: uint32, bePoint: int, tickPoint: int, elapseRound: uint16,
    deleted: bool, ticks: uint32, round: int)

  /** Timer::OnTickEx: due by the clock, or this was the last round. */
  function OnTickEx(t: TimerState, tick: int): (bool, TimerState) {
    if tick - t.bePoint >= 0 then (true, t) else (t.round - 1 <= 0, t.(round := t.round - 1))
  }

  /** The product elapseRound * SLOT_CHANGE_TIME * SLOT_COUNT is an int of 32 bits. */
  function RoundsTime(rounds: uint16): (r: int)
    ensures r == rounds * CYCLE <==> rounds < ROUNDS_LIMIT
    ensures -0x8000_0000 <= r < 0x8000_0000 && (r - rounds * CYCLE) % 0x1_0000_0000 == 0
  {
    (rounds * CYCLE + 0x8000_0000) % 0x1_0000_0000 - 0x8000_0000
  }

  /** The remainder of the source language, which has the sign of the dividend. */
  function Rem(a: int, b: nat): int
    requires b > 0
  {
    if a >= 0 then a % b else -(-a % b)
  }

  /** The clock has gained on the rounds, by at least one slot. */
  predicate RunsAhead(elapsed: int, rounds: uint16) {
    elapsed > RoundsTime(rounds) && Rem(elapsed, CYCLE) >= SLOT_CHANGE_TIME
  }

  /** A timer about to be moved back, with its clock set on by the rounds it has waited. */
  function SetOn(t: TimerState): TimerState {
    t.(tickPoint := t.tickPoint + RoundsTime(t.elapseRound), elapseRound := 1)
  }

  predicate Drifted(t: TimerState, tick: int) {
    RunsAhead(tick - t.tickPoint, t.elapseRound)
  }

  function Drift(t: TimerState, tick: int): (d: int)
    requires Drifted(t, tick)
    ensures 1 <= d < SLOT_COUNT
  {
    Rem(tick - t.tickPoint, CYCLE) / SLOT_CHANGE_TIME
  }

  function BackSlots(index: nat, d: int): (s: nat)
    requires index < SLOT_COUNT && 1 <= d < SLOT_COUNT
    ensures s < SLOT_COUNT && s != index
  {
    if index - d < 0 then index - d + SLOT_COUNT else index - d
  }

  datatype Visit = Dropped | Fired(t: TimerState) | Stays(t: TimerState) | Moves(t: TimerState, slot: nat)

  /** SingleSlot::OnTick on one timer of slot index. */
  function VisitTimer(t: TimerState, index: nat, tick: int): (v: Visit)
    requires index < SLOT_COUNT
    ensures v.Moves? ==> v.slot < SLOT_COUNT && v.slot != index
  {
    if t.deleted then Dropped else
    var (due, t1) := OnTickEx(t, tick);
    if due then Fired(t1)
    else if t1.tickPoint <= 0 then Stays(t1.(elapseRound := 1, tickPoint := tick))
    else if Drifted(t1, tick) then
      Moves(SetOn(t1), BackSlots(index, Drift(t1, tick)))
    else Stays(t1.(elapseRound := (t1.elapseRound + 1) % 0x1_0000))
  }

  /** One visit of slot index in plain arithmetic. A timer is moved back by as many slots as make the whole tenths of a
      second that the clock is past the last full round since tickPoint; tickPoint then goes on by the rounds waited,
      and counting starts again at one. */
  ghost predicate VisitLaw(t: TimerState, index: nat, tick: int, v: Visit) {
    var due := tick >= t.bePoint || t.round <= 1;
    var elapsed := tick - t.tickPoint;
    var rounds := RoundsTime(t.elapseRound);
    var ahead := t.tickPoint > 0 && elapsed >= 0 && elapsed > rounds && elapsed % 300000 >= 100;
    match v
    case Dropped => t.deleted
    case Fired(t') =>
      !t.deleted && due && t' == t.(round := if tick >= t.bePoint then t.round else t.round - 1)
    case Stays(t') =>
      && !t.deleted && !due && !ahead
      && t' == t.(round := t.round - 1, tickPoint := if t.tickPoint <= 0 then tick else t.tickPoint,
                  elapseRound := t'.elapseRound)
      && (if t.tickPoint <= 0 then t'.elapseRound == 1 else (t'.elapseRound - t.elapseRound - 1) % 0x1_0000 == 0)
    case Moves(t', s) =>
      && !t.deleted && !due && ahead && s < 3000
      && 100 * SlotsBack(index, s) <= elapsed % 300000 < 100 * (SlotsBack(index, s) + 1)
      && t' == t.(round := t.round - 1, tickPoint := t.tickPoint + rounds, elapseRound := 1)
  }

  /** How many slots one slot lies behind another. */
  function SlotsBack(index: int, s: int): nat { (index - s) % SLOT_COUNT }

  lemma VisitIs(t: TimerState, index: nat, tick: int)
    requires index < SLOT_COUNT
    ensures VisitLaw(t, index, tick, VisitTimer(t, index, tick))
  {
    var v := VisitTimer(t, index, tick);
    if v.Moves? {
      var t1 := OnTickEx(t, tick).1;
      assert SlotsBack(index, BackSlots(index, Drift(t1, tick))) == Drift(t1, tick);
    }
  }

  /** The law leaves no choice. */
  lemma VisitOnly(t: TimerState, index: nat, tick: int, v: Visit)
    requires index < SLOT_COUNT && VisitLaw(t, index, tick, v)
    ensures v == VisitTimer(t, index, tick)
  {
    VisitIs(t, index, tick);
    hide VisitTimer;
  }

  /** A timer is moved back by exactly the whole slots that the clock has gained on the rounds it waited, as long as
      that is less than a round and the product has not wrapped. */
  lemma MovesTheGain(t: TimerState, index: nat, tick: int)
    requires index < SLOT_COUNT && VisitTimer(t, index, tick).Moves? && t.elapseRound < ROUNDS_LIMIT
    requires tick - t.tickPoint < (t.elapseRound + 1) * 300000
    ensures var gain := tick - t.tickPoint - t.elapseRound * 300000;
            SlotsBack(index, VisitTimer(t, index, tick).slot) == gain / 100 > 0
  {
    VisitIs(t, index, tick);
    hide VisitTimer;
    var gain := tick - t.tickPoint - t.elapseRound * 300000;
    assert tick - t.tickPoint == t.elapseRound * 300000 + gain;
    assert (tick - t.tickPoint) % 300000 == gain;
  }

  /** AttachTimer for a new timer; the subtraction is unsigned. */
  function FirstTicks(start: uint32): uint32 {
    ((start - 100) % 0x1_0000_0000) / SLOT_CHANGE_TIME
  }

  function AttachNew(t: TimerState): TimerState {
    t.(ticks := FirstTicks(t.start), round := FirstTicks(t.start) / SLOT_COUNT + 1)
  }

  /** AttachTimer for a loop timer that has fired: the next target is counted from the last target. */
  function Reattach(t: TimerState, tick: int): TimerState {
    var tSec := t.interval - tick + t.bePoint;
    var ticks := ((if tSec < 0 then 0 else tSec) / SLOT_CHANGE_TIME) % 0x1_0000_0000;
    t.(ticks := ticks, bePoint := t.bePoint + t.interval, tickPoint := 0, elapseRound := 0,
       round := ticks / SLOT_COUNT + 1)
  }

  function SlotFor(curr: nat, ticks: nat): (s: nat)
    ensures s < SLOT_COUNT
  {
    (curr + ticks % SLOT_COUNT) % SLOT_COUNT
  }

  function NextSlot(curr: nat): nat {
    if curr + 1 >= SLOT_COUNT then 0 else curr + 1
  }

  /** How many ticks will pass before the one that fires the timer, if nothing intervenes. */
  function Remaining(t: TimerState, slot: nat, curr: nat): int {
    (slot - curr) % SLOT_COUNT + SLOT_COUNT * (t.round - 1)
  }

  lemma ModSteps(a: int, d: int)
    requires 0 <= d < SLOT_COUNT
    ensures a % SLOT_COUNT >= d ==> (a - d) % SLOT_COUNT == a % SLOT_COUNT - d
    ensures a % SLOT_COUNT < d ==> (a - d) % SLOT_COUNT == a % SLOT_COUNT - d + SLOT_COUNT
  {
  }

  /** Attaching encodes exactly the requested number of ticks. */
  lemma AttachRemaining(t: TimerState, curr: nat)
    requires curr < SLOT_COUNT && t.round == t.ticks / SLOT_COUNT + 1
    ensures Remaining(t, SlotFor(curr, t.ticks), curr) == t.ticks
  {
    var r := t.ticks % SLOT_COUNT;
    if curr + r < SLOT_COUNT {
      assert SlotFor(curr, t.ticks) - curr == r;
    } else {
      assert SlotFor(curr, t.ticks) - curr == r - SLOT_COUNT;
    }
  }

  /** A tick that visits another slot takes one off the countdown. */
  lemma IdleTick(t: TimerState, slot: nat, curr: nat)
    requires slot < SLOT_COUNT && curr < SLOT_COUNT && slot != curr
    ensures Remaining(t, slot, NextSlot(curr)) == Remaining(t, slot, curr) - 1
  {
    ModSteps(slot - curr, 1);
    if curr + 1 == SLOT_COUNT {
      assert slot - NextSlot(curr) == slot - curr - 1 + SLOT_COUNT;
    }
  }

  /** A visit fires the timer when the clock is past its target or the countdown has run out; otherwise it takes
      off one, and as many more as the slots the timer is moved back. */
  lemma VisitTick(t: TimerState, slot: nat, tick: int)
    requires slot < SLOT_COUNT && !t.deleted && t.round >= 1
    ensures var v := VisitTimer(t, slot, tick);
            var r := Remaining(t, slot, slot);
            match v
            case Dropped => false
            case Fired(_) => tick >= t.bePoint || r == 0
            case Stays(t') => tick < t.bePoint && r >= SLOT_COUNT && t'.round >= 1
                              && Remaining(t', slot, NextSlot(slot)) == r - 1
            case Moves(t', s') => tick < t.bePoint && r >= SLOT_COUNT && t'.round >= 1
                                  && 0 <= Remaining(t', s', NextSlot(slot)) == r - 1 - SlotsBack(slot, s')
  {
    var v := VisitTimer(t, slot, tick);
    ModSteps(slot - slot, 1);
    assert (slot - NextSlot(slot)) % SLOT_COUNT == SLOT_COUNT - 1;
    if v.Moves? {
      var d := SlotsBack(slot, v.slot);
      assert (v.slot - NextSlot(slot)) % SLOT_COUNT == SLOT_COUNT - 1 - d;
    }
  }

  predicate SameButRounds(t': TimerState, t: TimerState) {
    t' == t.(tickPoint := t'.tickPoint, elapseRound := t'.elapseRound, round := t'.round)
  }

  lemma KeepsFlag(t: TimerState, slot: nat, tick: int)
    requires slot < SLOT_COUNT
    ensures match VisitTimer(t, slot, tick)
            case Dropped => t.deleted
            case Fired(t') => !t.deleted && SameButRounds(t', t)
            case Stays(t') => !t.deleted && SameButRounds(t', t) && t'.round >= 1
            case Moves(t', s) => !t.deleted && SameButRounds(t', t) && t'.round >= 1
  {
  }

  // ---- A timer's life in the wheel, against any sequence of clock readings ----

  /** When it fired, how many ticks the drift corrections saved it, and what the countdown still held. */
  datatype Fate = Fate(tick: nat, saved: nat, left: nat)

  function FateOf(t: TimerState, slot: nat, curr: nat, clock: seq<int>): Option<Fate>
    requires slot < SLOT_COUNT && curr < SLOT_COUNT && t.round >= 1
    decreases |clock|
  {
    if clock == [] then None
    else if slot != curr then Later(FateOf(t, slot, NextSlot(curr), clock[1..]), 0)
    else match VisitTimer(t, slot, clock[0])
         case Dropped => None
         case Fired(_) => Some(Fate(0, 0, SLOT_COUNT * (t.round - 1)))
         case Stays(t') => Later(FateOf(t', slot, NextSlot(curr), clock[1..]), 0)
         case Moves(t', s') => Later(FateOf(t', s', NextSlot(curr), clock[1..]), SlotsBack(slot, s'))
  }

  function Later(f: Option<Fate>, d: nat): Option<Fate> {
    match f
    case None => None
    case Some(x) => Some(x.(tick := x.tick + 1, saved := x.saved + d))
  }

  /** The wheel refines a countdown. An uncancelled timer fires within its countdown whatever the clock shows,
      and the countdown is fully accounted for: ticks waited, ticks saved by drift corrections, and ticks left
      over; there are none left over unless the clock had reached the target. */
  lemma {:induction false} WheelIsCountdown(t: TimerState, slot: nat, curr: nat, clock: seq<int>)
    requires slot < SLOT_COUNT && curr < SLOT_COUNT && t.round >= 1 && !t.deleted
    requires |clock| > Remaining(t, slot, curr)
    ensures var f := FateOf(t, slot, curr, clock);
            && f.Some? && f.value.tick < |clock|
            && f.value.tick + f.value.saved + f.value.left == Remaining(t, slot, curr)
            && (clock[f.value.tick] < t.bePoint ==> f.value.left == 0)
    decreases |clock|
  {
    if slot != curr {
      IdleTick(t, slot, curr);
      WheelIsCountdown(t, slot, NextSlot(curr), clock[1..]);
    } else {
      VisitTick(t, slot, clock[0]);
      match VisitTimer(t, slot, clock[0])
      case Fired(_) =>
      case Stays(t') => WheelIsCountdown(t', slot, NextSlot(curr), clock[1..]);
      case Moves(t', s') => WheelIsCountdown(t', s', NextSlot(curr), clock[1..]);
    }
  }

  // ---- Exactly on time ----

  /** What the clock reads at the next n visits, while the timer stays in its slot. */
  function Readings(clock: seq<int>, first: nat, n: nat): (r: seq<int>)
    requires first + n * SLOT_COUNT <= |clock| + SLOT_COUNT - 1
    ensures |r| == n && forall k :: 0 <= k < n ==> r[k] == clock[first + k * SLOT_COUNT]
  {
    if n == 0 then [] else Readings(clock, first, n - 1) + [clock[first + (n - 1) * SLOT_COUNT]]
  }

  /** tickPoint and elapseRound after visits that leave the timer in its slot. */
  function Anchor(tickPoint: int, elapseRound: uint16, readings: seq<int>): (int, uint16)
    decreases |readings|
  {
    if readings == [] then (tickPoint, elapseRound)
    else if tickPoint <= 0 then Anchor(readings[0], 1, readings[1..])
    else Anchor(tickPoint, (elapseRound + 1) % 0x1_0000, readings[1..])
  }

  /** A visit at this reading neither finds the target reached nor moves the timer. */
  predicate StaysAt(t: TimerState, before: seq<int>, reading: int) {
    var (tickPoint, elapseRound) := Anchor(t.tickPoint, t.elapseRound, before);
    reading < t.bePoint && (tickPoint > 0 ==> !RunsAhead(reading - tickPoint, elapseRound))
  }

  ghost predicate Undisturbed(t: TimerState, readings: seq<int>) {
    forall k :: 0 <= k < |readings| ==> StaysAt(t, readings[..k], readings[k])
  }

  lemma UndisturbedCons(t: TimerState, t': TimerState, readings: seq<int>)
    requires readings != [] && t'.bePoint == t.bePoint
    requires (t'.tickPoint, t'.elapseRound) == Anchor(t.tickPoint, t.elapseRound, [readings[0]])
    ensures Undisturbed(t, readings) <==> StaysAt(t, [], readings[0]) && Undisturbed(t', readings[1..])
  {
    var rest := readings[1..];
    forall k | 0 <= k < |rest|
      ensures StaysAt(t', rest[..k], rest[k]) <==> StaysAt(t, readings[..k + 1], readings[k + 1])
    {
      assert readings[..k + 1][1..] == rest[..k];
    }
    assert readings[..0] == [];
    if StaysAt(t, [], readings[0]) && Undisturbed(t', rest) {
      forall k | 0 <= k < |readings|
        ensures StaysAt(t, readings[..k], readings[k])
      {
        if k > 0 {
          assert StaysAt(t', rest[..k - 1], rest[k - 1]);
        }
      }
    }
  }

  lemma IdleReadings(slot: nat, curr: nat, clock: seq<int>, n: nat)
    requires slot < SLOT_COUNT && curr < SLOT_COUNT && slot != curr && clock != []
    requires (slot - curr) % SLOT_COUNT + n * SLOT_COUNT < |clock| + SLOT_COUNT
    ensures (slot - NextSlot(curr)) % SLOT_COUNT == (slot - curr) % SLOT_COUNT - 1
    ensures Readings(clock[1..], (slot - NextSlot(curr)) % SLOT_COUNT, n)
            == Readings(clock, (slot - curr) % SLOT_COUNT, n)
  {
    ModSteps(slot - curr, 1);
    if curr + 1 == SLOT_COUNT {
      assert slot - NextSlot(curr) == slot - curr - 1 + SLOT_COUNT;
    }
  }

  lemma VisitReadings(slot: nat, clock: seq<int>, n: nat)
    requires slot < SLOT_COUNT && n * SLOT_COUNT < |clock|
    ensures (slot - NextSlot(slot)) % SLOT_COUNT == SLOT_COUNT - 1
    ensures n > 0 ==>
              && Readings(clock, 0, n)[0] == clock[0]
              && Readings(clock, 0, n)[1..] == Readings(clock[1..], SLOT_COUNT - 1, n - 1)
  {
  }

  /** A visit that is not the last leaves the timer in its slot exactly when nothing disturbs it. */
  lemma VisitStays(t: TimerState, slot: nat, tick: int)
    requires slot < SLOT_COUNT && !t.deleted && t.round > 1
    ensures VisitTimer(t, slot, tick).Stays? <==> StaysAt(t, [], tick)
    ensures var v := VisitTimer(t, slot, tick);
            v.Stays? ==>
              && v.t.bePoint == t.bePoint && v.t.round == t.round - 1 && !v.t.deleted
              && (v.t.tickPoint, v.t.elapseRound) == Anchor(t.tickPoint, t.elapseRound, [tick])
  {
    assert [tick][1..] == [];
  }

  /** The timer fires when its countdown says exactly if nothing disturbs it before. */
  ghost predicate Punctual(t: TimerState, slot: nat, curr: nat, clock: seq<int>)
    requires slot < SLOT_COUNT && curr < SLOT_COUNT && t.round >= 1 && |clock| > Remaining(t, slot, curr)
  {
    var f := FateOf(t, slot, curr, clock);
    && f.Some?
    && (f.value.tick == Remaining(t, slot, curr)
        <==> Undisturbed(t, Readings(clock, (slot - curr) % SLOT_COUNT, t.round - 1)))
  }

  lemma PunctualVisit(t: TimerState, slot: nat, clock: seq<int>)
    requires slot < SLOT_COUNT && t.round >= 1 && !t.deleted && |clock| > Remaining(t, slot, slot)
    requires var v := VisitTimer(t, slot, clock[0]);
             v.Stays? && v.t.round >= 1 ==>
               |clock[1..]| > Remaining(v.t, slot, NextSlot(slot)) && Punctual(v.t, slot, NextSlot(slot), clock[1..])
    ensures Punctual(t, slot, slot, clock)
  {
    VisitTick(t, slot, clock[0]);
    WheelIsCountdown(t, slot, slot, clock);
    var readings := Readings(clock, 0, t.round - 1);
    if t.round > 1 {
      VisitStays(t, slot, clock[0]);
      VisitReadings(slot, clock, t.round - 1);
      NotUndisturbed(t, readings);
      hide StaysAt, Anchor, Readings, Undisturbed, VisitTimer;
      match VisitTimer(t, slot, clock[0])
      case Fired(_) =>
      case Stays(t') => UndisturbedCons(t, t', readings);
      case Moves(t', s') => WheelIsCountdown(t', s', NextSlot(slot), clock[1..]);
    }
  }

  /** A waiting timer fires exactly when its countdown says if and only if every visit before that finds the clock
      short of the target and not ahead of the rounds. */
  lemma {:induction false} PunctualIff(t: TimerState, slot: nat, curr: nat, clock: seq<int>)
    requires slot < SLOT_COUNT && curr < SLOT_COUNT && t.round >= 1 && !t.deleted && |clock| > Remaining(t, slot, curr)
    ensures Punctual(t, slot, curr, clock)
    decreases |clock|
  {
    if slot != curr {
      hide VisitTimer, Undisturbed, Readings;
      IdleTick(t, slot, curr);
      IdleReadings(slot, curr, clock, t.round - 1);
      PunctualIff(t, slot, NextSlot(curr), clock[1..]);
    } else {
      hide Punctual, VisitTimer;
      VisitTick(t, slot, clock[0]);
      KeepsFlag(t, slot, clock[0]);
      var v := VisitTimer(t, slot, clock[0]);
      if v.Stays? {
        PunctualIff(v.t, slot, NextSlot(slot), clock[1..]);
      }
      PunctualVisit(t, slot, clock);
    }
  }

  lemma NotUndisturbed(t: TimerState, readings: seq<int>)
    requires readings != []
    ensures Undisturbed(t, readings) ==> StaysAt(t, [], readings[0])
  {
    assert readings[..0] == [];
  }

  /** After the first visit of a fresh timer, drift is measured from what the clock read then. */
  lemma {:induction false} FreshAnchor(tickPoint: int, elapseRound: uint16, readings: seq<int>)
    requires tickPoint <= 0 && readings != [] && readings[0] > 0
    ensures Anchor(tickPoint, elapseRound, readings) == (readings[0], |readings| % 0x1_0000)
  {
    AnchorStays(readings[0], 1, readings[1..]);
  }

  lemma {:induction false} AnchorStays(tickPoint: int, elapseRound: uint16, readings: seq<int>)
    requires tickPoint > 0
    ensures Anchor(tickPoint, elapseRound, readings) == (tickPoint, (elapseRound + |readings|) % 0x1_0000)
    decreases |readings|
  {
    if readings != [] {
      AnchorStays(tickPoint, (elapseRound + 1) % 0x1_0000, readings[1..]);
    }
  }

  /** At the k-th visit the clock is short of the target, and not ahead of the rounds since the first visit. */
  predicate OnScheduleAt(t: TimerState, clock: seq<int>, k: nat)
    requires t.ticks % SLOT_COUNT + k * SLOT_COUNT < |clock|
  {
    var first := t.ticks % SLOT_COUNT;
    var reading := clock[first + k * SLOT_COUNT];
    reading < t.bePoint && (k > 0 ==> !RunsAhead(reading - clock[first], k % 0x1_0000))
  }

  /** A timer just attached for some ticks fires exactly then if and only if at each earlier visit the clock is short
      of the target and not a slot ahead of the rounds since the first visit. */
  lemma OnTime(t: TimerState, curr: nat, clock: seq<int>)
    requires curr < SLOT_COUNT && !t.deleted && t.round == t.ticks / SLOT_COUNT + 1 && t.tickPoint <= 0
    requires |clock| > t.ticks
    requires clock[t.ticks % SLOT_COUNT] > 0
    ensures var f := FateOf(t, SlotFor(curr, t.ticks), curr, clock);
            && f.Some?
            && (f.value.tick == t.ticks <==> forall k :: 0 <= k < t.ticks / SLOT_COUNT ==> OnScheduleAt(t, clock, k))
  {
    var slot := SlotFor(curr, t.ticks);
    AttachRemaining(t, curr);
    AttachFirst(curr, t.ticks);
    PunctualIff(t, slot, curr, clock);
    ScheduleIs(t, clock, Readings(clock, t.ticks % SLOT_COUNT, t.ticks / SLOT_COUNT));
    hide SlotFor, Readings, Undisturbed, OnScheduleAt, FateOf;
  }

  /** A loop timer attached again is as good as new: it waits the whole slots up to its next target, and fires on
      exactly that tick under the same condition on the clock. */
  lemma AgainOnTime(t: TimerState, tick: int, curr: nat, clock: seq<int>)
    requires curr < SLOT_COUNT && !t.deleted
    requires var ticks := Reattach(t, tick).ticks;
             |clock| > ticks && clock[ticks % SLOT_COUNT] > 0
    ensures var t' := Reattach(t, tick);
            var wait := t.bePoint + t.interval - tick;
            var f := FateOf(t', SlotFor(curr, t'.ticks), curr, clock);
            && t'.bePoint == t.bePoint + t.interval && t'.tickPoint == 0
            && (0 <= wait < 0x1_0000_0000 * 100 ==> 100 * t'.ticks <= wait < 100 * (t'.ticks + 1))
            && (wait < 0 ==> t'.ticks == 0)
            && f.Some?
            && (f.value.tick == t'.ticks
                <==> forall k :: 0 <= k < t'.ticks / SLOT_COUNT ==> OnScheduleAt(t', clock, k))
  {
    OnTime(Reattach(t, tick), curr, clock);
    hide FateOf, SlotFor, OnScheduleAt;
  }

  lemma AttachFirst(curr: nat, ticks: nat)
    requires curr < SLOT_COUNT
    ensures (SlotFor(curr, ticks) - curr) % SLOT_COUNT == ticks % SLOT_COUNT
  {
    var r := ticks % SLOT_COUNT;
    assert SlotFor(curr, ticks) - curr == if curr + r < SLOT_COUNT then r else r - SLOT_COUNT;
  }

  lemma ScheduleIs(t: TimerState, clock: seq<int>, readings: seq<int>)
    requires |clock| > t.ticks && t.tickPoint <= 0 && clock[t.ticks % SLOT_COUNT] > 0
    requires readings == Readings(clock, t.ticks % SLOT_COUNT, t.ticks / SLOT_COUNT)
    ensures Undisturbed(t, readings) <==> forall k :: 0 <= k < t.ticks / SLOT_COUNT ==> OnScheduleAt(t, clock, k)
  {
    forall k | 0 <= k < |readings|
      ensures StaysAt(t, readings[..k], readings[k]) <==> OnScheduleAt(t, clock, k)
    {
      if k > 0 {
        FreshAnchor(t.tickPoint, t.elapseRound, readings[..k]);
      }
    }
    hide StaysAt, OnScheduleAt;
  }

  /** A clock that, from the first visit on, never gains a slot on the ticks, nor falls behind them after the
      rounds whose time fits an int, makes the timer fire exactly on time, if its target is not reached before. */
  lemma SteadyClock(t: TimerState, curr: nat, clock: seq<int>)
    requires curr < SLOT_COUNT && !t.deleted && t.round == t.ticks / SLOT_COUNT + 1 && t.tickPoint <= 0
    requires |clock| > t.ticks
    requires clock[t.ticks % SLOT_COUNT] > 0
    requires forall k :: 0 <= k < t.ticks / SLOT_COUNT ==> Reading(t, clock, k) < t.bePoint
    requires forall k :: 0 <= k < t.ticks / SLOT_COUNT ==>
               Reading(t, clock, k) - Reading(t, clock, 0) < k * CYCLE + SLOT_CHANGE_TIME
    requires forall k :: ROUNDS_LIMIT <= k < t.ticks / SLOT_COUNT ==>
               k * CYCLE <= Reading(t, clock, k) - Reading(t, clock, 0)
    ensures var f := FateOf(t, SlotFor(curr, t.ticks), curr, clock);
            f.Some? && f.value.tick == t.ticks
  {
    OnTime(t, curr, clock);
    forall k | 0 <= k < t.ticks / SLOT_COUNT
      ensures OnScheduleAt(t, clock, k)
    {
      NotAhead(Reading(t, clock, k) - Reading(t, clock, 0), k);
    }
  }

  lemma NotAhead(elapsed: int, k: nat)
    requires elapsed < k * CYCLE + SLOT_CHANGE_TIME && (k >= ROUNDS_LIMIT ==> k * CYCLE <= elapsed)
    ensures !RunsAhead(elapsed, k % 0x1_0000)
  {
    if k * CYCLE <= elapsed {
      assert elapsed == k * CYCLE + (elapsed - k * CYCLE);
      assert elapsed % CYCLE == elapsed - k * CYCLE;
    }
  }

  /** Once the product has wrapped, a clock that is late at that visit, be it by a millisecond, makes a timer miss its
      tick. */
  lemma LateAfterWrap(t: TimerState, curr: nat, clock: seq<int>, late: nat)
    requires curr < SLOT_COUNT && !t.deleted && t.round == t.ticks / SLOT_COUNT + 1 && t.tickPoint <= 0
    requires |clock| > t.ticks && clock[t.ticks % SLOT_COUNT] > 0
    requires t.ticks / SLOT_COUNT > ROUNDS_LIMIT && 1 <= late <= CYCLE - SLOT_CHANGE_TIME
    requires Reading(t, clock, ROUNDS_LIMIT) == Reading(t, clock, 0) + ROUNDS_LIMIT * CYCLE - late
    ensures var f := FateOf(t, SlotFor(curr, t.ticks), curr, clock);
            f.Some? && f.value.tick != t.ticks
  {
    OnTime(t, curr, clock);
    AheadAfterWrap(late);
    hide RunsAhead;
    assert !OnScheduleAt(t, clock, ROUNDS_LIMIT);
  }

  lemma AheadAfterWrap(late: nat)
    requires 1 <= late <= CYCLE - SLOT_CHANGE_TIME
    ensures RunsAhead(ROUNDS_LIMIT * CYCLE - late, ROUNDS_LIMIT % 0x1_0000)
  {
    var elapsed := ROUNDS_LIMIT * CYCLE - late;
    assert elapsed == (ROUNDS_LIMIT - 1) * CYCLE + (CYCLE - late);
    assert elapsed % CYCLE == CYCLE - late;
  }

  function Reading(t: TimerState, clock: seq<int>, k: nat): int
    requires t.ticks % SLOT_COUNT + k * SLOT_COUNT < |clock|
  {
    clock[t.ticks % SLOT_COUNT + k * SLOT_COUNT]
  }

  /** The first delay is the start delay less one slot, unless the subtraction wraps. */
  lemma FirstTicksExact(start: uint32)
    ensures FirstTicks(start) == (start - 100) / SLOT_CHANGE_TIME <==> start >= 100
    ensures start < 100 ==> FirstTicks(start) >= 42949671
  {
  }

  // ---- Periodic timers ----

  /** A loop timer after it has fired and been attached again at each of the given times. */
  function AfterFirings(t: TimerState, times: seq<int>): TimerState
    decreases |times|
  {
    if times == [] then t else AfterFirings(Reattach(t, times[0]), times[1..])
  }

  /** However late each firing was handled, the target is the first target plus a whole number of intervals, and
      the new delay is measured to that target. */
  lemma {:induction false} NoDriftInTargets(t: TimerState, times: seq<int>)
    ensures AfterFirings(t, times).bePoint == t.bePoint + |times| * t.interval
    ensures AfterFirings(t, times).interval == t.interval
    ensures times != [] ==>
              var t' := AfterFirings(t, times);
              var wait := t'.bePoint - times[|times| - 1];
              && t'.ticks == (if wait < 0 then 0 else wait / SLOT_CHANGE_TIME) % 0x1_0000_0000
              && t'.round == t'.ticks / SLOT_COUNT + 1
    decreases |times|
  {
    if times != [] {
      var next := Reattach(t, times[0]);
      NoDriftInTargets(next, times[1..]);
      assert |times| * t.interval == t.interval + (|times| - 1) * t.interval;
      if |times| > 1 {
        assert times[1..][|times| - 2] == times[|times| - 1];
      }
    }
  }
}
