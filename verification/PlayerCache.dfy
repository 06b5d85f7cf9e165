/** The write-back cache of player records in front of the database (DBServer/src/CharMemCache/CharMemCache.cpp,
    PlayerDBManager.cpp). Which database writes fail, and what the clock shows, are parameters. */
module PlayerCache {
  import opened Collections

  const E_BASE_INFO := 0
  const E_FRIEND_INFO := 1
  const E_CHAR_STRUCT_MAX := 2
  const SAVE_CHARCACHE_TODB := 60000
  const DELETE_CHARCACHE_TIMEOUT := 120000
  const LOW48 := 0x1_0000_0000_0000

  /** The columns of a row of RoleInfo. */
  datatype Fields = Fields(
    charname: string, wchatname: string, head: string, sex: int, country: int, province: int, city: int,
    signature: string, money: int, turnmoney: int, qrcode: string, phone: string, year: int, month: int, day: int)

  datatype BaseInfo = BaseInfo(charid: int, fields: Fields)

  datatype SaveTypeInfo = SaveTypeInfo(id: int, kinds: nat, bsinfo: BaseInfo, isdel: bool)

  /** GET_PLAYER_CHARID: the low 48 bits, with their sign; the upper bits hold a server number. */
  function CharId(m: int): int {
    (m + LOW48 / 2) % LOW48 - LOW48 / 2
  }

  /** A player number survives being joined with a server number. */
  lemma CharIdOf(server: int, m: int)
    ensures CharId(CharId(m)) == CharId(m) == CharId(server * LOW48 + m)
  {
    assert (server * LOW48 + m + LOW48 / 2) % LOW48 == (m + LOW48 / 2) % LOW48;
  }

  /** It comes out as it went in when it fits 48 bits. */
  lemma CharIdExact(server: int, m: int)
    requires -0x8000_0000_0000 <= m < 0x8000_0000_0000
    ensures CharId(server * 0x1_0000_0000_0000 + m) == m
  {
    CharIdOf(server, m);
  }

  predicate HasBit(kinds: nat, i: nat)
    requires i < E_CHAR_STRUCT_MAX
  {
    if i == 0 then kinds % 2 == 1 else kinds / 2 % 2 == 1
  }

  // ---- The cache as a value ----

  /** A cached player: content as last accepted, and whether the database may lag behind. */
  datatype Entry = Entry(content: Option<BaseInfo>, dirty: bool)

  datatype Cache = Cache(entries: map<int, Entry>, rows: map<int, Fields>) {
    /** A cached player has the row of its own id; the row of a clean one is its content. */
    ghost predicate Sound() {
      forall c :: c in entries ==> EntryOk(c)
    }

    ghost predicate EntryOk(c: int)
      requires c in entries
    {
      match entries[c].content
      case None => c !in rows
      case Some(b) => CharId(b.charid) == c && c in rows && (!entries[c].dirty ==> rows[c] == b.fields)
    }

    /** What a reader finds, in the cache or behind it. */
    function Read(c: int): Option<Fields> {
      if c in entries then (match entries[c].content case None => None case Some(b) => Some(b.fields))
      else if c in rows then Some(rows[c]) else None
    }

    /** PlayerDBMgr::SavePlayerStruct on one cached player. */
    function Flush(c: int, fails: set<int>): Cache {
      if c !in entries || !entries[c].dirty || entries[c].content.None? || c in fails then this else
      Cache(entries[c := entries[c].(dirty := false)], Updated(rows, entries[c].content.value))
    }

    function Drop(c: int): Cache {
      this.(entries := entries - {c})
    }

    function FlushAll(chars: seq<int>, fails: set<int>): Cache
      decreases |chars|
    {
      if chars == [] then this else FlushAll(chars[..|chars| - 1], fails).Flush(chars[|chars| - 1], fails)
    }

    function EvictAll(chars: seq<int>, fails: set<int>): Cache
      decreases |chars|
    {
      if chars == [] then this else
      var c := chars[|chars| - 1];
      EvictAll(chars[..|chars| - 1], fails).Flush(c, fails).Drop(c)
    }

    /** A reload from the database. */
    function Load(c: int): Cache {
      Cache(entries[c := Entry(if c in rows then Some(BaseInfo(c, rows[c])) else None, false)], rows)
    }

    function Put(c: int, b: BaseInfo): Cache {
      this.(entries := entries[c := Entry(Some(b), true)])
    }

    function Mark(c: int): Cache
      requires c in entries
    {
      this.(entries := entries[c := entries[c].(dirty := true)])
    }

    /** The players whose eviction now would lose what they last saved. */
    ghost predicate AtRisk(c: int) {
      c in entries && Read(c) != (if c in rows then Some(rows[c]) else None)
    }
  }

  /** An update of the row with the id the content carries; there is none to update if the row is missing. */
  function Updated(rows: map<int, Fields>, b: BaseInfo): map<int, Fields> {
    if CharId(b.charid) in rows then rows[CharId(b.charid) := b.fields] else rows
  }

  /** Flushing never changes what anybody reads, whether or not the write succeeds. */
  lemma FlushKeeps(k: Cache, c: int, fails: set<int>)
    requires k.Sound()
    ensures var k' := k.Flush(c, fails);
            && k'.Sound() && k'.entries.Keys == k.entries.Keys
            && (forall d :: k'.Read(d) == k.Read(d))
            && (c !in fails ==> !k'.AtRisk(c)) && (forall d :: d != c ==> (k'.AtRisk(d) <==> k.AtRisk(d)))
            && (c in fails ==> k' == k)
  {
    if c in k.entries { assert k.EntryOk(c); }
    var k' := k.Flush(c, fails);
    forall d | d in k'.entries
      ensures k'.EntryOk(d)
    {
      assert k.EntryOk(d);
    }
  }

  /** Dropping a player is invisible exactly when its content is in the database. */
  lemma DropKeepsIff(k: Cache, c: int)
    requires k.Sound()
    ensures k.Drop(c).Sound()
    ensures (forall d :: k.Drop(c).Read(d) == k.Read(d)) <==> !k.AtRisk(c)
    ensures forall d :: d != c ==> k.Drop(c).Read(d) == k.Read(d) && (k.Drop(c).AtRisk(d) <==> k.AtRisk(d))
  {
    var k' := k.Drop(c);
    forall d | d in k'.entries
      ensures k'.EntryOk(d)
    {
      assert k.EntryOk(d);
    }
    if k.AtRisk(c) {
      assert k'.Read(c) != k.Read(c);
    }
  }

  lemma {:induction false} FlushAllKeeps(k: Cache, chars: seq<int>, fails: set<int>)
    requires k.Sound()
    ensures var k' := k.FlushAll(chars, fails);
            && k'.Sound() && k'.entries.Keys == k.entries.Keys
            && (forall d :: k'.Read(d) == k.Read(d))
            && (forall d :: d in chars && d !in fails ==> !k'.AtRisk(d))
            && (forall d :: d !in chars ==> (k'.AtRisk(d) <==> k.AtRisk(d)))
    decreases |chars|
  {
    hide Cache.Sound, Cache.Read, Cache.AtRisk, Cache.Flush;
    if chars != [] {
      var c := chars[|chars| - 1];
      FlushAllKeeps(k, chars[..|chars| - 1], fails);
      FlushKeeps(k.FlushAll(chars[..|chars| - 1], fails), c, fails);
      assert forall d :: d in chars <==> d in chars[..|chars| - 1] || d == c;
    }
  }

  /** After evictions the players are gone from the cache; nobody's value is lost but that of a player whose write
      failed while the database lagged behind, and then it is. */
  lemma {:induction false} EvictAllKeeps(k: Cache, chars: seq<int>, fails: set<int>)
    requires k.Sound()
    ensures var k' := k.EvictAll(chars, fails);
            && k'.Sound() && k'.entries.Keys == k.entries.Keys - (set c | c in chars)
            && (forall d :: k'.Read(d) == k.Read(d) <==> !(d in chars && d in fails && k.AtRisk(d)))
            && (forall d :: d !in chars ==> (k'.AtRisk(d) <==> k.AtRisk(d)))
    decreases |chars|
  {
    hide Cache.Sound, Cache.AtRisk, Cache.Flush;
    if chars != [] {
      var c := chars[|chars| - 1];
      var k1 := k.EvictAll(chars[..|chars| - 1], fails);
      EvictAllKeeps(k, chars[..|chars| - 1], fails);
      FlushKeeps(k1, c, fails);
      DropKeepsIff(k1.Flush(c, fails), c);
      assert forall d :: d in chars <==> d in chars[..|chars| - 1] || d == c;
    }
  }

  ghost function AtRiskOf(k: Cache, chars: set<int>): set<int> { set c | c in chars && k.AtRisk(c) }

  /** The players that evictions lose something of. */
  ghost function Lost(k: Cache, chars: seq<int>, fails: set<int>): set<int> {
    set c | c in chars && c in fails && k.AtRisk(c)
  }

  /** Readers find what the players last saved, those in spoiled excepted. */
  ghost predicate Tells(k: Cache, accepted: map<int, Fields>, spoiled: set<int>) {
    forall c :: c !in spoiled ==> k.Read(c) == if c in accepted then Some(accepted[c]) else None
  }

  lemma EvictTells(k: Cache, chars: seq<int>, fails: set<int>, accepted: map<int, Fields>, spoiled: set<int>)
    requires k.Sound() && Tells(k, accepted, spoiled)
    ensures var k' := k.EvictAll(chars, fails);
            var spoiled' := spoiled + Lost(k, chars, fails);
            && k'.Sound() && Tells(k', accepted, spoiled') && (forall c :: c in chars ==> c !in k'.entries)
            && forall c :: c in chars && c !in spoiled' && c in accepted ==> c in k'.rows && k'.rows[c] == accepted[c]
  {
    hide Cache.Sound, Cache.AtRisk;
    EvictAllKeeps(k, chars, fails);
    var k' := k.EvictAll(chars, fails);
    hide Cache.EvictAll;
    forall c | c in chars
      ensures c !in k'.entries
    {
      assert c in (set d | d in chars);
    }
    forall c | c in chars && c !in spoiled + Lost(k, chars, fails) && c in accepted
      ensures c in k'.rows && k'.rows[c] == accepted[c]
    {
      assert k'.Read(c) == k.Read(c);
    }
  }

  /** A reload shows what was there, unless it replaces a player that the database lags behind. */
  lemma LoadKeepsIff(k: Cache, c: int)
    requires k.Sound() && CharId(c) == c
    ensures k.Load(c).Sound() && !k.Load(c).AtRisk(c)
    ensures (forall d :: k.Load(c).Read(d) == k.Read(d)) <==> !k.AtRisk(c)
    ensures forall d :: d != c ==> k.Load(c).Read(d) == k.Read(d) && (k.Load(c).AtRisk(d) <==> k.AtRisk(d))
  {
    var k' := k.Load(c);
    forall d | d in k'.entries
      ensures k'.EntryOk(d)
    {
      if d != c { assert k.EntryOk(d); }
    }
    if k.AtRisk(c) {
      assert k'.Read(c) != k.Read(c);
    }
  }

  lemma PutKeeps(k: Cache, c: int, b: BaseInfo)
    requires k.Sound() && c in k.entries && k.entries[c].content.Some? && CharId(b.charid) == c
    ensures k.Put(c, b).Sound() && k.Put(c, b).Read(c) == Some(b.fields)
    ensures forall d :: d != c ==> k.Put(c, b).Read(d) == k.Read(d) && (k.Put(c, b).AtRisk(d) <==> k.AtRisk(d))
  {
    assert k.EntryOk(c);
    forall d | d in k.Put(c, b).entries
      ensures k.Put(c, b).EntryOk(d)
    {
      assert k.EntryOk(d);
    }
  }

  lemma MarkKeeps(k: Cache, c: int)
    requires k.Sound() && c in k.entries
    ensures k.Mark(c).Sound() && forall d :: k.Mark(c).Read(d) == k.Read(d) && (k.Mark(c).AtRisk(d) <==> k.AtRisk(d))
  {
    forall d | d in k.Mark(c).entries
      ensures k.Mark(c).EntryOk(d)
    {
      assert k.EntryOk(d);
    }
  }

  datatype Event =
    | LoginEvent(id: int, now: int)
    | SaveEvent(info: SaveTypeInfo, now: int, fails: set<int>)
    | ReadEvent(c: int)
    | SweepEvent(now: int, fails: set<int>)

  /** The players whose database writes fail during an event. */
  function Failing(e: Event): set<int> {
    match e
    case SaveEvent(_, _, fails) => fails
    case SweepEvent(_, fails) => fails
    case _ => {}
  }

  /** What a run sees at one moment: the cache and the database, what each player last saved, who has lost that, and
      the two schedules. */
  datatype Moment = Moment(
    k: Cache, accepted: map<int, Fields>, spoiled: set<int>, flushes: map<int, int>, dels: map<int, int>)

  /** A save is taken from a cached player, if it carries a record of that player. */
  predicate Proper(k: Cache, info: SaveTypeInfo) {
    var c := CharId(info.id);
    c in k.entries ==> k.entries[c].content.Some? && CharId(info.bsinfo.charid) == c
  }

  predicate Takes(k: Cache, info: SaveTypeInfo) {
    CharId(info.id) in k.entries && HasBit(info.kinds, E_BASE_INFO)
  }

  /** A save is taken exactly when the player is cached and the lowest bit of its kinds is set. */
  lemma TakesIff(k: Cache, info: SaveTypeInfo, low: nat, high: nat)
    requires low <= 1 && info.kinds == low + 2 * high
    ensures Takes(k, info) <==> CharId(info.id) in k.entries && low == 1
  {
  }

  /** The cache after a save, and after a player going offline has been written. */
  function SavedTo(k: Cache, info: SaveTypeInfo, fails: set<int>): Cache {
    var c := CharId(info.id);
    var k' := if Takes(k, info) then k.Put(c, info.bsinfo) else k;
    if c in k.entries && info.isdel then k'.Mark(c).Flush(c, fails) else k'
  }

  /** A sweep flushes what is due, then evicts what is due, each in order. */
  ghost predicate SweptTo(k: Cache, k': Cache, flushes: map<int, int>, dels: map<int, int>, now: int, fails: set<int>) {
    exists fl, dl ::
      && CacheTimeOut.Lists(fl, CacheTimeOut.Due(flushes - CacheTimeOut.Due(dels, now), now))
      && CacheTimeOut.Lists(dl, CacheTimeOut.Due(dels, now))
      && k' == k.FlushAll(fl, fails).EvictAll(dl, fails)
  }

  function PutOff(flushes: map<int, int>, now: int): map<int, int> {
    map c | c in flushes :: if flushes[c] <= now then now + SAVE_CHARCACHE_TODB else flushes[c]
  }

  /** One event. */
  ghost predicate StepOf(e: Event, a: Moment, b: Moment) {
    match e
    case LoginEvent(id, now) =>
      var c := CharId(id);
      b == if c in a.k.entries then a
           else a.(k := a.k.Load(c), flushes := a.flushes[c := now + SAVE_CHARCACHE_TODB])
    case SaveEvent(info, now, fails) =>
      var c := CharId(info.id);
      if !Proper(a.k, info) then b == a else
      && b.k == SavedTo(a.k, info, fails) && b.flushes == a.flushes
      && b.accepted == (if Takes(a.k, info) then a.accepted[c := info.bsinfo.fields] else a.accepted)
      && b.spoiled == (if Takes(a.k, info) then a.spoiled - {c} else a.spoiled)
      && b.dels == if c in a.k.entries && info.isdel then a.dels[c := now + DELETE_CHARCACHE_TIMEOUT] else a.dels
    case ReadEvent(c) =>
      b == if c in a.k.entries && a.k.entries[c].content.Some? then a.(dels := a.dels - {c}) else a
    case SweepEvent(now, fails) =>
      var due := CacheTimeOut.Due(a.dels, now);
      && SweptTo(a.k, b.k, a.flushes, a.dels, now, fails) && b.accepted == a.accepted
      && b.spoiled == a.spoiled + AtRiskOf(a.k, due * fails)
      && b.flushes == PutOff(a.flushes - due, now) && b.dels == a.dels - due
  }

  ghost predicate IsRun(events: seq<Event>, trace: seq<Moment>) {
    && |trace| == |events| + 1
    && forall i :: 0 <= i < |events| ==> StepOf(events[i], trace[i], trace[i + 1])
  }

  /** The sweep of event i evicts player c at risk while its write fails. */
  ghost predicate Loses(events: seq<Event>, trace: seq<Moment>, i: nat, c: int)
    requires IsRun(events, trace) && i < |events|
  {
    && events[i].SweepEvent? && c in events[i].fails && trace[i].k.AtRisk(c)
    && c in CacheTimeOut.Due(trace[i].dels, events[i].now)
  }

  /** Nobody's save is lost in a run but by an eviction at risk whose write fails. */
  lemma {:induction false} SpoiledIffLost(events: seq<Event>, trace: seq<Moment>, n: nat, c: int)
    requires IsRun(events, trace) && n <= |events|
    ensures c in trace[n].spoiled && c !in trace[0].spoiled ==> exists i :: 0 <= i < n && Loses(events, trace, i, c)
    ensures forall i :: 0 <= i < n && Loses(events, trace, i, c) && c !in trace[n].spoiled ==>
              exists j :: i < j < n && events[j].SaveEvent? && CharId(events[j].info.id) == c
                          && Takes(trace[j].k, events[j].info)
    decreases n
  {
    hide Cache.AtRisk, SweptTo, SavedTo, HasBit, CharId, PutOff;
    if n > 0 {
      var m := n - 1;
      SpoiledIffLost(events, trace, m, c);
      assert StepOf(events[m], trace[m], trace[n]);
      if c in trace[n].spoiled && c !in trace[0].spoiled && c !in trace[m].spoiled {
        assert Loses(events, trace, m, c);
      }
      forall i | 0 <= i < n && Loses(events, trace, i, c) && c !in trace[n].spoiled
        ensures exists j :: i < j < n && events[j].SaveEvent? && CharId(events[j].info.id) == c
                            && Takes(trace[j].k, events[j].info)
      {
        if c in trace[m].spoiled {
          assert i < m && events[m].SaveEvent?;
        } else if i < m {
          var j :| i < j < m && events[j].SaveEvent? && CharId(events[j].info.id) == c
                   && Takes(trace[j].k, events[j].info);
        }
      }
    }
  }

  /** When no write fails, nothing is lost. */
  lemma NothingSpoiled(events: seq<Event>, trace: seq<Moment>)
    requires IsRun(events, trace) && trace[0].spoiled == {}
    requires forall i :: 0 <= i < |events| ==> Failing(events[i]) == {}
    ensures trace[|events|].spoiled == {}
  {
    forall c
      ensures c !in trace[|events|].spoiled
    {
      SpoiledIffLost(events, trace, |events|, c);
      forall i | 0 <= i < |events|
        ensures !Loses(events, trace, i, c)
      {
        assert c !in Failing(events[i]);
      }
    }
  }

  // ---- The schedules over whole runs ----

  /** Every cached player has its next flush within a minute of the latest reading of the clock. */
  ghost predicate Scheduled(m: Moment, latest: int) {
    && (forall c :: c in m.k.entries ==> c in m.flushes)
    && (forall c :: c in m.flushes ==> m.flushes[c] <= latest + 60000)
  }

  ghost predicate SoundRun(events: seq<Event>, trace: seq<Moment>) {
    IsRun(events, trace) && forall i :: 0 <= i <= |events| ==> trace[i].k.Sound()
  }

  /** Whom a sweep removes from the cache, and whom it writes out. */
  lemma SweepDoes(a: Moment, b: Moment, now: int, fails: set<int>)
    requires StepOf(SweepEvent(now, fails), a, b) && a.k.Sound()
    ensures forall c :: c in b.k.entries <==> c in a.k.entries && !(c in a.dels && a.dels[c] <= now)
    ensures forall c :: c in a.flushes && a.flushes[c] <= now && c !in fails ==> !b.k.AtRisk(c)
    ensures forall c :: c in b.flushes <==> c in a.flushes && !(c in a.dels && a.dels[c] <= now)
    ensures forall c :: c in b.flushes ==>
              b.flushes[c] == if a.flushes[c] <= now then now + 60000 else a.flushes[c]
    ensures forall c :: c in b.dels <==> c in a.dels && a.dels[c] > now
    ensures forall c :: c in b.dels ==> b.dels[c] == a.dels[c]
  {
    var due := CacheTimeOut.Due(a.dels, now);
    var fl, dl :|
      && CacheTimeOut.Lists(fl, CacheTimeOut.Due(a.flushes - due, now)) && CacheTimeOut.Lists(dl, due)
      && b.k == a.k.FlushAll(fl, fails).EvictAll(dl, fails);
    hide Cache.Sound, Cache.AtRisk, Cache.FlushAll, Cache.EvictAll;
    FlushAllKeeps(a.k, fl, fails);
    EvictAllKeeps(a.k.FlushAll(fl, fails), dl, fails);
    forall c
      ensures c in b.k.entries <==> c in a.k.entries && !(c in a.dels && a.dels[c] <= now)
    {
      assert c in b.k.entries.Keys <==> c in a.k.entries.Keys && c !in dl;
    }
    forall c | c in a.flushes && a.flushes[c] <= now && c !in fails
      ensures !b.k.AtRisk(c)
    {
      if c in due {
        assert c in dl && c !in b.k.entries;
        GoneIsSafe(b.k, c);
      } else {
        assert c in fl;
      }
    }
  }

  lemma GoneIsSafe(k: Cache, c: int)
    requires c !in k.entries
    ensures !k.AtRisk(c)
  {
  }

  /** Nobody is cached without a flush to come, over any run whose clock has read no more than this. */
  lemma {:induction false} StaysScheduled(events: seq<Event>, trace: seq<Moment>, n: nat, latest: int)
    requires SoundRun(events, trace) && n <= |events| && Scheduled(trace[0], latest)
    requires forall k :: 0 <= k < n && (events[k].LoginEvent? || events[k].SweepEvent?) ==> events[k].now <= latest
    ensures Scheduled(trace[n], latest)
    decreases n
  {
    if n > 0 {
      StaysScheduled(events, trace, n - 1, latest);
      ScheduledStep(events[n - 1], trace[n - 1], trace[n], latest);
    }
  }

  lemma ScheduledStep(e: Event, a: Moment, b: Moment, latest: int)
    requires StepOf(e, a, b) && a.k.Sound() && Scheduled(a, latest)
    requires e.LoginEvent? || e.SweepEvent? ==> e.now <= latest
    ensures Scheduled(b, latest)
  {
    hide Cache.Sound, CharId, HasBit;
    match e
    case LoginEvent(id, now) =>
    case SaveEvent(info, now, fails) => SavedKeys(a.k, info, fails);
    case ReadEvent(c) =>
    case SweepEvent(now, fails) => SweepDoes(a, b, now, fails);
  }

  lemma SavedKeys(k: Cache, info: SaveTypeInfo, fails: set<int>)
    ensures SavedTo(k, info, fails).entries.Keys == k.entries.Keys
  {
  }

  /** Write-back in time: what a cached player has saved by one moment is in the database at some later one, no later
      than the first sweep a minute after the clock's latest reading by then, unless a sweep fails to write it. */
  lemma WrittenInTime(events: seq<Event>, trace: seq<Moment>, i: nat, j: nat, latest: int, c: int)
    requires SoundRun(events, trace) && i <= j < |events| && Scheduled(trace[0], latest)
    requires forall k :: 0 <= k < i && (events[k].LoginEvent? || events[k].SweepEvent?) ==> events[k].now <= latest
    requires events[j].SweepEvent? && events[j].now >= latest + 60000
    requires forall k :: i <= k <= j && events[k].SweepEvent? ==> c !in events[k].fails
    ensures exists k :: i <= k <= j + 1 && !trace[k].k.AtRisk(c)
  {
    hide Cache.AtRisk, Cache.Sound;
    StaysScheduled(events, trace, i, latest);
    if forall k :: i <= k <= j ==> trace[k].k.AtRisk(c) {
      AtRiskCached(trace[i].k, c);
      FlushWaits(events, trace, i, j, c);
      SweepDoes(trace[j], trace[j + 1], events[j].now, events[j].fails);
      assert !trace[j + 1].k.AtRisk(c);
    }
  }

  lemma AtRiskCached(k: Cache, c: int)
    ensures k.AtRisk(c) ==> c in k.entries
  {
  }

  /** A flush that has not come stands where it was. */
  lemma {:induction false} FlushWaits(events: seq<Event>, trace: seq<Moment>, i: nat, j: nat, c: int)
    requires SoundRun(events, trace) && i <= j <= |events|
    requires forall k :: i <= k <= j ==> trace[k].k.AtRisk(c)
    requires forall k :: i <= k < j && events[k].SweepEvent? ==> c !in events[k].fails
    requires c in trace[i].flushes
    ensures c in trace[j].flushes && trace[j].flushes[c] == trace[i].flushes[c]
    decreases j - i
  {
    hide Cache.AtRisk, Cache.Sound, CharId, HasBit, SavedTo, Cache.Load, SweptTo, AtRiskOf;
    if i < j {
      FlushWaits(events, trace, i, j - 1, c);
      var e := events[j - 1];
      assert StepOf(e, trace[j - 1], trace[j]);
      AtRiskCached(trace[j - 1].k, c);
      AtRiskCached(trace[j].k, c);
      if e.SweepEvent? {
        SweepDoes(trace[j - 1], trace[j], e.now, e.fails);
      }
    }
  }

  /** An event that leaves the scheduled deletion of a player alone. */
  predicate Spares(e: Event, c: int) {
    match e
    case ReadEvent(d) => d != c
    case SaveEvent(info, _, _) => !(info.isdel && CharId(info.id) == c)
    case _ => true
  }

  /** A player gone offline stays cached for two minutes and is evicted by the first sweep after them, unless it is
      read or goes offline again meanwhile. */
  lemma LeavesInTime(events: seq<Event>, trace: seq<Moment>, i: nat, j: nat, c: int)
    requires SoundRun(events, trace) && i < j < |events| && events[i].SaveEvent? && events[j].SweepEvent?
    requires var info := events[i].info;
             info.isdel && CharId(info.id) == c && c in trace[i].k.entries && Proper(trace[i].k, info)
    requires forall k :: i < k < j ==> Spares(events[k], c)
    requires forall k :: i < k < j && events[k].SweepEvent? ==> events[k].now < events[i].now + 120000
    ensures c in trace[j + 1].k.entries <==> events[j].now < events[i].now + 120000
  {
    hide Cache.Sound, Cache.AtRisk, CharId, HasBit, SweptTo, AtRiskOf;
    assert StepOf(events[i], trace[i], trace[i + 1]);
    SavedKeys(trace[i].k, events[i].info, events[i].fails);
    assert c in trace[i + 1].k.entries.Keys;
    hide SavedTo;
    DeletionWaits(events, trace, i + 1, j, c);
    SweepDoes(trace[j], trace[j + 1], events[j].now, events[j].fails);
  }

  lemma {:induction false} DeletionWaits(events: seq<Event>, trace: seq<Moment>, i: nat, j: nat, c: int)
    requires SoundRun(events, trace) && i <= j <= |events| && c in trace[i].dels && c in trace[i].k.entries
    requires forall k :: i <= k < j ==> Spares(events[k], c)
    requires forall k :: i <= k < j && events[k].SweepEvent? ==> events[k].now < trace[i].dels[c]
    ensures c in trace[j].dels && trace[j].dels[c] == trace[i].dels[c] && c in trace[j].k.entries
    decreases j - i
  {
    hide Cache.AtRisk, Cache.Sound, CharId, HasBit, SavedTo, SweptTo, AtRiskOf;
    if i < j {
      DeletionWaits(events, trace, i, j - 1, c);
      var e := events[j - 1];
      assert Spares(e, c) && StepOf(e, trace[j - 1], trace[j]);
      match e {
        case SweepEvent(now, fails) => SweepDoes(trace[j - 1], trace[j], now, fails);
        case SaveEvent(info, _, fails) =>
          SavedKeys(trace[j - 1].k, info, fails);
          assert c in trace[j].k.entries.Keys;
        case _ =>
      }
    }
  }

  /** A login leaves its player cached, with the row of the database unless it was cached before, and its next flush a
      minute away; it touches no other. */
  lemma LoginCaches(a: Moment, b: Moment, id: int, now: int)
    requires StepOf(LoginEvent(id, now), a, b)
    ensures var c := CharId(id);
            && c in b.k.entries && b.k.rows == a.k.rows
            && (forall d :: d in b.k.entries <==> d in a.k.entries || d == c)
            && (forall d :: d in a.k.entries ==> b.k.entries[d] == a.k.entries[d])
            && (c !in a.k.entries ==>
                  && b.k.Read(c) == (if c in a.k.rows then Some(a.k.rows[c]) else None)
                  && c in b.flushes && b.flushes[c] == now + 60000)
  {
    hide CharId;
  }

  /** A reader that finds a player calls its deletion off: it stays cached until it goes offline again. */
  lemma ReadCallsOff(events: seq<Event>, trace: seq<Moment>, i: nat, j: nat, c: int)
    requires SoundRun(events, trace) && i < j <= |events| && events[i] == ReadEvent(c)
    requires c in trace[i].k.entries && trace[i].k.entries[c].content.Some?
    requires forall k :: i < k < j && events[k].SaveEvent? && events[k].info.isdel ==> CharId(events[k].info.id) != c
    ensures c in trace[j].k.entries
  {
    hide Cache.Sound, CharId, HasBit, SavedTo, SweptTo, AtRiskOf;
    assert StepOf(events[i], trace[i], trace[i + 1]);
    StaysCached(events, trace, i + 1, j, c);
  }

  lemma {:induction false} StaysCached(events: seq<Event>, trace: seq<Moment>, i: nat, j: nat, c: int)
    requires SoundRun(events, trace) && i <= j <= |events| && c in trace[i].k.entries && c !in trace[i].dels
    requires forall k :: i <= k < j && events[k].SaveEvent? && events[k].info.isdel ==> CharId(events[k].info.id) != c
    ensures c in trace[j].k.entries && c !in trace[j].dels
    decreases j - i
  {
    hide Cache.AtRisk, Cache.Sound, CharId, HasBit, SavedTo, SweptTo, AtRiskOf;
    if i < j {
      StaysCached(events, trace, i, j - 1, c);
      var e := events[j - 1];
      assert StepOf(e, trace[j - 1], trace[j]);
      match e {
        case SweepEvent(now, fails) => SweepDoes(trace[j - 1], trace[j], now, fails);
        case SaveEvent(info, _, fails) =>
          SavedKeys(trace[j - 1].k, info, fails);
          assert c in trace[j].k.entries.Keys;
        case _ =>
      }
    }
  }

  /** A failing flush leaves the risk as it was. */
  lemma {:induction false} FlushAllKeepsRisk(k: Cache, chars: seq<int>, fails: set<int>, c: int)
    requires k.Sound() && c in fails
    ensures k.FlushAll(chars, fails).AtRisk(c) <==> k.AtRisk(c)
    decreases |chars|
  {
    hide Cache.Sound, Cache.AtRisk, Cache.Flush;
    if chars != [] {
      var n := |chars| - 1;
      FlushAllKeepsRisk(k, chars[..n], fails, c);
      FlushAllKeeps(k, chars[..n], fails);
      FlushKeeps(k.FlushAll(chars[..n], fails), chars[n], fails);
    }
  }

  // ---- The objects ----

  class Database {
    var rows: map<int, Fields>

    constructor (rows: map<int, Fields>)
      ensures this.rows == rows
    {
      this.rows := rows;
    }
  }

  class CStructTemplate {
    const m_type: int
    var m_content: Option<BaseInfo>
    var m_flag: bool

    constructor (kind: int)
      ensures m_type == kind && m_content == None && !m_flag
    {
      m_type, m_content, m_flag := kind, None, false;
    }

    /** Save: 1 when there is nothing to save, 0 when the row was written, -1 otherwise. */
    method Save(db: Database, ok: bool) returns (res: int)
      modifies this`m_flag, db
      ensures var writes := m_type == E_BASE_INFO && old(m_flag) && m_content.Some?;
              && res == (if m_type == E_BASE_INFO && !old(m_flag) then 1 else if writes && ok then 0 else -1)
              && m_flag == (old(m_flag) && res != 0)
              && db.rows == if res == 0 then Updated(old(db.rows), m_content.value) else old(db.rows)
    {
      if m_type == E_BASE_INFO {
        if !m_flag {
          return 1;
        }
        if m_content.Some? {
          if !ok {
            return -1;
          }
          db.rows := Updated(db.rows, m_content.value);
          m_flag := false;
          return 0;
        }
      }
      res := -1;
    }

    /** AddContent for a record just read from the database. */
    method SetContent(content: Option<BaseInfo>)
      modifies this`m_content
      ensures m_content == content
    {
      m_content := content;
    }

    /** AddContent for a record to be saved; the source writes through the pointer it holds. */
    method AddContent(content: BaseInfo)
      requires m_content.Some?
      modifies this
      ensures m_content == Some(content) && m_flag
    {
      m_content := Some(content);
      m_flag := true;
    }
  }

  class PlayerDBMgr {
    /** m_pStruct, by kind. */
    const base: CStructTemplate
    const friends: CStructTemplate

    ghost predicate Formed() {
      base.m_type == E_BASE_INFO && friends.m_type == E_FRIEND_INFO && base != friends
    }

    constructor ()
      ensures Formed() && fresh(base) && fresh(friends)
      ensures base.m_content == None && !base.m_flag
    {
      base := new CStructTemplate(E_BASE_INFO);
      friends := new CStructTemplate(E_FRIEND_INFO);
    }

    /** SavePlayerStruct. The friend record has no save of its own, so the result is -1 on every call. */
    method SavePlayerStruct(db: Database, ok: bool) returns (res: int)
      requires Formed()
      modifies base`m_flag, friends`m_flag, db
      ensures res == -1 && friends.m_flag == old(friends.m_flag)
      ensures var writes := old(base.m_flag) && base.m_content.Some? && ok;
              && base.m_flag == (old(base.m_flag) && !writes)
              && db.rows == if writes then Updated(old(db.rows), base.m_content.value) else old(db.rows)
    {
      res := base.Save(db, ok);
      var count := if res == -1 then 1 else 0;
      res := friends.Save(db, ok);
      count := count + if res == -1 then 1 else 0;
      if count > 0 {
        return -1;
      }
    }
  }

  class CacheTimeOut {
    var m_cacheTime: map<int, int>
    var m_delCacheTime: map<int, int>

    constructor ()
      ensures m_cacheTime == map[] && m_delCacheTime == map[]
    {
      m_cacheTime, m_delCacheTime := map[], map[];
    }

    /** A list of all the keys that satisfy a condition, in order. */
    static ghost predicate Lists(out: seq<int>, keys: set<int>) {
      && (forall c :: c in out <==> c in keys)
      && (forall i, j :: 0 <= i < j < |out| ==> out[i] < out[j])
    }

    static ghost function Due(times: map<int, int>, now: int): set<int> {
      set c | c in times && times[c] <= now
    }

    /** The keys outside todo have been looked at. */
    static ghost predicate Collected(out: seq<int>, times: map<int, int>, now: int, todo: set<int>) {
      && todo <= times.Keys
      && (forall c :: c in out ==> c in Due(times, now) && forall x :: x in todo ==> c < x)
      && (forall c :: c in Due(times, now) && c !in todo ==> c in out)
      && (forall i, j :: 0 <= i < j < |out| ==> out[i] < out[j])
    }

    static lemma CollectedStep(out: seq<int>, times: map<int, int>, now: int, todo: set<int>, c: int)
      requires Collected(out, times, now, todo) && Least(c, todo)
      ensures c in times && Collected(if times[c] <= now then out + [c] else out, times, now, todo - {c})
    {
      assert c in times;
      forall i | 0 <= i < |out|
        ensures out[i] < c
      {
        assert out[i] in out;
      }
    }

    static lemma CollectedEnd(out: seq<int>, times: map<int, int>, now: int)
      requires Collected(out, times, now, {})
      ensures Lists(out, Due(times, now))
    {
    }

    static lemma WithoutSnoc(times: map<int, int>, out: seq<int>, c: int)
      ensures times - Members(out + [c]) == times - Members(out) - {c}
    {
      assert Members(out + [c]) == Members(out) + {c};
    }

    static ghost function Members(s: seq<int>): set<int> { set c | c in s }

    /** The first loop of svr: deferred deletions that have come due. */
    method CollectDeletes(now: int) returns (deltimeout: seq<int>)
      modifies this
      ensures Lists(deltimeout, Due(old(m_delCacheTime), now))
      ensures m_delCacheTime == old(m_delCacheTime) - Members(deltimeout)
      ensures m_cacheTime == old(m_cacheTime) - Members(deltimeout)
    {
      ghost var dels, caches := m_delCacheTime, m_cacheTime;
      deltimeout := [];
      var todo := m_delCacheTime.Keys;
      assert Collected([], dels, now, todo);
      assert dels - Members([]) == dels && caches - Members([]) == caches;
      hide Collected, Members;
      while todo != {}
        invariant Collected(deltimeout, dels, now, todo)
        invariant m_delCacheTime == dels - Members(deltimeout) && m_cacheTime == caches - Members(deltimeout)
        invariant forall c :: c in todo ==> c in m_delCacheTime && m_delCacheTime[c] == dels[c]
        decreases |todo|
      {
        LeastExists(todo);
        var c :| Least(c, todo);
        CollectedStep(deltimeout, dels, now, todo, c);
        if m_delCacheTime[c] <= now {
          WithoutSnoc(dels, deltimeout, c);
          WithoutSnoc(caches, deltimeout, c);
          deltimeout := deltimeout + [c];
          m_cacheTime := m_cacheTime - {c};
          m_delCacheTime := m_delCacheTime - {c};
        }
        todo := todo - {c};
      }
      CollectedEnd(deltimeout, dels, now);
    }

    /** Both loops. */
    method Collect(now: int) returns (timeout: seq<int>, deltimeout: seq<int>)
      modifies this
      ensures var due := Due(old(m_delCacheTime), now);
              && Lists(deltimeout, due) && Lists(timeout, Due(old(m_cacheTime) - due, now))
              && m_cacheTime == PutOff(old(m_cacheTime) - due, now) && m_delCacheTime == old(m_delCacheTime) - due
              && forall c :: c in due ==> c !in m_cacheTime
    {
      ghost var due := Due(m_delCacheTime, now);
      deltimeout := CollectDeletes(now);
      MembersOf(deltimeout, due);
      ghost var left := m_cacheTime;
      timeout := CollectFlushes(now);
      PutOffIs(left, m_cacheTime, now);
    }

    static lemma MembersOf(out: seq<int>, keys: set<int>)
      requires Lists(out, keys)
      ensures Members(out) == keys
    {
      forall c
        ensures c in Members(out) <==> c in keys
      {
        assert c in out <==> c in keys;
      }
    }

    static lemma PutOffIs(before: map<int, int>, after: map<int, int>, now: int)
      requires after.Keys == before.Keys
      requires forall c :: c in after ==>
                 after[c] == if before[c] <= now then now + SAVE_CHARCACHE_TODB else before[c]
      ensures after == PutOff(before, now)
    {
      var m := PutOff(before, now);
      forall c
        ensures c in after <==> c in m
        ensures c in after ==> after[c] == m[c]
      {
        assert c in after.Keys <==> c in before.Keys;
      }
    }

    /** The second loop: flushes that have come due are put off by a minute and reported. */
    method CollectFlushes(now: int) returns (timeout: seq<int>)
      modifies this`m_cacheTime
      ensures Lists(timeout, Due(old(m_cacheTime), now))
      ensures m_cacheTime.Keys == old(m_cacheTime).Keys
      ensures forall c :: c in m_cacheTime ==>
                m_cacheTime[c] == if old(m_cacheTime)[c] <= now then now + SAVE_CHARCACHE_TODB else old(m_cacheTime)[c]
    {
      ghost var caches := m_cacheTime;
      timeout := [];
      var todo := m_cacheTime.Keys;
      assert Collected([], caches, now, todo);
      hide Collected;
      while todo != {}
        invariant todo <= caches.Keys == m_cacheTime.Keys && Collected(timeout, caches, now, todo)
        invariant forall c :: c in caches ==>
                    m_cacheTime[c] == if c !in todo && caches[c] <= now then now + SAVE_CHARCACHE_TODB else caches[c]
        decreases |todo|
      {
        LeastExists(todo);
        var c :| Least(c, todo);
        CollectedStep(timeout, caches, now, todo, c);
        if m_cacheTime[c] <= now {
          m_cacheTime := m_cacheTime[c := now + SAVE_CHARCACHE_TODB];
          timeout := timeout + [c];
        }
        todo := todo - {c};
      }
      CollectedEnd(timeout, caches, now);
    }
  }

  class CCharMemCache {
    const db: Database
    const m_timeout: CacheTimeOut
    var m_allPlayer: map<int, PlayerDBMgr>
    /** What each player last saved, or had in the database from the start. */
    ghost var accepted: map<int, Fields>
    /** The players that were evicted when their last save could not be written. */
    ghost var spoiled: set<int>

    /** No two players share a record. */
    ghost predicate Formed()
      reads this`m_allPlayer
    {
      && (forall c :: c in m_allPlayer ==> m_allPlayer[c].Formed())
      && (forall c, d :: c in m_allPlayer && d in m_allPlayer && c != d ==>
            m_allPlayer[c].base != m_allPlayer[d].base)
    }

    /** The records that hold what is cached. */
    ghost function Records(): set<CStructTemplate>
      reads this`m_allPlayer
    {
      (set c | c in m_allPlayer :: m_allPlayer[c].base) + (set c | c in m_allPlayer :: m_allPlayer[c].friends)
    }

    ghost function EntryOf(c: int): Entry
      requires Formed() && c in m_allPlayer
      reads this`m_allPlayer, Records()
    {
      Entry(m_allPlayer[c].base.m_content, m_allPlayer[c].base.m_flag)
    }

    /** The value the objects stand for. */
    ghost function View(): Cache
      requires Formed()
      reads this`m_allPlayer, Records(), db
    {
      Cache(map c | c in m_allPlayer :: EntryOf(c), db.rows)
    }

    /** A reader finds what the player last saved, unless an eviction lost it. */
    ghost predicate Valid()
      reads this, Records(), db
    {
      && Formed() && View().Sound()
      && Tells(View(), accepted, spoiled)
    }

    constructor (db: Database)
      ensures Valid() && m_allPlayer == map[] && accepted == db.rows && spoiled == {} && this.db == db
      ensures fresh(m_timeout)
    {
      this.db, m_allPlayer, accepted, spoiled := db, map[], db.rows, {};
      m_timeout := new CacheTimeOut();
    }

    /** SavePlayerStruct of a cached player, seen from the cache. */
    method SaveOne(c: int, fails: set<int>) returns (res: int)
      requires Formed() && c in m_allPlayer
      modifies Records()`m_flag, db
      ensures View() == old(View()).Flush(c, fails) && res == -1
    {
      res := m_allPlayer[c].SavePlayerStruct(db, c !in fails);
    }

    /** SaveCacheToDB for a list, as the sweep calls it: nobody reads anything else afterwards. */
    method SaveCacheToDB(chars: seq<int>, fails: set<int>)
      requires Valid()
      modifies Records()`m_flag, db
      ensures Valid() && View() == old(View()).FlushAll(chars, fails)
      ensures forall c :: c in chars && c !in fails ==> !View().AtRisk(c)
    {
      hide Cache.Sound, Cache.Read, Cache.AtRisk;
      ghost var k := View();
      var i := 0;
      assert chars[..0] == [];
      while i < |chars|
        invariant 0 <= i <= |chars| && Formed() && View() == k.FlushAll(chars[..i], fails)
      {
        assert chars[..i + 1][..i] == chars[..i];
        if chars[i] in m_allPlayer {
          var res := SaveOne(chars[i], fails);
        }
        i := i + 1;
      }
      assert chars[..i] == chars;
      FlushAllKeeps(k, chars, fails);
    }

    /** SaveCacheToDB for one player reports failure on every call, whatever became of the write. */
    method SaveOneToDB(charid: int, fails: set<int>) returns (ok: bool)
      requires Valid()
      modifies Records()`m_flag, db
      ensures Valid() && View() == old(View()).Flush(charid, fails) && !ok
    {
      hide Cache.Sound, Cache.Read, Cache.AtRisk;
      FlushKeeps(View(), charid, fails);
      if charid !in m_allPlayer {
        return false;
      }
      var res := SaveOne(charid, fails);
      ok := res != -1;
    }

    method Erase(c: int)
      requires Formed()
      modifies this`m_allPlayer
      ensures Formed() && View() == old(View()).Drop(c) && Records() <= old(Records())
    {
      m_allPlayer := m_allPlayer - {c};
    }

    /** The loop of SaveCacheAndDelete. */
    method EvictEach(chars: seq<int>, fails: set<int>)
      requires Formed()
      modifies this`m_allPlayer, Records()`m_flag, db
      ensures Formed() && View() == old(View()).EvictAll(chars, fails) && Records() <= old(Records())
    {
      ghost var k, records := View(), Records();
      var i := 0;
      assert chars[..0] == [];
      while i < |chars|
        invariant 0 <= i <= |chars| && Formed() && View() == k.EvictAll(chars[..i], fails) && Records() <= records
      {
        assert chars[..i + 1][..i] == chars[..i];
        EvictOne(chars[i], fails);
        i := i + 1;
      }
      assert chars[..i] == chars;
    }

    /** SaveCacheAndDelete for a list: afterwards the database holds what each of these players last saved, unless
        its write failed. */
    method SaveCacheAndDelete(chars: seq<int>, fails: set<int>)
      requires Valid()
      modifies this`m_allPlayer, this`spoiled, Records()`m_flag, db
      ensures Valid() && View() == old(View()).EvictAll(chars, fails) && Records() <= old(Records())
      ensures spoiled == old(spoiled) + Lost(old(View()), chars, fails)
      ensures forall c :: c in chars ==> c !in m_allPlayer
      ensures forall c :: c in chars && c !in spoiled && c in accepted ==> c in db.rows && db.rows[c] == accepted[c]
    {
      hide Cache.Sound, Tells, Lost, Cache.EvictAll;
      ghost var k := View();
      EvictTells(k, chars, fails, accepted, spoiled);
      ghost var k' := k.EvictAll(chars, fails);
      ghost var lost := Lost(k, chars, fails);
      EvictEach(chars, fails);
      spoiled := spoiled + lost;
      assert View() == k';
      assert forall c :: c in m_allPlayer <==> c in View().entries;
    }

    method EvictOne(c: int, fails: set<int>)
      requires Formed()
      modifies this`m_allPlayer, Records()`m_flag, db
      ensures Formed() && View() == old(View()).Flush(c, fails).Drop(c) && Records() <= old(Records())
    {
      if c in m_allPlayer {
        var res := SaveOne(c, fails);
        Erase(c);
      } else {
        assert View().entries - {c} == View().entries;
      }
    }

    /** SaveCacheAndDelete for one player also takes it off the flush schedule. */
    method SaveOneAndDelete(charid: int, fails: set<int>)
      requires Valid()
      modifies this`m_allPlayer, this`spoiled, Records()`m_flag, db, m_timeout`m_cacheTime
      ensures Valid() && View() == old(View()).EvictAll([charid], fails) && charid !in m_allPlayer
      ensures m_timeout.m_cacheTime == if charid in old(m_allPlayer) then old(m_timeout.m_cacheTime) - {charid}
                                       else old(m_timeout.m_cacheTime)
    {
      if charid in m_allPlayer {
        m_timeout.m_cacheTime := m_timeout.m_cacheTime - {charid};
      }
      SaveCacheAndDelete([charid], fails);
    }

    /** A login: a player that is not cached is read from the database and added (AddNewPlayer). */
    method Login(charid: int, now: int)
      requires Valid() && CharId(charid) == charid
      modifies this`m_allPlayer, m_timeout`m_cacheTime
      ensures Valid() && forall c :: View().Read(c) == old(View()).Read(c)
      ensures fresh(Records() - old(Records()))
      ensures View() == if charid in old(m_allPlayer) then old(View()) else old(View()).Load(charid)
      ensures m_timeout.m_cacheTime == if charid in old(m_allPlayer) then old(m_timeout.m_cacheTime)
                                       else old(m_timeout.m_cacheTime)[charid := now + SAVE_CHARCACHE_TODB]
    {
      hide Cache.Sound, Cache.Read, Cache.AtRisk;
      if charid in m_allPlayer {
        return;
      }
      ghost var k := View();
      NotAtRisk(k, charid);
      LoadTells(k, charid, accepted, spoiled);
      hide Tells, CharId;
      var player := GetRoleInfo(charid);
      hide Cache.Load;
      LoadIs(k, charid);
      AddNewPlayer(charid, player, now);
    }

    /** getRoleInfo: a new player with its row, or with nothing. */
    method GetRoleInfo(charid: int) returns (player: PlayerDBMgr)
      ensures player.Formed() && fresh(player.base) && fresh(player.friends) && !player.base.m_flag
      ensures player.base.m_content == if charid in db.rows then Some(BaseInfo(charid, db.rows[charid])) else None
    {
      player := new PlayerDBMgr();
      player.base.SetContent(if charid in db.rows then Some(BaseInfo(charid, db.rows[charid])) else None);
    }

    lemma LoadIs(k: Cache, c: int)
      ensures k.Load(c)
              == k.(entries := k.entries[c := Entry(if c in k.rows then Some(BaseInfo(c, k.rows[c])) else None, false)])
    {
    }

    lemma LoadTells(k: Cache, c: int, accepted: map<int, Fields>, spoiled: set<int>)
      requires k.Sound() && CharId(c) == c && !k.AtRisk(c) && Tells(k, accepted, spoiled)
      ensures var k' := k.Load(c);
              k'.Sound() && Tells(k', accepted, spoiled) && forall d :: k'.Read(d) == k.Read(d)
    {
      hide Cache.Sound, Cache.Read, Cache.AtRisk, Cache.Load;
      LoadKeepsIff(k, c);
    }

    lemma NotAtRisk(k: Cache, c: int)
      requires c !in k.entries
      ensures !k.AtRisk(c)
    {
    }

    /** AddNewPlayer replaces whatever was cached under the id. */
    method AddNewPlayer(charid: int, player: PlayerDBMgr, now: int)
      requires Formed() && player.Formed() && player.base !in Records()
      modifies this`m_allPlayer, m_timeout`m_cacheTime
      ensures Formed() && m_allPlayer == old(m_allPlayer)[charid := player]
      ensures Records() <= old(Records()) + {player.base, player.friends}
      ensures View()
              == old(View()).(entries :=
                   old(View()).entries[charid := Entry(player.base.m_content, player.base.m_flag)])
      ensures m_timeout.m_cacheTime == old(m_timeout.m_cacheTime)[charid := now + SAVE_CHARCACHE_TODB]
    {
      m_allPlayer := m_allPlayer[charid := player];
      m_timeout.m_cacheTime := m_timeout.m_cacheTime[charid := now + SAVE_CHARCACHE_TODB];
    }

    /** SaveToCache: a cached player's record is replaced, and nobody else's; a save for a player that is not cached
        is dropped. A player going offline is written at once and its deletion scheduled. */
    method SaveToCache(info: SaveTypeInfo, now: int, fails: set<int>)
      requires Valid()
      requires var c := CharId(info.id);
               c in m_allPlayer && HasBit(info.kinds, E_BASE_INFO) ==>
                 m_allPlayer[c].base.m_content.Some? && CharId(info.bsinfo.charid) == c
      modifies this`accepted, this`spoiled, Records(), db, m_timeout`m_delCacheTime
      ensures var c := CharId(info.id);
              var takes := c in m_allPlayer && HasBit(info.kinds, E_BASE_INFO);
              && Valid() && m_allPlayer == old(m_allPlayer)
              && (forall d ::
                    View().Read(d) == if takes && d == c then Some(info.bsinfo.fields) else old(View()).Read(d))
              && accepted == (if takes then old(accepted)[c := info.bsinfo.fields] else old(accepted))
              && spoiled == (if takes then old(spoiled) - {c} else old(spoiled))
              && View() == SavedTo(old(View()), info, fails)
              && (c in m_allPlayer && info.isdel && c !in fails ==> !View().AtRisk(c))
              && m_timeout.m_delCacheTime == (if c in m_allPlayer && info.isdel
                   then old(m_timeout.m_delCacheTime)[c := now + DELETE_CHARCACHE_TIMEOUT]
                   else old(m_timeout.m_delCacheTime))
    {
      hide Cache.Sound, Cache.Read, Cache.AtRisk, Cache.Put, Cache.Mark, Cache.Flush, Tells, HasBit, CharId;
      var c := CharId(info.id);
      if c !in m_allPlayer {
        return;
      }
      if HasBit(info.kinds, E_BASE_INFO) {
        Take(c, info.bsinfo);
      }
      if info.isdel {
        m_timeout.m_delCacheTime := m_timeout.m_delCacheTime[c := now + DELETE_CHARCACHE_TIMEOUT];
        Leave(c, fails);
      }
    }

    /** AddStruct: the new record is what the player last saved. */
    method Take(c: int, b: BaseInfo)
      requires Valid() && c in m_allPlayer && m_allPlayer[c].base.m_content.Some? && CharId(b.charid) == c
      modifies this`accepted, this`spoiled, Records()
      ensures Valid() && View() == old(View()).Put(c, b)
      ensures forall d :: View().Read(d) == if d == c then Some(b.fields) else old(View()).Read(d)
      ensures accepted == old(accepted)[c := b.fields] && spoiled == old(spoiled) - {c}
    {
      hide Cache.Sound, Cache.Read, Cache.AtRisk, CharId;
      ghost var k := View();
      PutKeeps(k, c, b);
      m_allPlayer[c].base.AddContent(b);
      assert View() == k.Put(c, b);
      accepted := accepted[c := b.fields];
      spoiled := spoiled - {c};
    }

    /** SetFlag and SavePlayerStruct for a player going offline. */
    method Leave(c: int, fails: set<int>)
      requires Valid() && c in m_allPlayer
      modifies Records()`m_flag, db
      ensures Valid() && View() == old(View()).Mark(c).Flush(c, fails)
      ensures (forall d :: View().Read(d) == old(View()).Read(d)) && (c !in fails ==> !View().AtRisk(c))
    {
      hide Cache.Sound, Cache.Read, Cache.AtRisk;
      ghost var k := View();
      MarkKeeps(k, c);
      m_allPlayer[c].base.m_flag := true;
      assert View() == k.Mark(c);
      FlushKeeps(View(), c, fails);
      var res := SaveOne(c, fails);
    }

    /** GetPlayerInfo: what the player last saved; a reader calls off a scheduled deletion. */
    method GetPlayerInfo(charid: int) returns (info: Option<BaseInfo>)
      requires Valid() && (charid in m_allPlayer ==> m_allPlayer[charid].base.m_content.Some?)
      modifies m_timeout`m_delCacheTime
      ensures Valid() && (info.Some? <==> charid in m_allPlayer)
      ensures info.Some? ==> Some(info.value.fields) == View().Read(charid)
                             && (charid !in spoiled ==> charid in accepted && info.value.fields == accepted[charid])
      ensures m_timeout.m_delCacheTime == if info.Some? then old(m_timeout.m_delCacheTime) - {charid}
                                          else old(m_timeout.m_delCacheTime)
    {
      if charid !in m_allPlayer {
        return None;
      }
      info := m_allPlayer[charid].base.m_content;
      m_timeout.m_delCacheTime := m_timeout.m_delCacheTime - {charid};
    }

    /** One turn of the background thread: flushes and evictions that have come due. Only a player whose write fails
        at its eviction can lose anything. */
    method Sweep(now: int, fails: set<int>)
      requires Valid()
      modifies this`m_allPlayer, this`spoiled, Records()`m_flag, db, m_timeout
      ensures Valid() && accepted == old(accepted) && Records() <= old(Records())
      ensures spoiled
              == old(spoiled) + AtRiskOf(old(View()), CacheTimeOut.Due(old(m_timeout.m_delCacheTime), now) * fails)
      ensures forall c :: c !in spoiled ==> View().Read(c) == old(View()).Read(c)
      ensures forall c :: c in CacheTimeOut.Due(old(m_timeout.m_delCacheTime), now) ==>
                c !in m_allPlayer && c !in m_timeout.m_cacheTime
      ensures SweptTo(old(View()), View(), old(m_timeout.m_cacheTime), old(m_timeout.m_delCacheTime), now, fails)
      ensures var due := CacheTimeOut.Due(old(m_timeout.m_delCacheTime), now);
              && m_timeout.m_cacheTime == PutOff(old(m_timeout.m_cacheTime) - due, now)
              && m_timeout.m_delCacheTime == old(m_timeout.m_delCacheTime) - due
    {
      hide Cache.Sound, Cache.Read, Cache.AtRisk, AtRiskOf, Tells, Cache.FlushAll, Cache.EvictAll, PutOff, SweptTo,
        CacheTimeOut.Due, CacheTimeOut.Lists;
      ghost var k, flushes, dels := View(), m_timeout.m_cacheTime, m_timeout.m_delCacheTime;
      var timeout, deltimeout := m_timeout.Collect(now);
      FlushAndEvict(timeout, deltimeout, CacheTimeOut.Due(dels, now), fails);
      SweptIs(k, flushes, dels, now, fails, timeout, deltimeout);
    }

    static lemma SweptIs(k: Cache, flushes: map<int, int>, dels: map<int, int>, now: int, fails: set<int>,
                         timeout: seq<int>, deltimeout: seq<int>)
      requires CacheTimeOut.Lists(timeout, CacheTimeOut.Due(flushes - CacheTimeOut.Due(dels, now), now))
      requires CacheTimeOut.Lists(deltimeout, CacheTimeOut.Due(dels, now))
      ensures SweptTo(k, k.FlushAll(timeout, fails).EvictAll(deltimeout, fails), flushes, dels, now, fails)
    {
      hide Cache.FlushAll, Cache.EvictAll, CacheTimeOut.Lists, CacheTimeOut.Due;
    }

    method FlushAndEvict(timeout: seq<int>, deltimeout: seq<int>, ghost due: set<int>, fails: set<int>)
      requires Valid() && CacheTimeOut.Lists(deltimeout, due)
      modifies this`m_allPlayer, this`spoiled, Records()`m_flag, db
      ensures Valid() && accepted == old(accepted) && Records() <= old(Records())
      ensures spoiled == old(spoiled) + AtRiskOf(old(View()), due * fails)
      ensures forall c :: c !in spoiled ==> View().Read(c) == old(View()).Read(c)
      ensures forall c :: c in due ==> c !in m_allPlayer
      ensures View() == old(View()).FlushAll(timeout, fails).EvictAll(deltimeout, fails)
    {
      hide Cache.Sound, Cache.Read, Cache.AtRisk, Lost, AtRiskOf, Cache.FlushAll, Cache.EvictAll, Tells;
      ghost var k := View();
      LostInSweep(k, timeout, deltimeout, due, fails);
      SaveCacheToDB(timeout, fails);
      SaveCacheAndDelete(deltimeout, fails);
      ReadsSame(k, View(), accepted, old(spoiled), spoiled);
    }

    static lemma ReadsSame(k: Cache, k': Cache, accepted: map<int, Fields>, spoiled: set<int>, spoiled': set<int>)
      requires Tells(k, accepted, spoiled) && Tells(k', accepted, spoiled') && spoiled <= spoiled'
      ensures forall c :: c !in spoiled' ==> k'.Read(c) == k.Read(c)
    {
    }

    static lemma LostInSweep(k: Cache, flushes: seq<int>, chars: seq<int>, due: set<int>, fails: set<int>)
      requires k.Sound() && forall c :: c in chars <==> c in due
      ensures Lost(k.FlushAll(flushes, fails), chars, fails) == AtRiskOf(k, due * fails)
    {
      hide Cache.Sound, Cache.AtRisk, Cache.FlushAll;
      forall c | c in fails
        ensures k.FlushAll(flushes, fails).AtRisk(c) <==> k.AtRisk(c)
      {
        FlushAllKeepsRisk(k, flushes, fails, c);
      }
    }

    /** Any run, whichever database writes fail: whatever is flushed, evicted, reloaded or deleted in the background,
        every reader finds exactly what the player last saved, those excepted who were evicted at risk and have not
        saved since. Only a failing write can put a player there. */
    method Run(events: seq<Event>) returns (ghost trace: seq<Moment>)
      requires Valid()
      modifies this, Records(), db, m_timeout
      ensures Valid() && SoundRun(events, trace) && trace[0] == old(Here()) && trace[|events|] == Here()
      ensures forall i :: 0 <= i <= |events| ==> Tells(trace[i].k, trace[i].accepted, trace[i].spoiled)
      ensures forall c :: c !in spoiled ==> View().Read(c) == if c in accepted then Some(accepted[c]) else None
      ensures old(spoiled) == {} && (forall i :: 0 <= i < |events| ==> Failing(events[i]) == {}) ==> spoiled == {}
    {
      hide Cache.Sound, Cache.Read, Tells, StepOf;
      trace := [Here()];
      var i := 0;
      while i < |events|
        invariant 0 <= i <= |events| && Valid() && fresh(Records() - old(Records()))
        invariant IsRun(events[..i], trace) && trace[0] == old(Here()) && trace[i] == Here()
        invariant forall k :: 0 <= k <= i ==> Tells(trace[k].k, trace[k].accepted, trace[k].spoiled)
        invariant forall k :: 0 <= k <= i ==> trace[k].k.Sound()
      {
        Do(events[i]);
        RunSnoc(events, i, trace, Here());
        trace := trace + [Here()];
        i := i + 1;
      }
      assert events[..i] == events;
      TellsAll();
      if old(spoiled) == {} && forall k :: 0 <= k < |events| ==> Failing(events[k]) == {} {
        NothingSpoiled(events, trace);
      }
    }

    lemma TellsAll()
      requires Valid()
      ensures forall c :: c !in spoiled ==> View().Read(c) == if c in accepted then Some(accepted[c]) else None
    {
    }

    static lemma RunSnoc(events: seq<Event>, i: nat, trace: seq<Moment>, m: Moment)
      requires i < |events| && IsRun(events[..i], trace) && StepOf(events[i], trace[i], m)
      ensures IsRun(events[..i + 1], trace + [m])
    {
      hide StepOf;
    }

    ghost function Here(): Moment
      requires Formed()
      reads this, Records(), db, m_timeout
    {
      Moment(View(), accepted, spoiled, m_timeout.m_cacheTime, m_timeout.m_delCacheTime)
    }

    lemma ViewKnows()
      requires Valid()
      ensures forall c :: c in View().entries <==> c in m_allPlayer
      ensures forall c :: c in m_allPlayer ==> View().entries[c].content == m_allPlayer[c].base.m_content
    {
    }

    /** A save; one that the cache cannot take is left out. */
    method Save(info: SaveTypeInfo, now: int, fails: set<int>)
      requires Valid()
      modifies this`accepted, this`spoiled, Records(), db, m_timeout`m_delCacheTime
      ensures Valid() && m_allPlayer == old(m_allPlayer)
      ensures StepOf(SaveEvent(info, now, fails), old(Here()), Here())
    {
      hide Cache.Sound, Cache.Read, Cache.AtRisk, HasBit, Tells, SavedTo, CharId;
      ViewKnows();
      var c := CharId(info.id);
      if c in m_allPlayer && (m_allPlayer[c].base.m_content.None? || CharId(info.bsinfo.charid) != c) {
        return;
      }
      SaveToCache(info, now, fails);
    }

    /** A login, by the id of an account. */
    method Enter(id: int, now: int)
      requires Valid()
      modifies this`m_allPlayer, m_timeout`m_cacheTime
      ensures Valid() && fresh(Records() - old(Records())) && StepOf(LoginEvent(id, now), old(Here()), Here())
    {
      hide Cache.Sound, Cache.Read, Cache.AtRisk, Cache.Load, Tells;
      ViewKnows();
      CharIdOf(0, id);
      Login(CharId(id), now);
    }

    /** A reader asks for a player; without a record there is nothing to read. */
    method Look(c: int)
      requires Valid()
      modifies m_timeout`m_delCacheTime
      ensures Valid() && StepOf(ReadEvent(c), old(Here()), Here())
    {
      hide Cache.Sound, Cache.Read, Tells;
      ViewKnows();
      if c in m_allPlayer && m_allPlayer[c].base.m_content.Some? {
        var info := GetPlayerInfo(c);
      }
    }

    /** One event. */
    method Do(e: Event)
      requires Valid()
      modifies this, Records(), db, m_timeout
      ensures Valid() && fresh(Records() - old(Records())) && StepOf(e, old(Here()), Here())
    {
      hide Cache.Sound, Cache.Read, Tells, SweptTo, PutOff, AtRiskOf, CharId, Proper, Takes, CacheTimeOut.Due;
      match e {
        case LoginEvent(id, now) =>
          Enter(id, now);
        case SaveEvent(info, now, fails) =>
          Save(info, now, fails);
        case ReadEvent(c) =>
          Look(c);
        case SweepEvent(now, fails) =>
          Sweep(now, fails);
      }
    }
  }
}
