/** Who watches whom among the players online (GameServer/src/Friend/FriendMessage.cpp): an index by target that
    events are dispatched from, and a list by watcher that lets a leaving player be forgotten. */
module WatchIndex {
  import opened Collections

  /** A watcher and its target. */
  type Pair = (int, int)

  /** The index holds exactly these pairs, and no empty sets. */
  ghost predicate Indexed(list: map<int, set<int>>, pairs: set<Pair>) {
    && (forall t :: t in list ==> list[t] != {})
    && (forall s, t :: (s, t) in pairs <==> t in list && s in list[t])
  }

  /** The lists by watcher hold at least these pairs: a cancelled pair may stay behind. */
  ghost predicate Covered(own: map<int, set<int>>, pairs: set<Pair>) {
    forall s, t :: (s, t) in pairs ==> s in own && t in own[s]
  }

  /** The index is determined by the pairs. */
  lemma IndexUnique(a: map<int, set<int>>, b: map<int, set<int>>, pairs: set<Pair>)
    requires Indexed(a, pairs) && Indexed(b, pairs)
    ensures a == b
  {
    forall t | t in a
      ensures t in b && a[t] == b[t]
    {
      SameRow(a, b, pairs, t);
    }
    forall t | t in b
      ensures t in a
    {
      SameRow(b, a, pairs, t);
    }
  }

  lemma SameRow(a: map<int, set<int>>, b: map<int, set<int>>, pairs: set<Pair>, t: int)
    requires Indexed(a, pairs) && Indexed(b, pairs) && t in a
    ensures t in b && a[t] == b[t]
  {
    var s := Pick(a[t]);
    assert (s, t) in pairs;
    forall x
      ensures x in a[t] <==> x in b[t]
    {
      assert (x, t) in pairs <==> x in a[t];
    }
  }

  /** What is left of an index when one pair goes. */
  function Unwatched(list: map<int, set<int>>, s: int, t: int): map<int, set<int>> {
    if t !in list then list
    else if list[t] - {s} == {} then list - {t}
    else list[t := list[t] - {s}]
  }

  lemma UnwatchedKeeps(list: map<int, set<int>>, pairs: set<Pair>, s: int, t: int)
    requires Indexed(list, pairs)
    ensures Indexed(Unwatched(list, s, t), pairs - {(s, t)})
  {
    var list' := Unwatched(list, s, t);
    forall x, y
      ensures (x, y) in pairs - {(s, t)} <==> y in list' && x in list'[y]
    {
      assert (x, y) in pairs <==> y in list && x in list[y];
      if y == t && t in list && x != s && x in list[t] {
        assert x in list[t] - {s};
      }
    }
  }

  /** What the players have asked for, as a plain relation. */
  datatype Event = Watch(s: int, t: int) | Cancel(s: int, t: int) | Clear(s: int)

  function Related(pairs: set<Pair>, e: Event): set<Pair> {
    match e
    case Watch(s, t) => pairs + {(s, t)}
    case Cancel(s, t) => pairs - {(s, t)}
    case Clear(s) => set p | p in pairs && p.0 != s
  }

  function RelatedAll(pairs: set<Pair>, es: seq<Event>): set<Pair>
    decreases |es|
  {
    if es == [] then pairs else Related(RelatedAll(pairs, es[..|es| - 1]), es[|es| - 1])
  }

  lemma NoneOf(pairs: set<Pair>, s: int)
    requires forall t :: (s, t) !in pairs
    ensures forall p :: p in pairs ==> p.0 != s
  {
    forall p | p in pairs
      ensures p.0 != s
    {
      var (a, b) := p;
      assert (a, b) in pairs;
    }
  }

  class FriendMessage {
    var m_event_list: map<int, set<int>>
    var m_watch_list: map<int, set<int>>
    ghost var pairs: set<Pair>

    ghost predicate Valid()
      reads this
    {
      Indexed(m_event_list, pairs) && Covered(m_watch_list, pairs)
    }

    constructor ()
      ensures Valid() && pairs == {}
    {
      m_event_list, m_watch_list, pairs := map[], map[], {};
    }

    method DoWatch(selfID: int, targetID: int)
      requires Valid()
      modifies this
      ensures Valid() && pairs == Related(old(pairs), Watch(selfID, targetID))
    {
      if targetID !in m_event_list {
        m_event_list := m_event_list[targetID := {}];
      }
      if selfID !in m_event_list[targetID] {
        m_event_list := m_event_list[targetID := m_event_list[targetID] + {selfID}];
        var myWatch := if selfID in m_watch_list then m_watch_list[selfID] else {};
        m_watch_list := m_watch_list[selfID := myWatch + {targetID}];
      }
      pairs := pairs + {(selfID, targetID)};
    }

    /** Takes a pair out of the index only. */
    method CancelWatch(selfID: int, targetID: int)
      requires Valid()
      modifies this`m_event_list, this`pairs
      ensures Valid() && pairs == Related(old(pairs), Cancel(selfID, targetID))
    {
      UnwatchedKeeps(m_event_list, pairs, selfID, targetID);
      pairs := pairs - {(selfID, targetID)};
      if targetID !in m_event_list {
        return;
      }
      var left := m_event_list[targetID] - {selfID};
      if left == {} {
        m_event_list := m_event_list - {targetID};
      } else {
        m_event_list := m_event_list[targetID := left];
      }
    }

    /** Takes out every pair of a watcher: its own list is enough to find them all. */
    method ClearWatch(charID: int)
      requires Valid()
      modifies this
      ensures Valid() && pairs == Related(old(pairs), Clear(charID))
      ensures charID !in m_watch_list
    {
      if charID !in m_watch_list {
        NoneOf(pairs, charID);
        assert Related(pairs, Clear(charID)) == pairs;
        return;
      }
      var todo := m_watch_list[charID];
      while todo != {}
        invariant Valid() && m_watch_list == old(m_watch_list)
        invariant pairs <= old(pairs)
        invariant forall p :: p in old(pairs) - pairs ==> p.0 == charID
        invariant forall t :: (charID, t) in pairs ==> t in todo
        decreases |todo|
      {
        LeastExists(todo);
        var t :| Least(t, todo);
        CancelWatch(charID, t);
        todo := todo - {t};
      }
      NoneOf(pairs, charID);
      assert pairs == Related(old(pairs), Clear(charID));
      m_watch_list := m_watch_list - {charID};
    }

    /** dispatchEvent: each watcher of the player is told once, in order, and nobody else. */
    method DispatchEvent(charID: int) returns (told: seq<int>)
      requires Valid()
      ensures forall s :: s in told <==> (s, charID) in pairs
      ensures forall i, j :: 0 <= i < j < |told| ==> told[i] < told[j]
    {
      told := [];
      if charID !in m_event_list {
        return;
      }
      var todo := m_event_list[charID];
      while todo != {}
        invariant todo <= m_event_list[charID]
        invariant forall s :: s in told <==> s in m_event_list[charID] - todo
        invariant forall i, x :: 0 <= i < |told| && x in todo ==> told[i] < x
        invariant forall i, j :: 0 <= i < j < |told| ==> told[i] < told[j]
        decreases |todo|
      {
        LeastExists(todo);
        var s :| Least(s, todo);
        told := told + [s];
        todo := todo - {s};
      }
    }

    /** GetFriendWatchSelf. */
    method GetFriendWatchSelf(charID: int) returns (rc: int, watchSelf: set<int>)
      requires Valid()
      ensures rc == if exists s :: (s, charID) in pairs then 0 else -1
      ensures forall s :: s in watchSelf <==> (s, charID) in pairs
    {
      if charID !in m_event_list || m_event_list[charID] == {} {
        return -1, {};
      }
      rc, watchSelf := 0, m_event_list[charID];
      var s := Pick(watchSelf);
      assert (s, charID) in pairs;
    }

    /** Any run of requests: the index is always the one of the plain relation. */
    method Run(es: seq<Event>)
      requires Valid()
      modifies this
      ensures Valid() && pairs == RelatedAll(old(pairs), es)
    {
      var i := 0;
      assert es[..0] == [];
      while i < |es|
        invariant 0 <= i <= |es| && Valid() && pairs == RelatedAll(old(pairs), es[..i])
      {
        assert es[..i + 1][..i] == es[..i];
        match es[i] {
          case Watch(s, t) => DoWatch(s, t);
          case Cancel(s, t) => CancelWatch(s, t);
          case Clear(s) => ClearWatch(s);
        }
        i := i + 1;
      }
      assert es[..i] == es;
    }
  }
}
