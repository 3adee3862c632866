/**
  All-time totals per action over the `stats` log
  (`SELECT action, SUM(count) FROM stats GROUP BY action`), and the lookup
  with default 0 that the statistics page uses.
 */
module Stats {
  import opened Schema

  /** SUM(count) over the events with action `a`; 0 when there is none. */
  function Total(log: seq<StatEvent>, a: Action): int
  {
    if log == [] then 0
    else (if log[0].action == a then log[0].count else 0) + Total(log[1..], a)
  }

  /** Some event of the log has action `a`. */
  predicate Occurs(log: seq<StatEvent>, a: Action)
  {
    exists i :: 0 <= i < |log| && log[i].action == a
  }

  /**
    get_stats: one entry per action that occurs in the log (GROUP BY yields no
    group for an absent action), mapped to the sum of its counts.
   */
  function GetStats(log: seq<StatEvent>): (r: map<Action, int>)
    ensures forall a :: a in r <==> Occurs(log, a)
    ensures forall a :: a in r ==> r[a] == Total(log, a)
  {
    var r := map a | a in (set e | e in log :: e.action) :: Total(log, a);
    assert forall a :: Occurs(log, a) ==> a in r by {
      forall a | Occurs(log, a) ensures a in r {
        var i :| 0 <= i < |log| && log[i].action == a;
        assert log[i] in log;
      }
    }
    r
  }

  /** `stats_data.get(action, 0)`. */
  function Reported(stats: map<Action, int>, a: Action): int
  {
    if a in stats then stats[a] else 0
  }

  /** An action with no event totals 0. */
  lemma {:induction false} TotalAbsent(log: seq<StatEvent>, a: Action)
    requires !Occurs(log, a)
    ensures Total(log, a) == 0
  {
    if log != [] {
      assert log[0].action != a;
      forall i | 0 <= i < |log[1..]| ensures log[1..][i].action != a {
        assert log[1..][i] == log[i + 1];
      }
      TotalAbsent(log[1..], a);
    }
  }

  /** The figure shown for an action is its total over the whole log, present or not. */
  lemma {:induction false} ReportedIsTotal(log: seq<StatEvent>, a: Action)
    ensures Reported(GetStats(log), a) == Total(log, a)
  {
    if !Occurs(log, a) {
      TotalAbsent(log, a);
    }
  }

  /** Appending an event adds its count to its own action's total and nothing to the others. */
  lemma {:induction false} TotalAppend(log: seq<StatEvent>, e: StatEvent, a: Action)
    ensures Total(log + [e], a) == Total(log, a) + (if e.action == a then e.count else 0)
  {
    if log == [] {
      assert [] + [e] == [e];
      assert [e][1..] == [];
    } else {
      assert (log + [e])[1..] == log[1..] + [e];
      TotalAppend(log[1..], e, a);
    }
  }

  /** The same, read through get_stats and the default of 0. */
  lemma ReportedAfterAppend(log: seq<StatEvent>, e: StatEvent, a: Action)
    ensures Reported(GetStats(log + [e]), a) == Reported(GetStats(log), a) + (if e.action == a then e.count else 0)
  {
    ReportedIsTotal(log + [e], a);
    ReportedIsTotal(log, a);
    TotalAppend(log, e, a);
  }

  /** The action column of the log, in order. */
  function ActionsOf(log: seq<StatEvent>): seq<Action>
  {
    seq(|log|, i requires 0 <= i < |log| => log[i].action)
  }

  /**
    With every count equal to 1, SUM(count) of an action is the number of its
    events.
   */
  lemma {:induction false} TotalCountsEvents(log: seq<StatEvent>, a: Action)
    requires UnitCounts(log)
    ensures Total(log, a) == multiset(ActionsOf(log))[a]
  {
    if log != [] {
      assert UnitCounts(log[1..]) by {
        forall i | 0 <= i < |log[1..]| ensures log[1..][i].count == 1 {
          assert log[1..][i] == log[i + 1];
        }
      }
      TotalCountsEvents(log[1..], a);
      assert ActionsOf(log) == [log[0].action] + ActionsOf(log[1..]);
    }
  }
}
