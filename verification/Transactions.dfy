/** One limited table under transactions that overlap: each inserts its row, trims by what it can
    see, and commits or rolls back later. Nothing of it is visible, or in force, before it commits. */
module Transactions {
  import opened Sets
  import opened TableLimits

  /** A transaction under way: the row it inserted and the rows it has deleted. */
  datatype Tx = Tx(own: int, deleted: set<int>)

  /** Ids of the rows committed and not deleted, of all rows ever committed, and of all ever issued. */
  datatype TableState = TableState(live: set<int>, log: set<int>, issued: set<int>, open: map<int, Tx>)

  datatype Event =
    | Insert(t: int, id: int)
    | Trim(t: int, view: set<int>)
    | Commit(t: int)
    | Rollback(t: int)

  function Next(s: TableState, e: Event, fixed: int, maximum: int): TableState {
    match e
    case Insert(t, id) =>
      if t in s.open || id in s.issued then s
      else s.(issued := s.issued + {id}, open := s.open[t := Tx(id, {})])
    case Trim(t, view) =>
      if t !in s.open then s
      else
        var tx := s.open[t];
        s.(open := s.open[t := tx.(deleted := tx.deleted + ToDelete(view * s.log + {tx.own}, fixed, maximum))])
    case Commit(t) =>
      if t !in s.open then s
      else
        var tx := s.open[t];
        s.(live := s.live + {tx.own} - tx.deleted, log := s.log + {tx.own}, open := s.open - {t})
    case Rollback(t) =>
      s.(open := s.open - {t})
  }

  function Play(s: TableState, events: seq<Event>, fixed: int, maximum: int): TableState
    decreases |events|
  {
    if events == [] then s else Play(Next(s, events[0], fixed, maximum), events[1..], fixed, maximum)
  }

  ghost predicate Safe(s: TableState, fixed: int, maximum: int) {
    && Kept(s.log, fixed, maximum) <= s.live <= s.log <= s.issued
    && (forall t :: t in s.open ==>
          && s.open[t].own in s.issued && s.open[t].own !in s.log
          && s.open[t].deleted <= ToDelete(s.log + {s.open[t].own}, fixed, maximum))
    && (forall t, u :: t in s.open && u in s.open && t != u ==> s.open[t].own != s.open[u].own)
  }

  lemma TrimIsSafe(s: TableState, e: Event, fixed: int, maximum: int)
    requires Safe(s, fixed, maximum) && e.Trim?
    ensures Safe(Next(s, e, fixed, maximum), fixed, maximum)
  {
    if e.t in s.open {
      var tx := s.open[e.t];
      ToDeleteMonotone(e.view * s.log + {tx.own}, s.log + {tx.own}, fixed, maximum);
    }
  }

  lemma CommitIsSafe(s: TableState, e: Event, fixed: int, maximum: int)
    requires Safe(s, fixed, maximum) && e.Commit?
    ensures Safe(Next(s, e, fixed, maximum), fixed, maximum)
  {
    if e.t in s.open {
      var tx, s' := s.open[e.t], Next(s, e, fixed, maximum);
      ToDeleteMonotone(s.log, s'.log, fixed, maximum);
      forall t | t in s'.open
        ensures s'.open[t].deleted <= ToDelete(s'.log + {s'.open[t].own}, fixed, maximum)
      {
        ToDeleteMonotone(s.log + {s.open[t].own}, s'.log + {s.open[t].own}, fixed, maximum);
      }
    }
  }

  lemma NextIsSafe(s: TableState, e: Event, fixed: int, maximum: int)
    requires Safe(s, fixed, maximum)
    ensures Safe(Next(s, e, fixed, maximum), fixed, maximum)
  {
    match e
    case Trim(_, _) => TrimIsSafe(s, e, fixed, maximum);
    case Commit(_) => CommitIsSafe(s, e, fixed, maximum);
    case _ =>
  }

  /** However transactions overlap, roll back, or commit out of order, and however little each trim
      sees, no row is lost that is protected or among the newest `maximum` ever committed. */
  lemma {:induction false} OverlappingTrimsAreSafe(s: TableState, events: seq<Event>, fixed: int, maximum: int)
    requires Safe(s, fixed, maximum)
    ensures var s' := Play(s, events, fixed, maximum);
      && Safe(s', fixed, maximum)
      && (0 < maximum ==> Low(s'.log, fixed) + Newest(s'.log, maximum) <= s'.live)
      && (maximum <= 0 ==> s'.live == s'.log)
    decreases |events|
  {
    if events != [] {
      NextIsSafe(s, events[0], fixed, maximum);
      OverlappingTrimsAreSafe(Next(s, events[0], fixed, maximum), events[1..], fixed, maximum);
    }
  }

  /** Once a transaction has run alone and its trim has seen the whole table, the table is exactly
      the log trimmed once, whatever the overlaps before it left behind. */
  lemma LoneTransactionHeals(s: TableState, t: int, id: int, fixed: int, maximum: int)
    requires Safe(s, fixed, maximum) && t !in s.open && id !in s.issued
    ensures var s' := Play(s, [Insert(t, id), Trim(t, s.live), Commit(t)], fixed, maximum);
      && s'.log == s.log + {id}
      && s'.live == Kept(s'.log, fixed, maximum)
  {
    var a, b, c := Insert(t, id), Trim(t, s.live), Commit(t);
    var s1 := Next(s, a, fixed, maximum);
    var s2 := Next(s1, b, fixed, maximum);
    var s3 := Next(s2, c, fixed, maximum);
    assert [a, b, c][1..] == [b, c] && [b, c][1..] == [c] && [c][1..] == [];
    assert Play(s, [a, b, c], fixed, maximum) == Play(s1, [b, c], fixed, maximum);
    assert Play(s1, [b, c], fixed, maximum) == Play(s2, [c], fixed, maximum) == s3;
    assert s.live * s.log == s.live;
    WholeTrimIsExact(s.live, s.log, {id}, fixed, maximum);
  }

  /** Rolling back undoes everything: no table changes, also for the transactions still open, and the
      row is neither live nor logged, then or ever after. */
  lemma RolledBackStaysAway(s: TableState, t: int, events: seq<Event>, fixed: int, maximum: int)
    requires Safe(s, fixed, maximum) && t in s.open
    ensures var rolled := Next(s, Rollback(t), fixed, maximum);
      && rolled.live == s.live && rolled.log == s.log && rolled.open == s.open - {t}
      && var s' := Play(rolled, events, fixed, maximum); s.open[t].own !in s'.log && s.open[t].own !in s'.live
  {
    UnopenedStaysAway(Next(s, Rollback(t), fixed, maximum), events, s.open[t].own, fixed, maximum);
  }

  lemma {:induction false} UnopenedStaysAway(s: TableState, events: seq<Event>, id: int, fixed: int, maximum: int)
    requires id in s.issued && id !in s.log && id !in s.live
    requires forall t :: t in s.open ==> s.open[t].own != id
    ensures var s' := Play(s, events, fixed, maximum); id !in s'.log && id !in s'.live
    decreases |events|
  {
    if events != [] {
      UnopenedStaysAway(Next(s, events[0], fixed, maximum), events[1..], id, fixed, maximum);
    }
  }
}
