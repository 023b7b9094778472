/** The size limit of a table: which rows `DELETE ... WHERE id NOT IN (newest N) AND id > fixed`
    removes, and why removing them insert by insert, from stale views and in any order
    loses no row the limit promises to keep. */
module TableLimits {
  import opened Sets

  /** The ids that come before `id` in `ORDER BY id DESC`. */
  function Newer(ids: set<int>, id: int): set<int> {
    set i | i in ids && id < i
  }

  /** `SELECT id ... ORDER BY id DESC LIMIT k`, as a set: the ids with fewer than k newer ones. */
  function Newest(ids: set<int>, k: int): set<int> {
    set i | i in ids && |Newer(ids, i)| < k
  }

  function ToDelete(ids: set<int>, fixed: int, maximum: int): set<int> {
    if maximum <= 0 then {} else set i | i in ids && i !in Newest(ids, maximum) && fixed < i
  }

  function Kept(ids: set<int>, fixed: int, maximum: int): set<int> {
    ids - ToDelete(ids, fixed, maximum)
  }

  function Low(ids: set<int>, fixed: int): set<int> {
    set i | i in ids && i <= fixed
  }

  function High(ids: set<int>, fixed: int): set<int> {
    set i | i in ids && fixed < i
  }

  function Min(a: int, b: int): int { if a <= b then a else b }

  // ---------- Cardinality ----------

  lemma {:induction false} LeastExists(s: set<int>) returns (m: int)
    requires s != {}
    ensures m in s && forall i :: i in s ==> m <= i
  {
    m := Pick(s);
    if s != {m} {
      var rest := s - {m};
      assert s == rest + {m};
      var n := LeastExists(rest);
      m := Min(m, n);
    }
  }

  lemma {:induction false} SizeOfRange(s: set<int>, top: int)
    requires 0 <= top
    requires forall i :: i in s ==> 1 <= i <= top
    ensures |s| <= top
  {
    if top == 0 {
      if s != {} { var i := Pick(s); }
    } else {
      SizeOfRange(s - {top}, top - 1);
    }
  }

  // ---------- The shape of one trim ----------

  /** LIMIT k yields k rows, or all of them if there are fewer. */
  lemma {:induction false} NewestSize(ids: set<int>, k: int)
    ensures 0 <= k ==> |Newest(ids, k)| == Min(|ids|, k)
    decreases |ids|
  {
    if 0 <= k && ids != {} {
      var m := LeastExists(ids);
      var rest := ids - {m};
      NewestSize(rest, k);
      forall i | i in rest ensures Newer(ids, i) == Newer(rest, i) {}
      assert Newer(ids, m) == rest;
      assert Newest(ids, k) == if |rest| < k then Newest(rest, k) + {m} else Newest(rest, k);
    }
  }

  /** The newest k ids are closed upwards: whatever is newer than one of them is one of them. */
  lemma NewestUpClosed(ids: set<int>, k: int, i: int, j: int)
    requires i in Newest(ids, k) && j in ids && i <= j
    ensures j in Newest(ids, k)
  {
    SubsetSize(Newer(ids, j), Newer(ids, i));
  }

  /** The clause ranks ids over the whole table, yet it keeps exactly the protected rows
      and the newest `maximum` of the unprotected ones. */
  lemma KeptExactly(ids: set<int>, fixed: int, maximum: int)
    requires 0 < maximum
    ensures Kept(ids, fixed, maximum) == Low(ids, fixed) + Newest(High(ids, fixed), maximum)
  {
    forall i | i in High(ids, fixed) ensures Newer(ids, i) == Newer(High(ids, fixed), i) {}
  }

  lemma KeptSize(ids: set<int>, fixed: int, maximum: int)
    requires 0 < maximum
    ensures |Kept(ids, fixed, maximum)| == |Low(ids, fixed)| + Min(|High(ids, fixed)|, maximum)
    ensures |ToDelete(ids, fixed, maximum)| == |High(ids, fixed)| - Min(|High(ids, fixed)|, maximum)
    ensures 0 <= fixed && (forall i :: i in ids ==> 1 <= i) ==> |Kept(ids, fixed, maximum)| <= fixed + maximum
  {
    KeptExactly(ids, fixed, maximum);
    NewestSize(High(ids, fixed), maximum);
    assert ids == Low(ids, fixed) + High(ids, fixed);
    assert ids == Kept(ids, fixed, maximum) + ToDelete(ids, fixed, maximum);
    if 0 <= fixed && (forall i :: i in ids ==> 1 <= i) {
      SizeOfRange(Low(ids, fixed), fixed);
    }
  }

  lemma KeptOne(ids: set<int>, newest: int)
    requires newest in ids && forall i :: i in ids ==> 0 < i <= newest
    ensures Kept(ids, 0, 1) == {newest}
  {
    assert Newer(ids, newest) == {};
    forall i | i in ids && i != newest ensures i !in Newest(ids, 1) {
      SubsetSize({newest}, Newer(ids, i));
    }
  }

  /** Deleting is monotone in what the transaction sees: a partial view deletes nothing more. */
  lemma ToDeleteMonotone(view: set<int>, ids: set<int>, fixed: int, maximum: int)
    requires view <= ids
    ensures ToDelete(view, fixed, maximum) <= ToDelete(ids, fixed, maximum)
  {
    forall i | i in ToDelete(view, fixed, maximum) ensures i in ToDelete(ids, fixed, maximum) {
      SubsetSize(Newer(view, i), Newer(ids, i));
    }
  }

  /** A trim by any view leaves in place every row that a trim by the whole history would keep. */
  lemma PartialTrimKeeps(view: set<int>, live: set<int>, history: set<int>, own: int, fixed: int, maximum: int)
    requires view <= history + {own}
    requires Kept(history, fixed, maximum) <= live
    ensures Kept(history + {own}, fixed, maximum) <= live + {own} - ToDelete(view, fixed, maximum)
  {
    ToDeleteMonotone(history, history + {own}, fixed, maximum);
    ToDeleteMonotone(view, history + {own}, fixed, maximum);
  }

  /** What the newest rows hide stays hidden: counting rows newer than x only up to `maximum`,
      a trimmed table answers as the full one. */
  lemma NewerAfterTrim(ids: set<int>, added: set<int>, x: int, fixed: int, maximum: int)
    requires 0 < maximum
    requires maximum <= |Newer(ids + added, x)|
    ensures maximum <= |Newer(Kept(ids, fixed, maximum) + added, x)|
  {
    var kept := Kept(ids, fixed, maximum);
    if y :| y in Newest(ids, maximum) && y <= x {
      forall z | z in Newer(ids, x) ensures z in kept {
        NewestUpClosed(ids, maximum, y, z);
      }
      assert Newer(kept + added, x) == Newer(ids + added, x);
    } else {
      NewestSize(ids, maximum);
      if |ids| <= maximum {
        SubsetSize(Newest(ids, maximum), ids);
        assert kept == ids;
      } else {
        SubsetSize(Newest(ids, maximum), Newer(kept + added, x));
      }
    }
  }

  /** A trim that reads the whole table makes it exactly the log trimmed once, whatever partial
      trims before it left behind. The ids of the new rows need not be greater than the old ones. */
  lemma WholeTrimIsExact(live: set<int>, log: set<int>, added: set<int>, fixed: int, maximum: int)
    requires Kept(log, fixed, maximum) <= live <= log
    ensures Kept(live + added, fixed, maximum) == Kept(log + added, fixed, maximum)
  {
    if 0 < maximum {
      var kept := Kept(log, fixed, maximum);
      ToDeleteMonotone(log, log + added, fixed, maximum);
      ToDeleteMonotone(live + added, log + added, fixed, maximum);
      forall x | x in live + added && x in ToDelete(log + added, fixed, maximum)
        ensures x in ToDelete(live + added, fixed, maximum)
      {
        NewerAfterTrim(log, added, x, fixed, maximum);
        SubsetSize(Newer(kept + added, x), Newer(live + added, x));
      }
    }
  }

  /** Trimming after every insert gives what one trim of the whole log would give. */
  lemma IncrementalTrim(ids: set<int>, added: set<int>, fixed: int, maximum: int)
    ensures Kept(Kept(ids, fixed, maximum) + added, fixed, maximum) == Kept(ids + added, fixed, maximum)
  {
    WholeTrimIsExact(Kept(ids, fixed, maximum), ids, added, fixed, maximum);
  }

  lemma TrimIdempotent(ids: set<int>, fixed: int, maximum: int)
    ensures Kept(Kept(ids, fixed, maximum), fixed, maximum) == Kept(ids, fixed, maximum)
  {
    IncrementalTrim(ids, {}, fixed, maximum);
    assert Kept(ids, fixed, maximum) + {} == Kept(ids, fixed, maximum) && ids + {} == ids;
  }

  /** The row just inserted survives its own trim, and it displaces at most one other row. */
  lemma InsertEvictsAtMostOne(ids: set<int>, id: int, fixed: int, maximum: int)
    requires id !in ids && (forall i :: i in ids ==> i < id)
    requires Kept(ids, fixed, maximum) == ids
    ensures id in Kept(ids + {id}, fixed, maximum)
    ensures |ToDelete(ids + {id}, fixed, maximum)| <= 1
  {
    if 0 < maximum {
      assert Newer(ids + {id}, id) == {};
      KeptSize(ids, fixed, maximum);
      assert ToDelete(ids, fixed, maximum) == {};
      KeptSize(ids + {id}, fixed, maximum);
      if fixed < id {
        assert High(ids + {id}, fixed) == High(ids, fixed) + {id};
      } else {
        assert High(ids + {id}, fixed) == {};
      }
    }
  }

  /** A table that lost only rows the log has `maximum` newer ones for answers every query for
      its newest rows, up to `maximum`, as the log would. */
  lemma BetweenKeptAndLog(live: set<int>, log: set<int>, limit: int, fixed: int, maximum: int)
    requires Kept(log, fixed, maximum) <= live <= log
    requires maximum <= 0 || limit <= maximum
    ensures maximum <= 0 ==> live == log
    ensures 0 < maximum ==> Low(live, fixed) == Low(log, fixed)
    ensures Newest(live, limit) == Newest(log, limit)
  {
    if 0 < maximum {
      var kept := Kept(log, fixed, maximum);
      forall i | i in live ensures i in Newest(live, limit) <==> i in Newest(log, limit) {
        if i in Newest(log, maximum) {
          forall j | j in Newer(log, i) ensures j in kept { NewestUpClosed(log, maximum, i, j); }
          assert Newer(live, i) == Newer(log, i);
        } else {
          assert kept + {} == kept && log + {} == log;
          NewerAfterTrim(log, {}, i, fixed, maximum);
          SubsetSize(Newer(kept, i), Newer(live, i));
        }
      }
      forall i | i in Newest(log, limit) ensures i in live { assert i in Newest(log, maximum); }
    }
  }

  // ---------- The first rows ----------

  function Older(ids: set<int>, id: int): set<int> {
    set i | i in ids && i < id
  }

  /** The first k rows: those with fewer than k older ones. */
  function Oldest(ids: set<int>, k: int): set<int> {
    set i | i in ids && |Older(ids, i)| < k
  }

  /** The oldest unprotected row goes when there are too many of them. */
  lemma OldestUnprotectedRow(ids: set<int>, fixed: int, maximum: int) returns (h: int)
    requires 0 < maximum < |High(ids, fixed)|
    ensures h in ids && Older(ids, h) == Low(ids, fixed)
    ensures h !in Kept(ids, fixed, maximum)
  {
    var high := High(ids, fixed);
    h := LeastExists(high);
    assert h !in Newest(high, maximum) by {
      forall i | i in high - {h} ensures i in Newer(high, h) {}
      SubsetSize(high - {h}, Newer(high, h));
    }
    KeptExactly(ids, fixed, maximum);
    forall i | i in Older(ids, h) ensures i in Low(ids, fixed) { assert i in high || i <= fixed; }
    forall i | i in Low(ids, fixed) ensures i in Older(ids, h) {}
  }

  /** The documented promise that the first `fixed` rows are never deleted, exactly: a trim keeps it
      unless there are too many unprotected rows and a gap in the protected ids. */
  lemma FirstRowsKeptExactlyWhen(ids: set<int>, fixed: int, maximum: int)
    requires 0 <= fixed && forall i :: i in ids ==> 1 <= i
    ensures Oldest(ids, fixed) <= Kept(ids, fixed, maximum) <==>
            maximum <= 0 || |High(ids, fixed)| <= maximum || |Low(ids, fixed)| == fixed
  {
    var low, high := Low(ids, fixed), High(ids, fixed);
    SizeOfRange(low, fixed);
    if maximum <= 0 {
    } else if |high| <= maximum {
      KeptSize(ids, fixed, maximum);
      assert ToDelete(ids, fixed, maximum) == {};
    } else if |low| == fixed {
      forall i | i in Oldest(ids, fixed) ensures i in Kept(ids, fixed, maximum) {
        if fixed < i { SubsetSize(low, Older(ids, i)); }
      }
    } else {
      var h := OldestUnprotectedRow(ids, fixed, maximum);
      assert h in Oldest(ids, fixed);
    }
  }

  // ---------- ORDER BY ... DESC LIMIT as a loop ----------

  /** a is listed before b in `ORDER BY rank DESC`, ties broken by the newer id. */
  predicate Before(rank: map<int, int>, a: int, b: int)
    requires a in rank && b in rank
  {
    rank[b] < rank[a] || (rank[a] == rank[b] && b < a)
  }

  ghost predicate InOrder(rank: map<int, int>, top: seq<int>) {
    && (forall i :: 0 <= i < |top| ==> top[i] in rank)
    && (forall i, j :: 0 <= i < j < |top| ==> Before(rank, top[i], top[j]))
  }

  /** The answer of `ORDER BY rank DESC LIMIT limit`: in order, as long as allowed, nothing skipped. */
  ghost predicate IsTop(rank: map<int, int>, limit: nat, top: seq<int>) {
    && InOrder(rank, top)
    && |top| == Min(limit, |rank|)
    && (forall t, x :: t in top && x in rank && x !in top ==> Before(rank, t, x))
  }

  method SelectTop(rank: map<int, int>, limit: nat) returns (top: seq<int>)
    ensures IsTop(rank, limit, top)
  {
    top := [];
    var rest := rank.Keys;
    while |top| < limit && rest != {}
      invariant rest <= rank.Keys && |top| + |rest| == |rank|
      invariant |top| <= limit
      invariant InOrder(rank, top)
      invariant forall x :: x in rank ==> (x in rest <==> x !in top)
      invariant forall t, x :: t in top && x in rest ==> Before(rank, t, x)
      decreases |rest|
    {
      ghost var w := Pick(rest);
      var best :| best in rest;
      var others := rest - {best};
      while others != {}
        invariant best in rest && others <= rest
        invariant forall x :: x in rest && x !in others && x != best ==> Before(rank, best, x)
        decreases others
      {
        ghost var w := Pick(others);
        var x :| x in others;
        others := others - {x};
        if x != best && Before(rank, x, best) {
          best := x;
        }
      }
      top := top + [best];
      rest := rest - {best};
    }
  }

  /** The rows listed before `x`. */
  function Ahead(rank: map<int, int>, x: int): set<int>
    requires x in rank
  {
    set i | i in rank && Before(rank, i, x)
  }

  /** The first k rows of the listing, as a set. */
  function First(rank: map<int, int>, k: int): set<int> {
    set i | i in rank && |Ahead(rank, i)| < k
  }

  lemma {:induction false} LastExists(rank: map<int, int>, s: set<int>) returns (last: int)
    requires s != {} && s <= rank.Keys
    ensures last in s && forall i :: i in s && i != last ==> Before(rank, i, last)
  {
    var x := Pick(s);
    last := x;
    if s != {x} {
      assert s == (s - {x}) + {x};
      var l := LastExists(rank, s - {x});
      last := if Before(rank, l, x) then x else l;
    }
  }

  lemma AllButLast(rank: map<int, int>, last: int, k: int)
    requires last in rank && forall i :: i in rank && i != last ==> Before(rank, i, last)
    ensures var rest := rank - {last};
      First(rank, k) == if |rest.Keys| < k then First(rest, k) + {last} else First(rest, k)
  {
    var rest := rank - {last};
    forall i | i in rest ensures Ahead(rank, i) == Ahead(rest, i) {}
    forall i ensures i in Ahead(rank, last) <==> i in rest.Keys {}
    assert Ahead(rank, last) == rest.Keys;
    forall i | i in rest ensures i in First(rank, k) <==> i in First(rest, k) {}
  }

  lemma {:induction false} FirstSize(rank: map<int, int>, k: int)
    requires 0 <= k
    ensures |First(rank, k)| == Min(|rank.Keys|, k)
    decreases |rank.Keys|
  {
    if rank.Keys != {} {
      var last := LastExists(rank, rank.Keys);
      var rest := rank - {last};
      assert rest.Keys == rank.Keys - {last};
      FirstSize(rest, k);
      AllButLast(rank, last, k);
      assert last !in First(rest, k);
    }
  }

  /** The first rows are closed upwards: whatever is listed before one of them is one of them. */
  lemma FirstUpClosed(rank: map<int, int>, k: int, x: int, y: int)
    requires x in First(rank, k) && y in rank && Before(rank, y, x)
    ensures y in First(rank, k)
  {
    assert Ahead(rank, y) <= Ahead(rank, x);
    SubsetSize(Ahead(rank, y), Ahead(rank, x));
  }

  /** What the query returns is determined: the first rows, in order. */
  lemma TopIsFirst(rank: map<int, int>, limit: nat, top: seq<int>)
    ensures IsTop(rank, limit, top) <==> InOrder(rank, top) && (set t | t in top) == First(rank, limit)
  {
    var chosen := set t | t in top;
    FirstSize(rank, limit);
    if InOrder(rank, top) {
      DistinctSize(top);
      if IsTop(rank, limit, top) {
        forall t | t in chosen ensures t in First(rank, limit) {
          assert Ahead(rank, t) <= chosen - {t};
          SubsetSize(Ahead(rank, t), chosen - {t});
        }
        SubsetSize(chosen, First(rank, limit));
      }
      if chosen == First(rank, limit) {
        forall t, x | t in top && x in rank && x !in top ensures Before(rank, t, x) {
          assert t in chosen && x !in chosen;
          if Before(rank, x, t) { FirstUpClosed(rank, limit, t, x); }
        }
      }
    }
  }

  /** With one row allowed, the answer is the row listed before all others. */
  lemma TopRow(rank: map<int, int>, x: int, top: seq<int>)
    requires x in rank && forall y :: y in rank && y != x ==> Before(rank, x, y)
    ensures IsTop(rank, 1, top) <==> top == [x]
  {
    assert Ahead(rank, x) == {};
    forall y | y in rank && y != x ensures y !in First(rank, 1) {
      SubsetSize({x}, Ahead(rank, y));
    }
    assert First(rank, 1) == {x};
    TopIsFirst(rank, 1, top);
    if InOrder(rank, top) {
      DistinctSize(top);
      if (set t | t in top) == {x} {
        assert |top| == 1 && top[0] in (set t | t in top);
      }
    }
  }

  lemma {:induction false} TopExists(rank: map<int, int>, limit: nat) returns (top: seq<int>)
    ensures IsTop(rank, limit, top)
  {
    if limit == 0 {
      top := [];
    } else {
      var front := TopExists(rank, limit - 1);
      TopIsFirst(rank, limit - 1, front);
      var more := First(rank, limit) - First(rank, limit - 1);
      if more == {} {
        forall i | i in First(rank, limit) ensures i in First(rank, limit - 1) { assert i !in more; }
        assert First(rank, limit) == First(rank, limit - 1);
        top := front;
      } else {
        var next := Pick(more);
        top := front + [next];
        NextInOrder(rank, limit, front, next);
      }
      TopIsFirst(rank, limit, top);
    }
  }

  lemma NextInOrder(rank: map<int, int>, limit: nat, front: seq<int>, next: int)
    requires 0 < limit && InOrder(rank, front) && (set t | t in front) == First(rank, limit - 1)
    requires next in First(rank, limit) - First(rank, limit - 1)
    ensures InOrder(rank, front + [next]) && (set t | t in front + [next]) == First(rank, limit)
  {
    var before := First(rank, limit - 1);
    forall t | t in front ensures Before(rank, t, next) {
      assert t in before;
      if Before(rank, next, t) { FirstUpClosed(rank, limit - 1, t, next); }
    }
    FirstSize(rank, limit - 1);
    FirstSize(rank, limit);
    assert before <= First(rank, limit);
    SubsetSize(before + {next}, First(rank, limit));
    assert (set t | t in front + [next]) == before + {next};
  }

  /** Two tables list the same first rows, for every number of rows up to `maximum`. */
  ghost predicate SameTops(live: map<int, int>, logged: map<int, int>, maximum: int) {
    forall limit: nat, top :: limit <= maximum ==> (IsTop(live, limit, top) <==> IsTop(logged, limit, top))
  }

  lemma SameFirst(live: map<int, int>, logged: map<int, int>, limit: nat)
    requires live.Keys <= logged.Keys && forall i :: i in live ==> live[i] == logged[i]
    requires First(logged, limit) <= live.Keys
    ensures First(live, limit) == First(logged, limit)
  {
    var first := First(logged, limit);
    FirstSize(logged, limit);
    forall i | i in live ensures i in First(live, limit) <==> i in first {
      if i in first {
        forall j | j in Ahead(logged, i) ensures j in live { FirstUpClosed(logged, limit, i, j); }
        assert Ahead(live, i) == Ahead(logged, i);
      } else {
        forall j | j in first ensures j in Ahead(live, i) {
          if Before(logged, i, j) { FirstUpClosed(logged, limit, j, i); }
        }
        SubsetSize(first, Ahead(live, i));
        if |logged.Keys| <= limit { SubsetSize(first, logged.Keys); }
      }
    }
  }

  /** Deleting rows is invisible to the query exactly when none of the first `maximum` is deleted. */
  lemma SameTopsExactlyWhen(live: map<int, int>, logged: map<int, int>, maximum: nat)
    requires live.Keys <= logged.Keys && forall i :: i in live ==> live[i] == logged[i]
    ensures SameTops(live, logged, maximum) <==> First(logged, maximum) <= live.Keys
  {
    if First(logged, maximum) <= live.Keys {
      forall limit: nat, top | limit <= maximum ensures IsTop(live, limit, top) <==> IsTop(logged, limit, top) {
        assert First(logged, limit) <= First(logged, maximum);
        SameFirst(live, logged, limit);
        TopIsFirst(live, limit, top);
        TopIsFirst(logged, limit, top);
      }
    }
    if SameTops(live, logged, maximum) {
      var top := TopExists(logged, maximum);
      TopIsFirst(logged, maximum, top);
      assert IsTop(live, maximum, top);
      forall i | i in First(logged, maximum) ensures i in live.Keys { assert i in (set t | t in top); }
    }
  }

  ghost predicate NewestFirst(ids: set<int>, limit: nat, top: seq<int>) {
    && (forall i, j :: 0 <= i < j < |top| ==> top[j] < top[i])
    && (set t | t in top) == Newest(ids, limit)
  }

  ghost predicate RisesWithId(rank: map<int, int>) {
    forall i, j :: i in rank && j in rank && i < j ==> rank[i] <= rank[j]
  }

  lemma FirstIsNewest(rank: map<int, int>, k: int)
    requires RisesWithId(rank)
    ensures First(rank, k) == Newest(rank.Keys, k)
  {
    forall i | i in rank ensures Ahead(rank, i) == Newer(rank.Keys, i) {}
  }

  /** When ranks do not decrease with the id, the query returns the newest ids, newest first. */
  lemma TopIsNewest(rank: map<int, int>, limit: nat, top: seq<int>)
    requires RisesWithId(rank)
    ensures IsTop(rank, limit, top) <==> NewestFirst(rank.Keys, limit, top)
  {
    TopIsFirst(rank, limit, top);
    FirstIsNewest(rank, limit);
    forall t | t in (set t | t in top) ensures t in top {}
    if NewestFirst(rank.Keys, limit, top) {
      forall i | 0 <= i < |top| ensures top[i] in rank {
        assert top[i] in (set t | t in top);
        assert top[i] in First(rank, limit);
      }
    }
  }

  /** Every row the query would list among the first `maximum` is protected, or among the newest
      `maximum` by id: the condition under which ordering by id stands in for ordering by rank. */
  ghost predicate LatestAreNewest(rank: map<int, int>, fixed: int, maximum: int) {
    forall p :: p in rank && fixed < p && |Ahead(rank, p)| < maximum ==> |Newer(rank.Keys, p)| < maximum
  }

  lemma TrimKeepsFirstExactlyWhen(rank: map<int, int>, fixed: int, maximum: int)
    requires 0 < maximum
    ensures First(rank, maximum) <= Kept(rank.Keys, fixed, maximum) <==> LatestAreNewest(rank, fixed, maximum)
  {
    if LatestAreNewest(rank, fixed, maximum) {
      forall p | p in First(rank, maximum) ensures p in Kept(rank.Keys, fixed, maximum) {}
    }
    if First(rank, maximum) <= Kept(rank.Keys, fixed, maximum) {
      forall p | p in rank && fixed < p && |Ahead(rank, p)| < maximum ensures |Newer(rank.Keys, p)| < maximum {
        assert p in First(rank, maximum);
      }
    }
  }

  predicate Overtaken(rank: map<int, int>, x: int) {
    x in rank && exists y :: y in rank && x < y && rank[y] < rank[x]
  }

  /** If some row ranks above a newer one, the first such row has more newer rows than rows ahead. */
  lemma {:induction false} FirstOvertaken(rank: map<int, int>, x: int) returns (p: int)
    requires Overtaken(rank, x)
    ensures p in rank && |Ahead(rank, p)| < |Newer(rank.Keys, p)|
    decreases |Ahead(rank, x)|
  {
    if q :| q in Ahead(rank, x) && Overtaken(rank, q) {
      assert Ahead(rank, q) <= Ahead(rank, x) - {q};
      SubsetSize(Ahead(rank, q), Ahead(rank, x) - {q});
      p := FirstOvertaken(rank, q);
    } else {
      p := x;
      var y :| y in rank && x < y && rank[y] < rank[x];
      forall q | q in Ahead(rank, x) ensures q in Newer(rank.Keys, x) - {y} {
        assert !Overtaken(rank, q);
      }
      SubsetSize(Ahead(rank, x), Newer(rank.Keys, x) - {y});
    }
  }

  /** Ranks rise with the id exactly when no maximum at all tells the two orders apart. */
  lemma RisesExactlyWhen(rank: map<int, int>)
    requires forall i :: i in rank ==> 1 <= i
    ensures RisesWithId(rank) <==> forall maximum: nat :: 0 < maximum ==> LatestAreNewest(rank, 0, maximum)
  {
    if RisesWithId(rank) {
      forall p | p in rank ensures Ahead(rank, p) == Newer(rank.Keys, p) {}
    } else {
      var i, j :| i in rank && j in rank && i < j && rank[j] < rank[i];
      var p := FirstOvertaken(rank, i);
      assert !LatestAreNewest(rank, 0, |Newer(rank.Keys, p)|);
    }
  }

  /** The rows one `enforceTableSizeLimits` statement deletes, by running its subquery. */
  method Victims(ids: set<int>, fixed: int, maximum: int) returns (victims: set<int>)
    ensures victims == ToDelete(ids, fixed, maximum)
  {
    victims := {};
    if maximum <= 0 {
      return;
    }
    var rank := map i | i in ids :: i;
    assert rank.Keys == ids;
    var newest := SelectTop(rank, maximum);
    TopIsNewest(rank, maximum, newest);
    assert forall i :: i in newest <==> i in (set t | t in newest);
    var rest := ids;
    while rest != {}
      invariant rest <= ids
      invariant victims == set i | i in ids && i !in rest && i !in Newest(ids, maximum) && fixed < i
      decreases rest
    {
      ghost var w := Pick(rest);
      var i :| i in rest;
      if i !in newest && fixed < i {
        victims := victims + {i};
      }
      rest := rest - {i};
    }
  }
}
