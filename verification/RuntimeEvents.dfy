/**
 The durable OPS event log of veridex/store.py: at-least-once appends, deduplicated by event_uuid and
 numbered in commit order, read by a forward cursor. The main lemmas are about any interleaving of
 appends with the polls of one client.
 */
module RuntimeEvents {
  import opened Prelude
  import opened Sorting

  /** detail stands for session_id, event_type, ts, channel and payload, which the log only carries. */
  datatype Event = Event(id: nat, uuid: string, agentId: string, runId: Option<string>, detail: string)

  datatype Log = Log(rows: seq<Event>, lastId: nat, uuids: set<string>)

  const EMPTY := Log([], 0, {})

  function Uuids(events: seq<Event>): (u: set<string>)
    ensures forall i | 0 <= i < |events| :: events[i].uuid in u
  {
    set e | e in events :: e.uuid
  }

  lemma UuidsOfConcat(a: seq<Event>, b: seq<Event>)
    ensures Uuids(a + b) == Uuids(a) + Uuids(b)
  {
  }

  /** ids count from 1 in row order, and the uuid set is that of the rows, each of them once. */
  ghost predicate Valid(log: Log) {
    && log.lastId == |log.rows|
    && (forall i | 0 <= i < |log.rows| :: log.rows[i].id == i + 1)
    && log.uuids == Uuids(log.rows)
    && forall i, j | 0 <= i < j < |log.rows| :: log.rows[i].uuid != log.rows[j].uuid
  }

  function AppendOne(log: Log, row: Event): Log {
    if row.uuid in log.uuids then log
    else Log(log.rows + [row.(id := log.lastId + 1)], log.lastId + 1, log.uuids + {row.uuid})
  }

  /** The rows are only ever added to. */
  function Append(log: Log, batch: seq<Event>): (after: Log)
    ensures log.rows <= after.rows
  {
    if batch == [] then log
    else AppendOne(Append(log, batch[..|batch| - 1]), batch[|batch| - 1])
  }

  lemma AppendOneValid(log: Log, row: Event)
    requires Valid(log)
    ensures Valid(AppendOne(log, row)) && log.rows <= AppendOne(log, row).rows
  {
    if row.uuid !in log.uuids {
      UuidsOfConcat(log.rows, [row.(id := log.lastId + 1)]);
    }
  }

  lemma {:induction false} AppendValid(log: Log, batch: seq<Event>)
    requires Valid(log)
    ensures Valid(Append(log, batch)) && log.rows <= Append(log, batch).rows
  {
    hide Valid, AppendOne;
    if batch != [] {
      AppendValid(log, batch[..|batch| - 1]);
      AppendOneValid(Append(log, batch[..|batch| - 1]), batch[|batch| - 1]);
    }
  }

  lemma {:induction false} AppendConcat(log: Log, a: seq<Event>, b: seq<Event>)
    ensures Append(log, a + b) == Append(Append(log, a), b)
  {
    if b == [] {
      assert a + b == a;
    } else {
      assert (a + b)[..|a + b| - 1] == a + b[..|b| - 1];
      AppendConcat(log, a, b[..|b| - 1]);
    }
  }

  // ---------------------------------------------------------------- what the log stores

  /** The deliveries that are the first with their uuid. */
  function FirstOccurrences(delivered: seq<Event>): seq<Event> {
    if delivered == [] then []
    else
      var n := |delivered| - 1;
      FirstOccurrences(delivered[..n])
      + if delivered[n].uuid in Uuids(delivered[..n]) then [] else [delivered[n]]
  }

  function Numbered(events: seq<Event>): (rows: seq<Event>)
    ensures |rows| == |events|
  {
    seq(|events|, i requires 0 <= i < |events| => events[i].(id := i + 1))
  }

  lemma NumberedAppend(events: seq<Event>, e: Event)
    ensures Numbered(events + [e]) == Numbered(events) + [e.(id := |events| + 1)]
  {
  }

  lemma {:induction false} LogStoresFirstOccurrences(delivered: seq<Event>)
    ensures Append(EMPTY, delivered).rows == Numbered(FirstOccurrences(delivered))
    ensures Append(EMPTY, delivered).uuids == Uuids(delivered)
  {
    if delivered != [] {
      var n := |delivered| - 1;
      LogStoresFirstOccurrences(delivered[..n]);
      AppendValid(EMPTY, delivered[..n]);
      hide Valid, Numbered, Uuids, AppendOne;
      OneStored(Append(EMPTY, delivered[..n]), delivered[n], FirstOccurrences(delivered[..n]));
      assert delivered == delivered[..n] + [delivered[n]];
      UuidsOfConcat(delivered[..n], [delivered[n]]);
      UuidsOfOne(delivered[n]);
    }
  }

  lemma OneStored(log: Log, row: Event, first: seq<Event>)
    requires Valid(log) && log.rows == Numbered(first)
    ensures AppendOne(log, row).rows == Numbered(first + if row.uuid in log.uuids then [] else [row])
    ensures AppendOne(log, row).uuids == log.uuids + {row.uuid}
  {
    if row.uuid in log.uuids {
      assert first + [] == first;
    } else {
      NumberedAppend(first, row);
    }
  }

  lemma UuidsOfOne(e: Event)
    ensures Uuids([e]) == {e.uuid}
  {
  }

  // ---------------------------------------------------------------- reading

  /** The two read seams: one agent's events, or one run's. */
  datatype Scope = ByAgent(agentId: string) | ByRun(run: string)

  predicate InScope(e: Event, scope: Scope) {
    match scope
    case ByAgent(a) => e.agentId == a
    case ByRun(r) => e.runId == Some(r)
  }

  /** Python's rows[:limit]: None keeps all, a negative limit drops that many from the end. */
  function Slice<T>(rows: seq<T>, limit: Option<int>): (page: seq<T>)
    ensures page <= rows
  {
    match limit
    case None => rows
    case Some(n) => if n < 0 then rows[..Max(0, |rows| + n)] else rows[..Min(n, |rows|)]
  }

  /** The rows in scope with id > since. */
  function Selected(rows: seq<Event>, scope: Scope, since: int): (r: seq<Event>)
    ensures forall e | e in r :: e in rows && InScope(e, scope) && e.id > since
  {
    if rows == [] then []
    else
      var n := |rows| - 1;
      Selected(rows[..n], scope, since) + if InScope(rows[n], scope) && rows[n].id > since then [rows[n]] else []
  }

  function ById(): (Event, Event) -> bool {
    (a: Event, b: Event) => a.id <= b.id
  }

  function List(log: Log, scope: Scope, since: int, limit: Option<int>): seq<Event> {
    Slice(Sort(Selected(log.rows, scope, since), ById()), limit)
  }

  predicate Ascending(s: seq<Event>) {
    forall i, j | 0 <= i < j < |s| :: s[i].id < s[j].id
  }

  lemma {:induction false} SelectedAscends(rows: seq<Event>, scope: Scope, since: int)
    requires Ascending(rows)
    ensures Ascending(Selected(rows, scope, since))
  {
    if rows != [] {
      var n := |rows| - 1;
      SelectedAscends(rows[..n], scope, since);
      assert forall e | e in Selected(rows[..n], scope, since) :: e in rows[..n] && e.id < rows[n].id;
    }
  }

  lemma {:induction false} NothingAfter(rows: seq<Event>, scope: Scope, cursor: int)
    requires forall e | e in rows :: e.id <= cursor
    ensures Selected(rows, scope, cursor) == []
  {
    if rows != [] {
      assert rows[|rows| - 1] in rows;
      assert forall e | e in rows[..|rows| - 1] :: e in rows;
      NothingAfter(rows[..|rows| - 1], scope, cursor);
    }
  }

  // ---------------------------------------------------------------- one client against all writers

  datatype Op = Deliver(batch: seq<Event>) | Poll(limit: Option<int>)

  /** The log, the cursor the client holds, the pages it has concatenated, and the counts returned. */
  datatype World = World(log: Log, cursor: int, received: seq<Event>, inserted: nat)

  const START := World(EMPTY, 0, [], 0)

  function Act(w: World, op: Op, scope: Scope): World {
    match op
    case Deliver(batch) =>
      var log := Append(w.log, batch);
      w.(log := log, inserted := w.inserted + (|log.rows| - |w.log.rows|))
    case Poll(limit) =>
      var page := List(w.log, scope, w.cursor, limit);
      w.(received := w.received + page, cursor := if page == [] then w.cursor else page[|page| - 1].id)
  }

  /** Everything delivered by the ops, duplicates included. */
  function Delivered(ops: seq<Op>): seq<Event> {
    if ops == [] then []
    else Delivered(ops[..|ops| - 1]) + if ops[|ops| - 1].Deliver? then ops[|ops| - 1].batch else []
  }

  /** The client's pages are exactly the events in scope up to its cursor. */
  ghost predicate Consistent(w: World, scope: Scope) {
    && Valid(w.log) && 0 <= w.cursor <= w.log.lastId && w.inserted == |w.log.rows|
    && w.received + Selected(w.log.rows, scope, w.cursor) == Selected(w.log.rows, scope, 0)
  }

  lemma ActConsistent(w: World, op: Op, scope: Scope)
    requires Consistent(w, scope)
    ensures Consistent(Act(w, op, scope), scope)
  {
    match op
    case Deliver(batch) =>
      AppendValid(w.log, batch);
      DeliverConsistent(w, Append(w.log, batch), scope);
    case Poll(limit) =>
      PollConsistent(w, limit, scope);
  }

  lemma DeliverConsistent(w: World, log: Log, scope: Scope)
    requires Consistent(w, scope) && Valid(log) && w.log.rows <= log.rows
    ensures Consistent(w.(log := log, inserted := |log.rows|), scope)
  {
    var more := log.rows[|w.log.rows|..];
    NewRowsAfterCursor(more, scope, 0, w.cursor);
    hide Selected;
    TakeDrop(log.rows, w.log.rows);
    SelectionGrows(w.log.rows, more, scope, w.cursor);
    SelectionGrows(w.log.rows, more, scope, 0);
    ConcatAssociative(w.received, Selected(w.log.rows, scope, w.cursor), Selected(more, scope, w.cursor));
  }

  lemma {:induction false} SelectionGrows(rows: seq<Event>, more: seq<Event>, scope: Scope, since: int)
    ensures Selected(rows + more, scope, since) == Selected(rows, scope, since) + Selected(more, scope, since)
  {
    if more == [] {
      assert rows + more == rows;
    } else {
      var n := |more| - 1;
      assert (rows + more)[..|rows + more| - 1] == rows + more[..n];
      SelectionGrows(rows, more[..n], scope, since);
    }
  }

  lemma {:induction false} NewRowsAfterCursor(rows: seq<Event>, scope: Scope, a: int, b: int)
    requires forall e | e in rows :: e.id > a && e.id > b
    ensures Selected(rows, scope, a) == Selected(rows, scope, b)
  {
    if rows != [] {
      assert rows[|rows| - 1] in rows;
      assert forall e | e in rows[..|rows| - 1] :: e in rows;
      NewRowsAfterCursor(rows[..|rows| - 1], scope, a, b);
    }
  }

  /** The rows are already in id order, so the sort of the read changes nothing. */
  lemma ListIsSlice(log: Log, scope: Scope, since: int, limit: Option<int>)
    requires Valid(log)
    ensures List(log, scope, since, limit) == Slice(Selected(log.rows, scope, since), limit)
  {
    SelectedAscends(log.rows, scope, since);
    SortOfSorted(Selected(log.rows, scope, since), ById());
  }

  lemma PollConsistent(w: World, limit: Option<int>, scope: Scope)
    requires Consistent(w, scope)
    ensures Consistent(Act(w, Poll(limit), scope), scope)
  {
    hide Valid, Selected, List, Slice;
    ListIsSlice(w.log, scope, w.cursor, limit);
    var page := Slice(Selected(w.log.rows, scope, w.cursor), limit);
    if page != [] {
      TakePage(w, page, scope);
    } else {
      assert w.received + page == w.received;
    }
  }

  lemma TakePage(w: World, page: seq<Event>, scope: Scope)
    requires Consistent(w, scope)
    requires page != [] && page <= Selected(w.log.rows, scope, w.cursor)
    ensures 0 <= page[|page| - 1].id <= w.log.lastId
    ensures w.received + page + Selected(w.log.rows, scope, page[|page| - 1].id) == Selected(w.log.rows, scope, 0)
  {
    hide Valid, Selected, Ascending;
    var rest := Selected(w.log.rows, scope, w.cursor);
    assert page[|page| - 1] == rest[|page| - 1] && rest[|page| - 1] in rest;
    StoredInOrder(w.log, page[|page| - 1]);
    DropTaken(w.log.rows, scope, w.cursor, |page|);
    TakeDrop(rest, page);
    ConcatAssociative(w.received, page, rest[|page|..]);
  }

  lemma StoredInOrder(log: Log, e: Event)
    requires Valid(log) && e in log.rows
    ensures Ascending(log.rows) && 0 < e.id <= log.lastId
  {
    hide Uuids;
  }

  lemma TakeDrop<T>(s: seq<T>, prefix: seq<T>)
    requires prefix <= s
    ensures prefix + s[|prefix|..] == s
  {
  }

  /** Moving the cursor to the k-th selected row leaves exactly the rows after it. */
  lemma {:induction false} DropTaken(rows: seq<Event>, scope: Scope, since: int, k: nat)
    requires Ascending(rows) && 0 < k <= |Selected(rows, scope, since)|
    ensures Selected(rows, scope, Selected(rows, scope, since)[k - 1].id) == Selected(rows, scope, since)[k..]
  {
    var all := Selected(rows, scope, since);
    var n := |rows| - 1;
    var front := Selected(rows[..n], scope, since);
    if k <= |front| {
      DropTaken(rows[..n], scope, since, k);
      assert front[k - 1] in front;
      DropConcat(front, all[|front|..], k);
    } else {
      assert all[k - 1] == rows[n];
      NothingAfter(rows, scope, rows[n].id);
    }
  }

  lemma DropConcat<T>(a: seq<T>, b: seq<T>, k: nat)
    requires k <= |a|
    ensures (a + b)[k..] == a[k..] + b
  {
  }

  function Play(ops: seq<Op>, scope: Scope): (w: World)
    ensures Consistent(w, scope)
  {
    if ops == [] then
      START
    else
      var before := Play(ops[..|ops| - 1], scope);
      ActConsistent(before, ops[|ops| - 1], scope);
      Act(before, ops[|ops| - 1], scope)
  }

  lemma {:induction false} PlayStores(ops: seq<Op>, scope: Scope)
    ensures Play(ops, scope).log == Append(EMPTY, Delivered(ops))
  {
    if ops != [] {
      PlayStores(ops[..|ops| - 1], scope);
      AppendConcat(EMPTY, Delivered(ops[..|ops| - 1]), if ops[|ops| - 1].Deliver? then ops[|ops| - 1].batch else []);
    }
  }

  /** One agent's or one run's share of the first occurrences, numbered as stored. */
  function Feed(ops: seq<Op>, scope: Scope): seq<Event> {
    Selected(Numbered(FirstOccurrences(Delivered(ops))), scope, 0)
  }

  /**
   However deliveries, replays, duplicates and polls interleave: the client's pages concatenate to a
   prefix of the feed, a poll without limit catches up with all of it, and the counts returned by the
   appends add up to the rows stored.
   */
  lemma {:induction false} CursorLosesAndRepeatsNothing(ops: seq<Op>, scope: Scope)
    ensures Play(ops, scope).received <= Feed(ops, scope)
    ensures ops != [] && ops[|ops| - 1] == Poll(None) ==> Play(ops, scope).received == Feed(ops, scope)
    ensures Play(ops, scope).inserted == |FirstOccurrences(Delivered(ops))|
  {
    var w := Play(ops, scope);
    PlayStores(ops, scope);
    LogStoresFirstOccurrences(Delivered(ops));
    assert Selected(w.log.rows, scope, 0) == Feed(ops, scope);
    if ops != [] && ops[|ops| - 1] == Poll(None) {
      var before := Play(ops[..|ops| - 1], scope);
      ListIsSlice(before.log, scope, before.cursor, None);
    }
  }

  /**
   A poll takes exactly the next events of the feed: all of them without a limit, at most n for a limit of n, and
   for a negative limit all but that many, as Python slices.
   */
  lemma {:induction false} PollTakesNext(ops: seq<Op>, limit: Option<int>, scope: Scope)
    ensures var (had, feed) := (|Play(ops, scope).received|, Feed(ops, scope));
            var upTo := match limit
                        case None => |feed|
                        case Some(n) => if n >= 0 then Min(had + n, |feed|) else Max(had, |feed| + n);
            && had <= upTo <= |feed| && Play(ops, scope).received == feed[..had]
            && Play(ops + [Poll(limit)], scope).received == feed[..upTo]
  {
    hide Valid, Selected, Numbered, FirstOccurrences, Play, Slice, List;
    var w, feed := Play(ops, scope), Feed(ops, scope);
    PlayStores(ops, scope);
    LogStoresFirstOccurrences(Delivered(ops));
    PlayPoll(ops, limit, scope);
    SliceExtends(w.received, Selected(w.log.rows, scope, w.cursor), limit);
  }

  lemma PlayPoll(ops: seq<Op>, limit: Option<int>, scope: Scope)
    ensures var w := Play(ops, scope);
            Play(ops + [Poll(limit)], scope).received
            == w.received + Slice(Selected(w.log.rows, scope, w.cursor), limit)
  {
    hide Selected, Slice, List;
    ListIsSlice(Play(ops, scope).log, scope, Play(ops, scope).cursor, limit);
    assert (ops + [Poll(limit)])[..|ops|] == ops;
  }

  lemma SliceExtends(had: seq<Event>, rest: seq<Event>, limit: Option<int>)
    ensures var all := had + rest;
            var upTo := match limit
                        case None => |all|
                        case Some(n) => if n >= 0 then Min(|had| + n, |all|) else Max(|had|, |all| + n);
            |had| <= upTo <= |all| && all[..|had|] == had && had + Slice(rest, limit) == all[..upTo]
  {
  }

  /** Of the agent, or of the run, that the read asks for. */
  predicate Asked(e: Event, scope: Scope) {
    (scope.ByAgent? ==> e.agentId == scope.agentId) && (scope.ByRun? ==> e.runId == Some(scope.run))
  }

  lemma {:induction false} SelectedExactly(rows: seq<Event>, scope: Scope, since: int)
    ensures forall e :: e in Selected(rows, scope, since) <==> e in rows && e.id > since && Asked(e, scope)
  {
    if rows != [] {
      SelectedExactly(rows[..|rows| - 1], scope, since);
      assert rows == rows[..|rows| - 1] + [rows[|rows| - 1]];
    }
  }

  lemma ByIdOrders()
    ensures TotalPreorder(ById())
  {
  }

  /** What a read returns: stored events of its scope past the cursor, in id order, and without a limit all of them. */
  lemma ListExactly(log: Log, scope: Scope, since: int, limit: Option<int>)
    ensures var page := List(log, scope, since, limit);
            && (forall e | e in page :: e in log.rows && e.id > since && Asked(e, scope))
            && (forall i, j | 0 <= i < j < |page| :: page[i].id <= page[j].id)
            && (limit == None ==> forall e | e in log.rows && e.id > since && Asked(e, scope) :: e in page)
  {
    hide Selected, Asked, Sort, TotalPreorder, Slice;
    var all := Selected(log.rows, scope, since);
    SelectedExactly(log.rows, scope, since);
    ByIdOrders();
    SortSorts(all, ById());
    SameMembers(Sort(all, ById()), all);
    SliceOfSorted(Sort(all, ById()), limit);
  }

  lemma SliceOfSorted(sorted: seq<Event>, limit: Option<int>)
    requires Sorted(sorted, ById())
    ensures var page := Slice(sorted, limit);
            && (forall e | e in page :: e in sorted) && (limit == None ==> page == sorted)
            && forall i, j | 0 <= i < j < |page| :: page[i].id <= page[j].id
  {
    var page := Slice(sorted, limit);
    assert forall i | 0 <= i < |page| :: page[i] == sorted[i];
    assert forall i, j | 0 <= i < j < |sorted| :: ById()(sorted[i], sorted[j]);
  }
}
