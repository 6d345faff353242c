/** What the end of a local transaction does to the remote ones, over any number of connections (connection.c). */
module TransactionEnd {
  import opened ConnectionState
  import opened Prelude

  datatype XactEvent = ParallelPreCommit | PreCommit | PrePrepare | ParallelCommitted | Committed | Prepared
                     | ParallelAbort | Abort

  datatype Ending = Committing | RollingBack | Abandoning | Nothing

  /** The branches of the switch in `TbfdwXactCallback`. */
  function EndingOf(event: XactEvent, trouble: bool): Ending {
    match event
    case ParallelPreCommit => Committing
    case PreCommit => Committing
    case PrePrepare => Nothing
    case ParallelCommitted => Nothing
    case Committed => Nothing
    case Prepared => Nothing
    case ParallelAbort => if trouble then Abandoning else RollingBack
    case Abort => if trouble then Abandoning else RollingBack
  }

  function Completion(ending: Ending): Event {
    if ending == Committing then Commit else Rollback
  }

  /** One entry's turn when no driver call fails. */
  ghost function EndOne(st: State, k: Oid, ending: Ending): (after: State)
    requires Valid(st)
    ensures Valid(after) && after.entries.Keys == st.entries.Keys
  {
    if k !in st.entries || !st.entries[k].beginRemoteXact then st
    else if ending == Nothing then st
    else if ending == Abandoning then AbandonValid(st, k); Abandon(st, k)
    else if !st.entries[k].connected then st
    else
      ResolveValid(st, k, Completion(ending));
      var resolved := Resolve(st, k, Completion(ending));
      CloseValid(resolved, k);
      if st.entries[k].invalidated || !st.entries[k].keepConnections then Close(resolved, k) else resolved
  }

  /** The turns of the first `n` entries. */
  ghost function EndAll(st: State, order: seq<Oid>, n: nat, ending: Ending): (after: State)
    requires Valid(st) && n <= |order|
    ensures Valid(after) && after.entries.Keys == st.entries.Keys
  {
    if n == 0 then st else EndOne(EndAll(st, order, n - 1, ending), order[n - 1], ending)
  }

  lemma EndAllStarts(st: State, order: seq<Oid>, ending: Ending)
    requires Valid(st)
    ensures EndAll(st, order, 0, ending) == st
  {
  }

  lemma EndAllGoesOn(st: State, order: seq<Oid>, n: nat, ending: Ending)
    requires Valid(st) && n < |order|
    ensures EndAll(st, order, n + 1, ending) == EndOne(EndAll(st, order, n, ending), order[n], ending)
  {
  }

  /** A scan of the hash table: every entry, once. */
  predicate Enumerates(order: seq<Oid>, entries: map<Oid, Entry>) {
    && (forall i :: 0 <= i < |order| ==> order[i] in entries)
    && (forall k :: k in entries ==> k in order)
    && (forall i, j :: 0 <= i < j < |order| ==> order[i] != order[j])
  }

  /** What is left of a connection whose transaction has ended. */
  function Ended(e: Entry): Entry {
    if e.connected && e.beginRemoteXact
    then e.(beginRemoteXact := false, connected := !e.invalidated && e.keepConnections)
    else e
  }

  /** The session's transaction is open, and one of these entries answers for it. */
  predicate OpenBy(s: Session, owners: seq<Oid>) {
    Open(s.events) && !s.abandoned && s.owner in owners
  }

  predicate ResolvedWith(a: Session, b: Session, how: Event) {
    Open(a.events) && !a.abandoned && b == a.(events := a.events + [how])
  }

  predicate EndedSession(a: Session, b: Session, owners: seq<Oid>, how: Event) {
    if OpenBy(a, owners) then ResolvedWith(a, b, how) else b == a
  }

  ghost predicate SameElsewhere(before: State, after: State) {
    && after.entries.Keys == before.entries.Keys && |after.sessions| == |before.sessions|
    && after.invals == before.invals && after.handed == before.handed && after.clock == before.clock
    && after.writes == before.writes && after.hash == before.hash
  }

  /** The first `n` entries have had exactly what the end of the transaction owes them, the others nothing. */
  ghost predicate EndedUpTo(before: State, after: State, order: seq<Oid>, n: nat, how: Event)
    requires n <= |order|
  {
    && SameElsewhere(before, after)
    && (forall i :: 0 <= i < |order| && order[i] in before.entries ==>
          after.entries[order[i]] == if i < n then Ended(before.entries[order[i]]) else before.entries[order[i]])
    && (forall s :: 0 <= s < |before.sessions| ==>
          EndedSession(before.sessions[s], after.sessions[s], order[..n], how))
  }

  /** Entries and open sessions answer for each other. */
  lemma OpenIsHeld(st: State, k: Oid, s: nat)
    requires Valid(st) && k in st.entries && s < |st.sessions|
    ensures OpenBy(st.sessions[s], [k]) <==> Participates(st.entries[k]) && st.entries[k].hdbc == s
    ensures st.entries[k].connected ==> st.entries[k].hdbc < |st.sessions|
  {
    hide Fresh, SnapshotCurrent, HandedValid, Alternates, Open;
    assert EntryValid(st, k) && SessionValid(st, s);
  }

  lemma EndOneMeaning(st: State, k: Oid, ending: Ending)
    requires Valid(st) && k in st.entries && ending in {Committing, RollingBack}
    ensures var after := EndOne(st, k, ending);
            && SameElsewhere(st, after)
            && after.entries == st.entries[k := Ended(st.entries[k])]
            && forall s :: 0 <= s < |st.sessions| ==>
                 EndedSession(st.sessions[s], after.sessions[s], [k], Completion(ending))
  {
    hide Valid;
    var after, e := EndOne(st, k, ending), st.entries[k];
    OpenIsHeldAll(st, k);
    if !Participates(e) {
      assert st.entries == st.entries[k := e];
    } else {
      OpenIsHeld(st, k, e.hdbc);
    }
  }

  lemma OpenIsHeldAll(st: State, k: Oid)
    requires Valid(st) && k in st.entries
    ensures forall s :: 0 <= s < |st.sessions| ==>
              (OpenBy(st.sessions[s], [k]) <==> Participates(st.entries[k]) && st.entries[k].hdbc == s)
    ensures st.entries[k].connected ==> st.entries[k].hdbc < |st.sessions|
  {
    hide Open, OpenBy, Participates, SessionValid, HandedValid, Fresh, SnapshotCurrent, Standing;
    assert EntryValid(st, k);
    forall s | 0 <= s < |st.sessions|
      ensures OpenBy(st.sessions[s], [k]) <==> Participates(st.entries[k]) && st.entries[k].hdbc == s
    {
      OpenIsHeld(st, k, s);
    }
  }

  lemma EndedSessionStep(a: Session, b: Session, c: Session, order: seq<Oid>, n: nat, how: Event)
    requires n < |order| && forall i :: 0 <= i < n ==> order[i] != order[n]
    requires !how.Begin?
    requires EndedSession(a, b, order[..n], how) && EndedSession(b, c, [order[n]], how)
    ensures EndedSession(a, c, order[..n + 1], how)
  {
    assert order[..n + 1] == order[..n] + [order[n]];
    assert order[n] !in order[..n];
  }

  /** The turns taken together: every participating connection is told once, dropped if it must be, and nobody
      else notices. */
  lemma {:induction false} EndAllMeaning(st: State, order: seq<Oid>, n: nat, ending: Ending)
    requires Valid(st) && Enumerates(order, st.entries) && n <= |order| && ending in {Committing, RollingBack}
    ensures EndedUpTo(st, EndAll(st, order, n, ending), order, n, Completion(ending))
  {
    hide Valid, EndOne, EndedUpTo, EndAll, EndedSession, Ended, SameElsewhere;
    if n == 0 {
      EndAllStarts(st, order, ending);
      NobodyEnds(st, order, Completion(ending));
    } else {
      EndAllGoesOn(st, order, n - 1, ending);
      EndAllMeaning(st, order, n - 1, ending);
      EndOneMeaning(EndAll(st, order, n - 1, ending), order[n - 1], ending);
      EndedStep(st, EndAll(st, order, n - 1, ending), EndAll(st, order, n, ending), order, n - 1, Completion(ending));
    }
  }

  lemma EndedStep(st: State, mid: State, after: State, order: seq<Oid>, n: nat, how: Event)
    requires n < |order| && order[n] in st.entries && !how.Begin?
    requires forall i, j :: 0 <= i < j < |order| ==> order[i] != order[j]
    requires EndedUpTo(st, mid, order, n, how) && SameElsewhere(mid, after)
    requires after.entries == mid.entries[order[n] := Ended(mid.entries[order[n]])]
    requires forall s :: 0 <= s < |mid.sessions| ==>
               EndedSession(mid.sessions[s], after.sessions[s], [order[n]], how)
    ensures EndedUpTo(st, after, order, n + 1, how)
  {
    hide Ended, EndedSession;
    forall s | 0 <= s < |st.sessions|
      ensures EndedSession(st.sessions[s], after.sessions[s], order[..n + 1], how)
    {
      EndedSessionStep(st.sessions[s], mid.sessions[s], after.sessions[s], order, n, how);
    }
  }

  lemma NobodyEnds(st: State, order: seq<Oid>, how: Event)
    ensures EndedUpTo(st, st, order, 0, how)
  {
  }

  /** After every entry's turn no remote transaction is left but those abandoned before. */
  lemma AllEnded(st: State, after: State, order: seq<Oid>, how: Event)
    requires Valid(st) && Enumerates(order, st.entries) && !how.Begin?
    requires EndedUpTo(st, after, order, |order|, how)
    ensures NoneParticipates(after)
    ensures forall s :: 0 <= s < |st.sessions| ==>
              var a, b := st.sessions[s], after.sessions[s];
              if Open(a.events) && !a.abandoned then b == a.(events := a.events + [how]) else b == a
  {
    hide EntryValid, HandedValid, Alternates, Fresh, Open;
    assert order[..|order|] == order;
    forall s | 0 <= s < |st.sessions|
      ensures OpenBy(st.sessions[s], order) <==> Open(st.sessions[s].events) && !st.sessions[s].abandoned
    {
      assert SessionValid(st, s);
    }
    forall k | k in after.entries
      ensures !Participates(after.entries[k])
    {
      var i :| 0 <= i < |order| && order[i] == k;
      assert after.entries[order[i]] == Ended(st.entries[k]);
    }
  }

  /** All remote transactions have ended alike: each connection that had one begun is open now if and only if it was not
      invalidated and is to be kept, and each session that had one open has seen its end. Nothing else has changed. */
  ghost predicate Finished(before: State, after: State, how: Event) {
    && after.entries.Keys == before.entries.Keys && |after.sessions| == |before.sessions|
    && (forall k :: k in before.entries ==>
          var e := before.entries[k];
          after.entries[k] == if e.connected && e.beginRemoteXact
                              then e.(beginRemoteXact := false, connected := !e.invalidated && e.keepConnections)
                              else e)
    && forall s :: 0 <= s < |before.sessions| ==>
         var a := before.sessions[s];
         after.sessions[s] == if |a.events| % 2 == 1 && !a.abandoned then a.(events := a.events + [how]) else a
  }

  lemma AllFinished(st: State, after: State, order: seq<Oid>, how: Event)
    requires Valid(st) && Enumerates(order, st.entries) && !how.Begin?
    requires EndedUpTo(st, after, order, |order|, how)
    ensures Finished(st, after, how)
  {
    hide Valid, EndedSession;
    AllEnded(st, after, order, how);
    forall k | k in st.entries
      ensures after.entries[k] == Ended(st.entries[k])
    {
      var i :| 0 <= i < |order| && order[i] == k;
      assert after.entries[order[i]] == Ended(st.entries[k]);
    }
  }

  /** Every connection that had a transaction begun has been forgotten as it was; no session has been told. */
  ghost predicate Forgotten(before: State, after: State) {
    && after.entries.Keys == before.entries.Keys && |after.sessions| == |before.sessions|
    && (forall k :: k in before.entries ==>
          var e := before.entries[k];
          after.entries[k] == if e.beginRemoteXact then e.(connected := false) else e)
    && forall s :: 0 <= s < |before.sessions| ==> after.sessions[s].events == before.sessions[s].events
  }

  predicate NoneParticipates(st: State) {
    forall k :: k in st.entries ==> !Participates(st.entries[k])
  }

  // ----- A callback that throws, and the callbacks after it -----

  /** The scan stopped at an entry whose connection was closed on error: either the end of its transaction was
      never confirmed, or disconnecting afterwards failed. */
  ghost predicate StoppedAt(before: State, after: State, order: seq<Oid>, n: nat, ending: Ending)
    requires Valid(before)
  {
    n < |order| &&
    var mid, k := EndAll(before, order, n, ending), order[n];
    && k in mid.entries && Participates(mid.entries[k]) && EntryValid(mid, k)
    && (after == Close(mid, k) || after == Close(Resolve(mid, k, Completion(ending)), k))
  }

  /** One session's fate in a scan: committed, or as it was, or resolved otherwise. */
  predicate Fate(a: Session, b: Session, committed: bool) {
    if committed then ResolvedWith(a, b, Commit)
    else b == a || ResolvedWith(a, b, Rollback) || ResolvedWith(a, b, Lost)
  }

  /** A prefix of the scan order is committed; nothing else is. */
  ghost predicate Fates(before: State, after: State, committed: seq<Oid>) {
    && SameElsewhere(before, after)
    && forall s :: 0 <= s < |before.sessions| ==>
         Fate(before.sessions[s], after.sessions[s], OpenBy(before.sessions[s], committed))
  }

  /** What later callbacks add to earlier ones: a session once resolved stays as it is. */
  lemma FatesCompose(a: State, b: State, c: State, committed: seq<Oid>)
    requires Fates(a, b, committed) && Fates(b, c, [])
    ensures Fates(a, c, committed)
  {
    forall s | 0 <= s < |a.sessions|
      ensures Fate(a.sessions[s], c.sessions[s], OpenBy(a.sessions[s], committed))
    {
      assert Fate(a.sessions[s], b.sessions[s], OpenBy(a.sessions[s], committed));
      assert Fate(b.sessions[s], c.sessions[s], OpenBy(b.sessions[s], []));
    }
  }

  lemma EndedFates(st: State, after: State, order: seq<Oid>, n: nat, ending: Ending)
    requires n <= |order| && EndedUpTo(st, after, order, n, Completion(ending))
    ensures Fates(st, after, if ending == Committing then order[..n] else [])
  {
    hide Open;
    forall s | 0 <= s < |st.sessions|
      ensures Fate(st.sessions[s], after.sessions[s],
                   OpenBy(st.sessions[s], if ending == Committing then order[..n] else []))
    {
      assert EndedSession(st.sessions[s], after.sessions[s], order[..n], Completion(ending));
    }
  }

  /** The session of the entry that stopped the scan. */
  lemma LastFate(mid: State, k: Oid, ending: Ending)
    requires Valid(mid) && k in mid.entries && Participates(mid.entries[k]) && EntryValid(mid, k)
    ensures var closed := Close(mid, k);
            var late := Close(Resolve(mid, k, Completion(ending)), k);
            && SameElsewhere(mid, closed) && SameElsewhere(mid, late)
            && (forall s :: 0 <= s < |mid.sessions| ==>
                  EndedSession(mid.sessions[s], closed.sessions[s], [k], Lost) &&
                  EndedSession(mid.sessions[s], late.sessions[s], [k], Completion(ending)))
  {
    hide Valid;
    OpenIsHeldAll(mid, k);
  }

  ghost function Live(st: State): set<Oid> {
    set k | k in st.entries && st.entries[k].connected
  }

  /** Fates from what each session went through. */
  lemma FatesFromEnds(st: State, after: State, owners: seq<Oid>, how: Event)
    requires SameElsewhere(st, after) && how in {Commit, Rollback, Lost}
    requires forall s :: 0 <= s < |st.sessions| ==> EndedSession(st.sessions[s], after.sessions[s], owners, how)
    ensures Fates(st, after, if how == Commit then owners else [])
  {
    hide Open;
    forall s | 0 <= s < |st.sessions|
      ensures Fate(st.sessions[s], after.sessions[s], OpenBy(st.sessions[s], if how == Commit then owners else []))
    {
      assert EndedSession(st.sessions[s], after.sessions[s], owners, how);
    }
  }

  /** A scan that stopped: a prefix of the order is committed, and the connections that are left are fewer. */
  lemma StoppedFates(st: State, after: State, order: seq<Oid>, n: nat, ending: Ending) returns (committed: nat)
    requires Valid(st) && Enumerates(order, st.entries) && ending in {Committing, RollingBack}
    requires StoppedAt(st, after, order, n, ending)
    ensures committed <= |order| && (ending == RollingBack ==> committed == 0)
    ensures committed in {0, n, n + 1}
    ensures Valid(after) && Fates(st, after, order[..committed])
    ensures Live(after) < Live(st)
  {
    hide Valid, EndAll, Ended, EndedSession, Open, EntryValid, Fates, Enumerates;
    var mid, k, how := EndAll(st, order, n, ending), order[n], Completion(ending);
    EndAllMeaning(st, order, n, ending);
    StoppedValid(st, after, order, n, ending);
    LastFate(mid, k, ending);
    FewerLive(st, mid, after, order, n, how);
    OpenIsHeldAll(mid, k);
    if after == Close(mid, k) {
      committed := if ending == Committing then n else 0;
      FatesFromEnds(st, mid, order[..n], how);
      FatesFromEnds(mid, after, [k], Lost);
      assert order[..0] == [];
      FatesCompose(st, mid, after, order[..committed]);
    } else {
      committed := if ending == Committing then n + 1 else 0;
      forall s | 0 <= s < |st.sessions|
        ensures EndedSession(st.sessions[s], after.sessions[s], order[..n + 1], how)
      {
        DistinctFrom(order, st.entries, n);
        EndedSessionStep(st.sessions[s], mid.sessions[s], after.sessions[s], order, n, how);
      }
      FatesFromEnds(st, after, order[..n + 1], how);
      assert order[..0] == [];
    }
  }

  lemma DistinctFrom(order: seq<Oid>, entries: map<Oid, Entry>, n: nat)
    requires Enumerates(order, entries) && n < |order|
    ensures forall i :: 0 <= i < n ==> order[i] != order[n]
  {
  }

  lemma StoppedValid(st: State, after: State, order: seq<Oid>, n: nat, ending: Ending)
    requires Valid(st) && StoppedAt(st, after, order, n, ending)
    ensures Valid(after) && !after.entries[order[n]].connected
    ensures forall j :: j in after.entries && j != order[n] ==>
              after.entries[j] == EndAll(st, order, n, ending).entries[j]
  {
    hide Valid, EndAll;
    var mid, k := EndAll(st, order, n, ending), order[n];
    CloseValid(mid, k);
    ResolveValid(mid, k, Completion(ending));
    CloseValid(Resolve(mid, k, Completion(ending)), k);
  }

  lemma FewerLive(st: State, mid: State, after: State, order: seq<Oid>, n: nat, how: Event)
    requires Enumerates(order, st.entries) && n < |order| && EndedUpTo(st, mid, order, n, how)
    requires after.entries.Keys == mid.entries.Keys && Participates(mid.entries[order[n]])
    requires !after.entries[order[n]].connected
    requires forall j :: j in after.entries && j != order[n] ==> after.entries[j] == mid.entries[j]
    ensures Live(after) < Live(st)
  {
    hide EndedSession;
    forall k | k in mid.entries && mid.entries[k].connected
      ensures st.entries[k].connected
    {
      var i :| 0 <= i < |order| && order[i] == k;
      assert mid.entries[order[i]] == if i < n then Ended(st.entries[k]) else st.entries[k];
    }
    assert order[n] in Live(st);
  }

  // ----- The other branches -----

  /** PREPARE TRANSACTION and the callbacks after the fact touch nothing, open transactions included. */
  lemma {:induction false} NothingEnds(st: State, order: seq<Oid>, n: nat)
    requires Valid(st) && n <= |order|
    ensures EndAll(st, order, n, Nothing) == st
  {
    if n > 0 {
      NothingEnds(st, order, n - 1);
    }
  }

  /** The first `n` entries have been forgotten if they had a transaction begun; no session has been told anything. */
  ghost predicate AbandonedUpTo(before: State, after: State, order: seq<Oid>, n: nat) {
    && SameElsewhere(before, after)
    && (forall i :: 0 <= i < |order| && order[i] in before.entries ==>
          var e := before.entries[order[i]];
          after.entries[order[i]] == if i < n && e.beginRemoteXact then e.(connected := false) else e)
    && forall s :: 0 <= s < |before.sessions| ==> after.sessions[s].events == before.sessions[s].events
  }

  /** In error recursion trouble every transaction is abandoned as it is: the remote side is told nothing. */
  lemma {:induction false} AllAbandoned(st: State, order: seq<Oid>, n: nat)
    requires Valid(st) && Enumerates(order, st.entries) && n <= |order|
    ensures AbandonedUpTo(st, EndAll(st, order, n, Abandoning), order, n)
  {
    hide Valid, EndAll, EndOne, AbandonedUpTo, Enumerates;
    if n == 0 {
      EndAllStarts(st, order, Abandoning);
      NobodyAbandoned(st, order);
    } else {
      AllAbandoned(st, order, n - 1);
      EndAllGoesOn(st, order, n - 1, Abandoning);
      AbandonedNext(st, EndAll(st, order, n - 1, Abandoning), order, n - 1);
    }
  }

  lemma NobodyAbandoned(st: State, order: seq<Oid>)
    ensures AbandonedUpTo(st, st, order, 0)
  {
  }

  lemma AbandonedNext(st: State, mid: State, order: seq<Oid>, n: nat)
    requires Valid(mid) && Enumerates(order, st.entries) && n < |order| && AbandonedUpTo(st, mid, order, n)
    ensures AbandonedUpTo(st, EndOne(mid, order[n], Abandoning), order, n + 1)
  {
    hide Valid, EndOne;
    AbandonOne(mid, order[n]);
    assert mid.entries[order[n]] == st.entries[order[n]];
  }

  lemma AbandonOne(st: State, k: Oid)
    requires Valid(st) && k in st.entries
    ensures var after := EndOne(st, k, Abandoning);
            && SameElsewhere(st, after)
            && (forall j :: j in st.entries ==>
                  var e := st.entries[j];
                  after.entries[j] == if j == k && e.beginRemoteXact then e.(connected := false) else e)
            && forall s :: 0 <= s < |st.sessions| ==> after.sessions[s].events == st.sessions[s].events
  {
    hide Valid;
    AbandonValid(st, k);
  }

  lemma AllForgotten(st: State, order: seq<Oid>)
    requires Valid(st) && Enumerates(order, st.entries)
    ensures Forgotten(st, EndAll(st, order, |order|, Abandoning))
  {
    hide Valid, EndAll;
    AllAbandoned(st, order, |order|);
    var after := EndAll(st, order, |order|, Abandoning);
    forall k | k in st.entries
      ensures var e := st.entries[k]; after.entries[k] == if e.beginRemoteXact then e.(connected := false) else e
    {
      var i :| 0 <= i < |order| && order[i] == k;
    }
  }

  /** Where a scan stopped: the entries before that one have had their turn, it has lost its connection, those after it
      are as they were. */
  ghost predicate StoppedThere(before: State, after: State, order: seq<Oid>, at: nat) {
    && at < |order| && after.entries.Keys == before.entries.Keys
    && forall i :: 0 <= i < |order| && order[i] in before.entries ==>
         var e := before.entries[order[i]];
         if i > at then after.entries[order[i]] == e
         else if i == at then
           e.connected && e.beginRemoteXact &&
           after.entries[order[i]] == e.(connected := false, beginRemoteXact := false)
         else
           after.entries[order[i]] ==
             if e.connected && e.beginRemoteXact
             then e.(beginRemoteXact := false, connected := !e.invalidated && e.keepConnections)
             else e
  }

  lemma StoppedEntries(st: State, after: State, order: seq<Oid>, n: nat, ending: Ending)
    requires Valid(st) && Enumerates(order, st.entries) && ending in {Committing, RollingBack}
    requires StoppedAt(st, after, order, n, ending)
    ensures StoppedThere(st, after, order, n)
  {
    hide Valid, EndAll, EndedSession, EntryValid;
    EndAllMeaning(st, order, n, ending);
    StoppedValid(st, after, order, n, ending);
    var mid := EndAll(st, order, n, ending);
    assert mid.entries[order[n]] == st.entries[order[n]];
  }
}
