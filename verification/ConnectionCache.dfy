/** The connection cache: getting a statement, invalidation, and the end of transactions, with driver calls that
    may fail at any point (connection.c). */
module ConnectionCache {
  import opened AppliedOptions
  import opened ConnectionState
  import opened OptionValidator
  import opened Prelude
  import opened TransactionEnd

  /** The SQLSTATEs that matter here. */
  datatype ErrorCode = FdwError | UnableToConnect | OtherError

  /** The driver calls of `connect_tb_server`, in order. */
  datatype ConnectCall = AllocEnvironment | SetOdbcVersion | AllocConnection | DriverConnect

  datatype Outcome = Done | Throws(code: ErrorCode)

  datatype ForeignServer = ForeignServer(options: seq<DefElem>)

  datatype UserMapping = UserMapping(umid: Oid, serverid: Oid, options: seq<DefElem>)

  /** The catalogs as they are during a call: the mapping, and no server if the row of the mapping's server is gone.
      Their options have been validated. */
  datatype Catalogs = Catalogs(rd: Readers, server: Option<ForeignServer>, user: UserMapping)

  predicate Validated(c: Catalogs) {
    && Acceptable(c.rd, MAPPING_OPTIONS, c.user.options)
    && (c.server.Some? ==> Acceptable(c.rd, SERVER_OPTIONS, c.server.value.options))
  }

  /** The session's transaction was begun last, at the level asked for. */
  predicate BegunAt(s: Session, xactSnapshot: bool) {
    s.events != [] && s.events[|s.events| - 1] == Begin(if xactSnapshot then Serializable else ReadCommitted)
  }

  class ConnectionCache {
    const hashValue: HashValue
    var entries: map<Oid, Entry>
    var xactGotConnection: bool
    var handles: nat
    ghost var sessions: seq<Session>
    ghost var invals: seq<Invalidation>
    ghost var handed: seq<Handed>
    ghost var clock: int
    ghost var writes: seq<Write>

    ghost function Now(): State
      reads this
    {
      State(entries, sessions, invals, handed, clock, writes, hashValue)
    }

    ghost predicate Sound()
      reads this
    {
      Valid(Now()) && handles == |sessions| && 0 <= clock
    }

    /** While no transaction has been noted, none is open on a connection. */
    ghost predicate Covered()
      reads this
    {
      xactGotConnection || NoneParticipates(Now())
    }

    constructor (hashValue: HashValue)
      ensures Sound() && Covered() && entries == map[] && sessions == [] && handed == []
      ensures this.hashValue == hashValue
    {
      this.hashValue := hashValue;
      entries := map[];
      xactGotConnection := false;
      handles := 0;
      sessions, invals, handed, clock, writes := [], [], [], 0, [];
    }

    /** A driver call: SQL_SUCCESS or not. */
    method DriverCall() returns (ok: bool)
    {
      ok := *;
    }

    /** `TbFdwReportError`: whatever failed, the connection is closed if it was open. */
    method ReportError(k: Oid)
      requires Sound() && k in entries
      modifies this`entries, this`sessions
      ensures Sound() && EntryValid(old(Now()), k) && Now() == Close(old(Now()), k)
      ensures LetGo(old(Now()), Now(), k)
    {
      hide Valid, Fresh, SnapshotCurrent, Standing, LetGo;
      CloseValid(Now(), k);
      CloseLetsGo(Now(), k);
      ghost var after := Close(Now(), k);
      if entries[k].connected {
        entries := entries[k := entries[k].(beginRemoteXact := false, connected := false)];
      }
      sessions := after.sessions;
    }

    method DisconnectTbServer(k: Oid) returns (outcome: Outcome)
      requires Sound() && k in entries
      modifies this`entries, this`sessions
      ensures Sound() && EntryValid(old(Now()), k) && Now() == Close(old(Now()), k)
      ensures outcome == Done || (outcome == Throws(FdwError) && old(entries[k].connected))
      ensures LetGo(old(Now()), Now(), k)
    {
      hide Valid, Fresh, SnapshotCurrent, Standing, LetGo;
      CloseValid(Now(), k);
      CloseLetsGo(Now(), k);
      ghost var after := Close(Now(), k);
      outcome := Done;
      if entries[k].connected {
        var ok := DriverCall();
        if ok {
          ok := DriverCall();
        }
        if ok {
          ok := DriverCall();
        }
        if !ok {
          ReportError(k);
          return Throws(FdwError);
        }
        entries := entries[k := entries[k].(beginRemoteXact := false, connected := false)];
        sessions := after.sessions;
      }
    }

    /** The entry as `make_tb_connection` leaves it, but for the session. */
    function Renewed(e: Entry, c: Catalogs): Entry
      requires c.server.Some?
    {
      e.(serverid := c.user.serverid, serverHash := hashValue(ForeignServerOid, c.user.serverid),
         mappingHash := hashValue(UserMappingOid, c.user.umid), invalidated := false, beginRemoteXact := false,
         stmtTs := 0, keepConnections := Kept(c.rd, LastValue(c.server.value.options, "keep_connections")))
    }

    /** The strings are those the source asserts to be present. */
    method ConnectTbServer(k: Oid, strings: ConnectionStrings)
      returns (outcome: Outcome, ghost failed: Option<ConnectCall>)
      requires Sound() && k in entries && !entries[k].connected && !entries[k].beginRemoteXact
      requires entries[k].stmtTs == 0 && AllPresent(strings) && KnowsHashes(entries[k], k, hashValue)
      modifies this`entries, this`handles, this`sessions
      ensures Sound()
      ensures Now() == if outcome == Done then Connected(old(Now()), k, old(entries[k])) else old(Now())
      ensures outcome == match failed
                         case None => Done
                         case Some(DriverConnect) => Throws(UnableToConnect)
                         case Some(_) => Throws(FdwError)
    {
      hide Valid;
      failed := Some(AllocEnvironment);
      var ok := DriverCall();
      if ok {
        failed := Some(SetOdbcVersion);
        ok := DriverCall();
      }
      if ok {
        failed := Some(AllocConnection);
        ok := DriverCall();
      }
      if !ok {
        ReportError(k);
        return Throws(FdwError), failed;
      }
      failed := Some(DriverConnect);
      ok := DriverCall();
      if !ok {
        ReportError(k);
        return Throws(UnableToConnect), failed;
      }
      ConnectedValid(Now(), k, entries[k]);
      entries := entries[k := entries[k].(hdbc := handles, connected := true)];
      handles := handles + 1;
      sessions := sessions + [Session(k, entries[k].serverid, |invals|, [], false)];
      return Done, None;
    }

    method MakeTbConnection(k: Oid, c: Catalogs) returns (outcome: Outcome)
      requires Sound() && k in entries && !entries[k].connected && Validated(c) && k == c.user.umid
      modifies this`entries, this`handles, this`sessions
      ensures Sound() && Attempted(old(Now()), Now(), k)
      ensures outcome == Throws(OtherError) <==> c.server.None?
      ensures outcome == Done ==> c.server.Some? && Now() == Connected(old(Now()), k, Renewed(old(entries[k]), c))
      ensures k in entries && (outcome != Done ==> !entries[k].connected && sessions == old(sessions))
      ensures outcome == Done ==>
                var keep := match LastValue(c.server.value.options, "keep_connections")
                            case None => true
                            case Some(value) => c.rd.parseBool(value) == Some(true);
                && sessions == old(sessions) + [Session(c.user.umid, c.user.serverid, |invals|, [], false)]
                && entries[k] == Entry(|old(sessions)|, true, false, false, keep, c.user.serverid,
                                       hashValue(ForeignServerOid, c.user.serverid),
                                       hashValue(UserMappingOid, c.user.umid), old(entries[k]).tsn, 0)
    {
      hide Valid, Acceptable, Attempted, LastValue, AllPresent;
      ghost var before := Now();
      if c.server.None? {
        AttemptedNothing(before, k);
        return Throws(OtherError);
      }
      entries := entries[k := entries[k].(serverid := c.user.serverid,
                                          serverHash := hashValue(ForeignServerOid, c.user.serverid),
                                          mappingHash := hashValue(UserMappingOid, c.user.umid),
                                          invalidated := false, beginRemoteXact := false, keepConnections := true,
                                          stmtTs := 0)];
      var strings, keep := CollectConnectionStrings(c.rd, c.server.value.options, c.user.options);
      entries := entries[k := entries[k].(keepConnections := keep)];
      ghost var renewed := Renewed(before.entries[k], c);
      assert Now() == before.(entries := before.entries[k := renewed]);
      UnconnectedAttempted(before, Now(), k, renewed);
      assert Valid(Now()) by {
        AttemptedIsValid(before, Now(), k);
      }
      ghost var failed: Option<ConnectCall>;
      outcome, failed := ConnectTbServer(k, strings);
      if outcome == Done {
        ConnectedAttempted(before, k, renewed);
        assert Now() == Connected(before, k, renewed);
      }
    }

    static lemma AttemptedIsValid(before: State, after: State, k: Oid)
      requires Attempted(before, after, k)
      ensures Valid(after) && k in after.entries && after.handed == before.handed && after.invals == before.invals
      ensures after.clock == before.clock
    {
      hide Valid;
    }

    method BeginRemoteXact(k: Oid, serializable: bool) returns (outcome: Outcome)
      requires Sound() && k in entries && entries[k].connected && !entries[k].beginRemoteXact
      modifies this`entries, this`sessions
      ensures Sound() && EntryValid(old(Now()), k) && Attempted(old(Now()), Now(), k)
      ensures outcome in {Done, Throws(FdwError)}
      ensures var level := if serializable then Serializable else ReadCommitted;
              Now() == if outcome == Done then Begun(old(Now()), k, level) else Close(old(Now()), k)
      ensures outcome == Done ==>
                var s := old(entries[k]).hdbc;
                && entries == old(entries)[k := old(entries[k]).(beginRemoteXact := true)]
                && s < |sessions| && BegunAt(sessions[s], serializable)
    {
      hide Valid, Fresh, SnapshotCurrent, Standing, Attempted;
      ghost var level := ReadCommitted;
      var ok := DriverCall();
      if ok {
        if serializable {
          level := Serializable;
          ok := DriverCall();
        } else {
          level := ReadCommitted;
          ok := DriverCall();
        }
      }
      BegunAttempted(Now(), k, level);
      CloseAttempted(Now(), k);
      BegunValid(Now(), k, level);
      if !ok {
        ReportError(k);
        return Throws(FdwError);
      }
      ghost var after := Begun(Now(), k, level);
      entries := entries[k := entries[k].(beginRemoteXact := true)];
      sessions := after.sessions;
      return Done;
    }

    predicate NeedRemoteSnapshot(k: Oid, xactSnapshot: bool, now: int)
      requires k in entries
      reads this`entries
    {
      !xactSnapshot && entries[k].stmtTs != now
    }

    /** Reads the remote snapshot number into the entry. */
    method FetchSnapshot(k: Oid, now: int) returns (outcome: Outcome)
      requires Sound() && k in entries && entries[k].connected && entries[k].stmtTs != now && now == clock
      modifies this`entries, this`sessions, this`writes
      ensures Sound() && Attempted(old(Now()), Now(), k)
      ensures outcome in {Done, Throws(FdwError)}
      ensures outcome == Done ==> Now() == Snapshot(old(Now()), k, entries[k].tsn)
      ensures k in entries && (outcome != Done ==> !entries[k].connected)
    {
      hide Valid, EntryValid, Attempted;
      ghost var before := Now();
      CloseAttempted(before, k);
      CloseValid(before, k);
      var ok := DriverCall();
      if ok {
        ok := DriverCall();
      }
      if ok {
        ok := DriverCall();
      }
      if !ok {
        ReportError(k);
        return Throws(FdwError);
      }
      var tsn: Tsn := *;
      ok := DriverCall();
      if !ok {
        ReportError(k);
        ghost var closed := Now();
        entries := entries[k := entries[k].(tsn := tsn)];
        writes := writes + [Write(k, tsn)];
        UnconnectedAttempted(closed, Now(), k, entries[k]);
        AttemptedTransitive(before, closed, Now(), k);
        AttemptedIsValid(before, Now(), k);
        return Throws(FdwError);
      }
      SnapshotAttempted(before, k, tsn);
      AttemptedIsValid(before, Snapshot(before, k, tsn), k);
      entries := entries[k := entries[k].(tsn := tsn, stmtTs := now)];
      writes := writes + [Write(k, tsn)];
      return Done;
    }

    /** The entry's session: the one it has, unless that was invalidated, or a new one. */
    method Reconnect(k: Oid, c: Catalogs) returns (outcome: Outcome)
      requires Sound() && k in entries && Validated(c) && k == c.user.umid
      modifies this`entries, this`handles, this`sessions
      ensures Sound() && Attempted(old(Now()), Now(), k)
      ensures k in entries && (outcome != Done ==> !entries[k].connected)
      ensures outcome == Done ==>
                var e := old(entries)[k];
                if e.connected && !e.invalidated then Now() == old(Now())
                else
                  && entries[k].connected && !entries[k].invalidated && !entries[k].beginRemoteXact
                  && |old(sessions)| <= entries[k].hdbc && entries[k].serverid == c.user.serverid
                  && entries[k].stmtTs == 0 && entries[k].tsn == e.tsn
    {
      hide Valid, EntryValid, Attempted, Apart, Fresh, Validated, LetGo, LastValue, Kept;
      ghost var before := Now();
      AttemptedNothing(before, k);
      outcome := Done;
      if entries[k].connected && entries[k].invalidated {
        outcome := DisconnectTbServer(k);
        CloseAttempted(before, k);
        if outcome != Done {
          return;
        }
      }
      ghost var mid := Now();
      if !entries[k].connected {
        outcome := MakeTbConnection(k, c);
        AttemptedTransitive(before, mid, Now(), k);
      }
    }

    /** The body of the PG_TRY block. */
    method TryStatement(k: Oid, c: Catalogs, useFbQuery: bool, xactSnapshot: bool, now: int)
      returns (outcome: Outcome, tsn: Tsn, ghost fetched: bool)
      requires Sound() && k in entries && Validated(c) && k == c.user.umid && clock == now
      modifies this`entries, this`handles, this`sessions, this`writes
      ensures Sound() && Attempted(old(Now()), Now(), k)
      ensures k in entries && (outcome == Throws(FdwError) ==> !entries[k].connected)
      ensures outcome == Done ==> Ready(Now(), k) && tsn == entries[k].tsn
      ensures outcome == Done ==>
                var e := old(entries[k]);
                var keep := e.connected && !e.invalidated;
                var prior := if keep then e.stmtTs else 0;
                && (fetched <==> useFbQuery && !xactSnapshot && prior != now)
                && entries[k].stmtTs == (if fetched then now else prior)
                && (!fetched ==> entries[k].tsn == e.tsn)
                && (keep ==> entries[k].hdbc == e.hdbc && entries[k].serverid == e.serverid)
                && (!keep ==> |old(sessions)| <= entries[k].hdbc && entries[k].serverid == c.user.serverid)
                && entries[k].hdbc < |sessions|
                && if keep && e.beginRemoteXact
                   then e.hdbc < |old(sessions)| && sessions[e.hdbc] == old(sessions)[e.hdbc]
                   else BegunAt(sessions[entries[k].hdbc], xactSnapshot)
    {
      hide Valid, EntryValid, Attempted, Apart, Fresh, Validated, Ready, LetGo, BegunAt, LastValue, Kept;
      ghost var before := Now();
      tsn, fetched := "", false;
      outcome := Reconnect(k, c);
      if outcome != Done {
        return;
      }
      ghost var s2 := Now();
      var ok := DriverCall();
      if !ok {
        ReportError(k);
        CloseAttempted(s2, k);
        AttemptedTransitive(before, s2, Now(), k);
        return Throws(FdwError), "", false;
      }
      if !entries[k].beginRemoteXact {
        outcome := BeginRemoteXact(k, xactSnapshot);
        AttemptedTransitive(before, s2, Now(), k);
        if outcome != Done {
          return;
        }
      }
      ghost var s3 := Now();
      if useFbQuery && NeedRemoteSnapshot(k, xactSnapshot, now) {
        outcome := FetchSnapshot(k, now);
        AttemptedTransitive(before, s3, Now(), k);
        if outcome != Done {
          return;
        }
        fetched := true;
      }
      tsn := entries[k].tsn;
      outcome := Done;
      ConnectedIsReady(Now(), k);
    }

    /** Open, and not invalidated, is all it takes. */
    static lemma ConnectedIsReady(st: State, k: Oid)
      requires Valid(st) && k in st.entries && Participates(st.entries[k]) && !st.entries[k].invalidated
      ensures Ready(st, k)
    {
      assert EntryValid(st, k);
    }

    /** The entry's connection, found or made, and its number: the first try and, after an error of the wrapper's own,
        the second. `first` is how the first try ended. */
    method Obtain(k: Oid, c: Catalogs, useFbQuery: bool, xactSnapshot: bool, now: int, stmtTsn: Tsn)
      returns (outcome: Outcome, tsn: Tsn, ghost first: Outcome, ghost retried: bool, ghost fetched: bool)
      requires Sound() && Validated(c) && k == c.user.umid && clock == now
      modifies this`entries, this`handles, this`sessions, this`writes
      ensures Sound() && Attempted(old(Now()), Now(), k) && k in entries
      ensures outcome == Done ==> Ready(Now(), k)
      ensures retried ==> tsn == stmtTsn && !fetched
      ensures (retried <==> first == Throws(FdwError)) && (!retried ==> outcome == first)
      ensures outcome == Done && retried ==>
                && |old(sessions)| <= entries[k].hdbc < |sessions| && entries[k].serverid == c.user.serverid
                && BegunAt(sessions[entries[k].hdbc], xactSnapshot)
      ensures outcome == Done && !retried ==>
                var keep := k in old(entries) && old(entries)[k].connected && !old(entries)[k].invalidated;
                var prior := if keep then old(entries)[k].stmtTs else 0;
                && tsn == entries[k].tsn && entries[k].stmtTs == (if fetched then now else prior)
                && (fetched <==> useFbQuery && !xactSnapshot && prior != now)
                && (keep ==> entries[k].hdbc == old(entries)[k].hdbc)
                && (keep && !fetched ==> tsn == old(entries)[k].tsn)
                && (!keep ==> |old(sessions)| <= entries[k].hdbc && entries[k].serverid == c.user.serverid)
                && entries[k].hdbc < |sessions|
                && if keep && old(entries)[k].beginRemoteXact
                   then |old(sessions)| > entries[k].hdbc &&
                        sessions[entries[k].hdbc] == old(sessions)[entries[k].hdbc]
                   else BegunAt(sessions[entries[k].hdbc], xactSnapshot)
    {
      hide Valid, EntryValid, Attempted, Fresh, Validated, Ready, QuietSessions, Apart, BegunAt;
      ghost var before := Now();
      if k !in entries {
        var e: Entry := *;
        entries := entries[k := e.(connected := false)];
        writes := writes + [Write(k, e.tsn)];
        UnconnectedAttempted(before, Now(), k, entries[k]);
        AttemptedIsValid(before, Now(), k);
      } else {
        AttemptedNothing(before, k);
      }
      ghost var s1 := Now();
      outcome, tsn, fetched := TryStatement(k, c, useFbQuery, xactSnapshot, now);
      first := outcome;
      var retry := outcome == Throws(FdwError);
      retried := retry;
      AttemptedTransitive(before, s1, Now(), k);
      if retry {
        outcome := Retry(k, c, xactSnapshot, before);
        tsn, fetched := stmtTsn, false;
      }
      AttemptedIsValid(before, Now(), k);
    }

    /** A statement on the mapping's connection, for the local statement that started at `now`. After an error of
        the wrapper's own there is one more try, on a new session, and that one reads no snapshot. */
    method GetTbStatement(c: Catalogs, useFbQuery: bool, xactSnapshot: bool, now: int, stmtTsn: Tsn)
      returns (outcome: Outcome, tsn: Tsn, ghost first: Outcome, ghost retried: bool, ghost fetched: bool)
      requires Sound() && Validated(c) && clock <= now
      modifies this
      ensures Sound() && xactGotConnection && clock == now
      ensures Apart(old(Now()).(clock := now), Now(), c.user.umid) && QuietSessions(old(sessions), sessions)
      ensures outcome == Done ==> Ready(Now(), c.user.umid)
      ensures handed == old(handed) +
                (if outcome == Done
                 then [Handed(entries[c.user.umid].hdbc, now, tsn, useFbQuery && !xactSnapshot && !retried, |invals|,
                              |sessions[entries[c.user.umid].hdbc].events|, !retried, |writes|)]
                 else [])
      ensures outcome == Done ==> LostIfReplaced(old(Now()), Now(), c.user.umid)
      ensures outcome == Done && c.user.umid in old(entries) && old(entries)[c.user.umid].connected ==>
                (entries[c.user.umid].hdbc != old(entries)[c.user.umid].hdbc <==>
                 retried || old(entries)[c.user.umid].invalidated)
      ensures retried ==> tsn == stmtTsn && !fetched
      ensures c.user.umid in old(entries) && writes == old(writes) ==>
                c.user.umid in entries && entries[c.user.umid].tsn == old(entries)[c.user.umid].tsn
      ensures (retried <==> first == Throws(FdwError)) && (!retried ==> outcome == first)
      ensures outcome == Done && !retried ==>
                var k := c.user.umid;
                var keep := k in old(entries) && old(entries)[k].connected && !old(entries)[k].invalidated;
                var prior := if keep then old(entries)[k].stmtTs else 0;
                && tsn == entries[k].tsn
                && (fetched <==> useFbQuery && !xactSnapshot && prior != now)
                && (keep ==> entries[k].hdbc == old(entries)[k].hdbc)
                && (keep && !fetched ==> tsn == old(entries)[k].tsn)
                && (!keep ==> |old(sessions)| <= entries[k].hdbc)
      ensures outcome == Done ==>
                var k := c.user.umid;
                var s := entries[k].hdbc;
                && s < |sessions| && sessions[s].owner == k
                && (|old(sessions)| <= s ==> sessions[s].server == c.user.serverid)
                && if s < |old(sessions)| && k in old(entries) && old(entries)[k].beginRemoteXact
                   then sessions[s] == old(sessions)[s]
                   else BegunAt(sessions[s], xactSnapshot)
    {
      hide Valid, EntryValid, Attempted, Fresh, Validated, Ready, QuietSessions, Apart, LostIfReplaced, Participates,
           BegunAt;
      var k := c.user.umid;
      xactGotConnection := true;
      LaterValid(Now(), now);
      clock := now;
      ghost var before := Now();
      outcome, tsn, first, retried, fetched := Obtain(k, c, useFbQuery, xactSnapshot, now, stmtTsn);
      AttemptedApart(before, Now(), k);
      ReplacedIsLost(before, Now(), k);
      SameBuffer(before, Now(), k);
      if outcome == Done {
        ghost var ready := Now();
        OwnsSession(ready, k);
        HandedOutValid(ready, k, tsn, useFbQuery && !xactSnapshot && !retried, !retried);
        handed := HandedOut(ready, k, tsn, useFbQuery && !xactSnapshot && !retried, !retried).handed;
        HandingChangesNothing(before, ready, Now(), k, old(clock));
      }
    }

    static lemma OwnsSession(st: State, k: Oid)
      requires Valid(st) && Ready(st, k)
      ensures st.entries[k].hdbc < |st.sessions|
      ensures var s := st.sessions[st.entries[k].hdbc]; s.owner == k && s.server == st.entries[k].serverid
    {
      hide HandedValid, Fresh;
      assert EntryValid(st, k);
    }

    static lemma SameBuffer(before: State, after: State, k: Oid)
      requires Valid(before) && Valid(after) && k in after.entries
      ensures k in before.entries && after.writes == before.writes ==>
                after.entries[k].tsn == before.entries[k].tsn
    {
      hide HandedValid, EntryValid, Buffer;
    }

    /** The second try: a new session, whatever was wrong with the old one. */
    method Retry(k: Oid, c: Catalogs, xactSnapshot: bool, ghost before: State) returns (outcome: Outcome)
      requires Sound() && k in entries && !entries[k].connected && Validated(c) && k == c.user.umid
      requires Attempted(before, Now(), k)
      modifies this`entries, this`handles, this`sessions
      ensures Sound() && Attempted(before, Now(), k)
      ensures outcome == Done ==> Ready(Now(), k) && |before.sessions| <= |old(sessions)| <= entries[k].hdbc
      ensures outcome == Done ==>
                && entries[k].serverid == c.user.serverid && entries[k].hdbc < |sessions|
                && BegunAt(sessions[entries[k].hdbc], xactSnapshot)
    {
      hide Valid, EntryValid, Attempted, Validated, Ready, Apart, QuietSessions;
      MoreSessions(before, Now(), k);
      outcome := DisconnectTbServer(k);
      if outcome != Done {
        return;
      }
      ghost var s1 := Now();
      outcome := MakeTbConnection(k, c);
      AttemptedTransitive(before, s1, Now(), k);
      if outcome != Done {
        return;
      }
      ghost var s2 := Now();
      var ok := DriverCall();
      if !ok {
        ReportError(k);
        CloseAttempted(s2, k);
        AttemptedTransitive(before, s2, Now(), k);
        return Throws(FdwError);
      }
      outcome := BeginRemoteXact(k, xactSnapshot);
      AttemptedTransitive(before, s2, Now(), k);
      if outcome == Done {
        ConnectedIsReady(Now(), k);
      }
    }

    static lemma MoreSessions(before: State, after: State, k: Oid)
      requires Attempted(before, after, k)
      ensures |before.sessions| <= |after.sessions|
    {
      hide Valid;
    }

    static lemma AttemptedApart(before: State, after: State, k: Oid)
      requires Attempted(before, after, k)
      ensures Valid(after) && Apart(before, after, k) && QuietSessions(before.sessions, after.sessions)
      ensures after.handed == before.handed && k in after.entries && after.invals == before.invals
    {
      hide Valid, QuietSessions;
    }

    static lemma HandingChangesNothing(before: State, ready: State, after: State, k: Oid, clock: int)
      requires Apart(before, ready, k) && Ready(ready, k) && after == ready.(handed := after.handed)
      ensures Apart(before, after, k) && Ready(after, k)
      ensures LostIfReplaced(before, ready, k) ==> LostIfReplaced(before.(clock := clock), after, k)
    {
      hide Fresh, Open;
    }

    /** `TbfdwInvalCallback`, over the entries in the order the hash table yields them. */
    method InvalCallback(inv: Invalidation, order: seq<Oid>)
      requires Sound() && Enumerates(order, entries)
      modifies this`entries, this`invals
      ensures Sound() && Now() == Invalidated(old(Now()), inv)
      ensures invals == old(invals) + [inv] && entries.Keys == old(entries).Keys
      ensures forall k :: k in old(entries) ==>
                var e := old(entries)[k];
                var hit := inv.hash == 0 || match inv.cache
                                            case ForeignServerOid => e.serverHash == inv.hash
                                            case UserMappingOid => e.mappingHash == inv.hash;
                entries[k] == if e.connected && hit then e.(invalidated := true) else e
    {
      hide Valid;
      InvalidatedValid(Now(), inv);
      for i := 0 to |order|
        invariant entries.Keys == old(entries).Keys && invals == old(invals)
        invariant forall j :: i <= j < |order| ==> entries[order[j]] == old(entries)[order[j]]
        invariant forall j :: 0 <= j < i ==> entries[order[j]] == Hit(inv, old(entries)[order[j]])
      {
        var k := order[i];
        if entries[k].connected {
          if inv.hash == 0 || (inv.cache == ForeignServerOid && entries[k].serverHash == inv.hash) ||
             (inv.cache == UserMappingOid && entries[k].mappingHash == inv.hash) {
            entries := entries[k := entries[k].(invalidated := true)];
          }
        }
      }
      invals := invals + [inv];
      AllHit(old(entries), entries, inv, order);
    }

    static lemma AllHit(before: map<Oid, Entry>, after: map<Oid, Entry>, inv: Invalidation, order: seq<Oid>)
      requires Enumerates(order, before) && after.Keys == before.Keys
      requires forall j :: 0 <= j < |order| ==> after[order[j]] == Hit(inv, before[order[j]])
      ensures after == HitAll(inv, before)
    {
      hide Hit;
      forall k | k in before
        ensures after[k] == Hit(inv, before[k])
      {
        var j :| 0 <= j < |order| && order[j] == k;
      }
    }

    method TbSQLEndTran(k: Oid, how: Event) returns (outcome: Outcome)
      requires Sound() && k in entries && Participates(entries[k]) && how in {Commit, Rollback}
      modifies this`entries, this`sessions
      ensures Sound() && EntryValid(old(Now()), k)
      ensures outcome in {Done, Throws(FdwError)}
      ensures Now() == if outcome == Done then Resolve(old(Now()), k, how) else Close(old(Now()), k)
    {
      hide Valid, Fresh, SnapshotCurrent, Standing;
      ResolveValid(Now(), k, how);
      var ok := DriverCall();
      if !ok {
        ReportError(k);
        return Throws(FdwError);
      }
      ghost var after := Resolve(Now(), k, how);
      entries := entries[k := entries[k].(beginRemoteXact := false)];
      sessions := after.sessions;
      return Done;
    }

    /** One entry's turn at the end of a transaction. */
    method EndConnection(k: Oid, ghost ending: Ending, how: Event) returns (outcome: Outcome)
      requires Sound() && k in entries && Participates(entries[k])
      requires ending in {Committing, RollingBack} && how == Completion(ending)
      modifies this`entries, this`sessions
      ensures Sound() && EntryValid(old(Now()), k)
      ensures outcome in {Done, Throws(FdwError)}
      ensures outcome == Done ==> Now() == EndOne(old(Now()), k, ending)
      ensures outcome != Done ==> Now() == Close(old(Now()), k) || Now() == Close(Resolve(old(Now()), k, how), k)
    {
      hide Valid, Fresh, SnapshotCurrent, Standing;
      outcome := TbSQLEndTran(k, how);
      if outcome == Done && (entries[k].invalidated || !entries[k].keepConnections) {
        outcome := DisconnectTbServer(k);
      }
    }

    /** The loop body of `TbfdwXactCallback`. */
    method EndTurn(k: Oid, event: XactEvent, trouble: bool) returns (outcome: Outcome)
      requires Sound() && k in entries
      modifies this`entries, this`sessions
      ensures Sound() && EntryValid(old(Now()), k) && entries.Keys == old(entries).Keys
      ensures outcome in {Done, Throws(FdwError)}
      ensures outcome == Done ==> Now() == EndOne(old(Now()), k, EndingOf(event, trouble))
      ensures outcome != Done ==>
                var ending := EndingOf(event, trouble);
                && ending in {Committing, RollingBack} && Participates(old(entries[k]))
                && (Now() == Close(old(Now()), k) || Now() == Close(Resolve(old(Now()), k, Completion(ending)), k))
      ensures outcome == Done ==>
                var e := old(entries)[k];
                entries == old(entries)[k :=
                  if !e.beginRemoteXact || event in {PrePrepare, ParallelCommitted, Committed, Prepared} then e
                  else if event in {ParallelAbort, Abort} && trouble then e.(connected := false)
                  else if !e.connected then e
                  else e.(beginRemoteXact := false, connected := !e.invalidated && e.keepConnections)]
      ensures outcome == Done && old(entries)[k].connected && old(entries)[k].beginRemoteXact ==>
                var s := old(entries)[k].hdbc;
                && s < |old(sessions)| == |sessions|
                && sessions[s].events == old(sessions)[s].events +
                     if event in {ParallelPreCommit, PreCommit} then [Commit]
                     else if event in {ParallelAbort, Abort} && !trouble then [Rollback]
                     else []
    {
      hide Valid, Fresh, SnapshotCurrent, Standing;
      TurnMeaning(Now(), k, event, trouble);
      AbandonValid(Now(), k);
      outcome := Done;
      if entries[k].beginRemoteXact {
        match event {
          case ParallelPreCommit | PreCommit =>
            if entries[k].connected {
              outcome := EndConnection(k, Committing, Commit);
            }
          case PrePrepare | ParallelCommitted | Committed | Prepared =>
          case ParallelAbort | Abort =>
            if trouble {
              sessions := Abandon(Now(), k).sessions;
              entries := entries[k := entries[k].(connected := false)];
              assert old(entries)[k].connected || entries == old(entries);
            } else if entries[k].connected {
              outcome := EndConnection(k, RollingBack, Rollback);
            }
        }
      }
    }

    /** The turn, field by field. */
    static lemma TurnMeaning(st: State, k: Oid, event: XactEvent, trouble: bool)
      requires Valid(st) && k in st.entries
      ensures st.entries[k].connected ==> st.entries[k].hdbc < |st.sessions|
      ensures var e, after := st.entries[k], EndOne(st, k, EndingOf(event, trouble));
              after.entries == st.entries[k :=
                if !e.beginRemoteXact || event in {PrePrepare, ParallelCommitted, Committed, Prepared} then e
                else if event in {ParallelAbort, Abort} && trouble then e.(connected := false)
                else if !e.connected then e
                else e.(beginRemoteXact := false, connected := !e.invalidated && e.keepConnections)]
      ensures var e, after := st.entries[k], EndOne(st, k, EndingOf(event, trouble));
              e.connected && e.beginRemoteXact ==>
                && |after.sessions| == |st.sessions|
                && after.sessions[e.hdbc].events == st.sessions[e.hdbc].events +
                     if event in {ParallelPreCommit, PreCommit} then [Commit]
                     else if event in {ParallelAbort, Abort} && !trouble then [Rollback]
                     else []
    {
      hide Valid, EntryValid;
      var e := st.entries[k];
      OpenIsHeldAll(st, k);
      assert st.entries == st.entries[k := e];
    }

    /** `TbfdwXactCallback`, over the entries in the order the hash table yields them. It returns normally after
        every entry has had its turn, or throws at entry `at`, leaving the rest for a later callback. */
    method XactCallback(event: XactEvent, trouble: bool, order: seq<Oid>) returns (outcome: Outcome, ghost at: nat)
      requires Sound() && Enumerates(order, entries)
      modifies this`entries, this`sessions, this`xactGotConnection
      ensures Sound() && entries.Keys == old(entries).Keys && outcome in {Done, Throws(FdwError)}
      ensures !old(xactGotConnection) ==> outcome == Done && Now() == old(Now())
      ensures xactGotConnection <==> outcome != Done
      ensures old(xactGotConnection) && outcome == Done ==>
                Now() == EndAll(old(Now()), order, |order|, EndingOf(event, trouble))
      ensures outcome != Done ==>
                EndingOf(event, trouble) in {Committing, RollingBack} &&
                StoppedAt(old(Now()), Now(), order, at, EndingOf(event, trouble))
      ensures old(xactGotConnection) && outcome == Done && event in {ParallelPreCommit, PreCommit} ==>
                Finished(old(Now()), Now(), Commit)
      ensures old(xactGotConnection) && outcome == Done && event in {ParallelAbort, Abort} ==>
                if trouble then Forgotten(old(Now()), Now()) else Finished(old(Now()), Now(), Rollback)
      ensures event in {PrePrepare, ParallelCommitted, Committed, Prepared} ==> outcome == Done && Now() == old(Now())
      ensures outcome != Done ==> StoppedThere(old(Now()), Now(), order, at)
    {
      hide Valid, EntryValid, EndOne, EndAll, StoppedAt, Close, Resolve, Finished, Forgotten, StoppedThere, Completion,
           Participates;
      ghost var before, ending := Now(), EndingOf(event, trouble);
      outcome, at := Done, 0;
      if !xactGotConnection {
        return;
      }
      EndAllStarts(before, order, ending);
      for i := 0 to |order|
        invariant Sound() && xactGotConnection && Now() == EndAll(before, order, i, ending)
        invariant outcome == Done
      {
        ghost var mid := Now();
        outcome := EndTurn(order[i], event, trouble);
        if outcome != Done {
          at := i;
          StopsHere(before, mid, Now(), order, i, ending);
          StoppedEntries(before, Now(), order, i, ending);
          return;
        }
        EndAllGoesOn(before, order, i, ending);
      }
      xactGotConnection := false;
      ReturnMeaning(before, order, event, trouble);
    }

    static lemma ReturnMeaning(before: State, order: seq<Oid>, event: XactEvent, trouble: bool)
      requires Valid(before) && Enumerates(order, before.entries)
      ensures var after := EndAll(before, order, |order|, EndingOf(event, trouble));
              && (event in {ParallelPreCommit, PreCommit} ==> Finished(before, after, Commit))
              && (event in {ParallelAbort, Abort} ==>
                    if trouble then Forgotten(before, after) else Finished(before, after, Rollback))
              && (event in {PrePrepare, ParallelCommitted, Committed, Prepared} ==> after == before)
    {
      hide Valid, EndAll, EndedUpTo, Finished, Forgotten, Enumerates;
      var ending := EndingOf(event, trouble);
      if ending == Nothing {
        NothingEnds(before, order, |order|);
      } else if ending == Abandoning {
        AllForgotten(before, order);
      } else {
        EndAllMeaning(before, order, |order|, ending);
        AllFinished(before, EndAll(before, order, |order|, ending), order, Completion(ending));
      }
    }

    static lemma StopsHere(before: State, mid: State, after: State, order: seq<Oid>, n: nat, ending: Ending)
      requires Valid(before) && n < |order| && mid == EndAll(before, order, n, ending)
      requires order[n] in mid.entries && EntryValid(mid, order[n]) && Participates(mid.entries[order[n]])
      requires after == Close(mid, order[n]) ||
               after == Close(Resolve(mid, order[n], Completion(ending)), order[n])
      ensures StoppedAt(before, after, order, n, ending)
    {
      hide EntryValid, Close, Resolve;
    }

    /** Some order of the hash table's entries. */
    method ScanOrder() returns (order: seq<Oid>)
      ensures Enumerates(order, entries)
    {
      order := [];
      var rest := entries.Keys;
      while rest != {}
        invariant rest <= entries.Keys
        invariant forall k :: k in entries ==> (k in rest <==> k !in order)
        invariant forall i :: 0 <= i < |order| ==> order[i] in entries
        invariant forall i, j :: 0 <= i < j < |order| ==> order[i] != order[j]
        decreases rest
      {
        var k :| k in rest;
        order := order + [k];
        rest := rest - {k};
      }
    }

    /** The end of a local transaction: the callback before a commit and, if that throws or the transaction aborts
        anyway, abort callbacks until one returns. Whatever fails, every remote transaction that was open ends up
        with exactly one fate, and those committed belong to a prefix of the scan order. */
    method EndLocalTransaction(commit: bool, order: seq<Oid>) returns (done: bool, ghost committed: nat)
      requires Sound() && Covered() && Enumerates(order, entries)
      modifies this`entries, this`sessions, this`xactGotConnection
      ensures Sound() && !xactGotConnection && NoneParticipates(Now())
      ensures committed <= |order| && Fates(old(Now()), Now(), order[..committed])
      ensures EachResolved(old(Now()), Now())
      ensures done ==> commit && committed == |order| && Finished(old(Now()), Now(), Commit)
      ensures !commit ==> committed == 0
    {
      hide Valid, Fates, Enumerates, EndAll, StoppedAt, NoneParticipates, EachResolved, Live, Finished, StoppedThere,
           Forgotten;
      ghost var before, got := Now(), xactGotConnection;
      ghost var at: nat;
      var outcome: Outcome;
      outcome, at := XactCallback(if commit then PreCommit else Abort, false, order);
      done := commit && outcome == Done;
      committed := CallbackFates(before, Now(), order, at, if commit then Committing else RollingBack, got,
                                 outcome == Done);
      if done {
        if !got {
          NothingFinished(before);
        }
        SameKeysEnumerate(order, before.entries, entries);
        var again, nowhere := XactCallback(Committed, false, order);
      }
      while outcome != Done
        invariant Sound() && entries.Keys == before.entries.Keys && (outcome != Done <==> xactGotConnection)
        invariant Fates(before, Now(), order[..committed]) && (outcome == Done ==> NoneParticipates(Now()))
        invariant done ==> outcome == Done && Finished(before, Now(), Commit)
        decreases outcome != Done, Live(Now())
      {
        ghost var mid := Now();
        SameKeysEnumerate(order, before.entries, entries);
        outcome, at := XactCallback(Abort, false, order);
        ghost var none := CallbackFates(mid, Now(), order, at, RollingBack, true, outcome == Done);
        assert order[..none] == [];
        FatesCompose(before, mid, Now(), order[..committed]);
      }
      FatesResolve(before, Now(), order[..committed]);
    }

    static lemma SameKeysEnumerate(order: seq<Oid>, a: map<Oid, Entry>, b: map<Oid, Entry>)
      requires Enumerates(order, a) && a.Keys == b.Keys
      ensures Enumerates(order, b)
    {
    }

    /** What a callback amounts to, whether it returned or not. */
    static lemma CallbackFates(before: State, after: State, order: seq<Oid>, at: nat, ending: Ending, got: bool,
                               returned: bool) returns (committed: nat)
      requires Valid(before) && Enumerates(order, before.entries) && ending in {Committing, RollingBack}
      requires !got ==> returned && after == before && NoneParticipates(before)
      requires got && returned ==> after == EndAll(before, order, |order|, ending)
      requires !returned ==> StoppedAt(before, after, order, at, ending)
      ensures committed <= |order| && Fates(before, after, order[..committed])
      ensures ending == RollingBack ==> committed == 0
      ensures ending == Committing && returned ==> committed == |order|
      ensures returned ==> NoneParticipates(after)
      ensures !returned ==> Live(after) < Live(before)
    {
      hide Valid, EndAll, StoppedAt, Fates, EndedUpTo, Enumerates, NoneParticipates;
      if !returned {
        committed := StoppedFates(before, after, order, at, ending);
      } else {
        committed := if ending == Committing then |order| else 0;
        assert order[..0] == [];
        if got {
          EndAllMeaning(before, order, |order|, ending);
          AllEnded(before, after, order, Completion(ending));
          EndedFates(before, after, order, |order|, ending);
        } else {
          NothingToEnd(before, order[..committed]);
        }
      }
    }

    static lemma NothingFinished(st: State)
      requires Valid(st) && NoneParticipates(st)
      ensures Finished(st, st, Commit)
    {
      hide Fresh, SnapshotCurrent, HandedValid, Alternates, NumbersValid;
      forall s | 0 <= s < |st.sessions|
        ensures !(Open(st.sessions[s].events) && !st.sessions[s].abandoned)
      {
        assert SessionValid(st, s);
        if st.sessions[s].owner in st.entries {
          assert EntryValid(st, st.sessions[s].owner);
        }
      }
    }

    static lemma NothingToEnd(st: State, owners: seq<Oid>)
      requires Valid(st) && NoneParticipates(st)
      ensures Fates(st, st, owners)
    {
      hide Fresh, SnapshotCurrent, HandedValid, Alternates, Open;
      forall s | 0 <= s < |st.sessions|
        ensures Fate(st.sessions[s], st.sessions[s], OpenBy(st.sessions[s], owners))
      {
        assert SessionValid(st, s);
        if st.sessions[s].owner in st.entries {
          assert EntryValid(st, st.sessions[s].owner);
        }
      }
    }

    /** A driver call on a statement handed out earlier, of the scan or of anything else. If it executes a scan, the
        number that goes with it is the one in the entry's buffer, which is what the scan has bound. */
    method UseStatement(k: Oid) returns (outcome: Outcome, sent: Tsn)
      requires Sound() && k in entries
      modifies this`entries, this`sessions
      ensures sent == old(entries)[k].tsn
      ensures Sound() && EntryValid(old(Now()), k)
      ensures Now() == if outcome == Done then old(Now()) else Close(old(Now()), k)
    {
      hide Valid, Fresh, SnapshotCurrent, Standing;
      CloseValid(Now(), k);
      outcome, sent := Done, entries[k].tsn;
      var ok := DriverCall();
      if !ok {
        ReportError(k);
        outcome := Throws(FdwError);
      }
    }

    /** A step of a local transaction, whatever fails in it. */
    method RunStep(step: Step, start: int) returns (now: int)
      requires Sound() && Covered() && clock <= start && !step.EndTransaction?
      requires step.GetStatement? ==> Validated(step.catalogs)
      modifies this
      ensures Sound() && Covered() && clock <= now && Continues(old(Now()), Now())
    {
      hide Valid, NoneParticipates, Validated, Enumerates, QuietSessions, Continues, Ready, Apart;
      ghost var before := Now();
      now := start;
      match step {
        case GetStatement(c, useFbQuery, xactSnapshot, elapsed, stmtTsn) =>
          now := now + elapsed;
          var outcome, tsn, first, retried, fetched := GetTbStatement(c, useFbQuery, xactSnapshot, now, stmtTsn);
          CoveredByFlag();
          ContinuesByStatement(before, Now(), c.user.umid, outcome == Done);
        case UseStatement(k) =>
          if k in entries {
            CloseAttempted(before, k);
            AttemptedNothing(before, k);
            var outcome, sent := UseStatement(k);
            ContinuesQuietly(before, Now());
            CoveredAfter(before, xactGotConnection);
          } else {
            SameContinues(before);
          }
        case Invalidate(inv) =>
          var order := ScanOrder();
          InvalCallback(inv, order);
          SameContinues(before);
          SameSessionsContinue(before, Now());
          CoveredAfter(before, xactGotConnection);
      }
    }

    /** Any run: statements, driver calls on them, invalidations and ends of transactions in any order, with any
        calls failing. For every statement handed out, no invalidation of the server or of the user mapping its session
        was opened from came between the session's creation and the hand-out; snapshot statements of one session and
        one local statement agree, and on every session each transaction is ended once, a lost one being the session's
        last. What a scan through any of those statements sends is the number its entry held when it was handed out,
        whatever the server answers, exactly as long as no fetch on that entry has come between. */
    method Run(steps: seq<Step>, start: int)
      requires Sound() && Covered() && clock <= start
      requires forall i :: 0 <= i < |steps| && steps[i].GetStatement? ==> Validated(steps[i].catalogs)
      modifies this
      ensures Sound() && Covered() && old(handed) <= handed
      ensures forall i :: 0 <= i < |handed| ==> handed[i].session < |sessions| && handed[i].seen <= |invals|
      ensures forall i, j :: 0 <= i < |handed| && sessions[handed[i].session].born <= j < handed[i].seen ==>
                invals[j].hash != 0 &&
                match invals[j].cache
                case ForeignServerOid =>
                  invals[j].hash != hashValue(ForeignServerOid, sessions[handed[i].session].server)
                case UserMappingOid => invals[j].hash != hashValue(UserMappingOid, sessions[handed[i].session].owner)
      ensures SnapshotsAgree(handed) && forall i :: 0 <= i < |handed| ==> SendsExactly(Now(), handed[i])
      ensures forall s :: 0 <= s < |sessions| ==> Alternates(sessions[s].events) && LostIsLast(sessions[s].events)
    {
      hide Valid, NoneParticipates, Validated, WasFresh, SnapshotsAgree, Alternates, LostIsLast, Enumerates, Fates,
           EachResolved, QuietSessions, SendsExactly;
      var now := start;
      for i := 0 to |steps|
        invariant Sound() && Covered() && clock <= now && old(handed) <= handed
      {
        if steps[i].EndTransaction? {
          var order := ScanOrder();
          var done, committed := EndLocalTransaction(steps[i].commit, order);
          CoveredByEnd();
        } else {
          now := RunStep(steps[i], now);
        }
      }
      SoundMeans(Now());
      HandedFresh(Now());
    }

    /** A local transaction that commits: the work of each statement it was handed out is committed remotely exactly if
        at the commit the statement's connection is still its entry's, and lost otherwise. If the commit fails, that
        work still has exactly one fate. */
    method CommittedTransaction(steps: seq<Step>, start: int) returns (done: bool, ghost mid: State)
      requires Sound() && Covered() && clock <= start
      requires forall i :: 0 <= i < |steps| ==> !steps[i].EndTransaction?
      requires forall i :: 0 <= i < |steps| && steps[i].GetStatement? ==> Validated(steps[i].catalogs)
      modifies this
      ensures Sound() && !xactGotConnection && old(handed) <= handed == mid.handed
      ensures done ==>
                forall i :: |old(handed)| <= i < |handed| ==>
                  FateOf(Now(), handed[i]) == Some(if StillHeld(mid, handed[i]) then Commit else Lost)
      ensures forall i :: |old(handed)| <= i < |handed| ==> FateOf(Now(), handed[i]).Some?
    {
      hide Valid, NoneParticipates, Validated, Enumerates, Fates, EachResolved, QuietSessions, Continues, AllOpenOrLost,
           FateOf, StillHeld;
      var now := start;
      assert AllOpenOrLost(Now(), |handed|) by {
        NothingHandedYet(Now());
      }
      for i := 0 to |steps|
        invariant Sound() && Covered() && clock <= now && old(handed) <= handed
        invariant AllOpenOrLost(Now(), |old(handed)|)
      {
        ghost var before := Now();
        now := RunStep(steps[i], now);
        OpenOrLostKept(before, Now(), |old(handed)|);
        ContinuesHanded(before, Now());
      }
      mid := Now();
      var order := ScanOrder();
      ghost var committed: nat;
      done, committed := EndLocalTransaction(true, order);
      FatesKeepHanded(mid, Now(), order[..committed]);
      if done {
        assert order[..committed] == order;
        CommitCarries(mid, Now(), order, |old(handed)|);
      }
      AllHaveFates(mid, Now(), |old(handed)|);
    }

    lemma NothingHandedYet(st: State)
      ensures AllOpenOrLost(st, |st.handed|)
    {
    }

    lemma CoveredByFlag()
      requires xactGotConnection
      ensures Covered()
    {
    }

    lemma CoveredByEnd()
      requires NoneParticipates(Now())
      ensures Covered()
    {
    }

    /** No step but getting a statement makes an entry participate. */
    lemma CoveredAfter(before: State, got: bool)
      requires got || NoneParticipates(before)
      requires got == xactGotConnection && entries.Keys == before.entries.Keys
      requires forall k :: k in entries && Participates(entries[k]) ==> Participates(before.entries[k])
      ensures Covered()
    {
    }
  }

  datatype Step =
    | GetStatement(catalogs: Catalogs, useFbQuery: bool, xactSnapshot: bool, elapsed: nat, stmtTsn: Tsn)
    | UseStatement(umid: Oid)
    | Invalidate(inv: Invalidation)
    | EndTransaction(commit: bool)

  lemma ContinuesByStatement(before: State, after: State, k: Oid, done: bool)
    requires Valid(after) && QuietSessions(before.sessions, after.sessions)
    requires done ==> Ready(after, k)
    requires if done
             then after.handed != [] && before.handed == after.handed[..|after.handed| - 1] &&
                  after.handed[|after.handed| - 1].session == after.entries[k].hdbc &&
                  after.handed[|after.handed| - 1].depth == |after.sessions[after.entries[k].hdbc].events|
             else after.handed == before.handed
    ensures Continues(before, after)
  {
    hide HandedValid, Fresh, SnapshotCurrent, Alternates, LostIsLast, QuietSessions;
    if done {
      assert EntryValid(after, k);
    }
  }

  lemma ContinuesQuietly(before: State, after: State)
    requires Valid(after) && QuietSessions(before.sessions, after.sessions) && after.handed == before.handed
    ensures Continues(before, after)
  {
    hide Valid, QuietSessions;
  }

  lemma SameContinues(st: State)
    requires Valid(st)
    ensures Continues(st, st)
  {
    hide Valid;
  }

  lemma SameSessionsContinue(before: State, after: State)
    requires Valid(after) && after.sessions == before.sessions && after.handed == before.handed
    ensures Continues(before, after)
  {
    hide Valid;
  }

  lemma ContinuesHanded(before: State, after: State)
    requires Continues(before, after)
    ensures before.handed <= after.handed
  {
    hide Valid, QuietSessions;
  }

  lemma FatesKeepHanded(before: State, after: State, committed: seq<Oid>)
    requires Fates(before, after, committed)
    ensures after.handed == before.handed
  {
  }

  lemma CommitCarries(mid: State, after: State, order: seq<Oid>, from: nat)
    requires Valid(mid) && Enumerates(order, mid.entries) && AllOpenOrLost(mid, from) && Fates(mid, after, order)
    ensures forall i :: from <= i < |mid.handed| ==>
              FateOf(after, mid.handed[i]) == Some(if StillHeld(mid, mid.handed[i]) then Commit else Lost)
  {
    hide Valid, Enumerates, Fates, StillHeld;
    forall i | from <= i < |mid.handed|
      ensures FateOf(after, mid.handed[i]) == Some(if StillHeld(mid, mid.handed[i]) then Commit else Lost)
    {
      var h := mid.handed[i];
      assert OpenOrLost(mid, h);
      HeldIsOpen(mid, h);
      CommitFate(mid, after, order, h);
    }
  }

  lemma CommitFate(mid: State, after: State, order: seq<Oid>, h: Handed)
    requires Valid(mid) && Enumerates(order, mid.entries) && OpenOrLost(mid, h) && Fates(mid, after, order)
    ensures FateOf(after, h) == Some(if FateOf(mid, h) == None then Commit else Lost)
  {
    hide HandedValid, EntryValid, Alternates, Fresh;
    assert SessionValid(mid, h.session);
    assert Fate(mid.sessions[h.session], after.sessions[h.session], OpenBy(mid.sessions[h.session], order));
  }

  lemma AllHaveFates(mid: State, after: State, from: nat)
    requires AllOpenOrLost(mid, from) && EachResolved(mid, after)
    ensures forall i :: from <= i < |mid.handed| ==> FateOf(after, mid.handed[i]).Some?
  {
    forall i | from <= i < |mid.handed|
      ensures FateOf(after, mid.handed[i]).Some?
    {
      var h := mid.handed[i];
      assert OpenOrLost(mid, h);
      assert ResolvedOnce(mid.sessions[h.session], after.sessions[h.session]);
    }
  }

  lemma HandedFresh(st: State)
    requires Valid(st)
    ensures forall i :: 0 <= i < |st.handed| ==>
              st.handed[i].session < |st.sessions| && st.handed[i].seen <= |st.invals|
    ensures forall i, j :: 0 <= i < |st.handed| && st.sessions[st.handed[i].session].born <= j < st.handed[i].seen ==>
              !Concerns(st.invals[j], st.sessions[st.handed[i].session], st.hash)
  {
    hide SnapshotsAgree, Concerns, EntryValid, SessionValid, NumbersValid;
    forall i | 0 <= i < |st.handed|
      ensures st.handed[i].session < |st.sessions| && st.handed[i].seen <= |st.invals|
    {
      assert WasFresh(st, st.handed[i]);
    }
    forall i, j | 0 <= i < |st.handed| && st.sessions[st.handed[i].session].born <= j < st.handed[i].seen
      ensures !Concerns(st.invals[j], st.sessions[st.handed[i].session], st.hash)
    {
      assert WasFresh(st, st.handed[i]);
      assert st.invals[..st.handed[i].seen][j] == st.invals[j];
    }
  }

  lemma SoundMeans(st: State)
    requires Valid(st)
    ensures SnapshotsAgree(st.handed) && forall i :: 0 <= i < |st.handed| ==> SendsExactly(st, st.handed[i])
    ensures forall s :: 0 <= s < |st.sessions| ==>
              Alternates(st.sessions[s].events) && LostIsLast(st.sessions[s].events)
  {
    hide WasFresh, SnapshotsAgree, Alternates, LostIsLast, EntryValid, NumbersValid, SendsExactly;
    forall i | 0 <= i < |st.handed|
      ensures SendsExactly(st, st.handed[i])
    {
      SentSnapshot(st, i);
    }
    forall s | 0 <= s < |st.sessions|
      ensures Alternates(st.sessions[s].events) && LostIsLast(st.sessions[s].events)
    {
      assert SessionValid(st, s);
    }
  }

  /** Each remote transaction that was open has been ended by one event, and nothing else has happened. */
  predicate EachResolved(before: State, after: State) {
    |after.sessions| == |before.sessions| &&
    forall s :: 0 <= s < |before.sessions| ==> ResolvedOnce(before.sessions[s], after.sessions[s])
  }

  predicate ResolvedOnce(a: Session, b: Session) {
    if Open(a.events) && !a.abandoned
    then ResolvedWith(a, b, Commit) || ResolvedWith(a, b, Rollback) || ResolvedWith(a, b, Lost)
    else b == a
  }

  lemma FatesResolve(before: State, after: State, committed: seq<Oid>)
    requires Fates(before, after, committed) && Valid(after) && NoneParticipates(after)
    ensures EachResolved(before, after)
  {
    hide Fresh, SnapshotCurrent, HandedValid, Alternates, Open;
    forall s | 0 <= s < |before.sessions|
      ensures ResolvedOnce(before.sessions[s], after.sessions[s])
    {
      assert Fate(before.sessions[s], after.sessions[s], OpenBy(before.sessions[s], committed));
      assert SessionValid(after, s);
      if after.sessions[s].owner in after.entries {
        assert EntryValid(after, after.sessions[s].owner);
      }
    }
  }
}
