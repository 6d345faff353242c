/** The cached connections, the remote sessions they stand for, and what one step does to both (connection.c). */
module ConnectionState {
  import opened Prelude

  type Tsn = string

  datatype Entry = Entry(hdbc: nat, connected: bool, beginRemoteXact: bool, invalidated: bool, keepConnections: bool,
                         serverid: Oid, serverHash: nat, mappingHash: nat, tsn: Tsn, stmtTs: int)

  datatype IsolationLevel = ReadCommitted | Serializable

  /** What a remote session has seen; a session that goes away inside a transaction loses it. */
  datatype Event = Begin(level: IsolationLevel) | Commit | Rollback | Lost

  datatype SysCache = ForeignServerOid | UserMappingOid

  /** GetSysCacheHashValue1: the hash of a catalog row's key. */
  type HashValue = (SysCache, Oid) -> nat

  datatype Invalidation = Invalidation(cache: SysCache, hash: nat)

  /** A session: the user mapping and the server it was opened from, how many invalidations there had been, and whether
      its entry forgot it without a word (error recursion trouble). */
  datatype Session = Session(owner: Oid, server: Oid, born: nat, events: seq<Event>, abandoned: bool)

  /** A statement handed out: its session, the local statement's start, the snapshot it carries, whether that is
      one `need_remote_snapshot` looks after, how many invalidations there had been, and how many events the session
      had seen, the last of them the beginning of the transaction the statement belongs to; whether it carries a copy
      of its entry's number, and how many numbers had been written into the entries. */
  datatype Handed = Handed(session: nat, at: int, tsn: Tsn, snapshot: bool, seen: nat, depth: nat, copied: bool,
                           written: nat)

  /** A number written into an entry's buffer, by a fetch or, once, with the entry's creation. */
  datatype Write = Write(owner: Oid, number: Tsn)

  datatype State = State(entries: map<Oid, Entry>, sessions: seq<Session>, invals: seq<Invalidation>,
                         handed: seq<Handed>, clock: int, writes: seq<Write>, hash: HashValue)

  predicate Open(events: seq<Event>) {
    |events| % 2 == 1
  }

  /** Each transaction begun is ended once, by the very next event, before another begins. */
  predicate Alternates(events: seq<Event>) {
    forall i :: 0 <= i < |events| ==> (events[i].Begin? <==> i % 2 == 0)
  }

  /** A session that loses a transaction is gone. */
  predicate LostIsLast(events: seq<Event>) {
    forall i :: 0 <= i < |events| - 1 ==> events[i] != Lost
  }

  /** The test `TbfdwInvalCallback` applies; hash 0 stands for every hash. */
  predicate Matches(inv: Invalidation, serverHash: nat, mappingHash: nat) {
    || inv.hash == 0
    || (inv.cache == ForeignServerOid && serverHash == inv.hash)
    || (inv.cache == UserMappingOid && mappingHash == inv.hash)
  }

  /** The invalidation is about the server or the user mapping the session was opened from, or about everything. */
  predicate Concerns(inv: Invalidation, s: Session, hash: HashValue) {
    inv.hash == 0 ||
    match inv.cache
    case ForeignServerOid => inv.hash == hash(ForeignServerOid, s.server)
    case UserMappingOid => inv.hash == hash(UserMappingOid, s.owner)
  }

  /** The session was created after the last invalidation that concerns it. */
  predicate Fresh(s: Session, invals: seq<Invalidation>, hash: HashValue) {
    s.born <= |invals| && forall i :: s.born <= i < |invals| ==> !Concerns(invals[i], s, hash)
  }

  /** The entry's snapshot is the one of the latest snapshot statements on its session. */
  predicate SnapshotCurrent(e: Entry, handed: seq<Handed>) {
    forall i :: 0 <= i < |handed| && handed[i].snapshot && handed[i].session == e.hdbc ==>
      handed[i].at <= e.stmtTs && (handed[i].at == e.stmtTs ==> handed[i].tsn == e.tsn)
  }

  /** Snapshot statements of one session and one local statement agree. */
  predicate SnapshotsAgree(handed: seq<Handed>) {
    forall i, j ::
      0 <= i < j < |handed| && handed[i].snapshot && handed[j].snapshot &&
      handed[i].session == handed[j].session && handed[i].at == handed[j].at ==>
        handed[i].tsn == handed[j].tsn
  }

  predicate Holds(st: State, k: Oid, s: nat) {
    k in st.entries && st.entries[k].connected && st.entries[k].hdbc == s
  }

  /** The entry keeps the hashes of what its session was opened from. */
  predicate KnowsHashes(e: Entry, k: Oid, hash: HashValue) {
    e.serverHash == hash(ForeignServerOid, e.serverid) && e.mappingHash == hash(UserMappingOid, k)
  }

  predicate Standing(s: Session, k: Oid, e: Entry) {
    && s.owner == k && !s.abandoned && s.server == e.serverid
    && (e.beginRemoteXact <==> Open(s.events)) && Lost !in s.events
  }

  predicate EntryValid(st: State, k: Oid)
    requires k in st.entries
  {
    var e := st.entries[k];
    e.connected ==>
      && e.hdbc < |st.sessions|
      && Standing(st.sessions[e.hdbc], k, e) && KnowsHashes(e, k, st.hash)
      && (!e.invalidated ==> Fresh(st.sessions[e.hdbc], st.invals, st.hash))
      && e.stmtTs <= st.clock
      && SnapshotCurrent(e, st.handed)
  }

  predicate SessionValid(st: State, s: nat)
    requires s < |st.sessions|
  {
    var session := st.sessions[s];
    && Alternates(session.events) && LostIsLast(session.events)
    && session.born <= |st.invals|
    && (Open(session.events) && !session.abandoned ==> Holds(st, session.owner, s))
  }

  /** Every statement handed out was on a session as fresh as could be known then. */
  predicate HandedValid(st: State) {
    && SnapshotsAgree(st.handed)
    && forall i :: 0 <= i < |st.handed| ==> WasFresh(st, st.handed[i])
  }

  predicate WasFresh(st: State, h: Handed) {
    && h.session < |st.sessions| && h.seen <= |st.invals| && Fresh(st.sessions[h.session], st.invals[..h.seen], st.hash)
    && h.depth % 2 == 1 && h.depth <= |st.sessions[h.session].events|
  }

  /** The number in the entry's buffer. */
  function Buffer(writes: seq<Write>, k: Oid): Option<Tsn> {
    if writes == [] then None
    else
      var last := writes[|writes| - 1];
      if last.owner == k then Some(last.number) else Buffer(writes[..|writes| - 1], k)
  }

  predicate Remembers(st: State, h: Handed) {
    && h.session < |st.sessions| && h.written <= |st.writes|
    && (h.copied ==> Buffer(st.writes[..h.written], st.sessions[h.session].owner) == Some(h.tsn))
  }

  predicate NumbersValid(st: State) {
    && (forall k :: k in st.entries ==> Buffer(st.writes, k) == Some(st.entries[k].tsn))
    && (forall i :: 0 <= i < |st.handed| ==> Remembers(st, st.handed[i]))
  }

  ghost predicate Valid(st: State) {
    && (forall k :: k in st.entries ==> EntryValid(st, k))
    && (forall s :: 0 <= s < |st.sessions| ==> SessionValid(st, s))
    && HandedValid(st) && NumbersValid(st)
  }

  predicate Participates(e: Entry) {
    e.connected && e.beginRemoteXact
  }

  /** What `get_tb_statement` promises of the connection it hands out. */
  predicate Ready(st: State, k: Oid) {
    && k in st.entries && Participates(st.entries[k]) && !st.entries[k].invalidated
    && st.entries[k].hdbc < |st.sessions| && Open(st.sessions[st.entries[k].hdbc].events)
    && Fresh(st.sessions[st.entries[k].hdbc], st.invals, st.hash)
  }

  // ----- Steps -----

  function Append(sessions: seq<Session>, s: nat, event: Event): seq<Session>
    requires s < |sessions|
  {
    sessions[s := sessions[s].(events := sessions[s].events + [event])]
  }

  /** The entry lets go of its session; a transaction still open there is lost. */
  function Close(st: State, k: Oid): State
    requires k in st.entries && (st.entries[k].connected ==> st.entries[k].hdbc < |st.sessions|)
  {
    var e := st.entries[k];
    if !e.connected then st
    else
      st.(entries := st.entries[k := e.(connected := false, beginRemoteXact := false)],
          sessions := if Open(st.sessions[e.hdbc].events) then Append(st.sessions, e.hdbc, Lost) else st.sessions)
  }

  /** Only the entry's connection and transaction flags have changed, both to false if it was connected, and what was
      open on its session is lost. */
  ghost predicate LetGo(before: State, after: State, k: Oid)
    requires k in before.entries
  {
    var e := before.entries[k];
    if !e.connected then after == before
    else
      && e.hdbc < |before.sessions| == |after.sessions| && after.entries.Keys == before.entries.Keys
      && (forall j :: j in before.entries ==>
            after.entries[j] == if j == k then e.(connected := false, beginRemoteXact := false) else before.entries[j])
      && forall s :: 0 <= s < |before.sessions| ==>
           after.sessions[s] == if s == e.hdbc && e.beginRemoteXact
                                then before.sessions[s].(events := before.sessions[s].events + [Lost])
                                else before.sessions[s]
  }

  /** The remote transaction ends as told. */
  function Resolve(st: State, k: Oid, how: Event): State
    requires k in st.entries && st.entries[k].hdbc < |st.sessions|
  {
    var e := st.entries[k];
    st.(entries := st.entries[k := e.(beginRemoteXact := false)], sessions := Append(st.sessions, e.hdbc, how))
  }

  function Begun(st: State, k: Oid, level: IsolationLevel): State
    requires k in st.entries && st.entries[k].hdbc < |st.sessions|
  {
    var e := st.entries[k];
    st.(entries := st.entries[k := e.(beginRemoteXact := true)],
        sessions := Append(st.sessions, e.hdbc, Begin(level)))
  }

  /** A new session for an entry without one. */
  function Connected(st: State, k: Oid, e: Entry): State {
    st.(entries := st.entries[k := e.(hdbc := |st.sessions|, connected := true)],
        sessions := st.sessions + [Session(k, e.serverid, |st.invals|, [], false)])
  }

  function Snapshot(st: State, k: Oid, tsn: Tsn): State
    requires k in st.entries
  {
    st.(entries := st.entries[k := st.entries[k].(tsn := tsn, stmtTs := st.clock)],
        writes := st.writes + [Write(k, tsn)])
  }

  function HandedOut(st: State, k: Oid, tsn: Tsn, snapshot: bool, copied: bool): State
    requires k in st.entries && st.entries[k].hdbc < |st.sessions|
  {
    st.(handed := st.handed + [Handed(st.entries[k].hdbc, st.clock, tsn, snapshot, |st.invals|,
                                      |st.sessions[st.entries[k].hdbc].events|, copied, |st.writes|)])
  }

  /** The entry forgets its session and whatever is open there. */
  function Abandon(st: State, k: Oid): State
    requires k in st.entries && (st.entries[k].connected ==> st.entries[k].hdbc < |st.sessions|)
  {
    var e := st.entries[k];
    if !e.connected then st
    else
      st.(entries := st.entries[k := e.(connected := false)],
          sessions := st.sessions[e.hdbc := st.sessions[e.hdbc].(abandoned := true)])
  }

  function Hit(inv: Invalidation, e: Entry): Entry {
    if e.connected && Matches(inv, e.serverHash, e.mappingHash) then e.(invalidated := true) else e
  }

  function HitAll(inv: Invalidation, entries: map<Oid, Entry>): map<Oid, Entry> {
    map k | k in entries :: Hit(inv, entries[k])
  }

  function Invalidated(st: State, inv: Invalidation): State {
    st.(entries := HitAll(inv, st.entries), invals := st.invals + [inv])
  }

  // ----- Steps keep the state valid -----

  /** After a step on one entry only that entry and the sessions it opened differ. */
  ghost predicate Apart(before: State, after: State, k: Oid) {
    && after.invals == before.invals && after.clock == before.clock && after.hash == before.hash
    && |before.sessions| <= |after.sessions|
    && (forall j :: j in before.entries && j != k ==> j in after.entries && after.entries[j] == before.entries[j])
    && (forall j :: j in after.entries && j != k ==> j in before.entries)
    && (forall s :: 0 <= s < |before.sessions| ==> SameSession(before.sessions[s], after.sessions[s], k))
    && (forall s :: |before.sessions| <= s < |after.sessions| ==> after.sessions[s].owner == k)
    && OnlyWrites(before.writes, after.writes, k)
  }

  predicate OnlyWrites(before: seq<Write>, after: seq<Write>, k: Oid) {
    before <= after && forall i :: |before| <= i < |after| ==> after[i].owner == k
  }

  predicate SameSession(a: Session, b: Session, k: Oid) {
    && (a.owner != k ==> b == a) && a.events <= b.events
    && b.owner == a.owner && b.born == a.born && b.server == a.server
  }

  lemma ApartTransitive(a: State, b: State, c: State, k: Oid)
    requires Apart(a, b, k) && Apart(b, c, k)
    ensures Apart(a, c, k)
  {
    forall s | 0 <= s < |a.sessions|
      ensures SameSession(a.sessions[s], c.sessions[s], k)
    {
      assert SameSession(a.sessions[s], b.sessions[s], k) && SameSession(b.sessions[s], c.sessions[s], k);
    }
    forall s | |a.sessions| <= s < |c.sessions|
      ensures c.sessions[s].owner == k
    {
      if s < |b.sessions| {
        assert SameSession(b.sessions[s], c.sessions[s], k);
      }
    }
  }

  lemma {:induction false} OtherBuffer(before: seq<Write>, after: seq<Write>, k: Oid, j: Oid)
    requires OnlyWrites(before, after, k) && j != k
    ensures Buffer(after, j) == Buffer(before, j)
    decreases |after|
  {
    if |after| > |before| {
      OtherBuffer(before, after[..|after| - 1], k, j);
    } else {
      assert after == before;
    }
  }

  lemma NumbersApart(before: State, after: State, k: Oid)
    requires NumbersValid(before) && Apart(before, after, k) && after.handed == before.handed
    requires k in after.entries && Buffer(after.writes, k) == Some(after.entries[k].tsn)
    ensures NumbersValid(after)
  {
    hide Buffer;
    forall j | j in after.entries && j != k
      ensures Buffer(after.writes, j) == Some(after.entries[j].tsn)
    {
      OtherBuffer(before.writes, after.writes, k, j);
    }
    forall i | 0 <= i < |after.handed|
      ensures Remembers(after, after.handed[i])
    {
      var h := before.handed[i];
      assert Remembers(before, h);
      assert SameSession(before.sessions[h.session], after.sessions[h.session], k);
      assert after.writes[..h.written] == before.writes[..h.written];
    }
  }

  /** It is enough to look at the entry a step was about. */
  lemma ValidApart(before: State, after: State, k: Oid)
    requires Valid(before) && Apart(before, after, k) && after.handed == before.handed
    requires k in after.entries && EntryValid(after, k) && Buffer(after.writes, k) == Some(after.entries[k].tsn)
    requires forall s :: 0 <= s < |after.sessions| && after.sessions[s].owner == k ==> SessionValid(after, s)
    ensures Valid(after)
  {
    NumbersApart(before, after, k);
    hide NumbersValid, Buffer, OnlyWrites, Fresh, SnapshotCurrent, SnapshotsAgree, Alternates, Open;
    forall j | j in after.entries && j != k
      ensures EntryValid(after, j)
    {
      assert EntryValid(before, j);
    }
    forall s | 0 <= s < |after.sessions| && after.sessions[s].owner != k
      ensures SessionValid(after, s)
    {
      assert SessionValid(before, s);
    }
    forall i | 0 <= i < |after.handed|
      ensures WasFresh(after, after.handed[i])
    {
      assert WasFresh(before, before.handed[i]);
      SameFreshness(before.sessions[before.handed[i].session], after.sessions[before.handed[i].session],
                    before.invals[..before.handed[i].seen], before.hash);
    }
  }

  lemma AlternatesMore(events: seq<Event>, event: Event)
    requires Alternates(events) && (event.Begin? <==> !Open(events))
    ensures Alternates(events + [event]) && (Open(events + [event]) <==> !Open(events))
    ensures Lost !in events ==> LostIsLast(events + [event]) && (event != Lost ==> Lost !in events + [event])
  {
  }

  /** The sessions other than the entry's own are in order however the entry's own session goes on. */
  lemma OwnSession(before: State, after: State, k: Oid, h: nat)
    requires Valid(before) && Holds(before, k, h) && h < |before.sessions|
    requires |after.sessions| == |before.sessions| && after.invals == before.invals
    requires forall s :: 0 <= s < |before.sessions| && s != h ==> after.sessions[s] == before.sessions[s]
    requires after.sessions[h].owner == k && SessionValid(after, h)
    ensures forall s :: 0 <= s < |after.sessions| && after.sessions[s].owner == k ==> SessionValid(after, s)
  {
    hide Fresh, Alternates, Open, EntryValid, HandedValid;
    forall s | 0 <= s < |after.sessions| && after.sessions[s].owner == k && s != h
      ensures SessionValid(after, s)
    {
      assert SessionValid(before, s);
    }
  }

  lemma CloseValid(st: State, k: Oid)
    requires Valid(st) && k in st.entries
    ensures EntryValid(st, k) && Valid(Close(st, k)) && Apart(st, Close(st, k), k)
    ensures !Close(st, k).entries[k].connected
  {
    hide Fresh, SnapshotCurrent, HandedValid, Alternates;
    assert EntryValid(st, k);
    var e, after := st.entries[k], Close(st, k);
    if e.connected {
      assert SessionValid(st, e.hdbc);
      if Open(st.sessions[e.hdbc].events) {
        AlternatesMore(st.sessions[e.hdbc].events, Lost);
      }
      OwnSession(st, after, k, e.hdbc);
      ValidApart(st, after, k);
    }
  }

  lemma CloseLetsGo(st: State, k: Oid)
    requires Valid(st) && k in st.entries
    ensures EntryValid(st, k) && LetGo(st, Close(st, k), k)
  {
    hide Fresh, SnapshotCurrent, HandedValid;
    assert EntryValid(st, k);
  }

  lemma ResolveValid(st: State, k: Oid, how: Event)
    requires Valid(st) && k in st.entries && Participates(st.entries[k]) && how in {Commit, Rollback}
    ensures EntryValid(st, k) && Valid(Resolve(st, k, how)) && Apart(st, Resolve(st, k, how), k)
  {
    hide Fresh, SnapshotCurrent, HandedValid, Alternates;
    assert EntryValid(st, k);
    var e, after := st.entries[k], Resolve(st, k, how);
    assert SessionValid(st, e.hdbc);
    AlternatesMore(st.sessions[e.hdbc].events, how);
    SameFreshness(st.sessions[e.hdbc], after.sessions[e.hdbc], st.invals, st.hash);
    SameCurrency(e, after.entries[k], st.handed);
    OwnSession(st, after, k, e.hdbc);
    ValidApart(st, after, k);
  }

  lemma SameFreshness(a: Session, b: Session, invals: seq<Invalidation>, hash: HashValue)
    requires b.born == a.born && b.owner == a.owner && b.server == a.server
    ensures Fresh(a, invals, hash) ==> Fresh(b, invals, hash)
  {
  }

  lemma SameCurrency(a: Entry, b: Entry, handed: seq<Handed>)
    requires b.hdbc == a.hdbc && b.stmtTs == a.stmtTs && b.tsn == a.tsn
    ensures SnapshotCurrent(a, handed) ==> SnapshotCurrent(b, handed)
  {
  }

  lemma BegunValid(st: State, k: Oid, level: IsolationLevel)
    requires Valid(st) && k in st.entries && st.entries[k].connected && !st.entries[k].beginRemoteXact
    ensures EntryValid(st, k) && Valid(Begun(st, k, level)) && Apart(st, Begun(st, k, level), k)
  {
    hide Fresh, SnapshotCurrent, HandedValid, Alternates;
    assert EntryValid(st, k);
    var e, after := st.entries[k], Begun(st, k, level);
    assert SessionValid(st, e.hdbc);
    AlternatesMore(st.sessions[e.hdbc].events, Begin(level));
    SameFreshness(st.sessions[e.hdbc], after.sessions[e.hdbc], st.invals, st.hash);
    SameCurrency(e, after.entries[k], st.handed);
    OwnSession(st, after, k, e.hdbc);
    ValidApart(st, after, k);
  }

  lemma ConnectedValid(st: State, k: Oid, e: Entry)
    requires Valid(st) && k in st.entries && !st.entries[k].connected
    requires !e.beginRemoteXact && e.stmtTs <= st.clock && e.tsn == st.entries[k].tsn && KnowsHashes(e, k, st.hash)
    ensures Valid(Connected(st, k, e)) && Apart(st, Connected(st, k, e), k)
  {
    hide HandedValid, Matches;
    var after := Connected(st, k, e);
    forall s | 0 <= s < |after.sessions| && after.sessions[s].owner == k
      ensures SessionValid(after, s)
    {
      if s < |st.sessions| {
        assert SessionValid(st, s);
      }
    }
    NewSessionUnused(st);
    ValidApart(st, after, k);
  }

  lemma NewSessionUnused(st: State)
    requires HandedValid(st)
    ensures forall i :: 0 <= i < |st.handed| ==> st.handed[i].session < |st.sessions|
  {
    hide SnapshotsAgree, Fresh;
    forall i | 0 <= i < |st.handed|
      ensures st.handed[i].session < |st.sessions|
    {
      assert WasFresh(st, st.handed[i]);
    }
  }

  /** The entry is changed, and its number, if that changes, written. */
  ghost predicate Rewritten(before: State, after: State, k: Oid, e: Entry) {
    after == if k in before.entries && before.entries[k].tsn == e.tsn && after.writes == before.writes
             then before.(entries := before.entries[k := e])
             else before.(entries := before.entries[k := e], writes := before.writes + [Write(k, e.tsn)])
  }

  /** Whatever becomes of an entry without a session. */
  lemma UnconnectedValid(before: State, after: State, k: Oid, e: Entry)
    requires Valid(before) && (k in before.entries ==> !before.entries[k].connected) && !e.connected
    requires Rewritten(before, after, k, e)
    ensures Valid(after) && Apart(before, after, k)
  {
    hide Fresh, SnapshotCurrent, HandedValid, Alternates, Open;
    forall s | 0 <= s < |after.sessions| && after.sessions[s].owner == k
      ensures SessionValid(after, s)
    {
      assert SessionValid(before, s);
    }
    ValidApart(before, after, k);
  }

  lemma AbandonValid(st: State, k: Oid)
    requires Valid(st) && k in st.entries
    ensures EntryValid(st, k) && Valid(Abandon(st, k))
  {
    hide Fresh, SnapshotCurrent, HandedValid, Alternates, Open;
    assert EntryValid(st, k);
    var e, after := st.entries[k], Abandon(st, k);
    if e.connected {
      assert SessionValid(st, e.hdbc);
      OwnSession(st, after, k, e.hdbc);
      ValidApart(st, after, k);
    }
  }

  /** Fetching a snapshot at a later local statement than any the session served. */
  lemma SnapshotValid(st: State, k: Oid, tsn: Tsn)
    requires Valid(st) && k in st.entries && st.entries[k].connected && st.entries[k].stmtTs != st.clock
    ensures Valid(Snapshot(st, k, tsn)) && Apart(st, Snapshot(st, k, tsn), k)
  {
    hide Fresh, HandedValid, Alternates, Open;
    var after := Snapshot(st, k, tsn);
    assert EntryValid(st, k);
    assert SnapshotCurrent(after.entries[k], st.handed);
    forall s | 0 <= s < |after.sessions| && after.sessions[s].owner == k
      ensures SessionValid(after, s)
    {
      assert SessionValid(st, s);
    }
    ValidApart(st, after, k);
  }

  lemma NumbersHandedOut(st: State, k: Oid, tsn: Tsn, snapshot: bool, copied: bool)
    requires Valid(st) && Ready(st, k) && (copied ==> st.entries[k].tsn == tsn)
    ensures NumbersValid(HandedOut(st, k, tsn, snapshot, copied))
  {
    hide Buffer, Fresh, HandedValid;
    var after := HandedOut(st, k, tsn, snapshot, copied);
    assert EntryValid(st, k) && st.writes[..|st.writes|] == st.writes;
    forall i | 0 <= i < |after.handed|
      ensures Remembers(after, after.handed[i])
    {
      if i < |st.handed| {
        assert Remembers(st, st.handed[i]);
      }
    }
  }

  /** Handing out a statement of a ready connection. */
  lemma HandedOutValid(st: State, k: Oid, tsn: Tsn, snapshot: bool, copied: bool)
    requires Valid(st) && Ready(st, k)
    requires (copied ==> st.entries[k].tsn == tsn) && (snapshot ==> copied && st.entries[k].stmtTs == st.clock)
    ensures st.entries[k].hdbc < |st.sessions| && Valid(HandedOut(st, k, tsn, snapshot, copied))
  {
    hide Fresh, Alternates, Buffer, Remembers, NumbersValid;
    var after := HandedOut(st, k, tsn, snapshot, copied);
    NumbersHandedOut(st, k, tsn, snapshot, copied);
    assert EntryValid(st, k);
    forall j | j in after.entries
      ensures EntryValid(after, j)
    {
      assert EntryValid(st, j);
    }
    forall s | 0 <= s < |after.sessions|
      ensures SessionValid(after, s)
    {
      assert SessionValid(st, s);
    }
    forall i | 0 <= i < |after.handed|
      ensures WasFresh(after, after.handed[i])
    {
      if i < |st.handed| {
        assert WasFresh(st, st.handed[i]);
      } else {
        assert st.invals[..|st.invals|] == st.invals;
      }
    }
  }

  /** An entry that knows its hashes recognises the invalidations that concern its session. */
  lemma MatchesConcerns(inv: Invalidation, s: Session, k: Oid, e: Entry, hash: HashValue)
    requires Standing(s, k, e) && KnowsHashes(e, k, hash)
    ensures Matches(inv, e.serverHash, e.mappingHash) <==> Concerns(inv, s, hash)
  {
  }

  lemma FreshMore(s: Session, invals: seq<Invalidation>, inv: Invalidation, hash: HashValue)
    ensures Fresh(s, invals, hash) && !Concerns(inv, s, hash) ==> Fresh(s, invals + [inv], hash)
  {
    hide Concerns;
  }

  lemma InvalidatedValid(st: State, inv: Invalidation)
    requires Valid(st)
    ensures Valid(Invalidated(st, inv))
  {
    hide Alternates, Open, Matches, SnapshotsAgree, Concerns, Fresh;
    var after := Invalidated(st, inv);
    forall k | k in after.entries
      ensures EntryValid(after, k)
    {
      var e := st.entries[k];
      assert EntryValid(st, k);
      SameCurrency(e, after.entries[k], st.handed);
      if e.connected {
        MatchesConcerns(inv, st.sessions[e.hdbc], k, e, st.hash);
        FreshMore(st.sessions[e.hdbc], st.invals, inv, st.hash);
      }
    }
    forall s | 0 <= s < |after.sessions|
      ensures SessionValid(after, s)
    {
      assert SessionValid(st, s);
    }
    forall i | 0 <= i < |after.handed|
      ensures WasFresh(after, after.handed[i])
    {
      var seen := st.handed[i].seen;
      assert WasFresh(st, st.handed[i]);
      assert after.invals[..seen] == st.invals[..seen];
    }
  }

  lemma LaterValid(st: State, clock: int)
    requires Valid(st) && st.clock <= clock
    ensures Valid(st.(clock := clock))
  {
    hide Alternates, Open, Fresh, SnapshotsAgree, SnapshotCurrent;
    var after := st.(clock := clock);
    forall k | k in after.entries
      ensures EntryValid(after, k)
    {
      assert EntryValid(st, k);
    }
    forall s | 0 <= s < |after.sessions|
      ensures SessionValid(after, s)
    {
      assert SessionValid(st, s);
    }
    forall i | 0 <= i < |after.handed|
      ensures WasFresh(after, after.handed[i])
    {
      assert WasFresh(st, st.handed[i]);
    }
  }

  // ----- Getting a statement never ends a transaction in good order -----

  /** Only beginnings and losses have been added. */
  predicate Quiet(a: seq<Event>, b: seq<Event>) {
    a <= b && forall i :: |a| <= i < |b| ==> b[i].Begin? || b[i] == Lost
  }

  predicate QuietSessions(a: seq<Session>, b: seq<Session>) {
    && |a| <= |b|
    && (forall s :: 0 <= s < |a| ==> b[s].abandoned == a[s].abandoned)
    && (forall s :: |a| <= s < |b| ==> !b[s].abandoned)
    && forall s :: 0 <= s < |b| ==> Quiet(if s < |a| then a[s].events else [], b[s].events)
  }

  /** What an attempt to get a statement of entry `k` may have done so far. */
  ghost predicate Attempted(before: State, after: State, k: Oid) {
    && Valid(after) && k in after.entries && Apart(before, after, k) && after.handed == before.handed
    && QuietSessions(before.sessions, after.sessions)
  }

  lemma AttemptedTransitive(a: State, b: State, c: State, k: Oid)
    requires Attempted(a, b, k) && Attempted(b, c, k)
    ensures Attempted(a, c, k)
  {
    hide Valid, Apart, Quiet;
    ApartTransitive(a, b, c, k);
    forall s | 0 <= s < |c.sessions|
      ensures Quiet(if s < |a.sessions| then a.sessions[s].events else [], c.sessions[s].events)
    {
      QuietTransitive(if s < |a.sessions| then a.sessions[s].events else [],
                      if s < |b.sessions| then b.sessions[s].events else [], c.sessions[s].events);
    }
  }

  lemma QuietTransitive(a: seq<Event>, b: seq<Event>, c: seq<Event>)
    requires (Quiet(a, b) || a == b) && Quiet(b, c)
    ensures Quiet(a, c)
  {
  }

  lemma AttemptedNothing(st: State, k: Oid)
    requires Valid(st) && k in st.entries
    ensures Attempted(st, st, k)
  {
    hide Valid;
  }

  lemma CloseAttempted(st: State, k: Oid)
    requires Valid(st) && k in st.entries
    ensures EntryValid(st, k) && Attempted(st, Close(st, k), k)
  {
    hide Valid, Standing, Fresh, SnapshotCurrent;
    CloseValid(st, k);
  }

  lemma BegunAttempted(st: State, k: Oid, level: IsolationLevel)
    requires Valid(st) && k in st.entries && st.entries[k].connected && !st.entries[k].beginRemoteXact
    ensures EntryValid(st, k) && Attempted(st, Begun(st, k, level), k)
  {
    hide Valid, Standing, Fresh, SnapshotCurrent;
    BegunValid(st, k, level);
  }

  lemma ConnectedAttempted(st: State, k: Oid, e: Entry)
    requires Valid(st) && k in st.entries && !st.entries[k].connected
    requires !e.beginRemoteXact && e.stmtTs <= st.clock && e.tsn == st.entries[k].tsn && KnowsHashes(e, k, st.hash)
    ensures Attempted(st, Connected(st, k, e), k)
  {
    hide Valid;
    ConnectedValid(st, k, e);
  }

  lemma UnconnectedAttempted(before: State, after: State, k: Oid, e: Entry)
    requires Valid(before) && (k in before.entries ==> !before.entries[k].connected) && !e.connected
    requires Rewritten(before, after, k, e)
    ensures Attempted(before, after, k)
  {
    hide Valid;
    UnconnectedValid(before, after, k, e);
  }

  lemma SnapshotAttempted(st: State, k: Oid, tsn: Tsn)
    requires Valid(st) && k in st.entries && st.entries[k].connected && st.entries[k].stmtTs != st.clock
    ensures Attempted(st, Snapshot(st, k, tsn), k)
  {
    hide Valid;
    SnapshotValid(st, k, tsn);
  }

  // ----- What becomes of the work done through a statement -----

  /** The event that ended the transaction the statement belongs to. */
  function FateOf(st: State, h: Handed): Option<Event> {
    if h.session < |st.sessions| && h.depth < |st.sessions[h.session].events|
    then Some(st.sessions[h.session].events[h.depth]) else None
  }

  /** The connection the statement was handed out on is still its entry's. */
  predicate StillHeld(st: State, h: Handed) {
    h.session < |st.sessions| && Holds(st, st.sessions[h.session].owner, h.session)
  }

  /** Within a local transaction the statement's remote transaction is open, or lost. */
  predicate OpenOrLost(st: State, h: Handed) {
    && h.session < |st.sessions| && !st.sessions[h.session].abandoned && h.depth % 2 == 1
    && h.depth <= |st.sessions[h.session].events|
    && (FateOf(st, h) == None || FateOf(st, h) == Some(Lost))
  }

  predicate AllOpenOrLost(st: State, from: nat) {
    forall i :: from <= i < |st.handed| ==> OpenOrLost(st, st.handed[i])
  }

  /** One step of a local transaction. */
  ghost predicate Continues(before: State, after: State) {
    && Valid(after) && QuietSessions(before.sessions, after.sessions) && before.handed <= after.handed
    && forall i :: |before.handed| <= i < |after.handed| ==> OpenOrLost(after, after.handed[i])
  }

  lemma OpenOrLostKept(before: State, after: State, from: nat)
    requires AllOpenOrLost(before, from) && Continues(before, after)
    ensures AllOpenOrLost(after, from)
  {
    hide HandedValid, EntryValid, LostIsLast;
    forall i | from <= i < |after.handed|
      ensures OpenOrLost(after, after.handed[i])
    {
      if i < |before.handed| {
        var h := after.handed[i];
        assert before.handed[i] == h && OpenOrLost(before, h);
        assert SessionValid(after, h.session);
        assert Quiet(before.sessions[h.session].events, after.sessions[h.session].events);
      }
    }
  }

  /** As long as its transaction is open the statement's connection is held, and only so long. */
  lemma HeldIsOpen(st: State, h: Handed)
    requires Valid(st) && OpenOrLost(st, h)
    ensures StillHeld(st, h) <==> FateOf(st, h) == None
  {
    hide HandedValid, Fresh, SnapshotCurrent, Alternates, LostIsLast;
    var s := st.sessions[h.session];
    assert SessionValid(st, h.session);
    if s.owner in st.entries {
      assert EntryValid(st, s.owner);
    }
  }

  // ----- The number a scan sends -----

  /** The same fetches as far as their number and their entries go, with the same answers to the first `n` and any
      answers to the others. */
  predicate OtherAnswers(writes: seq<Write>, others: seq<Write>, n: nat) {
    && n <= |writes| == |others| && others[..n] == writes[..n]
    && forall i :: 0 <= i < |writes| ==> others[i].owner == writes[i].owner
  }

  predicate NoFetchSince(writes: seq<Write>, n: nat, k: Oid) {
    forall i :: n <= i < |writes| ==> writes[i].owner != k
  }

  /** Whatever the server answers, the buffer holds what it held after the first `n` writes. */
  ghost predicate SameNumber(writes: seq<Write>, n: nat, k: Oid)
    requires n <= |writes|
  {
    forall others :: OtherAnswers(writes, others, n) ==> Buffer(others, k) == Buffer(writes[..n], k)
  }

  lemma {:induction false} BufferKept(writes: seq<Write>, n: nat, k: Oid)
    requires n <= |writes| && NoFetchSince(writes, n, k)
    ensures Buffer(writes, k) == Buffer(writes[..n], k)
    decreases |writes|
  {
    if n < |writes| {
      BufferKept(writes[..|writes| - 1], n, k);
      assert writes[..|writes| - 1][..n] == writes[..n];
    } else {
      assert writes[..n] == writes;
    }
  }

  /** The answers to all writes from the `n`-th on replaced by one number. */
  function Answered(writes: seq<Write>, n: nat, number: Tsn): seq<Write> {
    seq(|writes|, i requires 0 <= i < |writes| => if i < n then writes[i] else Write(writes[i].owner, number))
  }

  lemma {:induction false} AnsweredBuffer(writes: seq<Write>, n: nat, number: Tsn, k: Oid)
    requires n <= |writes| && !NoFetchSince(writes, n, k)
    ensures Buffer(Answered(writes, n, number), k) == Some(number)
    decreases |writes|
  {
    var init := writes[..|writes| - 1];
    if writes[|writes| - 1].owner != k {
      AnsweredBuffer(init, n, number, k);
      assert Answered(writes, n, number)[..|writes| - 1] == Answered(init, n, number);
    }
  }

  lemma SameNumberExactly(writes: seq<Write>, n: nat, k: Oid)
    requires n <= |writes|
    ensures SameNumber(writes, n, k) <==> NoFetchSince(writes, n, k)
  {
    hide Buffer;
    if NoFetchSince(writes, n, k) {
      forall others | OtherAnswers(writes, others, n)
        ensures Buffer(others, k) == Buffer(writes[..n], k)
      {
        BufferKept(others, n, k);
      }
    } else {
      var held := Buffer(writes[..n], k);
      var number := if held.Some? then held.value + "0" else "0";
      AnsweredBuffer(writes, n, number, k);
      assert Answered(writes, n, number)[..n] == writes[..n];
      assert OtherAnswers(writes, Answered(writes, n, number), n);
    }
  }

  /** What a scan through the statement sends, at any later time: the number in its entry's buffer. It is the one there
      when the statement was handed out - the one the statement carries, if it copied it - for every answer of the
      server if and only if no fetch on that entry came between. */
  ghost predicate SendsExactly(st: State, h: Handed) {
    && h.session < |st.sessions| && h.written <= |st.writes|
    && var k := st.sessions[h.session].owner;
       && (k in st.entries ==> Buffer(st.writes, k) == Some(st.entries[k].tsn))
       && (h.copied ==> Buffer(st.writes[..h.written], k) == Some(h.tsn))
       && (SameNumber(st.writes, h.written, k) <==> NoFetchSince(st.writes, h.written, k))
  }

  lemma SentSnapshot(st: State, i: nat)
    requires Valid(st) && i < |st.handed|
    ensures SendsExactly(st, st.handed[i])
  {
    hide Buffer, HandedValid, SameNumber, NoFetchSince;
    var h := st.handed[i];
    assert Remembers(st, h);
    SameNumberExactly(st.writes, h.written, st.sessions[h.session].owner);
  }

  /** If the entry's transaction was begun and the entry has another session now, the old one has lost it. */
  predicate LostIfReplaced(before: State, after: State, k: Oid) {
    k in before.entries && Participates(before.entries[k]) && k in after.entries &&
    after.entries[k].hdbc != before.entries[k].hdbc ==>
      var h := before.entries[k].hdbc;
      && h < |before.sessions| <= |after.sessions|
      && after.sessions[h].events == before.sessions[h].events + [Lost]
  }

  lemma ReplacedIsLost(before: State, after: State, k: Oid)
    requires Valid(before) && Attempted(before, after, k)
    ensures LostIfReplaced(before, after, k)
    ensures k in before.entries && before.entries[k].connected ==> before.entries[k].hdbc < |before.sessions|
  {
    hide HandedValid, Fresh, SnapshotCurrent;
    if k in before.entries && before.entries[k].connected {
      var h := before.entries[k].hdbc;
      assert EntryValid(before, k);
      if before.entries[k].beginRemoteXact && after.entries[k].hdbc != h {
        var a, b := before.sessions[h].events, after.sessions[h].events;
        assert SessionValid(after, h) && SameSession(before.sessions[h], after.sessions[h], k);
        assert Quiet(a, b) && a == b[..|a|] && |b| % 2 == 0;
        assert b[|a|] == Lost && |b| == |a| + 1;
        assert b == b[..|a|] + [b[|a|]];
      }
    }
  }
}
