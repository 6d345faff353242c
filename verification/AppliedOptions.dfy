/** What the planner and the connection code read out of option lists the validator accepted
    (tibero_fdw.c, connection.c). */
module AppliedOptions {
  import opened OptionValidator
  import opened Prelude

  /** The value the last option of that name has: each loop below keeps what it saw last. */
  function LastValue(options: seq<DefElem>, name: string): Option<string> {
    if options == [] then None
    else
      var last := options[|options| - 1];
      if last.name == name then Some(last.value) else LastValue(options[..|options| - 1], name)
  }

  lemma {:induction false} LastValueGiven(options: seq<DefElem>, name: string)
    ensures LastValue(options, name).Some? <==> Given(options, Some(name))
    ensures LastValue(options, name).Some? ==> DefElem(name, LastValue(options, name).value) in options
  {
    if options != [] {
      var n := |options| - 1;
      LastValueGiven(options[..n], name);
      assert options == options[..n] + [options[n]];
      GivenMore(options[..n], options[n], Some(name));
    }
  }

  /** The option has this name and value, and no other of that name follows it. */
  predicate LastAt(options: seq<DefElem>, name: string, value: string, i: nat) {
    && i < |options| && options[i] == DefElem(name, value)
    && forall j :: i < j < |options| ==> options[j].name != name
  }

  lemma {:induction false} LastValueIsLast(options: seq<DefElem>, name: string, value: string)
    ensures LastValue(options, name) == Some(value) <==> exists i :: LastAt(options, name, value, i)
  {
    if options != [] {
      var init, last := options[..|options| - 1], options[|options| - 1];
      LastValueIsLast(init, name, value);
      if last.name == name {
        assert last.value == value ==> LastAt(options, name, value, |options| - 1);
      } else {
        assert forall i: nat :: LastAt(init, name, value, i) <==> LastAt(options, name, value, i);
      }
    }
  }

  /** An option an accepted list contains has a value of its kind. */
  lemma LastValueValid(rd: Readers, rows: seq<TbFdwOption>, options: seq<DefElem>, k: nat)
    requires Table(rows) && Acceptable(rd, rows, options) && k < |rows| && rows[k].keyword.Some?
    requires LastValue(options, rows[k].keyword.value).Some?
    ensures ValidValue(rd, rows[k].kind, LastValue(options, rows[k].keyword.value).value)
  {
    hide ValidValue, LastValue;
    var name := rows[k].keyword.value;
    LastValueGiven(options, name);
    var i :| 0 <= i < |options| && options[i] == DefElem(name, LastValue(options, name).value);
    assert GoodOption(rd, rows, options[i]);
    var m :| 0 <= m < |rows| && rows[m].keyword == Some(name) && ValidValue(rd, rows[m].kind, options[i].value);
    assert m == k;
  }

  /** A required option occurs in an accepted list, with a valid value. */
  lemma RequiredValue(rd: Readers, rows: seq<TbFdwOption>, options: seq<DefElem>, k: nat)
    requires Table(rows) && Acceptable(rd, rows, options)
    requires k < |rows| && rows[k].keyword.Some? && rows[k].required
    ensures LastValue(options, rows[k].keyword.value).Some?
    ensures LastValue(options, rows[k].keyword.value).value != ""
  {
    hide LastValue;
    LastValueGiven(options, rows[k].keyword.value);
    LastValueValid(rd, rows, options, k);
  }

  datatype ConnectionStrings = ConnectionStrings(host: Option<string>, port: Option<string>, dbname: Option<string>,
                                                 username: Option<string>, password: Option<string>)

  predicate AllPresent(c: ConnectionStrings) {
    c.host.Some? && c.port.Some? && c.dbname.Some? && c.username.Some? && c.password.Some?
  }

  /** Connections are kept unless the option says otherwise. */
  predicate Kept(rd: Readers, value: Option<string>) {
    value.None? || rd.parseBool(value.value) == Some(true)
  }

  /** The loops of `make_tb_connection` over the server's and the mapping's options; null is `None`. */
  method CollectConnectionStrings(rd: Readers, server: seq<DefElem>, user: seq<DefElem>)
    returns (c: ConnectionStrings, keepConnections: bool)
    ensures c == ConnectionStrings(LastValue(server, "host"), LastValue(server, "port"), LastValue(server, "dbname"),
                                   LastValue(user, "username"), LastValue(user, "password"))
    ensures keepConnections == Kept(rd, LastValue(server, "keep_connections"))
    ensures keepConnections <==> match LastValue(server, "keep_connections")
                                 case None => true
                                 case Some(value) => rd.parseBool(value) == Some(true)
    ensures Acceptable(rd, SERVER_OPTIONS, server) && Acceptable(rd, MAPPING_OPTIONS, user) ==> AllPresent(c)
  {
    hide Acceptable, AllPresent;
    var host, port, dbname: Option<string>, username, password := None, None, None, None, None;
    keepConnections := true;
    for i := 0 to |server|
      invariant host == LastValue(server[..i], "host") && port == LastValue(server[..i], "port")
      invariant dbname == LastValue(server[..i], "dbname")
      invariant keepConnections == Kept(rd, LastValue(server[..i], "keep_connections"))
    {
      var def := server[i];
      assert server[..i + 1][..i] == server[..i];
      if def.name == "host" {
        host := Some(def.value);
      } else if def.name == "port" {
        port := Some(def.value);
      } else if def.name == "dbname" {
        dbname := Some(def.value);
      } else if def.name == "keep_connections" {
        keepConnections := rd.parseBool(def.value) == Some(true);
      }
    }
    for i := 0 to |user|
      invariant username == LastValue(user[..i], "username") && password == LastValue(user[..i], "password")
    {
      var def := user[i];
      assert user[..i + 1][..i] == user[..i];
      if def.name == "username" {
        username := Some(def.value);
      } else if def.name == "password" {
        password := Some(def.value);
      }
    }
    assert server[..|server|] == server && user[..|user|] == user;
    c := ConnectionStrings(host, port, dbname, username, password);
    if Acceptable(rd, SERVER_OPTIONS, server) && Acceptable(rd, MAPPING_OPTIONS, user) {
      StringsPresent(rd, server, user);
    }
  }

  /** The strings that `connect_tb_server` asserts to be non-null. */
  lemma StringsPresent(rd: Readers, server: seq<DefElem>, user: seq<DefElem>)
    requires Acceptable(rd, SERVER_OPTIONS, server) && Acceptable(rd, MAPPING_OPTIONS, user)
    ensures AllPresent(ConnectionStrings(LastValue(server, "host"), LastValue(server, "port"),
                                         LastValue(server, "dbname"), LastValue(user, "username"),
                                         LastValue(user, "password")))
  {
    hide LastValue, Acceptable;
    DeclaredTables();
    RequiredValue(rd, SERVER_OPTIONS, server, 0);
    RequiredValue(rd, SERVER_OPTIONS, server, 1);
    RequiredValue(rd, SERVER_OPTIONS, server, 2);
    RequiredValue(rd, MAPPING_OPTIONS, user, 0);
    RequiredValue(rd, MAPPING_OPTIONS, user, 1);
  }

  /** PostgreSQL's `parse_int` stores 0 in its result when it fails. */
  function IntOrZero(rd: Readers, value: string): int {
    match rd.parseInt(value)
    case Some(n) => n
    case None => 0
  }

  /** One layer of options over a fetch size. */
  method ApplyFetchSize(rd: Readers, options: seq<DefElem>, before: int) returns (fetchSize: int)
    ensures fetchSize == match LastValue(options, "fetch_size")
                         case Some(value) => IntOrZero(rd, value)
                         case None => before
  {
    fetchSize := before;
    for i := 0 to |options|
      invariant fetchSize == match LastValue(options[..i], "fetch_size")
                             case Some(value) => IntOrZero(rd, value)
                             case None => before
    {
      assert options[..i + 1][..i] == options[..i];
      if options[i].name == "fetch_size" {
        fetchSize := IntOrZero(rd, options[i].value);
      }
    }
    assert options[..|options|] == options;
  }

  /** The table's option overrides the server's, which overrides the default; whatever accepted lists say, the
      result is a usable batch size. */
  method EffectiveFetchSize(rd: Readers, server: seq<DefElem>, table: seq<DefElem>) returns (fetchSize: int)
    ensures fetchSize == match LastValue(table, "fetch_size")
                         case Some(value) => IntOrZero(rd, value)
                         case None =>
                           match LastValue(server, "fetch_size")
                           case Some(value) => IntOrZero(rd, value)
                           case None => 100
    ensures Acceptable(rd, SERVER_OPTIONS, server) && Acceptable(rd, TABLE_OPTIONS, table) ==>
              1 <= fetchSize <= INT32_MAX - 1
  {
    hide Acceptable, LastValue;
    fetchSize := ApplyFetchSize(rd, server, DEFAULT_FDW_FETCH_SIZE);
    fetchSize := ApplyFetchSize(rd, table, fetchSize);
    if Acceptable(rd, SERVER_OPTIONS, server) && Acceptable(rd, TABLE_OPTIONS, table) {
      FetchSizeBounds(rd, server, table);
    }
  }

  lemma FetchSizeBounds(rd: Readers, server: seq<DefElem>, table: seq<DefElem>)
    requires Acceptable(rd, SERVER_OPTIONS, server) && Acceptable(rd, TABLE_OPTIONS, table)
    ensures var s, t := LastValue(server, "fetch_size"), LastValue(table, "fetch_size");
            && (s.Some? ==> 1 <= IntOrZero(rd, s.value) <= INT32_MAX - 1)
            && (t.Some? ==> 1 <= IntOrZero(rd, t.value) <= INT32_MAX - 1)
  {
    hide LastValue, Acceptable;
    DeclaredTables();
    if LastValue(server, "fetch_size").Some? {
      LastValueValid(rd, SERVER_OPTIONS, server, 3);
    }
    if LastValue(table, "fetch_size").Some? {
      LastValueValid(rd, TABLE_OPTIONS, table, 2);
    }
  }
}
