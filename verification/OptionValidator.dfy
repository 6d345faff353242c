/** Which option lists the wrapper accepts, and what accepted lists guarantee later (option.c). */
module OptionValidator {
  import opened Prelude

  /** An option as given; PostgreSQL admits no name twice in one list. */
  datatype DefElem = DefElem(name: string, value: string)

  datatype ValueKind = TextValue | BoolValue | FetchSizeValue

  /** A row of an option table; the keyword is absent in the row that ends it. */
  datatype TbFdwOption = TbFdwOption(keyword: Option<string>, kind: ValueKind, hidden: bool, required: bool,
                                     configured: bool)

  datatype Verdict =
    | Accepted
    | InvalidName(name: string, hint: string)
    | InvalidValue(name: string)
    | Insufficient(hint: string)

  /** PostgreSQL's own readers of option values. */
  datatype Readers = Readers(parseInt: string -> Option<int>, parseBool: string -> Option<bool>)

  const INT32_MAX := 0x7FFF_FFFF
  const TB_FDW_MAX_FETCH_SIZE := INT32_MAX
  const DEFAULT_FDW_FETCH_SIZE := 100

  function Row(keyword: string, kind: ValueKind, hidden: bool, required: bool): TbFdwOption {
    TbFdwOption(Some(keyword), kind, hidden, required, false)
  }

  const ARRAY_END := TbFdwOption(None, TextValue, false, false, false)

  const SERVER_OPTIONS: seq<TbFdwOption> := [
    Row("host", TextValue, false, true),
    Row("port", TextValue, false, true),
    Row("dbname", TextValue, false, true),
    Row("fetch_size", FetchSizeValue, false, false),
    Row("use_sleep_on_sig", BoolValue, true, false),
    Row("use_fb_query", BoolValue, true, false),
    Row("keep_connections", BoolValue, true, false),
    Row("updatable", BoolValue, true, false),
    ARRAY_END]

  const TABLE_OPTIONS: seq<TbFdwOption> := [
    Row("owner_name", TextValue, false, false),
    Row("table_name", TextValue, false, true),
    Row("fetch_size", FetchSizeValue, false, false),
    Row("use_fb_query", BoolValue, true, false),
    Row("updatable", BoolValue, true, false),
    ARRAY_END]

  const MAPPING_OPTIONS: seq<TbFdwOption> := [
    Row("username", TextValue, false, true),
    Row("password", TextValue, false, true),
    Row("password_required", BoolValue, true, false),
    ARRAY_END]

  const ATTRIBUTE_OPTIONS: seq<TbFdwOption> := [
    Row("column_name", TextValue, false, false),
    ARRAY_END]

  predicate ValidValue(rd: Readers, kind: ValueKind, value: string) {
    value != "" &&
    match kind
    case TextValue => true
    case BoolValue => rd.parseBool(value).Some?
    case FetchSizeValue =>
      var n := rd.parseInt(value);
      n.Some? && 0 < n.value < TB_FDW_MAX_FETCH_SIZE
  }

  /** A table as it is declared: named rows with distinct keywords, none configured, then the end row. */
  predicate Table(rows: seq<TbFdwOption>) {
    && rows != [] && rows[|rows| - 1].keyword.None?
    && (forall k :: 0 <= k < |rows| - 1 ==> rows[k].keyword.Some? && !rows[k].configured)
    && (forall k, m :: 0 <= k < m < |rows| - 1 ==> rows[k].keyword != rows[m].keyword)
  }

  predicate Registered(rows: seq<TbFdwOption>, name: string) {
    exists k :: 0 <= k < |rows| && rows[k].keyword == Some(name)
  }

  /** The option is in the table, with a value of its kind. */
  predicate GoodOption(rd: Readers, rows: seq<TbFdwOption>, def: DefElem) {
    exists k :: 0 <= k < |rows| && rows[k].keyword == Some(def.name) && ValidValue(rd, rows[k].kind, def.value)
  }

  predicate Given(input: seq<DefElem>, keyword: Option<string>) {
    exists i :: 0 <= i < |input| && keyword == Some(input[i].name)
  }

  /** What it means to accept a list: no option is bad and no required one is missing. */
  predicate Acceptable(rd: Readers, rows: seq<TbFdwOption>, input: seq<DefElem>) {
    (forall i :: 0 <= i < |input| ==> GoodOption(rd, rows, input[i])) &&
    (forall k :: 0 <= k < |rows| && rows[k].keyword.Some? && rows[k].required ==> Given(input, rows[k].keyword))
  }

  /** The names of the rows satisfying `p`, separated by commas. */
  function NameList(p: TbFdwOption -> bool, rows: seq<TbFdwOption>): string {
    if rows == [] then ""
    else
      var init, last := NameList(p, rows[..|rows| - 1]), rows[|rows| - 1];
      if last.keyword.Some? && p(last) then init + (if init == "" then "" else ", ") + last.keyword.value else init
  }

  predicate Visible(o: TbFdwOption) {
    !o.hidden
  }

  predicate Missing(o: TbFdwOption) {
    o.required && !o.configured
  }

  /** The table after options with these names: `configured` marks the rows named. */
  ghost predicate Marked(now: seq<TbFdwOption>, rows: seq<TbFdwOption>, input: seq<DefElem>) {
    |now| == |rows| &&
    forall k :: 0 <= k < |rows| ==>
      now[k] == rows[k].(configured := rows[k].configured || (rows[k].keyword.Some? && Given(input, rows[k].keyword)))
  }

  method ValidateOption(rd: Readers, kind: ValueKind, def: DefElem) returns (ok: bool)
    ensures ok == ValidValue(rd, kind, def.value)
  {
    if def.value == "" {
      return false;
    }
    match kind {
      case TextValue => ok := true;
      case BoolValue => ok := rd.parseBool(def.value).Some?;
      case FetchSizeValue =>
        var n := rd.parseInt(def.value);
        ok := n.Some? && n.value > 0 && n.value < TB_FDW_MAX_FETCH_SIZE;
    }
  }

  /** Marks the row of the option's name, if there is one; an invalid value is an error there and then. */
  method SearchForOptionInRegistered(rd: Readers, registered: array<TbFdwOption>, def: DefElem,
                                     ghost rows: seq<TbFdwOption>, ghost before: seq<DefElem>)
    returns (found: bool, valid: bool)
    requires Table(rows) && Marked(registered[..], rows, before)
    modifies registered
    ensures found == Registered(rows, def.name)
    ensures found && valid <==> GoodOption(rd, rows, def)
    ensures !found ==> valid
    ensures valid ==> Marked(registered[..], rows, before + if found then [def] else [])
  {
    var k := 0;
    found, valid := false, true;
    while registered[k].keyword.Some?
      invariant 0 <= k < |rows| && registered[..] == old(registered[..])
      invariant forall m :: 0 <= m < k ==> rows[m].keyword != Some(def.name)
      decreases |rows| - k
    {
      if registered[k].keyword == Some(def.name) {
        found := true;
        valid := ValidateOption(rd, registered[k].kind, def);
        if valid {
          registered[k] := registered[k].(configured := true);
          MarkOne(old(registered[..]), rows, before, def, k);
        }
        return;
      }
      k := k + 1;
    }
    assert before + [] == before;
  }

  lemma MarkOne(now: seq<TbFdwOption>, rows: seq<TbFdwOption>, before: seq<DefElem>, def: DefElem, k: nat)
    requires Table(rows) && Marked(now, rows, before) && k < |rows| && rows[k].keyword == Some(def.name)
    ensures Marked(now[k := now[k].(configured := true)], rows, before + [def])
  {
    var after := now[k := now[k].(configured := true)];
    forall m | 0 <= m < |rows|
      ensures after[m] == rows[m].(configured := rows[m].configured ||
                (rows[m].keyword.Some? && Given(before + [def], rows[m].keyword)))
    {
      GivenMore(before, def, rows[m].keyword);
    }
  }

  lemma GivenMore(before: seq<DefElem>, def: DefElem, keyword: Option<string>)
    ensures Given(before + [def], keyword) <==> Given(before, keyword) || keyword == Some(def.name)
  {
    if Given(before, keyword) {
      var i :| 0 <= i < |before| && keyword == Some(before[i].name);
      assert (before + [def])[i] == before[i];
    }
    assert (before + [def])[|before|] == def;
  }

  method EreportInvalidOption(registered: array<TbFdwOption>) returns (hint: string)
    requires registered.Length > 0 && registered[registered.Length - 1].keyword.None?
    requires forall k :: 0 <= k < registered.Length - 1 ==> registered[k].keyword.Some?
    ensures hint == NameList(Visible, registered[..])
  {
    hint := "";
    var k := 0;
    while registered[k].keyword.Some?
      invariant 0 <= k < registered.Length && hint == NameList(Visible, registered[..k])
      decreases registered.Length - k
    {
      assert registered[..k + 1][..k] == registered[..k];
      if !registered[k].hidden {
        hint := hint + (if |hint| > 0 then ", " else "") + registered[k].keyword.value;
      }
      k := k + 1;
    }
    assert registered[..][..k] == registered[..k] && registered[..k + 1] == registered[..];
  }

  method CheckSufficientInputOptions(registered: array<TbFdwOption>) returns (insufficient: bool, hint: string)
    requires registered.Length > 0 && registered[registered.Length - 1].keyword.None?
    requires forall k :: 0 <= k < registered.Length - 1 ==> registered[k].keyword.Some?
    ensures insufficient <==> exists k :: 0 <= k < registered.Length - 1 && Missing(registered[k])
    ensures hint == NameList(Missing, registered[..])
  {
    insufficient, hint := false, "";
    var k := 0;
    while registered[k].keyword.Some?
      invariant 0 <= k < registered.Length && hint == NameList(Missing, registered[..k])
      invariant insufficient <==> exists m :: 0 <= m < k && Missing(registered[m])
      decreases registered.Length - k
    {
      assert registered[..k + 1][..k] == registered[..k];
      if registered[k].required && !registered[k].configured {
        assert Missing(registered[k]);
        hint := hint + (if |hint| > 0 then ", " else "") + registered[k].keyword.value;
        insufficient := true;
      }
      k := k + 1;
    }
    assert registered[..][..k] == registered[..k] && registered[..k + 1] == registered[..];
  }

  /** The names of the required options that `input` lacks. */
  function MissingNames(rows: seq<TbFdwOption>, input: seq<DefElem>): string {
    if rows == [] then ""
    else
      var init, last := MissingNames(rows[..|rows| - 1], input), rows[|rows| - 1];
      if last.keyword.Some? && last.required && !Given(input, last.keyword)
      then init + (if init == "" then "" else ", ") + last.keyword.value
      else init
  }

  ghost predicate FirstBad(rd: Readers, rows: seq<TbFdwOption>, input: seq<DefElem>, i: nat)
    requires i < |input|
  {
    !GoodOption(rd, rows, input[i]) && AllGood(rd, rows, input, i)
  }

  ghost predicate AllGood(rd: Readers, rows: seq<TbFdwOption>, input: seq<DefElem>, n: nat)
    requires n <= |input|
  {
    forall j :: 0 <= j < n ==> GoodOption(rd, rows, input[j])
  }

  /** Why a list is refused: the first bad option, or every required name it lacks. */
  ghost predicate Explains(rd: Readers, rows: seq<TbFdwOption>, input: seq<DefElem>, verdict: Verdict) {
    match verdict
    case Accepted => true
    case InvalidName(name, hint) =>
      hint == NameList(Visible, rows) &&
      exists i :: 0 <= i < |input| && FirstBad(rd, rows, input, i) && name == input[i].name && !Registered(rows, name)
    case InvalidValue(name) =>
      exists i :: 0 <= i < |input| && FirstBad(rd, rows, input, i) && name == input[i].name && Registered(rows, name)
    case Insufficient(hint) =>
      AllGood(rd, rows, input, |input|) && hint == MissingNames(rows, input)
  }

  /** A list is accepted exactly if it is acceptable; otherwise the first bad option is reported, or the
      missing ones by name. */
  method ValidateOptions(rd: Readers, rows: seq<TbFdwOption>, input: seq<DefElem>) returns (verdict: Verdict)
    requires Table(rows)
    ensures verdict == Accepted <==> Acceptable(rd, rows, input)
    ensures Explains(rd, rows, input, verdict)
  {
    hide GoodOption, Marked, NameList, Registered, Given, ValidValue, MissingNames, Acceptable;
    var registered := new TbFdwOption[|rows|](k requires 0 <= k < |rows| => rows[k]);
    assert registered[..] == rows;
    NothingMarked(rows);
    for i := 0 to |input|
      invariant Marked(registered[..], rows, input[..i])
      invariant AllGood(rd, rows, input, i)
    {
      MarkedIsTable(registered[..], rows, input[..i]);
      var found, valid := SearchForOptionInRegistered(rd, registered, input[i], rows, input[..i]);
      if !valid {
        BadIsRefused(rd, rows, input, i);
        return InvalidValue(input[i].name);
      }
      if !found {
        assert input[..i] + [] == input[..i];
        MarkedIsTable(registered[..], rows, input[..i]);
        var hint := EreportInvalidOption(registered);
        HintUnmarked(registered[..], rows, input[..i]);
        BadIsRefused(rd, rows, input, i);
        return InvalidName(input[i].name, hint);
      }
      assert input[..i + 1] == input[..i] + [input[i]];
    }
    assert input[..|input|] == input;
    MarkedIsTable(registered[..], rows, input);
    var insufficient, hint := CheckSufficientInputOptions(registered);
    MissingIsNotGiven(registered[..], rows, input);
    GoodListAcceptable(rd, registered[..], rows, input);
    verdict := if insufficient then Insufficient(hint) else Accepted;
  }

  lemma NothingMarked(rows: seq<TbFdwOption>)
    ensures Marked(rows, rows, [])
  {
  }

  lemma MarkedIsTable(now: seq<TbFdwOption>, rows: seq<TbFdwOption>, input: seq<DefElem>)
    requires Table(rows) && Marked(now, rows, input)
    ensures |now| == |rows| && now[|now| - 1].keyword.None?
    ensures forall k :: 0 <= k < |now| - 1 ==> now[k].keyword.Some?
  {
  }

  lemma BadIsRefused(rd: Readers, rows: seq<TbFdwOption>, input: seq<DefElem>, i: nat)
    requires i < |input| && !GoodOption(rd, rows, input[i])
    ensures !Acceptable(rd, rows, input)
  {
    hide GoodOption;
  }

  /** Once every option is good, the list is acceptable exactly if no row is left marked as missing. */
  lemma GoodListAcceptable(rd: Readers, now: seq<TbFdwOption>, rows: seq<TbFdwOption>, input: seq<DefElem>)
    requires Table(rows) && Marked(now, rows, input) && AllGood(rd, rows, input, |input|)
    ensures Acceptable(rd, rows, input) <==> !exists k :: 0 <= k < |now| - 1 && Missing(now[k])
  {
    hide GoodOption, Given;
    forall k | 0 <= k < |rows| - 1
      ensures Missing(now[k]) <==> rows[k].required && !Given(input, rows[k].keyword)
    {
    }
    if !Acceptable(rd, rows, input) {
      var k :| 0 <= k < |rows| && rows[k].keyword.Some? && rows[k].required && !Given(input, rows[k].keyword);
      assert Missing(now[k]);
    }
  }

  lemma {:induction false} MissingIsNotGiven(now: seq<TbFdwOption>, rows: seq<TbFdwOption>, input: seq<DefElem>)
    requires Marked(now, rows, input)
    requires forall k :: 0 <= k < |rows| && rows[k].keyword.Some? ==> !rows[k].configured
    ensures NameList(Missing, now) == MissingNames(rows, input)
  {
    hide Given;
    if rows != [] {
      MissingIsNotGiven(now[..|now| - 1], rows[..|rows| - 1], input);
    }
  }

  /** Marking changes no visible name. */
  lemma {:induction false} HintUnmarked(now: seq<TbFdwOption>, rows: seq<TbFdwOption>, input: seq<DefElem>)
    requires Marked(now, rows, input)
    ensures NameList(Visible, now) == NameList(Visible, rows)
  {
    hide Given;
    if rows != [] {
      HintUnmarked(now[..|now| - 1], rows[..|rows| - 1], input);
    }
  }

  /** The four tables are tables: their keywords are distinct and only the last row has none. */
  lemma DeclaredTables()
    ensures Table(SERVER_OPTIONS) && Table(TABLE_OPTIONS) && Table(MAPPING_OPTIONS) && Table(ATTRIBUTE_OPTIONS)
  {
  }

  // The four lists, by name

  datatype TargetObject = OnServer | OnTable | OnMapping | OnAttribute | OnWrapper

  /** What an option's value must be: not empty, a fetch size from 1 up to the largest 32-bit integer but one, a boolean
      for the switches. */
  predicate GoodValue(rd: Readers, name: string, value: string) {
    && value != ""
    && (name == "fetch_size" ==> rd.parseInt(value).Some? && 0 < rd.parseInt(value).value < 2147483647)
    && (name in {"use_sleep_on_sig", "use_fb_query", "keep_connections", "updatable", "password_required"} ==>
          rd.parseBool(value).Some?)
  }

  /** All options have one of these names and a value that suits it. */
  predicate Among(rd: Readers, names: set<string>, options: seq<DefElem>) {
    forall i :: 0 <= i < |options| ==> options[i].name in names && GoodValue(rd, options[i].name, options[i].value)
  }

  predicate Names(options: seq<DefElem>, name: string) {
    exists i :: 0 <= i < |options| && options[i].name == name
  }

  /** A row of the option's name, if there is one, decides. */
  lemma OptionByRow(rd: Readers, rows: seq<TbFdwOption>, def: DefElem)
    requires Table(rows)
    ensures forall k :: 0 <= k < |rows| && rows[k].keyword == Some(def.name) ==>
              (GoodOption(rd, rows, def) <==> ValidValue(rd, rows[k].kind, def.value))
    ensures (forall k :: 0 <= k < |rows| ==> rows[k].keyword != Some(def.name)) ==> !GoodOption(rd, rows, def)
  {
    hide ValidValue;
  }

  lemma ServerOption(rd: Readers, def: DefElem)
    ensures GoodOption(rd, SERVER_OPTIONS, def) <==>
            && def.name in {"host", "port", "dbname", "fetch_size", "use_sleep_on_sig", "use_fb_query",
                            "keep_connections", "updatable"}
            && GoodValue(rd, def.name, def.value)
  {
    hide GoodOption;
    DeclaredTables();
    assert SERVER_OPTIONS[0].keyword == Some("host");
    assert SERVER_OPTIONS[1].keyword == Some("port");
    assert SERVER_OPTIONS[2].keyword == Some("dbname");
    assert SERVER_OPTIONS[3].keyword == Some("fetch_size");
    assert SERVER_OPTIONS[4].keyword == Some("use_sleep_on_sig");
    assert SERVER_OPTIONS[5].keyword == Some("use_fb_query");
    assert SERVER_OPTIONS[6].keyword == Some("keep_connections");
    assert SERVER_OPTIONS[7].keyword == Some("updatable");
    OptionByRow(rd, SERVER_OPTIONS, def);
  }

  lemma TableOption(rd: Readers, def: DefElem)
    ensures GoodOption(rd, TABLE_OPTIONS, def) <==>
            && def.name in {"owner_name", "table_name", "fetch_size", "use_fb_query", "updatable"}
            && GoodValue(rd, def.name, def.value)
  {
    hide GoodOption;
    DeclaredTables();
    assert TABLE_OPTIONS[0].keyword == Some("owner_name");
    assert TABLE_OPTIONS[1].keyword == Some("table_name");
    assert TABLE_OPTIONS[2].keyword == Some("fetch_size");
    assert TABLE_OPTIONS[3].keyword == Some("use_fb_query");
    assert TABLE_OPTIONS[4].keyword == Some("updatable");
    OptionByRow(rd, TABLE_OPTIONS, def);
  }

  lemma MappingOption(rd: Readers, def: DefElem)
    ensures GoodOption(rd, MAPPING_OPTIONS, def) <==>
            def.name in {"username", "password", "password_required"} && GoodValue(rd, def.name, def.value)
  {
    hide GoodOption;
    DeclaredTables();
    assert MAPPING_OPTIONS[0].keyword == Some("username");
    assert MAPPING_OPTIONS[1].keyword == Some("password");
    assert MAPPING_OPTIONS[2].keyword == Some("password_required");
    OptionByRow(rd, MAPPING_OPTIONS, def);
  }

  lemma AttributeOption(rd: Readers, def: DefElem)
    ensures GoodOption(rd, ATTRIBUTE_OPTIONS, def) <==> def.name == "column_name" && GoodValue(rd, def.name, def.value)
  {
    hide GoodOption;
    DeclaredTables();
    assert ATTRIBUTE_OPTIONS[0].keyword == Some("column_name");
    OptionByRow(rd, ATTRIBUTE_OPTIONS, def);
  }

  /** What each target accepts, by name. */
  ghost predicate AcceptedOn(rd: Readers, target: TargetObject, options: seq<DefElem>) {
    match target
    case OnServer =>
      && Among(rd, {"host", "port", "dbname", "fetch_size", "use_sleep_on_sig", "use_fb_query", "keep_connections",
                    "updatable"}, options)
      && Names(options, "host") && Names(options, "port") && Names(options, "dbname")
    case OnTable =>
      && Among(rd, {"owner_name", "table_name", "fetch_size", "use_fb_query", "updatable"}, options)
      && Names(options, "table_name")
    case OnMapping =>
      && Among(rd, {"username", "password", "password_required"}, options)
      && Names(options, "username") && Names(options, "password")
    case OnAttribute => Among(rd, {"column_name"}, options)
    case OnWrapper => true
  }

  lemma NamesGiven(options: seq<DefElem>, name: string)
    ensures Names(options, name) <==> Given(options, Some(name))
  {
    if i :| 0 <= i < |options| && options[i].name == name {
      assert Some(name) == Some(options[i].name);
    }
  }

  lemma AcceptableByName(rd: Readers, options: seq<DefElem>)
    ensures Acceptable(rd, SERVER_OPTIONS, options) <==> AcceptedOn(rd, OnServer, options)
    ensures Acceptable(rd, TABLE_OPTIONS, options) <==> AcceptedOn(rd, OnTable, options)
    ensures Acceptable(rd, MAPPING_OPTIONS, options) <==> AcceptedOn(rd, OnMapping, options)
    ensures Acceptable(rd, ATTRIBUTE_OPTIONS, options) <==> AcceptedOn(rd, OnAttribute, options)
  {
    ServerByName(rd, options);
    TableByName(rd, options);
    MappingByName(rd, options);
    AttributeByName(rd, options);
  }

  lemma ServerByName(rd: Readers, options: seq<DefElem>)
    ensures Acceptable(rd, SERVER_OPTIONS, options) <==> AcceptedOn(rd, OnServer, options)
  {
    hide GoodOption, GoodValue, Given, Names;
    forall i | 0 <= i < |options| {
      ServerOption(rd, options[i]);
    }
    NamesGiven(options, "host");
    NamesGiven(options, "port");
    NamesGiven(options, "dbname");
    assert SERVER_OPTIONS[0].required && SERVER_OPTIONS[1].required && SERVER_OPTIONS[2].required;
  }

  lemma TableByName(rd: Readers, options: seq<DefElem>)
    ensures Acceptable(rd, TABLE_OPTIONS, options) <==> AcceptedOn(rd, OnTable, options)
  {
    hide GoodOption, GoodValue, Given, Names;
    forall i | 0 <= i < |options| {
      TableOption(rd, options[i]);
    }
    NamesGiven(options, "table_name");
    assert TABLE_OPTIONS[1].required;
  }

  lemma MappingByName(rd: Readers, options: seq<DefElem>)
    ensures Acceptable(rd, MAPPING_OPTIONS, options) <==> AcceptedOn(rd, OnMapping, options)
  {
    hide GoodOption, GoodValue, Given, Names;
    forall i | 0 <= i < |options| {
      MappingOption(rd, options[i]);
    }
    NamesGiven(options, "username");
    NamesGiven(options, "password");
    assert MAPPING_OPTIONS[0].required && MAPPING_OPTIONS[1].required;
  }

  lemma AttributeByName(rd: Readers, options: seq<DefElem>)
    ensures Acceptable(rd, ATTRIBUTE_OPTIONS, options) <==> AcceptedOn(rd, OnAttribute, options)
  {
    hide GoodOption, GoodValue, Given;
    forall i | 0 <= i < |options| {
      AttributeOption(rd, options[i]);
    }
  }

  /** Hidden rows at the end leave no trace. */
  lemma {:induction false} NameListFrom(rows: seq<TbFdwOption>, n: nat)
    requires n <= |rows| && forall k :: n <= k < |rows| ==> rows[k].keyword.None? || rows[k].hidden
    ensures NameList(Visible, rows) == NameList(Visible, rows[..n])
  {
    if n < |rows| {
      NameListFrom(rows[..|rows| - 1], n);
      assert rows[..|rows| - 1][..n] == rows[..n];
    } else {
      assert rows[..n] == rows;
    }
  }

  lemma NameListNext(rows: seq<TbFdwOption>, n: nat, before: string, name: string)
    requires n < |rows| && rows[n].keyword == Some(name) && !rows[n].hidden && NameList(Visible, rows[..n]) == before
    ensures NameList(Visible, rows[..n + 1]) == if before == "" then name else before + ", " + name
  {
    assert rows[..n + 1][..n] == rows[..n];
  }

  lemma NameListNone(rows: seq<TbFdwOption>)
    ensures NameList(Visible, rows[..0]) == ""
  {
  }

  lemma ServerNames()
    ensures NameList(Visible, SERVER_OPTIONS) == "host, port, dbname, fetch_size"
  {
    hide NameList;
    NameListNone(SERVER_OPTIONS);
    NameListNext(SERVER_OPTIONS, 0, "", "host");
    NameListNext(SERVER_OPTIONS, 1, "host", "port");
    NameListNext(SERVER_OPTIONS, 2, "host, port", "dbname");
    NameListNext(SERVER_OPTIONS, 3, "host, port, dbname", "fetch_size");
    NameListFrom(SERVER_OPTIONS, 4);
  }

  lemma TableNames()
    ensures NameList(Visible, TABLE_OPTIONS) == "owner_name, table_name, fetch_size"
  {
    hide NameList;
    NameListNone(TABLE_OPTIONS);
    NameListNext(TABLE_OPTIONS, 0, "", "owner_name");
    NameListNext(TABLE_OPTIONS, 1, "owner_name", "table_name");
    NameListNext(TABLE_OPTIONS, 2, "owner_name, table_name", "fetch_size");
    NameListFrom(TABLE_OPTIONS, 3);
  }

  lemma MappingNames()
    ensures NameList(Visible, MAPPING_OPTIONS) == "username, password"
  {
    hide NameList;
    NameListNone(MAPPING_OPTIONS);
    NameListNext(MAPPING_OPTIONS, 0, "", "username");
    NameListNext(MAPPING_OPTIONS, 1, "username", "password");
    NameListFrom(MAPPING_OPTIONS, 2);
  }

  lemma AttributeNames()
    ensures NameList(Visible, ATTRIBUTE_OPTIONS) == "column_name"
  {
    hide NameList;
    NameListNone(ATTRIBUTE_OPTIONS);
    NameListNext(ATTRIBUTE_OPTIONS, 0, "", "column_name");
    NameListFrom(ATTRIBUTE_OPTIONS, 1);
  }

  /** What the hint of an unknown option names: the options that are not hidden. */
  lemma VisibleNames()
    ensures NameList(Visible, SERVER_OPTIONS) == "host, port, dbname, fetch_size"
    ensures NameList(Visible, TABLE_OPTIONS) == "owner_name, table_name, fetch_size"
    ensures NameList(Visible, MAPPING_OPTIONS) == "username, password"
    ensures NameList(Visible, ATTRIBUTE_OPTIONS) == "column_name"
  {
    hide NameList;
    ServerNames();
    TableNames();
    MappingNames();
    AttributeNames();
  }

  /** `tibero_fdw_validator`. */
  method TiberoFdwValidator(rd: Readers, target: TargetObject, options: seq<DefElem>) returns (verdict: Verdict)
    ensures verdict == Accepted <==> AcceptedOn(rd, target, options)
    ensures verdict.InvalidName? ==>
              match target
              case OnServer => verdict.hint == "host, port, dbname, fetch_size"
              case OnTable => verdict.hint == "owner_name, table_name, fetch_size"
              case OnMapping => verdict.hint == "username, password"
              case OnAttribute => verdict.hint == "column_name"
              case OnWrapper => false
  {
    hide Acceptable, AcceptedOn, NameList, Registered, FirstBad, AllGood, MissingNames;
    DeclaredTables();
    AcceptableByName(rd, options);
    VisibleNames();
    match target {
      case OnServer => verdict := ValidateOptions(rd, SERVER_OPTIONS, options);
      case OnTable => verdict := ValidateOptions(rd, TABLE_OPTIONS, options);
      case OnMapping => verdict := ValidateOptions(rd, MAPPING_OPTIONS, options);
      case OnAttribute => verdict := ValidateOptions(rd, ATTRIBUTE_OPTIONS, options);
      case OnWrapper =>
        verdict := Accepted;
        assert AcceptedOn(rd, OnWrapper, options) by { WrapperAcceptsAll(rd, options); }
    }
  }

  lemma WrapperAcceptsAll(rd: Readers, options: seq<DefElem>)
    ensures AcceptedOn(rd, OnWrapper, options)
  {
  }
}
