/**
  The session constructor (com.tingcore CassandraSessionImpl): how the
  comma-separated node list becomes the driver cluster's contact points and
  port, the keyspace DDL, and the order of the driver actions the constructor
  takes, preprocessing included, together with how a failing statement is
  reported.

  The driver itself is not modelled: building a cluster, connecting, closing
  and registering codecs appear only as actions in a trace, and the outcome of
  the k-th (0-based) `session.execute` of one construction is a script
  `outcome(k)` (None when the statement succeeds).
 */
module SessionImpl {
  import opened Wrappers
  import opened JavaLang
  import opened Failures

  /** A CQL statement handed to `session.execute`. */
  datatype Statement = Statement(cql: string)

  /** `withCredentials(user, password)`; a password the builder never set is null. */
  datatype Credentials = Credentials(user: string, password: Option<string>)

  /**
    What createCluster configures on Cluster.builder(): the credentials, the
    local data centre of a DCAwareRoundRobinPolicy when one is installed, the
    contact points in the order they were added, and the port of the last
    `withPort` call (None leaves the driver's default).
   */
  datatype ClusterConfig = ClusterConfig(
    credentials: Credentials,
    localDc: Option<string>,
    contactPoints: seq<string>,
    port: Option<int>)

  // ---------------------------------------------------------------------------
  // Contact points

  /** The host of a node entry: its text before the first ':', trimmed. */
  function Host(piece: string): string {
    Trim(TextBefore(piece, ':'))
  }

  /** A node entry made of colons only: `split(":")` leaves nothing, so `y[0]` is out of bounds. */
  predicate AllColons(piece: string) {
    |piece| > 0 && forall k :: 0 <= k < |piece| ==> piece[k] == ':'
  }

  /** The port text of a node entry: the second part when `split(":")` gives exactly two. */
  function PortText(piece: string): Option<string> {
    var y := Split(piece, ':');
    if |y| == 2 then Some(y[1]) else None
  }

  /** A node entry that makes createCluster throw. */
  predicate BadPiece(piece: string) {
    AllColons(piece) || (PortText(piece).Some? && ParseInt(PortText(piece).value).None?)
  }

  /** The exception a bad node entry raises. */
  function PieceError(piece: string): Error
    requires BadPiece(piece)
  {
    if AllColons(piece) then ArrayIndexOutOfBounds else NumberFormat(PortText(piece).value)
  }

  /** A node entry read as a contact point and the port it sets, if any. */
  datatype Entry = Entry(host: string, port: Option<int>)

  /**
    The body of `forEach` in createCluster for one entry `y = piece.split(":")`:
    the contact point `y[0].trim()`, and `Integer.parseInt(y[1])` as the port
    when there are exactly two parts.
   */
  function ParseEntry(piece: string): (r: Result<Entry, Error>)
    ensures r.Failure? <==> BadPiece(piece)
    ensures r.Failure? ==> r.error == PieceError(piece)
    ensures r.Success? ==> r.value.host == Host(piece)
    ensures r.Success? ==> r.value.port.Some? == PortText(piece).Some?
    ensures r.Success? && r.value.port.Some? ==> r.value.port == ParseInt(PortText(piece).value)
  {
    var y := Split(piece, ':');
    SplitEmpty(piece, ':');
    if |y| == 0 then Failure(ArrayIndexOutOfBounds)
    else
      SplitFirst(piece, ':');
      if |y| == 2 then
        match ParseInt(y[1])
        case None => Failure(NumberFormat(y[1]))
        case Some(port) => Success(Entry(Trim(y[0]), Some(port)))
      else Success(Entry(Trim(y[0]), None))
  }

  /** `split(",")` and the per-entry reading, entry by entry. */
  function Entries(pieces: seq<string>): seq<Result<Entry, Error>>
  {
    seq(|pieces|, i requires 0 <= i < |pieces| => ParseEntry(pieces[i]))
  }

  lemma EntriesOfPieces(pieces: seq<string>)
    ensures |Entries(pieces)| == |pieces|
    ensures forall i :: 0 <= i < |pieces| ==> Entries(pieces)[i] == ParseEntry(pieces[i])
  {
  }

  /**
    `forEach` over the entries: `addContactPoint` for each, `withPort` for each
    that has a port, stopping at the first exception.
   */
  function AddEntries(cfg: ClusterConfig, entries: seq<Result<Entry, Error>>): Result<ClusterConfig, Error>
    decreases |entries|
  {
    if |entries| == 0 then Success(cfg)
    else
      match entries[0]
      case Failure(e) => Failure(e)
      case Success(entry) => AddEntries(Added(cfg, entry), entries[1..])
  }

  /** `addContactPoint` of the entry's host, then `withPort` when it names a port. */
  function Added(cfg: ClusterConfig, entry: Entry): ClusterConfig {
    var added := cfg.(contactPoints := cfg.contactPoints + [entry.host]);
    if entry.port.Some? then added.(port := entry.port) else added
  }

  /** The hosts of entries that all parsed, in order. */
  function HostsOf(entries: seq<Result<Entry, Error>>): seq<string>
    requires forall i :: 0 <= i < |entries| ==> entries[i].Success?
    decreases |entries|
  {
    if |entries| == 0 then [] else [entries[0].value.host] + HostsOf(entries[1..])
  }

  /** HostsOf has one host per entry, the entry's own. */
  lemma {:induction false} HostsOfIndex(entries: seq<Result<Entry, Error>>)
    requires forall i :: 0 <= i < |entries| ==> entries[i].Success?
    ensures |HostsOf(entries)| == |entries|
    ensures forall i :: 0 <= i < |entries| ==> HostsOf(entries)[i] == entries[i].value.host
    decreases |entries|
  {
    if |entries| > 0 {
      var rest := entries[1..];
      assert forall j :: 0 <= j < |rest| ==> rest[j] == entries[j + 1];
      HostsOfIndex(rest);
    }
  }

  /** The first entry that failed. */
  predicate FirstFailure(entries: seq<Result<Entry, Error>>, i: int) {
    && 0 <= i < |entries| && entries[i].Failure?
    && forall j :: 0 <= j < i ==> entries[j].Success?
  }

  /** The last entry that names a port. */
  predicate LastPort(entries: seq<Result<Entry, Error>>, i: int) {
    && 0 <= i < |entries| && entries[i].Success? && entries[i].value.port.Some?
    && forall j :: i < j < |entries| ==> entries[j].Success? ==> entries[j].value.port.None?
  }

  /** The fold fails exactly when an entry failed, with the first failure's exception. */
  lemma {:induction false} AddEntriesFailure(cfg: ClusterConfig, entries: seq<Result<Entry, Error>>)
    ensures var r := AddEntries(cfg, entries);
      && (r.Failure? <==> exists i :: 0 <= i < |entries| && entries[i].Failure?)
      && (r.Failure? ==> exists i :: FirstFailure(entries, i) && r.error == entries[i].error)
    decreases |entries|
  {
    if |entries| > 0 {
      var rest := entries[1..];
      assert forall j :: 0 <= j < |rest| ==> rest[j] == entries[j + 1];
      if entries[0].Failure? {
        assert FirstFailure(entries, 0);
      } else {
        var next := Added(cfg, entries[0].value);
        AddEntriesFailure(next, rest);
        var r := AddEntries(next, rest);
        if r.Failure? {
          var i :| FirstFailure(rest, i) && r.error == rest[i].error;
          assert FirstFailure(entries, i + 1);
        } else {
          forall i | 0 < i < |entries| ensures entries[i].Success? {
            assert entries[i] == rest[i - 1];
          }
        }
      }
    }
  }

  /** A fold that succeeds met no failed entry. */
  lemma AddEntriesSucceeded(cfg: ClusterConfig, entries: seq<Result<Entry, Error>>)
    requires AddEntries(cfg, entries).Success?
    ensures forall i :: 0 <= i < |entries| ==> entries[i].Success?
  {
    AddEntriesFailure(cfg, entries);
  }

  /** A successful fold adds every entry's host in order and keeps the credentials and data centre. */
  lemma {:induction false} AddEntriesHosts(cfg: ClusterConfig, entries: seq<Result<Entry, Error>>)
    requires forall i :: 0 <= i < |entries| ==> entries[i].Success?
    ensures var r := AddEntries(cfg, entries);
      && r.Success?
      && r.value.contactPoints == cfg.contactPoints + HostsOf(entries)
      && r.value.credentials == cfg.credentials && r.value.localDc == cfg.localDc
    decreases |entries|
  {
    if |entries| > 0 {
      var rest := entries[1..];
      assert forall j :: 0 <= j < |rest| ==> rest[j].Success? by {
        assert forall j :: 0 <= j < |rest| ==> rest[j] == entries[j + 1];
      }
      var entry := entries[0].value;
      var next := Added(cfg, entry);
      AddEntriesHosts(next, rest);
      var points := cfg.contactPoints;
      var later := HostsOf(rest);
      assert HostsOf(entries) == [entry.host] + later;
      assert next.contactPoints == points + [entry.host];
      assert (points + [entry.host]) + later == points + ([entry.host] + later);
    }
  }

  /**
    A successful fold ends with the port of the last entry that names one, and
    with the starting port when none does.
   */
  lemma {:induction false} AddEntriesPort(cfg: ClusterConfig, entries: seq<Result<Entry, Error>>)
    requires forall i :: 0 <= i < |entries| ==> entries[i].Success?
    ensures var r := AddEntries(cfg, entries);
      && r.Success?
      && ((forall i :: 0 <= i < |entries| ==> entries[i].value.port.None?) ==> r.value.port == cfg.port)
      && (forall i :: LastPort(entries, i) ==> r.value.port == entries[i].value.port)
    decreases |entries|
  {
    if |entries| > 0 {
      var rest := entries[1..];
      assert forall j :: 0 <= j < |rest| ==> rest[j] == entries[j + 1];
      var entry := entries[0].value;
      var next := Added(cfg, entry);
      AddEntriesPort(next, rest);
      var r := AddEntries(next, rest);
      forall i | LastPort(entries, i) ensures r.value.port == entries[i].value.port {
        if i > 0 {
          assert LastPort(rest, i - 1);
        } else {
          assert forall j :: 0 <= j < |rest| ==> rest[j].value.port.None?;
        }
      }
    }
  }

  /** Some entry names a port exactly when there is a last one that does. */
  lemma {:induction false} LastPortExists(entries: seq<Result<Entry, Error>>)
    requires forall i :: 0 <= i < |entries| ==> entries[i].Success?
    ensures (exists i :: 0 <= i < |entries| && entries[i].value.port.Some?) <==> exists i :: LastPort(entries, i)
    decreases |entries|
  {
    if |entries| > 0 {
      var init := entries[..|entries| - 1];
      assert forall j :: 0 <= j < |init| ==> init[j] == entries[j];
      LastPortExists(init);
      if entries[|entries| - 1].value.port.Some? {
        assert LastPort(entries, |entries| - 1);
      } else if exists i :: LastPort(init, i) {
        var i :| LastPort(init, i);
        assert LastPort(entries, i);
      }
    }
  }

  /**
    createCluster: credentials, the local-DC policy when a data centre is given,
    and the contact points of `nodes.split(",")`.
   */
  function CreateCluster(user: string, password: Option<string>, datacenter: Option<string>, nodes: string): Result<ClusterConfig, Error> {
    AddEntries(ClusterConfig(Credentials(user, password), datacenter, [], None), Entries(Split(nodes, ',')))
  }

  /**
    createCluster throws exactly when an entry of the node list is bad, and
    then with the exception of the first bad entry.
   */
  lemma CreateClusterFailure(user: string, password: Option<string>, datacenter: Option<string>, nodes: string)
    ensures var pieces := Split(nodes, ','); var r := CreateCluster(user, password, datacenter, nodes);
      && (r.Failure? <==> exists i :: 0 <= i < |pieces| && BadPiece(pieces[i]))
      && (r.Failure? ==> exists i :: (0 <= i < |pieces| && BadPiece(pieces[i])
            && (forall j :: 0 <= j < i ==> !BadPiece(pieces[j]))
            && r.error == PieceError(pieces[i])))
  {
    PiecesFailure(ClusterConfig(Credentials(user, password), datacenter, [], None), Split(nodes, ','));
  }

  /** The fold over the entries of any list of pieces fails exactly at the first bad piece. */
  lemma PiecesFailure(cfg: ClusterConfig, pieces: seq<string>)
    ensures var r := AddEntries(cfg, Entries(pieces));
      && (r.Failure? <==> exists i :: 0 <= i < |pieces| && BadPiece(pieces[i]))
      && (r.Failure? ==> exists i :: (0 <= i < |pieces| && BadPiece(pieces[i])
            && (forall j :: 0 <= j < i ==> !BadPiece(pieces[j]))
            && r.error == PieceError(pieces[i])))
  {
    var entries := Entries(pieces);
    EntriesOfPieces(pieces);
    AddEntriesFailure(cfg, entries);
    var r := AddEntries(cfg, entries);
    if r.Failure? {
      var i :| FirstFailure(entries, i) && r.error == entries[i].error;
      assert BadPiece(pieces[i]);
    } else {
      assert forall i :: 0 <= i < |pieces| ==> entries[i].Success?;
    }
  }

  /**
    A successful createCluster has one contact point per entry of the node list,
    the entry's host, in order, the given credentials, and a local-DC policy
    exactly when a data centre is given.
   */
  lemma CreateClusterHosts(user: string, password: Option<string>, datacenter: Option<string>, nodes: string)
    ensures var pieces := Split(nodes, ','); var r := CreateCluster(user, password, datacenter, nodes);
      && (r.Success? ==> |r.value.contactPoints| == |pieces|)
      && (r.Success? ==> forall i :: 0 <= i < |pieces| ==> r.value.contactPoints[i] == Host(pieces[i]))
      && (r.Success? ==> r.value.credentials == Credentials(user, password))
      && (r.Success? ==> (r.value.localDc.Some? <==> datacenter.Some?) && r.value.localDc == datacenter)
  {
    var pieces := Split(nodes, ',');
    var entries := Entries(pieces);
    var start := ClusterConfig(Credentials(user, password), datacenter, [], None);
    var r := CreateCluster(user, password, datacenter, nodes);
    if r.Success? {
      AddEntriesSucceeded(start, entries);
      AddEntriesHosts(start, entries);
      assert [] + HostsOf(entries) == HostsOf(entries);
      HostsOfIndex(entries);
    }
  }

  /** A successful fold from no port ends with a port exactly when some entry names one. */
  lemma AddEntriesPortSet(cfg: ClusterConfig, entries: seq<Result<Entry, Error>>)
    requires forall i :: 0 <= i < |entries| ==> entries[i].Success?
    requires cfg.port.None?
    ensures AddEntries(cfg, entries).Success?
    ensures AddEntries(cfg, entries).value.port.Some? <==> exists i :: 0 <= i < |entries| && entries[i].value.port.Some?
  {
    AddEntriesPort(cfg, entries);
    LastPortExists(entries);
    if exists i :: LastPort(entries, i) {
      var l :| LastPort(entries, l);
      assert AddEntries(cfg, entries).value.port == entries[l].value.port;
    }
  }

  /** A successful createCluster sets a port exactly when some entry of the node list names one. */
  lemma CreateClusterPortSet(user: string, password: Option<string>, datacenter: Option<string>, nodes: string)
    ensures var pieces := Split(nodes, ','); var r := CreateCluster(user, password, datacenter, nodes);
      r.Success? ==> (r.value.port.Some? <==> exists i :: 0 <= i < |pieces| && PortText(pieces[i]).Some?)
  {
    PiecesPortSet(ClusterConfig(Credentials(user, password), datacenter, [], None), Split(nodes, ','));
  }

  /** A successful fold from no port over the entries of any list of pieces sets one exactly when a piece names one. */
  lemma PiecesPortSet(cfg: ClusterConfig, pieces: seq<string>)
    requires cfg.port.None?
    ensures var r := AddEntries(cfg, Entries(pieces));
      r.Success? ==> (r.value.port.Some? <==> exists i :: 0 <= i < |pieces| && PortText(pieces[i]).Some?)
  {
    var entries := Entries(pieces);
    if AddEntries(cfg, entries).Success? {
      AddEntriesSucceeded(cfg, entries);
      AddEntriesPortSet(cfg, entries);
      assert forall i :: 0 <= i < |pieces| ==> (entries[i].value.port.Some? <==> PortText(pieces[i]).Some?);
    }
  }

  /** The port a successful createCluster sets is that of the last entry of the node list naming one. */
  lemma CreateClusterLastPort(user: string, password: Option<string>, datacenter: Option<string>, nodes: string, i: nat)
    requires var pieces := Split(nodes, ',');
      && i < |pieces| && PortText(pieces[i]).Some?
      && forall j :: i < j < |pieces| ==> PortText(pieces[j]).None?
    ensures var pieces := Split(nodes, ','); var r := CreateCluster(user, password, datacenter, nodes);
      r.Success? ==> r.value.port == ParseInt(PortText(pieces[i]).value)
  {
    var pieces := Split(nodes, ',');
    var entries := Entries(pieces);
    var start := ClusterConfig(Credentials(user, password), datacenter, [], None);
    var r := CreateCluster(user, password, datacenter, nodes);
    if r.Success? {
      AddEntriesSucceeded(start, entries);
      AddEntriesPort(start, entries);
      assert LastPort(entries, i);
    }
  }

  /** A port written by Integer.toString: digits only, so neither separator occurs in it. */
  lemma PortDigits(port: nat)
    requires port <= IntMax
    ensures var t := IntToString(port);
      && t != "" && AllDigits(t) && ':' !in t && ',' !in t
      && ParseInt(t) == Some(port)
  {
    NatToDecimalDigits(port);
    ParseIntToString(port);
  }

  /** "host:port" gives the trimmed host and the port. */
  lemma EntryWithPort(host: string, port: nat)
    requires ':' !in host && port <= IntMax
    ensures ParseEntry(host + ":" + IntToString(port)) == Success(Entry(Trim(host), Some(port)))
  {
    PortDigits(port);
    SplitTwo(host, IntToString(port), ':');
  }

  /** The port text is not trimmed: "host: port" fails on " port". */
  lemma EntryWithSpacedPort(host: string, port: nat)
    requires ':' !in host && port <= IntMax
    ensures ParseEntry(host + ": " + IntToString(port)) == Failure(NumberFormat(" " + IntToString(port)))
  {
    var text := " " + IntToString(port);
    PortDigits(port);
    assert host + ": " + IntToString(port) == host + ":" + text;
    SplitTwo(host, text, ':');
    ParseIntRejectsNonDigit(text, 0);
  }

  /**
    `split` drops trailing empty parts: "host:port:" still has exactly two parts
    and sets the port, while "host:" has one part and sets none.
   */
  lemma EntryWithTrailingColon(host: string, port: nat)
    requires ':' !in host && host != "" && port <= IntMax
    ensures ParseEntry(host + ":" + IntToString(port) + ":") == Success(Entry(Trim(host), Some(port)))
    ensures ParseEntry(host + ":") == Success(Entry(Trim(host), None))
  {
    PortDigits(port);
    SplitTwoTrailing(host, IntToString(port), ':');
    SplitOneTrailing(host, ':');
  }

  /** A node list without ',' is one entry. */
  lemma SingleEntry(nodes: string)
    requires ',' !in nodes
    ensures Entries(Split(nodes, ',')) == [ParseEntry(nodes)]
  {
  }

  /** A node list of one entry that parses is that entry added to the starting configuration. */
  lemma AddOne(cfg: ClusterConfig, entry: Entry)
    ensures AddEntries(cfg, [Success(entry)]) == Success(Added(cfg, entry))
  {
    var single: seq<Result<Entry, Error>> := [Success(entry)];
    assert single[1..] == [];
  }

  /** A single node "host:port" is the one contact point `host.trim()` on that port. */
  lemma HostWithPort(user: string, password: Option<string>, datacenter: Option<string>, host: string, port: nat)
    requires ':' !in host && ',' !in host && port <= IntMax
    ensures CreateCluster(user, password, datacenter, host + ":" + IntToString(port))
      == Success(ClusterConfig(Credentials(user, password), datacenter, [Trim(host)], Some(port)))
  {
    var nodes := host + ":" + IntToString(port);
    PortDigits(port);
    assert ',' !in nodes;
    SingleEntry(nodes);
    EntryWithPort(host, port);
    var start := ClusterConfig(Credentials(user, password), datacenter, [], None);
    AddOne(start, Entry(Trim(host), Some(port)));
    assert [] + [Trim(host)] == [Trim(host)];
  }

  /** A space after the colon makes createCluster throw NumberFormatException. */
  lemma SpaceBeforePort(user: string, password: Option<string>, datacenter: Option<string>, host: string, port: nat)
    requires ':' !in host && ',' !in host && port <= IntMax
    ensures CreateCluster(user, password, datacenter, host + ": " + IntToString(port))
      == Failure(NumberFormat(" " + IntToString(port)))
  {
    PortDigits(port);
    SingleEntry(host + ": " + IntToString(port));
    EntryWithSpacedPort(host, port);
  }

  /** A node entry of colons only, such as ":", has no part 0 to read. */
  lemma ColonOnly(user: string, password: Option<string>, datacenter: Option<string>)
    ensures CreateCluster(user, password, datacenter, ":") == Failure(ArrayIndexOutOfBounds)
  {
    SingleEntry(":");
    assert AllColons(":");
  }

  /** A trailing colon after the port still sets it; a trailing colon after the host sets no port. */
  lemma TrailingColon(user: string, password: Option<string>, datacenter: Option<string>, host: string, port: nat)
    requires ':' !in host && ',' !in host && host != "" && port <= IntMax
    ensures CreateCluster(user, password, datacenter, host + ":" + IntToString(port) + ":")
      == Success(ClusterConfig(Credentials(user, password), datacenter, [Trim(host)], Some(port)))
    ensures CreateCluster(user, password, datacenter, host + ":")
      == Success(ClusterConfig(Credentials(user, password), datacenter, [Trim(host)], None))
  {
    var withPort := host + ":" + IntToString(port) + ":";
    PortDigits(port);
    assert ',' !in withPort;
    SingleEntry(withPort);
    SingleEntry(host + ":");
    EntryWithTrailingColon(host, port);
    var start := ClusterConfig(Credentials(user, password), datacenter, [], None);
    AddOne(start, Entry(Trim(host), Some(port)));
    AddOne(start, Entry(Trim(host), None));
    assert [] + [Trim(host)] == [Trim(host)];
  }

  // ---------------------------------------------------------------------------
  // Keyspace DDL

  /** The literal text of CREATE_KEYSPACE before its first and before its second "%s". */
  const KeyspacePrefix: string := "CREATE KEYSPACE IF NOT EXISTS "
  const ReplicationClause: string := " WITH REPLICATION = "

  /** CREATE_KEYSPACE: "CREATE KEYSPACE IF NOT EXISTS %s WITH REPLICATION = %s". */
  const CreateKeyspace: string := KeyspacePrefix + "%s" + ReplicationClause + "%s"

  /** The keyspace DDL: CREATE_KEYSPACE with the keyspace and the replication text in place of its two "%s". */
  function KeyspaceDdl(keyspace: string, replication: string): string {
    "CREATE KEYSPACE IF NOT EXISTS " + keyspace + " WITH REPLICATION = " + replication
  }

  /** `String.format(CREATE_KEYSPACE, keyspace, replication)` cannot fail and gives KeyspaceDdl. */
  lemma KeyspaceDdlFormat(keyspace: string, replication: string)
    ensures Format(CreateKeyspace, [keyspace, replication]) == Success(KeyspaceDdl(keyspace, replication))
  {
    FormatTwoStrings(KeyspacePrefix, ReplicationClause, keyspace, replication);
  }

  // ---------------------------------------------------------------------------
  // Running the definitions

  /** The definitions' statements, `flatMap(List::stream)` in list order. */
  function Flatten(definitions: seq<seq<Statement>>): seq<Statement> {
    if |definitions| == 0 then [] else definitions[0] + Flatten(definitions[1..])
  }

  lemma {:induction false} FlattenAppend(a: seq<seq<Statement>>, b: seq<seq<Statement>>)
    ensures Flatten(a + b) == Flatten(a) + Flatten(b)
    decreases |a|
  {
    if |a| == 0 {
      assert a + b == b;
    } else {
      var ab := a + b;
      FlattenAppend(a[1..], b);
      assert ab[0] == a[0];
      assert ab[1..] == a[1..] + b;
      assert Flatten(ab) == a[0] + Flatten(a[1..] + b);
      assert a[0] + (Flatten(a[1..]) + Flatten(b)) == (a[0] + Flatten(a[1..])) + Flatten(b);
    }
  }

  /** A statement is run exactly when some definition lists it. */
  lemma {:induction false} FlattenMembers(definitions: seq<seq<Statement>>, s: Statement)
    ensures s in Flatten(definitions) <==> exists i :: 0 <= i < |definitions| && s in definitions[i]
    decreases |definitions|
  {
    if |definitions| > 0 {
      FlattenMembers(definitions[1..], s);
      if s !in definitions[0] && exists i :: 0 <= i < |definitions| && s in definitions[i] {
        var i :| 0 <= i < |definitions| && s in definitions[i];
        assert definitions[1..][i - 1] == definitions[i];
      }
    }
  }

  /** How a run of statements ended: the number executed, and the failure of the last one if it failed. */
  datatype Ran = Ran(count: nat, failure: Option<Failure>)

  /**
    `forEach(sess::execute)` over `stmts`, the first of them being call `next`
    of the construction: it stops at the first failing statement.
   */
  function ExecuteAll(stmts: seq<Statement>, outcome: nat -> Option<Failure>, next: nat): (r: Ran)
    ensures r.count <= |stmts|
    ensures forall i :: next <= i < next + r.count - 1 ==> outcome(i).None?
    ensures r.failure.None? ==> r.count == |stmts| && forall i :: next <= i < next + |stmts| ==> outcome(i).None?
    ensures r.failure.Some? ==> r.count >= 1 && outcome(next + r.count - 1) == r.failure
    decreases |stmts|
  {
    if |stmts| == 0 then Ran(0, None)
    else if outcome(next).Some? then Ran(1, outcome(next))
    else
      var rest := ExecuteAll(stmts[1..], outcome, next + 1);
      Ran(rest.count + 1, rest.failure)
  }

  // ---------------------------------------------------------------------------
  // The constructor

  /** The arguments of the constructor; None stands for an empty Optional. */
  datatype SessionArgs = SessionArgs(
    user: string,
    password: Option<string>,
    keyspace: string,
    nodes: string,
    replication: string,
    datacenter: Option<string>,
    preuser: Option<string>,
    prepassword: Option<string>,
    definitions: seq<seq<Statement>>)

  /** A driver action the constructor takes, in the order taken. */
  datatype Action =
    | BuildCluster(config: ClusterConfig)
    | Connect(keyspace: Option<string>)
    | Execute(statement: Statement)
    | Close
    | RegisterCodecs
    | AddShutdownHook

  /** The actions a construction took, and the exception it ended with, if any. */
  datatype Construction = Construction(trace: seq<Action>, error: Option<Error>)

  /**
    The catch in ensureKeyspace and ensureColumnfamilies: a validation or
    execution failure becomes PersistenceRuntimeException(cause); anything else
    passes through.
   */
  function Wrap(f: Failure): (e: Error)
    ensures e.Persistence? <==> IsQueryFailure(f)
    ensures e.Persistence? ==> e == Persistence(None, f)
    ensures !e.Persistence? ==> e == Propagated(f)
  {
    if IsQueryFailure(f) then Persistence(None, f) else Propagated(f)
  }

  /** The statements of the executed actions of a trace, in order. */
  function Executed(trace: seq<Action>): seq<Statement> {
    if |trace| == 0 then []
    else (if trace[0].Execute? then [trace[0].statement] else []) + Executed(trace[1..])
  }

  /** One Execute action per statement, in order. */
  function Executes(stmts: seq<Statement>): seq<Action>
  {
    seq(|stmts|, i requires 0 <= i < |stmts| => Execute(stmts[i]))
  }

  /** The statements the preprocessing runs, in order: the keyspace DDL, then every definition's statements. */
  function PreprocessStatements(a: SessionArgs): seq<Statement> {
    [Statement(KeyspaceDdl(a.keyspace, a.replication))] + Flatten(a.definitions)
  }

  /**
    The preprocessing block: a cluster for the preprocess user, a session without
    keyspace for the keyspace DDL, then a session on the keyspace for the
    definitions' statements. The DDL is call 0 of the script and the definitions
    follow it.
   */
  function Preprocess(a: SessionArgs, outcome: nat -> Option<Failure>): Construction
    requires a.preuser.Some? && a.prepassword.Some?
  {
    match CreateCluster(a.preuser.value, Some(a.prepassword.value), a.datacenter, a.nodes)
    case Failure(e) => Construction([], Some(e))
    case Success(cfg) =>
      var ddl := Statement(KeyspaceDdl(a.keyspace, a.replication));
      var started := [BuildCluster(cfg), Connect(None), Execute(ddl)];
      if outcome(0).Some? then Construction(started, Some(Wrap(outcome(0).value)))
      else
        var stmts := Flatten(a.definitions);
        var ran := ExecuteAll(stmts, outcome, 1);
        var trace := started + [Close, Connect(Some(a.keyspace))] + Executes(stmts[..ran.count]);
        if ran.failure.Some? then Construction(trace, Some(Wrap(ran.failure.value)))
        else Construction(trace + [Close], None)
  }

  /** The main session: its cluster, a session on the keyspace, the temporal codecs and the shutdown hook. */
  function MainSession(a: SessionArgs): Construction {
    match CreateCluster(a.user, a.password, a.datacenter, a.nodes)
    case Failure(e) => Construction([], Some(e))
    case Success(cfg) => Construction([BuildCluster(cfg), Connect(Some(a.keyspace)), RegisterCodecs, AddShutdownHook], None)
  }

  /** The CassandraSessionImpl constructor. */
  function Open(a: SessionArgs, outcome: nat -> Option<Failure>): Construction {
    if a.preuser.Some? && a.prepassword.None? then Construction([], Some(NoSuchElement))
    else if a.preuser.None? then MainSession(a)
    else
      var pre := Preprocess(a, outcome);
      if pre.error.Some? then pre
      else
        var main := MainSession(a);
        Construction(pre.trace + main.trace, main.error)
  }

  // ---------------------------------------------------------------------------
  // Properties of the constructor

  lemma {:induction false} ExecutedAppend(a: seq<Action>, b: seq<Action>)
    ensures Executed(a + b) == Executed(a) + Executed(b)
    decreases |a|
  {
    if |a| == 0 {
      assert a + b == b;
    } else {
      var ab := a + b;
      ExecutedAppend(a[1..], b);
      assert ab[0] == a[0];
      assert ab[1..] == a[1..] + b;
      var first := if a[0].Execute? then [a[0].statement] else [];
      assert Executed(ab) == first + Executed(a[1..] + b);
      assert first + (Executed(a[1..]) + Executed(b)) == (first + Executed(a[1..])) + Executed(b);
    }
  }

  lemma {:induction false} ExecutedExecutes(stmts: seq<Statement>)
    ensures Executed(Executes(stmts)) == stmts
    decreases |stmts|
  {
    if |stmts| > 0 {
      ExecutedExecutes(stmts[1..]);
      assert Executes(stmts)[1..] == Executes(stmts[1..]);
    }
  }

  /** A trace without Execute actions runs no statement. */
  lemma {:induction false} NoExecutes(trace: seq<Action>)
    requires forall i :: 0 <= i < |trace| ==> !trace[i].Execute?
    ensures Executed(trace) == []
    decreases |trace|
  {
    if |trace| > 0 {
      NoExecutes(trace[1..]);
    }
  }

  /** A trace whose one Execute action runs `stmt` runs exactly `stmt`. */
  lemma ExecutedOne(before: seq<Action>, stmt: Statement, after: seq<Action>)
    requires forall i :: 0 <= i < |before| ==> !before[i].Execute?
    requires forall i :: 0 <= i < |after| ==> !after[i].Execute?
    ensures Executed(before + [Execute(stmt)] + after) == [stmt]
  {
    var one := [Execute(stmt)];
    assert one[1..] == [];
    assert Executed(one) == [stmt];
    ExecutedAppend(before + one, after);
    ExecutedAppend(before, one);
    NoExecutes(before);
    NoExecutes(after);
  }

  /** A main trace runs no statement. */
  lemma MainExecutesNothing(a: SessionArgs)
    ensures Executed(MainSession(a).trace) == []
  {
    NoExecutes(MainSession(a).trace);
  }

  /** Without a preprocess user nothing is executed: only the main session is started. */
  lemma NoPreprocessWithoutPreuser(a: SessionArgs, outcome: nat -> Option<Failure>)
    requires a.preuser.None?
    ensures Open(a, outcome) == MainSession(a)
    ensures Executed(Open(a, outcome).trace) == []
  {
    MainExecutesNothing(a);
  }

  /** A preprocess user without a preprocess password: `prepassword.get()` throws before any action. */
  lemma MissingPrePassword(a: SessionArgs, outcome: nat -> Option<Failure>)
    requires a.preuser.Some? && a.prepassword.None?
    ensures Open(a, outcome) == Construction([], Some(NoSuchElement))
  {
  }

  /** A trace of the preprocessing shape runs the DDL and then the given statements, in order. */
  lemma ExecutedPreprocessing(pre: ClusterConfig, ddl: Statement, keyspace: string, stmts: seq<Statement>, after: seq<Action>)
    requires forall i :: 0 <= i < |after| ==> !after[i].Execute?
    ensures Executed([BuildCluster(pre), Connect(None), Execute(ddl), Close, Connect(Some(keyspace))] + Executes(stmts) + after)
      == [ddl] + stmts
  {
    var head := [BuildCluster(pre), Connect(None), Execute(ddl), Close, Connect(Some(keyspace))];
    ExecutedOne([BuildCluster(pre), Connect(None)], ddl, [Close, Connect(Some(keyspace))]);
    assert head == [BuildCluster(pre), Connect(None)] + [Execute(ddl)] + [Close, Connect(Some(keyspace))];
    ExecutedBetween(head, stmts, after);
  }

  /** Statements executed between two stretches of a trace come after those of the first, with none from the second. */
  lemma ExecutedBetween(head: seq<Action>, stmts: seq<Statement>, after: seq<Action>)
    requires forall i :: 0 <= i < |after| ==> !after[i].Execute?
    ensures Executed(head + Executes(stmts) + after) == Executed(head) + stmts
  {
    ExecutedAppend(head + Executes(stmts), after);
    ExecutedAppend(head, Executes(stmts));
    ExecutedExecutes(stmts);
    NoExecutes(after);
    assert Executed(head) + stmts + [] == Executed(head) + stmts;
  }

  /**
    When both clusters build and every statement succeeds, the constructor runs
    the keyspace DDL, then every definition's statements in order, closes both
    preprocessing sessions and then opens the main session.
   */
  lemma PreprocessOrder(a: SessionArgs, outcome: nat -> Option<Failure>, pre: ClusterConfig, main: ClusterConfig)
    requires a.preuser.Some? && a.prepassword.Some?
    requires CreateCluster(a.preuser.value, Some(a.prepassword.value), a.datacenter, a.nodes) == Success(pre)
    requires CreateCluster(a.user, a.password, a.datacenter, a.nodes) == Success(main)
    requires forall i :: 0 <= i < |PreprocessStatements(a)| ==> outcome(i).None?
    ensures var c := Open(a, outcome);
      && c.error.None?
      && Executed(c.trace) == PreprocessStatements(a)
      && c.trace == [BuildCluster(pre), Connect(None), Execute(Statement(KeyspaceDdl(a.keyspace, a.replication))),
                     Close, Connect(Some(a.keyspace))]
                    + Executes(Flatten(a.definitions))
                    + [Close, BuildCluster(main), Connect(Some(a.keyspace)), RegisterCodecs, AddShutdownHook]
  {
    var stmts := Flatten(a.definitions);
    var ddl := Statement(KeyspaceDdl(a.keyspace, a.replication));
    var head := [BuildCluster(pre), Connect(None), Execute(ddl), Close, Connect(Some(a.keyspace))];
    var mainTrace := [BuildCluster(main), Connect(Some(a.keyspace)), RegisterCodecs, AddShutdownHook];
    PreprocessSucceeds(a, outcome, pre);
    assert MainSession(a) == Construction(mainTrace, None);
    assert (head + Executes(stmts) + [Close]) + mainTrace == head + Executes(stmts) + ([Close] + mainTrace);
    ExecutedPreprocessing(pre, ddl, a.keyspace, stmts, [Close] + mainTrace);
  }

  /** A preprocessing whose statements all succeed ends with the second Close and no exception. */
  lemma PreprocessSucceeds(a: SessionArgs, outcome: nat -> Option<Failure>, pre: ClusterConfig)
    requires a.preuser.Some? && a.prepassword.Some?
    requires CreateCluster(a.preuser.value, Some(a.prepassword.value), a.datacenter, a.nodes) == Success(pre)
    requires forall i :: 0 <= i < |PreprocessStatements(a)| ==> outcome(i).None?
    ensures Preprocess(a, outcome) == Construction(
      [BuildCluster(pre), Connect(None), Execute(Statement(KeyspaceDdl(a.keyspace, a.replication))),
       Close, Connect(Some(a.keyspace))] + Executes(Flatten(a.definitions)) + [Close], None)
  {
    var stmts := Flatten(a.definitions);
    assert outcome(0).None?;
    var ran := ExecuteAll(stmts, outcome, 1);
    assert ran.failure.None?;
    assert stmts[..ran.count] == stmts;
  }

  /**
    The first failing preprocessing statement ends the construction: the
    statements up to and including it were executed, nothing after, the main
    session is never started, and the failure leaves as Wrap describes it.
   */
  lemma PreprocessFailureStops(a: SessionArgs, outcome: nat -> Option<Failure>, pre: ClusterConfig, k: nat)
    requires a.preuser.Some? && a.prepassword.Some?
    requires CreateCluster(a.preuser.value, Some(a.prepassword.value), a.datacenter, a.nodes) == Success(pre)
    requires k < |PreprocessStatements(a)|
    requires forall i :: 0 <= i < k ==> outcome(i).None?
    requires outcome(k).Some?
    ensures var c := Open(a, outcome);
      && c.error == Some(Wrap(outcome(k).value))
      && Executed(c.trace) == PreprocessStatements(a)[..k + 1]
      && RegisterCodecs !in c.trace
  {
    var stmts := Flatten(a.definitions);
    var ddl := Statement(KeyspaceDdl(a.keyspace, a.replication));
    PreprocessFails(a, outcome, pre, k);
    var c := Open(a, outcome);
    assert c == Preprocess(a, outcome);
    if k == 0 {
      ExecutedOne([BuildCluster(pre), Connect(None)], ddl, []);
      assert c.trace == [BuildCluster(pre), Connect(None)] + [Execute(ddl)] + [];
      assert PreprocessStatements(a)[..1] == [ddl];
    } else {
      var done := stmts[..k - 1 + 1];
      assert c.trace == [BuildCluster(pre), Connect(None), Execute(ddl), Close, Connect(Some(a.keyspace))] + Executes(done) + [];
      ExecutedPreprocessing(pre, ddl, a.keyspace, done, []);
      assert PreprocessStatements(a)[..k + 1] == [ddl] + done;
    }
  }

  /** The preprocessing that fails at statement `k`: what it did up to there, and the wrapped failure. */
  lemma PreprocessFails(a: SessionArgs, outcome: nat -> Option<Failure>, pre: ClusterConfig, k: nat)
    requires a.preuser.Some? && a.prepassword.Some?
    requires CreateCluster(a.preuser.value, Some(a.prepassword.value), a.datacenter, a.nodes) == Success(pre)
    requires k < |PreprocessStatements(a)|
    requires forall i :: 0 <= i < k ==> outcome(i).None?
    requires outcome(k).Some?
    ensures var ddl := Statement(KeyspaceDdl(a.keyspace, a.replication));
      Preprocess(a, outcome) == if k == 0 then Construction([BuildCluster(pre), Connect(None), Execute(ddl)], Some(Wrap(outcome(0).value)))
        else Construction([BuildCluster(pre), Connect(None), Execute(ddl), Close, Connect(Some(a.keyspace))]
                          + Executes(Flatten(a.definitions)[..k - 1 + 1]), Some(Wrap(outcome(k).value)))
  {
    if k > 0 {
      RanUpTo(Flatten(a.definitions), outcome, k - 1);
    }
  }

  /** ExecuteAll stops exactly at the first failing call. */
  lemma RanUpTo(stmts: seq<Statement>, outcome: nat -> Option<Failure>, k: nat)
    requires k < |stmts|
    requires forall i :: 1 <= i < k + 1 ==> outcome(i).None?
    requires outcome(k + 1).Some?
    ensures ExecuteAll(stmts, outcome, 1) == Ran(k + 1, outcome(k + 1))
  {
  }

  /**
    The constructor throws NoSuchElementException exactly when a preprocess user
    comes without a preprocess password: every other exception it can end with
    comes from createCluster or from Wrap.
   */
  lemma OpenNoSuchElement(a: SessionArgs, outcome: nat -> Option<Failure>)
    ensures Open(a, outcome).error == Some(NoSuchElement) <==> a.preuser.Some? && a.prepassword.None?
  {
    CreateClusterFailure(a.user, a.password, a.datacenter, a.nodes);
    if a.preuser.Some? && a.prepassword.Some? {
      CreateClusterFailure(a.preuser.value, Some(a.prepassword.value), a.datacenter, a.nodes);
    }
  }

  /** A validation or execution failure while preprocessing becomes PersistenceRuntimeException with it as cause. */
  lemma QueryFailureWrapped(a: SessionArgs, outcome: nat -> Option<Failure>, pre: ClusterConfig, k: nat)
    requires a.preuser.Some? && a.prepassword.Some?
    requires CreateCluster(a.preuser.value, Some(a.prepassword.value), a.datacenter, a.nodes) == Success(pre)
    requires k < |PreprocessStatements(a)|
    requires forall i :: 0 <= i < k ==> outcome(i).None?
    requires outcome(k).Some? && IsQueryFailure(outcome(k).value)
    ensures Open(a, outcome).error == Some(Persistence(None, outcome(k).value))
  {
    PreprocessFailureStops(a, outcome, pre, k);
  }
}
