/** The two projectors that keep one row for each host: hosts and host_telemetry. */
module HostsProjectors {
  import opened Projection
  import opened Columns

  /** What the payloads say, as far as these read models use it. */
  datatype DiscoveredHost = DiscoveredHost(
    hostName: string, ipAddresses: seq<string>, agentVersion: string,
    osVersion: string, cpuCount: int, socketCount: int, totalMemoryMB: int)
  datatype DiscoveredCloud = DiscoveredCloud(provider: string)
  datatype DiscoveredCluster = DiscoveredCluster(id: string, name: string)

  /** An address as the standard library sees it. */
  datatype IP = IP(loopback: bool, v4: bool)

  /** The decoding of payloads and the parsing of addresses, which are not part of this model. */
  datatype Codecs = Codecs(
    host: string -> Option<DiscoveredHost>,
    cloud: string -> Option<DiscoveredCloud>,
    cluster: string -> Option<DiscoveredCluster>,
    parseIP: string -> Option<IP>)

  predicate IsUsable(parseIP: string -> Option<IP>, address: string) {
    match parseIP(address)
    case None => false
    case Some(ip) => !ip.loopback && ip.v4
  }

  function Filtered(parseIP: string -> Option<IP>, addresses: seq<string>): (r: seq<string>)
    ensures forall address ::
      multiset(r)[address] == if IsUsable(parseIP, address) then multiset(addresses)[address] else 0
  {
    if addresses == [] then []
    else
      var n := |addresses| - 1;
      assert addresses == addresses[..n] + [addresses[n]];
      Filtered(parseIP, addresses[..n]) + if IsUsable(parseIP, addresses[n]) then [addresses[n]] else []
  }

  lemma FilteredHas(parseIP: string -> Option<IP>, addresses: seq<string>, address: string)
    ensures address in Filtered(parseIP, addresses) <==> address in addresses && IsUsable(parseIP, address)
  {
    assert address in Filtered(parseIP, addresses) <==> multiset(Filtered(parseIP, addresses))[address] > 0;
    assert address in addresses <==> multiset(addresses)[address] > 0;
  }

  lemma FilteredIsUsable(parseIP: string -> Option<IP>, addresses: seq<string>)
    ensures forall address :: address in Filtered(parseIP, addresses) <==>
      address in addresses && parseIP(address).Some? && parseIP(address).value.v4 && !parseIP(address).value.loopback
  {
    forall address ensures address in Filtered(parseIP, addresses) <==>
        address in addresses && IsUsable(parseIP, address)
    {
      FilteredHas(parseIP, addresses, address);
    }
  }

  lemma FilteredOneMore(parseIP: string -> Option<IP>, addresses: seq<string>, i: nat)
    requires i < |addresses|
    ensures Filtered(parseIP, addresses[..i + 1]) ==
      Filtered(parseIP, addresses[..i]) + if IsUsable(parseIP, addresses[i]) then [addresses[i]] else []
  {
    assert addresses[..i + 1][..i] == addresses[..i];
  }

  method FilterIPAddresses(parseIP: string -> Option<IP>, addresses: seq<string>) returns (filtered: seq<string>)
    ensures filtered == Filtered(parseIP, addresses)
    ensures forall address :: address in filtered <==>
      address in addresses && parseIP(address).Some? && parseIP(address).value.v4 && !parseIP(address).value.loopback
  {
    filtered := [];
    for i := 0 to |addresses|
      invariant filtered == Filtered(parseIP, addresses[..i])
    {
      FilteredOneMore(parseIP, addresses, i);
      var ip := parseIP(addresses[i]);
      if ip == None || ip.value.loopback || !ip.value.v4 {
        continue;
      }
      filtered := filtered + [addresses[i]];
    }
    assert addresses[..|addresses|] == addresses;
    FilteredIsUsable(parseIP, addresses);
  }

  // ---------------------------------------------------------------- hosts

  /** The agent has a row with the value in the column. */
  predicate Shows(t: Table, agent: string, c: Column, v: Value) {
    agent in t && c in t[agent] && t[agent][c] == v
  }

  /** An entity of hosts with the columns that the handlers write. */
  function Host(name: string, ipAddresses: seq<string>, agentVersion: string, cloudProvider: string,
                clusterID: string, clusterName: string): Row {
    map[Name := Text(name), IPAddresses := Texts(ipAddresses), AgentVersion := Text(agentVersion),
        CloudProvider := Text(cloudProvider), ClusterID := Text(clusterID), ClusterName := Text(clusterName)]
  }

  const HOSTS := Schema(
    Host("", [], "", "", "", ""),
    map[HostDiscovery := {Name, IPAddresses, AgentVersion},
        CloudDiscovery := {CloudProvider},
        ClusterDiscovery := {ClusterID, ClusterName}])

  /** The values that an event has for its columns of hosts. */
  function HostValues(codecs: Codecs, kind: Kind, payload: string): Option<Row> {
    if kind == HostDiscovery then
      match codecs.host(payload)
      case None => None
      case Some(h) => Some(map[
        Name := Text(h.hostName), IPAddresses := Texts(Filtered(codecs.parseIP, h.ipAddresses)),
        AgentVersion := Text(h.agentVersion)])
    else if kind == CloudDiscovery then
      match codecs.cloud(payload)
      case None => None
      case Some(c) => Some(map[CloudProvider := Text(c.provider)])
    else
      match codecs.cluster(payload)
      case None => None
      case Some(c) => Some(map[ClusterID := Text(c.id), ClusterName := Text(c.name)])
  }

  /** Insert the agent's row or update the columns; this is one statement of the database. */
  method StoreRow(db: Database<Table>, agent: string, row: Row, updateColumns: set<Column>)
    modifies db`tables
    ensures db.tables == Upsert(old(db.tables), agent, row, updateColumns)
  {
    if agent in db.tables {
      db.tables := db.tables[agent := Overwritten(db.tables[agent], row, updateColumns)];
    } else {
      db.tables := db.tables[agent := row];
    }
  }

  /** The table after a handler that may fail. */
  predicate Leaves(before: Table, after: Table, failed: bool, expected: Option<Table>) {
    if failed then expected == None && after == before else expected == Some(after)
  }

  function HostsDecode(codecs: Codecs): Decode { (kind, payload) => HostValues(codecs, kind, payload) }

  lemma HostRow(codecs: Codecs, payload: string)
    requires codecs.host(payload).Some?
    ensures var h := codecs.host(payload).value;
      HOSTS.zero + HostValues(codecs, HostDiscovery, payload).value
        == Host(h.hostName, Filtered(codecs.parseIP, h.ipAddresses), h.agentVersion, "", "", "")
  {
  }

  method HostDiscoveryHandler(codecs: Codecs, e: Event, db: Database<Table>) returns (failed: bool)
    requires e.kind == HostDiscovery
    modifies db`tables
    ensures Leaves(old(db.tables), db.tables, failed, Store(HOSTS, HostsDecode(codecs), e, old(db.tables)))
    ensures failed <==> codecs.host(e.payload).None?
  {
    var discovered := codecs.host(e.payload);
    if discovered == None {
      return true;
    }
    var addresses := FilterIPAddresses(codecs.parseIP, discovered.value.ipAddresses);
    var host := Host(discovered.value.hostName, addresses, discovered.value.agentVersion, "", "", "");
    HostRow(codecs, e.payload);
    StoreRow(db, e.agent, host, {Name, IPAddresses, AgentVersion});
    failed := false;
  }

  method HostCloudHandler(codecs: Codecs, e: Event, db: Database<Table>) returns (failed: bool)
    requires e.kind == CloudDiscovery
    modifies db`tables
    ensures Leaves(old(db.tables), db.tables, failed, Store(HOSTS, HostsDecode(codecs), e, old(db.tables)))
    ensures failed <==> codecs.cloud(e.payload).None?
  {
    var discovered := codecs.cloud(e.payload);
    if discovered == None {
      return true;
    }
    var host := Host("", [], "", discovered.value.provider, "", "");
    assert host == HOSTS.zero + HostValues(codecs, e.kind, e.payload).value;
    StoreRow(db, e.agent, host, {CloudProvider});
    failed := false;
  }

  method HostClusterHandler(codecs: Codecs, e: Event, db: Database<Table>) returns (failed: bool)
    requires e.kind == ClusterDiscovery
    modifies db`tables
    ensures Leaves(old(db.tables), db.tables, failed, Store(HOSTS, HostsDecode(codecs), e, old(db.tables)))
    ensures failed <==> codecs.cluster(e.payload).None?
  {
    var discovered := codecs.cluster(e.payload);
    if discovered == None {
      return true;
    }
    var host := Host("", [], "", "", discovered.value.id, discovered.value.name);
    assert host == HOSTS.zero + HostValues(codecs, e.kind, e.payload).value;
    StoreRow(db, e.agent, host, {ClusterID, ClusterName});
    failed := false;
  }

  // ---------------------------------------------------------------- host_telemetry

  /** An entity of host_telemetry. */
  function HostTelemetry(slesVersion: string, hostName: string, cpuCount: int, socketCount: int,
                         totalMemoryMB: int, cloudProvider: string): Row {
    map[SLESVersion := Text(slesVersion), HostName := Text(hostName), CPUCount := Number(cpuCount),
        SocketCount := Number(socketCount), TotalMemoryMB := Number(totalMemoryMB),
        CloudProvider := Text(cloudProvider)]
  }

  const TELEMETRY := Schema(
    HostTelemetry("", "", 0, 0, 0, ""),
    map[HostDiscovery := {SLESVersion, HostName, CPUCount, SocketCount, TotalMemoryMB},
        CloudDiscovery := {CloudProvider}])

  function TelemetryValues(codecs: Codecs, kind: Kind, payload: string): Option<Row> {
    if kind == HostDiscovery then
      match codecs.host(payload)
      case None => None
      case Some(h) => Some(map[
        SLESVersion := Text(h.osVersion), HostName := Text(h.hostName), CPUCount := Number(h.cpuCount),
        SocketCount := Number(h.socketCount), TotalMemoryMB := Number(h.totalMemoryMB)])
    else
      match codecs.cloud(payload)
      case None => None
      case Some(c) => Some(map[CloudProvider := Text(c.provider)])
  }

  function TelemetryDecode(codecs: Codecs): Decode { (kind, payload) => TelemetryValues(codecs, kind, payload) }

  method TelemetryHostHandler(codecs: Codecs, e: Event, db: Database<Table>) returns (failed: bool)
    requires e.kind == HostDiscovery
    modifies db`tables
    ensures Leaves(old(db.tables), db.tables, failed, Store(TELEMETRY, TelemetryDecode(codecs), e, old(db.tables)))
    ensures failed <==> codecs.host(e.payload).None?
  {
    var discovered := codecs.host(e.payload);
    if discovered == None {
      return true;
    }
    var h := discovered.value;
    var row := HostTelemetry(h.osVersion, h.hostName, h.cpuCount, h.socketCount, h.totalMemoryMB, "");
    assert row == TELEMETRY.zero + TelemetryValues(codecs, e.kind, e.payload).value;
    StoreRow(db, e.agent, row, {SLESVersion, HostName, CPUCount, SocketCount, TotalMemoryMB});
    failed := false;
  }

  method TelemetryCloudHandler(codecs: Codecs, e: Event, db: Database<Table>) returns (failed: bool)
    requires e.kind == CloudDiscovery
    modifies db`tables
    ensures Leaves(old(db.tables), db.tables, failed, Store(TELEMETRY, TelemetryDecode(codecs), e, old(db.tables)))
    ensures failed <==> codecs.cloud(e.payload).None?
  {
    var discovered := codecs.cloud(e.payload);
    if discovered == None {
      return true;
    }
    var row := HostTelemetry("", "", 0, 0, 0, discovered.value.provider);
    assert row == TELEMETRY.zero + TelemetryValues(codecs, e.kind, e.payload).value;
    StoreRow(db, e.agent, row, {CloudProvider});
    failed := false;
  }

  // ---------------------------------------------------------------- both are read models by columns

  /** The projector of a schema as it is registered: one handler for each type of event. */
  function Registered(p: string, sch: Schema, decode: Decode): Registry<Table> {
    map[p := map kind | kind in sch.owned :: StoreAs(sch, decode, kind)]
  }

  function StoreAs(sch: Schema, decode: Decode, kind: Kind): Handler<Table>
    requires kind in sch.owned
  {
    (e: Event, t: Table) => if e.kind == kind then Store(sch, decode, e, t) else None
  }

  lemma RegisteredProjects(p: string, sch: Schema, decode: Decode)
    ensures Projects(Registered(p, sch, decode), p, sch, decode)
    ensures DecidedByEvent(Registered(p, sch, decode), (c: Call) => decode(c.e.kind, c.e.payload).Some?)
  {
  }

  lemma HostsColumnsAreDisjoint()
    ensures ValidSchema(HOSTS)
  {
  }

  lemma HostsSchema(codecs: Codecs)
    ensures ValidSchema(HOSTS) && Decodes(HOSTS, HostsDecode(codecs))
  {
    HostsColumnsAreDisjoint();
  }

  lemma TelemetrySchema(codecs: Codecs)
    ensures ValidSchema(TELEMETRY) && Decodes(TELEMETRY, TelemetryDecode(codecs))
  {
  }

  // ---------------------------------------------------------------- what the columns hold

  lemma StoredShows(sch: Schema, decode: Decode, e: Event, t: Table, c: Column)
    requires ValidSchema(sch) && Decodes(sch, decode) && ValidTable(sch, t)
    requires e.kind in sch.owned && c in sch.owned[e.kind] && Store(sch, decode, e, t).Some?
    ensures decode(e.kind, e.payload).Some? && c in decode(e.kind, e.payload).value
    ensures Shows(Store(sch, decode, e, t).value, e.agent, c, decode(e.kind, e.payload).value[c])
  {
    StoredRows(sch, decode, e, t);
    StoredColumn(sch, decode, e, t, e.agent, c);
  }

  /** After a host event the host's row has the name, the usable addresses and the agent version that
      the payload says. */
  lemma HostEventIsShown(codecs: Codecs, e: Event, t: Table)
    requires e.kind == HostDiscovery && codecs.host(e.payload).Some? && ValidTable(HOSTS, t)
    ensures var after, d := Store(HOSTS, HostsDecode(codecs), e, t), codecs.host(e.payload).value;
      && after.Some? && Shows(after.value, e.agent, Name, Text(d.hostName))
      && Shows(after.value, e.agent, IPAddresses, Texts(Filtered(codecs.parseIP, d.ipAddresses)))
      && Shows(after.value, e.agent, AgentVersion, Text(d.agentVersion))
  {
    HostsSchema(codecs);
    StoredShows(HOSTS, HostsDecode(codecs), e, t, Name);
    StoredShows(HOSTS, HostsDecode(codecs), e, t, IPAddresses);
    StoredShows(HOSTS, HostsDecode(codecs), e, t, AgentVersion);
  }

  /** After a cloud event it has the provider of the payload. */
  lemma CloudEventIsShown(codecs: Codecs, e: Event, t: Table)
    requires e.kind == CloudDiscovery && codecs.cloud(e.payload).Some? && ValidTable(HOSTS, t)
    ensures var after, d := Store(HOSTS, HostsDecode(codecs), e, t), codecs.cloud(e.payload).value;
      after.Some? && Shows(after.value, e.agent, CloudProvider, Text(d.provider))
  {
    HostsSchema(codecs);
    StoredShows(HOSTS, HostsDecode(codecs), e, t, CloudProvider);
  }

  /** After a cluster event it has the id and the name of the cluster of the payload. */
  lemma ClusterEventIsShown(codecs: Codecs, e: Event, t: Table)
    requires e.kind == ClusterDiscovery && codecs.cluster(e.payload).Some? && ValidTable(HOSTS, t)
    ensures var after, d := Store(HOSTS, HostsDecode(codecs), e, t), codecs.cluster(e.payload).value;
      && after.Some? && Shows(after.value, e.agent, ClusterID, Text(d.id))
      && Shows(after.value, e.agent, ClusterName, Text(d.name))
  {
    HostsSchema(codecs);
    StoredShows(HOSTS, HostsDecode(codecs), e, t, ClusterID);
    StoredShows(HOSTS, HostsDecode(codecs), e, t, ClusterName);
  }

  /** The same for the five columns of host_telemetry that a host event writes. */
  lemma TelemetryHostEventIsShown(codecs: Codecs, e: Event, t: Table)
    requires e.kind == HostDiscovery && codecs.host(e.payload).Some? && ValidTable(TELEMETRY, t)
    ensures var after, d := Store(TELEMETRY, TelemetryDecode(codecs), e, t), codecs.host(e.payload).value;
      && after.Some? && Shows(after.value, e.agent, SLESVersion, Text(d.osVersion))
      && Shows(after.value, e.agent, HostName, Text(d.hostName))
      && Shows(after.value, e.agent, CPUCount, Number(d.cpuCount))
      && Shows(after.value, e.agent, SocketCount, Number(d.socketCount))
      && Shows(after.value, e.agent, TotalMemoryMB, Number(d.totalMemoryMB))
  {
    TelemetrySchema(codecs);
    StoredShows(TELEMETRY, TelemetryDecode(codecs), e, t, SLESVersion);
    StoredShows(TELEMETRY, TelemetryDecode(codecs), e, t, HostName);
    StoredShows(TELEMETRY, TelemetryDecode(codecs), e, t, CPUCount);
    StoredShows(TELEMETRY, TelemetryDecode(codecs), e, t, SocketCount);
    StoredShows(TELEMETRY, TelemetryDecode(codecs), e, t, TotalMemoryMB);
  }

  lemma TelemetryCloudEventIsShown(codecs: Codecs, e: Event, t: Table)
    requires e.kind == CloudDiscovery && codecs.cloud(e.payload).Some? && ValidTable(TELEMETRY, t)
    ensures var after, d := Store(TELEMETRY, TelemetryDecode(codecs), e, t), codecs.cloud(e.payload).value;
      after.Some? && Shows(after.value, e.agent, CloudProvider, Text(d.provider))
  {
    TelemetrySchema(codecs);
    StoredShows(TELEMETRY, TelemetryDecode(codecs), e, t, CloudProvider);
  }

  /** A column that nobody has written is empty or zero. */
  lemma ZeroColumns(c: Column)
    ensures c in HOSTS.zero ==> HOSTS.zero[c] == (if c == IPAddresses then Texts([]) else Text(""))
    ensures c in TELEMETRY.zero && c in {CPUCount, SocketCount, TotalMemoryMB} ==> TELEMETRY.zero[c] == Number(0)
    ensures c in TELEMETRY.zero && c !in {CPUCount, SocketCount, TotalMemoryMB} ==> TELEMETRY.zero[c] == Text("")
  {
  }

  /** Every data column of the two tables is written by one type of event. */
  lemma EveryColumnIsOwned()
    ensures HOSTS.owned[HostDiscovery] + HOSTS.owned[CloudDiscovery] + HOSTS.owned[ClusterDiscovery] == HOSTS.zero.Keys
    ensures HOSTS.owned.Keys == {HostDiscovery, CloudDiscovery, ClusterDiscovery}
    ensures TELEMETRY.owned[HostDiscovery] + TELEMETRY.owned[CloudDiscovery] == TELEMETRY.zero.Keys
    ensures TELEMETRY.owned.Keys == {HostDiscovery, CloudDiscovery}
  {
  }

  /** The hosts table from its creation: after every sequence of events each column of each agent
      is that of the last applied event of the one type that writes it, or zero. */
  lemma HostsAfterRun(codecs: Codecs, calls: seq<Call>, agent: string, kind: Kind, c: Column)
    requires kind in HOSTS.owned && c in HOSTS.owned[kind] && c in HOSTS.zero
    ensures var reg, db := Registered("hosts", HOSTS, HostsDecode(codecs)), Db(map[], map[]);
      && ValidTable(HOSTS, After(reg, db, calls).tables)
      && ColumnIs(HOSTS, HostsDecode(codecs), map[], After(reg, db, calls).tables,
           LastApplied(reg, db, calls, agent, kind), agent, kind, c)
  {
    HostsSchema(codecs);
    RegisteredProjects("hosts", HOSTS, HostsDecode(codecs));
    ColumnsAreOfLastApplied(
      Registered("hosts", HOSTS, HostsDecode(codecs)), "hosts", HOSTS, HostsDecode(codecs),
      Db(map[], map[]), calls, agent, kind, c);
  }

  lemma TelemetryAfterRun(codecs: Codecs, calls: seq<Call>, agent: string, kind: Kind, c: Column)
    requires kind in TELEMETRY.owned && c in TELEMETRY.owned[kind] && c in TELEMETRY.zero
    ensures var reg, db := Registered("host_telemetry", TELEMETRY, TelemetryDecode(codecs)), Db(map[], map[]);
      && ValidTable(TELEMETRY, After(reg, db, calls).tables)
      && ColumnIs(TELEMETRY, TelemetryDecode(codecs), map[], After(reg, db, calls).tables,
           LastApplied(reg, db, calls, agent, kind), agent, kind, c)
  {
    TelemetrySchema(codecs);
    RegisteredProjects("host_telemetry", TELEMETRY, TelemetryDecode(codecs));
    ColumnsAreOfLastApplied(
      Registered("host_telemetry", TELEMETRY, TelemetryDecode(codecs)),
      "host_telemetry", TELEMETRY, TelemetryDecode(codecs),
      Db(map[], map[]), calls, agent, kind, c);
  }
}
