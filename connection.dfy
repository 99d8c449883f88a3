/**
 * MongoUtils.initConnection and its helpers: the credential handed to the
 * driver, the seed list parsed from a "host[:port],..." string, the choice
 * between a single-server and a seed-list client, and the host split of
 * the member records read back from a replica set.
 */
module MongoConnection {
  import opened Wrappers
  import opened JavaLang
  import opened KettleErrors
  import opened ConnectionOptions
  import opened ReplicaSetTags

  /** MONGO_DEFAULT_PORT. */
  const MongoDefaultPort := 27017

  /** A ServerAddress: built from a host and a port, or from a host alone (the driver's default port). */
  datatype ServerAddress = HostPort(host: string, port: int) | HostOnly(host: string)

  // ---------------------------------------------------------------------
  // createCredentials
  // ---------------------------------------------------------------------

  /** A MongoCredential: Kerberos (GSSAPI) for a user, or MONGODB-CR against a source database. */
  datatype Credential =
    | GssapiCredential(userName: string)
    | MongoCrCredential(userName: string, source: string, password: string)

  /**
   * MongoUtils.createCredentials: Kerberos needs a user name; normal
   * authentication is used as soon as either the user name or the
   * password is given; otherwise there is no credential at all.
   */
  function CreateCredentials(username: string, password: string, dbName: string, kerberos: bool): (r: Option<Credential>)
    ensures r.None? <==> username == "" && (kerberos || password == "")
    ensures r.Some? ==> r.value.userName == username && (r.value.GssapiCredential? <==> kerberos)
    ensures r.Some? && r.value.MongoCrCredential? ==> r.value.source == dbName && r.value.password == password
  {
    if kerberos then
      if username != "" then Some(GssapiCredential(username)) else None
    else if username != "" || password != "" then
      Some(MongoCrCredential(username, dbName, password))
    else
      None
  }

  // ---------------------------------------------------------------------
  // The seed list of initConnection
  // ---------------------------------------------------------------------

  /** The port for parts without one: singlePort when it parses to anything but -1, else MONGO_DEFAULT_PORT. */
  function DefaultPort(singlePort: string): (p: int)
    ensures ParseInt(singlePort).None? || ParseInt(singlePort) == Some(-1) ==> p == MongoDefaultPort
    ensures ParseInt(singlePort).Some? && ParseInt(singlePort) != Some(-1) ==> p == ParseInt(singlePort).value
  {
    var singlePortI := if ParseInt(singlePort).Some? then ParseInt(singlePort).value else -1;
    if singlePortI != -1 then singlePortI else MongoDefaultPort
  }

  /** A port written by Integer.toString is used as the default, except -1, which means "no port given". */
  lemma DefaultPortOfNumeral(n: int)
    requires IsInt32(n)
    ensures DefaultPort(IntToString(n)) == if n == -1 then MongoDefaultPort else n
  {
    ParseIntOfIntToString(n);
  }

  /**
   * One comma-separated part as the loop of initConnection handles it:
   * more than one ':' is a malformed host, a port after ':' must parse
   * once trimmed, and the host is used untrimmed. A part made only of ':'
   * splits into no string at all and fails on hp[0]
   * (an ArrayIndexOutOfBoundsException, which initConnection does not declare).
   */
  function HostPartAddressAsWritten(part: string, port: int): (r: Result<ServerAddress, Error>)
    ensures r.Success? ==> r.value.HostPort? && ':' !in r.value.host
  {
    var hp := Split(part, ':');
    if |hp| > 2 then Failure(MalformedHost(part))
    else if |hp| == 0 then Failure(ArrayIndexOutOfBounds)
    else if |hp| == 2 then
      match ParseInt(Trim(hp[1]))
      case None => Failure(UnableToParsePortNumber(hp[1]))
      case Some(p) => Success(HostPort(hp[0], p))
    else Success(HostPort(hp[0], port))
  }

  /** HostPartAddressAsWritten, with a part made only of ':' reported as a malformed host. */
  function HostPartAddress(part: string, port: int): (r: Result<ServerAddress, Error>)
    ensures r.Success? ==> r.value.HostPort? && ':' !in r.value.host
    ensures r.Failure? ==> r.error == MalformedHost(part) || r.error.UnableToParsePortNumber?
  {
    var hp := Split(part, ':');
    if |hp| > 2 || |hp| == 0 then Failure(MalformedHost(part))
    else if |hp| == 2 then
      match ParseInt(Trim(hp[1]))
      case None => Failure(UnableToParsePortNumber(hp[1]))
      case Some(p) => Success(HostPort(hp[0], p))
    else Success(HostPort(hp[0], port))
  }

  /** ":" is a part on which the loop of initConnection indexes an empty array. */
  lemma HostPartColonExample()
    ensures HostPartAddressAsWritten(":", MongoDefaultPort) == Failure(ArrayIndexOutOfBounds)
    ensures HostPartAddress(":", MongoDefaultPort) == Failure(MalformedHost(":"))
  {
    SplitEmptyIffOnlySeparators(":", ':');
  }

  /** The corrected part parser differs from the code as written exactly on the parts made only of ':'. */
  lemma HostPartCorrection(part: string, port: int)
    ensures (part != "" && forall i :: 0 <= i < |part| ==> part[i] == ':') ==>
      HostPartAddressAsWritten(part, port) == Failure(ArrayIndexOutOfBounds) &&
      HostPartAddress(part, port) == Failure(MalformedHost(part))
    ensures !(part != "" && forall i :: 0 <= i < |part| ==> part[i] == ':') ==>
      HostPartAddressAsWritten(part, port) == HostPartAddress(part, port)
  {
    SplitEmptyIffOnlySeparators(part, ':');
  }

  /** host:port gives that host, untrimmed, on the port the trimmed port text parses to. */
  lemma HostPartWithPort(host: string, portText: string, p: int, port: int)
    requires ':' !in host && ':' !in portText && ParseInt(Trim(portText)) == Some(p)
    ensures HostPartAddress(host + ":" + portText, port) == Success(HostPort(host, p))
  {
    SplitBeforeField(host, portText, ':');
    FieldsWithoutSeparator(host, ':');
  }

  /**
   * A part with more than two ':'-separated fields is a malformed host,
   * whatever the fields between the first and the last hold.
   */
  lemma HostPartTooManyFields(host: string, mid: string, last: string, port: int)
    requires ':' !in host && ':' !in last && last != []
    ensures HostPartAddress(host + ":" + mid + ":" + last, port) == Failure(MalformedHost(host + ":" + mid + ":" + last))
  {
    SplitBeforeField(host + ":" + mid, last, ':');
    FieldsAfterField(host, mid, ':');
  }

  /**
   * A part ending in a bare ':' loses the empty port to split's removal of
   * trailing empty strings, so the host silently gets the default port.
   */
  lemma HostPartTrailingColon(host: string, port: int)
    requires ':' !in host && host != []
    ensures HostPartAddressAsWritten(host + ":", port) == Success(HostPort(host, port))
    ensures HostPartAddress(host + ":", port) == Success(HostPort(host, port))
  {
    FieldsAfterField(host, [], ':');
    assert host + ":" + [] == host + ":";
    assert (host + ":")[|host|] == ':';
    assert DropTrailingEmpty([host, []]) == DropTrailingEmpty([host]);
  }

  /** An explicit port that is not an int once trimmed is reported, untrimmed, as unparsable. */
  lemma HostPartBadPort(host: string, portText: string, port: int)
    requires ':' !in host && ':' !in portText && portText != [] && ParseInt(Trim(portText)).None?
    ensures HostPartAddress(host + ":" + portText, port) == Failure(UnableToParsePortNumber(portText))
  {
    SplitOfJoin([host, portText], ':');
    assert Join([host, portText], ':') == host + ":" + portText;
  }

  /** A part without ':' is a host on the default port. */
  lemma HostPartWithoutPort(host: string, port: int)
    requires ':' !in host
    ensures HostPartAddress(host, port) == Success(HostPort(host, port))
  {
  }

  /** The values of the results in order, or the error of the first one that failed. */
  function Collect<T>(rs: seq<Result<T, Error>>): (r: Result<seq<T>, Error>)
    ensures r.Success? ==> |r.value| == |rs|
  {
    if rs == [] then Success([])
    else match Collect(rs[..|rs| - 1])
      case Failure(e) => Failure(e)
      case Success(prev) =>
        match rs[|rs| - 1]
        case Failure(e) => Failure(e)
        case Success(a) => Success(prev + [a])
  }

  /** Once a prefix of the results has failed, the whole sequence fails with the same error. */
  lemma {:induction false} CollectFailurePropagates<T>(rs: seq<Result<T, Error>>, k: nat)
    requires k <= |rs| && Collect(rs[..k]).Failure?
    ensures Collect(rs) == Collect(rs[..k])
    decreases |rs| - k
  {
    if k < |rs| {
      var init := rs[..|rs| - 1];
      assert init[..k] == rs[..k];
      CollectFailurePropagates(init, k);
    } else {
      assert rs[..k] == rs;
    }
  }

  /** Collecting one more result after a successful prefix. */
  lemma CollectStep<T>(rs: seq<Result<T, Error>>, i: nat)
    requires i < |rs| && Collect(rs[..i]).Success?
    ensures Collect(rs[..i + 1]) ==
      match rs[i]
      case Failure(e) => Failure(e)
      case Success(a) => Success(Collect(rs[..i]).value + [a])
  {
    assert rs[..i + 1][..i] == rs[..i];
  }

  /**
   * Collect succeeds exactly when every result does, and then holds their
   * values in order; otherwise it reports the first failure.
   */
  lemma {:induction false} CollectExactly<T>(rs: seq<Result<T, Error>>)
    ensures Collect(rs).Success? <==> forall k :: 0 <= k < |rs| ==> rs[k].Success?
    ensures Collect(rs).Success? ==> forall k :: 0 <= k < |rs| ==> Collect(rs).value[k] == rs[k].value
    ensures Collect(rs).Failure? ==> exists k ::
      && 0 <= k < |rs|
      && rs[k] == Failure(Collect(rs).error)
      && forall j :: 0 <= j < k ==> rs[j].Success?
  {
    if rs != [] {
      var n := |rs| - 1;
      var init := rs[..n];
      CollectExactly(init);
      assert forall k :: 0 <= k < n ==> init[k] == rs[k];
      if Collect(init).Failure? {
        var k :| 0 <= k < n && init[k] == Failure(Collect(init).error) && forall j :: 0 <= j < k ==> init[j].Success?;
        assert rs[k] == Failure(Collect(rs).error);
      } else if rs[n].Failure? {
        assert rs[n] == Failure(Collect(rs).error);
      }
    }
  }

  /** Results that all succeed are collected into their values. */
  lemma {:induction false} CollectAllSucceed<T>(rs: seq<Result<T, Error>>, vs: seq<T>)
    requires |rs| == |vs| && forall k :: 0 <= k < |rs| ==> rs[k] == Success(vs[k])
    ensures Collect(rs) == Success(vs)
  {
    if rs != [] {
      var n := |rs| - 1;
      CollectAllSucceed(rs[..n], vs[..n]);
      assert vs[..n] + [vs[n]] == vs;
    }
  }

  /** The result of parsing each part with the default port. */
  function PartAddresses(parts: seq<string>, port: int): (rs: seq<Result<ServerAddress, Error>>)
    ensures |rs| == |parts|
  {
    seq(|parts|, k requires 0 <= k < |parts| => HostPartAddress(parts[k], port))
  }

  /**
   * The seed list initConnection builds from hostsPorts: an empty string
   * is refused; otherwise the trimmed string is split at ',' and every
   * part is parsed with the default port of singlePort.
   */
  function HostList(hostsPorts: string, singlePort: string): (r: Result<seq<ServerAddress>, Error>)
    ensures r == Failure(EmptyHostsString) <==> hostsPorts == []
    ensures r.Failure? && hostsPorts != [] ==> r.error.MalformedHost? || r.error.UnableToParsePortNumber?
  {
    if hostsPorts == [] then Failure(EmptyHostsString)
    else
      var parts, port := Split(Trim(hostsPorts), ','), DefaultPort(singlePort);
      PartFailures(parts, port);
      Collect(PartAddresses(parts, port))
  }

  /** A seed list fails only with the error of a part. */
  lemma PartFailures(parts: seq<string>, port: int)
    ensures var r := Collect(PartAddresses(parts, port));
      r.Failure? ==> r.error.MalformedHost? || r.error.UnableToParsePortNumber?
  {
    var rs := PartAddresses(parts, port);
    CollectExactly(rs);
    if Collect(rs).Failure? {
      var k :| 0 <= k < |rs| && rs[k] == Failure(Collect(rs).error) && forall j :: 0 <= j < k ==> rs[j].Success?;
      assert rs[k] == HostPartAddress(parts[k], port);
    }
  }

  /** A seed list that parses holds one address per comma-separated part, none with ':' in its host. */
  lemma HostListAddresses(hostsPorts: string, singlePort: string)
    ensures var r := HostList(hostsPorts, singlePort);
      r.Success? ==>
        && |r.value| == |Split(Trim(hostsPorts), ',')|
        && forall k :: 0 <= k < |r.value| ==> r.value[k].HostPort? && ':' !in r.value[k].host
  {
    if hostsPorts != [] {
      var parts, port := Split(Trim(hostsPorts), ','), DefaultPort(singlePort);
      var rs := PartAddresses(parts, port);
      CollectExactly(rs);
      if Collect(rs).Success? {
        forall k | 0 <= k < |rs|
          ensures Collect(rs).value[k].HostPort? && ':' !in Collect(rs).value[k].host
        {
          assert rs[k] == HostPartAddress(parts[k], port);
        }
      }
    }
  }

  /** The text a seed list is written as: host:port for each address, joined with ','. */
  function HostsString(addresses: seq<ServerAddress>): string
  {
    Join(FormattedParts(addresses), ',')
  }

  function FormatAddress(a: ServerAddress): string
  {
    match a
    case HostPort(h, p) => h + ":" + IntToString(p)
    case HostOnly(h) => h
  }

  /** A host name initConnection reads back unchanged from host:port. */
  predicate PlainHost(a: ServerAddress)
  {
    a.HostPort? && ':' !in a.host && ',' !in a.host && IsInt32(a.port) && (a.host == [] || !IsTrimmable(a.host[0]))
  }

  /** One written address has no comma and no blank at either end. */
  lemma FormattedPlainHostShape(a: ServerAddress)
    requires PlainHost(a)
    ensures var f := FormatAddress(a);
      && ',' !in f && f != []
      && !IsTrimmable(f[0]) && !IsTrimmable(f[|f| - 1])
  {
    var digits := IntToString(a.port);
    var f := FormatAddress(a);
    assert f == a.host + ":" + digits;
    IntToStringChars(a.port, ',');
    assert f[|f| - 1] == digits[|digits| - 1];
    if a.host == [] {
      assert f[0] == ':';
    } else {
      assert f[0] == a.host[0];
    }
  }

  /** One written address parses back to the address. */
  lemma FormattedPlainHost(a: ServerAddress, port: int)
    requires PlainHost(a)
    ensures HostPartAddress(FormatAddress(a), port) == Success(a)
  {
    var digits := IntToString(a.port);
    IntToStringChars(a.port, ':');
    TrimOfTrimmed(digits);
    ParseIntOfIntToString(a.port);
    HostPartWithPort(a.host, digits, a.port, port);
  }

  /** The written addresses of a seed list, in order. */
  function FormattedParts(addresses: seq<ServerAddress>): (parts: seq<string>)
    ensures |parts| == |addresses|
  {
    seq(|addresses|, i requires 0 <= i < |addresses| => FormatAddress(addresses[i]))
  }

  /** A written seed list neither starts nor ends with a blank. */
  lemma HostsStringTrimmed(addresses: seq<ServerAddress>)
    requires |addresses| >= 1
    requires PlainHost(addresses[0]) && PlainHost(addresses[|addresses| - 1])
    ensures HostsString(addresses) != [] && Trim(HostsString(addresses)) == HostsString(addresses)
  {
    var parts := FormattedParts(addresses);
    var s := HostsString(addresses);
    assert s == Join(parts, ',');
    FormattedPlainHostShape(addresses[0]);
    FormattedPlainHostShape(addresses[|parts| - 1]);
    JoinEnds(parts, ',');
    var first, last := parts[0], parts[|parts| - 1];
    assert s[0] == first[0];
    assert s[|s| - 1] == last[|last| - 1];
    TrimOfTrimmed(s);
  }

  /** A written seed list splits at ',' into the written addresses. */
  lemma HostsStringSplits(addresses: seq<ServerAddress>)
    requires |addresses| >= 1
    requires forall k :: 0 <= k < |addresses| ==> PlainHost(addresses[k])
    ensures Split(HostsString(addresses), ',') == FormattedParts(addresses)
  {
    var parts := FormattedParts(addresses);
    forall k | 0 <= k < |parts|
      ensures ',' !in parts[k] && parts[k] != []
    {
      FormattedPlainHostShape(addresses[k]);
    }
    SplitOfJoin(parts, ',');
  }

  /** Parsing a written seed list gives back exactly its addresses, whatever the default port. */
  lemma HostListOfHostsString(addresses: seq<ServerAddress>, singlePort: string)
    requires |addresses| >= 1
    requires forall k :: 0 <= k < |addresses| ==> PlainHost(addresses[k])
    ensures HostList(HostsString(addresses), singlePort) == Success(addresses)
  {
    var parts := FormattedParts(addresses);
    var s := HostsString(addresses);
    var port := DefaultPort(singlePort);
    forall k | 0 <= k < |parts|
      ensures HostPartAddress(parts[k], port) == Success(addresses[k])
    {
      FormattedPlainHost(addresses[k], port);
    }
    HostsStringTrimmed(addresses);
    HostsStringSplits(addresses);
    var rs := PartAddresses(parts, port);
    assert forall k :: 0 <= k < |rs| ==> rs[k] == Success(addresses[k]);
    CollectAllSucceed(rs, addresses);
    assert HostList(s, singlePort) == Collect(rs);
  }

  /** A blank, non-empty hosts string passes the emptiness test and becomes one empty host on the default port. */
  lemma BlankHostsStringIsEmptyHost(hostsPorts: string, singlePort: string)
    requires hostsPorts != [] && forall i :: 0 <= i < |hostsPorts| ==> IsTrimmable(hostsPorts[i])
    ensures HostList(hostsPorts, singlePort) == Success([HostPort("", DefaultPort(singlePort))])
  {
    var port := DefaultPort(singlePort);
    assert Trim(hostsPorts) == [];
    assert Split([], ',') == [[]];
    var rs := PartAddresses([[]], port);
    assert rs[0] == Success(HostPort([], port));
    CollectAllSucceed(rs, [HostPort([], port)]);
  }

  /** The seed list is empty exactly when the trimmed hosts string is nothing but commas. */
  lemma EmptyHostListOnlyFromCommas(hostsPorts: string, singlePort: string)
    requires HostList(hostsPorts, singlePort).Success?
    ensures var t := Trim(hostsPorts);
      HostList(hostsPorts, singlePort).value == [] <==> t != [] && forall i :: 0 <= i < |t| ==> t[i] == ','
  {
    SplitEmptyIffOnlySeparators(Trim(hostsPorts), ',');
  }

  // ---------------------------------------------------------------------
  // The client initConnection constructs
  // ---------------------------------------------------------------------

  /** A MongoClient: on one server (no discovery), or on a seed list from which the driver discovers the set. */
  datatype MongoClient =
    | SingleServer(address: ServerAddress, credentials: seq<Credential>, options: ClientOptions)
    | SeedList(seeds: seq<ServerAddress>, credentials: seq<Credential>, options: ClientOptions)

  /** The addresses the client is started from. */
  function Seeds(c: MongoClient): seq<ServerAddress>
  {
    if c.SeedList? then c.seeds else [c.address]
  }

  /**
   * The client shape: a seed list when there is more than one address, or
   * one address and all replica-set members are wanted; one server when
   * there is one address; "localhost" when there is none.
   */
  function ChooseClient(repSet: seq<ServerAddress>, useAllReplicaSetMembers: bool, cred: Option<Credential>,
                        opts: ClientOptions): (c: MongoClient)
    ensures c.options == opts
    ensures c.credentials == if cred.Some? then [cred.value] else []
    ensures c.SeedList? <==> |repSet| > 1 || (useAllReplicaSetMembers && repSet != [])
    ensures Seeds(c) == if repSet == [] then [HostOnly("localhost")] else repSet
  {
    var credList := if cred.Some? then [cred.value] else [];
    if |repSet| > 1 || (useAllReplicaSetMembers && |repSet| >= 1) then SeedList(repSet, credList, opts)
    else if |repSet| == 1 then SingleServer(repSet[0], credList, opts)
    else SingleServer(HostOnly("localhost"), credList, opts)
  }

  /**
   * The first half of MongoUtils.initConnection: the default port from
   * singlePort, the emptiness test, and the loop over the comma-separated
   * parts of the trimmed hosts string.
   */
  method ParseSeedList(hostsPorts: string, singlePort: string) returns (r: Result<seq<ServerAddress>, Error>)
    ensures r == HostList(hostsPorts, singlePort)
  {
    var parsed := ParseInt(singlePort);
    var singlePortI := if parsed.Some? then parsed.value else -1;
    if hostsPorts == [] {
      return Failure(EmptyHostsString);
    }
    var parts := Split(Trim(hostsPorts), ',');
    // The loop of the source recomputes this port for every part; it does not change.
    var port := if singlePortI != -1 then singlePortI else MongoDefaultPort;
    r := ParseParts(parts, port);
  }

  /** The loop over the comma-separated parts: the addresses in order, or the first failing part's error. */
  method ParseParts(parts: seq<string>, port: int) returns (r: Result<seq<ServerAddress>, Error>)
    ensures r == Collect(PartAddresses(parts, port))
  {
    var repSet: seq<ServerAddress> := [];
    ghost var results := PartAddresses(parts, port);
    var i := 0;
    while i < |parts|
      invariant 0 <= i <= |parts|
      invariant Collect(results[..i]) == Success(repSet)
    {
      var address := HostPartAddress(parts[i], port);
      SeedListStep(parts, port, i, repSet);
      if address.Failure? {
        return Failure(address.error);
      }
      repSet := repSet + [address.value];
      i := i + 1;
    }
    assert results[..i] == results;
    return Success(repSet);
  }

  /** One turn of the parts loop: a failing part decides the seed list, a parsed one extends it. */
  lemma SeedListStep(parts: seq<string>, port: int, i: nat, repSet: seq<ServerAddress>)
    requires i < |parts| && Collect(PartAddresses(parts, port)[..i]) == Success(repSet)
    ensures var a := HostPartAddress(parts[i], port);
      && (a.Failure? ==> Collect(PartAddresses(parts, port)) == Failure(a.error))
      && (a.Success? ==> Collect(PartAddresses(parts, port)[..i + 1]) == Success(repSet + [a.value]))
  {
    var results := PartAddresses(parts, port);
    assert results[i] == HostPartAddress(parts[i], port);
    CollectStep(results, i);
    if results[i].Failure? {
      CollectFailurePropagates(results, i + 1);
    }
  }

  /**
   * MongoUtils.initConnection: parses the seed list, configures a fresh
   * options builder and chooses the client; the first failure is reported.
   */
  method InitConnection(hostsPorts: string, singlePort: string, cred: Option<Credential>, useAllReplicaSetMembers: bool,
                        connTimeout: string, socketTimeout: string, writeConcern: string, wTimeout: string, journaled: bool)
    returns (r: Result<MongoClient, Error>)
    ensures hostsPorts == "" ==> r == Failure(EmptyHostsString)
    ensures HostList(hostsPorts, singlePort).Failure? ==> r == Failure(HostList(hostsPorts, singlePort).error)
    ensures var hosts, opts := HostList(hostsPorts, singlePort),
                               ResolveOptions(connTimeout, socketTimeout, writeConcern, wTimeout, journaled);
      hosts.Success? && opts.Failure? ==> r == Failure(opts.error)
    ensures var hosts, opts := HostList(hostsPorts, singlePort),
                               ResolveOptions(connTimeout, socketTimeout, writeConcern, wTimeout, journaled);
      hosts.Success? && opts.Success? ==> r == Success(ChooseClient(hosts.value, useAllReplicaSetMembers, cred, opts.value))
  {
    var repSet := ParseSeedList(hostsPorts, singlePort);
    if repSet.Failure? {
      return Failure(repSet.error);
    }
    var mongoOptsBuilder := new MongoClientOptionsBuilder();
    var err := ConfigureConnectionOptions(mongoOptsBuilder, connTimeout, socketTimeout, writeConcern, wTimeout, journaled);
    if err.Some? {
      return Failure(err.value);
    }
    var opts := mongoOptsBuilder.Build();
    return Success(ChooseClient(repSet.value, useAllReplicaSetMembers, cred, opts));
  }

  /**
   * A hosts string that trims to nothing but commas passes every check with
   * an empty seed list, so the client is started on localhost.
   */
  lemma CommasOnlyConnectsToLocalhost(hostsPorts: string, singlePort: string, useAllReplicaSetMembers: bool,
                                      cred: Option<Credential>, opts: ClientOptions)
    requires var t := Trim(hostsPorts); t != [] && forall i :: 0 <= i < |t| ==> t[i] == ','
    ensures HostList(hostsPorts, singlePort) == Success([])
    ensures ChooseClient(HostList(hostsPorts, singlePort).value, useAllReplicaSetMembers, cred, opts)
            == SingleServer(HostOnly("localhost"), if cred.Some? then [cred.value] else [], opts)
  {
    SplitEmptyIffOnlySeparators(Trim(hostsPorts), ',');
    assert PartAddresses(Split(Trim(hostsPorts), ','), DefaultPort(singlePort)) == [];
  }

  // ---------------------------------------------------------------------
  // getReplicaSetMembers: the host of each member record
  // ---------------------------------------------------------------------

  /**
   * The address of a member record's host string: none for an empty one;
   * host and port when it splits into exactly two at ':' (both trimmed;
   * the port must parse); otherwise the first piece, trimmed, alone. A
   * string of nothing but ':' fails on parts[0].
   */
  function MemberAddress(hostPort: string): (r: Result<Option<ServerAddress>, Error>)
    ensures r == Success(None) <==> hostPort == ""
    ensures r.Success? && r.value.Some? ==> ':' !in r.value.value.host
    ensures r.Failure? ==> r.error == ArrayIndexOutOfBounds || r.error.NumberFormat?
  {
    if hostPort == [] then Success(None)
    else
      var parts := Split(hostPort, ':');
      if |parts| == 2 then
        var portText := Trim(parts[1]);
        match ParseInt(portText)
        case None => Failure(NumberFormat(portText))
        case Some(p) => Success(Some(HostPort(Trim(parts[0]), p)))
      else if |parts| == 0 then Failure(ArrayIndexOutOfBounds)
      else Success(Some(HostOnly(Trim(parts[0]))))
  }

  /** A host string that splits into two pieces gives its trimmed host on the port the second piece parses to. */
  lemma MemberAddressOfTwoPieces(hostPort: string, host: string, portText: string, p: int)
    requires hostPort != [] && Split(hostPort, ':') == [host, portText] && ParseInt(Trim(portText)) == Some(p)
    ensures MemberAddress(hostPort) == Success(Some(HostPort(Trim(host), p)))
  {
  }

  /** host:port gives the trimmed host on the port the trimmed port text parses to. */
  lemma MemberAddressWithPort(host: string, portText: string, p: int)
    requires ':' !in host && ':' !in portText && ParseInt(Trim(portText)) == Some(p)
    ensures MemberAddress(host + ":" + portText) == Success(Some(HostPort(Trim(host), p)))
  {
    SplitBeforeField(host, portText, ':');
    FieldsWithoutSeparator(host, ':');
    MemberAddressOfTwoPieces(host + ":" + portText, host, portText, p);
  }

  /** A host string without ':' gives the trimmed host on the driver's default port. */
  lemma MemberAddressWithoutPort(host: string)
    requires host != [] && ':' !in host
    ensures MemberAddress(host) == Success(Some(HostOnly(Trim(host))))
  {
  }

  /**
   * With more than two ':'-separated fields only the first is kept,
   * trimmed, and no error is raised, whatever the middle fields hold.
   */
  lemma MemberAddressExtraFields(host: string, mid: string, last: string)
    requires ':' !in host && ':' !in last && last != []
    ensures MemberAddress(host + ":" + mid + ":" + last) == Success(Some(HostOnly(Trim(host))))
  {
    SplitBeforeField(host + ":" + mid, last, ':');
    FieldsAfterField(host, mid, ':');
    MemberAddressOfManyPieces(host + ":" + mid + ":" + last, host);
  }

  /** A host string that splits into more than two pieces gives its first piece, trimmed, alone. */
  lemma MemberAddressOfManyPieces(hostPort: string, host: string)
    requires hostPort != [] && |Split(hostPort, ':')| > 2 && Split(hostPort, ':')[0] == host
    ensures MemberAddress(hostPort) == Success(Some(HostOnly(Trim(host))))
  {
  }

  /** One entry of the member list: a null entry is skipped, a record without a host fails. */
  function MemberEntryAddress(m: Option<Member>): (r: Result<Option<ServerAddress>, Error>)
    ensures r == Failure(NullHost) <==> m.Some? && m.value.host.None?
    ensures r == Success(None) <==> m.None? || m.value.host == Some("")
  {
    if m.None? then Success(None)
    else if m.value.host.None? then Failure(NullHost)
    else MemberAddress(m.value.host.value)
  }

  /** The present values, in order. */
  function Somes<T>(xs: seq<Option<T>>): (r: seq<T>)
    ensures |r| <= |xs|
  {
    if xs == [] then []
    else Somes(xs[..|xs| - 1]) + (if xs[|xs| - 1].Some? then [xs[|xs| - 1].value] else [])
  }

  lemma {:induction false} SomesAppend<T>(a: seq<Option<T>>, b: seq<Option<T>>)
    ensures Somes(a + b) == Somes(a) + Somes(b)
    decreases |b|
  {
    if b == [] {
      assert a + b == a;
    } else {
      var n := |b| - 1;
      var tail := if b[n].Some? then [b[n].value] else [];
      SomesAppend(a, b[..n]);
      assert (a + b)[..|a + b| - 1] == a + b[..n] && (a + b)[|a + b| - 1] == b[n];
      assert Somes(a + b) == Somes(a + b[..n]) + tail;
      assert Somes(b) == Somes(b[..n]) + tail;
      assert Somes(a) + Somes(b[..n]) + tail == Somes(a) + (Somes(b[..n]) + tail);
    }
  }

  /** Collecting a concatenation: the first sequence's failure wins, otherwise the values are concatenated. */
  lemma {:induction false} CollectAppend<T>(a: seq<Result<T, Error>>, b: seq<Result<T, Error>>)
    ensures Collect(a + b) ==
      match Collect(a)
      case Failure(e) => Failure(e)
      case Success(x) =>
        match Collect(b)
        case Failure(e) => Failure(e)
        case Success(y) => Success(x + y)
    decreases |b|
  {
    if b == [] {
      assert a + b == a;
      if Collect(a).Success? {
        assert Collect(a).value + [] == Collect(a).value;
      }
    } else {
      var n := |b| - 1;
      CollectAppend(a, b[..n]);
      assert (a + b)[..|a + b| - 1] == a + b[..n];
      assert (a + b)[|a + b| - 1] == b[n];
      if Collect(a).Success? && Collect(b[..n]).Success? && b[n].Success? {
        var x, y := Collect(a).value, Collect(b[..n]).value;
        assert x + (y + [b[n].value]) == (x + y) + [b[n].value];
      }
    }
  }

  /** f applied to each element, in order. */
  function Map<A, B>(f: A -> B, xs: seq<A>): (ys: seq<B>)
    ensures |ys| == |xs| && forall k :: 0 <= k < |xs| ==> ys[k] == f(xs[k])
  {
    seq(|xs|, k requires 0 <= k < |xs| => f(xs[k]))
  }

  lemma MapAppend<A, B>(f: A -> B, a: seq<A>, b: seq<A>)
    ensures Map(f, a + b) == Map(f, a) + Map(f, b)
  {
  }

  /** The result for each member record. */
  function MemberEntries(members: seq<Option<Member>>): (rs: seq<Result<Option<ServerAddress>, Error>>)
    ensures |rs| == |members|
  {
    Map(MemberEntryAddress, members)
  }

  /** The addresses of the members in order, or the error of the first member that fails. */
  function MemberAddresses(members: seq<Option<Member>>): (r: Result<seq<ServerAddress>, Error>)
    ensures r.Success? ==> |r.value| <= |members|
  {
    match Collect(MemberEntries(members))
    case Failure(e) => Failure(e)
    case Success(xs) => Success(Somes(xs))
  }

  /** Concatenating member lists concatenates their addresses; the first list's failure wins. */
  lemma MemberAddressesAppend(a: seq<Option<Member>>, b: seq<Option<Member>>)
    ensures MemberAddresses(a + b) ==
      match MemberAddresses(a)
      case Failure(e) => Failure(e)
      case Success(x) =>
        match MemberAddresses(b)
        case Failure(e) => Failure(e)
        case Success(y) => Success(x + y)
  {
    MapAppend(MemberEntryAddress, a, b);
    CollectAppend(MemberEntries(a), MemberEntries(b));
    if Collect(MemberEntries(a)).Success? && Collect(MemberEntries(b)).Success? {
      SomesAppend(Collect(MemberEntries(a)).value, Collect(MemberEntries(b)).value);
    }
  }

  /** A null entry anywhere in the list changes nothing. */
  lemma NullMemberSkipped(before: seq<Option<Member>>, after: seq<Option<Member>>)
    ensures MemberAddresses(before + [None] + after) == MemberAddresses(before + after)
  {
    MemberAddressesAppend(before + [None], after);
    MemberAddressesAppend(before, [None]);
    MemberAddressesAppend(before, after);
    var single: seq<Option<Member>> := [None];
    assert MemberEntries(single) == [Success(None)];
    CollectAllSucceed(MemberEntries(single), [None]);
    var none: seq<Option<ServerAddress>> := [None];
    assert Somes(none) == [] by {
      assert none[..0] == [];
    }
    match MemberAddresses(before)
    case Failure(_) =>
    case Success(x) =>
      assert x + [] == x;
  }

  /**
   * The loop of MongoUtils.getReplicaSetMembers over the member records
   * read from the replica-set configuration; a missing or empty list
   * gives no address.
   */
  method ReplicaSetMemberAddresses(members: Option<seq<Option<Member>>>) returns (r: Result<seq<ServerAddress>, Error>)
    ensures members.None? ==> r == Success([])
    ensures members.Some? ==> r == MemberAddresses(members.value)
  {
    var replSetMembers: seq<ServerAddress> := [];
    if members.Some? && |members.value| > 0 {
      var ms := members.value;
      ghost var entries := MemberEntries(ms);
      ghost var seen: seq<Option<ServerAddress>> := [];
      var i := 0;
      while i < |ms|
        invariant 0 <= i <= |ms|
        invariant Collect(entries[..i]) == Success(seen) && replSetMembers == Somes(seen)
      {
        var m := ms[i];
        var entry: Result<Option<ServerAddress>, Error> := Success(None);
        if m.Some? {
          if m.value.host.None? {
            entry := Failure(NullHost);
          } else {
            entry := MemberAddress(m.value.host.value);
          }
        }
        assert entries[i] == entry;
        CollectStep(entries, i);
        if entry.Failure? {
          CollectFailurePropagates(entries, i + 1);
          return Failure(entry.error);
        }
        if entry.value.Some? {
          replSetMembers := replSetMembers + [entry.value.value];
        }
        assert (seen + [entry.value])[..|seen|] == seen;
        seen := seen + [entry.value];
        i := i + 1;
      }
      assert entries[..i] == entries;
    } else if members.Some? {
      assert MemberEntries(members.value) == [];
    }
    return Success(replSetMembers);
  }
}
