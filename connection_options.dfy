/**
 * MongoUtils.configureConnectionOptions: the connection and socket
 * timeouts and the write concern it sets on a MongoClientOptions.Builder.
 * The read preference it also sets is not part of this model.
 */
module ConnectionOptions {
  import opened Wrappers
  import opened JavaLang
  import opened KettleErrors

  /** The `w` of a write concern: a number of members, or a mode name such as "majority". */
  datatype W = WCount(n: int) | WMode(name: string)

  /** A WriteConcern as the driver's constructor receives it: w, wtimeout, fsync, j. */
  datatype WriteConcern = WriteConcern(w: W, wTimeout: int, fsync: bool, journaled: bool)

  /** `new WriteConcern()` with its w object set to 1: no timeout, no fsync, not journaled. */
  const DefaultWriteConcern := WriteConcern(WCount(1), 0, false, false)

  /**
   * A connection or socket timeout setting: unset when empty, a
   * NumberFormat failure when not an int, and applied only when positive.
   */
  function ResolveTimeout(setting: string): (r: Result<Option<int>, Error>)
    ensures r.Failure? <==> setting != "" && ParseInt(setting).None?
    ensures r.Failure? ==> r.error == NumberFormat(setting)
    ensures r.Success? && r.value.Some? ==> r.value.value > 0 && ParseInt(setting) == Some(r.value.value)
    ensures r.Success? && r.value.None? ==> setting == "" || ParseInt(setting).value <= 0
  {
    if setting == "" then Success(None)
    else match ParseInt(setting)
      case None => Failure(NumberFormat(setting))
      case Some(t) => Success(if t > 0 then Some(t) else None)
  }

  /** A timeout written by Integer.toString is applied exactly when it is positive. */
  lemma ResolveTimeoutOfNumeral(n: int)
    requires IsInt32(n)
    ensures ResolveTimeout(IntToString(n)) == Success(if n > 0 then Some(n) else None)
  {
    ParseIntOfIntToString(n);
  }

  /**
   * The write concern configureConnectionOptions builds. With nothing set it
   * is the default one; otherwise wTimeout must be an int when given (0
   * when not), an int writeConcern is a number of members, any other
   * non-empty one a mode name, an empty one w = 1, and journaled is passed on.
   */
  function ResolveWriteConcern(writeConcern: string, wTimeout: string, journaled: bool): (r: Result<WriteConcern, Error>)
    ensures r.Failure? <==> wTimeout != "" && ParseInt(wTimeout).None?
    ensures r.Failure? ==> r.error == NumberFormat(wTimeout)
    ensures r.Success? ==> r.value.journaled == journaled && !r.value.fsync
    ensures r.Success? ==> r.value.wTimeout == if wTimeout == "" then 0 else ParseInt(wTimeout).value
    ensures r.Success? ==> (r.value.w.WMode? <==> writeConcern != "" && ParseInt(writeConcern).None?)
    ensures r.Success? && r.value.w.WMode? ==> r.value.w.name == writeConcern
    ensures r.Success? && r.value.w.WCount? ==>
      r.value.w.n == if writeConcern == "" then 1 else ParseInt(writeConcern).value
  {
    if writeConcern == "" && wTimeout == "" && !journaled then
      Success(DefaultWriteConcern)
    else
      var wt := if wTimeout == "" then Some(0) else ParseInt(wTimeout);
      if wt.None? then Failure(NumberFormat(wTimeout))
      else if writeConcern != "" then
        match ParseInt(writeConcern)
        case Some(wc) => Success(WriteConcern(WCount(wc), wt.value, false, journaled))
        case None => Success(WriteConcern(WMode(writeConcern), wt.value, false, journaled))
      else
        Success(WriteConcern(WCount(1), wt.value, false, journaled))
  }

  /** Numeric w and wTimeout settings written by Integer.toString come back as exactly those numbers. */
  lemma ResolveWriteConcernOfNumerals(w: int, t: int, journaled: bool)
    requires IsInt32(w) && IsInt32(t)
    ensures ResolveWriteConcern(IntToString(w), IntToString(t), journaled) ==
      Success(WriteConcern(WCount(w), t, false, journaled))
  {
    ParseIntOfIntToString(w);
    ParseIntOfIntToString(t);
  }

  /** Leaving everything unset gives the same write concern as asking for w = 1 with a zero wTimeout. */
  lemma UnsetWriteConcernIsWOne()
    ensures ResolveWriteConcern("", "", false) == ResolveWriteConcern("1", "0", false)
  {
    assert ParseInt("1") == Some(1) && ParseInt("0") == Some(0);
  }

  /** "majority" is not a number, so it is passed on as a mode name. */
  lemma MajorityIsAMode(journaled: bool)
    ensures ResolveWriteConcern("majority", "", journaled) == Success(WriteConcern(WMode("majority"), 0, false, journaled))
  {
    assert !IsDigit("majority"[0]);
  }

  /** What a MongoClientOptions.Builder holds of the modelled settings; None is the driver's own default. */
  datatype ClientOptions = ClientOptions(connectTimeout: Option<int>, socketTimeout: Option<int>, writeConcern: Option<WriteConcern>)

  /** MongoClientOptions.Builder, reduced to the settings configureConnectionOptions makes. */
  class MongoClientOptionsBuilder {
    var connectTimeout: Option<int>
    var socketTimeout: Option<int>
    var writeConcern: Option<WriteConcern>

    constructor ()
      ensures Build() == ClientOptions(None, None, None)
    {
      connectTimeout, socketTimeout, writeConcern := None, None, None;
    }

    /** Builder.build(): the options as set so far. */
    function Build(): ClientOptions
      reads this
    {
      ClientOptions(connectTimeout, socketTimeout, writeConcern)
    }
  }

  /** The timeout a builder holds after a resolved setting: the new value when one is applied, else the old one. */
  function Applied(current: Option<int>, resolved: Option<int>): Option<int>
  {
    if resolved.Some? then resolved else current
  }

  /**
   * MongoUtils.configureConnectionOptions: sets the connection timeout,
   * then the socket timeout, then the write concern, stopping at the first
   * setting that fails, so that a later failure leaves the earlier
   * settings applied.
   */
  method ConfigureConnectionOptions(optsBuilder: MongoClientOptionsBuilder, connTimeout: string, socketTimeout: string,
                                    writeConcern: string, wTimeout: string, journaled: bool)
    returns (err: Option<Error>)
    modifies optsBuilder
    ensures var ct := ResolveTimeout(connTimeout);
      ct.Failure? ==> err == Some(ct.error) && optsBuilder.Build() == old(optsBuilder.Build())
    ensures var ct, st := ResolveTimeout(connTimeout), ResolveTimeout(socketTimeout);
      ct.Success? && st.Failure? ==>
        && err == Some(st.error)
        && optsBuilder.Build() == old(optsBuilder.Build()).(connectTimeout := Applied(old(optsBuilder.connectTimeout), ct.value))
    ensures var ct, st := ResolveTimeout(connTimeout), ResolveTimeout(socketTimeout);
      var wc := ResolveWriteConcern(writeConcern, wTimeout, journaled);
      ct.Success? && st.Success? && wc.Failure? ==>
        && err == Some(wc.error)
        && optsBuilder.Build() == old(optsBuilder.Build()).(
          connectTimeout := Applied(old(optsBuilder.connectTimeout), ct.value),
          socketTimeout := Applied(old(optsBuilder.socketTimeout), st.value))
    ensures var ct, st := ResolveTimeout(connTimeout), ResolveTimeout(socketTimeout);
      var wc := ResolveWriteConcern(writeConcern, wTimeout, journaled);
      ct.Success? && st.Success? && wc.Success? ==>
        && err.None?
        && optsBuilder.Build() == ClientOptions(
          Applied(old(optsBuilder.connectTimeout), ct.value),
          Applied(old(optsBuilder.socketTimeout), st.value),
          Some(wc.value))
  {
    var ct := ResolveTimeout(connTimeout);
    if ct.Failure? {
      return Some(ct.error);
    }
    if ct.value.Some? {
      optsBuilder.connectTimeout := ct.value;
    }
    var st := ResolveTimeout(socketTimeout);
    if st.Failure? {
      return Some(st.error);
    }
    if st.value.Some? {
      optsBuilder.socketTimeout := st.value;
    }
    var concern := ResolveWriteConcern(writeConcern, wTimeout, journaled);
    if concern.Failure? {
      return Some(concern.error);
    }
    optsBuilder.writeConcern := Some(concern.value);
    return None;
  }

  /** The options a fresh builder ends up with, or the first failing setting's error. */
  function ResolveOptions(connTimeout: string, socketTimeout: string, writeConcern: string, wTimeout: string, journaled: bool)
    : Result<ClientOptions, Error>
  {
    match ResolveTimeout(connTimeout)
    case Failure(e) => Failure(e)
    case Success(ct) =>
      match ResolveTimeout(socketTimeout)
      case Failure(e) => Failure(e)
      case Success(st) =>
        match ResolveWriteConcern(writeConcern, wTimeout, journaled)
        case Failure(e) => Failure(e)
        case Success(wc) => Success(ClientOptions(ct, st, Some(wc)))
  }
}
