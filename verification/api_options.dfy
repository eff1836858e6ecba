/** Option setters of the ReplicaSet administration commands. Each setter
    either refuses the value with an argument error, leaving the option pack
    as it was, or stores the value. */
module ReplicaSetOptions {
  import opened Results

  /** The option a refused value was given for. */
  datatype OptionName =
    | WaitRecovery
    | CertSubject
    | ReplicationConnectRetry
    | ReplicationRetryCount
    | ReplicationZstdCompressionLevel
    | Extended

  /** Why a value was refused; the message text is built from these. */
  datatype ArgumentError =
    | OutOfRange(option: OptionName, value: int, low: int, high: int)
    | EmptyString(option: OptionName)
    | Negative(option: OptionName)

  /** The pack after a setter ran, and the error it raised if any. */
  datatype Applied<+T> = Applied(options: T, error: Option<ArgumentError>)

  /** `Wait_recovery_option`. */
  datatype WaitRecoveryOption = WaitRecoveryOption(waitRecovery: int)

  /** The replication channel settings of `Add_instance_options`; an unset
      optional is `None`. */
  datatype ReplicationOptions = ReplicationOptions(
    connectRetry: Option<int>,
    retryCount: Option<int>,
    compressionAlgorithms: Option<string>,
    zstdCompressionLevel: Option<int>,
    bind: Option<string>,
    networkNamespace: Option<string>)

  /** The part of `Add_instance_options` its own setters write. */
  datatype AddInstanceOptions = AddInstanceOptions(certSubject: string, replication: ReplicationOptions)

  /** `Status_options`. */
  datatype StatusOptions = StatusOptions(extended: int)

  /** `Gtid_wait_timeout_option`: the timeout if one was given. */
  datatype GtidWaitTimeoutOption = GtidWaitTimeoutOption(timeout: Option<int>)

  /** Keeps `updated` when `accepted`, otherwise keeps `current` and raises. */
  function Check<T>(current: T, accepted: bool, updated: T, err: ArgumentError): (r: Applied<T>)
    ensures r.error.None? <==> accepted
    ensures r.options == if accepted then updated else current
    ensures !accepted ==> r.error == Some(err)
  {
    if accepted then Applied(updated, None) else Applied(current, Some(err))
  }

  /** Accepts exactly the integers 1 to 3. */
  function SetWaitRecovery(o: WaitRecoveryOption, value: int): (r: Applied<WaitRecoveryOption>)
    ensures r.error.None? <==> 1 <= value <= 3
    ensures r.error.None? ==> r.options.waitRecovery == value
    ensures r.error.Some? ==> r.options == o && r.error.value == OutOfRange(WaitRecovery, value, 1, 3)
  {
    Check(o, !(value < 1 || value > 3), o.(waitRecovery := value), OutOfRange(WaitRecovery, value, 1, 3))
  }

  /** Refuses the empty subject, stores any other unchanged. */
  function SetCertSubject(o: AddInstanceOptions, value: string): (r: Applied<AddInstanceOptions>)
    ensures r.error.None? <==> |value| > 0
    ensures r.error.None? ==> r.options == o.(certSubject := value)
    ensures r.error.Some? ==> r.options == o && r.error.value == EmptyString(CertSubject)
  {
    Check(o, |value| != 0, o.(certSubject := value), EmptyString(CertSubject))
  }

  /** Refuses negative values, stores the others (zero included). */
  function SetReplConnectRetry(o: AddInstanceOptions, value: int): (r: Applied<AddInstanceOptions>)
    ensures r.error.None? <==> value >= 0
    ensures r.error.None? ==> r.options == o.(replication := o.replication.(connectRetry := Some(value)))
    ensures r.error.Some? ==> r.options == o && r.error.value == Negative(ReplicationConnectRetry)
  {
    Check(o, !(value < 0), o.(replication := o.replication.(connectRetry := Some(value))),
          Negative(ReplicationConnectRetry))
  }

  /** Refuses negative values, stores the others (zero included). */
  function SetReplRetryCount(o: AddInstanceOptions, value: int): (r: Applied<AddInstanceOptions>)
    ensures r.error.None? <==> value >= 0
    ensures r.error.None? ==> r.options == o.(replication := o.replication.(retryCount := Some(value)))
    ensures r.error.Some? ==> r.options == o && r.error.value == Negative(ReplicationRetryCount)
  {
    Check(o, !(value < 0), o.(replication := o.replication.(retryCount := Some(value))),
          Negative(ReplicationRetryCount))
  }

  /** Refuses negative levels, stores the others (zero included). */
  function SetReplZstdCompressionLevel(o: AddInstanceOptions, value: int): (r: Applied<AddInstanceOptions>)
    ensures r.error.None? <==> value >= 0
    ensures r.error.None? ==> r.options == o.(replication := o.replication.(zstdCompressionLevel := Some(value)))
    ensures r.error.Some? ==> r.options == o && r.error.value == Negative(ReplicationZstdCompressionLevel)
  {
    Check(o, !(value < 0), o.(replication := o.replication.(zstdCompressionLevel := Some(value))),
          Negative(ReplicationZstdCompressionLevel))
  }

  /** The setters without a check store whatever they are given. */
  function SetReplCompressionAlgorithms(o: AddInstanceOptions, value: string): (r: AddInstanceOptions)
    ensures r.replication.compressionAlgorithms == Some(value)
    ensures r.certSubject == o.certSubject
    ensures r.replication.(compressionAlgorithms := o.replication.compressionAlgorithms) == o.replication
  {
    o.(replication := o.replication.(compressionAlgorithms := Some(value)))
  }

  function SetReplBind(o: AddInstanceOptions, value: string): (r: AddInstanceOptions)
    ensures r.replication.bind == Some(value)
    ensures r.certSubject == o.certSubject
    ensures r.replication.(bind := o.replication.bind) == o.replication
  {
    o.(replication := o.replication.(bind := Some(value)))
  }

  function SetReplNetworkNamespace(o: AddInstanceOptions, value: string): (r: AddInstanceOptions)
    ensures r.replication.networkNamespace == Some(value)
    ensures r.certSubject == o.certSubject
    ensures r.replication.(networkNamespace := o.replication.networkNamespace) == o.replication
  {
    o.(replication := o.replication.(networkNamespace := Some(value)))
  }

  /** Accepts exactly the integers 0 to 2. */
  function SetExtended(o: StatusOptions, value: int): (r: Applied<StatusOptions>)
    ensures r.error.None? <==> 0 <= value <= 2
    ensures r.error.None? ==> r.options.extended == value
    ensures r.error.Some? ==> r.options == o && r.error.value == OutOfRange(Extended, value, 0, 2)
  {
    Check(o, !(value < 0 || value > 2), o.(extended := value), OutOfRange(Extended, value, 0, 2))
  }

  /** The timeout given explicitly, or the shell's configured default. */
  function Timeout(o: GtidWaitTimeoutOption, shellDefault: int): (t: int)
    ensures o.timeout.Some? ==> t == o.timeout.value
    ensures o.timeout.None? ==> t == shellDefault
  {
    match o.timeout
    case Some(v) => v
    case None => shellDefault
  }

  /** An option pack is the result of the values applied to it in order:
      each refused value is skipped, each accepted value replaces the last. */
  function ApplyWaitRecovery(o: WaitRecoveryOption, values: seq<int>): WaitRecoveryOption
    decreases |values|
  {
    if |values| == 0 then o else ApplyWaitRecovery(SetWaitRecovery(o, values[0]).options, values[1..])
  }

  /** After any series of `waitRecovery` values the stored value is the
      last one in range, or the original if none was. */
  lemma {:induction false} ApplyWaitRecoveryLastValid(o: WaitRecoveryOption, values: seq<int>)
    ensures var r := ApplyWaitRecovery(o, values);
      (exists i :: 0 <= i < |values| && 1 <= values[i] <= 3 && r.waitRecovery == values[i]
                   && forall j :: i < j < |values| ==> !(1 <= values[j] <= 3))
      || (r == o && forall j :: 0 <= j < |values| ==> !(1 <= values[j] <= 3))
    decreases |values|
  {
    if |values| > 0 {
      var o1 := SetWaitRecovery(o, values[0]).options;
      var rest := values[1..];
      ApplyWaitRecoveryLastValid(o1, rest);
      var r := ApplyWaitRecovery(o, values);
      assert r == ApplyWaitRecovery(o1, rest);
      if exists i :: 0 <= i < |rest| && 1 <= rest[i] <= 3 && r.waitRecovery == rest[i]
                     && forall j :: i < j < |rest| ==> !(1 <= rest[j] <= 3) {
        var i :| 0 <= i < |rest| && 1 <= rest[i] <= 3 && r.waitRecovery == rest[i]
                 && forall j :: i < j < |rest| ==> !(1 <= rest[j] <= 3);
        assert values[i + 1] == rest[i];
        assert forall j :: i + 1 < j < |values| ==> values[j] == rest[j - 1];
      } else {
        assert r == o1 && forall j :: 0 <= j < |rest| ==> !(1 <= rest[j] <= 3);
        assert forall j :: 1 <= j < |values| ==> values[j] == rest[j - 1];
        if 1 <= values[0] <= 3 {
          assert r.waitRecovery == values[0];
        } else {
          assert o1 == o;
        }
      }
    }
  }

  /** Setting the same accepted value twice is the same as setting it once. */
  lemma SettersIdempotent(o: AddInstanceOptions, s: StatusOptions, w: WaitRecoveryOption, v: int, text: string)
    ensures SetWaitRecovery(SetWaitRecovery(w, v).options, v) == SetWaitRecovery(w, v)
    ensures SetExtended(SetExtended(s, v).options, v) == SetExtended(s, v)
    ensures SetCertSubject(SetCertSubject(o, text).options, text) == SetCertSubject(o, text)
    ensures SetReplConnectRetry(SetReplConnectRetry(o, v).options, v) == SetReplConnectRetry(o, v)
    ensures SetReplRetryCount(SetReplRetryCount(o, v).options, v) == SetReplRetryCount(o, v)
    ensures SetReplZstdCompressionLevel(SetReplZstdCompressionLevel(o, v).options, v)
         == SetReplZstdCompressionLevel(o, v)
  {
  }
}
