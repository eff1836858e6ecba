# MySQL Shell core: X protocol client, password prompt, ReplicaSet options, version stepping, session guard

This project is a Dafny model of five small pieces of MySQL Shell. It proves properties of each.

- **X protocol wire client** (`Mysqlx_connector`). Sends and receives length-prefixed frames: a 4-octet big-endian length that counts the payload plus the 5-octet header, a message-id octet read into a plain `char` (taken as signed here), then the protobuf payload. It maps the id of an incoming frame to one of the 17 server message kinds. It checks a reply against the ids the caller expected. It turns an unexpected `ERROR` reply into a runtime error carrying the server's text; any other unexpected reply becomes a logic error naming the id. A connector is modelled as a value holding the octets still to arrive, the octets sent so far, whether the socket is open, and how many times the socket was released.
- **Password prompt** (`get_password.cc`). Edits raw keystrokes into a password:
  - erase keys (backspace, DEL) remove the last character and echo `\b \b`;
  - newline, carriage return and Ctrl-C end input;
  - other control characters are ignored;
  - characters beyond the buffer capacity are dropped;
  - trailing characters for which the library-dependent test `isspace(c) == ' '` holds may be dropped;
  - the result is NUL-terminated.

  The Windows variant reads an extra key after an `0xE0` prefix. `my_stpnmov` is modelled both as a declarative copy and as the loop the C code runs.
- **ReplicaSet option setters** (`api_options.cc`). Each setter either raises an argument error and leaves the option pack unchanged, or stores the value.
- **Version stepping** (the upgrade checker's test utilities). Moves one release back or forward in a `major.minor.patch` space whose minor and patch parts run from 0 to 99, and repeats the step `count` times.
- **Database error and scoped session** (`session.h`). The error value carries a message, a code and a SQLSTATE. The `Scoped_session` guard closes the session it holds exactly once when it is destroyed.

Two things the source takes from generated protobuf code are parameters of the model, gathered in an `XRegistry.Registry`:
- the numeric values of the server message tags;
- the parser that extracts the text of a server `Error` message.

The only assumption about the tags is the one the C++ `switch` enforces: they are pairwise distinct.

The model follows the code on these points:
- An `ERROR` reply is classified as a failure only when its id is *not* in the expected set. When the caller expects `ERROR`, the reply is returned like any other.
- The runtime error built from a server error carries only the message text. The error code and SQLSTATE are not carried.
- The result of parsing the payload is ignored by the code, so there is no "malformed message" error. The model returns the payload octets as the message body.

## Model

| member | source | states |
|---|---|---|
| Bytes.BigEndian32 | xconnector/mysqlx_connector.cc:60 | the four length octets are the big-endian digits of the value in base 256 |
| Bytes.ReadBigEndian32 | xconnector/mysqlx_connector.cc:92 | `ntohl` of the four header octets is an unsigned 32-bit value |
| Bytes.BigEndian32RoundTrip | xconnector/mysqlx_connector.cc:60-92 | reading back a written length (`ntohl` of `htonl`) gives the value written |
| Bytes.ReadBigEndian32RoundTrip | xconnector/mysqlx_connector.cc:92 | every 4-octet header prefix is the encoding of the length read from it |
| Bytes.SignedChar | xconnector/mysqlx_connector.cc:93 | the id octet read through a signed `char` lies in -128..127 and is congruent to the octet modulo 256 |
| Bytes.CharOf | xconnector/mysqlx_connector.cc:61 | storing an id into a `char` keeps it modulo 256, and reading it back as a signed char returns any id in -128..127 |
| Bytes.ToInt32 | xconnector/mysqlx_connector.cc:92 | an unsigned 32-bit value stored in an `int` becomes the value in -2^31..2^31-1 congruent to it modulo 2^32 |
| Bytes.CString | src/get_password.cc:223 | the string a `char*` denotes is the prefix before the first NUL, and there is none when the buffer holds no NUL |
| Decimal.IntToString | xconnector/mysqlx_connector.cc:158 | the text streamed for an id is never empty and starts with a minus sign exactly when the id is negative |
| Decimal.IntToStringRoundTrip | xconnector/mysqlx_connector.cc:156-158 | the decimal text streamed for an id parses back to that id, so error texts identify the id |
| XFraming.EncodeFrame | xconnector/mysqlx_connector.cc:57-77 | a frame is the length (payload + 5, modulo 2^32), then the id's low octet, then the payload unchanged |
| XFraming.DecodeHeader | xconnector/mysqlx_connector.cc:88-94 | a header is accepted exactly when its declared length covers the 5 header octets; the payload length is the declared length minus 5 and the id is the signed id octet |
| XFraming.MsgLenAsWritten | xconnector/mysqlx_connector.cc:92 | the code's `msglen` always fits a signed 32-bit `int` |
| XFraming.MsgLenAsWrittenUnderflows | xconnector/mysqlx_connector.cc:92-94 | a header declaring length 3 gives `msglen == -2`, which is then the array size |
| XFraming.MsgLenAsWrittenNegative | xconnector/mysqlx_connector.cc:92-94 | `msglen` is negative exactly when the declared length is below 5 or at least 2^31 + 5 |
| XFraming.MsgLenAsWrittenAgrees | xconnector/mysqlx_connector.cc:92 | between those bounds the code's `msglen` equals the checked payload length |
| XFraming.FrameHeaderRoundTrip | xconnector/mysqlx_connector.cc:57-93 | decoding the header of a sent frame gives back its payload length and id |
| XFraming.FrameHeaderReencode | xconnector/mysqlx_connector.cc:88-93 | every accepted header is the header the sender writes for its id and payload length |
| XRegistry.DecodeTag | xconnector/mysqlx_connector.cc:100-160 | an id is recognised exactly when some server message kind carries it, and the kind found carries that id |
| XRegistry.DecodeTagOfCode | xconnector/mysqlx_connector.cc:100-152 | each kind's own id selects that kind, since the case labels are distinct |
| XRegistry.DecodeTagUnknown | xconnector/mysqlx_connector.cc:153-160 | an id no kind carries falls to the default case |
| XConnector.SendMessage | xconnector/mysqlx_connector.cc:57-77 | on an open socket the output grows by exactly the frame for the id and payload; on a closed one the transport error is raised and nothing is written |
| XConnector.ReadExact | xconnector/mysqlx_connector.cc:88-98 | a read of `n` octets succeeds exactly when the socket is open and `n` octets are pending, and then consumes exactly them |
| XConnector.ReadResponse | xconnector/mysqlx_connector.cc:80-175 | a returned reply is exactly the frame consumed from the input with a known id; a logic error only comes from an unknown id; a frame underflow only comes from a header whose declared length is below 5; a short or closed stream gives the transport's runtime error; nothing is written |
| XConnector.UnknownMessageText | xconnector/mysqlx_connector.cc:156-158 | the unknown-message text is the fixed prefix followed by text that reads back as the id |
| XConnector.ReadResponseOfFrame | xconnector/mysqlx_connector.cc:80-175 | a well-formed frame of a known kind is read back as that kind and its full payload, consuming exactly the frame |
| XConnector.ReadResponseUnknownId | xconnector/mysqlx_connector.cc:153-160 | a frame with an unknown id raises the "Unknown message received from server" logic error after consuming the frame |
| XConnector.ReadResponseTruncatedPayload | xconnector/mysqlx_connector.cc:94-172 | a frame whose payload is cut short raises the transport's runtime error |
| XConnector.ReadResponseUnderflow | xconnector/mysqlx_connector.cc:88-94 | a header declaring less than its own 5 octets is refused with the declared length before any payload is read, consuming only the header |
| XConnector.ReadResponseUnderflowExample | xconnector/mysqlx_connector.cc:88-94 | the header `00 00 00 03` is refused as an underflow of 3 |
| XConnector.SendThenReadRoundTrip | xconnector/mysqlx_connector.cc:57-175 | what one end sends, the other end reads back as the same kind and body |
| XConnector.WrongResponse | xconnector/mysqlx_connector.cc:223-243 | an unexpected `ERROR` reply becomes a runtime error with the server's text, anything else a logic error naming the id and the caller's context |
| XConnector.UnexpectedText | xconnector/mysqlx_connector.cc:238-239 | the unexpected-response text is the fixed prefix, text that reads back as the id, then `], ` and the caller's context |
| XConnector.UnexpectedTextIdentifies | xconnector/mysqlx_connector.cc:238-241 | the "Unexpected response" text determines both the id and the context it was built from |
| XConnector.SendReceive | xconnector/mysqlx_connector.cc:185-195 | a returned reply always has an id in the expected set, and the request frame is always written first |
| XConnector.SendReceiveOne | xconnector/mysqlx_connector.cc:206-216 | a returned reply always has the one expected id, and the request frame is always written first |
| XConnector.ExchangePassesReadFailure | xconnector/mysqlx_connector.cc:185-195 | when reading the reply fails (closed or drained socket, cut-short payload, length field below five, unknown id), the exchange raises that same failure with the same socket state |
| XConnector.ExchangeOnePassesReadFailure | xconnector/mysqlx_connector.cc:206-216 | the single-id overload passes a failed reply read through unchanged as well |
| XConnector.SendReceiveOneIsSingleton | xconnector/mysqlx_connector.cc:185-216 | the single-id overload behaves as the set overload with a one-element set |
| XConnector.ExchangeClassification | xconnector/mysqlx_connector.cc:185-243 | for a reply of a known kind, the exchange returns it when expected, raises the server text for an unexpected `ERROR`, and raises "Unexpected response" otherwise |
| XConnector.Close | xconnector/mysqlx_connector.cc:252-262 | closing leaves the socket closed with pending and sent data untouched, and releases it only if it was open |
| XConnector.Destroy | xconnector/mysqlx_connector.cc:266-269 | after the destructor the socket is shut, an open socket has been released once more, and the streams and fault text are unchanged |
| XConnector.DestroyAfterClose | xconnector/mysqlx_connector.cc:252-269 | the destructor of an explicitly closed connector releases nothing more |
| XConnector.CloseReleasesOnce | xconnector/mysqlx_connector.cc:252-269 | closing any number of times, the destructor included, releases the socket no more than once |
| XConnector.ClosedConnectorRefuses | xconnector/mysqlx_connector.cc:57-98 | after close, an exchange raises the transport error and writes nothing, and a read raises it too |
| XConnector.ParsedPayloadAsWritten | xconnector/mysqlx_connector.cc:164 | what `ParseFromString(mbuf)` receives is strictly shorter than the payload, and no defined string when the payload has no NUL (the conversion reads past the buffer) |
| XConnector.ParsedPayloadAsWrittenTruncates | xconnector/mysqlx_connector.cc:164 | the two-octet payload 08 00 reaches the parser as the single octet 08 |
| Password.Edit | src/get_password.cc:122-150 | the edited password never exceeds the capacity, and holds no control character if it started with none |
| Password.TrimTrailing | src/get_password.cc:151-152 | the result is a prefix of the input; every octet removed satisfies the trailing test; its last octet does not |
| Password.EditKeys | src/get_password.cc:118-150 | the loop over the buffer leaves exactly the edited password before the final position, and echoes exactly the editor's echo when echo is on and nothing otherwise |
| Password.GetPassword | src/get_password.cc:118-155 | the buffer holds, as a C string, the edited password with trailing characters trimmed; the echo is the editor's echo or nothing |
| Password.TrimPosition | src/get_password.cc:151-152 | stepping the end position back stops exactly where the trimmed password ends, never past where editing stopped |
| Password.TypeThenErase | src/get_password.cc:127-149 | a typed character followed by an erase key leaves the password as if neither was pressed |
| Password.EraseOnEmptyIsDropped | src/get_password.cc:127-143 | an erase key on an empty password changes nothing, the echo included |
| Password.EndKeyStops | src/get_password.cc:140-141 | an end key stops editing, whatever follows it |
| Password.FullLineDrops | src/get_password.cc:142-143 | once the capacity is reached, any key other than erase or end is ignored |
| Password.EditPlainText | src/get_password.cc:142-149 | printable keys that fit are stored as typed, in order |
| Password.WindowsEdit | src/get_password.cc:76-101 | the Windows editor keeps at most 79 characters and brings in no control character |
| Password.WindowsTtyPassword | src/get_password.cc:69-107 | the Windows prompt returns at most 79 characters, none of them control characters |
| Password.WindowsAgreesWithPosix | src/get_password.cc:76-101 | without `0xE0` prefixes and with an end key present, the Windows editor edits exactly as the POSIX one does with capacity 79 |
| Password.PrefixSecondRead | src/get_password.cc:83-84 | an `0xE0` prefix is consumed and the next octet acts as the key, exactly as if that key were pressed alone |
| Password.WindowsTtyAgreesWithPosix | src/get_password.cc:69-107 | without `0xE0` prefixes and with an end key present, the Windows prompt returns the trimmed password the POSIX editor stores with capacity 79 |
| Password.WindowsWaitsForEnd | src/get_password.cc:76-84 | without an end key the Windows prompt never returns |
| Password.CopyEnd | src/get_password.cc:159-167 | the copy stops at the first NUL among the first `n` octets, or after `n` octets |
| Password.StpnmovResult | src/get_password.cc:159-167 | `my_stpnmov` copies the source up to and including its first NUL but at most `n` octets, leaves the rest of the destination unchanged, and returns a pointer to the copied NUL or to `dst + n` |
| Password.Stpnmov | src/get_password.cc:159-167 | the C loop performs exactly that copy and returns that end, never reading past the source |
| Password.GetpassBufferAsWritten | src/get_password.cc:176-182 | after the `getpass` copy the last buffer octet is whatever it held before |
| Password.GetpassBufferAsWrittenUnterminated | src/get_password.cc:176-223 | a 79-character password copied over an 80-octet buffer holding no NUL leaves no NUL, so `strdup(buff)` has no string to copy |
| Password.GetpassBuffer | src/get_password.cc:176-223 | with the terminator stored, the buffer is always a C string: the password cut to 79 characters |
| ReplicaSetOptions.SetWaitRecovery | modules/adminapi/replica_set/api_options.cc:50-59 | accepts exactly 1..3 and stores it; otherwise raises an out-of-range error naming the value and range, and the option keeps its value |
| ReplicaSetOptions.SetCertSubject | modules/adminapi/replica_set/api_options.cc:104-111 | refuses exactly the empty subject and leaves the pack unchanged; otherwise stores it and changes nothing else |
| ReplicaSetOptions.SetReplConnectRetry | modules/adminapi/replica_set/api_options.cc:113-121 | refuses exactly negative values, keeping the pack; otherwise sets the connect retry only |
| ReplicaSetOptions.SetReplRetryCount | modules/adminapi/replica_set/api_options.cc:123-131 | refuses exactly negative values, keeping the pack; otherwise sets the retry count only |
| ReplicaSetOptions.SetReplCompressionAlgorithms | modules/adminapi/replica_set/api_options.cc:143-146 | stores any text as the compression algorithms and changes no other option |
| ReplicaSetOptions.SetReplZstdCompressionLevel | modules/adminapi/replica_set/api_options.cc:148-156 | refuses exactly negative levels, keeping the pack; otherwise sets the level only |
| ReplicaSetOptions.SetReplBind | modules/adminapi/replica_set/api_options.cc:158-160 | stores any text as the bind address and changes no other option |
| ReplicaSetOptions.SetReplNetworkNamespace | modules/adminapi/replica_set/api_options.cc:162-165 | stores any text as the network namespace and changes no other option |
| ReplicaSetOptions.Timeout | modules/adminapi/replica_set/api_options.cc:176-179 | the timeout given explicitly wins; without one the shell's configured default applies |
| ReplicaSetOptions.SetExtended | modules/adminapi/replica_set/api_options.cc:198-208 | accepts exactly 0..2 and stores it; otherwise raises an out-of-range error and the option keeps its value |
| ReplicaSetOptions.ApplyWaitRecoveryLastValid | modules/adminapi/replica_set/api_options.cc:50-59 | after a series of values the option holds the last one in range, or its original value when none was |
| ReplicaSetOptions.SettersIdempotent | modules/adminapi/replica_set/api_options.cc:50-208 | setting the same value twice has the same outcome as setting it once, for every validating setter |
| VersionStep.BeforeVersion | unittest/modules/util/upgrade_checker/test_utils.cc:50-66 | fails with "Invalid version used!" exactly at 0.0.0 (or below); otherwise a well-formed version steps to the well-formed release just before it |
| VersionStep.AfterVersion | unittest/modules/util/upgrade_checker/test_utils.cc:77-93 | fails exactly when patch and minor are at 99 and major is above 99; keeps the major; otherwise steps to the next release unless at M.99.99 |
| VersionStep.AfterLastMinorWraps | unittest/modules/util/upgrade_checker/test_utils.cc:82-89 | the step after M.99.99 is M.0.0, which lies 9999 releases earlier |
| VersionStep.AfterBeforeRoundTrip | unittest/modules/util/upgrade_checker/test_utils.cc:50-93 | stepping back then forward returns to the version unless it is an M.0.0 |
| VersionStep.BeforeAfterRoundTrip | unittest/modules/util/upgrade_checker/test_utils.cc:50-93 | stepping forward then back returns to the version unless it is an M.99.99 |
| VersionStep.Decrement | unittest/modules/util/upgrade_checker/test_utils.cc:70 | `count--` on an `int` (the newtype `int32`) agrees with subtraction of one modulo 2^32, wrapping from `INT_MIN` to `INT_MAX` |
| VersionStep.Rounds | unittest/modules/util/upgrade_checker/test_utils.cc:70 | `while (count--)` runs its body `count` times for a non-negative count, and more than 2^31 - 1 times for a negative one |
| VersionStep.BeforeVersionCount | unittest/modules/util/upgrade_checker/test_utils.cc:68-75 | the counted loop, with its `int` counter, takes as many single steps back as the loop test allows, stopping at the first failure; a zero count returns the version |
| VersionStep.AfterVersionCount | unittest/modules/util/upgrade_checker/test_utils.cc:95-102 | the counted loop, with its `int` counter, takes as many single steps forward as the loop test allows, stopping at the first failure; a zero count returns the version |
| VersionStep.BeforeNegativeCountFails | unittest/modules/util/upgrade_checker/test_utils.cc:55-75 | with a negative count the backward series reaches past 0.0.0 and ends in "Invalid version used!" |
| VersionStep.AfterNNeverFails | unittest/modules/util/upgrade_checker/test_utils.cc:77-102 | with a major of at most 99 no number of forward steps fails, and the major never changes |
| VersionStep.BeforeNOrdinal | unittest/modules/util/upgrade_checker/test_utils.cc:50-75 | `count` steps back succeed exactly when at least `count` releases precede the version, and land exactly `count` releases earlier |
| VersionStep.AfterNOrdinal | unittest/modules/util/upgrade_checker/test_utils.cc:77-102 | `count` steps forward that stay within one major land exactly `count` releases later |
| DbSession.NewError | mysqlshdk/libs/db/session.h:48-49 | the two-argument error holds the given message and code and an empty SQLSTATE |
| DbSession.NewErrorWithState | mysqlshdk/libs/db/session.h:51-53 | the three-argument error holds the message, code and SQLSTATE it was given |
| DbSession.ErrorCode | mysqlshdk/libs/db/session.h:55-57 | `code()` returns the code the error was built with |
| DbSession.SqlState | mysqlshdk/libs/db/session.h:59-61 | `sqlstate()` returns the SQLSTATE the error was built with |
| DbSession.ConstructorsAgree | mysqlshdk/libs/db/session.h:48-53 | the three-argument constructor with an empty SQLSTATE builds the same error as the two-argument one |
| DbSession.Wrap | mysqlshdk/libs/db/session.h:104-106 | the guard hands back the pointer it was built with |
| DbSession.Get | mysqlshdk/libs/db/session.h:117-123 | `operator->` and the conversion to `shared_ptr` return the pointer that rebuilds the same guard |
| DbSession.Deref | mysqlshdk/libs/db/session.h:113-115 | dereferencing a non-null guard yields the session it holds |
| DbSession.Destroy | mysqlshdk/libs/db/session.h:108-111 | destroying a guard closes the held session once and adds nothing else; a null guard closes nothing |
| DbSession.GuardClosesOnce | mysqlshdk/libs/db/session.h:101-127 | for any body, returning or throwing, the guarded scope passes the body's outcome through, closes a held session exactly once more and closes no other session |
| DbSession.GuardMattersOnThrow | mysqlshdk/libs/db/session.h:108-111 | a guarded scope and one that calls `close()` at the end of its body differ exactly when the body throws with a session held, which the unguarded scope leaves open |

## Left out

- Bytes.SignedChar: `char mid = buf[4]` stores the id octet in a plain `char`, and C++ leaves its signedness to the compiler. The model takes it as signed, so an id of 0x80 or more is -128..-1. Where `char` is unsigned (AArch64, PowerPC and s390 Linux), `mid` would be 0..255, and an unknown id of 0x80 or more would be reported as that unsigned value.
- XFraming.DecodeHeader: the id it returns is the octet read as a signed `char` (Bytes.SignedChar), under the same assumption.
- XConnector.SendMessage: a write error on an open socket is not modelled. A write on an open socket always succeeds, although `write_some` throws `boost::system::system_error` on a transport fault.
- Connection establishment (name resolution and `connect`) is network I/O and is not modelled. The model starts from a connector that is open or closed.
- Partial transfers: `read_some` and `write_some` may move fewer octets than asked. The model treats every read as read-exact and every write as write-all. A short stream is modelled as a read failure carrying the transport's message (`Connector.fault`).
- Protobuf serialization and parsing are foreign code. The payload is an opaque octet sequence. The server error text is extracted by `Registry.errorText`, and the tag values are supplied by `Registry.code`.
- Heap allocation and deallocation of `mbuf` and of the message objects are not modelled. Neither is the exception `new char[]` would throw for a negative size. The corrected model refuses headers whose declared length is below 5, and reads the length field as an unsigned 32-bit value, so a declared length of 2^31 + 5 or more announces a payload of that many octets rather than a negative one.
- `flush` has an empty body and is left out.
- The client-side `Close` message in `close` is commented out in the source and is not modelled.
- The terminal handling of the password prompt is left out: switching echo and canonical mode, `isatty`, writing the prompt and newline, the `getpass` call itself, and clearing its static buffer.
- The `yassl_mysql_get_tty_password_ext` wrapper with its `strdup` callback is left out. Allocation is foreign code.
- Password.GetPassword: the comparison `isspace(c) == ' '` depends on the C library's return value, so it is the parameter `dropTrailing`.
- Password.Edit: `iscntrl` is the C-locale classification of an octet (below 0x20, or 0x7F). The model does not cover locales, or `char` values passed to `iscntrl` as negative numbers.
- Password.WindowsEdit: `_getch` returns an `int`. The model takes it to deliver octets, and ends input only on an end key, since `_getch` blocks.
- `set_repl_heartbeat_period` works on floating point and is not modelled.
- The `Option_pack_def` registration tables and the option-name constants are not modelled. Argument errors are structured values naming the option and the violated bound; the formatted message text is not reproduced.
- The shell's `dba_gtid_wait_timeout` setting is read from global shell options. It is the parameter `shellDefault`.
- VersionStep.BeforeVersionCount: a negative `count` is modelled, with the same two's-complement counter as below. The failure it leads to is proved only for versions whose ordinal fits an `int` (BeforeNegativeCountFails): there the steps reach past 0.0.0 and raise "Invalid version used!" long before the counter wraps.
- VersionStep.AfterVersionCount: with a negative `count` and a major of at most 99, `while (count--)` decrements past `INT_MIN`. That signed overflow is undefined behaviour in C++; the model takes the two's-complement wrap to `INT_MAX` (Decrement), so the loop runs 2^32 + `count` times.
- VersionStep.AfterVersion: the contract states the step for well-formed versions only (minor and patch in 0..99). The Raised condition holds for every input.
- Parsing a `Version` from text, `upgrade_info` and `deploy_sandbox` are test scaffolding and are not modelled.
- The `ISession` interface (connect, query, execute, close, is_open) is abstract. Only the `close` calls the guard makes are modelled, as a log of sessions.
- DbSession.Deref: dereferencing a null pointer is undefined behaviour, so the member requires a held session.

## Findings

| source | as written | input that shows it | evidently intended | confidence | as-written member | corrected member |
|---|---|---|---|---|---|---|
| xconnector/mysqlx_connector.cc:92-94 | `msglen` is the declared length minus 5, stored in an `int` and used unchecked as the size of `new char[msglen]` | header `00 00 00 03 xx` gives `msglen == -2`; a declared length of at least 2^31 + 5 is also negative | refuse a frame whose declared length does not cover the header, and read the length field as an unsigned 32-bit value | medium (not executed) | XFraming.MsgLenAsWrittenUnderflows | XFraming.DecodeHeader |
| xconnector/mysqlx_connector.cc:164 | `ParseFromString(mbuf)` turns the `char*` buffer into a string up to its first NUL | payload `08 00` reaches the parser as `08`; a payload with no NUL is read past its end | parse exactly the `msglen` octets received | high (not executed) | XConnector.ParsedPayloadAsWrittenTruncates | XConnector.ReadResponse |
| src/get_password.cc:182 | `my_stpnmov(buff, passbuff, 79)` writes no terminator when the password has 79 characters or more | a 79-character password over an 80-octet buffer holding no NUL leaves `buff` without a NUL before `strdup(buff)` | store a NUL at `buff[79]` after the copy | medium (not executed) | Password.GetpassBufferAsWrittenUnterminated | Password.GetpassBuffer |
