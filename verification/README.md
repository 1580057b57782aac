# Cassandra-Session core in Dafny

A model of the logic inside the Cassandra-Session persistence layer, which is
otherwise a thin wrapper over the Cassandra Java driver. It covers four parts.

- **The executor** (`executor.dfy`, module `Executor`).
  - `retryExecute` is a `while` loop over a scripted driver. `session(i)` is what the i-th `session.execute` returns or throws.
  - The loop is proved equal to a closed-form reference run, `ExpectedRun`.
  - `execute` and `executeAsync` are modelled too.
  - The `onFailure` callback of `fireAndForget` is modelled as a pure decision.
  - The two Java copies of the executor differ only in logger and log marker, so one model serves both. Rows below cite either copy.
- **DateUtil** (`date_util.dfy`, with `calendar.dfy` and `java_lang.dfy`).
  - An instant is its epoch second.
  - Its UTC day is `Math.floorDiv(second, 86400)`.
  - A day index becomes a proleptic Gregorian date by a 400-year era decomposition (`Calendar.CivilFromDays`). That decomposition is proved inverse to `Calendar.DaysFromCivil`.
  - A date is rendered as the ISO 8601 extended calendar date `YYYY-MM-DD`, as `DateTimeFormatter.ISO_LOCAL_DATE` does.
  - `isoDatesBetween` is `Stream.iterate(...).limit(n).map(...)`. Here `n` is the day count rounded toward zero, plus one.
- **The session constructor** (`session_impl.dfy`, module `SessionImpl`).
  - `createCluster` reads the node list. The model follows Java's `String.split`, `String.trim` and `Integer.parseInt` (`java_lang.dfy`), with two limits: `split` is modelled for a separator that is one ordinary character (not a regular-expression metacharacter), and `parseInt` accepts ASCII digits only.
  - The `CREATE_KEYSPACE` statement is built with `String.format`.
  - The constructor's driver actions are modelled as a trace: build a cluster, connect, execute, close, register codecs, add the shutdown hook. The outcome of the k-th `execute` of one construction is a script.
  - Failures in `ensureKeyspace` and `ensureColumnfamilies` are wrapped into `PersistenceRuntimeException`.
- **The staged SessionBuilder** (`session_builder.dfy`).
  - The builder is one record of fields.
  - A stage object is a `Stage` value naming its class, so a method call is a `Step` on the shared fields.
  - The model proves which fluent chains build a session, and what arguments they pass to the constructor.

Points where the code behaves differently from what a first reading suggests:

- **At most three calls per `retryExecute`, not four.** The loop guard `tries <= MAX_STORE_RETRIES` (`CassandraExecutorImpl.java:78`) reads as four attempts. But the third write timeout already fails the test `tries < MAX_STORE_RETRIES` (`CassandraExecutorImpl.java:87`) and throws, so at most three calls are made.
- **A trailing colon after a port still sets the port.** `"host:9042:".split(":")` drops the trailing empty string and gives two parts. Only `"host:"` sets no port.
- **A node entry made only of colons throws.** For example `":"` splits into nothing, so `y[0]` throws ArrayIndexOutOfBoundsException.
- **The builder's credential names are swapped.** `asUser(x)` stores `x` as the password, and `andPassword(y)` stores `y` as the user name. The builder passes them to the constructor in that order.

The builder in `CassandraSession.java` calls a `CassandraSessionImpl` in the same package. That class is not part of this model. The model uses the `com.tingcore` `CassandraSessionImpl`, whose constructor takes the same nine arguments.

## Model

| member | source | states |
|---|---|---|
| Executor.RetryExecute | src/main/java/se/primenta/common/persistence/CassandraExecutorImpl.java:74-95 | the loop makes exactly the reference run: the same statement on every call, calls up to the first one that does not time out and never more than MAX_STORE_RETRIES = 3, outcome decided by the last call, never the initial null |
| Executor.ExpectedRun | src/main/java/se/primenta/common/persistence/CassandraExecutorImpl.java:76-94 | the reference run makes 1 to 3 calls of the statement; every call before the last timed out; the result, the timeout error or the unwrapped failure of the last call decides the outcome |
| Executor.CallsFrom | src/main/java/se/primenta/common/persistence/CassandraExecutorImpl.java:78-91 | the number of calls stops at the first call that does not time out, or at the third call |
| Executor.Execute | src/main/java/se/primenta/common/persistence/CassandraExecutorImpl.java:58-61 | execute is one retryExecute run, so at most three calls |
| Executor.ExecuteAsync | src/main/java/com/tingcore/common/persistence/CassandraExecutorImpl.java:66-69 | the driver's future is returned unchanged after one asynchronous call and no synchronous call |
| Executor.FireAndForget | src/main/java/se/primenta/common/persistence/CassandraExecutorImpl.java:34-56 | one asynchronous call; on success nothing happens; a QueryValidationException is logged and starts no synchronous call; any other failure is logged and starts exactly one retryExecute run, so at most three synchronous calls |
| Executor.FirstCallSucceeds | src/main/java/se/primenta/common/persistence/CassandraExecutorImpl.java:78-82 | a first call that succeeds gives one call, its result unchanged, and no warning |
| Executor.TimeoutsThenSuccess | src/main/java/se/primenta/common/persistence/CassandraExecutorImpl.java:79-88 | k < 3 write timeouts followed by a success return that success after k + 1 calls and k warnings |
| Executor.ThreeTimeoutsRaise | src/main/java/com/tingcore/common/persistence/CassandraExecutorImpl.java:86-94 | three write timeouts raise PersistenceRuntimeException("Timeout problems when storing data.") with the third timeout as cause, after three calls and two warnings carrying the first two write types |
| Executor.OtherFailurePropagates | src/main/java/se/primenta/common/persistence/CassandraExecutorImpl.java:80-83 | a failure other than a write timeout leaves unwrapped on the call where it happens, with no further call |
| Executor.WarningsPrecedeLastCall | src/main/java/com/tingcore/common/persistence/CassandraExecutorImpl.java:90-93 | one warning, with its write type, for every call but the last; the run raises the timeout error exactly when the third call timed out |
| Executor.ReturnedIsLastResult | src/main/java/se/primenta/common/persistence/CassandraExecutorImpl.java:77-94 | the initial null is never returned; a returned result is that of the last call |
| DateUtil.EpochDay | src/main/java/se/primenta/common/persistence/DateUtil.java:48-49 | the UTC day of an instant is the day whose 86400 seconds contain it, rounding down for instants before 1970 |
| DateUtil.YearText | src/main/java/se/primenta/common/persistence/DateUtil.java:20 | the year field of ISO_LOCAL_DATE: at least four zero-padded digits, '-' before a negative year and '+' before a year above 9999; YearTextDigits reads it back |
| DateUtil.FormatDate | src/main/java/se/primenta/common/persistence/DateUtil.java:20 | `date.format(ISO_LOCAL_DATE)`: year field, '-', two-digit month, '-', two-digit day; FormatDateFields and FormatDateInjective describe the text |
| DateUtil.IsoDate | src/main/java/se/primenta/common/persistence/DateUtil.java:48-50 | isoDate: the ISO local date of the instant's UTC day; IsoDateExample and DateAtOffset pin it down |
| DateUtil.DaysFrom | src/main/java/se/primenta/common/persistence/DateUtil.java:38 | `Stream.iterate(start, plusDays(1)).limit(n)` gives n valid dates starting at start |
| DateUtil.IsoDatesBetween | src/main/java/se/primenta/common/persistence/DateUtil.java:34-40 | the list exists exactly when the day count rounded toward zero is at least -1, and then has that count plus one dates; otherwise `limit` throws IllegalArgumentException |
| DateUtil.YearTextDigits | src/main/java/se/primenta/common/persistence/DateUtil.java:20 | a year from 0000 to 9999 renders as four digits that read back as the year |
| DateUtil.TwoDigitsDigits | src/main/java/se/primenta/common/persistence/DateUtil.java:20 | a month or day renders as two digits that read back as its number |
| DateUtil.FormatDateFields | src/main/java/se/primenta/common/persistence/DateUtil.java:48-50 | for years 0000 to 9999 the rendering is ten characters, '-' at 4 and 7, each digit field reading back as the date's year, month and day |
| DateUtil.FormatDateInjective | src/main/java/se/primenta/common/persistence/DateUtil.java:48-50 | distinct dates of years 0000 to 9999 render differently |
| DateUtil.IsoDateExample | src/test/java/se/primenta/common/persistence/DateUtilTest.java:38-42 | 2017-06-06T00:00Z renders as "2017-06-06" |
| DateUtil.DaysFromStep | src/main/java/se/primenta/common/persistence/DateUtil.java:38 | each iterated date is the calendar day after the one before it |
| DateUtil.DaysFromOffset | src/main/java/se/primenta/common/persistence/DateUtil.java:38 | the k-th iterated date from the date of day index s is the date of day index s + k |
| DateUtil.DateAtOffset | src/main/java/se/primenta/common/persistence/DateUtil.java:36-39 | for every index of the list, the k-th element renders the UTC day k days after that of `from` |
| DateUtil.FirstDateIsIsoDate | src/main/java/se/primenta/common/persistence/DateUtil.java:36-38 | with a day count of at least 0 the list is non-empty and starts with isoDate(from) |
| DateUtil.DatesAreConsecutive | src/main/java/se/primenta/common/persistence/DateUtil.java:38 | neighbouring elements render a date and the calendar day after it, which is strictly later |
| DateUtil.SameInstant | src/test/java/se/primenta/common/persistence/DateUtilTest.java:28-35 | the same instant twice gives exactly [isoDate(i)] |
| DateUtil.MidnightSpan | src/main/java/se/primenta/common/persistence/DateUtil.java:38 | between midnights the truncated day count is the difference of the UTC days |
| DateUtil.LastDateAtMidnight | src/test/java/se/primenta/common/persistence/DateUtilTest.java:25 | between midnights from <= to the last element is isoDate(to) |
| DateUtil.NegativeSpans | src/main/java/se/primenta/common/persistence/DateUtil.java:38 | a day count of -1 gives the empty list; below -1 the call throws IllegalArgumentException |
| DateUtil.IsoDatesBetweenExample | src/test/java/se/primenta/common/persistence/DateUtilTest.java:15-26 | 2017-01-01 to 2017-03-01 gives 60 dates from "2017-01-01" to "2017-03-01" |
| DateUtil.SameInstantExample | src/test/java/se/primenta/common/persistence/DateUtilTest.java:28-35 | 2017-01-01 to itself gives ["2017-01-01"] |
| Calendar.NextDay | src/main/java/se/primenta/common/persistence/DateUtil.java:38 | plusDays(1) of a valid date is a valid date |
| Calendar.CivilFromDays | src/main/java/se/primenta/common/persistence/DateUtil.java:36 | every day index is a valid calendar date |
| Calendar.DaysFromCivilInverse | src/main/java/se/primenta/common/persistence/DateUtil.java:36 | converting a day index to a date and back gives the day index |
| Calendar.CivilFromDaysInverse | src/main/java/se/primenta/common/persistence/DateUtil.java:36 | converting a valid date to a day index and back gives the date |
| Calendar.UnixEpochIsDayZero | src/main/java/se/primenta/common/persistence/DateUtil.java:49 | day index 0 is 1970-01-01 |
| Calendar.DaysFromCivilNextDay | src/main/java/se/primenta/common/persistence/DateUtil.java:38 | the calendar day after a date has the next day index |
| Calendar.CivilFromDaysSucc | src/main/java/se/primenta/common/persistence/DateUtil.java:38 | the date of day index n + 1 is the calendar day after that of n |
| Calendar.CivilFromDaysAfter | src/main/java/se/primenta/common/persistence/DateUtil.java:38 | stepping k calendar days from the date of day index n reaches the date of day index n + k |
| Calendar.NextDayIsLater | src/main/java/se/primenta/common/persistence/DateUtil.java:38 | the calendar day after a date is strictly later |
| JavaLang.TruncDiv | src/main/java/se/primenta/common/persistence/DateUtil.java:38 | ChronoUnit.DAYS.between counts whole days rounding toward zero, for spans in both directions |
| JavaLang.FloorDiv | src/main/java/se/primenta/common/persistence/DateUtil.java:36 | the quotient rounds toward negative infinity |
| JavaLang.MapAllAt | src/main/java/se/primenta/common/persistence/DateUtil.java:39 | `map` keeps the length and maps the k-th element to the k-th element |
| JavaLang.ZeroPadShape | src/main/java/se/primenta/common/persistence/DateUtil.java:20 | padding puts '0' characters in front of the text until it is the field width |
| JavaLang.NatToDecimalDigits | src/main/java/se/primenta/common/persistence/DateUtil.java:49 | a rendered number is digits that read back as the number, without a leading zero |
| JavaLang.JoinSplitAll | src/main/java/com/tingcore/common/persistence/CassandraSessionImpl.java:141 | the pieces between separators, joined back with the separator, give the original text |
| JavaLang.SplitAllJoin | src/main/java/com/tingcore/common/persistence/CassandraSessionImpl.java:141 | pieces without the separator, joined and split again, give the same pieces |
| JavaLang.SplitIsTrimmedSplitAll | src/main/java/com/tingcore/common/persistence/CassandraSessionImpl.java:141 | `split` keeps every piece except the empty ones at the end |
| JavaLang.SplitEmpty | src/main/java/com/tingcore/common/persistence/CassandraSessionImpl.java:141-142 | `split` gives no piece at all exactly when the text is only separators |
| JavaLang.SplitFirst | src/main/java/com/tingcore/common/persistence/CassandraSessionImpl.java:142 | the first piece is the text before the first separator |
| JavaLang.Split | src/main/java/com/tingcore/common/persistence/CassandraSessionImpl.java:141 | `s.split(sep)` for a one-character separator: no piece contains the separator; SplitIsTrimmedSplitAll, JoinSplitAll and SplitAllJoin relate it to the text |
| JavaLang.Trim | src/main/java/com/tingcore/common/persistence/CassandraSessionImpl.java:142 | trim drops the leading and trailing characters up to U+0020 and keeps the rest |
| JavaLang.ParseIntToString | src/main/java/com/tingcore/common/persistence/CassandraSessionImpl.java:144 | parseInt reads back every int that toString writes |
| JavaLang.ParseInt | src/main/java/com/tingcore/common/persistence/CassandraSessionImpl.java:144 | `Integer.parseInt`: a result is an int in 32-bit range read from an optional sign and ASCII digits; anything else is NumberFormatException |
| JavaLang.ParseIntRejectsNonDigit | src/main/java/com/tingcore/common/persistence/CassandraSessionImpl.java:144 | a character other than a digit or a leading sign makes parseInt fail |
| JavaLang.FormatTwoStrings | src/main/java/com/tingcore/common/persistence/CassandraSessionImpl.java:155 | format of a template with two "%s" and no other '%' puts the two arguments in place, verbatim |
| JavaLang.Format | src/main/java/com/tingcore/common/persistence/CassandraSessionImpl.java:155 | `String.format` for "%s" and "%%" conversions: the template is checked first, then each "%s" takes the next argument; FormatTwoStrings gives its value on CREATE_KEYSPACE's shape |
| SessionImpl.ParseEntry | src/main/java/com/tingcore/common/persistence/CassandraSessionImpl.java:141-146 | a node entry fails exactly when it is only colons or its port is not a number; otherwise it gives the trimmed host and a port exactly when it has two parts |
| SessionImpl.AddEntries | src/main/java/com/tingcore/common/persistence/CassandraSessionImpl.java:141-146 | `forEach` over the parsed entries: a contact point per entry, `withPort` for an entry with a port, stopping at the first exception; AddEntriesFailure, AddEntriesHosts and AddEntriesPort state its result |
| SessionImpl.CreateCluster | src/main/java/com/tingcore/common/persistence/CassandraSessionImpl.java:125-149 | createCluster: credentials, the local data centre when given, then the node list; CreateClusterFailure, CreateClusterHosts and CreateClusterLastPort state its result |
| SessionImpl.AddEntriesFailure | src/main/java/com/tingcore/common/persistence/CassandraSessionImpl.java:141-146 | forEach stops at the first failing entry, with its exception |
| SessionImpl.AddEntriesHosts | src/main/java/com/tingcore/common/persistence/CassandraSessionImpl.java:141-142 | a successful forEach adds every entry's host in order and keeps the credentials and data centre |
| SessionImpl.AddEntriesPort | src/main/java/com/tingcore/common/persistence/CassandraSessionImpl.java:143-145 | the port at the end is that of the last entry that names one, or the starting port if none does |
| SessionImpl.LastPortExists | src/main/java/com/tingcore/common/persistence/CassandraSessionImpl.java:143-145 | some entry names a port exactly when there is a last entry that does |
| SessionImpl.AddEntriesPortSet | src/main/java/com/tingcore/common/persistence/CassandraSessionImpl.java:143-145 | starting without a port, a port is set exactly when some entry names one |
| SessionImpl.PiecesFailure | src/main/java/com/tingcore/common/persistence/CassandraSessionImpl.java:141-146 | the pieces fail exactly when one of them is bad, with the exception of the first bad one |
| SessionImpl.CreateClusterFailure | src/main/java/com/tingcore/common/persistence/CassandraSessionImpl.java:141-146 | createCluster throws exactly when an entry of the node list is bad, with the exception of the first bad entry |
| SessionImpl.CreateClusterHosts | src/main/java/com/tingcore/common/persistence/CassandraSessionImpl.java:130-146 | a built cluster has one contact point per entry, each the entry's trimmed host, in order, the given credentials, and a local data centre exactly when one is given |
| SessionImpl.PiecesPortSet | src/main/java/com/tingcore/common/persistence/CassandraSessionImpl.java:143-145 | after a successful forEach over any pieces, a port is set exactly when a piece has a port part |
| SessionImpl.CreateClusterPortSet | src/main/java/com/tingcore/common/persistence/CassandraSessionImpl.java:143-145 | a built cluster has a port exactly when some entry of the node list has a port part |
| SessionImpl.CreateClusterLastPort | src/main/java/com/tingcore/common/persistence/CassandraSessionImpl.java:141-146 | the port of a built cluster is that of the last entry that names one |
| SessionImpl.EntryWithPort | src/main/java/com/tingcore/common/persistence/CassandraSessionImpl.java:142-145 | "host:port" gives the trimmed host and the port |
| SessionImpl.EntryWithSpacedPort | src/main/java/com/tingcore/common/persistence/CassandraSessionImpl.java:144 | the port text is not trimmed: "host: port" fails with NumberFormatException on " port" |
| SessionImpl.EntryWithTrailingColon | src/main/java/com/tingcore/common/persistence/CassandraSessionImpl.java:141-145 | "host:port:" still sets the port; "host:" sets none |
| SessionImpl.SingleEntry | src/main/java/com/tingcore/common/persistence/CassandraSessionImpl.java:141 | a node list without ',' is one entry |
| SessionImpl.HostWithPort | src/test/java/se/primenta/common/persistence/CassandraExecutorTest.java:38 | "localhost:<port>" builds a cluster with the one contact point "localhost" on that port |
| SessionImpl.SpaceBeforePort | src/main/java/com/tingcore/common/persistence/CassandraSessionImpl.java:144 | a space after the colon makes createCluster throw NumberFormatException |
| SessionImpl.ColonOnly | src/main/java/com/tingcore/common/persistence/CassandraSessionImpl.java:141-142 | the node list ":" makes createCluster throw ArrayIndexOutOfBoundsException |
| SessionImpl.TrailingColon | src/main/java/com/tingcore/common/persistence/CassandraSessionImpl.java:141-145 | a trailing colon after the port keeps the port; a trailing colon after the host sets none |
| SessionImpl.KeyspaceDdlFormat | src/main/java/com/tingcore/common/persistence/CassandraSessionImpl.java:155 | String.format(CREATE_KEYSPACE, keyspace, replication) cannot fail and gives "CREATE KEYSPACE IF NOT EXISTS " + keyspace + " WITH REPLICATION = " + replication |
| SessionImpl.KeyspaceDdl | src/main/java/com/tingcore/common/persistence/CassandraSessionImpl.java:47 | the text of CREATE_KEYSPACE with keyspace and replication in place of its two "%s"; KeyspaceDdlFormat proves it is what String.format gives |
| SessionImpl.FlattenMembers | src/main/java/com/tingcore/common/persistence/CassandraSessionImpl.java:166 | a statement is run exactly when some definition lists it |
| SessionImpl.Flatten | src/main/java/com/tingcore/common/persistence/CassandraSessionImpl.java:166 | `definitions.stream().map(getStatements).flatMap(List::stream)`: every definition's statements in list order; FlattenMembers and FlattenAppend state it |
| SessionImpl.FlattenAppend | src/main/java/com/tingcore/common/persistence/CassandraSessionImpl.java:166 | the statements of two lists of definitions are those of the first followed by those of the second |
| SessionImpl.ExecuteAll | src/main/java/com/tingcore/common/persistence/CassandraSessionImpl.java:166 | forEach runs statements while they succeed and stops at the first failure, which it reports |
| SessionImpl.RanUpTo | src/main/java/com/tingcore/common/persistence/CassandraSessionImpl.java:166 | a run whose k-th statement is the first to fail runs k + 1 statements and reports that failure |
| SessionImpl.Wrap | src/main/java/com/tingcore/common/persistence/CassandraSessionImpl.java:156-159 | a validation or execution failure becomes PersistenceRuntimeException with it as cause; any other failure passes unwrapped |
| SessionImpl.MissingPrePassword | src/main/java/com/tingcore/common/persistence/CassandraSessionImpl.java:69 | a preprocess user without a preprocess password throws NoSuchElementException before any driver action |
| SessionImpl.Open | src/main/java/com/tingcore/common/persistence/CassandraSessionImpl.java:52-98 | the constructor: NoSuchElementException without a preprocess password, the preprocessing block when a preprocess user is given, then the main session; the lemmas below state its traces |
| SessionImpl.Preprocess | src/main/java/com/tingcore/common/persistence/CassandraSessionImpl.java:67-81 | the preprocessing block: preprocess cluster, DDL on a session without keyspace, the definitions on a session on the keyspace, each failure wrapped; PreprocessSucceeds and PreprocessFails give it in closed form |
| SessionImpl.MainSession | src/main/java/com/tingcore/common/persistence/CassandraSessionImpl.java:83-97 | the main session: its cluster, a session on the keyspace, codecs and the shutdown hook; MainExecutesNothing states it |
| SessionImpl.NoPreprocessWithoutPreuser | src/main/java/com/tingcore/common/persistence/CassandraSessionImpl.java:67-83 | without a preprocess user only the main session is started and no statement is executed |
| SessionImpl.MainExecutesNothing | src/main/java/com/tingcore/common/persistence/CassandraSessionImpl.java:83-97 | starting the main session executes no statement |
| SessionImpl.ExecutedPreprocessing | src/main/java/com/tingcore/common/persistence/CassandraSessionImpl.java:73-80 | the preprocessing actions execute the keyspace DDL and then the given statements, in order |
| SessionImpl.PreprocessSucceeds | src/main/java/com/tingcore/common/persistence/CassandraSessionImpl.java:67-81 | when every statement succeeds, preprocessing builds the preprocess cluster, runs the DDL on a session without keyspace, closes it, runs every definition statement on a session on the keyspace, and closes that |
| SessionImpl.PreprocessOrder | src/main/java/com/tingcore/common/persistence/CassandraSessionImpl.java:67-97 | when both clusters build and every statement succeeds, the constructor runs the keyspace DDL, then every definition's statements in list order, closes both preprocessing sessions, then opens the main session and registers codecs and the hook, without error |
| SessionImpl.PreprocessFails | src/main/java/com/tingcore/common/persistence/CassandraSessionImpl.java:69-80 | preprocessing that fails at statement k stops right after executing it and ends with the wrapped failure |
| SessionImpl.PreprocessFailureStops | src/main/java/com/tingcore/common/persistence/CassandraSessionImpl.java:151-171 | the first failing preprocessing statement ends the construction: the statements up to and including it were executed, nothing after, the main session is never started, and the failure leaves wrapped |
| SessionImpl.QueryFailureWrapped | src/main/java/com/tingcore/common/persistence/CassandraSessionImpl.java:154-170 | a validation or execution failure while preprocessing leaves as PersistenceRuntimeException with it as cause |
| SessionImpl.OpenNoSuchElement | src/main/java/com/tingcore/common/persistence/CassandraSessionImpl.java:67-83 | the constructor throws NoSuchElementException exactly when a preprocess user comes without a preprocess password |
| SessionBuilder.Start | src/main/java/se/primenta/common/persistence/CassandraSession.java:165-167 | a null node list throws NullPointerException; otherwise the builder starts with the nodes, no definitions and no preprocess credentials |
| SessionBuilder.ArgsOf | src/main/java/se/primenta/common/persistence/CassandraSession.java:148-151 | `Build.build()` passes username, password, keyspace, nodes, replication, datacenter, preUsername, prePassword, definitions in that order; CredentialsSwapped and TestChainBuilds state what lands where |
| SessionBuilder.Run | src/main/java/se/primenta/common/persistence/CassandraSession.java:85-177 | a fluent chain, each call on the stage object the previous call returned; RunFromBuilder and ChainBuildsIffGrammar state which chains build |
| SessionBuilder.NonEmptyDataCenter | src/main/java/se/primenta/common/persistence/CassandraSession.java:169-172 | null and "" leave no data centre; any other text is kept unchanged |
| SessionBuilder.Step | src/main/java/se/primenta/common/persistence/CassandraSession.java:85-177 | a stage method exists only on its stage class; a null argument throws NullPointerException everywhere but forDataCenter; only build builds; the next stage is never earlier in the chain |
| SessionBuilder.OneFieldPerStep | src/main/java/se/primenta/common/persistence/CassandraSession.java:85-177 | each stage method writes exactly its own field and leaves all the others unchanged |
| SessionBuilder.DataCenterFilter | src/main/java/se/primenta/common/persistence/CassandraSession.java:169-172 | forDataCenter keeps the builder stage, and maps null and "" to no data centre and anything else to itself |
| SessionBuilder.StaleStagesStayConsistent | src/main/java/se/primenta/common/persistence/CassandraSession.java:85-177 | a step keeps every earlier stage object usable |
| SessionBuilder.LeadingDataCenters | src/main/java/se/primenta/common/persistence/CassandraSession.java:169-172 | forDataCenter may repeat: the count of leading forDataCenter calls |
| SessionBuilder.LeadingAsUsers | src/main/java/se/primenta/common/persistence/CassandraSession.java:118-121 | asUser may repeat: the count of leading asUser calls |
| SessionBuilder.RunFromPrepare | src/main/java/se/primenta/common/persistence/CassandraSession.java:129-142 | from Prepare a chain builds exactly when it is build, or the three preprocess calls and build |
| SessionBuilder.RunFromCredentials | src/main/java/se/primenta/common/persistence/CassandraSession.java:114-127 | from Credentials a chain builds exactly when it is asUser*, andPassword, then a building Prepare chain |
| SessionBuilder.RunFromReplication | src/main/java/se/primenta/common/persistence/CassandraSession.java:155-163 | from Replication a chain builds exactly when it is andReplication, then a building Credentials chain |
| SessionBuilder.RunFromBuilder | src/main/java/se/primenta/common/persistence/CassandraSession.java:165-177 | from the builder a chain builds exactly when it follows the grammar |
| SessionBuilder.ChainBuildsIffGrammar | src/main/java/se/primenta/common/persistence/CassandraSession.java:73-179 | a chain without null arguments on a new builder builds exactly when it is forDataCenter* usingKeyspace andReplication asUser* andPassword (build, or preprocessTheseStatements asPreprocessUserName andPreprocessPassword build) |
| SessionBuilder.RunKeepsLinear | src/main/java/se/primenta/common/persistence/CassandraSession.java:85-153 | along a chain the preprocess fields are set only in order on the preprocess path, so a build passes both preprocess credentials or neither |
| SessionBuilder.ChainPairsPreprocess | src/main/java/se/primenta/common/persistence/CassandraSession.java:85-153 | every chain from a new builder that builds passes both preprocess credentials or neither, so `prepassword.get()` in the constructor cannot throw |
| SessionBuilder.StalePrepareBuild | src/main/java/se/primenta/common/persistence/CassandraSession.java:129-141 | build on a Prepare object kept from before the preprocess calls passes a preprocess user without password, and the constructor throws NoSuchElementException before any driver action |
| SessionBuilder.CredentialsSwapped | src/main/java/se/primenta/common/persistence/CassandraSession.java:114-127 | the last asUser argument lands in the password field and the andPassword argument in the username field |
| SessionBuilder.DefaultsWithoutPreprocess | src/main/java/se/primenta/common/persistence/CassandraSession.java:80-83 | skipping the preprocess stages builds with no definitions and no preprocess credentials |
| SessionBuilder.PreprocessPasswordBuilds | src/main/java/se/primenta/common/persistence/CassandraSession.java:95-112 | andPreprocessPassword then build passes the fields with the preprocess password set |
| SessionBuilder.PreprocessPathBuilds | src/main/java/se/primenta/common/persistence/CassandraSession.java:85-112 | the preprocess path passes its definitions, preprocess user and preprocess password to the constructor with the other fields unchanged |
| SessionBuilder.TestChainBuilds | src/test/java/se/primenta/common/persistence/CassandraSessionTest.java:30-39 | the builder test's chain builds with the user and password arguments in swapped positions, no data centre, and its preprocess arguments |
| SessionBuilder.TestChain | src/test/java/se/primenta/common/persistence/CassandraSessionTest.java:30-39 | the builder test's chain follows the grammar and builds with those arguments |

## Left out

- Driver I/O. Building clusters, connecting, closing, registering codecs and adding the shutdown hook are trace actions only. Their failures are not modelled: a cluster that cannot connect is not represented. `prepare`, `getExecutor`, `getMappingManager`, `registerCodec` and `createTupleType` are plain driver delegations and are left out.
- Driver validation inside `addContactPoint` and `withPort`, such as host name resolution or a port outside 0 to 65535. That logic is in the driver, not in this code.
- Concurrency. The thread pool, the Guava callback registration and when the callback runs are left out. `fireAndForget` is modelled as what its callback decides.
- Log message text. The model counts warnings and errors and keeps the write type of each warning.
- The nanosecond part of `Instant`. Instants are whole epoch seconds. The nanoseconds do not change the UTC day that `isoDate` renders. They can change the day count of `isoDatesBetween`, though.
- DateUtil.IsoDatesBetween: the day count is taken between whole seconds. `ChronoUnit.DAYS.between` first drops one second from a positive span whose end has fewer nanoseconds than its start, and adds one second to a negative span in the mirror case. So with non-zero nanoseconds the Java count can be one day closer to zero. For example, 1970-01-01T00:00:00.5Z to 1970-01-02T00:00:00Z gives one date in Java and two in the model.
- Instants beyond the range of `Instant` and `LocalDateTime`, and `long` overflow in `ChronoUnit.DAYS.between(from, to) + 1`. Integers here are unbounded.
- DateUtil.FormatDateFields: stated only for years 0000 to 9999. Outside that range ISO_LOCAL_DATE adds a sign. `YearText` renders that sign but no lemma describes it.
- DateUtil.FormatDateInjective: stated only for years 0000 to 9999, for the same reason.
- JavaLang.ParseInt: accepts ASCII digits only. `Integer.parseInt` also accepts digits of other Unicode scripts, which cannot appear in a port written with ASCII digits.
- Null elements in the definitions list, or a `getStatements` that returns null. The model has no way to write them.
- SessionBuilder.Step: requires the fields to be consistent with the stage. In Java a stage object can only be obtained after the calls that set the earlier fields, so no other state exists.
- The `se.primenta` `CassandraSessionImpl` that the builder calls is not part of this model. The `com.tingcore` constructor is used in its place.

