/**
  The staged SessionBuilder (se.primenta CassandraSession.SessionBuilder).

  Every stage object the builder hands out is an inner-class instance that
  writes into the one shared builder, so the state is a single record of
  fields, and a stage object is only a Stage value saying which methods it
  has. A method called on a stage object is a Step on the shared fields; a
  Java `null` argument is None; a method the stage class does not declare
  (which Java rejects at compile time) is NotDeclared. Holding on to an old
  stage object and calling it later is a Step with that older Stage.
 */
module SessionBuilder {
  import opened Wrappers
  import opened Failures
  import SessionImpl

  /** The builder's fields; None stands for a field still null (or an empty Optional). */
  datatype Fields = Fields(
    nodes: string,
    keyspace: Option<string>,
    replication: Option<string>,
    username: Option<string>,
    password: Option<string>,
    datacenter: Option<string>,
    definitions: seq<seq<SessionImpl.Statement>>,
    preUsername: Option<string>,
    prePassword: Option<string>)

  /** The class of a stage object: SessionBuilder itself or one of its inner stage classes. */
  datatype Stage = Builder | Replication | Credentials | Prepare | PreprocessUser | PreprocessPassword | PreprocessBuild

  /** A method call on a stage object, with its argument (None for null). */
  datatype Call =
    | ForDataCenter(dataCenter: Option<string>)
    | UsingKeyspace(keyspaceName: Option<string>)
    | AndReplication(replicationStrategy: Option<string>)
    | AsUser(sessionPassword: Option<string>)
    | AndPassword(sessionUserName: Option<string>)
    | PreprocessTheseStatements(columnDefinitions: Option<seq<seq<SessionImpl.Statement>>>)
    | AsPreprocessUserName(prepareUserName: Option<string>)
    | AndPreprocessPassword(preparePassword: Option<string>)
    | Build

  /** What a call does: hands on a stage object, builds the session, throws, or does not exist. */
  datatype StepResult =
    | Next(fields: Fields, stage: Stage)
    | Built(args: SessionImpl.SessionArgs)
    | Raised(error: Error)
    | NotDeclared

  // ---------------------------------------------------------------------------
  // Which methods each stage class declares

  predicate Declared(stage: Stage, call: Call) {
    match stage
    case Builder => call.ForDataCenter? || call.UsingKeyspace?
    case Replication => call.AndReplication?
    case Credentials => call.AsUser? || call.AndPassword?
    case Prepare => call.Build? || call.PreprocessTheseStatements?
    case PreprocessUser => call.AsPreprocessUserName?
    case PreprocessPassword => call.AndPreprocessPassword?
    case PreprocessBuild => call.Build?
  }

  /** The call passes no null; forDataCenter and build are never rejected for their argument. */
  predicate NonNull(call: Call) {
    match call
    case ForDataCenter(_) => true
    case UsingKeyspace(k) => k.Some?
    case AndReplication(r) => r.Some?
    case AsUser(p) => p.Some?
    case AndPassword(u) => u.Some?
    case PreprocessTheseStatements(d) => d.Some?
    case AsPreprocessUserName(n) => n.Some?
    case AndPreprocessPassword(p) => p.Some?
    case Build => true
  }

  // ---------------------------------------------------------------------------
  // Reachable states

  /** How far along the chain a stage class sits. */
  function Rank(stage: Stage): nat {
    match stage
    case Builder => 0
    case Replication => 1
    case Credentials => 2
    case Prepare => 3
    case PreprocessUser => 4
    case PreprocessPassword => 5
    case PreprocessBuild => 6
  }

  /**
    A stage object exists only once the calls that hand it out have run, and
    those calls reject null and are never undone: the fields every earlier
    stage wrote are set.
   */
  predicate Consistent(f: Fields, stage: Stage) {
    && (Rank(stage) >= 1 ==> f.keyspace.Some?)
    && (Rank(stage) >= 2 ==> f.replication.Some?)
    && (Rank(stage) >= 3 ==> f.username.Some?)
    && (Rank(stage) >= 5 ==> f.preUsername.Some?)
    && (Rank(stage) >= 6 ==> f.prePassword.Some?)
  }

  // ---------------------------------------------------------------------------
  // The builder's operations

  /** The fields right after `new SessionBuilder(connectNodes)`. */
  function Init(nodes: string): Fields {
    Fields(nodes, None, None, None, None, None, [], None, None)
  }

  /** `new SessionBuilder(connectNodes)`: `Optional.of(connectNodes)` rejects null. */
  function Start(connectNodes: Option<string>): (r: Result<Fields, Error>)
    ensures r.Failure? <==> connectNodes.None?
    ensures r.Failure? ==> r.error == NullPointer
    ensures r.Success? ==> r.value.nodes == connectNodes.value && Consistent(r.value, Builder)
    ensures r.Success? ==> r.value.definitions == [] && r.value.preUsername.None? && r.value.prePassword.None?
  {
    if connectNodes.None? then Failure(NullPointer) else Success(Init(connectNodes.value))
  }

  /** `Optional.ofNullable(dataCenter).filter(s -> !s.isEmpty())`. */
  function NonEmptyDataCenter(dataCenter: Option<string>): (dc: Option<string>)
    ensures dc.None? <==> dataCenter.None? || dataCenter == Some("")
    ensures dc.Some? ==> dc == dataCenter
  {
    if dataCenter.Some? && dataCenter.value != "" then dataCenter else None
  }

  /** `Build.build()`: the constructor arguments, `(username, password, keyspace, nodes, replication, ...)` in that order. */
  function ArgsOf(f: Fields): SessionImpl.SessionArgs
    requires f.keyspace.Some? && f.replication.Some? && f.username.Some?
  {
    SessionImpl.SessionArgs(
      f.username.value, f.password, f.keyspace.value, f.nodes, f.replication.value,
      f.datacenter, f.preUsername, f.prePassword, f.definitions)
  }

  /** One method call on a stage object of class `stage`, the builder's fields being `f`. */
  function Step(f: Fields, stage: Stage, call: Call): (r: StepResult)
    requires Consistent(f, stage)
    ensures r.NotDeclared? <==> !Declared(stage, call)
    ensures r.Raised? <==> Declared(stage, call) && !NonNull(call)
    ensures r.Raised? ==> r.error == NullPointer
    ensures r.Built? <==> Declared(stage, call) && call.Build?
    ensures r.Next? ==> Consistent(r.fields, r.stage) && Rank(stage) <= Rank(r.stage)
  {
    match (stage, call)
    case (Builder, ForDataCenter(d)) =>
      Next(f.(datacenter := NonEmptyDataCenter(d)), Builder)
    case (Builder, UsingKeyspace(k)) =>
      if k.None? then Raised(NullPointer) else Next(f.(keyspace := k), Replication)
    case (Replication, AndReplication(s)) =>
      if s.None? then Raised(NullPointer) else Next(f.(replication := s), Credentials)
    case (Credentials, AsUser(p)) =>
      if p.None? then Raised(NullPointer) else Next(f.(password := p), Credentials)
    case (Credentials, AndPassword(u)) =>
      if u.None? then Raised(NullPointer) else Next(f.(username := u), Prepare)
    case (Prepare, Build) =>
      Built(ArgsOf(f))
    case (Prepare, PreprocessTheseStatements(d)) =>
      if d.None? then Raised(NullPointer) else Next(f.(definitions := d.value), PreprocessUser)
    case (PreprocessUser, AsPreprocessUserName(n)) =>
      if n.None? then Raised(NullPointer) else Next(f.(preUsername := n), PreprocessPassword)
    case (PreprocessPassword, AndPreprocessPassword(p)) =>
      if p.None? then Raised(NullPointer) else Next(f.(prePassword := p), PreprocessBuild)
    case (PreprocessBuild, Build) =>
      Built(ArgsOf(f))
    case _ =>
      NotDeclared
  }

  /**
    A fluent chain: every call goes to the stage object the previous one
    returned. A call after build has no builder to go to.
   */
  function Run(f: Fields, stage: Stage, calls: seq<Call>): StepResult
    requires Consistent(f, stage)
    decreases |calls|
  {
    if |calls| == 0 then Next(f, stage)
    else
      match Step(f, stage, calls[0])
      case Next(g, t) => Run(g, t, calls[1..])
      case Built(args) => if |calls| == 1 then Built(args) else NotDeclared
      case Raised(e) => Raised(e)
      case NotDeclared => NotDeclared
  }

  // ---------------------------------------------------------------------------
  // One call

  /** Each stage method writes exactly its own field and leaves the others as they were. */
  lemma OneFieldPerStep(f: Fields, stage: Stage, call: Call)
    requires Consistent(f, stage)
    ensures var r := Step(f, stage, call);
      r.Next? ==> match call
        case ForDataCenter(_) => r.fields == f.(datacenter := r.fields.datacenter)
        case UsingKeyspace(k) => r.fields == f.(keyspace := k)
        case AndReplication(s) => r.fields == f.(replication := s)
        case AsUser(p) => r.fields == f.(password := p)
        case AndPassword(u) => r.fields == f.(username := u)
        case PreprocessTheseStatements(d) => d.Some? && r.fields == f.(definitions := d.value)
        case AsPreprocessUserName(n) => r.fields == f.(preUsername := n)
        case AndPreprocessPassword(p) => r.fields == f.(prePassword := p)
        case Build => false
  {
  }

  /** forDataCenter is the one setter that takes null: null and "" leave no data centre, anything else is kept. */
  lemma DataCenterFilter(f: Fields, dataCenter: Option<string>)
    requires Consistent(f, Builder)
    ensures var r := Step(f, Builder, ForDataCenter(dataCenter));
      && r == Next(r.fields, Builder)
      && (r.fields.datacenter.None? <==> dataCenter.None? || dataCenter == Some(""))
      && (r.fields.datacenter.Some? ==> r.fields.datacenter == dataCenter)
  {
  }

  /**
    Stage objects stay usable: a step keeps every stage that was consistent
    with the fields before it consistent with the fields after it.
   */
  lemma StaleStagesStayConsistent(f: Fields, stage: Stage, call: Call, other: Stage)
    requires Consistent(f, stage) && Consistent(f, other)
    ensures var r := Step(f, stage, call); r.Next? ==> Consistent(r.fields, other)
  {
  }

  // ---------------------------------------------------------------------------
  // The chain grammar

  /** The number of leading calls that are forDataCenter. */
  function LeadingDataCenters(calls: seq<Call>): (n: nat)
    ensures n <= |calls|
    ensures forall i :: 0 <= i < n ==> calls[i].ForDataCenter?
    ensures n < |calls| ==> !calls[n].ForDataCenter?
    decreases |calls|
  {
    if |calls| > 0 && calls[0].ForDataCenter? then 1 + LeadingDataCenters(calls[1..]) else 0
  }

  /** The number of leading calls that are asUser. */
  function LeadingAsUsers(calls: seq<Call>): (n: nat)
    ensures n <= |calls|
    ensures forall i :: 0 <= i < n ==> calls[i].AsUser?
    ensures n < |calls| ==> !calls[n].AsUser?
    decreases |calls|
  {
    if |calls| > 0 && calls[0].AsUser? then 1 + LeadingAsUsers(calls[1..]) else 0
  }

  /** After andPassword: build, or the three preprocess calls and then build. */
  predicate FromPrepare(calls: seq<Call>) {
    || calls == [Build]
    || (&& |calls| == 4
        && calls[0].PreprocessTheseStatements? && calls[1].AsPreprocessUserName?
        && calls[2].AndPreprocessPassword? && calls[3].Build?)
  }

  /** After andReplication: asUser any number of times, andPassword, then the Prepare part. */
  predicate FromCredentials(calls: seq<Call>) {
    var n := LeadingAsUsers(calls);
    n < |calls| && calls[n].AndPassword? && FromPrepare(calls[n + 1..])
  }

  /** After usingKeyspace: andReplication, then the Credentials part. */
  predicate FromReplication(calls: seq<Call>) {
    |calls| > 0 && calls[0].AndReplication? && FromCredentials(calls[1..])
  }

  /**
    The chains that build a session:
    forDataCenter* usingKeyspace andReplication asUser* andPassword
    (build | preprocessTheseStatements asPreprocessUserName andPreprocessPassword build).
   */
  predicate Grammar(calls: seq<Call>) {
    var n := LeadingDataCenters(calls);
    n < |calls| && calls[n].UsingKeyspace? && FromReplication(calls[n + 1..])
  }

  predicate AllNonNull(calls: seq<Call>) {
    forall i :: 0 <= i < |calls| ==> NonNull(calls[i])
  }

  lemma RunFromPrepare(f: Fields, calls: seq<Call>)
    requires Consistent(f, Prepare) && AllNonNull(calls)
    ensures Run(f, Prepare, calls).Built? <==> FromPrepare(calls)
  {
    if |calls| > 0 && calls[0].PreprocessTheseStatements? {
      var r1 := Step(f, Prepare, calls[0]);
      var c1 := calls[1..];
      assert Run(f, Prepare, calls) == Run(r1.fields, PreprocessUser, c1);
      if |c1| > 0 && c1[0].AsPreprocessUserName? {
        assert c1[0] == calls[1];
        var r2 := Step(r1.fields, PreprocessUser, c1[0]);
        var c2 := c1[1..];
        assert Run(r1.fields, PreprocessUser, c1) == Run(r2.fields, PreprocessPassword, c2);
        if |c2| > 0 && c2[0].AndPreprocessPassword? {
          assert c2[0] == calls[2];
          var r3 := Step(r2.fields, PreprocessPassword, c2[0]);
          var c3 := c2[1..];
          assert Run(r2.fields, PreprocessPassword, c2) == Run(r3.fields, PreprocessBuild, c3);
          assert c3 == calls[3..];
        }
      }
    }
  }

  lemma {:induction false} RunFromCredentials(f: Fields, calls: seq<Call>)
    requires Consistent(f, Credentials) && AllNonNull(calls)
    ensures Run(f, Credentials, calls).Built? <==> FromCredentials(calls)
    decreases |calls|
  {
    if |calls| > 0 {
      var rest := calls[1..];
      assert forall i :: 0 <= i < |rest| ==> rest[i] == calls[i + 1];
      if calls[0].AsUser? {
        var r := Step(f, Credentials, calls[0]);
        RunFromCredentials(r.fields, rest);
        var n := LeadingAsUsers(rest);
        assert LeadingAsUsers(calls) == n + 1;
        if n < |rest| {
          assert calls[n + 2..] == rest[n + 1..];
        }
      } else if calls[0].AndPassword? {
        RunFromPrepare(Step(f, Credentials, calls[0]).fields, rest);
      }
    }
  }

  lemma RunFromReplication(f: Fields, calls: seq<Call>)
    requires Consistent(f, Replication) && AllNonNull(calls)
    ensures Run(f, Replication, calls).Built? <==> FromReplication(calls)
  {
    if |calls| > 0 && calls[0].AndReplication? {
      var rest := calls[1..];
      assert forall i :: 0 <= i < |rest| ==> rest[i] == calls[i + 1];
      RunFromCredentials(Step(f, Replication, calls[0]).fields, rest);
    }
  }

  lemma {:induction false} RunFromBuilder(f: Fields, calls: seq<Call>)
    requires Consistent(f, Builder) && AllNonNull(calls)
    ensures Run(f, Builder, calls).Built? <==> Grammar(calls)
    decreases |calls|
  {
    if |calls| > 0 {
      var rest := calls[1..];
      assert forall i :: 0 <= i < |rest| ==> rest[i] == calls[i + 1];
      if calls[0].ForDataCenter? {
        var r := Step(f, Builder, calls[0]);
        RunFromBuilder(r.fields, rest);
        var n := LeadingDataCenters(rest);
        assert LeadingDataCenters(calls) == n + 1;
        if n < |rest| {
          assert calls[n + 2..] == rest[n + 1..];
        }
      } else if calls[0].UsingKeyspace? {
        RunFromReplication(Step(f, Builder, calls[0]).fields, rest);
      }
    }
  }

  /**
    A fluent chain without null arguments, started on a new builder, builds a
    session exactly when it follows the grammar.
   */
  lemma ChainBuildsIffGrammar(nodes: string, calls: seq<Call>)
    requires AllNonNull(calls)
    ensures Run(Init(nodes), Builder, calls).Built? <==> Grammar(calls)
  {
    RunFromBuilder(Init(nodes), calls);
  }

  // ---------------------------------------------------------------------------
  // What a fluent chain builds

  /**
    Along a fluent chain started on a new builder, the preprocess fields are
    set in order and only on the preprocess path, and the definitions only
    after preprocessTheseStatements.
   */
  predicate Linear(f: Fields, stage: Stage) {
    && (Rank(stage) <= 3 ==> f.definitions == [])
    && (Rank(stage) <= 4 ==> f.preUsername.None?)
    && (Rank(stage) <= 5 ==> f.prePassword.None?)
  }

  /** What Build can pass: no preprocessing at all, or both preprocess credentials. */
  predicate PairedPreprocess(a: SessionImpl.SessionArgs) {
    || (a.preuser.None? && a.prepassword.None? && a.definitions == [])
    || (a.preuser.Some? && a.prepassword.Some?)
  }

  lemma {:induction false} RunKeepsLinear(f: Fields, stage: Stage, calls: seq<Call>)
    requires Consistent(f, stage) && Linear(f, stage)
    ensures var r := Run(f, stage, calls);
      && (r.Next? ==> Linear(r.fields, r.stage))
      && (r.Built? ==> PairedPreprocess(r.args))
    decreases |calls|
  {
    if |calls| > 0 {
      var r := Step(f, stage, calls[0]);
      if r.Next? {
        RunKeepsLinear(r.fields, r.stage, calls[1..]);
      }
    }
  }

  /**
    Every fluent chain that builds passes both preprocess credentials or
    neither, and none that skips the preprocess stages passes definitions; so
    `prepassword.get()` in the constructor cannot throw.
   */
  lemma ChainPairsPreprocess(nodes: string, calls: seq<Call>, outcome: nat -> Option<Failure>)
    ensures var r := Run(Init(nodes), Builder, calls);
      && (r.Built? ==> PairedPreprocess(r.args))
      && (r.Built? ==> SessionImpl.Open(r.args, outcome).error != Some(NoSuchElement))
  {
    RunKeepsLinear(Init(nodes), Builder, calls);
    var r := Run(Init(nodes), Builder, calls);
    if r.Built? {
      SessionImpl.OpenNoSuchElement(r.args, outcome);
    }
  }

  /**
    A stale Prepare object breaks the pairing: after preprocessTheseStatements
    and asPreprocessUserName, calling build on the Prepare object kept from
    before passes a preprocess user without password, and the constructor
    throws NoSuchElementException before touching the driver.
   */
  lemma StalePrepareBuild(f: Fields, defs: seq<seq<SessionImpl.Statement>>, user: string, outcome: nat -> Option<Failure>)
    requires Consistent(f, Prepare) && Linear(f, Prepare)
    ensures var r1 := Step(f, Prepare, PreprocessTheseStatements(Some(defs)));
      && r1.Next? && r1.stage == PreprocessUser
      && var r2 := Step(r1.fields, PreprocessUser, AsPreprocessUserName(Some(user)));
      && r2.Next?
      && Consistent(r2.fields, Prepare)
      && var stale := Step(r2.fields, Prepare, Build);
      && stale.Built?
      && stale.args.preuser == Some(user) && stale.args.prepassword.None?
      && SessionImpl.Open(stale.args, outcome) == SessionImpl.Construction([], Some(NoSuchElement))
  {
  }

  /** asUser any number of times. */
  function AsUsers(passwords: seq<string>): seq<Call>
  {
    seq(|passwords|, i requires 0 <= i < |passwords| => AsUser(Some(passwords[i])))
  }

  /**
    The credentials stage keeps the argument of the last asUser in the
    password field and puts the argument of andPassword in the username field,
    the reverse of what the method names say.
   */
  lemma {:induction false} CredentialsSwapped(f: Fields, passwords: seq<string>, name: string)
    requires Consistent(f, Credentials)
    ensures Run(f, Credentials, AsUsers(passwords) + [AndPassword(Some(name))])
      == Next(f.(password := if |passwords| == 0 then f.password else Some(passwords[|passwords| - 1]),
                 username := Some(name)), Prepare)
    decreases |passwords|
  {
    var calls := AsUsers(passwords) + [AndPassword(Some(name))];
    if |passwords| > 0 {
      var g := f.(password := Some(passwords[0]));
      var rest := passwords[1..];
      CredentialsSwapped(g, rest, name);
      assert calls[1..] == AsUsers(rest) + [AndPassword(Some(name))];
      if |rest| > 0 {
        assert passwords[|passwords| - 1] == rest[|rest| - 1];
      }
    }
  }

  /** Skipping the preprocess stages builds with no definitions and no preprocess credentials. */
  lemma DefaultsWithoutPreprocess(f: Fields)
    requires Consistent(f, Prepare) && Linear(f, Prepare)
    ensures var r := Run(f, Prepare, [Build]);
      && r.Built?
      && r.args.definitions == [] && r.args.preuser.None? && r.args.prepassword.None?
  {
  }

  /** The calls of the preprocess path, from the Prepare stage on. */
  function PreprocessCalls(defs: seq<seq<SessionImpl.Statement>>, user: string, password: string): seq<Call> {
    [PreprocessTheseStatements(Some(defs)), AsPreprocessUserName(Some(user)), AndPreprocessPassword(Some(password)), Build]
  }

  /** The preprocess path writes its three fields and builds with them. */
  lemma PreprocessPathBuilds(f: Fields, defs: seq<seq<SessionImpl.Statement>>, user: string, password: string)
    requires Consistent(f, Prepare)
    ensures Run(f, Prepare, PreprocessCalls(defs, user, password))
      == Built(SessionImpl.SessionArgs(f.username.value, f.password, f.keyspace.value, f.nodes, f.replication.value,
                                       f.datacenter, Some(user), Some(password), defs))
  {
    var f5 := f.(definitions := defs);
    var f6 := f5.(preUsername := Some(user));
    PreprocessPasswordBuilds(f6, password);
    assert Run(f5, PreprocessUser, [AsPreprocessUserName(Some(user)), AndPreprocessPassword(Some(password)), Build])
      == Run(f6, PreprocessPassword, [AndPreprocessPassword(Some(password)), Build]);
  }

  lemma PreprocessPasswordBuilds(f: Fields, password: string)
    requires Consistent(f, PreprocessPassword)
    ensures Run(f, PreprocessPassword, [AndPreprocessPassword(Some(password)), Build])
      == Built(ArgsOf(f.(prePassword := Some(password))))
  {
    var g := f.(prePassword := Some(password));
    assert Step(f, PreprocessPassword, AndPreprocessPassword(Some(password))) == Next(g, PreprocessBuild);
    assert Run(g, PreprocessBuild, [Build]) == Built(ArgsOf(g));
    assert [AndPreprocessPassword(Some(password)), Build][1..] == [Build];
  }

  /** The chain of the builder tests, with the keyspace-creating preprocess path. */
  function TestCalls(keyspace: string, replication: string, user: string, password: string,
                     defs: seq<seq<SessionImpl.Statement>>): seq<Call>
  {
    [ForDataCenter(Some("")), UsingKeyspace(Some(keyspace)), AndReplication(Some(replication)),
     AsUser(Some(user)), AndPassword(Some(password)), PreprocessTheseStatements(Some(defs)),
     AsPreprocessUserName(Some(user)), AndPreprocessPassword(Some(password)), Build]
  }

  /** The test chain builds with its arguments, user and password landing in swapped fields. */
  lemma TestChainBuilds(nodes: string, keyspace: string, replication: string, user: string, password: string,
                        defs: seq<seq<SessionImpl.Statement>>)
    ensures Run(Init(nodes), Builder, TestCalls(keyspace, replication, user, password, defs))
      == Built(SessionImpl.SessionArgs(password, Some(user), keyspace, nodes, replication, None,
                                       Some(user), Some(password), defs))
  {
    var calls := TestCalls(keyspace, replication, user, password, defs);
    var f0 := Init(nodes);
    var f1 := f0.(keyspace := Some(keyspace));
    var f2 := f1.(replication := Some(replication));
    var f3 := f2.(password := Some(user));
    var f4 := f3.(username := Some(password));
    assert Run(f0, Builder, calls) == Run(f0, Builder, calls[1..]);
    assert Run(f0, Builder, calls[1..]) == Run(f1, Replication, calls[2..]);
    assert Run(f1, Replication, calls[2..]) == Run(f2, Credentials, calls[3..]);
    assert Run(f2, Credentials, calls[3..]) == Run(f3, Credentials, calls[4..]);
    assert Run(f3, Credentials, calls[4..]) == Run(f4, Prepare, calls[5..]);
    assert calls[5..] == PreprocessCalls(defs, user, password);
    PreprocessPathBuilds(f4, defs, user, password);
  }

  /** ... and follows the grammar. */
  lemma TestChain(nodes: string, keyspace: string, replication: string, user: string, password: string,
                  defs: seq<seq<SessionImpl.Statement>>)
    ensures Grammar(TestCalls(keyspace, replication, user, password, defs))
    ensures Run(Init(nodes), Builder, TestCalls(keyspace, replication, user, password, defs))
      == Built(SessionImpl.SessionArgs(password, Some(user), keyspace, nodes, replication, None,
                                       Some(user), Some(password), defs))
  {
    TestChainBuilds(nodes, keyspace, replication, user, password, defs);
    TestCallsNonNull(keyspace, replication, user, password, defs);
    ChainBuildsIffGrammar(nodes, TestCalls(keyspace, replication, user, password, defs));
  }

  /** Every call of the test chain carries a value. */
  lemma TestCallsNonNull(keyspace: string, replication: string, user: string, password: string,
                         defs: seq<seq<SessionImpl.Statement>>)
    ensures AllNonNull(TestCalls(keyspace, replication, user, password, defs))
  {
  }
}
