/** The intake step of the SMTP sinkhole (`SmtpSink.process_message`): store the
    raw message under a fresh timestamped name in the mail directory, then
    optionally relay a copy to the configured mailbox, swallowing every
    failure of the relay. */
module SmtpSinkhole {
  import Decimal
  import Recipients

  datatype Option<T> = None | Some(value: T)

  datatype Result<T, E> = Success(value: T) | Failure(error: E)

  // ---------------------------------------------------------------------
  // File names of stored mails
  // ---------------------------------------------------------------------

  /** Length of a `%Y%m%d%H%M%S` timestamp. */
  const BaseLength: nat := 14

  /** A timestamp rendered to the second: fourteen ASCII digits. */
  predicate IsTimestampBase(base: string) {
    |base| == BaseLength && Decimal.AllDigits(base)
  }

  /** The candidate name `base + str(i)` probed for suffix `i`: the base,
      then the suffix as a canonical decimal. */
  function FileName(base: string, i: nat): (name: string)
    ensures |name| > |base| && name[..|base|] == base
    ensures Decimal.IsCanonical(name[|base|..])
  {
    base + Decimal.Render(i)
  }

  /** Reads a stored mail's name back as its timestamp base and suffix. */
  function ParseFileName(name: string): (r: Option<(string, nat)>)
    ensures r.Some? ==> IsTimestampBase(r.value.0)
  {
    if |name| > BaseLength && Decimal.AllDigits(name[..BaseLength])
       && Decimal.IsCanonical(name[BaseLength..])
    then Some((name[..BaseLength], Decimal.Parse(name[BaseLength..])))
    else None
  }

  /** Within one second, distinct suffixes give distinct names. */
  lemma FileNameInjective(base: string, i: nat, j: nat)
    requires FileName(base, i) == FileName(base, j)
    ensures i == j
  {
    var a, b := FileName(base, i), FileName(base, j);
    assert a[|base|..] == Decimal.Render(i);
    assert b[|base|..] == Decimal.Render(j);
    Decimal.RenderInjective(i, j);
  }

  /** A stored name is the fourteen-digit base followed by the suffix in decimal. */
  lemma ParseFileNameOfFileName(base: string, i: nat)
    requires IsTimestampBase(base)
    ensures ParseFileName(FileName(base, i)) == Some((base, i))
  {
    var name := FileName(base, i);
    assert name[..BaseLength] == base;
    assert name[BaseLength..] == Decimal.Render(i);
    Decimal.ParseRender(i);
  }

  /** Every name that parses is the name of its base and suffix. */
  lemma FileNameOfParseFileName(name: string)
    requires ParseFileName(name).Some?
    ensures FileName(ParseFileName(name).value.0, ParseFileName(name).value.1) == name
  {
    Decimal.RenderParse(name[BaseLength..]);
    assert name == name[..BaseLength] + name[BaseLength..];
  }

  /** Names built from timestamps of different seconds never collide. */
  lemma FileNamesUnique(base: string, i: nat, base': string, j: nat)
    requires IsTimestampBase(base) && IsTimestampBase(base')
    requires FileName(base, i) == FileName(base', j)
    ensures base == base' && i == j
  {
    ParseFileNameOfFileName(base, i);
    ParseFileNameOfFileName(base', j);
  }

  /** The names probed before suffix `n`. */
  ghost function Probed(base: string, n: nat): set<string> {
    set j | 0 <= j < n :: FileName(base, j)
  }

  lemma {:induction false} ProbedCount(base: string, n: nat)
    ensures |Probed(base, n)| == n
    decreases n
  {
    if n > 0 {
      ProbedCount(base, n - 1);
      var last := FileName(base, n - 1);
      assert Probed(base, n) == Probed(base, n - 1) + {last};
      if last in Probed(base, n - 1) {
        var j :| 0 <= j < n - 1 && FileName(base, j) == last;
        FileNameInjective(base, j, n - 1);
      }
    }
  }

  /** A directory holding the first `n` candidates has at least `n` entries,
      so the probing loop stops after at most as many steps as there are files. */
  lemma ProbedBound(dir: map<string, string>, base: string, n: nat)
    requires forall j :: 0 <= j < n ==> FileName(base, j) in dir
    ensures n <= |dir|
  {
    var p := Probed(base, n);
    ProbedCount(base, n);
    assert p <= dir.Keys;
    assert dir.Keys == p + (dir.Keys - p);
  }

  // ---------------------------------------------------------------------
  // Persist step
  // ---------------------------------------------------------------------

  /** `if self.mail_dir:` — neither None nor the empty path. */
  function PersistEnabled(mailDir: Option<string>): (enabled: bool)
    ensures !enabled <==> mailDir == None || mailDir == Some("")
  {
    mailDir.Some? && mailDir.value != ""
  }

  /** `after` is `before` with `data` written under `base + str(i)`, the first
      candidate name that `before` does not hold. */
  ghost predicate StoredUnderLeastFreeName(before: map<string, string>, after: map<string, string>,
                                           base: string, data: string, i: nat)
  {
    && FileName(base, i) !in before
    && (forall j :: 0 <= j < i ==> FileName(base, j) in before)
    && after == before[FileName(base, i) := data]
  }

  /** Exactly one new entry, holding the message verbatim; every earlier entry
      is kept as it was. */
  lemma StoreAddsOneFile(before: map<string, string>, after: map<string, string>,
                         base: string, data: string, i: nat)
    requires StoredUnderLeastFreeName(before, after, base, data, i)
    ensures after.Keys == before.Keys + {FileName(base, i)}
    ensures |after| == |before| + 1
    ensures after[FileName(base, i)] == data
    ensures forall name :: name in before ==> after[name] == before[name]
  {
  }

  /** The directory and the timestamp decide the stored name: the least free
      suffix is unique. */
  lemma LeastFreeSuffixUnique(before: map<string, string>, base: string, i: nat, i': nat)
    requires FileName(base, i) !in before && (forall j :: 0 <= j < i ==> FileName(base, j) in before)
    requires FileName(base, i') !in before && (forall j :: 0 <= j < i' ==> FileName(base, j) in before)
    ensures i == i'
  {
  }

  /** Two mails stored in the same second get increasing suffixes, hence two
      different files. */
  lemma SameSecondSuffixesIncrease(d0: map<string, string>, d1: map<string, string>, d2: map<string, string>,
                                   base: string, x: string, y: string, i: nat, k: nat)
    requires StoredUnderLeastFreeName(d0, d1, base, x, i)
    requires StoredUnderLeastFreeName(d1, d2, base, y, k)
    ensures i < k
    ensures d2[FileName(base, i)] == x && d2[FileName(base, k)] == y
  {
    if FileName(base, i) == FileName(base, k) {
      FileNameInjective(base, i, k);
    }
  }

  // ---------------------------------------------------------------------
  // Forward step
  // ---------------------------------------------------------------------

  /** The parts of the relay session, in the order the source runs them:
      connecting (which also converts the port with `int`), logging in,
      sending, quitting. */
  datatype Stage = Connect | Login | Send | Quit

  /** How the relay server treats the session; supplied by the environment. */
  datatype RelaySession = Completed | FailsAt(stage: Stage, reason: string)

  /** The exception raised inside the forward step. */
  datatype ForwardError = MissingKey(key: string) | RelayFailed(stage: Stage, reason: string)

  /** The outbound message: its headers and the single attachment. */
  datatype Message = Message(subject: string, fromHeader: string, toHeader: string,
                             attachmentName: string, payload: string)

  /** What the relay is handed by `sendmail`, with the session's settings. */
  datatype Submission = Submission(server: string, port: string, user: string, password: string,
                                   sender: string, recipients: seq<string>, message: Message)

  /** What the forward step amounts to: not attempted, relayed, or stopped by
      an exception that was logged. `sent` is the submission the relay already
      accepted when only quitting failed. */
  datatype ForwardOutcome =
    | NotAttempted
    | Relayed(submission: Submission)
    | Logged(error: ForwardError, sent: Option<Submission>)

  /** How the `try` block ends: it returns, or it raises `error`, possibly
      after `sendmail` has handed over `sent`. */
  datatype TryOutcome =
    | Returned(submission: Submission)
    | Raised(error: ForwardError, sent: Option<Submission>)

  const SubjectPrefix: string := "Email from smtp sinkhole: "
  const AttachmentName: string := "cuckoo.eml"

  /** The settings read before connecting, in the order they are read. */
  const ConnectKeys: seq<string> := ["from", "to", "server", "port"]
  /** The settings read after connecting, for the login. */
  const LoginKeys: seq<string> := ["user", "password"]
  /** Every setting of the `email` section the forward step reads. */
  const KeyOrder: seq<string> := ConnectKeys + LoginKeys

  /** The first of `keys` that `email` lacks, the one whose lookup raises. */
  function FirstMissing(email: map<string, string>, keys: seq<string>): (r: Option<string>)
    ensures r.None? <==> forall n :: 0 <= n < |keys| ==> keys[n] in email
    ensures r.Some? ==> exists n :: 0 <= n < |keys| && keys[n] == r.value && r.value !in email
                                    && forall m :: 0 <= m < n ==> keys[m] in email
    decreases |keys|
  {
    if keys == [] then None
    else if keys[0] !in email then Some(keys[0])
    else FirstMissing(email, keys[1..])
  }

  predicate FailsDuring(session: RelaySession, stage: Stage) {
    session.FailsAt? && session.stage == stage
  }

  /** The body of the `try` block: build the message, then run the relay
      session. */
  function Attempt(email: map<string, string>, data: string, stamp: string, session: RelaySession)
    : (r: TryOutcome)
    ensures FirstMissing(email, ConnectKeys).Some? ==>
              r == Raised(MissingKey(FirstMissing(email, ConnectKeys).value), None)
    ensures FirstMissing(email, ConnectKeys).None? && FailsDuring(session, Connect) ==>
              r == Raised(RelayFailed(Connect, session.reason), None)
    ensures FirstMissing(email, ConnectKeys).None? && !FailsDuring(session, Connect)
            && FirstMissing(email, LoginKeys).Some? ==>
              r == Raised(MissingKey(FirstMissing(email, LoginKeys).value), None)
    ensures FirstMissing(email, KeyOrder).None? && session.FailsAt? && session.stage != Connect ==>
              && r.Raised? && r.error == RelayFailed(session.stage, session.reason)
              && (r.sent.Some? <==> session.stage == Quit)
    ensures FirstMissing(email, KeyOrder).None? && session == Completed ==> r.Returned?
  {
    assert KeyOrder[0] == "from" && KeyOrder[1] == "to" && KeyOrder[2] == "server"
           && KeyOrder[3] == "port" && KeyOrder[4] == "user" && KeyOrder[5] == "password";
    if "from" !in email then Raised(MissingKey("from"), None)
    else if "to" !in email then Raised(MissingKey("to"), None)
    else
      var message := Message(SubjectPrefix + stamp, email["from"], email["to"], AttachmentName, data);
      if "server" !in email then Raised(MissingKey("server"), None)
      else if "port" !in email then Raised(MissingKey("port"), None)
      else if FailsDuring(session, Connect) then Raised(RelayFailed(Connect, session.reason), None)
      else if "user" !in email then Raised(MissingKey("user"), None)
      else if "password" !in email then Raised(MissingKey("password"), None)
      else if FailsDuring(session, Login) then Raised(RelayFailed(Login, session.reason), None)
      else
        var submission := Submission(email["server"], email["port"], email["user"], email["password"],
                                     email["from"], Recipients.RelayRecipients(email["to"]), message);
        if FailsDuring(session, Send) then Raised(RelayFailed(Send, session.reason), None)
        else if FailsDuring(session, Quit) then Raised(RelayFailed(Quit, session.reason), Some(submission))
        else Returned(submission)
  }

  /** The submission the relay accepted, if any. */
  function Sent(outcome: ForwardOutcome): Option<Submission> {
    match outcome
    case NotAttempted => None
    case Relayed(submission) => Some(submission)
    case Logged(_, sent) => sent
  }

  /** The forward step: gated on the forward flag and a configuration, with
      every exception of the attempt caught and logged. */
  function Forward(forward: bool, emailConfig: Option<map<string, string>>, data: string,
                   stamp: string, session: RelaySession): (r: ForwardOutcome)
    ensures r.NotAttempted? <==> !(forward && emailConfig.Some?)
    ensures r.Relayed? <==> forward && emailConfig.Some? && session == Completed
                            && FirstMissing(emailConfig.value, KeyOrder).None?
    ensures Sent(r).Some? <==> forward && emailConfig.Some? && FirstMissing(emailConfig.value, KeyOrder).None?
                               && (session == Completed || FailsDuring(session, Quit))
  {
    if forward && emailConfig.Some? then
      match Attempt(emailConfig.value, data, stamp, session)
      case Returned(submission) => Relayed(submission)
      case Raised(e, sent) => Logged(e, sent)
    else NotAttempted
  }

  /** A copy handed to the relay goes to the recipients split from `to`,
      carries the raw message as the attachment `cuckoo.eml`, and is sent
      from `from`. */
  lemma RelayedSubmission(forward: bool, emailConfig: Option<map<string, string>>, data: string,
                          stamp: string, session: RelaySession)
    requires Sent(Forward(forward, emailConfig, data, stamp, session)).Some?
    ensures var s := Sent(Forward(forward, emailConfig, data, stamp, session)).value;
            var email := emailConfig.value;
            && s.recipients == Recipients.RelayRecipients(email["to"])
            && s.sender == email["from"]
            && s.message == Message(SubjectPrefix + stamp, email["from"], email["to"], AttachmentName, data)
            && s.server == email["server"] && s.port == email["port"]
            && s.user == email["user"] && s.password == email["password"]
  {
  }

  /** Whatever goes wrong inside the forward step ends in a log entry naming
      the missing key or the failed part of the session. */
  lemma ForwardFailureLogged(forward: bool, emailConfig: Option<map<string, string>>, data: string,
                             stamp: string, session: RelaySession)
    requires forward && emailConfig.Some?
    requires session != Completed || FirstMissing(emailConfig.value, KeyOrder).Some?
    ensures var r := Forward(forward, emailConfig, data, stamp, session);
            && r.Logged?
            && (r.error.MissingKey? ==> r.error.key in KeyOrder && r.error.key !in emailConfig.value)
            && (r.error.RelayFailed? ==> session == FailsAt(r.error.stage, r.error.reason))
  {
  }

  /** When only quitting fails, the relay has the message already and the
      error is logged beside it. */
  lemma QuitFailureAfterSend(email: map<string, string>, data: string, stamp: string, reason: string)
    requires FirstMissing(email, KeyOrder).None?
    ensures var r := Forward(true, Some(email), data, stamp, FailsAt(Quit, reason));
            r == Logged(RelayFailed(Quit, reason), Sent(r)) && Sent(r).Some?
  {
  }

  /** A missing `from` is raised before any connection is tried. */
  lemma MissingSenderBeforeConnect(data: string, stamp: string, reason: string)
    ensures Attempt(map[], data, stamp, FailsAt(Connect, reason)) == Raised(MissingKey("from"), None)
  {
  }

  // ---------------------------------------------------------------------
  // The sink
  // ---------------------------------------------------------------------

  /** The sinkhole server's state: its settings and the files of its mail
      directory, by name. */
  class SmtpSink {
    var mailDir: Option<string>
    var forward: bool
    var files: map<string, string>

    constructor (mailDir: Option<string>, forward: bool, files: map<string, string>)
      ensures this.mailDir == mailDir && this.forward == forward && this.files == files
    {
      this.mailDir := mailDir;
      this.forward := forward;
      this.files := files;
    }

    /** The duplicate check: the least suffix whose name is not yet taken. */
    method Probe(base: string) returns (i: nat)
      ensures FileName(base, i) !in files
      ensures forall j :: 0 <= j < i ==> FileName(base, j) in files
      ensures i <= |files|
    {
      i := 0;
      while FileName(base, i) in files
        invariant forall j :: 0 <= j < i ==> FileName(base, j) in files
        invariant i <= |files|
        decreases |files| - i
      {
        ProbedBound(files, base, i + 1);
        i := i + 1;
      }
    }

    /** The persist step, for the timestamp base of the current second. */
    method Persist(base: string, data: string) returns (suffix: Option<nat>)
      modifies this`files
      ensures suffix.Some? <==> PersistEnabled(mailDir)
      ensures suffix.None? ==> files == old(files)
      ensures suffix.Some? ==> StoredUnderLeastFreeName(old(files), files, base, data, suffix.value)
      ensures suffix.Some? ==> suffix.value <= |old(files)|
    {
      if PersistEnabled(mailDir) {
        var i := Probe(base);
        files := files[FileName(base, i) := data];
        suffix := Some(i);
      } else {
        suffix := None;
      }
    }

    /** One accepted mail: persist, then forward. `base` and `stamp` are the
        two readings of the clock, to the second. */
    method ProcessMessage(base: string, stamp: string, data: string,
                          emailConfig: Option<map<string, string>>, session: RelaySession)
      returns (suffix: Option<nat>, outcome: ForwardOutcome)
      modifies this`files
      ensures suffix.Some? <==> PersistEnabled(mailDir)
      ensures suffix.None? ==> files == old(files)
      ensures suffix.Some? ==> StoredUnderLeastFreeName(old(files), files, base, data, suffix.value)
      ensures outcome == Forward(forward, emailConfig, data, stamp, session)
    {
      suffix := Persist(base, data);
      outcome := Forward(forward, emailConfig, data, stamp, session);
    }
  }

  /** Two mails in the same second into an empty directory land in the files
      `base + "0"` and `base + "1"`. */
  method SameSecondArrivals(base: string, first: string, second: string) returns (sink: SmtpSink)
    ensures sink.files == map[base + "0" := first, base + "1" := second]
  {
    var empty: map<string, string> := map[];
    sink := new SmtpSink(Some("mail"), false, empty);
    assert FileName(base, 0) == base + "0" && FileName(base, 1) == base + "1";
    var s0, o0 := sink.ProcessMessage(base, "2014-01-01 00:00:00", first, None, Completed);
    assert s0 == Some(0) by { assert FileName(base, 0) !in empty; }
    var d1 := sink.files;
    var s1, o1 := sink.ProcessMessage(base, "2014-01-01 00:00:00", second, None, Completed);
    assert s1 == Some(1) by {
      assert FileName(base, 0) in d1;
      if FileName(base, 1) == FileName(base, 0) {
        FileNameInjective(base, 1, 0);
      }
    }
  }
}
