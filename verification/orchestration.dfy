/**
 * Specification of the body of `main`'s polling loop: how each unread message
 * is filtered, answered and recorded, and how one iteration ends. The Gmail
 * calls, the text generator and `random.choice` are oracle inputs.
 */
module Orchestration {
  import opened Wrappers
  import opened Headers
  import opened Personas
  import opened Replies
  import opened Ledger
  import opened Shutdown

  /** The values fixed at startup. */
  datatype Policy = Policy(myEmail: string, replyOnce: bool, fallback: string, personas: seq<Persona>)

  /** A reply handed to the mail service. */
  datatype Email = Email(to: string, subject: string, body: string)

  /** What the loop mutates: the in-memory ledger set, the CSV file and the outbox. */
  datatype State = State(replied: set<string>, store: Option<seq<Row>>, sent: seq<Email>)

  /**
   * What the outside world does for one unread message: the fetched headers
   * (`None` when `messages().get` raises, or when `get_sender` raises a `KeyError`
   * on a message without `payload`/`headers` or a header without `name`/`value`),
   * the index `random.choice` picks, the
   * stripped generator output (`None` on any error), whether `messages().send`
   * returns normally, and the timestamp written in the ledger row.
   */
  datatype Attempt = Attempt(fetched: Option<seq<Header>>, personaIndex: nat, generated: Option<string>, sendOk: bool, timestamp: string)

  /** The fate of one message: an exception, a `continue`, or a sent and recorded reply. */
  datatype Step = Abort | Skip | Reply(email: Email, row: Row)

  /** A pass over the listed messages: the state reached and whether an exception ended it. */
  datatype Pass = Pass(state: State, aborted: bool)

  predicate ValidPolicy(p: Policy)
  {
    |p.personas| > 0
  }

  predicate ValidAttempts(p: Policy, attempts: seq<Attempt>)
  {
    forall k :: 0 <= k < |attempts| ==> attempts[k].personaIndex < |p.personas|
  }

  /** The skip test of the loop: no sender, already answered under reply-once, or our own address. */
  predicate Skipped(p: Policy, replied: set<string>, sender: Option<string>)
  {
    sender.None? || sender.value == "" || (p.replyOnce && sender.value in replied) || sender.value == p.myEmail
  }

  /** An address a reply may go to. */
  predicate Addressable(p: Policy, to: string)
  {
    to != "" && to != p.myEmail
  }

  /** One message of the `for msg_meta in messages` loop. */
  function Handle(p: Policy, parse: string -> string, replied: set<string>, a: Attempt): (r: Step)
    requires a.personaIndex < |p.personas|
    ensures r.Skip? <==> a.fetched.Some? && Skipped(p, replied, FirstFrom(a.fetched.value, parse))
    ensures r.Abort? <==> a.fetched.None? || (!Skipped(p, replied, FirstFrom(a.fetched.value, parse)) && !a.sendOk)
    ensures r.Reply? ==>
      a.fetched.Some? && FirstFrom(a.fetched.value, parse) == Some(r.email.to) &&
      Addressable(p, r.email.to) && (p.replyOnce ==> r.email.to !in replied)
    ensures r.Reply? ==>
      var persona := p.personas[a.personaIndex];
      var failed := GeneratorFailed(a.generated);
      r.email.subject == ReplySubject(OriginalSubject) &&
      r.email.body == SignedBody(if failed then p.fallback else a.generated.value, persona) &&
      r.row == ReplyRow(r.email.to, a.timestamp, RecordedName(persona), failed)
  {
    match a.fetched
    case None => Abort
    case Some(headers) =>
      var sender := FirstFrom(headers, parse);
      if Skipped(p, replied, sender) then Skip
      else
        var persona := p.personas[a.personaIndex];
        var draft := ChooseBody(a.generated, p.fallback);
        if !a.sendOk then Abort
        else Reply(Email(sender.value, ReplySubject(OriginalSubject), SignedBody(draft.body, persona)),
                   ReplyRow(sender.value, a.timestamp, RecordedName(persona), draft.usedFallback))
  }

  /** After a send returns: add the sender to the set and append its row to the file. */
  function Record(st: State, email: Email, row: Row): State
  {
    State(st.replied + {email.to}, Some(Appended(st.store, row)), st.sent + [email])
  }

  /** The whole `for msg_meta in messages` loop; an exception ends it. */
  function Candidates(p: Policy, parse: string -> string, st: State, attempts: seq<Attempt>): (r: Pass)
    requires ValidAttempts(p, attempts)
    ensures st.replied <= r.state.replied
    ensures |st.sent| <= |r.state.sent| && r.state.sent[..|st.sent|] == st.sent
    ensures forall k :: |st.sent| <= k < |r.state.sent| ==> Addressable(p, r.state.sent[k].to)
    decreases |attempts|
  {
    if attempts == [] then Pass(st, false)
    else
      match Handle(p, parse, st.replied, attempts[0])
      case Abort => Pass(st, true)
      case Skip => Candidates(p, parse, st, attempts[1..])
      case Reply(email, row) => Candidates(p, parse, Record(st, email, row), attempts[1..])
  }

  /** No two replies in the outbox go to the same address. */
  predicate OncePerSender(sent: seq<Email>)
  {
    forall i, j :: 0 <= i < j < |sent| ==> sent[i].to != sent[j].to
  }

  /** The last rows of the file are the records of the replies sent, in order. */
  predicate RecordsFollowSends(store: Option<seq<Row>>, sent: seq<Email>)
  {
    var rows := RowsOf(store);
    |sent| <= |rows| &&
    var records := rows[|rows| - |sent|..];
    forall k :: 0 <= k < |sent| ==> records[k] != [] && records[k][0] == sent[k].to
  }

  /**
   * The loop's invariant: every reply went to an addressable sender now in the set,
   * under reply-once no sender got two, and each reply has its row in the file.
   */
  predicate Inv(p: Policy, st: State)
  {
    (forall k :: 0 <= k < |st.sent| ==> Addressable(p, st.sent[k].to) && st.sent[k].to in st.replied) &&
    (p.replyOnce ==> OncePerSender(st.sent)) &&
    RecordsFollowSends(st.store, st.sent)
  }

  lemma RecordKeepsInv(p: Policy, st: State, email: Email, row: Row)
    requires Inv(p, st)
    requires Addressable(p, email.to) && (p.replyOnce ==> email.to !in st.replied)
    requires row != [] && row[0] == email.to
    ensures Inv(p, Record(st, email, row))
  {
    var st' := Record(st, email, row);
    var rows, rows' := RowsOf(st.store), RowsOf(st'.store);
    assert |rows'| == |rows| + 1 || (st.store.None? && st.sent == []);
    var records, records' := rows[|rows| - |st.sent|..], rows'[|rows'| - |st'.sent|..];
    assert records' == records + [row];
    assert RecordsFollowSends(st'.store, st'.sent);
  }

  /** Every pass keeps the invariant, so in particular no sender is answered twice under reply-once. */
  lemma {:induction false} CandidatesKeepInv(p: Policy, parse: string -> string, st: State, attempts: seq<Attempt>)
    requires ValidAttempts(p, attempts)
    requires Inv(p, st)
    ensures Inv(p, Candidates(p, parse, st, attempts).state)
    decreases |attempts|
  {
    if attempts != [] {
      var h := Handle(p, parse, st.replied, attempts[0]);
      if h.Reply? {
        RecordKeepsInv(p, st, h.email, h.row);
        CandidatesKeepInv(p, parse, Record(st, h.email, h.row), attempts[1..]);
      } else if h.Skip? {
        CandidatesKeepInv(p, parse, st, attempts[1..]);
      }
    }
  }

  /** The in-memory set grows by exactly the addresses replied to during the pass. */
  lemma {:induction false} CandidatesGrowSet(p: Policy, parse: string -> string, st: State, attempts: seq<Attempt>)
    requires ValidAttempts(p, attempts)
    ensures var r := Candidates(p, parse, st, attempts).state;
      forall x :: x in r.replied <==> x in st.replied || exists k :: |st.sent| <= k < |r.sent| && r.sent[k].to == x
    decreases |attempts|
  {
    if attempts != [] {
      var h := Handle(p, parse, st.replied, attempts[0]);
      if h.Reply? {
        var st' := Record(st, h.email, h.row);
        CandidatesGrowSet(p, parse, st', attempts[1..]);
        var r := Candidates(p, parse, st', attempts[1..]).state;
        assert r.sent[|st.sent|] == h.email;
      } else if h.Skip? {
        CandidatesGrowSet(p, parse, st, attempts[1..]);
      }
    }
  }

  /**
   * A pass over `xs + ys` is a pass over `xs` followed, unless an exception ended
   * it, by a pass over `ys`: after an exception nothing of `ys` happens.
   */
  lemma {:induction false} CandidatesSplit(p: Policy, parse: string -> string, st: State, xs: seq<Attempt>, ys: seq<Attempt>)
    requires ValidAttempts(p, xs) && ValidAttempts(p, ys)
    ensures ValidAttempts(p, xs + ys)
    ensures var first := Candidates(p, parse, st, xs);
      Candidates(p, parse, st, xs + ys) == if first.aborted then first else Candidates(p, parse, first.state, ys)
    decreases |xs|
  {
    if xs == [] {
      assert xs + ys == ys;
    } else {
      assert (xs + ys)[0] == xs[0] && (xs + ys)[1..] == xs[1..] + ys;
      var h := Handle(p, parse, st.replied, xs[0]);
      if h.Reply? {
        CandidatesSplit(p, parse, Record(st, h.email, h.row), xs[1..], ys);
      } else if h.Skip? {
        CandidatesSplit(p, parse, st, xs[1..], ys);
      }
    }
  }

  /** The address a fetched message is answered at, if any. */
  function SenderOf(a: Attempt, parse: string -> string): Option<string>
  {
    if a.fetched.None? then None else FirstFrom(a.fetched.value, parse)
  }

  /** Every message is fetched, its send succeeds, and its sender is addressable and not yet answered. */
  predicate FreshSenders(p: Policy, parse: string -> string, replied: set<string>, attempts: seq<Attempt>)
  {
    forall k :: 0 <= k < |attempts| ==> Fresh(p, parse, replied, attempts[k])
  }

  predicate Fresh(p: Policy, parse: string -> string, replied: set<string>, a: Attempt)
  {
    a.sendOk && SenderOf(a, parse).Some? && Addressable(p, SenderOf(a, parse).value) && SenderOf(a, parse).value !in replied
  }

  /** No two messages come from the same sender. */
  predicate DistinctSenders(parse: string -> string, attempts: seq<Attempt>)
  {
    forall i, j :: 0 <= i < j < |attempts| ==> SenderOf(attempts[i], parse) != SenderOf(attempts[j], parse)
  }

  /** A message from a new addressable sender whose send succeeds is answered at that sender. */
  lemma FreshIsAnswered(p: Policy, parse: string -> string, replied: set<string>, a: Attempt) returns (email: Email, row: Row)
    requires a.personaIndex < |p.personas| && Fresh(p, parse, replied, a)
    ensures Handle(p, parse, replied, a) == Reply(email, row) && Some(email.to) == SenderOf(a, parse)
  {
    var h := Handle(p, parse, replied, a);
    email, row := h.email, h.row;
  }

  /** Once the first sender is answered, the remaining messages still come from distinct new senders. */
  lemma FreshTail(p: Policy, parse: string -> string, replied: set<string>, attempts: seq<Attempt>, to: string)
    requires attempts != [] && Some(to) == SenderOf(attempts[0], parse)
    requires FreshSenders(p, parse, replied, attempts) && DistinctSenders(parse, attempts)
    ensures FreshSenders(p, parse, replied + {to}, attempts[1..]) && DistinctSenders(parse, attempts[1..])
  {
    var rest := attempts[1..];
    forall k | 0 <= k < |rest| ensures Fresh(p, parse, replied + {to}, rest[k]) {
      assert rest[k] == attempts[k + 1];
      assert Fresh(p, parse, replied, attempts[k + 1]);
      assert SenderOf(attempts[0], parse) != SenderOf(attempts[k + 1], parse);
    }
    forall i, j | 0 <= i < j < |rest| ensures SenderOf(rest[i], parse) != SenderOf(rest[j], parse) {
      assert rest[i] == attempts[i + 1] && rest[j] == attempts[j + 1];
    }
  }

  /** The addresses of a sequence of replies, in order. */
  function Recipients(sent: seq<Email>): seq<Option<string>>
  {
    if sent == [] then [] else [Some(sent[0].to)] + Recipients(sent[1..])
  }

  /** The senders of a sequence of messages, in order. */
  function Senders(parse: string -> string, attempts: seq<Attempt>): seq<Option<string>>
  {
    if attempts == [] then [] else [SenderOf(attempts[0], parse)] + Senders(parse, attempts[1..])
  }

  /**
   * When every message is fetched, comes from a distinct new addressable sender
   * and every send succeeds, each one is answered, in order, and nothing aborts.
   */
  lemma {:induction false} CandidatesAnswerFreshSenders(p: Policy, parse: string -> string, st: State, attempts: seq<Attempt>)
    requires ValidAttempts(p, attempts)
    requires FreshSenders(p, parse, st.replied, attempts) && DistinctSenders(parse, attempts)
    ensures var r := Candidates(p, parse, st, attempts);
      !r.aborted && Recipients(r.state.sent[|st.sent|..]) == Senders(parse, attempts)
    decreases |attempts|
  {
    if attempts != [] {
      var email, row := FreshIsAnswered(p, parse, st.replied, attempts[0]);
      var st' := Record(st, email, row);
      CandidatesOnReply(p, parse, st, attempts, email, row);
      FreshTail(p, parse, st.replied, attempts, email.to);
      CandidatesAnswerFreshSenders(p, parse, st', attempts[1..]);
      var sent := Candidates(p, parse, st', attempts[1..]).state.sent;
      assert sent[..|st'.sent|] == st.sent + [email];
      assert sent[|st.sent|] == (st.sent + [email])[|st.sent|] == email;
      RecipientsFrom(sent, |st.sent|);
    }
  }

  /** The recipients of a suffix start with its first reply. */
  lemma RecipientsFrom(sent: seq<Email>, n: nat)
    requires n < |sent|
    ensures Recipients(sent[n..]) == [Some(sent[n].to)] + Recipients(sent[n + 1..])
  {
    assert sent[n..][0] == sent[n] && sent[n..][1..] == sent[n + 1..];
  }

  /** When the first message is answered, the pass continues from the recorded state. */
  lemma CandidatesOnReply(p: Policy, parse: string -> string, st: State, attempts: seq<Attempt>, email: Email, row: Row)
    requires ValidAttempts(p, attempts) && attempts != []
    requires Handle(p, parse, st.replied, attempts[0]) == Reply(email, row)
    ensures Candidates(p, parse, st, attempts) == Candidates(p, parse, Record(st, email, row), attempts[1..])
  {
  }

  /** A file that is absent, or longer than the records of this run, keeps all of them on reload. */
  predicate Durable(st: State)
  {
    st.store.None? || |RowsOf(st.store)| > |st.sent|
  }

  lemma {:induction false} CandidatesKeepDurable(p: Policy, parse: string -> string, st: State, attempts: seq<Attempt>)
    requires ValidAttempts(p, attempts)
    requires Inv(p, st) && Durable(st)
    ensures Durable(Candidates(p, parse, st, attempts).state)
    decreases |attempts|
  {
    if attempts != [] {
      var h := Handle(p, parse, st.replied, attempts[0]);
      if h.Reply? {
        RecordKeepsInv(p, st, h.email, h.row);
        CandidatesKeepDurable(p, parse, Record(st, h.email, h.row), attempts[1..]);
      } else if h.Skip? {
        CandidatesKeepDurable(p, parse, st, attempts[1..]);
      }
    }
  }

  /** Every address replied to is read back when the file is reloaded. */
  lemma RecipientsReloaded(p: Policy, st: State)
    requires Inv(p, st) && Durable(st)
    ensures forall k :: 0 <= k < |st.sent| ==> st.sent[k].to in Load(st.store)
  {
    var rows := RowsOf(st.store);
    if st.sent != [] {
      var tail, records := rows[1..], rows[|rows| - |st.sent|..];
      forall k | 0 <= k < |st.sent| ensures st.sent[k].to in Load(st.store) {
        var i := |rows| - |st.sent| + k;
        assert tail[i - 1] == rows[i] == records[k];
      }
    }
  }

  /** A process restart: the in-memory set is rebuilt from the file; the outbox is the world's. */
  function Restart(st: State): State
  {
    State(Load(st.store), st.store, st.sent)
  }

  /** Restarting keeps the invariant, so reply-once holds across restarts of a durable ledger. */
  lemma RestartKeepsInv(p: Policy, st: State)
    requires Inv(p, st) && Durable(st)
    ensures Inv(p, Restart(st)) && Durable(Restart(st))
  {
    RecipientsReloaded(p, st);
  }

  /**
   * A ledger file that exists but is empty loses the first reply on restart: its row
   * is taken for the header, so the same sender can be answered again.
   */
  lemma EmptyLedgerFileForgetsFirstReply(p: Policy, parse: string -> string, a: Attempt)
    requires a.personaIndex < |p.personas|
    requires Handle(p, parse, {}, a).Reply?
    ensures var st := Candidates(p, parse, State({}, Some([]), []), [a]).state;
      |st.sent| == 1 && st.sent[0].to !in Load(st.store) &&
      Handle(p, parse, Restart(st).replied, a).Reply?
  {
    var h := Handle(p, parse, {}, a);
    var st := Record(State({}, Some([]), []), h.email, h.row);
    assert Candidates(p, parse, State({}, Some([]), []), [a]) == Candidates(p, parse, st, []);
    LoadAfterSave(Some([]), h.row);
  }

  /** Without reply-once, the set of answered senders has no effect on how a message is handled. */
  lemma RepeatsWithoutReplyOnce(p: Policy, parse: string -> string, replied: set<string>, a: Attempt)
    requires a.personaIndex < |p.personas| && !p.replyOnce
    ensures Handle(p, parse, replied, a) == Handle(p, parse, {}, a)
  {
  }

  /** How one iteration of `while not shutdown_requested` ends. */
  datatype Outcome = Errored | Slept(ticks: nat)

  /**
   * What the world does during one iteration: the listed messages (`None` when
   * listing raises), whether a shutdown signal arrives while they are processed
   * or during the 5-second delay after an exception (both leave the flag set for
   * the next loop test), and the signals during the sleep ticks.
   */
  datatype IterationInput = IterationInput(listed: Option<seq<Attempt>>, signalDuringWork: bool, sleepSignals: seq<bool>)

  datatype After = After(state: State, requested: bool, outcome: Outcome)

  predicate ValidInput(p: Policy, input: IterationInput)
  {
    input.listed.Some? ==> ValidAttempts(p, input.listed.value)
  }

  /** One iteration: poll, answer, then either the responsive sleep or, after an exception, the fixed delay. */
  function Iteration(p: Policy, parse: string -> string, interval: int, st: State, requested: bool, input: IterationInput): (r: After)
    requires ValidInput(p, input)
    ensures requested || input.signalDuringWork ==> r.requested
    ensures r.outcome.Slept? ==> r.outcome.ticks <= if interval > 0 then interval else 0
    ensures input.signalDuringWork ==> r.outcome == Errored || r.outcome == Slept(0)
    ensures r.outcome == Errored <==> input.listed.None? || Candidates(p, parse, st, input.listed.value).aborted
    ensures r.state == if input.listed.None? then st else Candidates(p, parse, st, input.listed.value).state
    ensures r.outcome == Errored ==> r.requested == (requested || input.signalDuringWork)
    ensures r.outcome.Slept? ==>
      SleepResult(r.outcome.ticks, r.requested) == Sleep(interval, requested || input.signalDuringWork, input.sleepSignals)
  {
    var flag := requested || input.signalDuringWork;
    match input.listed
    case None => After(st, flag, Errored)
    case Some(attempts) =>
      var pass := Candidates(p, parse, st, attempts);
      if pass.aborted then After(pass.state, flag, Errored)
      else
        var s := Sleep(interval, flag, input.sleepSignals);
        After(pass.state, s.requested, Slept(s.ticks))
  }

  /** A signal that arrives while messages are processed does not interrupt them. */
  lemma SignalDoesNotInterruptWork(p: Policy, parse: string -> string, interval: int, st: State, requested: bool, input: IterationInput)
    requires ValidInput(p, input)
    ensures Iteration(p, parse, interval, st, requested, input).state ==
            Iteration(p, parse, interval, st, false, input.(signalDuringWork := false)).state
  {
  }

  /** Iterations keep the invariant and durability. */
  lemma IterationKeepsInv(p: Policy, parse: string -> string, interval: int, st: State, requested: bool, input: IterationInput)
    requires ValidInput(p, input) && Inv(p, st)
    ensures Inv(p, Iteration(p, parse, interval, st, requested, input).state)
    ensures Durable(st) ==> Durable(Iteration(p, parse, interval, st, requested, input).state)
  {
    if input.listed.Some? {
      CandidatesKeepInv(p, parse, st, input.listed.value);
      if Durable(st) {
        CandidatesKeepDurable(p, parse, st, input.listed.value);
      }
    }
  }

  /** How the loop ends: the state, the flag and the number of iterations started. */
  datatype RunResult = RunResult(state: State, requested: bool, done: nat)

  predicate ValidInputs(p: Policy, inputs: seq<IterationInput>)
  {
    forall k :: 0 <= k < |inputs| ==> ValidInput(p, inputs[k])
  }

  /** `while not shutdown_requested`: the iterations run in turn, each starting only while the flag is clear. */
  function Runs(p: Policy, parse: string -> string, interval: int, st: State, requested: bool, inputs: seq<IterationInput>): (r: RunResult)
    requires ValidInputs(p, inputs)
    ensures r.done <= |inputs|
    ensures requested ==> r == RunResult(st, requested, 0)
    ensures r.done < |inputs| ==> r.requested
    decreases |inputs|
  {
    if requested || inputs == [] then RunResult(st, requested, 0)
    else
      var after := Iteration(p, parse, interval, st, false, inputs[0]);
      var rest := Runs(p, parse, interval, after.state, after.requested, inputs[1..]);
      RunResult(rest.state, rest.requested, rest.done + 1)
  }

  /** A run from input `i` with the flag clear: iteration `i`, then the run from `i + 1`. */
  lemma RunsStep(p: Policy, parse: string -> string, interval: int, st: State, inputs: seq<IterationInput>, i: nat)
    requires ValidInputs(p, inputs) && i < |inputs|
    ensures var after := Iteration(p, parse, interval, st, false, inputs[i]);
      var rest := Runs(p, parse, interval, after.state, after.requested, inputs[i + 1..]);
      Runs(p, parse, interval, st, false, inputs[i..]) == RunResult(rest.state, rest.requested, rest.done + 1)
  {
    assert inputs[i..][0] == inputs[i] && inputs[i..][1..] == inputs[i + 1..];
  }

  /** A run over a prefix of at least one input: the first iteration, then the rest of the prefix. */
  lemma RunsPrefix(p: Policy, parse: string -> string, interval: int, st: State, inputs: seq<IterationInput>, m: nat)
    requires ValidInputs(p, inputs) && 1 <= m <= |inputs|
    ensures var after := Iteration(p, parse, interval, st, false, inputs[0]);
      var rest := Runs(p, parse, interval, after.state, after.requested, inputs[1..][..m - 1]);
      Runs(p, parse, interval, st, false, inputs[..m]) == RunResult(rest.state, rest.requested, rest.done + 1)
  {
    assert inputs[..m][0] == inputs[0] && inputs[..m][1..] == inputs[1..][..m - 1];
  }

  /**
   * The loop stops right after the first iteration that ends with the flag set:
   * the run equals its first `done` iterations, and none of the shorter runs
   * ended with the flag set.
   */
  lemma {:induction false} RunsStopAtFirstFlag(p: Policy, parse: string -> string, interval: int, st: State, inputs: seq<IterationInput>)
    requires ValidInputs(p, inputs)
    ensures var r := Runs(p, parse, interval, st, false, inputs);
      r == Runs(p, parse, interval, st, false, inputs[..r.done]) &&
      forall k :: 0 < k < r.done ==> !Runs(p, parse, interval, st, false, inputs[..k]).requested
    decreases |inputs|
  {
    var r := Runs(p, parse, interval, st, false, inputs);
    if inputs == [] {
      assert inputs[..0] == [];
    } else {
      var after := Iteration(p, parse, interval, st, false, inputs[0]);
      var tail := inputs[1..];
      var rest := Runs(p, parse, interval, after.state, after.requested, tail);
      RunsPrefix(p, parse, interval, st, inputs, r.done);
      if after.requested {
        assert tail[..0] == [];
      } else {
        RunsStopAtFirstFlag(p, parse, interval, after.state, tail);
        forall k | 0 < k < r.done ensures !Runs(p, parse, interval, st, false, inputs[..k]).requested {
          RunsPrefix(p, parse, interval, st, inputs, k);
          if k == 1 {
            assert tail[..0] == [];
          }
        }
      }
    }
  }

  /** A signal during the sleep of an iteration that completed its pass ends the loop after that iteration. */
  lemma SleepSignalEndsRun(p: Policy, parse: string -> string, interval: int, st: State, inputs: seq<IterationInput>)
    requires ValidInputs(p, inputs) && inputs != []
    requires inputs[0].listed.Some? && !Candidates(p, parse, st, inputs[0].listed.value).aborted
    requires SignalWithin(inputs[0].sleepSignals, interval)
    ensures Runs(p, parse, interval, st, false, inputs).done == 1
  {
    var after := Iteration(p, parse, interval, st, false, inputs[0]);
    assert after.outcome.Slept?;
    assert after.requested;
  }
}
