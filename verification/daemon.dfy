/**
 * The running bot: the global shutdown flag and the state `main` mutates
 * (`replied_senders`, the CSV file, the mail sent), with the loops of `main`
 * written as methods proved against the functions of `Orchestration`.
 */
module Daemon {
  import opened Wrappers
  import opened Headers
  import opened Personas
  import opened Replies
  import opened Ledger
  import opened Shutdown
  import opened Orchestration

  class Bot {
    const policy: Policy
    /** `email.utils.parseaddr(value)[1]` */
    const parseAddr: string -> string
    /** `CHECK_INTERVAL` */
    const checkInterval: int

    /** `replied_senders` */
    var replied: set<string>
    /** `replied_senders.csv`; `None` while the file does not exist */
    var store: Option<seq<Row>>
    /** Every send that returned normally, in order */
    var sent: seq<Email>
    /** `shutdown_requested` */
    var shutdownRequested: bool

    function Snapshot(): State
      reads this
    {
      State(replied, store, sent)
    }

    ghost predicate Valid()
      reads this
    {
      ValidPolicy(policy) && Inv(policy, Snapshot()) && Load(store) <= replied
    }

    /** Start-up of `main`: load the ledger and apply the default persona. */
    constructor (myEmail: string, replyOnce: bool, fallback: string, loaded: seq<Persona>,
                 ledgerFile: Option<seq<Row>>, parse: string -> string, interval: int)
      ensures Valid()
      ensures policy == Policy(myEmail, replyOnce, fallback, WithDefault(loaded))
      ensures parseAddr == parse && checkInterval == interval
      ensures replied == Load(ledgerFile) && store == ledgerFile && sent == []
      ensures !shutdownRequested
    {
      policy := Policy(myEmail, replyOnce, fallback, WithDefault(loaded));
      parseAddr := parse;
      checkInterval := interval;
      replied := Load(ledgerFile);
      store := ledgerFile;
      sent := [];
      shutdownRequested := false;
    }

    /** `graceful_shutdown`: sets the flag once; `first` says whether the notice is printed. */
    method GracefulShutdown() returns (first: bool)
      modifies this`shutdownRequested
      ensures shutdownRequested
      ensures first == !old(shutdownRequested)
    {
      first := !shutdownRequested;
      if first {
        shutdownRequested := true;
      }
    }

    /** `save_replied_sender`: appends one row, after a header when the file is new. */
    method SaveRepliedSender(sender: string, timestamp: string, character: string, usedFallback: bool)
      modifies this`store
      ensures store == Some(Appended(old(store), ReplyRow(sender, timestamp, character, usedFallback)))
    {
      var isNewFile := store.None?;
      var rows := RowsOf(store);
      if isNewFile {
        rows := [HeaderRow];
      }
      rows := rows + [ReplyRow(sender, timestamp, character, usedFallback)];
      store := Some(rows);
    }

    /** The `for msg_meta in messages` loop; `aborted` says an exception left it. */
    method ProcessMessages(attempts: seq<Attempt>) returns (aborted: bool)
      requires Valid() && ValidAttempts(policy, attempts)
      modifies this`replied, this`store, this`sent
      ensures Valid()
      ensures Pass(Snapshot(), aborted) == Candidates(policy, parseAddr, old(Snapshot()), attempts)
    {
      var i := 0;
      while i < |attempts|
        invariant 0 <= i <= |attempts|
        invariant Valid()
        invariant Candidates(policy, parseAddr, Snapshot(), attempts[i..]) == Candidates(policy, parseAddr, old(Snapshot()), attempts)
      {
        var a := attempts[i];
        assert attempts[i..][0] == a && attempts[i..][1..] == attempts[i + 1..];
        if a.fetched.None? {
          // messages().get raised
          return true;
        }
        var sender := GetSender(a.fetched.value, parseAddr);
        if Skipped(policy, replied, sender) {
          i := i + 1;
          continue;
        }
        var character := policy.personas[a.personaIndex];
        var draft := ChooseBody(a.generated, policy.fallback);
        if !a.sendOk {
          // send_reply raised
          return true;
        }
        var email := Email(sender.value, ReplySubject(OriginalSubject), SignedBody(draft.body, character));
        var row := ReplyRow(sender.value, a.timestamp, RecordedName(character), draft.usedFallback);
        ghost var before := Snapshot();
        RecordKeepsInv(policy, before, email, row);
        LoadAfterSave(store, row);
        sent := sent + [email];
        replied := replied + {sender.value};
        SaveRepliedSender(sender.value, a.timestamp, RecordedName(character), draft.usedFallback);
        assert Snapshot() == Record(before, email, row);
        i := i + 1;
      }
      return false;
    }

    /** The responsive sleep: at most `CHECK_INTERVAL` ticks, stopping at the first that sees the flag. */
    method ResponsiveSleep(signals: seq<bool>) returns (ticks: nat)
      modifies this`shutdownRequested
      ensures SleepResult(ticks, shutdownRequested) == Sleep(checkInterval, old(shutdownRequested), signals)
    {
      ticks := 0;
      while ticks < checkInterval
        invariant ticks <= if checkInterval > 0 then checkInterval else 0
        invariant old(shutdownRequested) ==> ticks == 0 && shutdownRequested
        invariant !old(shutdownRequested) ==> forall k :: 0 <= k < ticks - 1 && k < |signals| ==> !signals[k]
        invariant !old(shutdownRequested) ==>
          (shutdownRequested <==> 0 < ticks && ticks - 1 < |signals| && signals[ticks - 1])
      {
        if shutdownRequested {
          break;
        }
        // time.sleep(1): a signal may arrive during this tick
        if ticks < |signals| && signals[ticks] {
          var _ := GracefulShutdown();
        }
        ticks := ticks + 1;
      }
      assert !old(shutdownRequested) && shutdownRequested ==> FirstSignal(signals) == ticks - 1;
      assert !old(shutdownRequested) && !shutdownRequested ==> FirstSignal(signals) >= ticks || FirstSignal(signals) == |signals|;
    }

    /** One iteration of `while not shutdown_requested`, with its `try`/`except`. */
    method Iterate(input: IterationInput) returns (outcome: Outcome)
      requires Valid() && ValidInput(policy, input)
      modifies this`replied, this`store, this`sent, this`shutdownRequested
      ensures Valid()
      ensures After(Snapshot(), shutdownRequested, outcome) ==
              Iteration(policy, parseAddr, checkInterval, old(Snapshot()), old(shutdownRequested), input)
    {
      var aborted := true;
      if input.listed.Some? {
        aborted := ProcessMessages(input.listed.value);
      }
      if input.signalDuringWork {
        var _ := GracefulShutdown();
      }
      if aborted {
        // logged, then time.sleep(5)
        outcome := Errored;
      } else {
        var ticks := ResponsiveSleep(input.sleepSignals);
        outcome := Slept(ticks);
      }
    }

    /** The `while not shutdown_requested` loop over the iterations the world provides. */
    method Run(inputs: seq<IterationInput>) returns (done: nat)
      requires Valid() && ValidInputs(policy, inputs)
      modifies this`replied, this`store, this`sent, this`shutdownRequested
      ensures Valid()
      ensures RunResult(Snapshot(), shutdownRequested, done) ==
              Runs(policy, parseAddr, checkInterval, old(Snapshot()), old(shutdownRequested), inputs)
      ensures done <= |inputs|
      ensures done < |inputs| ==> shutdownRequested
      ensures old(shutdownRequested) ==> done == 0
      ensures forall k :: 0 <= k < done - 1 ==> !inputs[k].signalDuringWork
      ensures old(replied) <= replied && |old(sent)| <= |sent| && sent[..|old(sent)|] == old(sent)
    {
      done := 0;
      while !shutdownRequested && done < |inputs|
        invariant 0 <= done <= |inputs|
        invariant Valid()
        invariant old(shutdownRequested) ==> done == 0
        invariant forall k :: 0 <= k < done && inputs[k].signalDuringWork ==> shutdownRequested && k == done - 1
        invariant old(replied) <= replied && |old(sent)| <= |sent| && sent[..|old(sent)|] == old(sent)
        invariant var r := Runs(policy, parseAddr, checkInterval, Snapshot(), shutdownRequested, inputs[done..]);
          RunResult(r.state, r.requested, r.done + done) ==
          Runs(policy, parseAddr, checkInterval, old(Snapshot()), old(shutdownRequested), inputs)
      {
        ghost var before := Snapshot();
        RunsStep(policy, parseAddr, checkInterval, before, inputs, done);
        var _ := Iterate(inputs[done]);
        IterationKeepsInv(policy, parseAddr, checkInterval, before, false, inputs[done]);
        done := done + 1;
      }
    }
  }
}
