# Gmail auto-reply bot: reply orchestration

This project models the decision logic of `main.py` in the Gmail auto-reply bot, a polling
daemon. It watches the inbox for unread mail that arrived after it started. For each new sender
it asks a language model to rewrite a fixed message in the voice of a randomly chosen persona,
falls back to the fixed message when the model gives nothing, sends the reply, and records the
sender in `replied_senders.csv`. With `REPLY_ONCE` on, each sender is answered only once, apart
from the two cases listed below (a ledger file that already exists empty, and a send that raises
after delivery).
SIGINT/SIGTERM set a flag that the loop checks at the start of each iteration and at each
one-second tick of its sleep.

Modules (one per concern of `main.py`):

- `Headers`: `get_sender`, as a loop method `GetSender` proved against the function `FirstFrom`.
- `Personas`: persona dicts, the default persona, and the names used in the signature and the ledger.
- `Replies`: the fallback policy (`ChooseBody`), plus the body and subject strings built by `send_reply`,
  each paired with an inverse.
- `Ledger`: the CSV ledger as `Option<seq<seq<string>>>` (`None` = no file), with `load_replied_senders`
  (`Load`) and the file after `save_replied_sender` (`Appended`, `Replay`).
- `Shutdown`: the specification of the responsive sleep (`Sleep`).
- `Orchestration`: the loop as functions (`Handle`, `Candidates`, `Iteration`, `Runs`). It also holds
  the invariant `Inv`: no reply to an empty or own address, at most one reply per sender under
  reply-once, and each reply's row at the end of the file, in send order. Lemmas show every pass
  and iteration keeps it, and so does a restart from a `Durable` file (absent, or holding a row
  before this run's records).
- `Daemon`: class `Bot`, holding the mutable state of `main` (`replied_senders`, the file, the
  outbox, `shutdown_requested`). Its loop methods (`ProcessMessages`, `ResponsiveSleep`, `Iterate`,
  `Run`) are each proved to end in exactly the result of the corresponding `Orchestration` or
  `Shutdown` function.

The outside world is modelled as oracle inputs. These are the headers returned by
`messages().get` (or `None` when it raises), the persona index `random.choice` picks, the
generator's stripped output (`None` on error), whether `messages().send` returns, the row's
timestamp, and which sleep ticks or processing phases a shutdown signal arrives in.

Behaviours of `main.py` worth knowing, all modelled as written:

- A failing `send_reply` (or `messages().get`) raises out of the `for` loop. The rest of that
  iteration's messages are then not processed, and the iteration ends with the 5-second delay,
  not the responsive sleep (`Handle` returns `Abort`, `Candidates` stops; `CandidatesSplit`).
  A failing send ends the whole iteration, not only that candidate.
- A failing message listing also takes the 5-second path (`Errored`) and skips the responsive
  sleep.
- `load_characters` does not skip a malformed persona file; `json.load` raises at start-up.
  This is outside the model (see below).
- An empty generator string counts as a failure (`not ai_reply`), so the fallback is used.
- The ledger file may exist but be empty. The first row appended then carries no header, and
  the next load skips that row as the header, so that sender is forgotten after a restart
  (`EmptyLedgerFileForgetsFirstReply`). Reply-once across restarts is therefore proved for a file
  that is absent or already holds a row (`Durable`, `RestartKeepsInv`).

## Model

| member | source | states |
|---|---|---|
| Headers.GetSender | main.py:90-95 | the header loop returns exactly `FirstFrom`: the parsed value of the first header named `From`, otherwise None |
| Headers.FirstFromIsFirst | main.py:90-95 | if header i is the first whose name lowercases to "from", the result is the parsed value of header i |
| Headers.FirstFromNone | main.py:90-95 | the result is None if and only if no header's name lowercases to "from" |
| Headers.AnyCaseOfFrom | main.py:93 | a header name passes the test if and only if it is "from" in some capitalisation |
| Personas.WithDefault | main.py:165-167 | the persona list is never empty; a non-empty loaded list is used unchanged, an empty one becomes exactly `[DefaultPersona]` |
| Personas.SignatureName | main.py:145 | `character.get('name', 'Automated System')`: the persona's name, or "Automated System" when it has none; pinned by `Handle`'s ensures on the signed body |
| Personas.RecordedName | main.py:201 | `character.get('name')` as the CSV writer stores it: the persona's name, or an empty field when it has none; pinned by `Handle`'s ensures on the ledger row |
| Replies.ChooseBody | main.py:191-195 | fallback is used exactly when the generator result is None or empty; the body is then the fallback message verbatim, otherwise the non-empty generated text |
| Replies.Unsign | main.py:145 | a message it accepts is exactly some body followed by the persona's signature line |
| Replies.SubjectOf | main.py:148 | a subject it accepts is exactly `Re: <subject> - OOO Automated Reply` for the returned subject |
| Replies.SignedBody | main.py:145 | the body followed by the signature line; its inverse is `Unsign` (`SignedBodyRoundTrip`, `SignedBodyInjective`) |
| Replies.ReplySubject | main.py:148 | `Re: <subject> - OOO Automated Reply`; its inverse is `SubjectOf` (`ReplySubjectRoundTrip`) |
| Replies.SignedBodyRoundTrip | main.py:145 | appending the signature keeps the body: it is recovered exactly |
| Replies.ReplySubjectRoundTrip | main.py:148 | the reply subject keeps the original subject: it is recovered exactly |
| Replies.SignedBodyInjective | main.py:145 | distinct bodies give distinct signed messages |
| Ledger.FallbackField | main.py:114 | the `fallback_used` field is "Yes" exactly when the fallback was used, "No" otherwise |
| Ledger.ReplyRow | main.py:110-115 | the row `[sender, timestamp, character name, fallback_used]` written per reply; pinned by `Handle`'s ensures on the ledger row and `SaveRepliedSender`'s ensures on the file |
| Ledger.Load | main.py:97-102 | a missing file, an empty file or a header-only file loads as the empty set |
| Ledger.Appended | main.py:104-115 | the file after one save: the header first only when the file is absent, then the row; pinned by `LoadAfterSave`, `HeaderWrittenOnce`, `ReplayAppends` |
| Ledger.Replay | main.py:104-115 | the file after a sequence of saves in order; pinned by `HeaderWrittenOnce`, `ReplayAppends`, `ReloadFromScratch` |
| Ledger.LoadAfterSave | main.py:97-115 | after a save, the loaded set is the old one plus the sender, except that a file that existed empty loses the row as its header |
| Ledger.HeaderWrittenOnce | main.py:104-115 | saves starting from a missing file write the header exactly once, first, followed by one row per save in order |
| Ledger.ReplayAppends | main.py:104-115 | saves to an existing file append exactly one row each and no header |
| Ledger.ReloadFromScratch | main.py:97-115 | reloading a file written from scratch yields exactly the saved senders |
| Shutdown.FirstSignal | main.py:207-210 | the first tick during which a signal arrives: no earlier tick has one |
| Shutdown.Sleep | main.py:207-210 | at most CHECK_INTERVAL ticks (none when it is not positive); none when the flag is already set; when a signal arrives within the interval, exactly the ticks up to and including the one it arrives in; the full interval when none arrives; the flag ends set exactly when it was or a signal arrived within the interval |
| Orchestration.Handle | main.py:172-201 | a message is skipped exactly when it has no or an empty sender, or reply-once is on and the sender is in the set, or the sender is the bot's own address; an exception (fetch or send) aborts; a reply goes to the sender with subject `Re: Automated Reply - OOO Automated Reply`, the signed fallback or generated body, and a ledger row recording persona and fallback use |
| Orchestration.Skipped | main.py:175 | the skip test: no or empty sender, or reply-once with the sender in the set, or the bot's own address; `Handle` states skipping happens exactly when it holds |
| Orchestration.Record | main.py:200-201 | after a send: sender added to the set and its row appended to the file; `RecordKeepsInv` and `CandidatesGrowSet` state what it keeps |
| Orchestration.Candidates | main.py:172-201 | the set only grows, earlier sends are kept, and every new send goes to a non-empty address other than the bot's own |
| Orchestration.RecordKeepsInv | main.py:197-201 | recording a reply to an addressable, not yet answered sender keeps the invariant |
| Orchestration.CandidatesKeepInv | main.py:172-201 | a pass keeps the invariant: no self-reply, every recipient in the set, at most one reply per sender under reply-once (duplicates within one pass included), each send's row at the end of the file in order |
| Orchestration.CandidatesGrowSet | main.py:200 | the set grows by exactly the addresses replied to in the pass |
| Orchestration.CandidatesSplit | main.py:170-216 | an exception ends the pass: nothing of the later messages happens; otherwise the pass continues from the reached state |
| Orchestration.CandidatesAnswerFreshSenders | main.py:172-201 | when distinct new addressable senders' sends all succeed, nothing aborts and the recipients of the new replies are exactly the messages' senders, in order |
| Orchestration.CandidatesKeepDurable | main.py:197-201 | a file that is absent or holds more rows than this run's replies stays so |
| Orchestration.RecipientsReloaded | main.py:97-102 | on such a file every address replied to is loaded back |
| Orchestration.Restart | main.py:161 | a new process rebuilding the set with `load_replied_senders()`: the file and the record of sends are kept and the set is the loaded one; pinned by `RestartKeepsInv` and `EmptyLedgerFileForgetsFirstReply` |
| Orchestration.RestartKeepsInv | main.py:161 | rebuilding the set from such a file keeps the invariant, so reply-once holds across restarts |
| Orchestration.EmptyLedgerFileForgetsFirstReply | main.py:104-109 | starting from an existing empty file, the first reply is not loaded back, so the same sender is answered again after a restart |
| Orchestration.RepeatsWithoutReplyOnce | main.py:175 | without reply-once, every message is handled exactly as it would be with an empty set of answered senders |
| Orchestration.Iteration | main.py:169-216 | a listing exception or an exception in the pass takes the 5-second path (flag only changed by a signal during the work), otherwise the responsive sleep runs exactly as `Sleep` on the pass's state; the state is the pass's; a signal during the work leaves the flag set and the sleep at zero ticks |
| Orchestration.SignalDoesNotInterruptWork | main.py:172-201 | a signal arriving while messages are processed does not change which replies are sent and recorded |
| Orchestration.IterationKeepsInv | main.py:170-216 | every iteration keeps the invariant and durability of the file |
| Orchestration.Runs | main.py:169-216 | the loop starts no iteration once the flag is set, runs every input otherwise, and starts at most one iteration per input |
| Orchestration.RunsPrefix | main.py:169-216 | a run over a prefix is its first iteration followed by the run over the rest of the prefix |
| Orchestration.RunsStopAtFirstFlag | main.py:169 | the loop stops right after the first iteration that ends with the flag set: the run equals its first `done` iterations and no shorter run ended with the flag set |
| Orchestration.SleepSignalEndsRun | main.py:207-210 | a signal during the sleep of an iteration that completed its pass ends the loop after that iteration |
| Daemon.Bot.constructor | main.py:161-167 | the set is loaded from the file, the persona list is defaulted, the flag is clear and the invariant holds |
| Daemon.Bot.GracefulShutdown | main.py:52-57 | the flag ends set; it changes (and the notice is printed) only when it was clear |
| Daemon.Bot.SaveRepliedSender | main.py:104-115 | the file becomes `Appended` of the old file and the reply row: a header only when the file was absent, then exactly one row whose first field is the sender |
| Daemon.Bot.ProcessMessages | main.py:172-201 | the loop keeps the invariant and ends in exactly the state and abort status of `Candidates` |
| Daemon.Bot.ResponsiveSleep | main.py:207-210 | the tick loop ends with exactly the ticks and flag of `Sleep` |
| Daemon.Bot.Iterate | main.py:170-216 | one iteration ends in exactly the state, flag and outcome of `Iteration` and keeps the invariant |
| Daemon.Bot.Run | main.py:169-216 | the loop ends in exactly the state, flag and iteration count of `Runs`; it stops only when the flag is set or the inputs run out, ends after the iteration in which a signal arrives during work, keeps the invariant, and the set and the outbox only grow |

## Left out

- Gmail OAuth and token refresh (`gmail_authenticate`): external authentication I/O; `my_email` is a constructor parameter.
- Gmail `list`/`get`/`send` calls: oracle inputs (the `is:unread after:` query is filtered by the server, so listed messages are taken as given).
- The OpenAI client, `generate_ai_reply` and the prompt text: a foreign network call; its stripped result is an `Option<string>` input.
- MIME construction, the fixed `From` header and base64 encoding in `send_reply`: library calls; the model keeps recipient, subject and body.
- `email.utils.parseaddr`: a function parameter with no assumed behaviour.
- `str.lower` is modelled on ASCII letters only. No other character lowercases to a letter of "from", so the `From` test is exact.
- `load_characters` and `load_fallback_message` (JSON files, including the exception on a malformed file): filesystem I/O; the loaded personas and fallback message are constructor parameters.
- Persona fields used only in the prompt (`style`, `randomFacts`, `quirks`) are carried but unused. A JSON `null` name is not modelled (absent and present names are).
- CSV quoting and escaping, file existence checks, encodings: the file is a sequence of rows.
- A `messages().send(...).execute()` that raises is taken to have sent nothing (`sendOk == false`, the outbox unchanged). In `main.py` it can raise after Gmail has accepted the message, for example on a response timeout. The sender is then not recorded, and a message that is still unread is listed again on the next poll, so that sender can get a second reply. The at-most-once guarantee (`OncePerSender` in `Inv`) therefore covers only sends that returned normally.
- An exception from `save_replied_sender` after `replied_senders.add` (disk failure): file I/O is assumed to succeed.
- `datetime.now` timestamps: opaque strings in the oracle input.
- `time.sleep`, signal registration, logging, `print` and environment parsing: timing and I/O. `CHECK_INTERVAL` is an integer parameter.
- `print` and `logging` are assumed not to raise. In `main.py` the reply notice can raise (for example an encoding error on the check-mark on a non-UTF-8 console) after the sender is added and saved; that would end the rest of the iteration, whereas the model goes on to the next message.
- The `except KeyboardInterrupt` branch: with the SIGINT handler installed, the signal sets the flag instead.
- Signal-versus-loop concurrency: a signal is an explicit `GracefulShutdown` call between steps. Processing never reads the flag, so only "during the work" versus "during sleep tick k" matters.
- Daemon.Bot.Run: runs over a finite sequence of iteration inputs, so an unbounded run without shutdown appears as running until the inputs are exhausted.
