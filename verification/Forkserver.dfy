/**
 The forkserver loop in the target, against every outcome of fork, waitpid and write. `Event` records what
 the process asks of the kernel and sends over the pipe.
 */
module Forkserver {
  import opened Words
  import opened ForkserverWords

  type Pid = int
  type WaitStatus = nat

  /** WIFSTOPPED */
  predicate Stopped(status: WaitStatus) {
    status % 0x100 == 0x7f
  }

  /** A stop is reported as 0x7f with the signal above it; exits, deaths by a signal and the report of a child that goes
      on are no stops. */
  lemma StoppedStatuses(signal: nat, code: nat, core: bool)
    requires 0 < signal < 0x7f && code < 0x100
    ensures Stopped(signal * 0x100 + 0x7f) && !Stopped(code * 0x100)
    ensures !Stopped(signal + (if core then 0x80 else 0)) && !Stopped(0xffff)
  {
  }

  datatype Event =
    | ReadCommand(word: Word)
    | Reaped(pid: Pid)
    | Forked(pid: Pid)
    | Continued(pid: Pid)
    | SentPid(pid: Pid)
    | Waited(pid: Pid, status: WaitStatus)
    | SentStatus(status: WaitStatus)

  // ----- What a log must satisfy, stated on the log alone -----

  /** Children forked and not yet reaped: a wait reaps unless it reports a stop. */
  function Unreaped(log: seq<Event>): set<Pid> {
    if log == [] then {} else StepUnreaped(Unreaped(log[..|log| - 1]), log[|log| - 1])
  }

  function StepUnreaped(before: set<Pid>, e: Event): set<Pid> {
    match e
    case Forked(pid) => before + {pid}
    case Reaped(pid) => before - {pid}
    case Waited(pid, status) => if Stopped(status) then before else before - {pid}
    case _ => before
  }

  /** The last wait report, forgotten once its child is written off. */
  function LastWait(log: seq<Event>): Option<(Pid, WaitStatus)> {
    if log == [] then None else StepWait(LastWait(log[..|log| - 1]), log[|log| - 1])
  }

  function StepWait(before: Option<(Pid, WaitStatus)>, e: Event): Option<(Pid, WaitStatus)> {
    match e
    case Waited(pid, status) => Some((pid, status))
    case Reaped(pid) => None
    case _ => before
  }

  function LastPid(log: seq<Event>): Option<Pid> {
    if log == [] then None
    else if log[|log| - 1].SentPid? then Some(log[|log| - 1].pid)
    else LastPid(log[..|log| - 1])
  }

  /** The command words taken from the pipe, in order. */
  function Commands(log: seq<Event>): seq<Word> {
    if log == [] then []
    else if log[|log| - 1].ReadCommand? then Commands(log[..|log| - 1]) + [log[|log| - 1].word]
    else Commands(log[..|log| - 1])
  }

  function CountPids(log: seq<Event>): nat {
    if log == [] then 0
    else CountPids(log[..|log| - 1]) + (if log[|log| - 1].SentPid? then 1 else 0)
  }

  function CountStatuses(log: seq<Event>): nat {
    if log == [] then 0
    else CountStatuses(log[..|log| - 1]) + (if log[|log| - 1].SentStatus? then 1 else 0)
  }

  /** The event is proper after `before`: fork only when no child is left, SIGCONT only to the unreaped child
      whose last report was a stop, a status only for the pid announced since the command. */
  ghost predicate Proper(before: seq<Event>, e: Event) {
    match e
    case Forked(pid) => Unreaped(before) == {} && pid > 0
    case Continued(pid) =>
      && Unreaped(before) == {pid}
      && LastWait(before).Some? && LastWait(before).value.0 == pid && Stopped(LastWait(before).value.1)
    case Reaped(pid) => Unreaped(before) == {pid}
    case SentPid(pid) => Unreaped(before) == {pid} && CountPids(before) + 1 == |Commands(before)|
    case Waited(pid, status) =>
      Unreaped(before) == {pid} && LastPid(before) == Some(pid) && CountPids(before) == |Commands(before)|
    case SentStatus(status) =>
      && LastPid(before).Some? && LastWait(before) == Some((LastPid(before).value, status))
      && CountStatuses(before) + 1 == CountPids(before) == |Commands(before)|
    case ReadCommand(word) => CountStatuses(before) == CountPids(before) == |Commands(before)|
  }

  ghost predicate AllProper(log: seq<Event>) {
    log == [] || (AllProper(log[..|log| - 1]) && Proper(log[..|log| - 1], log[|log| - 1]))
  }

  /** Every event of the log is proper after those before it. */
  lemma {:induction false} ProperEverywhere(log: seq<Event>, i: nat)
    requires AllProper(log) && i < |log|
    ensures Proper(log[..i], log[i])
  {
    var n := |log| - 1;
    if i < n {
      ProperEverywhere(log[..n], i);
      assert log[..n][..i] == log[..i];
    }
  }

  /** A child is left from its fork on, until a wait or a write-off reaps it. */
  ghost predicate LeftSince(log: seq<Event>, pid: Pid, j: nat) {
    && j < |log| && log[j] == Forked(pid)
    && forall m :: j < m < |log| ==>
         log[m] != Reaped(pid) && (log[m].Waited? && log[m].pid == pid ==> Stopped(log[m].status))
  }

  lemma {:induction false} UnreapedWasForked(log: seq<Event>, pid: Pid) returns (j: nat)
    requires pid in Unreaped(log)
    ensures LeftSince(log, pid, j)
  {
    var n := |log| - 1;
    if log[n] == Forked(pid) {
      j := n;
    } else {
      j := UnreapedWasForked(log[..n], pid);
      assert forall m :: j < m < n ==> log[m] == log[..n][m];
    }
  }

  /** Whatever is done about a child is done about one that was forked before and has not been reaped since. */
  lemma OnlyItsChildren(log: seq<Event>, i: nat)
    requires AllProper(log) && i < |log|
    requires log[i].Reaped? || log[i].Continued? || log[i].SentPid? || log[i].Waited?
    ensures log[i].pid > 0 && exists j :: LeftSince(log[..i], log[i].pid, j)
  {
    ProperEverywhere(log, i);
    var j := UnreapedWasForked(log[..i], log[i].pid);
    ProperEverywhere(log, j);
  }

  /** There is never more than one unreaped child, and no more messages than commands ask for. */
  lemma {:induction false} AtMostOneChild(log: seq<Event>)
    requires AllProper(log)
    ensures |Unreaped(log)| <= 1
    ensures CountStatuses(log) <= CountPids(log) <= |Commands(log)| <= CountStatuses(log) + 1
  {
    if log != [] {
      AtMostOneChild(log[..|log| - 1]);
    }
  }

  // ----- The server -----

  /** The environment's answers during one round of the loop; a fork result is negative on failure and 0 in
      the child. */
  datatype Round = Round(reapOk: bool, forked: Pid, pidSent: bool, waited: Option<WaitStatus>, statusSent: bool)

  datatype Outcome = Serving | ProcessExit | InChild

  /** How a round starts: a stopped child is reaped if it was killed, and woken otherwise; without one a new child
      is forked. */
  function StartEvents(childStopped: bool, childPid: Pid, command: Word, r: Round): seq<Event> {
    [ReadCommand(command)]
    + (if childStopped && command != 0 then [Reaped(childPid)] else [])
    + (if childStopped && command == 0 then [Continued(childPid)] else [Forked(r.forked)])
  }

  /** How it ends: the child's pid goes out, and the status that the wait for it reports. */
  function EndEvents(pid: Pid, status: WaitStatus): seq<Event> {
    [SentPid(pid), Waited(pid, status), SentStatus(status)]
  }

  /** The round comes to its end: every call it makes succeeds, and this process is not the child. */
  predicate GoesOn(childStopped: bool, command: Word, r: Round) {
    && (childStopped && command != 0 ==> r.reapOk)
    && ((childStopped && command == 0) || r.forked > 0)
    && r.pidSent && r.waited.Some? && r.statusSent
  }

  /** The process that returns from the round is a new child. */
  predicate IsChild(childStopped: bool, command: Word, r: Round) {
    && (childStopped && command != 0 ==> r.reapOk)
    && !(childStopped && command == 0) && r.forked == 0
  }

  /** How many of the words are taken as commands, and whether the last one made a child that leaves the loop to run
      the target. */
  datatype End = End(taken: nat, inChild: bool)

  /** From the k-th word on, all of them are taken, or those up to the first round that does not come to its end. */
  function Course(words: seq<Word>, rounds: nat -> Round, k: nat, childStopped: bool): (e: End)
    requires k <= |words|
    ensures k <= e.taken <= |words| && (e.taken == k ==> k == |words|)
    decreases |words| - k
  {
    if k == |words| then End(k, false)
    else if !GoesOn(childStopped, words[k], rounds(k)) then End(k + 1, IsChild(childStopped, words[k], rounds(k)))
    else Course(words, rounds, k + 1, Stopped(rounds(k).waited.value))
  }

  /** Words are left over only behind a round in which some call failed or the child returned. */
  lemma {:induction false} LeftOver(words: seq<Word>, rounds: nat -> Round, k: nat, childStopped: bool)
    requires k <= |words| && Course(words, rounds, k, childStopped).taken < |words|
    ensures var r := rounds(Course(words, rounds, k, childStopped).taken - 1);
            !r.reapOk || r.forked <= 0 || !r.pidSent || r.waited.None? || !r.statusSent
    decreases |words| - k
  {
    if GoesOn(childStopped, words[k], rounds(k)) {
      LeftOver(words, rounds, k + 1, Stopped(rounds(k).waited.value));
    }
  }

  lemma Joined(log: seq<Event>, a: seq<Event>, b: seq<Event>, c: seq<Event>)
    ensures log + a + b + c == log + (a + b + c)
  {
  }

  function ServedPid(childStopped: bool, childPid: Pid, command: Word, r: Round): Pid {
    if childStopped && command == 0 then childPid else r.forked
  }

  class Server {
    var childStopped: bool
    var childPid: Pid
    ghost var log: seq<Event>

    constructor ()
      ensures Idle() && log == []
    {
      childStopped := false;
      childPid := 0;
      log := [];
    }

    ghost predicate Consistent()
      reads this
    {
      && AllProper(log)
      && Unreaped(log) == (if childStopped then {childPid} else {})
      && (childStopped ==> LastWait(log).Some? && LastWait(log).value.0 == childPid && Stopped(LastWait(log).value.1))
    }

    /** Between two commands. */
    ghost predicate Idle()
      reads this
    {
      Consistent() && CountStatuses(log) == CountPids(log) == |Commands(log)|
    }

    /** A command was read and awaits its pid message. */
    ghost predicate Commanded()
      reads this
    {
      && CountStatuses(log) == CountPids(log) == |Commands(log)| - 1
    }

    /** A child runs. */
    ghost predicate Running()
      reads this
    {
      AllProper(log) && Commanded() && Unreaped(log) == {childPid} && !childStopped
    }

    ghost method Record(e: Event)
      requires AllProper(log) && Proper(log, e)
      modifies this`log
      ensures log == old(log) + [e] && AllProper(log)
      ensures Unreaped(log) == StepUnreaped(old(Unreaped(log)), e)
      ensures LastWait(log) == StepWait(old(LastWait(log)), e)
      ensures LastPid(log) == if e.SentPid? then Some(e.pid) else old(LastPid(log))
      ensures Commands(log) == if e.ReadCommand? then old(Commands(log)) + [e.word] else old(Commands(log))
      ensures CountPids(log) == old(CountPids(log)) + (if e.SentPid? then 1 else 0)
      ensures CountStatuses(log) == old(CountStatuses(log)) + (if e.SentStatus? then 1 else 0)
    {
      log := log + [e];
      assert log[..|log| - 1] == old(log);
    }

    /** A stopped child that the fuzzer has killed meanwhile is reaped and forgotten. */
    method WriteOff(command: Word, r: Round) returns (outcome: Outcome)
      requires Consistent() && Commanded()
      modifies this`childStopped, this`log
      ensures AllProper(log) && Commands(log) == old(Commands(log))
      ensures outcome.Serving? ==> Consistent() && Commanded()
      ensures outcome.Serving? <==> old(childStopped) && command != 0 ==> r.reapOk
      ensures childStopped <==> old(childStopped) && command == 0
      ensures outcome.Serving? ==>
                log == old(log) + (if old(childStopped) && command != 0 then [Reaped(childPid)] else [])
      ensures !outcome.Serving? ==> outcome.ProcessExit?
    {
      if childStopped && command != 0 {
        childStopped := false;
        if !r.reapOk {
          return ProcessExit;
        }
        Record(Reaped(childPid));
        assert Unreaped(log) == {};
      }
      return Serving;
    }

    /** Fork when there is no child, otherwise wake the stopped one. */
    method Launch(r: Round) returns (outcome: Outcome)
      requires Consistent() && Commanded()
      modifies this
      ensures AllProper(log) && Commands(log) == old(Commands(log))
      ensures outcome.Serving? ==> Running()
      ensures outcome.Serving? <==> old(childStopped) || r.forked > 0
      ensures outcome.InChild? <==> !old(childStopped) && r.forked == 0
      ensures outcome.Serving? ==> childPid == if old(childStopped) then old(childPid) else r.forked
      ensures outcome.Serving? ==>
                log == old(log) + (if old(childStopped) then [Continued(childPid)] else [Forked(childPid)])
    {
      if !childStopped {
        childPid := r.forked;
        if childPid < 0 {
          return ProcessExit;
        }
        if childPid == 0 {
          return InChild;
        }
        Record(Forked(childPid));
        assert Unreaped(log) == {childPid};
      } else {
        Record(Continued(childPid));
        childStopped := false;
      }
      return Serving;
    }

    /** Announce the pid and wait for the child. */
    method Await(r: Round) returns (outcome: Outcome)
      requires Running()
      modifies this`log
      ensures AllProper(log) && Commands(log) == old(Commands(log))
      ensures CountStatuses(log) <= CountPids(log) <= |Commands(log)|
      ensures outcome.Serving? <==> r.pidSent && r.waited.Some?
      ensures outcome.Serving? ==>
                && CountStatuses(log) + 1 == CountPids(log) == |Commands(log)|
                && LastPid(log) == Some(childPid) && LastWait(log) == Some((childPid, r.waited.value))
                && Unreaped(log) == (if Stopped(r.waited.value) then {childPid} else {})
                && log == old(log) + [SentPid(childPid), Waited(childPid, r.waited.value)]
      ensures !outcome.Serving? ==> outcome.ProcessExit?
    {
      if !r.pidSent {
        return ProcessExit;
      }
      Record(SentPid(childPid));
      if r.waited.None? {
        return ProcessExit;
      }
      Record(Waited(childPid, r.waited.value));
      return Serving;
    }

    /** Then relay the status. */
    method Report(r: Round) returns (outcome: Outcome)
      requires Running()
      modifies this`log, this`childStopped
      ensures outcome.Serving? ==> Idle()
      ensures AllProper(log) && Commands(log) == old(Commands(log))
      ensures outcome.Serving? <==> r.pidSent && r.waited.Some? && r.statusSent
      ensures outcome.Serving? ==>
                && (childStopped <==> Stopped(r.waited.value))
                && log == old(log) + EndEvents(childPid, r.waited.value)
      ensures !outcome.Serving? ==> outcome.ProcessExit?
    {
      outcome := Await(r);
      if outcome.Serving? {
        var status := r.waited.value;
        if Stopped(status) {
          childStopped := true;
        }
        if !r.statusSent {
          return ProcessExit;
        }
        Record(SentStatus(status));
      }
    }

    /** A round up to the running child. */
    method Begin(command: Word, r: Round) returns (outcome: Outcome)
      requires Idle()
      modifies this
      ensures AllProper(log) && Commands(log) == old(Commands(log)) + [command]
      ensures outcome.Serving? <==>
                && (old(childStopped) && command != 0 ==> r.reapOk)
                && ((old(childStopped) && command == 0) || r.forked > 0)
      ensures outcome.InChild? <==> IsChild(old(childStopped), command, r)
      ensures outcome.Serving? ==>
                && Running()
                && log == old(log) + StartEvents(old(childStopped), old(childPid), command, r)
                && childPid == ServedPid(old(childStopped), old(childPid), command, r)
    {
      ghost var before, stopped, pid := log, childStopped, childPid;
      Record(ReadCommand(command));
      outcome := WriteOff(command, r);
      if outcome.Serving? {
        ghost var reaped := if stopped && command != 0 then [Reaped(pid)] else [];
        ghost var launched := if stopped && command == 0 then [Continued(pid)] else [Forked(r.forked)];
        outcome := Launch(r);
        Joined(before, [ReadCommand(command)], reaped, launched);
        assert StartEvents(stopped, pid, command, r) == [ReadCommand(command)] + reaped + launched;
      }
    }

    /** One round: a command was read. */
    method Serve(command: Word, r: Round) returns (outcome: Outcome)
      requires Idle()
      modifies this
      ensures AllProper(log) && Commands(log) == old(Commands(log)) + [command]
      ensures outcome.Serving? <==> GoesOn(old(childStopped), command, r)
      ensures outcome.InChild? <==> IsChild(old(childStopped), command, r)
      ensures outcome.Serving? ==>
                && Idle()
                && log == old(log) + StartEvents(old(childStopped), old(childPid), command, r)
                                   + EndEvents(childPid, r.waited.value)
                && (childStopped <==> Stopped(r.waited.value))
                && childPid == ServedPid(old(childStopped), old(childPid), command, r)
    {
      outcome := Begin(command, r);
      if outcome.Serving? {
        outcome := Report(r);
      }
    }

    /** One turn of the loop, as far as the loop is concerned. */
    method Turn(command: Word, r: Round) returns (outcome: Outcome)
      requires Idle()
      modifies this
      ensures AllProper(log) && Commands(log) == old(Commands(log)) + [command]
      ensures outcome.Serving? <==> GoesOn(old(childStopped), command, r)
      ensures outcome.InChild? <==> IsChild(old(childStopped), command, r)
      ensures outcome.Serving? ==> Idle() && childStopped == Stopped(r.waited.value)
    {
      outcome := Serve(command, r);
    }

    /** One turn of the loop with its read; k words were taken before it. */
    method ReadAndTurn(pipe: seq<Word>, start: nat, alreadyRead: Option<Word>, rounds: nat -> Round, k: nat,
                       ghost words: seq<Word>)
      returns (pos: nat, outcome: Outcome)
      requires Idle() && start <= |pipe| && k <= |words| && Commands(log) == words[..k]
      requires words[k..] == Replayed(alreadyRead) + pipe[start..]
      modifies this
      ensures start <= pos <= |pipe| && AllProper(log)
      ensures outcome.Serving? ==>
                && Idle() && k < |words| && Commands(log) == words[..k + 1]
                && words[k + 1..] == Replayed(None) + pipe[pos..]
                && Course(words, rounds, k + 1, childStopped) == Course(words, rounds, k, old(childStopped))
      ensures !outcome.Serving? ==>
                var end := Course(words, rounds, k, old(childStopped));
                && Commands(log) == words[..end.taken] && words[end.taken..] == pipe[pos..]
                && (outcome.InChild? <==> end.inChild)
    {
      var command;
      command, pos := Fetch(pipe, start, alreadyRead);
      if command.None? {
        return pos, ProcessExit;
      }
      OneWord(words, k);
      outcome := Turn(command.value, rounds(k));
    }

    /** The loop: each command is the word replayed from the handshake, if any, or the next one of the pipe;
        it ends exactly when the pipe does, when a call fails, or in a child. */
    method Run(pipe: seq<Word>, start: nat, replayed: Option<Word>, rounds: nat -> Round)
      returns (pos: nat, outcome: Outcome)
      requires Idle() && log == [] && start <= |pipe|
      modifies this
      ensures AllProper(log) && |Unreaped(log)| <= 1
      ensures start <= pos <= |pipe| && !outcome.Serving?
      ensures var words := Replayed(replayed) + pipe[start..];
              var end := Course(words, rounds, 0, false);
              && Commands(log) == words[..end.taken] && words[end.taken..] == pipe[pos..]
              && (outcome.InChild? <==> end.inChild)
      ensures CountStatuses(log) <= CountPids(log) <= |Commands(log)| <= CountStatuses(log) + 1
    {
      pos, outcome := start, Serving;
      ghost var words := Replayed(replayed) + pipe[start..];
      ghost var end := Course(words, rounds, 0, false);
      var alreadyRead, k := replayed, 0;
      NoneTaken(words);
      while outcome.Serving?
        invariant start <= pos <= |pipe| && AllProper(log)
        invariant outcome.Serving? ==>
                    && Idle() && 0 <= k <= |words| && Commands(log) == words[..k]
                    && words[k..] == Replayed(alreadyRead) + pipe[pos..]
                    && Course(words, rounds, k, childStopped) == end
        invariant !outcome.Serving? ==>
                    && Commands(log) == words[..end.taken] && words[end.taken..] == pipe[pos..]
                    && (outcome.InChild? <==> end.inChild)
        decreases outcome.Serving?, |words| - k
      {
        pos, outcome := ReadAndTurn(pipe, pos, alreadyRead, rounds, k, words);
        alreadyRead, k := None, k + 1;
      }
      AtMostOneChild(log);
    }
  }

  lemma NoneTaken(words: seq<Word>)
    ensures words[..0] == [] && words[0..] == words
  {
  }

  lemma OneWord(words: seq<Word>, k: nat)
    requires k < |words|
    ensures words[k..][0] == words[k] && words[k..][1..] == words[k + 1..] && words[..k + 1] == words[..k] + [words[k]]
  {
  }

  /** The next command: the replayed word, or one of the pipe. */
  method Fetch(pipe: seq<Word>, start: nat, alreadyRead: Option<Word>) returns (command: Option<Word>, pos: nat)
    requires start <= |pipe|
    ensures start <= pos <= |pipe|
    ensures var left := Replayed(alreadyRead) + pipe[start..];
            && (command.None? <==> left == [])
            && (command.Some? ==> command.value == left[0] && pipe[pos..] == left[1..])
  {
    command, pos := alreadyRead, start;
    if command.None? && pos < |pipe| {
      command := Some(pipe[pos]);
      pos := pos + 1;
    }
  }

  /** The word that the handshake hands on. */
  function Replayed(word: Option<Word>): seq<Word> {
    if word.Some? then [word.value] else []
  }

  // ----- The handshake before the loop -----

  datatype Message = Hello(word: Word) | DictionaryLength(len: nat) | DictionaryBytes(bytes: seq<u8>)

  function DictionarySent(sent: seq<Message>): seq<u8> {
    if sent == [] then []
    else
      DictionarySent(sent[..|sent| - 1])
      + (if sent[|sent| - 1].DictionaryBytes? then sent[|sent| - 1].bytes else [])
  }

  function LengthsSent(sent: seq<Message>): seq<nat> {
    if sent == [] then []
    else
      LengthsSent(sent[..|sent| - 1])
      + (if sent[|sent| - 1].DictionaryLength? then [sent[|sent| - 1].len] else [])
  }

  /** The environment's answers; `writes(k)` is what the k-th write of dictionary bytes returns. */
  datatype Peer = Peer(helloOk: bool, shmOk: bool, lengthOk: bool, writes: nat -> int)

  datatype Handshake = NotConnected | Failed | Ready(pos: nat, replayed: Option<Word>)

  class Runtime {
    const mapSize: Word
    const sharedMemory: bool
    const dictionary: seq<u8>
    var fuzzMapped: bool
    ghost var sent: seq<Message>

    constructor (mapSize: Word, sharedMemory: bool, dictionary: seq<u8>)
      ensures this.mapSize == mapSize && this.sharedMemory == sharedMemory && this.dictionary == dictionary
      ensures !fuzzMapped && sent == []
    {
      this.mapSize, this.sharedMemory, this.dictionary := mapSize, sharedMemory, dictionary;
      fuzzMapped := false;
      sent := [];
    }

    ghost method Record(m: Message)
      modifies this`sent
      ensures sent == old(sent) + [m]
      ensures DictionarySent(sent) == old(DictionarySent(sent)) + (if m.DictionaryBytes? then m.bytes else [])
      ensures LengthsSent(sent) == old(LengthsSent(sent)) + (if m.DictionaryLength? then [m.len] else [])
    {
      sent := sent + [m];
      assert sent[..|sent| - 1] == old(sent);
    }

    predicate WantsDictionary(reply: Word) {
      Has(reply, FS_OPT_ENABLED | FS_OPT_AUTODICT) && dictionary != []
    }

    predicate WantsSharedMemory(reply: Word) {
      Has(reply, FS_OPT_ENABLED | FS_OPT_SHDMEM_FUZZ)
    }

    /** Whether the first word of the pipe is taken as the answer to the greeting, and used up. */
    predicate UsesReply(reply: Word) {
      (sharedMemory || dictionary != []) && (WantsDictionary(reply) || WantsSharedMemory(reply))
    }

    /** The words of the pipe that are left for commands. */
    function CommandWords(pipe: seq<Word>): seq<Word> {
      if pipe != [] && UsesReply(pipe[0]) then pipe[1..] else pipe
    }

    /** One of the calls that the handshake makes after its greeting fails. */
    ghost predicate CallFails(pipe: seq<Word>, peer: Peer) {
      && (sharedMemory || dictionary != [])
      && (|| pipe == []
          || (WantsSharedMemory(pipe[0]) && !peer.shmOk)
          || (WantsDictionary(pipe[0]) && (!peer.lengthOk || exists k :: peer.writes(k) < 1)))
    }

    /** The dictionary loop: short writes are continued, an error ends the process. */
    method SendDictionary(peer: Peer) returns (ok: bool)
      modifies this`sent
      ensures old(sent) <= sent && LengthsSent(sent) == old(LengthsSent(sent))
      ensures DictionarySent(sent) <= old(DictionarySent(sent)) + dictionary
      ensures ok ==> DictionarySent(sent) == old(DictionarySent(sent)) + dictionary
      ensures !ok ==> exists k :: peer.writes(k) < 1
    {
      var len, offset, k := |dictionary|, 0, 0;
      while len != 0
        invariant 0 <= len && len + offset == |dictionary|
        invariant old(sent) <= sent && LengthsSent(sent) == old(LengthsSent(sent))
        invariant DictionarySent(sent) == old(DictionarySent(sent)) + dictionary[..offset]
        decreases len
      {
        var ret := if peer.writes(k) > len then len else peer.writes(k);
        if ret < 1 {
          return false;
        }
        Record(DictionaryBytes(dictionary[offset..offset + ret]));
        assert dictionary[..offset + ret] == dictionary[..offset] + dictionary[offset..offset + ret];
        len, offset, k := len - ret, offset + ret, k + 1;
      }
      assert dictionary[..offset] == dictionary;
      return true;
    }

    /** The tests of the reply. */
    method ReadOptions(reply: Word) returns (wantsSharedMemory: bool, wantsDictionary: bool)
      ensures wantsSharedMemory == WantsSharedMemory(reply) && wantsDictionary == WantsDictionary(reply)
    {
      wantsSharedMemory := reply & (FS_OPT_ENABLED | FS_OPT_SHDMEM_FUZZ) == FS_OPT_ENABLED | FS_OPT_SHDMEM_FUZZ;
      wantsDictionary :=
        reply & (FS_OPT_ENABLED | FS_OPT_AUTODICT) == FS_OPT_ENABLED | FS_OPT_AUTODICT && |dictionary| != 0;
    }

    /** What a reply made of the options asks for. */
    lemma ReplyAsks(shm: bool, dict: bool)
      ensures WantsSharedMemory(ReplyWord(shm, dict)) <==> shm
      ensures WantsDictionary(ReplyWord(shm, dict)) <==> dict && dictionary != []
    {
    }

    /** __afl_start_forkserver up to its loop, against a pipe holding the given words. */
    method Greet(pipe: seq<Word>, peer: Peer) returns (r: Handshake)
      requires sent == [] && !fuzzMapped
      modifies this
      ensures sent != [] ==> sent[0] == Hello(HelloWord(mapSize, dictionary != [], sharedMemory))
      ensures r.Ready? ==> r.pos <= |pipe| && r.pos <= 1
      ensures r.Ready? ==>
                Replayed(r.replayed) + pipe[r.pos..] == CommandWords(pipe)
      ensures r.Ready? && pipe != [] && (sharedMemory || dictionary != []) && WantsDictionary(pipe[0]) ==>
                LengthsSent(sent) == [|dictionary|] && DictionarySent(sent) == dictionary
      ensures r.NotConnected? <==> !peer.helloOk
      ensures r.Failed? ==> CallFails(pipe, peer)
      ensures r.Ready? && (sharedMemory || dictionary != []) ==>
                pipe != [] && (fuzzMapped <==> WantsSharedMemory(pipe[0]))
      ensures LengthsSent(sent) == [] ==> DictionarySent(sent) == []
      ensures LengthsSent(sent) != [] ==>
                pipe != [] && WantsDictionary(pipe[0]) && LengthsSent(sent) == [|dictionary|]
                && DictionarySent(sent) <= dictionary
    {
      if !peer.helloOk {
        return NotConnected;
      }
      Record(Hello(HelloWord(mapSize, dictionary != [], sharedMemory)));
      if !(sharedMemory || dictionary != []) {
        return Ready(0, None);
      }
      if pipe == [] {
        return Failed;
      }
      var reply := pipe[0];
      var wantsSharedMemory, wantsDictionary := ReadOptions(reply);
      if wantsSharedMemory {
        if !peer.shmOk {
          return Failed;
        }
        fuzzMapped := true;
      }
      if wantsDictionary {
        if !peer.lengthOk {
          return Failed;
        }
        Record(DictionaryLength(|dictionary|));
        var ok := SendDictionary(peer);
        return if ok then Ready(1, None) else Failed;
      }
      assert pipe == [reply] + pipe[1..];
      return Ready(1, if fuzzMapped then None else Some(reply));
    }
  }

  /** A greeting answered with a choice of options: the test-case memory is mapped exactly if asked for, the dictionary
      is sent exactly if asked for and there is one, and the answer is used up unless it asks for nothing. */
  method GreetWithReply(rt: Runtime, shm: bool, dict: bool, rest: seq<Word>, peer: Peer) returns (r: Handshake)
    requires rt.sent == [] && !rt.fuzzMapped && (rt.sharedMemory || rt.dictionary != [])
    modifies rt
    ensures r.Ready? ==>
              && (rt.fuzzMapped <==> shm)
              && LengthsSent(rt.sent) == (if dict && rt.dictionary != [] then [|rt.dictionary|] else [])
              && DictionarySent(rt.sent) == (if dict then rt.dictionary else [])
              && r.pos <= 1 && Replayed(r.replayed) + ([ReplyWord(shm, dict)] + rest)[r.pos..]
                 == if shm || (dict && rt.dictionary != []) then rest else [ReplyWord(shm, dict)] + rest
  {
    rt.ReplyAsks(shm, dict);
    var pipe := [ReplyWord(shm, dict)] + rest;
    assert pipe[1..] == rest;
    r := rt.Greet(pipe, peer);
  }

  /** A whole session: greeting, then the loop on the rest of the pipe. The words of the pipe are used in order and
      once, the first as the answer to the greeting or as a command, all others as commands, until the pipe ends or
      a round does not come to its end. */
  method Session(rt: Runtime, pipe: seq<Word>, peer: Peer, rounds: nat -> Round)
    returns (server: Server, served: bool)
    requires rt.sent == [] && !rt.fuzzMapped
    modifies rt
    ensures fresh(server) && AllProper(server.log) && |Unreaped(server.log)| <= 1
    ensures served ==>
              var words := rt.CommandWords(pipe);
              Commands(server.log) == words[..Course(words, rounds, 0, false).taken]
    ensures !served ==> server.log == [] && (!peer.helloOk || rt.CallFails(pipe, peer))
  {
    server := new Server();
    var greeting := rt.Greet(pipe, peer);
    served := greeting.Ready?;
    if served {
      var pos, outcome := server.Run(pipe, greeting.pos, greeting.replayed, rounds);
    }
  }
}
