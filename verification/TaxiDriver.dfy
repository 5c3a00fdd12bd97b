/** The driver process of the taxi control (driver_loop in main.c): a timer and a request/response protocol. */
module TaxiDriver {
  import opened Words
  import opened Decimal

  /** Times are in nanoseconds. */
  const SECOND := 1_000_000_000
  const MAX_TASK := 86400
  const LONG_MAX := 0x7FFF_FFFF_FFFF_FFFF

  // Reading a command.

  /** "QUIT", "STATUS", "TASK" */
  const QUIT: seq<Byte> := [81, 85, 73, 84]
  const STATUS: seq<Byte> := [83, 84, 65, 84, 85, 83]
  const TASK: seq<Byte> := [84, 65, 83, 75]
  const MINUS: Byte := 45
  const PLUS: Byte := 43

  predicate IsSpace(c: Byte) {
    c == SPACE || 9 <= c <= 13
  }

  function SkipSpaces(s: seq<Byte>): seq<Byte> {
    if s != [] && IsSpace(s[0]) then SkipSpaces(s[1..]) else s
  }

  function LeadingDigits(s: seq<Byte>): (d: seq<Byte>)
    ensures AllDigits(d) && d <= s
  {
    if s != [] && IsDigit(s[0]) then [s[0]] + LeadingDigits(s[1..]) else []
  }

  /** strtol in base 10; None if there is no number. A number out of range comes out as the nearest long. */
  function Strtol(s: seq<Byte>): Option<int> {
    var p := SkipSpaces(s);
    var signed := p != [] && (p[0] == MINUS || p[0] == PLUS);
    var d := LeadingDigits(if signed then p[1..] else p);
    if d == [] then None
    else
      var v: int := Value(d);
      if signed && p[0] == MINUS then Some(if v > LONG_MAX + 1 then -LONG_MAX - 1 else -v)
      else Some(if v > LONG_MAX then LONG_MAX else v)
  }

  datatype Command = Quit | Status | Task(seconds: Option<int>) | Unknown

  /** The command in a datagram, read as a C string. */
  function Decode(msg: seq<Byte>): Command {
    var text := CStr(msg);
    if QUIT <= text then Quit
    else if STATUS <= text then Status
    else if TASK <= text then Task(Strtol(SkipSpaces(text[|TASK|..])))
    else Unknown
  }

  /** The chain of comparisons of driver_loop, with its loop over the white space before the number. */
  method ReadCommand(msg: seq<Byte>) returns (c: Command)
    ensures c == Decode(msg)
  {
    var text := CStr(msg);
    if QUIT <= text {
      return Quit;
    }
    if STATUS <= text {
      return Status;
    }
    if !(TASK <= text) {
      return Unknown;
    }
    var p := |TASK|;
    while p < |text| && IsSpace(text[p])
      invariant |TASK| <= p <= |text| && SkipSpaces(text[p..]) == SkipSpaces(text[|TASK|..])
    {
      p := p + 1;
    }
    assert SkipSpaces(text[p..]) == text[p..];
    return Task(Strtol(text[p..]));
  }

  /** What the dispatcher sends for send_task: "TASK %d". */
  function TaskText(t: int): seq<Byte> {
    TASK + [SPACE] + if t < 0 then [MINUS] + Digits(-t) else Digits(t)
  }

  // The driver.

  datatype Reply = Bye | Available | Busy(seconds: int) | OK | BadTimer | UnknownCommand

  /** The local state of driver_loop: its flag, the deadline its timer is armed for, whether it still runs. */
  datatype State = State(busy: bool, timer: Option<int>, running: bool)

  /** What recv gives. */
  datatype Input = Nothing | Again | Failed | Closed | Datagram(bytes: seq<Byte>)

  /** One turn of the loop: when poll returned, when the driver acts on it, and what was there. */
  datatype Turn = Turn(polled: int, acted: int, hangup: bool, input: Input)

  /** timer_remaining_secs: rounded up, 0 once the timer has expired. */
  function Remaining(timer: Option<int>, now: int): int {
    if timer.None? || timer.value <= now then 0 else
    var left := timer.value - now;
    left / SECOND + if left % SECOND != 0 then 1 else 0
  }

  /** The timer event comes first: an expiry seen by poll ends the job in hand. */
  function AfterTimer(s: State, t: Turn): State {
    if s.timer.Some? && s.timer.value <= t.polled then s.(busy := false, timer := None) else s
  }

  function Respond(s: State, now: int, c: Command): (State, Reply) {
    match c
    case Quit => (s.(running := false), Bye)
    case Status => (s, if s.busy then Busy(Remaining(s.timer, now)) else Available)
    case Task(seconds) =>
      if seconds.None? || seconds.value <= 0 || seconds.value > MAX_TASK then (s, BadTimer)
      else if s.busy then (s, Busy(Remaining(s.timer, now)))
      else (s.(busy := true, timer := Some(now + seconds.value * SECOND)), OK)
    case Unknown => (s, UnknownCommand)
  }

  /** The datagram a turn reads, if it gets that far. */
  function Heard(s: State, t: Turn): Option<seq<Byte>> {
    if s.running && !t.hangup && t.input.Datagram? then Some(t.input.bytes) else None
  }

  function Step(s: State, t: Turn): (State, Option<Reply>) {
    if !s.running then (s, None) else
    var s := AfterTimer(s, t);
    if t.hangup || t.input.Failed? || t.input.Closed? then (s.(running := false), None)
    else if t.input.Datagram? then
      var (s', r) := Respond(s, t.acted, Decode(t.input.bytes));
      (s', Some(r))
    else (s, None)
  }

  const START := State(false, None, true)

  class Driver {
    var busy: bool
    var timer: Option<int>
    var running: bool

    function Now(): State
      reads this
    {
      State(busy, timer, running)
    }

    constructor ()
      ensures Now() == START
    {
      busy, timer, running := false, None, true;
    }

    /** The body of the loop. */
    method Take(t: Turn) returns (reply: Option<Reply>)
      requires running
      modifies this
      ensures (Now(), reply) == Step(old(Now()), t)
    {
      reply := None;
      if timer.Some? && timer.value <= t.polled {
        busy := false;
        timer := None;
      }
      if t.hangup {
        running := false;
        return;
      }
      match t.input
      case Nothing =>
      case Again =>
      case Failed => running := false;
      case Closed => running := false;
      case Datagram(msg) =>
        var c := ReadCommand(msg);
        reply := Answer(t.acted, c);
    }

    method Answer(now: int, c: Command) returns (reply: Option<Reply>)
      modifies this
      ensures reply.Some? && (Now(), reply.value) == Respond(old(Now()), now, c)
    {
      match c
      case Quit =>
        running := false;
        return Some(Bye);
      case Status =>
        if busy {
          return Some(Busy(Remaining(timer, now)));
        }
        return Some(Available);
      case Task(seconds) =>
        if seconds.None? || seconds.value <= 0 || seconds.value > MAX_TASK {
          return Some(BadTimer);
        }
        if busy {
          return Some(Busy(Remaining(timer, now)));
        }
        busy := true;
        timer := Some(now + seconds.value * SECOND);
        return Some(OK);
      case Unknown =>
        return Some(UnknownCommand);
    }

    /** driver_loop over the turns of a run. */
    method Loop(turns: seq<Turn>) returns (replies: seq<Reply>)
      requires Now() == START
      modifies this
      ensures Now() == Exec(turns).state
      ensures |replies| == |Exec(turns).sent| && forall i :: 0 <= i < |replies| ==> replies[i] == Exec(turns).sent[i].reply
    {
      replies := [];
      for i := 0 to |turns|
        invariant Now() == Exec(turns[..i]).state
        invariant |replies| == |Exec(turns[..i]).sent|
        invariant forall k :: 0 <= k < |replies| ==> replies[k] == Exec(turns[..i]).sent[k].reply
      {
        assert turns[..i + 1][..i] == turns[..i];
        if running {
          var r := Take(turns[i]);
          if r.Some? {
            replies := replies + [r.value];
          }
        }
      }
      assert turns[..|turns|] == turns;
    }
  }

  // Whole runs.

  datatype Sent = Sent(at: int, command: Command, reply: Reply)

  datatype History = History(state: State, sent: seq<Sent>)

  function Extend(h: History, t: Turn): History {
    var (s, r) := Step(h.state, t);
    History(s, if r.Some? && t.input.Datagram? then h.sent + [Sent(t.acted, Decode(t.input.bytes), r.value)] else h.sent)
  }

  function Exec(turns: seq<Turn>): History {
    if turns == [] then History(START, []) else Extend(Exec(turns[..|turns| - 1]), turns[|turns| - 1])
  }

  /** Time does not run backwards. */
  ghost predicate InOrder(turns: seq<Turn>) {
    && (forall i :: 0 <= i < |turns| ==> turns[i].polled <= turns[i].acted)
    && (forall i :: 0 < i < |turns| ==> turns[i - 1].acted <= turns[i].polled)
  }

  /** When the job an OK was sent for is over. */
  function TaskEnd(x: Sent): int {
    x.at + if x.command.Task? && x.command.seconds.Some? then x.command.seconds.value * SECOND else 0
  }

  ghost predicate Consistent(h: History, now: int) {
    && (h.state.busy <==> h.state.timer.Some?)
    && (h.state.timer.Some? ==> h.state.timer.value <= now + MAX_TASK * SECOND)
    && (forall i :: 0 <= i < |h.sent| && h.sent[i].reply.OK? ==>
          TaskEnd(h.sent[i]) <= now || h.state.timer == Some(TaskEnd(h.sent[i])))
  }

  lemma RespondConsistent(s: State, now: int, c: Command)
    requires s.busy <==> s.timer.Some?
    requires s.timer.Some? ==> s.timer.value <= now + MAX_TASK * SECOND
    ensures var (s', r) := Respond(s, now, c);
      && (s'.busy <==> s'.timer.Some?) && (s'.timer.Some? ==> s'.timer.value <= now + MAX_TASK * SECOND)
      && (if r.OK? then !s.busy && s'.timer == Some(TaskEnd(Sent(now, c, r))) else s'.timer == s.timer)
  {
  }

  lemma ExtendKeeps(h: History, t: Turn, now: int)
    requires Consistent(h, t.polled) && t.polled <= t.acted <= now
    ensures Consistent(Extend(h, t), now)
  {
    hide Decode, Respond, TaskEnd;
    if h.state.running && t.input.Datagram? {
      RespondConsistent(AfterTimer(h.state, t), t.acted, Decode(t.input.bytes));
    }
  }

  lemma {:induction false} AlwaysConsistent(turns: seq<Turn>, now: int)
    requires InOrder(turns) && (turns != [] ==> turns[|turns| - 1].acted <= now)
    ensures Consistent(Exec(turns), now)
  {
    hide Extend, Consistent;
    if turns == [] {
      StartConsistent(now);
    } else {
      var n := |turns| - 1;
      AlwaysConsistent(turns[..n], turns[n].polled);
      ExtendKeeps(Exec(turns[..n]), turns[n], now);
    }
  }

  lemma StartConsistent(now: int)
    ensures Consistent(History(START, []), now)
  {
  }

  /** In any run a driver that is not busy has its timer disarmed, so that no expiry is left unread,
      and a busy one has it armed. */
  lemma IdleIffDisarmed(turns: seq<Turn>)
    requires InOrder(turns)
    ensures Exec(turns).state.busy <==> Exec(turns).state.timer.Some?
  {
    AlwaysConsistent(turns, if turns == [] then 0 else turns[|turns| - 1].acted);
  }

  /** After OK to a task of s seconds, neither Available nor another OK is sent before the s seconds are over. */
  lemma {:induction false} NoEarlyAvailable(turns: seq<Turn>, a: nat, b: nat)
    requires InOrder(turns) && a < b < |Exec(turns).sent|
    requires Exec(turns).sent[a].reply.OK?
    requires Exec(turns).sent[b].reply.Available? || Exec(turns).sent[b].reply.OK?
    ensures var sent := Exec(turns).sent;
      sent[a].command.Task? && sent[a].command.seconds.Some? && 0 < sent[a].command.seconds.value <= MAX_TASK &&
      sent[b].at >= sent[a].at + sent[a].command.seconds.value * SECOND
  {
    var before := turns[..|turns| - 1];
    OkMeansTask(turns, a);
    if b < |Exec(before).sent| {
      NoEarlyAvailable(before, a, b);
    } else {
      AlwaysConsistent(before, turns[|turns| - 1].polled);
    }
  }

  lemma {:induction false} OkMeansTask(turns: seq<Turn>, a: nat)
    requires a < |Exec(turns).sent| && Exec(turns).sent[a].reply.OK?
    ensures var c := Exec(turns).sent[a].command;
      c.Task? && c.seconds.Some? && 0 < c.seconds.value <= MAX_TASK
  {
    if a < |Exec(turns[..|turns| - 1]).sent| {
      OkMeansTask(turns[..|turns| - 1], a);
    }
  }

  /** The timer is armed for the end of a task that was accepted. */
  ghost predicate TimerHasTask(h: History) {
    h.state.timer.Some? ==>
      exists a :: 0 <= a < |h.sent| && h.sent[a].reply.OK? && h.state.timer.value == TaskEnd(h.sent[a])
  }

  lemma TimerHasTaskNext(h: History, t: Turn)
    requires (h.state.busy <==> h.state.timer.Some?) && TimerHasTask(h)
    requires h.state.timer.Some? ==> h.state.timer.value <= t.polled + MAX_TASK * SECOND && t.polled <= t.acted
    ensures TimerHasTask(Extend(h, t))
  {
    hide Decode, Respond, TaskEnd;
    var h' := Extend(h, t);
    if h.state.running && t.input.Datagram? {
      RespondConsistent(AfterTimer(h.state, t), t.acted, Decode(t.input.bytes));
    }
    if h'.state.timer.Some? {
      if h'.state.timer == h.state.timer {
        var a :| 0 <= a < |h.sent| && h.sent[a].reply.OK? && h.state.timer.value == TaskEnd(h.sent[a]);
        assert h'.sent[a] == h.sent[a];
      } else {
        assert h'.sent[|h.sent|].reply.OK? && h'.state.timer.value == TaskEnd(h'.sent[|h.sent|]);
      }
    }
  }

  lemma {:induction false} TimerAlwaysHasTask(turns: seq<Turn>)
    requires InOrder(turns)
    ensures TimerHasTask(Exec(turns))
  {
    if turns != [] {
      hide Extend, TimerHasTask;
      var n := |turns| - 1;
      TimerAlwaysHasTask(turns[..n]);
      AlwaysConsistent(turns[..n], turns[n].polled);
      TimerHasTaskNext(Exec(turns[..n]), turns[n]);
    } else {
      assert Exec(turns).state.timer.None?;
    }
  }

  /** Every task accepted is over at a time. */
  ghost predicate AllOver(sent: seq<Sent>, now: int) {
    forall a :: 0 <= a < |sent| && sent[a].reply.OK? ==> TaskEnd(sent[a]) <= now
  }

  lemma BusyIffTask(h: History, t: Turn)
    requires Consistent(h, t.polled) && TimerHasTask(h)
    ensures AfterTimer(h.state, t).busy <==> !AllOver(h.sent, t.polled)
    ensures AfterTimer(h.state, t).busy <==> AfterTimer(h.state, t).timer.Some?
  {
    hide TaskEnd;
  }

  lemma RunPrefix(turns: seq<Turn>, t: Turn)
    requires InOrder(turns + [t])
    ensures InOrder(turns) && t.polled <= t.acted
    ensures Consistent(Exec(turns), t.polled) && TimerHasTask(Exec(turns))
  {
    hide Consistent, TimerHasTask, Exec;
    assert forall i :: 0 <= i < |turns| ==> turns[i] == (turns + [t])[i];
    assert (turns + [t])[|turns|] == t;
    AlwaysConsistent(turns, t.polled);
    TimerAlwaysHasTask(turns);
  }

  /** The kind of reply a command gets, by whether every task accepted is over. */
  predicate Fits(c: Command, free: bool, r: Reply) {
    match c
    case Quit => r.Bye?
    case Status => if free then r.Available? else r.Busy?
    case Task(seconds) =>
      if seconds.None? || !(0 < seconds.value <= 86400) then r.BadTimer?
      else if free then r.OK? else r.Busy?
    case Unknown => r.UnknownCommand?
  }

  /** In every run, what the driver replies is settled by the command and by whether every task it has accepted is over
      when poll returns: it is Available, or takes a valid task, if they all are, and Busy if one is not. */
  lemma ReplyByTasks(turns: seq<Turn>, t: Turn)
    requires InOrder(turns + [t]) && Heard(Exec(turns).state, t).Some?
    ensures var r := Step(Exec(turns).state, t).1;
      r.Some? && Fits(Decode(t.input.bytes), AllOver(Exec(turns).sent, t.polled), r.value)
  {
    hide Consistent, TimerHasTask, AllOver, Decode, AfterTimer, Remaining, Exec;
    RunPrefix(turns, t);
    BusyIffTask(Exec(turns), t);
  }

  /** What Busy n says of the end of the task in hand. */
  ghost predicate Rounds(n: int, end: int, now: int) {
    && 0 <= n <= MAX_TASK && (n == 0 <==> end <= now)
    && (n > 0 ==> (n - 1) * SECOND < end - now <= n * SECOND)
  }

  /** Every Busy n says how many seconds, rounded up, are left of a task that was accepted and is not over when poll
      returns, at most a day; 0 when it ended between poll and the answer. */
  lemma BusyIsRemaining(turns: seq<Turn>, t: Turn)
    requires InOrder(turns + [t])
    requires Step(Exec(turns).state, t).1.Some? && Step(Exec(turns).state, t).1.value.Busy?
    ensures var sent, n := Exec(turns).sent, Step(Exec(turns).state, t).1.value.seconds;
      exists a :: 0 <= a < |sent| && sent[a].reply.OK? && TaskEnd(sent[a]) > t.polled &&
                  Rounds(n, TaskEnd(sent[a]), t.acted)
  {
    hide Exec, Decode, Remaining, TaskEnd;
    var h := Exec(turns);
    RunPrefix(turns, t);
    BusyMeans(h, t);
    RoundedUp(h.state.timer, t.acted);
  }

  lemma BusyMeans(h: History, t: Turn)
    requires Consistent(h, t.polled) && t.polled <= t.acted
    requires Step(h.state, t).1.Some? && Step(h.state, t).1.value.Busy?
    ensures h.state.timer.Some? && t.polled < h.state.timer.value <= t.acted + MAX_TASK * SECOND
    ensures Step(h.state, t).1.value.seconds == Remaining(h.state.timer, t.acted)
  {
    hide Decode, Remaining;
  }

  lemma RoundedUp(timer: Option<int>, now: int)
    ensures var n := Remaining(timer, now);
      && n >= 0 && (timer.Some? && timer.value <= now ==> n == 0)
      && (timer.Some? && timer.value > now ==> n > 0 && (n - 1) * SECOND < timer.value - now <= n * SECOND)
  {
  }

  /** The datagram read in turn n, if there is one. */
  function HeardAt(turns: seq<Turn>, n: nat): Option<seq<Byte>> {
    if n < |turns| then Heard(Exec(turns[..n]).state, turns[n]) else None
  }

  /** The numbers of the turns in which the driver reads a datagram. */
  function Hearing(turns: seq<Turn>): seq<nat> {
    if turns == [] then [] else
    var n := |turns| - 1;
    Hearing(turns[..n]) + if HeardAt(turns, n).Some? then [n] else []
  }

  /** The reply is the one that the state before turn n, once the timer has been seen to, owes to its datagram. */
  ghost predicate Answers(turns: seq<Turn>, n: nat, x: Sent) {
    && HeardAt(turns, n).Some? && x.at == turns[n].acted && x.command == Decode(HeardAt(turns, n).value)
    && x.reply == Respond(AfterTimer(Exec(turns[..n]).state, turns[n]), turns[n].acted, Decode(HeardAt(turns, n).value)).1
  }

  lemma EarlierTurn(turns: seq<Turn>, n: nat)
    requires n < |turns| - 1
    ensures HeardAt(turns[..|turns| - 1], n) == HeardAt(turns, n)
    ensures forall x :: Answers(turns[..|turns| - 1], n, x) == Answers(turns, n, x)
  {
    hide Exec, Heard, Respond, AfterTimer, Decode;
    assert turns[..|turns| - 1][..n] == turns[..n] && turns[..|turns| - 1][n] == turns[n];
  }

  /** The last turn adds a reply exactly if it reads a datagram. */
  lemma LastTurn(turns: seq<Turn>)
    requires turns != []
    ensures var n := |turns| - 1;
      var before, sent := Exec(turns[..n]).sent, Exec(turns).sent;
      if HeardAt(turns, n).Some? then
        |sent| == |before| + 1 && sent[..|before|] == before && Answers(turns, n, sent[|before|])
      else sent == before
  {
    hide Decode, Respond, AfterTimer;
  }

  /** The turns listed are all those that read a datagram, in order. */
  lemma {:induction false} HearingIs(turns: seq<Turn>)
    ensures forall n :: n in Hearing(turns) <==> 0 <= n < |turns| && HeardAt(turns, n).Some?
    ensures forall i, j :: 0 <= i < j < |Hearing(turns)| ==> Hearing(turns)[i] < Hearing(turns)[j]
  {
    if turns != [] {
      hide HeardAt;
      HearingIs(turns[..|turns| - 1]);
      forall n: nat | n < |turns| - 1
        ensures HeardAt(turns[..|turns| - 1], n) == HeardAt(turns, n)
      {
        EarlierTurn(turns, n);
      }
      var before := Hearing(turns[..|turns| - 1]);
      forall i | 0 <= i < |before|
        ensures before[i] < |turns| - 1
      {
        assert before[i] in before;
      }
    }
  }

  /** Replies pair one to one and in order with the datagrams the driver reads: reply i is what the state at the i-th
      datagram owes to that datagram. */
  lemma {:induction false} RepliesPair(turns: seq<Turn>)
    ensures var sent, at := Exec(turns).sent, Hearing(turns);
      |sent| == |at| && forall i :: 0 <= i < |at| ==> Answers(turns, at[i], sent[i])
  {
    if turns != [] {
      hide HeardAt, Answers, Exec;
      var n := |turns| - 1;
      RepliesPair(turns[..n]);
      LastTurn(turns);
      forall i | 0 <= i < |Hearing(turns[..n])|
        ensures Answers(turns, Hearing(turns)[i], Exec(turns).sent[i])
      {
        HearingIs(turns[..n]);
        assert Hearing(turns[..n])[i] in Hearing(turns[..n]);
        EarlierTurn(turns, Hearing(turns[..n])[i]);
      }
    } else {
      assert Exec(turns).sent == [];
    }
  }

  /** A turn the driver does not outlive. */
  predicate Final(t: Turn) {
    t.hangup || t.input.Failed? || t.input.Closed? || (t.input.Datagram? && Decode(t.input.bytes).Quit?)
  }

  /** The driver runs until the first turn that hangs up, fails, ends the connection or brings QUIT. */
  lemma {:induction false} RunsUntilFinal(turns: seq<Turn>)
    ensures Exec(turns).state.running <==> forall k :: 0 <= k < |turns| ==> !Final(turns[k])
  {
    if turns != [] {
      hide Decode, AfterTimer, Exec;
      var n := |turns| - 1;
      RunsUntilFinal(turns[..n]);
      RunningNext(turns);
      assert forall k :: 0 <= k < n ==> turns[..n][k] == turns[k];
    } else {
      assert Exec(turns).state.running;
    }
  }

  lemma RunningNext(turns: seq<Turn>)
    requires turns != []
    ensures var n := |turns| - 1;
      Exec(turns).state.running <==> Exec(turns[..n]).state.running && !Final(turns[n])
  {
    hide Decode;
  }

  // Reading commands.

  lemma CStrPrefix(msg: seq<Byte>, word: seq<Byte>)
    requires 0 !in word
    ensures word <= CStr(msg) <==> word <= msg
  {
    assert forall k :: 0 <= k < |word| ==> word[k] != 0;
  }

  /** The command is told by the first bytes of the datagram. */
  lemma CommandByPrefix(msg: seq<Byte>)
    ensures Decode(msg).Quit? <==> QUIT <= msg
    ensures Decode(msg).Status? <==> STATUS <= msg
    ensures Decode(msg).Task? <==> TASK <= msg
  {
    hide Strtol, SkipSpaces;
    CStrPrefix(msg, QUIT);
    CStrPrefix(msg, STATUS);
    CStrPrefix(msg, TASK);
    assert QUIT[0] != STATUS[0] && QUIT[0] != TASK[0] && STATUS[0] != TASK[0];
  }

  /** The nearest long. */
  function Clamp(v: int): int {
    if v > 0x7FFF_FFFF_FFFF_FFFF then 0x7FFF_FFFF_FFFF_FFFF
    else if v < -0x8000_0000_0000_0000 then -0x8000_0000_0000_0000 else v
  }

  lemma {:induction false} SpacesSkipped(spaces: seq<Byte>, rest: seq<Byte>)
    requires (forall i :: 0 <= i < |spaces| ==> IsSpace(spaces[i])) && (rest != [] ==> !IsSpace(rest[0]))
    ensures SkipSpaces(spaces + rest) == rest
  {
    if spaces == [] {
      assert spaces + rest == rest;
    } else {
      assert (spaces + rest)[1..] == spaces[1..] + rest;
      SpacesSkipped(spaces[1..], rest);
    }
  }

  lemma {:induction false} DigitsTaken(digits: seq<Byte>, rest: seq<Byte>)
    requires AllDigits(digits) && (rest != [] ==> !IsDigit(rest[0]))
    ensures LeadingDigits(digits + rest) == digits
  {
    if digits == [] {
      assert digits + rest == rest;
    } else {
      assert (digits + rest)[1..] == digits[1..] + rest;
      DigitsTaken(digits[1..], rest);
    }
  }

  /** strtol: white space, an optional sign and digits, whatever follows them, give the nearest long to the number;
      without a digit there is none. */
  lemma StrtolReads(spaces: seq<Byte>, sign: seq<Byte>, digits: seq<Byte>, rest: seq<Byte>)
    requires forall i :: 0 <= i < |spaces| ==> IsSpace(spaces[i])
    requires sign in [[], [PLUS], [MINUS]] && AllDigits(digits) && (rest != [] ==> !IsDigit(rest[0]))
    requires sign == digits == [] && rest != [] ==> !IsSpace(rest[0]) && rest[0] != PLUS && rest[0] != MINUS
    ensures var v: int := Value(digits);
      Strtol(spaces + (sign + (digits + rest))) ==
        if digits == [] then None else Some(Clamp(if sign == [MINUS] then -v else v))
  {
    hide SkipSpaces, LeadingDigits, Value;
    var p := sign + (digits + rest);
    SpacesSkipped(spaces, p);
    DigitsTaken(digits, rest);
    if sign == [] {
      assert p == digits + rest;
    } else {
      assert p[0] == sign[0] && p[1..] == digits + rest;
    }
  }

  // The dispatcher's task command is read back as it was written.

  lemma StrtolOfDigits(t: int)
    requires -LONG_MAX <= t <= LONG_MAX
    ensures Strtol(if t < 0 then [MINUS] + Digits(-t) else Digits(t)) == Some(t)
  {
    hide Strtol, Value;
    var d := Digits(if t < 0 then -t else t);
    var sign: seq<Byte> := if t < 0 then [MINUS] else [];
    ValueOfDigits(if t < 0 then -t else t);
    StrtolReads([], sign, d, []);
    assert [] + (sign + (d + [])) == sign + d;
    assert t >= 0 ==> sign + d == d;
  }

  lemma DecodeOfTask(t: int)
    requires -0x8000_0000 <= t < 0x8000_0000
    ensures Decode(TaskText(t)) == Task(Some(t))
  {
    hide Strtol, Digits, Value;
    var number := if t < 0 then [MINUS] + Digits(-t) else Digits(t);
    var text := TaskText(t);
    CStrIs(text, text);
    assert text[|TASK|..] == [SPACE] + number;
    assert ([SPACE] + number)[1..] == number && !IsSpace(number[0]);
    assert SkipSpaces([SPACE] + number) == SkipSpaces(number) == number;
    assert text[0] == TASK[0];
    assert text[..|TASK|] == TASK;
    StrtolOfDigits(t);
  }

  /** For every t that fits an int, "TASK %d" is read back as t; it is refused exactly if t is not in 1..86400,
      and otherwise accepted exactly if the driver is idle. */
  lemma TaskRoundTrip(t: int, s: State, now: int)
    requires -0x8000_0000 <= t < 0x8000_0000
    ensures Decode(TaskText(t)) == Task(Some(t))
    ensures var r := Respond(s, now, Decode(TaskText(t))).1;
      && (r.BadTimer? <==> t <= 0 || t > 86400)
      && (r.OK? <==> 0 < t <= 86400 && !s.busy)
      && (r.Busy? <==> 0 < t <= 86400 && s.busy)
  {
    hide Decode, TaskText;
    DecodeOfTask(t);
  }
}
