/** Progress of the shared-memory chat: what a thread that is scheduled alone brings to an end. A line typed and a
    client that attaches are not only never torn, they do get into the log and the table. */
module SharedChatProgress {
  import opened Words
  import opened SharedChat

  /** The state after n steps of one thread, its user typing nothing. */
  function Alone(s: State, i: nat, n: nat): State
    decreases n
  {
    if n == 0 then s else Alone(Next(s, Run(i, Continue)), i, n - 1)
  }

  /** Those steps as events of a run. */
  function Steps(i: nat, n: nat): (es: seq<Event>)
    ensures |es| == n
  {
    seq(n, _ => Run(i, Continue))
  }

  lemma {:induction false} AloneIsRun(es: seq<Event>, i: nat, n: nat)
    ensures Exec(es + Steps(i, n)) == Alone(Exec(es), i, n)
    decreases n
  {
    hide Next;
    if n == 0 {
      assert es + Steps(i, 0) == es;
    } else {
      var e := Run(i, Continue);
      assert es + Steps(i, n) == es + [e] + Steps(i, n - 1);
      assert (es + [e])[..|es|] == es;
      AloneIsRun(es + [e], i, n - 1);
    }
  }

  // How far a thread is from the end of its section, and what it still owes the log and the table.

  function Rank(m: Memory, t: Thread): int {
    match t.pc
    case JoinCheck => 11 + |t.self.notice| + |t.self.copyName|
    case JoinTakeSlot => 10 + |t.self.notice| + |t.self.copyName|
    case JoinWrite(_, k) => 9 + |t.self.notice| + |t.self.copyName| - k
    case JoinLoad => 8 + |t.self.notice|
    case JoinStore(_) => 7 + |t.self.notice|
    case Check(ws) => 6 + |ws|
    case TakeSlot(ws) => 5 + |ws|
    case WriteSlot(ws, _, k) => 4 + |ws| - k
    case LoadCount(_) => 3
    case StoreCount(_, _) => 2
    case LoadTotal => 3 + (m.messageCount - t.lastSeen) * (SLOT + 2)
    case Scan(total) => 2 + (total - t.lastSeen) * (SLOT + 2)
    case Read(total, buf) => 3 + SLOT - |buf| + (total - t.lastSeen - 1) * (SLOT + 2)
    case _ => 1
  }

  /** What a thread in its section appends to the log before it leaves. */
  function Owed(m: Memory, t: Thread): seq<seq<Write>> {
    match t.pc
    case JoinCheck =>
      if m.clientCount < MAX_CLIENTS && m.messageCount < MAX_MESSAGES then [t.self.notice] else []
    case Check(ws) => if m.messageCount < MAX_MESSAGES then [ws] else []
    case TakeSlot(ws) => [ws]
    case WriteSlot(ws, _, _) => [ws]
    case LoadCount(ws) => [ws]
    case StoreCount(ws, _) => [ws]
    case _ =>
      if (t.pc.JoinTakeSlot? || t.pc.JoinWrite? || t.pc.JoinLoad? || t.pc.JoinStore?) && m.messageCount < MAX_MESSAGES
      then [t.self.notice] else []
  }

  /** And to the table of clients. */
  function OwedNames(m: Memory, t: Thread): seq<seq<Write>> {
    match t.pc
    case JoinCheck => if m.clientCount < MAX_CLIENTS then [t.self.copyName] else []
    case _ =>
      if t.pc.JoinTakeSlot? || t.pc.JoinWrite? || t.pc.JoinLoad? || t.pc.JoinStore? then [t.self.copyName] else []
  }

  /** The threads a process starts when its main thread has joined. */
  function Started(t: Thread): seq<Thread> {
    if t.role.Main? then [Thread(Receiver, t.self, ReceiverIdle, 0, []), Thread(Sender, t.self, SenderIdle, 0, [])] else []
  }

  /** Where a thread of each role waits outside. */
  function Rest(role: Role): Pc {
    match role
    case Main => Done
    case Sender => SenderIdle
    case Receiver => ReceiverIdle
  }

  /** What a step inside the section, short of the last one, does: its end is nearer, and the same is owed. */
  ghost predicate Nearer(m: Memory, t: Thread, f: Effect) {
    && InSection(f.thread.pc) && f.mem.sem == m.sem && f.spawned == []
    && f.thread.self == t.self && f.thread.role == t.role
    && 0 <= Rank(f.mem, f.thread) < Rank(m, t)
    && f.posted + Owed(f.mem, f.thread) == Owed(m, t) && f.joined + OwedNames(f.mem, f.thread) == OwedNames(m, t)
  }

  lemma JoiningStep(m: Memory, t: Thread)
    requires Holds(m, t)
    requires t.pc.JoinCheck? || t.pc.JoinTakeSlot? || t.pc.JoinWrite? || t.pc.JoinLoad? || t.pc.JoinStore?
    ensures Nearer(m, t, ThreadStep(m, t, Continue))
  {
    hide PutAt;
  }

  lemma PostingStep(m: Memory, t: Thread)
    requires Holds(m, t)
    requires t.pc.Check? || t.pc.TakeSlot? || t.pc.WriteSlot? || t.pc.LoadCount? || t.pc.StoreCount?
    ensures Nearer(m, t, ThreadStep(m, t, Continue))
  {
    hide PutAt;
  }

  lemma ReadingStep(m: Memory, t: Thread)
    requires Holds(m, t) && Shows(m, t)
    requires t.pc.LoadTotal? || t.pc.Scan? || (t.pc.Read? && |t.pc.buf| <= SLOT)
    requires m.messageCount <= MAX_MESSAGES
    ensures Nearer(m, t, ThreadStep(m, t, Continue))
  {
    hide ByteAt;
  }

  lemma InsideStep(m: Memory, t: Thread, posted: seq<seq<Write>>, joined: seq<seq<Write>>)
    requires Before(m, t, posted, joined) && !t.pc.Unlock?
    ensures Nearer(m, t, ThreadStep(m, t, Continue))
  {
    hide ThreadStep, Nearer;
    match t.pc
    case LoadTotal => ReadingStep(m, t);
    case Scan(_) => ReadingStep(m, t);
    case Read(_, _) =>
      assert |m.messages[t.lastSeen]| == SLOT;
      ReadingStep(m, t);
    case Check(_) => PostingStep(m, t);
    case TakeSlot(_) => PostingStep(m, t);
    case WriteSlot(_, _, _) => PostingStep(m, t);
    case LoadCount(_) => PostingStep(m, t);
    case StoreCount(_, _) => PostingStep(m, t);
    case _ => JoiningStep(m, t);
  }

  /** The last step of a section. */
  lemma LeavingStep(m: Memory, t: Thread)
    requires t.pc.Unlock?
    ensures ThreadStep(m, t, Continue) ==
      Effect(m.(sem := m.sem + 1), t.(pc := Rest(t.role)), [], [], Started(t))
  {
  }

  /** Nothing but thread i has changed, apart from threads it has started. */
  ghost predicate OnlyThread(s: State, s': State, i: nat, started: seq<Thread>) {
    && i < |s.threads| && |s'.threads| == |s.threads| + |started|
    && s'.threads == s.threads[i := s'.threads[i]] + started
    && s'.threads[i].self == s.threads[i].self && s'.threads[i].role == s.threads[i].role
  }

  /** Thread i has left its section, and all it owed has been appended; a receiver has seen the whole log. */
  ghost predicate HasLeft(s: State, s': State, i: nat) {
    && i < |s.threads| && OnlyThread(s, s', i, Started(s.threads[i]))
    && s'.mem.sem == s.mem.sem + 1 && s'.threads[i].pc == Rest(s.threads[i].role)
    && s'.posted == s.posted + Owed(s.mem, s.threads[i]) && s'.joined == s.joined + OwedNames(s.mem, s.threads[i])
    && (s.threads[i].role.Receiver? ==> s'.threads[i].lastSeen == s'.mem.messageCount)
  }

  lemma InsideNext(s: State, i: nat)
    requires Inv(s) && i < |s.threads| && InSection(s.threads[i].pc) && !s.threads[i].pc.Unlock?
    ensures var s' := Next(s, Run(i, Continue));
      && OnlyThread(s, s', i, []) && InSection(s'.threads[i].pc) && s'.mem.sem == s.mem.sem
      && 0 <= Rank(s'.mem, s'.threads[i]) < Rank(s.mem, s.threads[i])
      && s'.posted + Owed(s'.mem, s'.threads[i]) == s.posted + Owed(s.mem, s.threads[i])
      && s'.joined + OwedNames(s'.mem, s'.threads[i]) == s.joined + OwedNames(s.mem, s.threads[i])
  {
    hide ThreadStep, Owed, OwedNames, Rank;
    var t := s.threads[i];
    assert ThreadOk(s, t);
    InsideStep(s.mem, t, s.posted, s.joined);
    var f := ThreadStep(s.mem, t, Continue);
    assert s.posted + f.posted + Owed(f.mem, f.thread) == s.posted + (f.posted + Owed(f.mem, f.thread));
    assert s.joined + f.joined + OwedNames(f.mem, f.thread) == s.joined + (f.joined + OwedNames(f.mem, f.thread));
  }

  lemma LeavingNext(s: State, i: nat)
    requires Inv(s) && i < |s.threads| && s.threads[i].pc.Unlock?
    ensures HasLeft(s, Next(s, Run(i, Continue)), i)
  {
    hide ThreadStep;
    assert ThreadOk(s, s.threads[i]);
    LeavingStep(s.mem, s.threads[i]);
  }

  lemma LeftLater(s: State, s': State, s'': State, i: nat)
    requires OnlyThread(s, s', i, []) && s'.mem.sem == s.mem.sem && HasLeft(s', s'', i)
    requires s'.posted + Owed(s'.mem, s'.threads[i]) == s.posted + Owed(s.mem, s.threads[i])
    requires s'.joined + OwedNames(s'.mem, s'.threads[i]) == s.joined + OwedNames(s.mem, s.threads[i])
    ensures HasLeft(s, s'', i)
  {
    hide Owed, OwedNames;
    assert s'.threads == s.threads[i := s'.threads[i]];
    assert s''.threads == s.threads[i := s''.threads[i]] + Started(s.threads[i]);
  }

  /** From any reachable state the thread inside leaves after finitely many steps of its own, having appended to log
      and table what it owed, all of it and nothing else. */
  lemma {:induction false} SectionEnds(s: State, i: nat) returns (n: nat)
    requires Inv(s) && i < |s.threads| && InSection(s.threads[i].pc)
    ensures HasLeft(s, Alone(s, i, n), i)
    decreases Rank(s.mem, s.threads[i])
  {
    hide Next, Inv, InSection, Rank, Owed, OwedNames, HasLeft;
    var s' := Next(s, Run(i, Continue));
    if s.threads[i].pc.Unlock? {
      LeavingNext(s, i);
      assert Alone(s', i, 0) == s';
      n := 1;
    } else {
      InsideNext(s, i);
      NextKeeps(s, Run(i, Continue));
      var more := SectionEnds(s', i);
      LeftLater(s, s', Alone(s', i, more), i);
      n := 1 + more;
    }
  }

  // Getting in.

  /** A thread at the semaphore, and where it goes when it has taken it. */
  function Behind(pc: Pc): Option<Pc> {
    match pc
    case JoinLock => Some(JoinCheck)
    case SenderLock(ws) => Some(Check(ws))
    case ReceiverLock => Some(LoadTotal)
    case _ => None
  }

  /** A step that leaves log and table as they were. */
  ghost predicate SameTables(s: State, s': State) {
    && s'.mem == s.mem.(sem := s'.mem.sem) && s'.posted == s.posted && s'.joined == s.joined
  }

  lemma Entering(s: State, i: nat)
    requires i < |s.threads| && Behind(s.threads[i].pc).Some? && s.mem.sem == 1
    ensures var s' := Next(s, Run(i, Continue));
      && OnlyThread(s, s', i, []) && SameTables(s, s') && s'.mem.sem == 0
      && s'.threads[i] == s.threads[i].(pc := Behind(s.threads[i].pc).value)
  {
  }

  lemma AloneMore(s: State, i: nat, n: nat)
    ensures Alone(s, i, n + 1) == Alone(Next(s, Run(i, Continue)), i, n)
  {
  }

  /** A thread that finds the semaphore free takes it, does its section and gives it back; what it appends is what it
      owes once inside. */
  lemma Turn(s: State, i: nat) returns (n: nat)
    requires Inv(s) && i < |s.threads| && Behind(s.threads[i].pc).Some? && s.mem.sem == 1
    ensures var t := s.threads[i].(pc := Behind(s.threads[i].pc).value);
      var s' := Alone(s, i, n);
      && Inv(s') && Extends(s.mem, s'.mem)
      && OnlyThread(s, s', i, Started(t)) && s'.mem.sem == 1 && s'.threads[i].pc == Rest(t.role)
      && s'.posted == s.posted + Owed(s.mem, t) && s'.joined == s.joined + OwedNames(s.mem, t)
      && (t.role.Receiver? ==> s'.threads[i].lastSeen == s'.mem.messageCount)
  {
    hide Next, Inv, Extends, Alone;
    var e := Run(i, Continue);
    var inside := Next(s, e);
    Entering(s, i);
    NextKeeps(s, e);
    var more := SectionEnds(inside, i);
    n := more + 1;
    AloneMore(s, i, more);
    AloneKeeps(s, i, n);
    assert s.threads[i := inside.threads[i]][i := Alone(s, i, n).threads[i]] == s.threads[i := Alone(s, i, n).threads[i]];
  }

  lemma {:induction false} AloneKeeps(s: State, i: nat, n: nat)
    requires Inv(s)
    ensures Inv(Alone(s, i, n)) && Extends(s.mem, Alone(s, i, n).mem)
    decreases n
  {
    hide Next;
    if n > 0 {
      var s' := Next(s, Run(i, Continue));
      NextKeeps(s, Run(i, Continue));
      AloneKeeps(s', i, n - 1);
      ExtendsTrans(s.mem, s'.mem, Alone(s, i, n).mem);
    }
  }

  // Waiting: nothing moves a thread at the semaphore before it is let in.

  /** A thread at the semaphore stays where it is while the semaphore is 0, and changes nothing. */
  lemma Blocked(s: State, i: nat, c: Choice)
    requires i < |s.threads| && Behind(s.threads[i].pc).Some? && s.mem.sem == 0
    ensures Next(s, Run(i, c)) == s
  {
    assert s.threads[i := s.threads[i]] == s.threads;
  }

  /** Events after a run in which thread i, if it is run at all, is run only while the semaphore is 0. */
  ghost predicate NotLetIn(es: seq<Event>, later: seq<Event>, i: nat) {
    forall k :: 0 <= k < |later| && later[k].Run? && later[k].thread == i ==> Exec(es + later[..k]).mem.sem == 0
  }

  lemma ElsewhereNext(s: State, e: Event, i: nat)
    requires i < |s.threads| && !(e.Run? && e.thread == i)
    ensures i < |Next(s, e).threads| && Next(s, e).threads[i] == s.threads[i]
  {
    hide ThreadStep;
  }

  lemma {:induction false} Waits(es: seq<Event>, later: seq<Event>, i: nat)
    requires i < |Exec(es).threads| && Behind(Exec(es).threads[i].pc).Some? && NotLetIn(es, later, i)
    ensures i < |Exec(es + later).threads| && Exec(es + later).threads[i] == Exec(es).threads[i]
    decreases |later|
  {
    if later == [] {
      assert es + later == es;
    } else {
      hide Next, Behind;
      var n := |later| - 1;
      var before, e := es + later[..n], later[n];
      assert (es + later)[..|es + later| - 1] == before && (es + later)[|es + later| - 1] == e;
      assert forall k :: 0 <= k < n ==> later[..n][..k] == later[..k] && later[..n][k] == later[k];
      Waits(es, later[..n], i);
      if e.Run? && e.thread == i {
        Blocked(Exec(before), i, e.choice);
      } else {
        ElsewhereNext(Exec(before), e, i);
      }
    }
  }

  // The promises.

  /** In every reachable state somebody can give the semaphore back: the chat has no deadlock. */
  lemma NeverStuck(es: seq<Event>) returns (i: nat, n: nat)
    ensures Exec(es + Steps(i, n)).mem.sem == 1
  {
    hide Next;
    Safe(es);
    i, n := 0, 0;
    if Exec(es).mem.sem == 0 {
      i := SomeoneInside(Exec(es).threads);
      n := SectionEnds(Exec(es), i);
    }
    AloneIsRun(es, i, n);
  }

  /** The slot of the log at an index shows a sender and a text. */
  ghost predicate LogShows(m: Memory, k: int, sender: seq<Byte>, text: seq<Byte>) {
    && 0 <= k < m.messageCount <= |m.messages| && |m.messages[k]| == SLOT
    && CStr(m.messages[k][..NAME_LEN]) == sender && CStr(m.messages[k][NAME_LEN..]) == text
  }

  /** The sender is idle again, the semaphore free, nothing published before has changed, and its line is the new end
      of the log, unless the log was full. */
  ghost predicate LineDone(s: State, s': State, i: nat, name: seq<Byte>, text: seq<Byte>) {
    && OnlyThread(s, s', i, []) && s'.threads[i].pc.SenderIdle? && s'.mem.sem == 1
    && Extends(s.mem, s'.mem) && s'.mem.clientCount == s.mem.clientCount
    && if s.mem.messageCount < MAX_MESSAGES
       then s'.mem.messageCount == s.mem.messageCount + 1 && LogShows(s'.mem, s.mem.messageCount, name, text)
       else s'.mem.messageCount == s.mem.messageCount
  }

  /** What the counters and the last slots are, from what has been appended. */
  lemma Appended(s: State, s': State, ws: seq<Write>, p: Post)
    requires Inv(s) && Inv(s') && s.mem.sem == s'.mem.sem == 1
    requires s'.posted == s.posted + [ws] && ws == Program(p) && p.Valid()
    ensures s'.mem.messageCount == s.mem.messageCount + 1
    ensures LogShows(s'.mem, s.mem.messageCount, p.Sender(), p.Text())
  {
    hide Program, Image;
    ImageReads(p);
    assert s'.posted[s.mem.messageCount] == ws;
  }

  lemma Counted(s: State)
    requires Inv(s) && s.mem.sem == 1
    ensures s.mem.messageCount == |s.posted| && s.mem.clientCount == |s.joined|
  {
  }

  /** The turn of a sender whose line waits at the free semaphore. */
  lemma LineTurn(s: State, i: nat, name: seq<Byte>, text: seq<Byte>) returns (n: nat)
    requires Inv(s) && i < |s.threads| && s.mem.sem == 1 && s.threads[i].role.Sender?
    requires s.threads[i].pc == SenderLock(Program(Said(name, text))) && Said(name, text).Valid()
    ensures LineDone(s, Alone(s, i, n), i, name, text)
  {
    hide Inv, Alone, Extends, Program, LogShows;
    n := Turn(s, i);
    var s' := Alone(s, i, n);
    Counted(s);
    Counted(s');
    if s.mem.messageCount < MAX_MESSAGES {
      Appended(s, s', Program(Said(name, text)), Said(name, text));
    }
  }

  lemma LineTyped(s: State, i: nat, text: seq<Byte>)
    requires i < |s.threads| && s.threads[i].pc.SenderIdle? && Sendable(Typed(text))
    ensures var t := s.threads[i];
      Next(s, Run(i, Typed(text))) ==
        s.(threads := s.threads[i := t.(pc := SenderLock(Program(Said(t.self.name, text))))])
  {
    hide Program;
  }

  /** A line typed at an idle sender waits at the semaphore. */
  lemma LineWaits(es: seq<Event>, i: nat, text: seq<Byte>)
    requires i < |Exec(es).threads| && Exec(es).threads[i].pc.SenderIdle? && Sendable(Typed(text))
    ensures var t := Exec(es).threads[i];
      var s' := Exec(es + [Run(i, Typed(text))]);
      && i < |s'.threads| && s'.threads[i] == t.(pc := SenderLock(Program(Said(t.self.name, text))))
      && t.role.Sender? && Said(t.self.name, text).Valid()
  {
    hide Program, Next, Made, NamesMade, MemoryOk;
    Safe(es);
    AllHonest(es);
    LineTyped(Exec(es), i, text);
    assert (es + [Run(i, Typed(text))])[..|es|] == es;
    assert ThreadOk(Exec(es), Exec(es).threads[i]);
    assert Honest(Exec(es).threads[i], Made(es), NamesMade(es));
  }

  /** A line typed is published: in any run, whatever happens between its being typed and its sender being let in,
      once the semaphore is free the sender needs only finitely many steps of its own to have it at the end of the
      log. */
  lemma LinePublished(es: seq<Event>, i: nat, text: seq<Byte>, later: seq<Event>)
    requires i < |Exec(es).threads| && Exec(es).threads[i].pc.SenderIdle? && Sendable(Typed(text))
    requires NotLetIn(es + [Run(i, Typed(text))], later, i) && Exec(es + [Run(i, Typed(text))] + later).mem.sem == 1
    ensures var run := es + [Run(i, Typed(text))] + later;
      exists n: nat :: LineDone(Exec(run), Exec(run + Steps(i, n)), i, Exec(es).threads[i].self.name, text)
  {
    hide Exec, Inv, LineDone, Program, NotLetIn;
    var typed := es + [Run(i, Typed(text))];
    LineWaits(es, i, text);
    Waits(typed, later, i);
    Safe(typed + later);
    var n := LineTurn(Exec(typed + later), i, Exec(es).threads[i].self.name, text);
    AloneIsRun(typed + later, i, n);
  }

  /** What else may be typed: the word that ends the sender, and lines that are not sent. */
  lemma LineRefused(s: State, i: nat, text: seq<Byte>)
    requires i < |s.threads| && s.threads[i].pc.SenderIdle? && !Sendable(Typed(text))
    ensures Next(s, Run(i, Typed(text))) ==
      if text == QUIT then s.(threads := s.threads[i := s.threads[i].(pc := Done)]) else s
  {
    assert s.threads[i := s.threads[i]] == s.threads;
  }

  /** A loop told to end at its start ends, and a sender told nothing waits. */
  lemma LoopEnds(s: State, i: nat)
    requires i < |s.threads| && (s.threads[i].pc.SenderIdle? || s.threads[i].pc.ReceiverIdle?)
    ensures Next(s, Run(i, Leave)) == s.(threads := s.threads[i := s.threads[i].(pc := Done)])
    ensures s.threads[i].pc.SenderIdle? ==> Next(s, Run(i, Continue)) == s
  {
    assert s.threads[i := s.threads[i]] == s.threads;
  }

  /** A new client: its main thread is done and a receiver and a sender of its name are started; its name is in the
      table and its notice in the log, as far as there is room, and nothing published before has changed. */
  ghost predicate ClientDone(s: State, s': State, i: nat, name: seq<Byte>) {
    && s'.mem.sem == 1 && Extends(s.mem, s'.mem) && i < |s.threads| && |s'.threads| == |s.threads| + 2
    && (forall j :: 0 <= j < |s.threads| && j != i ==> s'.threads[j] == s.threads[j]) && s'.threads[i].pc.Done?
    && s'.threads[|s.threads|].role.Receiver? && s'.threads[|s.threads|].pc.ReceiverIdle?
    && s'.threads[|s.threads| + 1].role.Sender? && s'.threads[|s.threads| + 1].pc.SenderIdle?
    && s'.threads[|s.threads|].self.name == s'.threads[|s.threads| + 1].self.name == name
    && if s.mem.clientCount < MAX_CLIENTS
       then s'.mem.clientCount == s.mem.clientCount + 1 <= |s'.mem.names| && s.mem.clientCount >= 0 &&
            CStr(s'.mem.names[s.mem.clientCount]) == name &&
            if s.mem.messageCount < MAX_MESSAGES
            then s'.mem.messageCount == s.mem.messageCount + 1 &&
                 LogShows(s'.mem, s.mem.messageCount, SERVER, name + JOINED)
            else s'.mem.messageCount == s.mem.messageCount
       else s'.mem.clientCount == s.mem.clientCount && s'.mem.messageCount == s.mem.messageCount
  }

  lemma NameAppended(s: State, s': State, name: seq<Byte>)
    requires Inv(s) && Inv(s') && s.mem.sem == s'.mem.sem == 1
    requires s'.joined == s.joined + [NameProgram(name)] && |name| < NAME_LEN && 0 !in name
    ensures 0 <= s.mem.clientCount && s'.mem.clientCount == s.mem.clientCount + 1 <= |s'.mem.names|
    ensures CStr(s'.mem.names[s.mem.clientCount]) == name
  {
    hide NameProgram, NameImage;
    NameReads(name);
    assert s'.joined[s.mem.clientCount] == NameProgram(name);
  }

  /** The turn of a main thread that waits to join. */
  lemma ClientTurn(s: State, i: nat, name: seq<Byte>) returns (n: nat)
    requires Inv(s) && i < |s.threads| && s.mem.sem == 1 && |name| < NAME_LEN && 0 !in name
    requires s.threads[i] == Thread(Main, NewProcess(name), JoinLock, 0, [])
    ensures ClientDone(s, Alone(s, i, n), i, name)
  {
    hide Inv, Alone, Extends, Program, NameProgram, LogShows;
    n := Turn(s, i);
    var s' := Alone(s, i, n);
    Counted(s);
    Counted(s');
    if s.mem.clientCount < MAX_CLIENTS {
      NameAppended(s, s', name);
      if s.mem.messageCount < MAX_MESSAGES {
        Appended(s, s', Program(Joined(name)), Joined(name));
      }
    }
  }

  /** A client that attaches gets in: in any run, whatever happens before it is let in, once the semaphore is free its main
      thread needs only finitely many steps of its own to have name and notice published and its threads started. */
  lemma ClientAdmitted(es: seq<Event>, name: seq<Byte>, later: seq<Event>)
    requires |name| < NAME_LEN && 0 !in name
    requires NotLetIn(es + [Attach(name)], later, |Exec(es).threads|) && Exec(es + [Attach(name)] + later).mem.sem == 1
    ensures var run, i := es + [Attach(name)] + later, |Exec(es).threads|;
      exists n: nat :: ClientDone(Exec(run), Exec(run + Steps(i, n)), i, name)
  {
    hide Inv, ClientDone, Program, NameProgram, NotLetIn;
    var attached, i := es + [Attach(name)], |Exec(es).threads|;
    assert attached[..|es|] == es;
    assert Exec(attached).threads[i] == Thread(Main, NewProcess(name), JoinLock, 0, []);
    Waits(attached, later, i);
    Safe(attached + later);
    var n := ClientTurn(Exec(attached + later), i, name);
    AloneIsRun(attached + later, i, n);
  }

  /** The receiver is at rest again, has shown the whole log, and log and table are as they were. */
  ghost predicate AllShown(s: State, s': State, i: nat) {
    && OnlyThread(s, s', i, []) && s'.threads[i].pc.ReceiverIdle? && s'.mem.sem == 1
    && 0 <= s.mem.messageCount <= |s.mem.messages|
    && s'.mem.messageCount == s.mem.messageCount && s'.mem.clientCount == s.mem.clientCount
    && s'.threads[i].shown == s.mem.messages[..s.mem.messageCount]
  }

  lemma ReceiverLocks(s: State, i: nat)
    requires i < |s.threads| && s.threads[i].pc.ReceiverIdle?
    ensures Next(s, Run(i, Continue)) == s.(threads := s.threads[i := s.threads[i].(pc := ReceiverLock)])
  {
  }

  lemma ReceiverTurn(s: State, i: nat) returns (n: nat)
    requires Inv(s) && i < |s.threads| && s.mem.sem == 1
    requires s.threads[i].role.Receiver? && s.threads[i].pc.ReceiverLock?
    ensures AllShown(s, Alone(s, i, n), i)
  {
    hide Alone, MemoryOk;
    n := Turn(s, i);
    var s' := Alone(s, i, n);
    Counted(s);
    Counted(s');
    assert ThreadOk(s', s'.threads[i]);
  }

  /** A receiver at rest, scheduled alone when the semaphore is free, shows the whole log and changes none of it. */
  lemma ReceiverShows(es: seq<Event>, i: nat)
    requires i < |Exec(es).threads| && Exec(es).threads[i].pc.ReceiverIdle? && Exec(es).mem.sem == 1
    ensures exists n: nat :: AllShown(Exec(es), Exec(es + Steps(i, n)), i)
  {
    hide Next, Exec, Alone;
    Safe(es);
    var s := Exec(es);
    var locking := Next(s, Run(i, Continue));
    assert ThreadOk(s, s.threads[i]);
    ReceiverLocks(s, i);
    NextKeeps(s, Run(i, Continue));
    var more := ReceiverTurn(locking, i);
    AloneMore(s, i, more);
    AloneIsRun(es, i, more + 1);
    var s' := Alone(s, i, more + 1);
    assert s.threads[i := locking.threads[i]][i := s'.threads[i]] == s.threads[i := s'.threads[i]];
    assert AllShown(s, s', i);
  }
}
