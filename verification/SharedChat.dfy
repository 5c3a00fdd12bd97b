/** The shared-memory chat (chat_client.c): any number of processes that append to one log under a semaphore.
    A state machine whose steps are single bytes written or read, single loads and stores of a counter, and
    the two semaphore operations, taken by any thread at any time. */
module SharedChat {
  import opened Words

  const MAX_CLIENTS := 10
  const MAX_MESSAGES := 100
  const NAME_LEN := 32
  const TEXT_LEN := 256
  const SLOT := NAME_LEN + TEXT_LEN

  // What the string functions write, byte by byte.

  datatype Write = Write(at: nat, byte: Byte)

  function Put(cell: seq<Byte>, w: Write): seq<Byte> {
    if w.at < |cell| then cell[w.at := w.byte] else cell
  }

  function Apply(cell: seq<Byte>, ws: seq<Write>): (r: seq<Byte>)
    ensures |r| == |cell|
  {
    if ws == [] then cell else Put(Apply(cell, ws[..|ws| - 1]), ws[|ws| - 1])
  }

  /** Writes bytes in order from an offset on. */
  function Copy(at: nat, bytes: seq<Byte>): (ws: seq<Write>)
    ensures |ws| == |bytes|
  {
    if bytes == [] then [] else Copy(at, bytes[..|bytes| - 1]) + [Write(at + |bytes| - 1, bytes[|bytes| - 1])]
  }

  /** A string cut or zero-padded to n bytes, as strncpy copies it. */
  function Padded(s: seq<Byte>, n: nat): (p: seq<Byte>)
    ensures |p| == n
  {
    if |s| >= n then s[..n] else s + Zeroes(n - |s|)
  }

  /** strncpy followed by the store of a NUL in the last byte. */
  function CopyField(at: nat, s: seq<Byte>, n: nat): seq<Write>
    requires n > 0
  {
    Copy(at, Padded(s, n)) + [Write(at + n - 1, 0)]
  }

  /** snprintf of a string into n bytes. */
  function PrintField(at: nat, s: seq<Byte>, n: nat): seq<Write>
    requires n > 0
  {
    Copy(at, (if |s| >= n then s[..n - 1] else s) + [0])
  }

  /** "/quit", "server" and " joined" */
  const QUIT: seq<Byte> := [47, 113, 117, 105, 116]
  const SERVER: seq<Byte> := [115, 101, 114, 118, 101, 114]
  const JOINED: seq<Byte> := [32, 106, 111, 105, 110, 101, 100]

  datatype Post = Said(name: seq<Byte>, text: seq<Byte>) | Joined(name: seq<Byte>)
  {
    function Sender(): seq<Byte> {
      if Said? then name else SERVER
    }

    function Text(): seq<Byte> {
      if Said? then text else name + JOINED
    }

    ghost predicate Valid() {
      |name| < NAME_LEN && 0 !in name && (Said? ==> |text| < TEXT_LEN && 0 !in text)
    }
  }

  /** The byte writes that fill a message slot. */
  function Program(p: Post): seq<Write> {
    CopyField(0, p.Sender(), NAME_LEN) +
    if p.Said? then CopyField(NAME_LEN, p.Text(), TEXT_LEN) else PrintField(NAME_LEN, p.Text(), TEXT_LEN)
  }

  function NameProgram(name: seq<Byte>): seq<Write> {
    CopyField(0, name, NAME_LEN)
  }

  /** Zeroed memory after the first k writes of a program. */
  function Draft(size: nat, ws: seq<Write>, k: nat): (cell: seq<Byte>)
    requires k <= |ws|
    ensures |cell| == size
  {
    Apply(Zeroes(size), ws[..k])
  }

  /** A message slot that a program has filled. */
  function Image(ws: seq<Write>): seq<Byte> {
    Draft(SLOT, ws, |ws|)
  }

  function NameImage(ws: seq<Write>): seq<Byte> {
    Draft(NAME_LEN, ws, |ws|)
  }

  // The state.

  /** chat_t, and the value of the semaphore. */
  datatype Memory = Memory(sem: nat, clientCount: int, names: seq<seq<Byte>>, messageCount: int, messages: seq<seq<Byte>>)

  /** Where a thread is. Slots and counts it carries are values it has loaded, writes the bytes it is to store. */
  datatype Pc =
    | JoinLock | JoinCheck | JoinTakeSlot | JoinWrite(nameSlot: int, k: nat) | JoinLoad | JoinStore(clients: int)
    | Check(ws: seq<Write>) | TakeSlot(ws: seq<Write>) | WriteSlot(ws: seq<Write>, slot: int, k: nat)
    | LoadCount(ws: seq<Write>) | StoreCount(ws: seq<Write>, count: int)
    | SenderIdle | SenderLock(ws: seq<Write>)
    | ReceiverIdle | ReceiverLock | LoadTotal | Scan(total: int) | Read(total: int, buf: seq<Byte>)
    | Unlock
    | Done

  datatype Role = Main | Sender | Receiver

  /** A client process: its name, the stores that copy the name and those of its join notice. */
  datatype Process = Process(name: seq<Byte>, copyName: seq<Write>, notice: seq<Write>)

  function NewProcess(name: seq<Byte>): Process {
    Process(name, NameProgram(name), Program(Joined(name)))
  }

  datatype Thread = Thread(role: Role, self: Process, pc: Pc, lastSeen: nat, shown: seq<seq<Byte>>)

  /** posted and joined record the stores of the messages and names the counters have been advanced for. */
  datatype State = State(mem: Memory, threads: seq<Thread>, posted: seq<seq<Write>>, joined: seq<seq<Write>>)

  /** What the environment decides when a thread steps: a line typed, or the end of a loop. */
  datatype Choice = Typed(text: seq<Byte>) | Continue | Leave

  datatype Event = Attach(name: seq<Byte>) | Run(thread: nat, choice: Choice)

  function PutAt(cells: seq<seq<Byte>>, slot: int, w: Write): seq<seq<Byte>> {
    if 0 <= slot < |cells| then cells[slot := Put(cells[slot], w)] else cells
  }

  function ByteAt(cells: seq<seq<Byte>>, slot: int, at: nat): Byte {
    if 0 <= slot < |cells| && at < |cells[slot]| then cells[slot][at] else 0
  }

  datatype Effect = Effect(mem: Memory, thread: Thread, posted: seq<seq<Write>>, joined: seq<seq<Write>>, spawned: seq<Thread>)

  function Goto(mem: Memory, t: Thread, pc: Pc): Effect {
    Effect(mem, t.(pc := pc), [], [], [])
  }

  /** lock_sem: blocks, that is, stays where it is, while the semaphore is 0. */
  function Lock(mem: Memory, t: Thread, pc: Pc): Effect {
    if mem.sem == 0 then Goto(mem, t, t.pc) else Goto(mem.(sem := mem.sem - 1), t, pc)
  }

  /** One step of a thread. */
  function ThreadStep(mem: Memory, t: Thread, c: Choice): Effect {
    match t.pc
    case JoinLock => Lock(mem, t, JoinCheck)
    case JoinCheck => Goto(mem, t, if mem.clientCount < MAX_CLIENTS then JoinTakeSlot else Unlock)
    case JoinTakeSlot => Goto(mem, t, JoinWrite(mem.clientCount, 0))
    case JoinWrite(slot, k) =>
      if k < |t.self.copyName|
      then Goto(mem.(names := PutAt(mem.names, slot, t.self.copyName[k])), t, JoinWrite(slot, k + 1))
      else Goto(mem, t, JoinLoad)
    case JoinLoad => Goto(mem, t, JoinStore(mem.clientCount))
    case JoinStore(n) =>
      Goto(mem.(clientCount := n + 1), t, Check(t.self.notice)).(joined := [t.self.copyName])
    case Check(ws) => Goto(mem, t, if mem.messageCount < MAX_MESSAGES then TakeSlot(ws) else Unlock)
    case TakeSlot(ws) => Goto(mem, t, WriteSlot(ws, mem.messageCount, 0))
    case WriteSlot(ws, slot, k) =>
      if k < |ws|
      then Goto(mem.(messages := PutAt(mem.messages, slot, ws[k])), t, WriteSlot(ws, slot, k + 1))
      else Goto(mem, t, LoadCount(ws))
    case LoadCount(ws) => Goto(mem, t, StoreCount(ws, mem.messageCount))
    case StoreCount(ws, n) => Goto(mem.(messageCount := n + 1), t, Unlock).(posted := [ws])
    case SenderIdle =>
      (match c
       case Leave => Goto(mem, t, Done)
       case Typed(text) =>
         if text == QUIT then Goto(mem, t, Done)
         else if 0 < |text| < TEXT_LEN && 0 !in text
         then Goto(mem, t, SenderLock(Program(Said(t.self.name, text))))
         else Goto(mem, t, SenderIdle)
       case Continue => Goto(mem, t, SenderIdle))
    case SenderLock(ws) => Lock(mem, t, Check(ws))
    case ReceiverIdle => Goto(mem, t, if c.Leave? then Done else ReceiverLock)
    case ReceiverLock => Lock(mem, t, LoadTotal)
    case LoadTotal => Goto(mem, t, Scan(mem.messageCount))
    case Scan(total) =>
      Goto(mem, t, if t.lastSeen < total && t.lastSeen < MAX_MESSAGES then Read(total, []) else Unlock)
    case Read(total, buf) =>
      if |buf| < SLOT
      then Goto(mem, t, Read(total, buf + [ByteAt(mem.messages, t.lastSeen, |buf|)]))
      else Goto(mem, t.(lastSeen := t.lastSeen + 1, shown := t.shown + [buf]), Scan(total))
    case Unlock =>
      var open := mem.(sem := mem.sem + 1);
      (match t.role
       case Main =>
         Goto(open, t, Done).(spawned := [Thread(Receiver, t.self, ReceiverIdle, 0, []),
                                          Thread(Sender, t.self, SenderIdle, 0, [])])
       case Sender => Goto(open, t, SenderIdle)
       case Receiver => Goto(open, t, ReceiverIdle))
    case Done => Goto(mem, t, Done)
  }

  function Next(s: State, e: Event): State {
    match e
    case Attach(name) =>
      if |name| < NAME_LEN && 0 !in name
      then s.(threads := s.threads + [Thread(Main, NewProcess(name), JoinLock, 0, [])])
      else s
    case Run(i, c) =>
      if i >= |s.threads| then s else
      var f := ThreadStep(s.mem, s.threads[i], c);
      State(f.mem, s.threads[i := f.thread] + f.spawned, s.posted + f.posted, s.joined + f.joined)
  }

  /** The state the server leaves behind: memory cleared, semaphore 1, no client yet. */
  function Init(): State {
    State(Memory(1, 0, seq(MAX_CLIENTS, _ => Zeroes(NAME_LEN)), 0, seq(MAX_MESSAGES, _ => Zeroes(SLOT))), [], [], [])
  }

  /** A run: any events in any order. */
  function Exec(es: seq<Event>): State {
    if es == [] then Init() else Next(Exec(es[..|es| - 1]), es[|es| - 1])
  }

  // The invariant.

  predicate InSection(pc: Pc) {
    !(pc.JoinLock? || pc.SenderIdle? || pc.SenderLock? || pc.ReceiverIdle? || pc.ReceiverLock? || pc.Done?)
  }

  function Sections(ts: seq<Thread>): nat {
    if ts == [] then 0 else Sections(ts[..|ts| - 1]) + if InSection(ts[|ts| - 1].pc) then 1 else 0
  }

  /** What the first unpublished message slot holds while a thread is at a place in its section. */
  function SlotAt(pc: Pc): seq<Byte> {
    match pc
    case WriteSlot(ws, _, k) => if k <= |ws| then Draft(SLOT, ws, k) else []
    case LoadCount(ws) => Image(ws)
    case StoreCount(ws, _) => Image(ws)
    case _ => Zeroes(SLOT)
  }

  function NameSlotAt(pc: Pc, ws: seq<Write>): seq<Byte> {
    match pc
    case JoinWrite(_, k) => if k <= |ws| then Draft(NAME_LEN, ws, k) else []
    case JoinLoad => NameImage(ws)
    case JoinStore(_) => NameImage(ws)
    case _ => Zeroes(NAME_LEN)
  }

  /** Memory whose first unpublished slots hold the given bytes. */
  ghost predicate MemoryOk(m: Memory, posted: seq<seq<Write>>, joined: seq<seq<Write>>, slot: seq<Byte>, nameSlot: seq<Byte>) {
    && 0 <= m.messageCount <= |m.messages| == MAX_MESSAGES
    && 0 <= m.clientCount <= |m.names| == MAX_CLIENTS
    && |posted| == m.messageCount && |joined| == m.clientCount
    && (forall i :: 0 <= i < m.messageCount ==> m.messages[i] == Image(posted[i]))
    && (forall i :: 0 <= i < m.clientCount ==> m.names[i] == NameImage(joined[i]))
    && (m.messageCount < MAX_MESSAGES ==> m.messages[m.messageCount] == slot)
    && (m.clientCount < MAX_CLIENTS ==> m.names[m.clientCount] == nameSlot)
    && (forall i :: m.messageCount < i < MAX_MESSAGES ==> m.messages[i] == Zeroes(SLOT))
    && (forall i :: m.clientCount < i < MAX_CLIENTS ==> m.names[i] == Zeroes(NAME_LEN))
  }

  /** What a thread inside its section knows of the memory. */
  ghost predicate Holds(m: Memory, t: Thread) {
    match t.pc
    case JoinTakeSlot => m.clientCount < MAX_CLIENTS
    case JoinWrite(slot, k) => slot == m.clientCount < MAX_CLIENTS && k <= |t.self.copyName|
    case JoinLoad => m.clientCount < MAX_CLIENTS
    case JoinStore(n) => n == m.clientCount < MAX_CLIENTS
    case TakeSlot(_) => m.messageCount < MAX_MESSAGES
    case WriteSlot(ws, slot, k) => slot == m.messageCount < MAX_MESSAGES && k <= |ws|
    case LoadCount(_) => m.messageCount < MAX_MESSAGES
    case StoreCount(_, n) => n == m.messageCount < MAX_MESSAGES
    case Scan(total) => total == m.messageCount
    case Read(total, buf) =>
      total == m.messageCount && t.lastSeen < total <= |m.messages| && buf <= m.messages[t.lastSeen]
    case Unlock => t.role.Receiver? ==> t.lastSeen == m.messageCount
    case _ => true
  }

  /** Only receivers are in the receiver's loop, only senders in the sender's. */
  predicate FitsRole(t: Thread) {
    match t.pc
    case SenderIdle => t.role.Sender?
    case SenderLock(_) => t.role.Sender?
    case Unlock => true
    case Done => true
    case _ =>
      t.role.Receiver? <==> t.pc.ReceiverIdle? || t.pc.ReceiverLock? || t.pc.LoadTotal? || t.pc.Scan? || t.pc.Read?
  }

  /** A thread's list is the start of the log, with no message torn. */
  ghost predicate Shows(m: Memory, t: Thread) {
    FitsRole(t) && t.lastSeen <= m.messageCount <= |m.messages| && t.shown == m.messages[..t.lastSeen]
  }

  ghost predicate Inv(s: State) {
    && s.mem.sem + Sections(s.threads) == 1
    && 0 <= s.mem.messageCount <= |s.mem.messages|
    && (s.mem.sem == 1 ==> MemoryOk(s.mem, s.posted, s.joined, Zeroes(SLOT), Zeroes(NAME_LEN)))
    && (forall i :: 0 <= i < |s.threads| ==> ThreadOk(s, s.threads[i]))
  }

  ghost predicate ThreadOk(s: State, t: Thread) {
    && Shows(s.mem, t)
    && (InSection(t.pc) ==>
          Holds(s.mem, t) && MemoryOk(s.mem, s.posted, s.joined, SlotAt(t.pc), NameSlotAt(t.pc, t.self.copyName)))
  }

  lemma {:induction false} SectionsUpdate(ts: seq<Thread>, i: nat, t: Thread)
    requires i < |ts|
    ensures Sections(ts[i := t]) == Sections(ts) - (if InSection(ts[i].pc) then 1 else 0) + if InSection(t.pc) then 1 else 0
    ensures InSection(ts[i].pc) ==> Sections(ts) >= 1
  {
    var n := |ts| - 1;
    if i < n {
      assert ts[i := t][..n] == ts[..n][i := t];
      SectionsUpdate(ts[..n], i, t);
    } else {
      assert ts[i := t][..n] == ts[..n];
    }
  }

  lemma SectionsAppend(ts: seq<Thread>, t: Thread)
    ensures Sections(ts + [t]) == Sections(ts) + if InSection(t.pc) then 1 else 0
  {
    assert (ts + [t])[..|ts|] == ts;
  }

  lemma TwoInside(ts: seq<Thread>, i: nat, j: nat)
    requires i < |ts| && j < |ts| && i != j && InSection(ts[i].pc) && InSection(ts[j].pc)
    ensures Sections(ts) >= 2
  {
    var out := ts[i].(pc := Done);
    SectionsUpdate(ts, i, out);
    SectionsUpdate(ts[i := out], j, out);
  }

  /** At most one thread of all processes is in its critical section. */
  lemma MutualExclusion(s: State, i: nat, j: nat)
    requires Inv(s) && i < |s.threads| && j < |s.threads|
    requires InSection(s.threads[i].pc) && InSection(s.threads[j].pc)
    ensures i == j && s.mem.sem == 0
  {
    SectionsUpdate(s.threads, i, s.threads[i]);
    if i != j {
      TwoInside(s.threads, i, j);
    }
  }

  lemma DraftStep(size: nat, ws: seq<Write>, k: nat)
    requires k < |ws|
    ensures Put(Draft(size, ws, k), ws[k]) == Draft(size, ws, k + 1)
  {
    assert ws[..k + 1][..k] == ws[..k];
  }

  /** What was published stays as it was. */
  ghost predicate Extends(m: Memory, m': Memory) {
    && 0 <= m.messageCount <= |m.messages| && m.messageCount <= m'.messageCount <= |m'.messages|
    && m.messages[..m.messageCount] == m'.messages[..m.messageCount]
  }

  lemma ShowsLater(m: Memory, m': Memory, t: Thread)
    requires Shows(m, t) && Extends(m, m')
    ensures Shows(m', t)
  {
    assert m.messages[..t.lastSeen] == m.messages[..m.messageCount][..t.lastSeen];
    assert m'.messages[..t.lastSeen] == m'.messages[..m.messageCount][..t.lastSeen];
  }

  /** What a step inside the section must establish. */
  ghost predicate StepOk(m: Memory, t: Thread, f: Effect, posted: seq<seq<Write>>, joined: seq<seq<Write>>) {
    var t' := f.thread;
    && MemoryOk(f.mem, posted + f.posted, joined + f.joined, SlotAt(t'.pc), NameSlotAt(t'.pc, t'.self.copyName))
    && Shows(f.mem, t') && Extends(m, f.mem) && (InSection(t'.pc) ==> Holds(f.mem, t'))
  }

  ghost predicate Before(m: Memory, t: Thread, posted: seq<seq<Write>>, joined: seq<seq<Write>>) {
    && InSection(t.pc) && Holds(m, t) && Shows(m, t)
    && MemoryOk(m, posted, joined, SlotAt(t.pc), NameSlotAt(t.pc, t.self.copyName))
  }

  lemma JoinWriteStep(m: Memory, t: Thread, c: Choice, posted: seq<seq<Write>>, joined: seq<seq<Write>>)
    requires t.pc.JoinWrite? && Before(m, t, posted, joined)
    ensures StepOk(m, t, ThreadStep(m, t, c), posted, joined)
  {
    if t.pc.k < |t.self.copyName| {
      DraftStep(NAME_LEN, t.self.copyName, t.pc.k);
    }
  }

  lemma WriteSlotStep(m: Memory, t: Thread, c: Choice, posted: seq<seq<Write>>, joined: seq<seq<Write>>)
    requires t.pc.WriteSlot? && Before(m, t, posted, joined)
    ensures StepOk(m, t, ThreadStep(m, t, c), posted, joined)
  {
    if t.pc.k < |t.pc.ws| {
      DraftStep(SLOT, t.pc.ws, t.pc.k);
    }
  }

  lemma CounterStep(m: Memory, t: Thread, c: Choice, posted: seq<seq<Write>>, joined: seq<seq<Write>>)
    requires (t.pc.JoinStore? || t.pc.StoreCount?) && Before(m, t, posted, joined)
    ensures StepOk(m, t, ThreadStep(m, t, c), posted, joined)
  {
  }

  lemma ReadStep(m: Memory, t: Thread, c: Choice, posted: seq<seq<Write>>, joined: seq<seq<Write>>)
    requires t.pc.Read? && Before(m, t, posted, joined)
    ensures StepOk(m, t, ThreadStep(m, t, c), posted, joined)
  {
    var message := m.messages[t.lastSeen];
    assert |message| == SLOT;
    assert m.messages[..t.lastSeen + 1] == m.messages[..t.lastSeen] + [message];
    if |t.pc.buf| >= SLOT {
      assert t.pc.buf == message;
    }
  }

  lemma JoinStep(m: Memory, t: Thread, c: Choice, posted: seq<seq<Write>>, joined: seq<seq<Write>>)
    requires t.pc.JoinCheck? || t.pc.JoinTakeSlot? || t.pc.JoinLoad?
    requires Before(m, t, posted, joined)
    ensures StepOk(m, t, ThreadStep(m, t, c), posted, joined)
  {
    assert posted + [] == posted && joined + [] == joined;
  }

  lemma PostStep(m: Memory, t: Thread, c: Choice, posted: seq<seq<Write>>, joined: seq<seq<Write>>)
    requires t.pc.Check? || t.pc.TakeSlot? || t.pc.LoadCount?
    requires Before(m, t, posted, joined)
    ensures StepOk(m, t, ThreadStep(m, t, c), posted, joined)
  {
    assert posted + [] == posted && joined + [] == joined;
  }

  lemma TotalStep(m: Memory, t: Thread, c: Choice, posted: seq<seq<Write>>, joined: seq<seq<Write>>)
    requires t.pc.LoadTotal? && Before(m, t, posted, joined)
    ensures StepOk(m, t, ThreadStep(m, t, c), posted, joined)
  {
    assert posted + [] == posted && joined + [] == joined;
  }

  lemma ScanStep(m: Memory, t: Thread, c: Choice, posted: seq<seq<Write>>, joined: seq<seq<Write>>)
    requires t.pc.Scan? && Before(m, t, posted, joined)
    ensures StepOk(m, t, ThreadStep(m, t, c), posted, joined)
  {
    assert posted + [] == posted && joined + [] == joined;
  }

  lemma UnlockStep(m: Memory, t: Thread, c: Choice, posted: seq<seq<Write>>, joined: seq<seq<Write>>)
    requires t.pc.Unlock? && Before(m, t, posted, joined)
    ensures StepOk(m, t, ThreadStep(m, t, c), posted, joined)
  {
    assert posted + [] == posted && joined + [] == joined;
  }

  /** A step inside the section keeps the memory consistent with where the thread then is. */
  lemma SectionStep(m: Memory, t: Thread, c: Choice, posted: seq<seq<Write>>, joined: seq<seq<Write>>)
    requires Before(m, t, posted, joined)
    ensures StepOk(m, t, ThreadStep(m, t, c), posted, joined)
  {
    match t.pc
    case JoinWrite(_, _) => JoinWriteStep(m, t, c, posted, joined);
    case WriteSlot(_, _, _) => WriteSlotStep(m, t, c, posted, joined);
    case JoinStore(_) => CounterStep(m, t, c, posted, joined);
    case StoreCount(_, _) => CounterStep(m, t, c, posted, joined);
    case Read(_, _) => ReadStep(m, t, c, posted, joined);
    case JoinCheck => JoinStep(m, t, c, posted, joined);
    case JoinTakeSlot => JoinStep(m, t, c, posted, joined);
    case JoinLoad => JoinStep(m, t, c, posted, joined);
    case Check(_) => PostStep(m, t, c, posted, joined);
    case TakeSlot(_) => PostStep(m, t, c, posted, joined);
    case LoadCount(_) => PostStep(m, t, c, posted, joined);
    case LoadTotal => TotalStep(m, t, c, posted, joined);
    case Scan(_) => ScanStep(m, t, c, posted, joined);
    case _ => UnlockStep(m, t, c, posted, joined);
  }

  /** A step outside the section changes at most the semaphore, and enters only by taking it. */
  lemma OutsideStep(m: Memory, t: Thread, c: Choice)
    requires !InSection(t.pc) && Shows(m, t)
    ensures var f := ThreadStep(m, t, c);
      && f.posted == [] && f.joined == [] && f.spawned == []
      && Shows(m, f.thread) && Holds(m, f.thread)
      && f.mem == m.(sem := m.sem - if InSection(f.thread.pc) then 1 else 0)
      && SlotAt(f.thread.pc) == Zeroes(SLOT) && NameSlotAt(f.thread.pc, f.thread.self.copyName) == Zeroes(NAME_LEN)
      && (InSection(f.thread.pc) ==> m.sem > 0)
  {
    hide Program;
  }

  /** A thread about to begin its loop. */
  predicate Idle(t: Thread) {
    !InSection(t.pc) && FitsRole(t) && t.lastSeen == 0 && t.shown == []
  }

  /** A step moves the semaphore against the section it enters or leaves, and starts threads only outside. */
  lemma SemaphoreStep(m: Memory, t: Thread, c: Choice)
    ensures var f := ThreadStep(m, t, c);
      && f.mem.sem + (if InSection(f.thread.pc) then 1 else 0) == m.sem + (if InSection(t.pc) then 1 else 0)
      && (f.spawned == [] || (|f.spawned| == 2 && Idle(f.spawned[0]) && Idle(f.spawned[1])))
  {
    hide Program, ByteAt;
  }

  lemma SectionsSpawn(ts: seq<Thread>, spawned: seq<Thread>)
    requires spawned == [] || (|spawned| == 2 && Idle(spawned[0]) && Idle(spawned[1]))
    ensures Sections(ts + spawned) == Sections(ts)
  {
    hide Sections;
    if spawned == [] {
      assert ts + spawned == ts;
    } else {
      SectionsAppend(ts, spawned[0]);
      SectionsAppend(ts + [spawned[0]], spawned[1]);
      assert ts + spawned == ts + [spawned[0]] + [spawned[1]];
    }
  }

  lemma SectionsStep(s: State, i: nat, c: Choice)
    requires i < |s.threads|
    ensures var s' := Next(s, Run(i, c));
      s'.mem.sem + Sections(s'.threads) == s.mem.sem + Sections(s.threads)
  {
    hide ThreadStep, InSection, Sections, Idle;
    var f := ThreadStep(s.mem, s.threads[i], c);
    SemaphoreStep(s.mem, s.threads[i], c);
    SectionsUpdate(s.threads, i, f.thread);
    SectionsSpawn(s.threads[i := f.thread], f.spawned);
  }

  lemma SemaphoreIrrelevant(m: Memory, sem: nat, posted: seq<seq<Write>>, joined: seq<seq<Write>>, slot: seq<Byte>, nameSlot: seq<Byte>)
    requires MemoryOk(m, posted, joined, slot, nameSlot)
    ensures MemoryOk(m.(sem := sem), posted, joined, slot, nameSlot)
  {
  }

  /** What a step does to the memory and to the thread that takes it. */
  lemma MemoryStep(s: State, i: nat, c: Choice)
    requires Inv(s) && i < |s.threads|
    ensures var s' := Next(s, Run(i, c));
      var t' := s'.threads[i];
      && Shows(s'.mem, t') && Extends(s.mem, s'.mem)
      && (InSection(t'.pc) || s'.mem.sem == 1 ==>
            MemoryOk(s'.mem, s'.posted, s'.joined, SlotAt(t'.pc), NameSlotAt(t'.pc, t'.self.copyName)))
      && (InSection(t'.pc) ==> Holds(s'.mem, t'))
      && (!InSection(t'.pc) ==> SlotAt(t'.pc) == Zeroes(SLOT) && NameSlotAt(t'.pc, t'.self.copyName) == Zeroes(NAME_LEN))
      && (!InSection(s.threads[i].pc) ==> s'.mem == s.mem.(sem := s'.mem.sem) && s'.posted == s.posted && s'.joined == s.joined)
  {
    hide ThreadStep, MemoryOk;
    var t := s.threads[i];
    assert ThreadOk(s, t);
    if InSection(t.pc) {
      SectionStep(s.mem, t, c, s.posted, s.joined);
    } else {
      OutsideStep(s.mem, t, c);
      SectionsUpdate(s.threads, i, t);
      var s' := Next(s, Run(i, c));
      assert s'.posted == s.posted && s'.joined == s.joined;
      if s.mem.sem == 1 {
        SemaphoreIrrelevant(s.mem, s'.mem.sem, s.posted, s.joined, Zeroes(SLOT), Zeroes(NAME_LEN));
      }
    }
  }

  /** While another thread is inside, a step changes no memory. */
  lemma OthersKept(s: State, i: nat, c: Choice, j: nat)
    requires Inv(s) && i < |s.threads| && j < |s.threads| && i != j && InSection(s.threads[j].pc)
    ensures Next(s, Run(i, c)).mem == s.mem
    ensures Next(s, Run(i, c)).posted == s.posted && Next(s, Run(i, c)).joined == s.joined
    ensures !InSection(Next(s, Run(i, c)).threads[i].pc)
  {
    MemoryStep(s, i, c);
    MutualExclusion(s, j, j);
    SemaphoreStep(s.mem, s.threads[i], c);
    if InSection(s.threads[i].pc) {
      TwoInside(s.threads, i, j);
    }
  }

  lemma ThreadKept(s: State, i: nat, c: Choice, j: nat)
    requires Inv(s) && i < |s.threads| && j < |Next(s, Run(i, c)).threads|
    ensures ThreadOk(Next(s, Run(i, c)), Next(s, Run(i, c)).threads[j])
  {
    hide ThreadStep, MemoryOk;
    MemoryStep(s, i, c);
    SemaphoreStep(s.mem, s.threads[i], c);
    if j < |s.threads| && j != i {
      assert ThreadOk(s, s.threads[j]);
      ShowsLater(s.mem, Next(s, Run(i, c)).mem, s.threads[j]);
      if InSection(s.threads[j].pc) {
        OthersKept(s, i, c, j);
      }
    }
  }

  /** The invariant survives a step of one thread, and nothing published changes. */
  lemma RunKeeps(s: State, i: nat, c: Choice)
    requires Inv(s) && i < |s.threads|
    ensures Inv(Next(s, Run(i, c))) && Extends(s.mem, Next(s, Run(i, c)).mem)
  {
    hide ThreadStep, MemoryOk, Holds;
    var s' := Next(s, Run(i, c));
    assert s'.mem.sem + Sections(s'.threads) == 1 by {
      SectionsStep(s, i, c);
    }
    forall j | 0 <= j < |s'.threads|
      ensures ThreadOk(s', s'.threads[j])
    {
      ThreadKept(s, i, c, j);
    }
    MemoryStep(s, i, c);
    SectionsUpdate(s'.threads, i, s'.threads[i]);
  }

  lemma AttachKeeps(s: State, name: seq<Byte>)
    requires Inv(s)
    ensures Inv(Next(s, Attach(name))) && Extends(s.mem, Next(s, Attach(name)).mem)
  {
    var t := Thread(Main, NewProcess(name), JoinLock, 0, []);
    var s' := Next(s, Attach(name));
    SectionsAppend(s.threads, t);
    forall j | 0 <= j < |s'.threads|
      ensures ThreadOk(s', s'.threads[j])
    {
      if j < |s.threads| {
        assert ThreadOk(s, s.threads[j]);
      }
    }
  }

  /** The invariant survives every event, and nothing published changes. */
  lemma NextKeeps(s: State, e: Event)
    requires Inv(s)
    ensures Inv(Next(s, e)) && Extends(s.mem, Next(s, e).mem) && s.posted <= Next(s, e).posted
  {
    match e
    case Attach(name) => AttachKeeps(s, name);
    case Run(i, c) =>
      if i < |s.threads| {
        RunKeeps(s, i, c);
      }
  }

  /** Any run, of any number of clients and any interleaving, keeps the invariant. */
  lemma {:induction false} Safe(es: seq<Event>)
    ensures Inv(Exec(es))
  {
    if es != [] {
      hide Next;
      Safe(es[..|es| - 1]);
      NextKeeps(Exec(es[..|es| - 1]), es[|es| - 1]);
    }
  }

  // What the invariant means.

  lemma {:induction false} SomeoneInside(ts: seq<Thread>) returns (i: nat)
    requires Sections(ts) > 0
    ensures i < |ts| && InSection(ts[i].pc)
  {
    i := |ts| - 1;
    if !InSection(ts[i].pc) {
      i := SomeoneInside(ts[..i]);
    }
  }

  /** In every run, even in the middle of a write, both counters are in bounds, one slot of each table is behind each
      count, and semaphore value plus threads inside their section is 1. */
  lemma LogSound(es: seq<Event>)
    ensures var s := Exec(es);
      && s.mem.sem + Sections(s.threads) == 1
      && 0 <= s.mem.clientCount <= MAX_CLIENTS && 0 <= s.mem.messageCount <= MAX_MESSAGES
      && |s.mem.messages| == MAX_MESSAGES && |s.posted| == s.mem.messageCount
      && |s.mem.names| == MAX_CLIENTS && |s.joined| == s.mem.clientCount
      && (forall k :: 0 <= k < s.mem.messageCount ==> s.mem.messages[k] == Image(s.posted[k]))
      && (forall k :: 0 <= k < s.mem.clientCount ==> s.mem.names[k] == NameImage(s.joined[k]))
  {
    Safe(es);
    var s := Exec(es);
    if s.mem.sem == 0 {
      var i := SomeoneInside(s.threads);
      assert ThreadOk(s, s.threads[i]);
    }
  }

  /** What is published is never changed or withdrawn by whatever happens later. */
  lemma {:induction false} PublishedForever(es: seq<Event>, more: seq<Event>)
    ensures Exec(es).posted <= Exec(es + more).posted
    ensures Extends(Exec(es).mem, Exec(es + more).mem)
    decreases |more|
  {
    hide Next;
    Safe(es);
    if more == [] {
      assert es + more == es;
    } else {
      var n := |more| - 1;
      assert (es + more)[..|es + more| - 1] == es + more[..n];
      PublishedForever(es, more[..n]);
      Safe(es + more[..n]);
      var s := Exec(es + more[..n]);
      NextKeeps(s, more[n]);
      ExtendsTrans(Exec(es).mem, s.mem, Next(s, more[n]).mem);
    }
  }

  lemma ExtendsTrans(a: Memory, b: Memory, c: Memory)
    requires Extends(a, b) && Extends(b, c)
    ensures Extends(a, c)
  {
    var n := a.messageCount;
    assert a.messages[..n] == b.messages[..b.messageCount][..n] == c.messages[..b.messageCount][..n];
  }

  /** All receivers show one log: of two lists, one is the beginning of the other. */
  lemma ReceiversAgree(es: seq<Event>, i: nat, j: nat)
    requires i < |Exec(es).threads| && j < |Exec(es).threads|
    requires Exec(es).threads[i].lastSeen <= Exec(es).threads[j].lastSeen
    ensures Exec(es).threads[i].shown <= Exec(es).threads[j].shown
  {
    Safe(es);
    var s := Exec(es);
    assert ThreadOk(s, s.threads[i]) && ThreadOk(s, s.threads[j]);
  }

  // What the bytes say.

  lemma {:induction false} ApplyAppend(cell: seq<Byte>, a: seq<Write>, b: seq<Write>)
    ensures Apply(cell, a + b) == Apply(Apply(cell, a), b)
  {
    if b == [] {
      assert a + b == a;
    } else {
      assert (a + b)[..|a + b| - 1] == a + b[..|b| - 1];
      ApplyAppend(cell, a, b[..|b| - 1]);
    }
  }

  lemma {:induction false} ApplyCopy(cell: seq<Byte>, at: nat, bytes: seq<Byte>)
    requires at + |bytes| <= |cell|
    ensures Apply(cell, Copy(at, bytes)) == cell[..at] + bytes + cell[at + |bytes|..]
  {
    if bytes == [] {
      assert cell == cell[..at] + cell[at..];
    } else {
      var n := |bytes| - 1;
      ApplyCopy(cell, at, bytes[..n]);
      var ws := Copy(at, bytes);
      assert ws[..|ws| - 1] == Copy(at, bytes[..n]);
    }
  }

  lemma ApplyOne(cell: seq<Byte>, w: Write)
    ensures Apply(cell, [w]) == Put(cell, w)
  {
    assert [w][..0] == [];
  }

  /** A copied field whose last byte is NUL is not changed by the final store of a NUL. */
  lemma ApplyField(cell: seq<Byte>, at: nat, field: seq<Byte>)
    requires field != [] && field[|field| - 1] == 0 && at + |field| <= |cell|
    ensures Apply(cell, Copy(at, field) + [Write(at + |field| - 1, 0)]) == cell[..at] + field + cell[at + |field|..]
  {
    var w := Write(at + |field| - 1, 0);
    ApplyCopy(cell, at, field);
    ApplyAppend(cell, Copy(at, field), [w]);
    ApplyOne(cell[..at] + field + cell[at + |field|..], w);
  }

  lemma PaddedReads(s: seq<Byte>, n: nat)
    requires |s| < n && 0 !in s
    ensures Padded(s, n)[n - 1] == 0 && CStr(Padded(s, n)) == s
  {
    CStrIs(Padded(s, n), s);
  }

  lemma PrintedReads(s: seq<Byte>, rest: seq<Byte>)
    requires 0 !in s
    ensures CStr(s + [0] + rest) == s
  {
    CStrIs(s + [0] + rest, s);
  }

  /** The two strings of a message slot. */
  ghost predicate Reads(cell: seq<Byte>, p: Post) {
    |cell| == SLOT && CStr(cell[..NAME_LEN]) == p.Sender() && CStr(cell[NAME_LEN..]) == p.Text()
  }

  /** Copying a sender into a zeroed slot. */
  lemma SenderCopied(sender: seq<Byte>)
    requires |sender| < NAME_LEN && 0 !in sender
    ensures Apply(Zeroes(SLOT), CopyField(0, sender, NAME_LEN)) == Padded(sender, NAME_LEN) + Zeroes(TEXT_LEN)
  {
    var zero, field := Zeroes(SLOT), Padded(sender, NAME_LEN);
    PaddedReads(sender, NAME_LEN);
    ApplyField(zero, 0, field);
    assert zero[..0] + field + zero[NAME_LEN..] == field + Zeroes(TEXT_LEN);
  }

  /** Copying a text behind it. */
  lemma TextCopied(head: seq<Byte>, rest: seq<Byte>, text: seq<Byte>)
    requires |head| == NAME_LEN && |rest| == TEXT_LEN && |text| < TEXT_LEN && 0 !in text
    ensures Apply(head + rest, CopyField(NAME_LEN, text, TEXT_LEN)) == head + Padded(text, TEXT_LEN)
  {
    PaddedReads(text, TEXT_LEN);
    ApplyField(head + rest, NAME_LEN, Padded(text, TEXT_LEN));
    assert (head + rest)[..NAME_LEN] == head && (head + rest)[NAME_LEN + TEXT_LEN..] == [];
  }

  /** Printing a text behind it. */
  lemma TextPrinted(head: seq<Byte>, rest: seq<Byte>, text: seq<Byte>)
    requires |head| == NAME_LEN && |rest| == TEXT_LEN && |text| < TEXT_LEN && 0 !in text
    ensures Apply(head + rest, PrintField(NAME_LEN, text, TEXT_LEN)) == head + (text + [0] + rest[|text| + 1..])
  {
    ApplyCopy(head + rest, NAME_LEN, text + [0]);
    assert (head + rest)[..NAME_LEN] == head && (head + rest)[NAME_LEN + |text| + 1..] == rest[|text| + 1..];
    var tail := rest[|text| + 1..];
    assert head + (text + [0]) + tail == head + (text + [0] + tail);
  }

  lemma HalvesRead(head: seq<Byte>, tail: seq<Byte>, cell: seq<Byte>)
    requires |head| == NAME_LEN && cell == head + tail
    ensures cell[..NAME_LEN] == head && cell[NAME_LEN..] == tail
  {
  }

  /** A slot filled by the program of a post reads back as its sender and text. */
  lemma ImageReads(p: Post)
    requires p.Valid()
    ensures Reads(Image(Program(p)), p)
  {
    var ws, head, text := Program(p), Padded(p.Sender(), NAME_LEN), p.Text();
    assert ws[..|ws|] == ws;
    SenderCopied(p.Sender());
    PaddedReads(p.Sender(), NAME_LEN);
    var rest := Zeroes(TEXT_LEN);
    if p.Said? {
      ApplyAppend(Zeroes(SLOT), CopyField(0, p.Sender(), NAME_LEN), CopyField(NAME_LEN, text, TEXT_LEN));
      TextCopied(head, rest, text);
      PaddedReads(text, TEXT_LEN);
      HalvesRead(head, Padded(text, TEXT_LEN), Image(ws));
    } else {
      ApplyAppend(Zeroes(SLOT), CopyField(0, p.Sender(), NAME_LEN), PrintField(NAME_LEN, text, TEXT_LEN));
      TextPrinted(head, rest, text);
      PrintedReads(text, rest[|text| + 1..]);
      HalvesRead(head, text + [0] + rest[|text| + 1..], Image(ws));
    }
  }

  /** The stores a thread is about to make or making. */
  function Pending(pc: Pc): Option<seq<Write>> {
    match pc
    case Check(ws) => Some(ws)
    case TakeSlot(ws) => Some(ws)
    case WriteSlot(ws, _, _) => Some(ws)
    case LoadCount(ws) => Some(ws)
    case StoreCount(ws, _) => Some(ws)
    case SenderLock(ws) => Some(ws)
    case _ => None
  }

  /** A thread makes only stores from two given sets of programs, for messages and for names. */
  ghost predicate Honest(t: Thread, good: iset<seq<Write>>, names: iset<seq<Write>>) {
    && |t.self.name| < NAME_LEN && 0 !in t.self.name && t.self.notice in good && t.self.copyName in names
    && (Pending(t.pc).Some? ==> Pending(t.pc).value in good)
  }

  /** What an honest step leaves behind. */
  ghost predicate HonestEffect(f: Effect, good: iset<seq<Write>>, names: iset<seq<Write>>) {
    && Honest(f.thread, good, names) && (forall u :: u in f.spawned ==> Honest(u, good, names))
    && (forall ws :: ws in f.posted ==> ws in good) && (forall ws :: ws in f.joined ==> ws in names)
  }

  /** A line a sender accepts. */
  predicate Sendable(c: Choice) {
    c.Typed? && 0 < |c.text| < TEXT_LEN && 0 !in c.text && c.text != QUIT
  }

  /** Where the stores a thread makes, publishes or hands on come from. */
  lemma StoresStep(m: Memory, t: Thread, c: Choice)
    ensures var f := ThreadStep(m, t, c);
      && f.thread.self == t.self && f.thread.role == t.role
      && (f.spawned == [] || (|f.spawned| == 2 && f.spawned[0].self == f.spawned[1].self == t.self &&
                              Pending(f.spawned[0].pc).None? && Pending(f.spawned[1].pc).None?))
      && f.posted == (if t.pc.StoreCount? then [t.pc.ws] else [])
      && f.joined == (if t.pc.JoinStore? then [t.self.copyName] else [])
      && (Pending(f.thread.pc).Some? ==>
            || Pending(f.thread.pc) == Pending(t.pc)
            || Pending(f.thread.pc) == Some(t.self.notice)
            || (t.pc.SenderIdle? && Sendable(c) && Pending(f.thread.pc) == Some(Program(Said(t.self.name, c.text)))))
  {
    hide Program;
  }

  /** A thread keeps its process and role for ever. */
  lemma SelfKept(s: State, e: Event, j: nat)
    requires j < |s.threads|
    ensures j < |Next(s, e).threads|
    ensures Next(s, e).threads[j].self == s.threads[j].self && Next(s, e).threads[j].role == s.threads[j].role
  {
    hide ThreadStep;
    if e.Run? && e.thread < |s.threads| {
      StoresStep(s.mem, s.threads[e.thread], e.choice);
    }
  }

  lemma HonestStep(m: Memory, t: Thread, c: Choice, good: iset<seq<Write>>, names: iset<seq<Write>>)
    requires Honest(t, good, names)
    requires t.pc.SenderIdle? && Sendable(c) ==> Program(Said(t.self.name, c.text)) in good
    ensures HonestEffect(ThreadStep(m, t, c), good, names)
  {
    hide ThreadStep, Program, NameProgram;
    StoresStep(m, t, c);
  }

  ghost predicate HonestState(s: State, good: iset<seq<Write>>, names: iset<seq<Write>>) {
    && (forall i :: 0 <= i < |s.threads| ==> Honest(s.threads[i], good, names))
    && (forall i :: 0 <= i < |s.posted| ==> s.posted[i] in good)
    && (forall i :: 0 <= i < |s.joined| ==> s.joined[i] in names)
  }

  /** Two sets of programs that hold what an event brings in. */
  ghost predicate Admits(s: State, e: Event, good: iset<seq<Write>>, names: iset<seq<Write>>) {
    match e
    case Attach(name) =>
      |name| < NAME_LEN && 0 !in name ==> Program(Joined(name)) in good && NameProgram(name) in names
    case Run(i, c) =>
      i < |s.threads| && s.threads[i].pc.SenderIdle? && Sendable(c) ==> Program(Said(s.threads[i].self.name, c.text)) in good
  }

  lemma HonestNext(s: State, e: Event, good: iset<seq<Write>>, names: iset<seq<Write>>)
    requires HonestState(s, good, names) && Admits(s, e, good, names)
    ensures HonestState(Next(s, e), good, names)
  {
    hide ThreadStep, Program, NameProgram;
    if e.Run? && e.thread < |s.threads| {
      HonestStep(s.mem, s.threads[e.thread], e.choice, good, names);
    }
  }

  /** Thread j belongs to a process of that name and reads what its user types. */
  ghost predicate Author(es: seq<Event>, j: nat, name: seq<Byte>) {
    j < |Exec(es).threads| && Exec(es).threads[j].role.Sender? && Exec(es).threads[j].self.name == name
  }

  /** A post made in a run: the join notice of a client that attached in it, or a line that a sender of that client's
      name was given to read. */
  ghost predicate MadeIn(es: seq<Event>, p: Post) {
    && p.Valid() && Attach(p.name) in es
    && (p.Said? ==> exists j: nat :: Author(es, j, p.name) && Run(j, Typed(p.text)) in es)
  }

  ghost function Made(es: seq<Event>): iset<seq<Write>> {
    iset p: Post | MadeIn(es, p) :: Program(p)
  }

  ghost function NamesMade(es: seq<Event>): iset<seq<Write>> {
    iset name: seq<Byte> | |name| < NAME_LEN && 0 !in name && Attach(name) in es :: NameProgram(name)
  }

  /** A step names no thread but after the process it steps in. */
  lemma AttachedNext(s: State, e: Event, es: seq<Event>)
    requires e in es && forall i :: 0 <= i < |s.threads| ==> Attach(s.threads[i].self.name) in es
    ensures forall i :: 0 <= i < |Next(s, e).threads| ==> Attach(Next(s, e).threads[i].self.name) in es
  {
    hide ThreadStep, Program, NameProgram;
    if e.Run? && e.thread < |s.threads| {
      StoresStep(s.mem, s.threads[e.thread], e.choice);
    }
  }

  lemma {:induction false} AllAttached(es: seq<Event>)
    ensures forall i :: 0 <= i < |Exec(es).threads| ==> Attach(Exec(es).threads[i].self.name) in es
  {
    if es != [] {
      hide Next;
      var before := es[..|es| - 1];
      AllAttached(before);
      assert es == before + [es[|es| - 1]];
      AttachedNext(Exec(before), es[|es| - 1], es);
    }
  }

  lemma MadeLater(es: seq<Event>, e: Event, p: Post)
    requires MadeIn(es, p)
    ensures MadeIn(es + [e], p)
  {
    hide Next;
    if p.Said? {
      var j: nat :| Author(es, j, p.name) && Run(j, Typed(p.text)) in es;
      assert (es + [e])[..|es|] == es;
      SelfKept(Exec(es), e, j);
      assert Author(es + [e], j, p.name) && Run(j, Typed(p.text)) in es + [e];
    }
  }

  /** What an event brings in counts as made in the run that ends with it. */
  lemma EventAdmitted(es: seq<Event>, e: Event)
    requires HonestState(Exec(es), Made(es), NamesMade(es))
    ensures Admits(Exec(es), e, Made(es + [e]), NamesMade(es + [e]))
  {
    hide Next, Program, NameProgram;
    var s := Exec(es);
    assert e in es + [e];
    match e
    case Attach(name) =>
      if |name| < NAME_LEN && 0 !in name {
        assert MadeIn(es + [e], Joined(name));
      }
    case Run(i, c) =>
      if i < |s.threads| && s.threads[i].pc.SenderIdle? && Sendable(c) {
        var p := Said(s.threads[i].self.name, c.text);
        SenderKnown(es, e, i);
        assert Honest(s.threads[i], Made(es), NamesMade(es));
        assert p.Valid() && Run(i, Typed(p.text)) in es + [e] && Author(es + [e], i, p.name);
        assert MadeIn(es + [e], p);
      }
  }

  lemma SenderKnown(es: seq<Event>, e: Event, i: nat)
    requires i < |Exec(es).threads| && Exec(es).threads[i].pc.SenderIdle?
    ensures Attach(Exec(es).threads[i].self.name) in es && Author(es + [e], i, Exec(es).threads[i].self.name)
  {
    hide Next;
    Safe(es);
    AllAttached(es);
    assert ThreadOk(Exec(es), Exec(es).threads[i]);
    assert (es + [e])[..|es|] == es;
    SelfKept(Exec(es), e, i);
  }

  lemma HonestWider(s: State, good: iset<seq<Write>>, names: iset<seq<Write>>,
                    wider: iset<seq<Write>>, widerNames: iset<seq<Write>>)
    requires HonestState(s, good, names) && good <= wider && names <= widerNames
    ensures HonestState(s, wider, widerNames)
  {
  }

  lemma HonestRun(es: seq<Event>, e: Event)
    requires HonestState(Exec(es), Made(es), NamesMade(es))
    ensures HonestState(Next(Exec(es), e), Made(es + [e]), NamesMade(es + [e]))
  {
    hide Next, Exec, Made, NamesMade, HonestState, Admits;
    EventAdmitted(es, e);
    MadeGrows(es, e);
    HonestWider(Exec(es), Made(es), NamesMade(es), Made(es + [e]), NamesMade(es + [e]));
    HonestNext(Exec(es), e, Made(es + [e]), NamesMade(es + [e]));
  }

  /** Every message ever published is a whole post made in the run, every entry of the client table the whole name of
      a client that attached in it. */
  lemma {:induction false} AllHonest(es: seq<Event>)
    ensures HonestState(Exec(es), Made(es), NamesMade(es))
  {
    if es != [] {
      hide Next, Made, NamesMade, Honest;
      var before, e := es[..|es| - 1], es[|es| - 1];
      assert es == before + [e];
      AllHonest(before);
      HonestRun(before, e);
    }
  }

  lemma MadeGrows(es: seq<Event>, e: Event)
    ensures Made(es) <= Made(es + [e]) && NamesMade(es) <= NamesMade(es + [e])
  {
    hide Next, Program, NameProgram;
    forall ws | ws in Made(es)
      ensures ws in Made(es + [e])
    {
      var p: Post :| MadeIn(es, p) && ws == Program(p);
      MadeLater(es, e, p);
    }
  }

  /** Each line a receiver has shown is what the log holds at that place, the image of the program published there. */
  lemma ShownLine(es: seq<Event>, i: nat, k: nat)
    requires i < |Exec(es).threads| && k < |Exec(es).threads[i].shown|
    ensures var s := Exec(es);
      && k < s.mem.messageCount <= |s.mem.messages| && k < |s.posted|
      && s.threads[i].shown[k] == s.mem.messages[k] == Image(s.posted[k])
  {
    hide Exec, Image;
    Safe(es);
    LogSound(es);
    assert ThreadOk(Exec(es), Exec(es).threads[i]);
  }

  lemma MadeLine(es: seq<Event>, ws: seq<Write>)
    requires ws in Made(es)
    ensures exists p: Post :: MadeIn(es, p) && Image(ws) == Image(Program(p)) && Reads(Image(ws), p)
  {
    hide Exec, Program, Image, Reads;
    var p: Post :| MadeIn(es, p) && ws == Program(p);
    ImageReads(p);
  }

  /** No receiver ever shows a torn message: in any run, each line it has shown is, byte for byte, the message published
      at that place of the log, and that is the image of one whole post made in the run, and reads as it. */
  lemma NothingTorn(es: seq<Event>, i: nat, k: nat)
    requires i < |Exec(es).threads| && k < |Exec(es).threads[i].shown|
    ensures var s := Exec(es);
      var line := s.threads[i].shown[k];
      && k < s.mem.messageCount <= |s.mem.messages| && line == s.mem.messages[k]
      && exists p: Post :: MadeIn(es, p) && line == Image(Program(p)) && Reads(line, p)
  {
    hide Exec, Made, MadeIn, Program, Image, Reads;
    ShownLine(es, i, k);
    AllHonest(es);
    MadeLine(es, Exec(es).posted[k]);
  }

  /** The client table below its count holds, byte for byte, whole names of clients that attached in the run. */
  lemma NamesWhole(es: seq<Event>, k: nat)
    requires k < Exec(es).mem.clientCount
    ensures k < |Exec(es).mem.names|
    ensures exists name: seq<Byte> ::
      Attach(name) in es && Exec(es).mem.names[k] == NameImage(NameProgram(name)) && CStr(Exec(es).mem.names[k]) == name
  {
    hide Next;
    LogSound(es);
    AllHonest(es);
    var s := Exec(es);
    assert s.joined[k] in NamesMade(es);
    var name: seq<Byte> :| |name| < NAME_LEN && 0 !in name && Attach(name) in es && s.joined[k] == NameProgram(name);
    NameReads(name);
  }

  lemma NameReads(name: seq<Byte>)
    requires |name| < NAME_LEN && 0 !in name
    ensures CStr(NameImage(NameProgram(name))) == name
  {
    var ws, field := NameProgram(name), Padded(name, NAME_LEN);
    assert ws[..|ws|] == ws;
    PaddedReads(name, NAME_LEN);
    ApplyField(Zeroes(NAME_LEN), 0, field);
    assert Zeroes(NAME_LEN)[..0] + field + Zeroes(NAME_LEN)[NAME_LEN..] == field;
  }

  /** A receiver that gives the semaphore back has shown every message there is. */
  lemma ReceiverCaughtUp(es: seq<Event>, i: nat)
    requires i < |Exec(es).threads|
    requires Exec(es).threads[i].role.Receiver? && Exec(es).threads[i].pc.Unlock?
    ensures Exec(es).threads[i].lastSeen == Exec(es).mem.messageCount == |Exec(es).threads[i].shown|
  {
    Safe(es);
    assert ThreadOk(Exec(es), Exec(es).threads[i]);
  }
}
