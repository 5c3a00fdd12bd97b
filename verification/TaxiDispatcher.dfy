/** The dispatcher of the taxi control (main.c): a growing table of drivers and their descriptors, which several
    paths may close. */
module TaxiDispatcher {
  import opened Words
  import TaxiDriver

  /** driver_t */
  datatype Entry = Entry(pid: int, fd: int, alive: bool)

  /** A datagram handed to send: the descriptor and the text. */
  datatype Datagram = Datagram(fd: int, text: seq<Byte>)

  /** What send gives: success, EPIPE or ECONNRESET, or another error. */
  datatype SendResult = Delivered | Gone | Failed

  /** What recv gives: the bytes of a message, none at the end of file; nothing to read yet; or another error. */
  datatype Recv = Data(bytes: seq<Byte>) | Again | Broken

  /** What poll reports of a slot. */
  datatype Revents = Revents(hangup: bool, readable: bool)

  /** A line the dispatcher prints. */
  datatype Line =
    | Created(pid: int)
    | Reply(pid: int, text: seq<Byte>)
    | NoSuchDriver | DriverDead | SendFailed
    | UsageSendTask | UsageGetStatus | BadArgs | UnknownCommand

  // What the operations do to the table, as a sequence of entries.

  /** An entry whose driver has been given up. */
  function GivenUp(e: Entry): Entry {
    Entry(e.pid, -1, false)
  }

  function Dead(s: seq<Entry>, i: nat): seq<Entry>
    requires i < |s|
  {
    s[i := GivenUp(s[i])]
  }

  /** The index of the first entry with a pid, or the length. */
  function FirstPid(s: seq<Entry>, pid: int): (i: nat)
    ensures i <= |s| && (i < |s| ==> s[i].pid == pid) && forall k :: 0 <= k < i ==> s[k].pid != pid
  {
    if s == [] || s[0].pid == pid then 0 else 1 + FirstPid(s[1..], pid)
  }

  /** The index of the first live entry with a pid, or the length. */
  function FirstAlive(s: seq<Entry>, pid: int): (i: nat)
    ensures i <= |s| && (i < |s| ==> s[i].alive && s[i].pid == pid)
    ensures forall k :: 0 <= k < i ==> !(s[k].alive && s[k].pid == pid)
  {
    if s == [] || (s[0].alive && s[0].pid == pid) then 0 else 1 + FirstAlive(s[1..], pid)
  }

  lemma {:induction false} FirstAliveIs(s: seq<Entry>, pid: int, i: nat)
    requires i <= |s| && (i < |s| ==> s[i].alive && s[i].pid == pid)
    requires forall k :: 0 <= k < i ==> !(s[k].alive && s[k].pid == pid)
    ensures FirstAlive(s, pid) == i
  {
    if i > 0 {
      FirstAliveIs(s[1..], pid, i - 1);
    }
  }

  lemma {:induction false} FirstPidIs(s: seq<Entry>, pid: int, i: nat)
    requires i <= |s| && (i < |s| ==> s[i].pid == pid) && forall k :: 0 <= k < i ==> s[k].pid != pid
    ensures FirstPid(s, pid) == i
  {
    if i > 0 {
      FirstPidIs(s[1..], pid, i - 1);
    }
  }

  lemma {:induction false} SamePids(s: seq<Entry>, t: seq<Entry>)
    requires |s| == |t| && forall i :: 0 <= i < |s| ==> s[i].pid == t[i].pid
    ensures Pids(s) == Pids(t)
  {
    if s != [] {
      SamePids(s[..|s| - 1], t[..|t| - 1]);
    }
  }

  lemma {:induction false} ReapedPids(s: seq<Entry>, exits: seq<int>)
    ensures forall i :: 0 <= i < |s| ==> Reaped(s, exits)[i].pid == s[i].pid
  {
    if exits != [] {
      ReapedPids(s, exits[..|exits| - 1]);
    }
  }

  /** reap_children, given the pids waitpid hands out. */
  function Reaped(s: seq<Entry>, exits: seq<int>): (r: seq<Entry>)
    ensures |r| == |s|
  {
    if exits == [] then s else
    var t := Reaped(s, exits[..|exits| - 1]);
    var i := FirstAlive(t, exits[|exits| - 1]);
    if i < |t| then Dead(t, i) else t
  }

  /** What the outcome of a send prints. */
  function Complaint(result: SendResult): seq<Line> {
    match result
    case Delivered => []
    case Gone => [DriverDead]
    case Failed => [SendFailed]
  }

  /** What a command does: the table after it, what is printed, and what is sent to drivers. */
  datatype Outcome = Outcome(table: seq<Entry>, printed: seq<Line>, sent: seq<Datagram>)

  /** A text sent to the driver with a pid. */
  function Addressed(s: seq<Entry>, pid: int, text: seq<Byte>, result: SendResult): Outcome {
    var i := FirstPid(s, pid);
    if i == |s| || !s[i].alive then Outcome(s, [NoSuchDriver], [])
    else Outcome(if result.Gone? then Dead(s, i) else s, Complaint(result), [Datagram(s[i].fd, text)])
  }

  /** A text sent to every live driver, in table order. */
  function ToAll(s: seq<Entry>, text: seq<Byte>): seq<Datagram> {
    if s == [] then [] else
    var i := |s| - 1;
    ToAll(s[..i], text) + if s[i].alive then [Datagram(s[i].fd, text)] else []
  }

  /** What asking every live driver for its status prints. */
  function Complaints(s: seq<Entry>, results: nat -> SendResult): seq<Line> {
    if s == [] then [] else
    var i := |s| - 1;
    Complaints(s[..i], results) + if s[i].alive then Complaint(results(i)) else []
  }

  /** How many messages there are to read before recv gives something else. */
  function Messages(rs: seq<Recv>): (k: nat)
    ensures k <= |rs| && (forall j :: 0 <= j < k ==> rs[j].Data? && rs[j].bytes != [])
    ensures k < |rs| ==> !(rs[k].Data? && rs[k].bytes != [])
  {
    if rs == [] || !rs[0].Data? || rs[0].bytes == [] then 0 else 1 + Messages(rs[1..])
  }

  /** Messages is determined by what its contract says. */
  lemma {:induction false} MessagesIs(rs: seq<Recv>, k: nat)
    requires k <= |rs| && forall j :: 0 <= j < k ==> rs[j].Data? && rs[j].bytes != []
    requires k < |rs| ==> !(rs[k].Data? && rs[k].bytes != [])
    ensures Messages(rs) == k
  {
    if k > 0 {
      MessagesIs(rs[1..], k - 1);
    }
  }

  /** Whether a reading ends with the driver given up: at the end of file or on an error. */
  predicate EndsBadly(rs: seq<Recv>) {
    Messages(rs) < |rs| && !rs[Messages(rs)].Again?
  }

  /** The lines a reading prints: each message, as far as its first NUL. */
  function Replies(pid: int, rs: seq<Recv>): (lines: seq<Line>) {
    seq(Messages(rs), k requires 0 <= k < Messages(rs) => Reply(pid, CStr(rs[k].bytes)))
  }

  function Alive(s: seq<Entry>): nat {
    if s == [] then 0 else Alive(s[..|s| - 1]) + if s[|s| - 1].alive then 1 else 0
  }

  /** The poll slot the walk of the main loop looks at for an entry: slot 0 is standard input. */
  function Slot(s: seq<Entry>, i: nat): nat
    requires i < |s|
  {
    1 + Alive(s[..i])
  }

  /** Whether the walk gives up a live driver, given what its slot says and what there is to read. */
  predicate Loses(r: Revents, rs: seq<Recv>) {
    r.hangup || (r.readable && EndsBadly(rs))
  }

  /** What the walk prints for a live driver. */
  function Shows(pid: int, r: Revents, rs: seq<Recv>): seq<Line> {
    if !r.hangup && r.readable then Replies(pid, rs) else []
  }

  predicate Lost(s: seq<Entry>, i: nat, revents: nat -> Revents, inbox: nat -> seq<Recv>)
    requires i < |s|
  {
    s[i].alive && Loses(revents(Slot(s, i)), inbox(i))
  }

  /** The table after a walk. */
  ghost function AfterWalk(s: seq<Entry>, revents: nat -> Revents, inbox: nat -> seq<Recv>): (t: seq<Entry>)
    ensures |t| == |s|
    ensures forall k :: 0 <= k < |s| ==> t[k] == if Lost(s, k, revents, inbox) then GivenUp(s[k]) else s[k]
  {
    seq(|s|, k requires 0 <= k < |s| => if Lost(s, k, revents, inbox) then GivenUp(s[k]) else s[k])
  }

  /** The table after every live driver has been asked for its status. */
  ghost function AfterAsking(s: seq<Entry>, results: nat -> SendResult): (t: seq<Entry>)
    ensures |t| == |s|
    ensures forall k :: 0 <= k < |s| ==> t[k] == if s[k].alive && results(k).Gone? then GivenUp(s[k]) else s[k]
  {
    seq(|s|, k requires 0 <= k < |s| => if s[k].alive && results(k).Gone? then GivenUp(s[k]) else s[k])
  }

  /** A table on its way from s to t, at entry i. */
  ghost function UpTo(s: seq<Entry>, t: seq<Entry>, i: nat): seq<Entry>
    requires i <= |s| == |t|
  {
    t[..i] + s[i..]
  }

  lemma UpToEnds(s: seq<Entry>, t: seq<Entry>)
    requires |s| == |t|
    ensures UpTo(s, t, 0) == s && UpTo(s, t, |s|) == t
  {
  }

  lemma UpToNext(s: seq<Entry>, t: seq<Entry>, i: nat)
    requires i < |s| == |t|
    ensures var u := UpTo(s, t, i);
      |u| == |s| && u[i] == s[i] && UpTo(s, t, i + 1) == u[i := t[i]] && (t[i] == s[i] ==> UpTo(s, t, i + 1) == u)
  {
  }

  /** The lines a walk over the table prints. */
  function Walked(s: seq<Entry>, revents: nat -> Revents, inbox: nat -> seq<Recv>): seq<Line> {
    if s == [] then [] else
    var i := |s| - 1;
    Walked(s[..i], revents, inbox) + if s[i].alive then Shows(s[i].pid, revents(Slot(s, i)), inbox(i)) else []
  }

  lemma NoneOpen(owner: map<int, nat>, n: nat)
    requires forall fd :: fd in owner ==> n <= owner[fd] < n
    ensures owner == map[]
  {
    assert forall fd :: fd !in owner;
  }

  class Dispatcher {
    var drivers: array<Entry>
    var n: nat

    /** The descriptors the kernel has open for this process, each with the index of the push that owns it. */
    var owner: map<int, nat>
    /** The datagrams handed to send, in order. */
    var outbox: seq<Datagram>
    /** How often the descriptor of each push has been closed. */
    ghost var closes: seq<nat>

    /** An entry is alive exactly while it has a descriptor, and then the kernel has it open for this entry and
        it has never been closed; the descriptor of a dead entry has been closed once. */
    ghost predicate Valid()
      reads this, drivers
    {
      && n <= drivers.Length && |closes| == n
      && (forall i :: 0 <= i < n ==> (drivers[i].alive <==> drivers[i].fd >= 0))
      && (forall i :: 0 <= i < n && drivers[i].alive ==>
            drivers[i].fd in owner && owner[drivers[i].fd] == i && closes[i] == 0)
      && (forall i :: 0 <= i < n && !drivers[i].alive ==> closes[i] == 1)
      && (forall fd :: fd in owner ==> owner[fd] < n && drivers[owner[fd]].alive && drivers[owner[fd]].fd == fd)
    }

    ghost function Table(): seq<Entry>
      requires n <= drivers.Length
      reads this, drivers
    {
      drivers[..n]
    }

    constructor ()
      ensures Valid() && Table() == [] && owner == map[] && outbox == [] && fresh(drivers)
    {
      drivers := new Entry[0];
      n, owner, outbox, closes := 0, map[], [], [];
    }

    /** close */
    method Close(fd: int)
      requires fd in owner && owner[fd] < |closes|
      modifies `owner, `closes
      ensures owner == old(owner) - {fd}
      ensures closes == old(closes)[old(owner[fd]) := old(closes[owner[fd]]) + 1]
    {
      closes := closes[owner[fd] := closes[owner[fd]] + 1];
      owner := owner - {fd};
    }

    /** The kernel's choice of a new descriptor: the lowest that is free. It may be one that was closed before. */
    method NewDescriptor() returns (fd: int)
      ensures fd >= 3 && fd !in owner
    {
      fd := 3;
      ghost var left := owner.Keys;
      while fd in owner
        invariant fd >= 3 && left <= owner.Keys && forall x :: x in owner && x >= fd ==> x in left
        decreases |left|
      {
        left := left - {fd};
        fd := fd + 1;
      }
    }

    /** drivers_push: doubles the array when it is full. */
    method Push(pid: int, fd: int)
      requires Valid() && fd >= 0 && fd !in owner
      modifies this, drivers
      ensures Valid() && Table() == old(Table()) + [Entry(pid, fd, true)] && outbox == old(outbox)
      ensures drivers == old(drivers) || fresh(drivers)
      ensures drivers.Length == old(drivers.Length) || drivers.Length == 8 || drivers.Length == 2 * old(drivers.Length)
      ensures n == old(n) + 1 && owner == old(owner)[fd := old(n)] && closes == old(closes) + [0]
    {
      hide Valid;
      Bounds();
      if n == drivers.Length {
        Grow();
      }
      Append(pid, fd);
    }

    /** The store of drivers_push, into the first unused place. */
    method Append(pid: int, fd: int)
      requires Valid() && n < drivers.Length && fd >= 0 && fd !in owner
      modifies this, drivers
      ensures Valid() && drivers == old(drivers) && Table() == old(Table()) + [Entry(pid, fd, true)]
      ensures outbox == old(outbox)
      ensures n == old(n) + 1 && owner == old(owner)[fd := old(n)] && closes == old(closes) + [0]
    {
      drivers[n] := Entry(pid, fd, true);
      owner := owner[fd := n];
      closes := closes + [0];
      n := n + 1;
    }

    /** The realloc of drivers_push: every entry keeps its place. */
    method Grow()
      requires Valid() && n == drivers.Length
      modifies `drivers
      ensures Valid() && fresh(drivers) && Table() == old(Table()) && n < drivers.Length
      ensures drivers.Length == 8 || drivers.Length == 2 * old(drivers.Length)
    {
      var bigger := new Entry[if drivers.Length != 0 then drivers.Length * 2 else 8](_ => Entry(0, -1, false));
      for i := 0 to n
        invariant drivers == old(drivers) && n <= drivers.Length
        invariant forall k :: 0 <= k < i ==> bigger[k] == drivers[k]
      {
        bigger[i] := drivers[i];
      }
      drivers := bigger;
    }

    /** The three statements by which every path gives a driver up: not alive, descriptor closed and forgotten. */
    method GiveUp(i: nat)
      requires Valid() && i < n && drivers[i].alive
      modifies `owner, `closes, drivers
      ensures Valid() && Table() == Dead(old(Table()), i)
    {
      Close(drivers[i].fd);
      drivers[i] := Entry(drivers[i].pid, -1, false);
    }

    /** find_driver; n if there is none. */
    method FindDriver(pid: int) returns (i: nat)
      requires Valid()
      ensures i == FirstPid(Table(), pid)
    {
      i := 0;
      while i < n && drivers[i].pid != pid
        invariant i <= n && forall k :: 0 <= k < i ==> drivers[k].pid != pid
      {
        i := i + 1;
      }
      FirstPidIs(Table(), pid, i);
    }

    /** reap_children, over the pids that waitpid gives. */
    method ReapChildren(exits: seq<int>)
      requires Valid()
      modifies `owner, `closes, drivers
      ensures Valid() && Table() == Reaped(old(Table()), exits)
    {
      ghost var start := Table();
      for e := 0 to |exits|
        invariant Valid() && Table() == Reaped(start, exits[..e])
      {
        assert exits[..e + 1][..e] == exits[..e];
        ReapOne(exits[e]);
      }
      assert exits[..|exits|] == exits;
    }

    method ReapOne(p: int)
      requires Valid()
      modifies `owner, `closes, drivers
      ensures Valid()
      ensures var i := FirstAlive(old(Table()), p);
        Table() == if i < |old(Table())| then Dead(old(Table()), i) else old(Table())
    {
      ghost var start := Table();
      var i := 0;
      while i < n
        invariant i <= n && Valid() && Table() == start
        invariant forall k :: 0 <= k < i ==> !(drivers[k].alive && drivers[k].pid == p)
      {
        if drivers[i].alive && drivers[i].pid == p {
          FirstAliveIs(start, p, i);
          GiveUp(i);
          return;
        }
        i := i + 1;
      }
      FirstAliveIs(start, p, n);
    }

    /** send_cmd to the entry at an index, n standing for a null pointer; result is what send gives. */
    method SendCmd(i: nat, text: seq<Byte>, result: SendResult) returns (printed: seq<Line>)
      requires Valid() && i <= n
      modifies `owner, `closes, `outbox, drivers
      ensures Valid()
      ensures Table() == if i < n && old(drivers[i].alive) && result.Gone? then Dead(old(Table()), i) else old(Table())
      ensures printed == if i == n || !old(drivers[i].alive) then [NoSuchDriver] else Complaint(result)
      ensures outbox == old(outbox) +
        if i == n || !old(drivers[i].alive) then [] else [Datagram(old(drivers[i].fd), text)]
    {
      if i == n || !drivers[i].alive {
        return [NoSuchDriver];
      }
      outbox := outbox + [Datagram(drivers[i].fd, text)];
      match result
      case Delivered => return [];
      case Gone =>
        GiveUp(i);
        return [DriverDead];
      case Failed => return [SendFailed];
    }

    /** cmd_get_drivers, the result of each send given by the index of its entry. */
    method GetDrivers(results: nat -> SendResult) returns (printed: seq<Line>)
      requires Valid()
      modifies `owner, `closes, `outbox, drivers
      ensures Valid() && Table() == AfterAsking(old(Table()), results)
      ensures printed == Complaints(old(Table()), results)
      ensures outbox == old(outbox) + ToAll(old(Table()), TaxiDriver.STATUS)
    {
      hide Valid, Complaint, UpTo;
      Bounds();
      ghost var start := Table();
      ghost var end := AfterAsking(start, results);
      assert UpTo(start, end, 0) == start by { UpToEnds(start, end); }
      printed := [];
      var i := 0;
      while i < n
        invariant Valid() && i <= n == |start| <= drivers.Length
        invariant Table() == UpTo(start, end, i) && printed == Complaints(start[..i], results)
        invariant outbox == old(outbox) + ToAll(start[..i], TaxiDriver.STATUS)
      {
        assert start[..i + 1][..i] == start[..i];
        UpToNext(start, end, i);
        assert drivers[i] == Table()[i] == start[i];
        if drivers[i].alive {
          var lines := SendCmd(i, TaxiDriver.STATUS, results(i));
          printed := printed + lines;
        }
        i := i + 1;
      }
      assert start[..n] == start;
      UpToEnds(start, end);
    }

    /** handle_driver_readable: prints every message there is, until recv gives something else; where the given
        results end, the next one is Again. */
    method HandleReadable(i: nat, rs: seq<Recv>) returns (printed: seq<Line>)
      requires Valid() && i < n && drivers[i].alive
      modifies `owner, `closes, drivers
      ensures Valid() && Table() == if EndsBadly(rs) then Dead(old(Table()), i) else old(Table())
      ensures printed == Replies(old(drivers[i].pid), rs)
    {
      printed := [];
      var k := 0;
      while k < |rs|
        invariant Valid() && Table() == old(Table()) && k <= Messages(rs)
        invariant printed == Replies(drivers[i].pid, rs)[..k]
      {
        match rs[k]
        case Again => return;
        case Broken =>
          GiveUp(i);
          return;
        case Data(bytes) =>
          if |bytes| == 0 {
            GiveUp(i);
            return;
          }
          printed := printed + [Reply(drivers[i].pid, CStr(bytes))];
        k := k + 1;
      }
    }

    /** What the walk does with one live entry. */
    method Inspect(i: nat, r: Revents, rs: seq<Recv>) returns (printed: seq<Line>)
      requires Valid() && i < n && drivers[i].alive
      modifies `owner, `closes, drivers
      ensures Valid() && Table() == if Loses(r, rs) then Dead(old(Table()), i) else old(Table())
      ensures printed == Shows(old(drivers[i].pid), r, rs)
    {
      printed := [];
      if r.hangup {
        GiveUp(i);
      } else if r.readable {
        printed := HandleReadable(i, rs);
      }
    }

    /** The walk over the table at the end of a turn of the main loop. */
    method Walk(revents: nat -> Revents, inbox: nat -> seq<Recv>) returns (printed: seq<Line>)
      requires Valid()
      modifies `owner, `closes, drivers
      ensures Valid() && Table() == AfterWalk(old(Table()), revents, inbox)
      ensures printed == Walked(old(Table()), revents, inbox)
    {
      hide Valid, Loses, Shows, UpTo;
      Bounds();
      ghost var start := Table();
      ghost var end := AfterWalk(start, revents, inbox);
      assert UpTo(start, end, 0) == start by { UpToEnds(start, end); }
      printed := [];
      var idx := 1;
      var i := 0;
      while i < n
        invariant Valid() && i <= n == |start| <= drivers.Length
        invariant idx == 1 + Alive(start[..i]) && printed == Walked(start[..i], revents, inbox)
        invariant Table() == UpTo(start, end, i)
      {
        assert start[..i + 1][..i] == start[..i];
        UpToNext(start, end, i);
        assert drivers[i] == Table()[i] == start[i];
        if drivers[i].alive {
          var lines := Inspect(i, revents(idx), inbox(i));
          printed := printed + lines;
          idx := idx + 1;
        }
        i := i + 1;
      }
      assert start[..n] == start;
      UpToEnds(start, end);
    }

    lemma Bounds()
      requires Valid()
      ensures n <= drivers.Length
    {
    }

    /** shutdown_all: every live driver is sent QUIT, and then, whatever happened before, every descriptor ever pushed
        has been closed exactly once. */
    method ShutdownAll()
      requires Valid()
      modifies `owner, `closes, `outbox, drivers
      ensures Valid() && owner == map[] && n == old(n)
      ensures forall i :: 0 <= i < n ==> closes[i] == 1 && Table()[i] == GivenUp(old(Table())[i])
      ensures outbox == old(outbox) + ToAll(old(Table()), TaxiDriver.QUIT)
    {
      SendQuit();
      CloseAll();
    }

    /** Its second loop. */
    method CloseAll()
      requires Valid()
      modifies `owner, `closes, drivers
      ensures Valid() && owner == map[] && n == old(n)
      ensures forall i :: 0 <= i < n ==> closes[i] == 1 && Table()[i] == GivenUp(old(Table())[i])
    {
      ghost var start := Table();
      for i := 0 to n
        invariant Valid() && n == |start|
        invariant forall k :: 0 <= k < n ==> Table()[k] == if k < i then GivenUp(start[k]) else start[k]
      {
        assert Table()[i] == start[i];
        if drivers[i].fd >= 0 {
          GiveUp(i);
        } else {
          drivers[i] := Entry(drivers[i].pid, -1, false);
        }
      }
      assert forall i :: 0 <= i < n ==> drivers[i] == Table()[i] && !drivers[i].alive;
      NoneOpen(owner, n);
    }

    /** Its first loop. */
    method SendQuit()
      requires Valid()
      modifies `outbox
      ensures Valid() && Table() == old(Table()) && outbox == old(outbox) + ToAll(Table(), TaxiDriver.QUIT)
    {
      for i := 0 to n
        invariant Valid() && Table() == old(Table())
        invariant outbox == old(outbox) + ToAll(Table()[..i], TaxiDriver.QUIT)
      {
        assert Table()[..i + 1][..i] == Table()[..i];
        if drivers[i].alive {
          outbox := outbox + [Datagram(drivers[i].fd, TaxiDriver.QUIT)];
        }
      }
      assert Table()[..n] == Table();
    }

    /** find_driver and send_cmd, as cmd_send_task and cmd_get_status combine them. */
    method SendTo(pid: int, text: seq<Byte>, result: SendResult) returns (printed: seq<Line>, sent: seq<Datagram>)
      requires Valid()
      modifies `owner, `closes, `outbox, drivers
      ensures Valid() && Outcome(Table(), printed, sent) == Addressed(old(Table()), pid, text, result)
      ensures outbox == old(outbox) + sent
    {
      var i := FindDriver(pid);
      var already := |outbox|;
      printed := SendCmd(i, text, result);
      sent := outbox[already..];
    }

    /** One command line, its words already read. */
    method Execute(c: Command) returns (printed: seq<Line>, sent: seq<Datagram>)
      requires Valid()
      modifies this, drivers
      ensures Valid() && (drivers == old(drivers) || fresh(drivers))
      ensures Executed(old(Table()), old(owner).Keys, c, Outcome(Table(), printed, sent))
      ensures outbox == old(outbox) + sent
    {
      sent := [];
      match c
      case CreateDriver(pid) =>
        var fd := NewDescriptor();
        Push(pid, fd);
        printed := [Created(pid)];
      case SendTask(words, result) =>
        if words.None? {
          printed := [UsageSendTask];
          return;
        }
        var (pid, t) := words.value;
        if pid <= 0 || t <= 0 {
          printed := [BadArgs];
          return;
        }
        printed, sent := SendTo(pid, TaxiDriver.TaskText(t), result);
      case GetStatus(word, result) =>
        if word.None? {
          printed := [UsageGetStatus];
          return;
        }
        if word.value <= 0 {
          printed := [BadArgs];
          return;
        }
        printed, sent := SendTo(word.value, TaxiDriver.STATUS, result);
      case GetDrivers(results) =>
        var already := |outbox|;
        printed := GetDrivers(results);
        sent := outbox[already..];
      case Unknown =>
        printed := [UnknownCommand];
    }

    /** One turn of the main loop; ghost results are the descriptors in use when the command is carried out, and what
        it leaves behind. */
    method TakeTurn(t: Turn) returns (printed: seq<Line>, ghost taken: set<int>, ghost o: Outcome)
      requires Valid()
      modifies this, drivers
      ensures Valid() && (drivers == old(drivers) || fresh(drivers))
      ensures Turns(old(Table()), t, Made(taken, o, Table()), printed) && outbox == old(outbox) + o.sent
      ensures Pids(Table()) == Pids(old(Table())) + t.NewPids()
    {
      hide Valid, Executed, Lost, Walked;
      Bounds();
      ghost var before := Table();
      ReapChildren(t.exits);
      ReapedPids(before, t.exits);
      SamePids(before, Table());
      var sent: seq<Datagram> := [];
      printed, taken, before := [], owner.Keys, Table();
      if t.command.Some? {
        printed, sent := Execute(t.command.value);
        ExecutedPids(before, taken, t.command.value, Outcome(Table(), printed, sent));
      }
      o := Outcome(Table(), printed, sent);
      var shown := Walk(t.revents, t.inbox);
      printed := printed + shown;
      SamePids(o.table, Table());
    }

    /** A whole run of the main loop with whatever exits, commands and poll results, up to the shutdown at its end:
        the turn that reads "exit" or the end of input still reaps children before it. */
    method Run(turns: seq<Turn>, lastExits: seq<int>) returns (printed: seq<seq<Line>>, ghost made: seq<Made>)
      requires Valid() && Table() == [] && outbox == []
      modifies this, drivers
      ensures Valid() && owner == map[] && |closes| == n
      ensures forall i :: 0 <= i < n ==> closes[i] == 1 && !drivers[i].alive
      ensures Pids(Table()) == CreatedPids(turns)
      ensures IsRun(turns, made, printed)
      ensures outbox == Posted(made) + ToAll(Reaped(Last(made), lastExits), TaxiDriver.QUIT)
    {
      hide Turns, IsRun, Posted;
      printed, made := RunTurns(turns);
      ghost var before := Table();
      ReapChildren(lastExits);
      ReapedPids(before, lastExits);
      ShutdownAll();
      SamePids(before, Table());
      assert forall i :: 0 <= i < n ==> drivers[i] == Table()[i];
    }

    /** The turns of the loop before the one that ends it. */
    method RunTurns(turns: seq<Turn>) returns (printed: seq<seq<Line>>, ghost made: seq<Made>)
      requires Valid() && Table() == [] && outbox == []
      modifies this, drivers
      ensures Valid() && (drivers == old(drivers) || fresh(drivers))
      ensures Pids(Table()) == CreatedPids(turns) && Table() == Last(made)
      ensures IsRun(turns, made, printed) && outbox == Posted(made)
    {
      hide Valid, Turns, IsRun, Posted, Last;
      printed, made := [], [];
      NoTurns();
      Bounds();
      for i := 0 to |turns|
        invariant n <= drivers.Length
        invariant Valid() && (drivers == old(drivers) || fresh(drivers))
        invariant Pids(Table()) == CreatedPids(turns[..i]) && Table() == Last(made)
        invariant IsRun(turns[..i], made, printed) && outbox == Posted(made)
      {
        assert turns[..i + 1] == turns[..i] + [turns[i]];
        assert turns[..i + 1][..i] == turns[..i];
        var lines, taken, o := TakeTurn(turns[i]);
        Bounds();
        OneMoreTurn(turns[..i], made, printed, turns[i], Made(taken, o, Table()), lines);
        printed, made := printed + [lines], made + [Made(taken, o, Table())];
      }
      assert turns[..|turns|] == turns;
    }
  }

  lemma NoTurns()
    ensures IsRun([], [], []) && Posted([]) == [] && Last([]) == []
  {
  }

  lemma OneMoreTurn(turns: seq<Turn>, made: seq<Made>, printed: seq<seq<Line>>, t: Turn, m: Made, lines: seq<Line>)
    requires IsRun(turns, made, printed) && Turns(Last(made), t, m, lines)
    ensures IsRun(turns + [t], made + [m], printed + [lines])
    ensures Posted(made + [m]) == Posted(made) + m.outcome.sent && Last(made + [m]) == m.table
  {
    hide Turns;
    assert |made| == |turns| == |printed|;
    assert (turns + [t])[..|turns|] == turns && (made + [m])[..|made|] == made && (printed + [lines])[..|printed|] == printed;
  }

  /** What a turn makes: the descriptors in use and the outcome of its command, and the table at its end. */
  datatype Made = Made(taken: set<int>, outcome: Outcome, table: seq<Entry>)

  /** A turn of the main loop from a table on: it reaps, carries out the command, and walks. */
  ghost predicate Turns(s: seq<Entry>, t: Turn, m: Made, printed: seq<Line>) {
    && (if t.command.Some? then Executed(Reaped(s, t.exits), m.taken, t.command.value, m.outcome)
        else m.outcome == Outcome(Reaped(s, t.exits), [], []))
    && m.table == AfterWalk(m.outcome.table, t.revents, t.inbox)
    && printed == m.outcome.printed + Walked(m.outcome.table, t.revents, t.inbox)
  }

  ghost function Last(made: seq<Made>): seq<Entry> {
    if made == [] then [] else made[|made| - 1].table
  }

  /** Every turn goes on from where the one before it ended, the first from the empty table. */
  ghost predicate IsRun(turns: seq<Turn>, made: seq<Made>, printed: seq<seq<Line>>) {
    |made| == |turns| == |printed| &&
    (turns != [] ==>
      var n := |turns| - 1;
      IsRun(turns[..n], made[..n], printed[..n]) && Turns(Last(made[..n]), turns[n], made[n], printed[n]))
  }

  /** All that the commands of a run send. */
  ghost function Posted(made: seq<Made>): seq<Datagram> {
    if made == [] then [] else Posted(made[..|made| - 1]) + made[|made| - 1].outcome.sent
  }

  /** A command line: the words that are there, read as numbers, and what the calls made for it give. */
  datatype Command =
    | CreateDriver(pid: int)
    | SendTask(words: Option<(int, int)>, result: SendResult)
    | GetStatus(word: Option<int>, result: SendResult)
    | GetDrivers(results: nat -> SendResult)
    | Unknown

  /** What a command does, given the table and the descriptors in use. */
  ghost predicate Executed(s: seq<Entry>, taken: set<int>, c: Command, o: Outcome) {
    match c
    case CreateDriver(pid) =>
      && |o.table| == |s| + 1 && o.table[..|s|] == s && o.printed == [Created(pid)] && o.sent == []
      && o.table[|s|].pid == pid && o.table[|s|].alive && o.table[|s|].fd >= 3 && o.table[|s|].fd !in taken
    case SendTask(None, _) => o == Outcome(s, [UsageSendTask], [])
    case SendTask(Some((pid, t)), result) =>
      o == if pid <= 0 || t <= 0 then Outcome(s, [BadArgs], []) else Addressed(s, pid, TaxiDriver.TaskText(t), result)
    case GetStatus(None, _) => o == Outcome(s, [UsageGetStatus], [])
    case GetStatus(Some(pid), result) =>
      o == if pid <= 0 then Outcome(s, [BadArgs], []) else Addressed(s, pid, TaxiDriver.STATUS, result)
    case GetDrivers(results) =>
      o == Outcome(AfterAsking(s, results), Complaints(s, results), ToAll(s, TaxiDriver.STATUS))
    case Unknown => o == Outcome(s, [UnknownCommand], [])
  }

  /** Every entry is as it was or given up. */
  ghost predicate SomeGivenUp(s: seq<Entry>, s': seq<Entry>) {
    |s| == |s'| && forall k :: 0 <= k < |s| ==> s'[k] == s[k] || s'[k] == GivenUp(s[k])
  }

  lemma ExecutedKeeps(s: seq<Entry>, taken: set<int>, c: Command, o: Outcome)
    requires Executed(s, taken, c, o)
    ensures !c.CreateDriver? ==> SomeGivenUp(s, o.table)
  {
  }

  lemma ExecutedPids(s: seq<Entry>, taken: set<int>, c: Command, o: Outcome)
    requires Executed(s, taken, c, o)
    ensures Pids(o.table) == Pids(s) + if c.CreateDriver? then [c.pid] else []
  {
    if !c.CreateDriver? {
      ExecutedKeeps(s, taken, c, o);
      SamePids(s, o.table);
    }
  }

  /** What a command puts on the wire is what the driver it is for reads: the task with its number of seconds, or the
      question for its status, sent once to the first driver with that pid if it lives, and to nobody else. */
  lemma CommandReaches(s: seq<Entry>, taken: set<int>, c: Command, o: Outcome)
    requires Executed(s, taken, c, o)
    ensures c.SendTask? && c.words.Some? && 0 < c.words.value.0 && 0 < c.words.value.1 < 0x8000_0000 ==>
      SentOnce(s, c.words.value.0, TaxiDriver.Command.Task(Some(c.words.value.1)), o.sent)
    ensures c.GetStatus? && c.word.Some? && 0 < c.word.value ==>
      SentOnce(s, c.word.value, TaxiDriver.Command.Status, o.sent)
    ensures c.CreateDriver? || c.Unknown? ==> o.sent == []
  {
    hide TaxiDriver.Decode, TaxiDriver.TaskText, AfterAsking, Complaints, ToAll;
    TaxiDriver.CommandByPrefix(TaxiDriver.STATUS);
    if c.SendTask? && c.words.Some? && 0 < c.words.value.0 && 0 < c.words.value.1 < 0x8000_0000 {
      TaxiDriver.DecodeOfTask(c.words.value.1);
    }
  }

  /** One datagram, read as the command, to the first entry with the pid, or none if that is not alive. */
  ghost predicate SentOnce(s: seq<Entry>, pid: int, c: TaxiDriver.Command, sent: seq<Datagram>) {
    var i := FirstPid(s, pid);
    if i < |s| && s[i].alive then |sent| == 1 && sent[0].fd == s[i].fd && TaxiDriver.Decode(sent[0].text) == c
    else sent == []
  }

  /** A text to all goes once to each live driver: the k-th datagram to the k-th of them. */
  lemma {:induction false} ToAllReads(s: seq<Entry>, text: seq<Byte>)
    ensures |ToAll(s, text)| == Alive(s)
    ensures forall i :: 0 <= i < |s| && s[i].alive ==>
      Alive(s[..i]) < Alive(s) && ToAll(s, text)[Alive(s[..i])] == Datagram(s[i].fd, text)
  {
    if s != [] {
      var n := |s| - 1;
      ToAllReads(s[..n], text);
      assert forall i :: 0 <= i < n ==> s[..n][..i] == s[..i] && s[..n][i] == s[i];
    }
  }

  // What reaping and walking mean, entry by entry.

  /** No two live drivers have the same pid. */
  ghost predicate PidsDiffer(s: seq<Entry>) {
    forall i, j :: 0 <= i < j < |s| && s[i].alive && s[j].alive ==> s[i].pid != s[j].pid
  }

  /** Reaping gives up exactly the live drivers whose pids waitpid has given. */
  lemma {:induction false} ReapedIff(s: seq<Entry>, exits: seq<int>)
    requires PidsDiffer(s)
    ensures forall i :: 0 <= i < |s| ==>
      Reaped(s, exits)[i] == if s[i].alive && s[i].pid in exits then GivenUp(s[i]) else s[i]
  {
    if exits != [] {
      var before, p := exits[..|exits| - 1], exits[|exits| - 1];
      assert exits == before + [p];
      ReapedIff(s, before);
      var t := Reaped(s, before);
      var i := FirstAlive(t, p);
      if i < |t| {
        assert forall k :: 0 <= k < |s| && k != i && s[k].alive ==> s[k].pid != p;
      } else {
        assert forall k :: 0 <= k < |s| && s[k].alive && s[k].pid == p ==> p in before;
      }
    }
  }

  /** All that there is to read are messages, up to where there is nothing more yet. */
  ghost predicate ReadsClean(rs: seq<Recv>) {
    exists k :: 0 <= k <= |rs| && (k < |rs| ==> rs[k].Again?) && forall j :: 0 <= j < k ==> rs[j].Data? && rs[j].bytes != []
  }

  lemma CleanIff(rs: seq<Recv>)
    ensures ReadsClean(rs) <==> !EndsBadly(rs)
  {
    if k :| 0 <= k <= |rs| && (k < |rs| ==> rs[k].Again?) && forall j :: 0 <= j < k ==> rs[j].Data? && rs[j].bytes != [] {
      MessagesIs(rs, k);
    }
    if !EndsBadly(rs) {
      assert Messages(rs) < |rs| ==> rs[Messages(rs)].Again?;
    }
  }

  /** A driver outlives the walk exactly if its slot reports no hangup and, if it is readable, all there is to read are
      messages; and no other entry is touched. */
  lemma SparedIff(s: seq<Entry>, revents: nat -> Revents, inbox: nat -> seq<Recv>, i: nat)
    requires i < |s| && s[i].alive
    ensures var r, e := revents(Slot(s, i)), AfterWalk(s, revents, inbox)[i];
      if !r.hangup && (r.readable ==> ReadsClean(inbox(i))) then e == s[i] else e == GivenUp(s[i]) && !e.alive
  {
    CleanIff(inbox(i));
  }

  /** A line the walk owes: message k of a live driver whose slot is readable and not hung up, all messages before it
      read as well. */
  ghost predicate Owes(s: seq<Entry>, revents: nat -> Revents, inbox: nat -> seq<Recv>, i: nat, k: nat, line: Line)
    requires i < |s|
  {
    && s[i].alive && !revents(Slot(s, i)).hangup && revents(Slot(s, i)).readable && k < |inbox(i)|
    && (forall j :: 0 <= j <= k ==> inbox(i)[j].Data? && inbox(i)[j].bytes != [])
    && line == Reply(s[i].pid, CStr(inbox(i)[k].bytes))
  }

  /** The walk prints all it owes and nothing else. */
  lemma {:induction false} WalkedIff(s: seq<Entry>, revents: nat -> Revents, inbox: nat -> seq<Recv>, line: Line)
    ensures line in Walked(s, revents, inbox) <==>
      exists i: nat, k: nat :: i < |s| && Owes(s, revents, inbox, i, k, line)
  {
    if s != [] {
      hide Owes, Shows;
      var n := |s| - 1;
      WalkedIff(s[..n], revents, inbox, line);
      forall i: nat, k: nat | i < n
        ensures Owes(s[..n], revents, inbox, i, k, line) == Owes(s, revents, inbox, i, k, line)
      {
        OwesEarlier(s, revents, inbox, i, k, line);
      }
      LastShows(s, revents, inbox, line);
    }
  }

  lemma OwesEarlier(s: seq<Entry>, revents: nat -> Revents, inbox: nat -> seq<Recv>, i: nat, k: nat, line: Line)
    requires i < |s| - 1
    ensures Owes(s[..|s| - 1], revents, inbox, i, k, line) == Owes(s, revents, inbox, i, k, line)
  {
    assert s[..|s| - 1][..i] == s[..i] && s[..|s| - 1][i] == s[i];
  }

  lemma LastShows(s: seq<Entry>, revents: nat -> Revents, inbox: nat -> seq<Recv>, line: Line)
    requires s != []
    ensures var i := |s| - 1;
      s[i].alive && line in Shows(s[i].pid, revents(Slot(s, i)), inbox(i)) <==>
      exists k: nat :: Owes(s, revents, inbox, i, k, line)
  {
    var i := |s| - 1;
    var rs := inbox(i);
    if s[i].alive && line in Shows(s[i].pid, revents(Slot(s, i)), rs) {
      var k :| 0 <= k < Messages(rs) && Replies(s[i].pid, rs)[k] == line;
      assert Owes(s, revents, inbox, i, k, line);
    }
    if k: nat :| Owes(s, revents, inbox, i, k, line) {
      assert k < Messages(rs);
      assert Replies(s[i].pid, rs)[k] == line;
    }
  }

  /** Asking every driver for its status complains of exactly those it cannot be sent to. */
  lemma {:induction false} ComplaintsIff(s: seq<Entry>, results: nat -> SendResult, line: Line)
    ensures line in Complaints(s, results) <==>
      exists i :: 0 <= i < |s| && s[i].alive &&
        ((results(i).Gone? && line == DriverDead) || (results(i).Failed? && line == SendFailed))
  {
    if s != [] {
      ComplaintsIff(s[..|s| - 1], results, line);
    }
  }

  // Which poll slot the walk reads: pfds has 1 + Alive(s) slots, filled for the table s before the command.

  lemma {:induction false} AliveMonotone(s: seq<Entry>, i: nat)
    requires i < |s|
    ensures Alive(s[..i]) + (if s[i].alive then 1 else 0) <= Alive(s)
  {
    var m := |s| - 1;
    if i < m {
      assert s[..m][..i] == s[..i];
      AliveMonotone(s[..m], i);
    }
  }

  lemma {:induction false} LastAlive(s: seq<Entry>) returns (i: nat)
    requires Alive(s) > 0
    ensures i < |s| && s[i].alive && Alive(s[..i]) == Alive(s) - 1
  {
    i := |s| - 1;
    if !s[i].alive {
      var m := i;
      i := LastAlive(s[..m]);
      assert s[..m][..i] == s[..i];
    }
  }

  /** The walk reads inside a pfds of the given length exactly when no more drivers are live than it has slots for. */
  lemma SlotsInside(s: seq<Entry>, nfds: nat)
    requires nfds >= 1
    ensures (forall i :: 0 <= i < |s| && s[i].alive ==> Slot(s, i) < nfds) <==> Alive(s) <= nfds - 1
  {
    if Alive(s) <= nfds - 1 {
      forall i | 0 <= i < |s| && s[i].alive
        ensures Slot(s, i) < nfds
      {
        AliveMonotone(s, i);
      }
    } else {
      var i := LastAlive(s);
      assert Slot(s, i) == Alive(s);
    }
  }

  /** Entry i reads the slot that was filled for it exactly when no earlier driver has been given up since. */
  lemma {:induction false} OwnSlotIff(s: seq<Entry>, s': seq<Entry>, i: nat)
    requires SomeGivenUp(s, s') && i < |s|
    ensures Slot(s', i) <= Slot(s, i)
    ensures Slot(s', i) == Slot(s, i) <==> forall k :: 0 <= k < i ==> s'[k].alive == s[k].alive
  {
    if i > 0 {
      OwnSlotIff(s, s', i - 1);
      assert s[..i][..i - 1] == s[..i - 1] && s'[..i][..i - 1] == s'[..i - 1];
    }
  }

  /** After a command the walk reads past the end of pfds exactly when the command has created a driver. */
  lemma WalkInsideIff(s: seq<Entry>, taken: set<int>, c: Command, o: Outcome)
    requires Executed(s, taken, c, o)
    ensures (forall i :: 0 <= i < |o.table| && o.table[i].alive ==> Slot(o.table, i) < 1 + Alive(s))
      <==> !c.CreateDriver?
  {
    SlotsInside(o.table, 1 + Alive(s));
    if !c.CreateDriver? {
      ExecutedKeeps(s, taken, c, o);
      FewerAlive(s, o.table);
    }
  }

  lemma {:induction false} FewerAlive(s: seq<Entry>, s': seq<Entry>)
    requires SomeGivenUp(s, s')
    ensures Alive(s') <= Alive(s)
  {
    if s != [] {
      FewerAlive(s[..|s| - 1], s'[..|s| - 1]);
    }
  }

  /** A turn of the main loop that poll does not interrupt: what poll reports by slot, whatever memory holds past the
      last one, and what there is to read by entry. */
  datatype Turn = Turn(exits: seq<int>, command: Option<Command>, revents: nat -> Revents, inbox: nat -> seq<Recv>)
  {
    function NewPids(): seq<int> {
      if command.Some? && command.value.CreateDriver? then [command.value.pid] else []
    }
  }

  function Pids(s: seq<Entry>): seq<int> {
    if s == [] then [] else Pids(s[..|s| - 1]) + [s[|s| - 1].pid]
  }

  /** The drivers created in a run, in order. */
  function CreatedPids(turns: seq<Turn>): seq<int> {
    if turns == [] then [] else CreatedPids(turns[..|turns| - 1]) + turns[|turns| - 1].NewPids()
  }
}
