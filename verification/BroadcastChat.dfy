/** The message-queue chat server (chat_server.c): it replays a bounded history to each client that joins and
    sends everything that follows to all clients. */
module BroadcastChat {
  import opened Words

  const MAX_CLIENTS := 10
  const MAX_HISTORY := 100
  const MAX_TEXT := 256

  /** struct chat_msg; kind is 'J', 'M' or 'S', or anything else a client may send. */
  datatype Msg = Msg(kind: char, name: string, qname: string, text: string)

  /** struct client_info; the descriptor -1 is no queue. */
  datatype ClientInfo = ClientInfo(name: string, qname: string, q: int)

  /** snprintf into a text field */
  function Print(s: string): string {
    if |s| >= MAX_TEXT then s[..MAX_TEXT - 1] else s
  }

  function JoinNotice(name: string): Msg {
    Msg('S', "Server", "", Print(name + " joined chat"))
  }

  function Rejection(name: string): Msg {
    Msg('S', "Server", "", Print("Too many clients, " + name + " rejected"))
  }

  /** A message received, and the descriptor mq_open gives for its queue name. */
  datatype Event = Event(msg: Msg, q: int)

  /** What the server's state amounts to: everything said so far, the client of each slot, and how much had been said
      when it joined. */
  datatype Room = Room(log: seq<Msg>, clients: seq<ClientInfo>, joinedAt: seq<nat>)

  function Step(room: Room, e: Event): Room {
    if e.msg.kind == 'J' then
      if |room.clients| >= MAX_CLIENTS || e.q == -1 then room else
      Room(room.log + [JoinNotice(e.msg.name)],
           room.clients + [ClientInfo(e.msg.name, e.msg.qname, e.q)], room.joinedAt + [|room.log|])
    else if e.msg.kind == 'M' then room.(log := room.log + [e.msg])
    else room
  }

  function Exec(es: seq<Event>): Room {
    if es == [] then Room([], [], []) else Step(Exec(es[..|es| - 1]), es[|es| - 1])
  }

  /** What a client that joined at position p of the log has been sent: the history of that moment, then everything. */
  function Stream(log: seq<Msg>, p: nat): seq<Msg>
    requires p <= |log|
  {
    log[..if p <= MAX_HISTORY then p else MAX_HISTORY] + log[p..]
  }

  class Server {
    const clients: array<ClientInfo>
    var clientCount: nat
    const history: array<Msg>
    var historyCount: nat

    /** Everything broadcast, and for each client slot how much of it there was when it joined. */
    ghost var log: seq<Msg>
    ghost var joinedAt: seq<nat>
    /** What has been sent to the queue of each client slot. */
    ghost var sent: seq<seq<Msg>>

    /** The tables hold what the ghost log says. */
    ghost predicate Tables()
      reads this, clients, history
    {
      && clients.Length == MAX_CLIENTS && history.Length == MAX_HISTORY
      && clientCount <= MAX_CLIENTS && |sent| == |joinedAt| == clientCount
      && (forall c :: 0 <= c < clientCount ==> clients[c].q != -1)
      && historyCount == (if |log| <= MAX_HISTORY then |log| else MAX_HISTORY)
      && history[..historyCount] == log[..historyCount]
    }

    /** Every client has been sent exactly its stream of the log. */
    ghost predicate Valid()
      reads this, clients, history
    {
      && Tables()
      && (forall c :: 0 <= c < clientCount ==> joinedAt[c] <= |log| && sent[c] == Stream(log, joinedAt[c]))
    }

    ghost function Abstract(): Room
      requires Tables()
      reads this, clients, history
    {
      Room(log, clients[..clientCount], joinedAt)
    }

    constructor ()
      ensures Valid() && Abstract() == Room([], [], [])
      ensures fresh(clients) && fresh(history)
    {
      clients := new ClientInfo[MAX_CLIENTS](_ => ClientInfo("", "", -1));
      history := new Msg[MAX_HISTORY](_ => Msg('S', "", "", ""));
      clientCount, historyCount := 0, 0;
      log, joinedAt, sent := [], [], [];
    }

    /** mq_send to the queue of a client slot, which succeeds. */
    ghost method Send(c: nat, msg: Msg)
      requires c < |sent|
      modifies `sent
      ensures sent == old(sent)[c := old(sent[c]) + [msg]]
    {
      sent := sent[c := sent[c] + [msg]];
    }

    /** send_to_all, for the message the log has just been extended by. */
    method SendToAll(msg: Msg)
      requires Tables() && log != [] && log[|log| - 1] == msg
      requires forall c :: 0 <= c < clientCount ==> joinedAt[c] < |log| && sent[c] == Stream(log[..|log| - 1], joinedAt[c])
      modifies `sent
      ensures Valid()
    {
      var i := 0;
      while i < clientCount
        invariant 0 <= i <= clientCount && Tables()
        invariant forall c :: 0 <= c < i ==> sent[c] == Stream(log, joinedAt[c])
        invariant forall c :: i <= c < clientCount ==> sent[c] == Stream(log[..|log| - 1], joinedAt[c])
      {
        if clients[i].q != -1 {
          StreamGrows(log[..|log| - 1], msg, joinedAt[i]);
          assert log == log[..|log| - 1] + [msg];
          Send(i, msg);
        }
        i := i + 1;
      }
    }

    /** The step that keeps a message in the history while there is room, and in the ghost log always. */
    method Remember(msg: Msg)
      requires Tables()
      modifies `log, `historyCount, history
      ensures Tables() && log == old(log) + [msg]
    {
      if historyCount < MAX_HISTORY {
        history[historyCount] := msg;
        historyCount := historyCount + 1;
      }
      log := log + [msg];
    }

    /** handle_join. rejected is what is sent to the queue of a client there is no room for. */
    method HandleJoin(msg: Msg, q: int) returns (rejected: Option<Msg>)
      requires Valid() && msg.kind == 'J'
      modifies this, clients, history
      ensures Valid() && Abstract() == Step(old(Abstract()), Event(msg, q))
      ensures rejected == if old(clientCount) >= MAX_CLIENTS && q != -1 then Some(Rejection(msg.name)) else None
    {
      rejected := None;
      if clientCount >= MAX_CLIENTS {
        if q != -1 {
          rejected := Some(Rejection(msg.name));
        }
        return;
      }
      if q == -1 {
        return;
      }
      Admit(ClientInfo(msg.name, msg.qname, q));
      var notice := JoinNotice(msg.name);
      Remember(notice);
      SendToAll(notice);
    }

    /** The half of handle_join that fills the slot and replays the history. */
    method Admit(info: ClientInfo)
      requires Valid() && clientCount < MAX_CLIENTS && info.q != -1
      modifies `clientCount, `joinedAt, `sent, clients
      ensures Valid() && clientCount == old(clientCount) + 1
      ensures clients[..clientCount] == old(clients[..clientCount]) + [info]
      ensures joinedAt == old(joinedAt) + [|log|]
    {
      var slot := clientCount;
      clients[slot] := info;
      clientCount := slot + 1;
      joinedAt, sent := joinedAt + [|log|], sent + [[]];
      var i := 0;
      while i < historyCount
        invariant 0 <= i <= historyCount && Tables()
        invariant clientCount == slot + 1 && joinedAt == old(joinedAt) + [|log|]
        invariant clients[..clientCount] == old(clients[..clientCount]) + [info]
        invariant sent[..slot] == old(sent) && sent[slot] == log[..i]
      {
        Send(slot, history[i]);
        assert history[i] == history[..historyCount][i] == log[i];
        i := i + 1;
      }
      assert sent[slot] == Stream(log, |log|);
      assert forall c :: 0 <= c < slot ==> sent[c] == sent[..slot][c];
    }

    /** handle_message */
    method HandleMessage(msg: Msg)
      requires Valid() && msg.kind == 'M'
      modifies this, history
      ensures Valid() && Abstract() == Step(old(Abstract()), Event(msg, -1))
    {
      Remember(msg);
      SendToAll(msg);
    }

    /** The body of the main loop. */
    method Receive(e: Event) returns (rejected: Option<Msg>)
      requires Valid()
      modifies this, clients, history
      ensures Valid() && Abstract() == Step(old(Abstract()), e)
      ensures rejected == if e.msg.kind == 'J' && e.q != -1 && old(clientCount) == MAX_CLIENTS
                          then Some(Rejection(e.msg.name)) else None
    {
      rejected := None;
      if e.msg.kind == 'J' {
        rejected := HandleJoin(e.msg, e.q);
      } else if e.msg.kind == 'M' {
        HandleMessage(e.msg);
      }
    }

    /** The main loop over the messages that arrive. */
    method Serve(es: seq<Event>)
      requires Valid() && Abstract() == Room([], [], [])
      modifies this, clients, history
      ensures Valid() && Abstract() == Exec(es)
    {
      for i := 0 to |es|
        invariant Valid() && Abstract() == Exec(es[..i])
      {
        assert es[..i + 1][..i] == es[..i];
        var rejected := Receive(es[i]);
      }
      assert es[..|es|] == es;
    }
  }

  lemma StreamGrows(log: seq<Msg>, msg: Msg, p: nat)
    requires p <= |log|
    ensures Stream(log + [msg], p) == Stream(log, p) + [msg]
  {
    assert (log + [msg])[p..] == log[p..] + [msg];
  }

  /** In every run at most ten clients are in, in the order of their joining, and the log has each one's join notice
      at the place where it joined, so each stream after the history begins with it. */
  lemma {:induction false} JoinsInLog(es: seq<Event>)
    ensures var room := Exec(es);
      && |room.joinedAt| == |room.clients| <= MAX_CLIENTS
      && (forall c :: 0 <= c < |room.clients| ==>
            room.joinedAt[c] < |room.log| && room.log[room.joinedAt[c]] == JoinNotice(room.clients[c].name))
      && (forall c, d :: 0 <= c < d < |room.clients| ==> room.joinedAt[c] < room.joinedAt[d])
  {
    if es != [] {
      JoinsInLog(es[..|es| - 1]);
    }
  }

  // What a run amounts to, by the events alone.

  /** The messages of kind 'M' among those received, in order. */
  function Talked(es: seq<Event>): seq<Msg> {
    if es == [] then [] else
    var m := es[|es| - 1].msg;
    Talked(es[..|es| - 1]) + if m.kind == 'M' then [m] else []
  }

  /** The clients whose joins found their queue, in order, each with the number of messages of kind 'M' before it. */
  function Knocks(es: seq<Event>): seq<(ClientInfo, nat)> {
    if es == [] then [] else
    var before, e := es[..|es| - 1], es[|es| - 1];
    Knocks(before) +
    if e.msg.kind == 'J' && e.q != -1 then [(ClientInfo(e.msg.name, e.msg.qname, e.q), |Talked(before)|)] else []
  }

  /** The entries of a log that are of kind 'M', and those that are not. */
  function OfKindM(log: seq<Msg>): seq<Msg> {
    if log == [] then [] else
    var m := log[|log| - 1];
    OfKindM(log[..|log| - 1]) + if m.kind == 'M' then [m] else []
  }

  function Others(log: seq<Msg>): seq<Msg> {
    if log == [] then [] else
    var m := log[|log| - 1];
    Others(log[..|log| - 1]) + if m.kind == 'M' then [] else [m]
  }

  lemma Appended(log: seq<Msg>, m: Msg)
    ensures OfKindM(log + [m]) == OfKindM(log) + if m.kind == 'M' then [m] else []
    ensures Others(log + [m]) == Others(log) + if m.kind == 'M' then [] else [m]
  {
    assert (log + [m])[..|log|] == log;
  }

  /** In every run the log holds all messages of kind 'M' that were received, in order and unchanged, and beside them
      one notice for each client, in the order of the table. */
  lemma {:induction false} LogIsTalk(es: seq<Event>)
    ensures var room := Exec(es);
      && OfKindM(room.log) == Talked(es)
      && |Others(room.log)| == |room.clients|
      && forall c :: 0 <= c < |room.clients| ==> Others(room.log)[c] == JoinNotice(room.clients[c].name)
  {
    if es != [] {
      hide JoinNotice;
      var before, e := Exec(es[..|es| - 1]), es[|es| - 1];
      LogIsTalk(es[..|es| - 1]);
      Appended(before.log, e.msg);
      NoticeIsNoTalk(e.msg.name);
      Appended(before.log, JoinNotice(e.msg.name));
    }
  }

  /** What the server says of its own: under its name, as much of the text as 255 characters hold. */
  lemma ServerText(name: string)
    ensures var notice, refusal := JoinNotice(name), Rejection(name);
      && notice.kind == refusal.kind == 'S' && notice.name == refusal.name == "Server"
      && notice.text <= name + " joined chat" && refusal.text <= "Too many clients, " + name + " rejected"
      && (notice.text == name + " joined chat" <==> |name| + 12 <= 255) && |notice.text| <= 255
      && (refusal.text == "Too many clients, " + name + " rejected" <==> |name| + 27 <= 255) && |refusal.text| <= 255
  {
    PrintFits(name + " joined chat");
    PrintFits("Too many clients, " + name + " rejected");
  }

  lemma PrintFits(s: string)
    ensures Print(s) <= s && |Print(s)| <= 255 && (Print(s) == s <==> |s| <= 255)
  {
  }

  lemma NoticeIsNoTalk(name: string)
    ensures JoinNotice(name).kind != 'M'
  {
  }

  /** In every run the clients in are the first ten whose joins found their queue, or all if there were fewer, and each
      one's place in the log is behind the messages received before it and the notices of those that joined before. */
  lemma {:induction false} FirstTenIn(es: seq<Event>)
    ensures var room := Exec(es);
      && |room.clients| == |room.joinedAt| == (if |Knocks(es)| < MAX_CLIENTS then |Knocks(es)| else MAX_CLIENTS)
      && |room.log| == |Talked(es)| + |room.clients|
      && forall c :: 0 <= c < |room.clients| ==>
           room.clients[c] == Knocks(es)[c].0 && room.joinedAt[c] == Knocks(es)[c].1 + c
  {
    if es != [] {
      FirstTenIn(es[..|es| - 1]);
    }
  }

  lemma StreamWholeIff(log: seq<Msg>, p: nat)
    requires p <= |log|
    ensures Stream(log, p) == log <==> p <= MAX_HISTORY
  {
    if p <= MAX_HISTORY {
      assert log[..p] + log[p..] == log;
    } else {
      assert |Stream(log, p)| < |log|;
    }
  }

  /** In every run each client has been sent the whole log exactly if at most 100 messages had been sent when it
      joined; otherwise it misses those from the 101st up to its joining, and only those. */
  lemma {:induction false} WholeLogIff(es: seq<Event>, c: nat)
    requires c < |Exec(es).joinedAt|
    ensures Exec(es).joinedAt[c] <= |Exec(es).log|
    ensures var log, p := Exec(es).log, Exec(es).joinedAt[c];
      && (Stream(log, p) == log <==> p <= MAX_HISTORY)
      && (p > MAX_HISTORY ==> log == log[..MAX_HISTORY] + log[MAX_HISTORY..p] + log[p..] &&
                              Stream(log, p) == log[..MAX_HISTORY] + log[p..])
  {
    hide Exec;
    JoinsInLog(es);
    StreamWholeIff(Exec(es).log, Exec(es).joinedAt[c]);
  }

  /** In every run two clients have been sent the same exactly if both joined in time for the whole log, or with the
      same position in it, which is to be one client. */
  lemma {:induction false} SameStreamIff(es: seq<Event>, c: nat, d: nat)
    requires c < |Exec(es).joinedAt| && d < |Exec(es).joinedAt|
    ensures Exec(es).joinedAt[c] <= |Exec(es).log| && Exec(es).joinedAt[d] <= |Exec(es).log|
    ensures var log, at := Exec(es).log, Exec(es).joinedAt;
      Stream(log, at[c]) == Stream(log, at[d]) <==> c == d || (at[c] <= MAX_HISTORY && at[d] <= MAX_HISTORY)
  {
    hide Exec;
    JoinsInLog(es);
    var log, at := Exec(es).log, Exec(es).joinedAt;
    StreamWholeIff(log, at[c]);
    StreamWholeIff(log, at[d]);
    assert c != d ==> at[c] != at[d];
    assert |Stream(log, at[c])| == |log| - Missed(at[c]) && |Stream(log, at[d])| == |log| - Missed(at[d]);
  }

  /** How many messages a client that joined at position p never sees. */
  function Missed(p: nat): nat {
    if p <= MAX_HISTORY then 0 else p - MAX_HISTORY
  }

  /** Messages that arrive from clients. */
  function Talk(ms: seq<Msg>): seq<Event> {
    seq(|ms|, i requires 0 <= i < |ms| => Event(ms[i], -1))
  }

  lemma {:induction false} TalkOnly(ms: seq<Msg>)
    requires forall i :: 0 <= i < |ms| ==> ms[i].kind == 'M'
    ensures Exec(Talk(ms)) == Room(ms, [], [])
  {
    if ms != [] {
      var n := |ms| - 1;
      TalkOnly(ms[..n]);
      assert Talk(ms)[..n] == Talk(ms[..n]);
      assert ms[..n] + [ms[n]] == ms;
    }
  }

  /** Whoever joins after n messages has been sent all of them exactly if n is at most 100: after 101 there is one it
      never sees. */
  lemma LateJoinerMisses(ms: seq<Msg>, join: Event)
    requires (forall i :: 0 <= i < |ms| ==> ms[i].kind == 'M') && join.msg.kind == 'J' && join.q != -1
    ensures var room := Exec(Talk(ms) + [join]);
      && room.log == ms + [JoinNotice(join.msg.name)] && room.joinedAt == [|ms|]
      && |Stream(room.log, |ms|)| == |room.log| - Missed(|ms|)
      && (Stream(room.log, |ms|) == room.log <==> |ms| <= MAX_HISTORY)
  {
    TalkOnly(ms);
    assert (Talk(ms) + [join])[..|ms|] == Talk(ms);
    StreamWholeIff(ms + [JoinNotice(join.msg.name)], |ms|);
  }

  /** Nothing said is forgotten or changed and no client loses its slot, whatever follows. */
  lemma {:induction false} RoomGrows(es: seq<Event>, more: seq<Event>)
    ensures Exec(es).log <= Exec(es + more).log && Exec(es).clients <= Exec(es + more).clients
    ensures Exec(es).joinedAt <= Exec(es + more).joinedAt
    decreases |more|
  {
    if more == [] {
      assert es + more == es;
    } else {
      assert (es + more)[..|es + more| - 1] == es + more[..|more| - 1];
      RoomGrows(es, more[..|more| - 1]);
    }
  }

  /** A join with ten clients in, or whose queue cannot be opened, changes neither log nor table. */
  lemma RefusedJoin(es: seq<Event>, e: Event)
    requires e.msg.kind == 'J' && (|Exec(es).clients| == MAX_CLIENTS || e.q == -1)
    ensures Exec(es + [e]) == Exec(es)
  {
    assert (es + [e])[..|es|] == es;
  }
}
