/** The echo server's loop (echo_server.c) over the client table, and the client's side (echo_client.c). */
module Echo {
  import opened Words
  import opened Packet
  import opened ClientTable
  import opened Decimal

  /** "shutdown" */
  const SHUTDOWN: seq<Byte> := [115, 104, 117, 116, 100, 111, 119, 110]

  datatype Config = Config(order: HostOrder, listenPort: Word16, pid: nat)

  /** What a received packet means to the server. */
  datatype Event =
    | Ignored
    | Shutdown(key: Key)
    | Data(key: Key, to: Word32, text: seq<Byte>)

  function Classify(cfg: Config, pkt: seq<Byte>): Event {
    match Parse(cfg.order, pkt)
    case None => Ignored
    case Some(d) =>
      if d.dstPort != cfg.listenPort then Ignored else
      var key := Key(d.src, d.srcPort);
      var payload := Payload(pkt, d);
      if payload == SHUTDOWN then Shutdown(key) else
      Data(key, d.dst, CStr(payload[..if |payload| > MAX_PAYLOAD then MAX_PAYLOAD else |payload|] + [0]))
  }

  /** "%s %u" */
  function ReplyText(text: seq<Byte>, counter: Word32): seq<Byte> {
    text + [SPACE] + Digits(counter)
  }

  function ReplyBuild(cfg: Config, e: Event, counter: Word32): Build
    requires e.Data?
  {
    Build(e.to, e.key.ip, cfg.listenPort, e.key.port, ReplyText(e.text, counter), 64, cfg.pid)
  }

  /** The packet that answers a datagram, if its text fits in one. */
  function Answer(cfg: Config, e: Event, counter: Word32): Option<seq<Byte>>
    requires e.Data?
  {
    var reply := ReplyBuild(cfg, e, counter);
    if |reply.payload| <= MAX_PAYLOAD then Some(Built(cfg.order, reply)) else None
  }

  datatype Outcome = Outcome(counters: map<Key, Word32>, sent: Option<seq<Byte>>)

  /** The counters after one turn of the receive loop. */
  function Counted(cfg: Config, counters: map<Key, Word32>, pkt: seq<Byte>, alloc: bool): map<Key, Word32> {
    match Classify(cfg, pkt)
    case Ignored => counters
    case Shutdown(key) => counters - {key}
    case Data(key, _, _) => if key in counters || alloc then counters[key := Bumped(counters, key)] else counters
  }

  /** One turn of the receive loop, on the map the client table stands for. */
  function Step(cfg: Config, counters: map<Key, Word32>, pkt: seq<Byte>, alloc: bool): Outcome {
    var e := Classify(cfg, pkt);
    Outcome(Counted(cfg, counters, pkt, alloc),
            if e.Data? && (e.key in counters || alloc) then Answer(cfg, e, Bumped(counters, e.key)) else None)
  }

  class Server {
    const cfg: Config
    const table: Table
    const out: array<Byte>

    constructor (cfg: Config, table: Table)
      ensures this.cfg == cfg && this.table == table && fresh(out) && out.Length == 65536
    {
      this.cfg, this.table := cfg, table;
      out := new Byte[65536];
    }

    /** The second half of the receive loop: formats and builds the answer in the out buffer. */
    method BuildAnswer(d: Datagram, payload: seq<Byte>, counter: Word32, ghost e: Event) returns (sent: Option<seq<Byte>>)
      requires out.Length == 65536 && |payload| == d.len
      requires e.Data? && e.to == d.dst && e.key == Key(d.src, d.srcPort)
      requires e.text == CStr(payload[..if |payload| > MAX_PAYLOAD then MAX_PAYLOAD else |payload|] + [0])
      modifies out
      ensures sent == Answer(cfg, e, counter)
    {
      var copy := if d.len > MAX_PAYLOAD then MAX_PAYLOAD else d.len;
      var msg := payload[..copy] + [0];
      var resp := ReplyText(CStr(msg), counter);
      var b := Build(d.dst, d.src, cfg.listenPort, d.srcPort, resp, 64, cfg.pid);
      var pktLen := BuildIpv4Udp(cfg.order, out, b);
      if pktLen < 0 {
        return None;
      }
      assert out[..pktLen] == Built(cfg.order, b);
      return Some(out[..pktLen]);
    }

    /** The body of the receive loop. sent is the packet handed to the send socket. */
    method Receive(pkt: seq<Byte>, alloc: bool) returns (sent: Option<seq<Byte>>)
      requires table.Valid() && out.Length == 65536
      modifies table, table.buckets, table.live, out
      ensures table.Valid() && table.buckets == old(table.buckets) && fresh(table.live - old(table.live))
      ensures Outcome(table.counters, sent) == Step(cfg, old(table.counters), pkt, alloc)
    {
      hide Answer, Bumped, Table.Valid;
      var parsed := Parse(cfg.order, pkt);
      if parsed.None? || parsed.value.dstPort != cfg.listenPort {
        return None;
      }
      var d := parsed.value;
      var key := Key(d.src, d.srcPort);
      var payload := Payload(pkt, d);
      ghost var e := Classify(cfg, pkt);
      if d.len == 8 && payload == SHUTDOWN {
        table.Reset(key);
        return None;
      }
      var ok, counter := table.Next(key, alloc);
      if !ok {
        return None;
      }
      sent := BuildAnswer(d, payload, counter, e);
    }

    /** The loop itself over the packets that arrive, every allocation succeeding. */
    method Serve(pkts: seq<seq<Byte>>) returns (sent: seq<Option<seq<Byte>>>)
      requires table.Valid() && table.counters == map[] && out.Length == 65536
      modifies table, table.buckets, table.live, out
      ensures table.Valid() && table.counters == Run(cfg, pkts)
      ensures |sent| == |pkts| &&
        forall i :: 0 <= i < |pkts| ==> sent[i] == Step(cfg, Run(cfg, pkts[..i]), pkts[i], true).sent
    {
      hide Answer, Classify, Counted, Bumped, Table.Valid;
      sent := [];
      for i := 0 to |pkts|
        invariant table.Valid() && table.buckets == old(table.buckets) && fresh(table.live - old(table.live))
        invariant table.counters == Run(cfg, pkts[..i]) && sent == Sents(cfg, pkts[..i])
      {
        assert pkts[..i + 1][..i] == pkts[..i];
        var answer := Receive(pkts[i], true);
        sent := sent + [answer];
      }
      assert pkts[..|pkts|] == pkts;
      SentsAt(cfg, pkts);
    }
  }

  /** The answers to a run of packets, in order. */
  function Sents(cfg: Config, pkts: seq<seq<Byte>>): seq<Option<seq<Byte>>> {
    if pkts == [] then [] else
    var before := pkts[..|pkts| - 1];
    Sents(cfg, before) + [Step(cfg, Run(cfg, before), pkts[|pkts| - 1], true).sent]
  }

  lemma {:induction false} SentsAt(cfg: Config, pkts: seq<seq<Byte>>)
    ensures |Sents(cfg, pkts)| == |pkts|
    ensures forall i :: 0 <= i < |pkts| ==> Sents(cfg, pkts)[i] == Step(cfg, Run(cfg, pkts[..i]), pkts[i], true).sent
  {
    hide Step, Run;
    if pkts != [] {
      var before := pkts[..|pkts| - 1];
      SentsAt(cfg, before);
      assert forall i :: 0 <= i < |before| ==> before[..i] == pkts[..i] && before[i] == pkts[i];
    }
  }

  /** The counters after a run of packets in which every allocation succeeds. */
  function Run(cfg: Config, pkts: seq<seq<Byte>>): map<Key, Word32> {
    if pkts == [] then map[]
    else Counted(cfg, Run(cfg, pkts[..|pkts| - 1]), pkts[|pkts| - 1], true)
  }

  /** How many datagrams a client has sent in a run since it last sent "shutdown". */
  function SinceShutdown(cfg: Config, pkts: seq<seq<Byte>>, key: Key): nat {
    if pkts == [] then 0 else
    var before := pkts[..|pkts| - 1];
    match Classify(cfg, pkts[|pkts| - 1])
    case Ignored => SinceShutdown(cfg, before, key)
    case Shutdown(k) => if k == key then 0 else SinceShutdown(cfg, before, key)
    case Data(k, _, _) => SinceShutdown(cfg, before, key) + if k == key then 1 else 0
  }

  /** In every run a client's counter is the number of its datagrams since its last "shutdown", modulo 2^32. */
  lemma {:induction false} CounterIsCount(cfg: Config, pkts: seq<seq<Byte>>, key: Key)
    ensures var n := SinceShutdown(cfg, pkts, key);
      (key in Run(cfg, pkts) <==> n > 0) && (n > 0 ==> Run(cfg, pkts)[key] == Wrap32(n))
  {
    if pkts != [] {
      hide Classify;
      var before := pkts[..|pkts| - 1];
      CounterIsCount(cfg, before, key);
      Wrap32Absorb(SinceShutdown(cfg, before, key), 1);
    }
  }

  /** The counter put into the answer to a datagram is the number of its client's datagrams since the last "shutdown",
      this one included, modulo 2^32. */
  lemma CounterComputed(cfg: Config, pkts: seq<seq<Byte>>, pkt: seq<Byte>)
    requires Classify(cfg, pkt).Data?
    ensures var key := Classify(cfg, pkt).key;
      Bumped(Run(cfg, pkts), key) == SinceShutdown(cfg, pkts + [pkt], key) % U32
  {
    hide Classify;
    var key := Classify(cfg, pkt).key;
    var n := SinceShutdown(cfg, pkts, key);
    CounterIsCount(cfg, pkts, key);
    assert (pkts + [pkt])[..|pkts|] == pkts;
    Wrap32Absorb(n, 1);
    Wrap32IsModulo(n + 1);
  }

  /** The packets of a run that come from one client. */
  function Own(cfg: Config, pkts: seq<seq<Byte>>, key: Key): seq<seq<Byte>> {
    if pkts == [] then [] else
    var last := pkts[|pkts| - 1];
    var e := Classify(cfg, last);
    Own(cfg, pkts[..|pkts| - 1], key) + if !e.Ignored? && e.key == key then [last] else []
  }

  lemma {:induction false} CountOfOwn(cfg: Config, pkts: seq<seq<Byte>>, key: Key)
    ensures SinceShutdown(cfg, Own(cfg, pkts, key), key) == SinceShutdown(cfg, pkts, key)
  {
    if pkts != [] {
      var before := pkts[..|pkts| - 1];
      CountOfOwn(cfg, before, key);
      var own := Own(cfg, pkts, key);
      assert own != Own(cfg, before, key) ==> own[..|own| - 1] == Own(cfg, before, key);
    }
  }

  /** Other clients, however their packets interleave and wherever their keys hash, do not matter to a client's counter. */
  lemma Independent(cfg: Config, pkts: seq<seq<Byte>>, others: seq<seq<Byte>>, key: Key)
    requires Own(cfg, pkts, key) == Own(cfg, others, key)
    ensures key in Run(cfg, pkts) <==> key in Run(cfg, others)
    ensures key in Run(cfg, pkts) ==> Run(cfg, pkts)[key] == Run(cfg, others)[key]
  {
    CounterIsCount(cfg, pkts, key);
    CounterIsCount(cfg, others, key);
    CountOfOwn(cfg, pkts, key);
    CountOfOwn(cfg, others, key);
  }

  // The client.

  datatype Peer = Peer(order: HostOrder, serverIp: Word32, serverPort: Word16, localPort: Word16)

  /** The reply filter: the payload printed for a packet that passes it. */
  function Accepted(peer: Peer, pkt: seq<Byte>): Option<seq<Byte>> {
    match Parse(peer.order, pkt)
    case None => None
    case Some(d) =>
      if d.src == peer.serverIp && d.srcPort == peer.serverPort && d.dstPort == peer.localPort
      then Some(Payload(pkt, d)) else None
  }

  /** A packet whose header sends it to a client's address and port. */
  predicate AddressedTo(order: HostOrder, pkt: seq<Byte>, client: Key) {
    && |pkt| >= 28 && pkt[16..20] == Store32(order, client.ip)
    && Parse(order, pkt).Some? && Parse(order, pkt).value.dst == client.ip && Parse(order, pkt).value.dstPort == client.port
  }

  predicate IsNewline(c: Byte) {
    c == 10 || c == 13
  }

  /** Strips the line ends from a line of the given length in place. */
  method StripNewlines(line: array<Byte>, len0: nat) returns (len: nat)
    requires len0 <= line.Length
    modifies line
    ensures len <= len0 && (len > 0 ==> !IsNewline(line[len - 1]))
    ensures forall i :: len <= i < len0 ==> IsNewline(old(line[i])) && line[i] == 0
    ensures forall i :: 0 <= i < line.Length && !(len <= i < len0) ==> line[i] == old(line[i])
  {
    len := len0;
    while len > 0 && IsNewline(line[len - 1])
      invariant len <= len0
      invariant forall i :: len <= i < len0 ==> IsNewline(old(line[i])) && line[i] == 0
      invariant forall i :: 0 <= i < line.Length && !(len <= i < len0) ==> line[i] == old(line[i])
    {
      len := len - 1;
      line[len] := 0;
    }
  }

  /** Waits for a reply among the packets that arrive; None if none of them is one. */
  method AwaitReply(peer: Peer, pkts: seq<seq<Byte>>) returns (printed: Option<seq<Byte>>, n: nat)
    ensures n <= |pkts| && forall i :: 0 <= i < n ==> Accepted(peer, pkts[i]).None?
    ensures n < |pkts| ==> printed == Accepted(peer, pkts[n]) && printed.Some?
    ensures n == |pkts| ==> printed.None?
  {
    n := 0;
    while n < |pkts|
      invariant n <= |pkts| && forall i :: 0 <= i < n ==> Accepted(peer, pkts[i]).None?
    {
      printed := Accepted(peer, pkts[n]);
      if printed.Some? {
        return;
      }
      n := n + 1;
    }
    printed := None;
  }

  /** Splits at the last space: the text before it and the number after it. */
  function SplitLast(s: seq<Byte>): Option<(seq<Byte>, nat)> {
    if s == [] then None
    else if s[|s| - 1] == SPACE then Some((s[..|s| - 1], 0))
    else if !IsDigit(s[|s| - 1]) then None
    else
      match SplitLast(s[..|s| - 1])
      case None => None
      case Some(p) => Some((p.0, 10 * p.1 + (s[|s| - 1] - ZERO)))
  }

  lemma {:induction false} SplitOfDigits(text: seq<Byte>, digits: seq<Byte>)
    requires AllDigits(digits)
    ensures SplitLast(text + [SPACE] + digits) == Some((text, Value(digits)))
  {
    var s := text + [SPACE] + digits;
    if digits == [] {
      assert s[..|s| - 1] == text;
    } else {
      assert s[..|s| - 1] == text + [SPACE] + digits[..|digits| - 1];
      SplitOfDigits(text, digits[..|digits| - 1]);
    }
  }

  /** A datagram that is not a shutdown is answered exactly when its text, a space and the counter fit in 1400 bytes;
      the counter advances either way, and the client that sent it reads both back from the answer. */
  lemma ReplyReaches(cfg: Config, counters: map<Key, Word32>, pkt: seq<Byte>)
    requires Classify(cfg, pkt).Data?
    ensures var e := Classify(cfg, pkt);
      var o := Step(cfg, counters, pkt, true);
      var counter := Bumped(counters, e.key);
      && o.counters == counters[e.key := counter]
      && (o.sent.Some? <==> |e.text| + 1 + |Digits(counter)| <= 1400)
      && (o.sent.Some? ==>
            && AddressedTo(cfg.order, o.sent.value, e.key) && o.sent.value[8] == 64
            && Accepted(Peer(cfg.order, e.to, cfg.listenPort, e.key.port), o.sent.value) == Some(ReplyText(e.text, counter)))
      && SplitLast(ReplyText(e.text, counter)) == Some((e.text, counter))
  {
    var e := Classify(cfg, pkt);
    var counter := Bumped(counters, e.key);
    var b := ReplyBuild(cfg, e, counter);
    if b.Sendable() {
      ParseOfPacket(cfg.order, b);
      FieldsInPlace(cfg.order, b);
    }
    SplitOfDigits(e.text, Digits(counter));
    ValueOfDigits(counter);
  }

  /** A client prints exactly the packets of its server, from the server's port to its own. */
  lemma AcceptedIff(peer: Peer, b: Build)
    requires b.Sendable()
    ensures Accepted(peer, Built(peer.order, b)) ==
      if b.src == peer.serverIp && b.srcPort == peer.serverPort && b.dstPort == peer.localPort
      then Some(b.payload) else None
  {
    hide Built;
    ParseOfPacket(peer.order, b);
  }

  /** A packet to another port, like one that is no UDP packet, counts for nothing and is not answered. */
  lemma OtherPortsIgnored(cfg: Config, counters: map<Key, Word32>, pkt: seq<Byte>, alloc: bool)
    requires Parse(cfg.order, pkt).None? || Parse(cfg.order, pkt).value.dstPort != cfg.listenPort
    ensures Step(cfg, counters, pkt, alloc) == Outcome(counters, None)
  {
  }

  /** Nor is a shutdown answered, or a datagram of a new client there is no memory for, which leaves no trace. */
  lemma NotAnswered(cfg: Config, counters: map<Key, Word32>, pkt: seq<Byte>, alloc: bool)
    ensures var e := Classify(cfg, pkt);
      && (e.Shutdown? ==> Step(cfg, counters, pkt, alloc) == Outcome(counters - {e.key}, None))
      && (e.Data? && e.key !in counters && !alloc ==> Step(cfg, counters, pkt, alloc) == Outcome(counters, None))
  {
    hide Classify, Answer;
  }

  /** What the server makes of a packet a client sends: its sender's key, and the payload as far as its first NUL. */
  lemma RequestArrives(cfg: Config, ip: Word32, peer: Peer, pid: nat, line: seq<Byte>)
    requires peer.order == cfg.order && peer.serverPort == cfg.listenPort && |line| <= MAX_PAYLOAD
    ensures var b := Build(ip, peer.serverIp, peer.localPort, peer.serverPort, line, 64, pid);
      var key := Key(ip, peer.localPort);
      Classify(cfg, Built(cfg.order, b)) == if line == SHUTDOWN then Shutdown(key) else Data(key, peer.serverIp, CStr(line))
  {
    hide Classify, Parse, Built, CStr, Payload;
    var b := Build(ip, peer.serverIp, peer.localPort, peer.serverPort, line, 64, pid);
    ParseOfPacket(cfg.order, b);
    ClassifyParsed(cfg, Built(cfg.order, b), Parse(cfg.order, Built(cfg.order, b)).value);
  }

  lemma ClassifyParsed(cfg: Config, pkt: seq<Byte>, d: Datagram)
    requires Parse(cfg.order, pkt) == Some(d) && d.dstPort == cfg.listenPort && d.len <= MAX_PAYLOAD
    ensures var key, line := Key(d.src, d.srcPort), Payload(pkt, d);
      Classify(cfg, pkt) == if line == SHUTDOWN then Shutdown(key) else Data(key, d.dst, CStr(line))
  {
    hide Parse, CStr;
    var line := Payload(pkt, d);
    CStrTerminated(line);
    assert line[..|line|] == line;
  }

  lemma CStrTerminated(s: seq<Byte>)
    ensures CStr(s + [0]) == CStr(s)
  {
    CStrIs(s + [0], CStr(s));
  }

  /** A client's buffer holds lines of up to 1399 bytes. One of 1399 is never answered, so its client waits for ever;
      up to 1389 bytes are always answered; in between it depends on the counter. */
  lemma ReplyLimits(cfg: Config, counters: map<Key, Word32>, pkt: seq<Byte>)
    requires Classify(cfg, pkt).Data?
    ensures var n := |Classify(cfg, pkt).text|;
      var sent := Step(cfg, counters, pkt, true).sent;
      (n >= 1399 ==> sent.None?) && (n <= 1389 ==> sent.Some?)
  {
    var counter := Bumped(counters, Classify(cfg, pkt).key);
    assert Pow10(10) == 1_0000_0000_00;
    DigitsLength(counter, 10);
  }

  /** From line to line: a client's request is answered exactly when line, space and counter fit in 1400 bytes, and
      what the client then prints is the line, a space and the counter. */
  lemma EchoRoundTrip(cfg: Config, counters: map<Key, Word32>, ip: Word32, peer: Peer, pid: nat, line: seq<Byte>)
    requires peer.order == cfg.order && peer.serverPort == cfg.listenPort
    requires |line| < MAX_PAYLOAD && 0 !in line && line != SHUTDOWN
    ensures var request := Built(cfg.order, Build(ip, peer.serverIp, peer.localPort, peer.serverPort, line, 64, pid));
      var counter := Bumped(counters, Key(ip, peer.localPort));
      var sent := Step(cfg, counters, request, true).sent;
      && (sent.Some? <==> |line| + 1 + |Digits(counter)| <= 1400)
      && (sent.Some? ==> AddressedTo(cfg.order, sent.value, Key(ip, peer.localPort)) &&
                         Accepted(peer, sent.value) == Some(line + [SPACE] + Digits(counter)))
  {
    hide Classify, Built, Step, Accepted, AddressedTo;
    RequestArrives(cfg, ip, peer, pid, line);
    CStrIs(line, line);
    ReplyReaches(cfg, counters, Built(cfg.order, Build(ip, peer.serverIp, peer.localPort, peer.serverPort, line, 64, pid)));
  }
}
