/** Whole transfers: the client of Tftp against a sender after sections 2 and 6 of RFC 1350. */
module TftpTransfer {
  import opened Bytes
  import opened Tftp
  import Ip
  import Udp

  // ---------- The sender ----------

  /** Data block n of a file, counted from 1. */
  function Block(f: seq<byte>, n: nat): (r: seq<byte>)
    requires 1 <= n <= LastBlock(f)
    ensures |r| == if n < LastBlock(f) then BLOCK_SIZE else |f| % BLOCK_SIZE
  {
    f[BLOCK_SIZE * (n - 1)..Min(BLOCK_SIZE * n, |f|)]
  }

  /** The first block shorter than 512 bytes; it is empty when the length is a multiple. */
  function LastBlock(f: seq<byte>): nat {
    |f| / BLOCK_SIZE + 1
  }

  /** The DATA packet of block n. The block number on the wire has 16 bits. */
  function DataPacket(f: seq<byte>, port: nat, n: nat): Incoming
    requires 1 <= n <= LastBlock(f)
  {
    Incoming(port, Some(Be16(3) + Be16(n) + Block(f, n)))
  }

  /** The sender repeats or waits on block n until it is acknowledged. */
  datatype Sender = Sending(n: nat) | Done

  /** What the sender takes for an acknowledgement of block n: a packet of UDP over IPv4 that
      is addressed to it, from the address and port it sends to. */
  predicate IsAckOf(packet: seq<byte>, server: IpAddress, port: nat, n: nat) {
    && |packet| == 32
    && packet[0] == 0x45 && WordAt(packet, 2) == 32 && packet[9] == 17
    && packet[12..16] == [192, 168, 1, 102] && packet[16..20] == server
    && WordAt(packet, 20) == 60706 && WordAt(packet, 22) == port && WordAt(packet, 24) == 12
    && WordAt(packet, 28) == 4 && WordAt(packet, 30) == n % 65536
  }

  function OnAck(f: seq<byte>, server: IpAddress, port: nat, s: Sender, packet: seq<byte>): Sender {
    if s.Sending? && IsAckOf(packet, server, port, s.n) then
      if s.n < LastBlock(f) then Sending(s.n + 1) else Done
    else s
  }

  // ---------- In step ----------

  datatype Transfer = Transfer(client: State, sender: Sender)

  /** One exchange over a wire that delivers in order and exactly once. */
  function Round(c: Config, f: seq<byte>, port: nat, t: Transfer): Transfer {
    if t.sender.Sending? && 1 <= t.sender.n <= LastBlock(f) then
      var client := Handle(c, t.client, DataPacket(f, port, t.sender.n));
      if |client.sent| > |t.client.sent|
      then Transfer(client, OnAck(f, c.server, port, t.sender, client.sent[|client.sent| - 1]))
      else Transfer(client, t.sender)
    else t
  }

  function Rounds(c: Config, f: seq<byte>, port: nat, k: nat): Transfer {
    if k == 0 then Transfer(Start(), Sending(1)) else Round(c, f, port, Rounds(c, f, port, k - 1))
  }

  /** The acknowledgements of blocks 1 to k. */
  function AcksTo(c: Config, port: nat, k: nat): seq<seq<byte>> {
    if k == 0 then [] else AcksTo(c, port, k - 1) + [AckPacket(c, port, k)]
  }

  lemma AckFields(c: Config, port: nat, n: nat)
    requires port < 65536
    ensures IsAckOf(AckPacket(c, port, n), c.server, port, n)
  {
    var f := IpFields(c, 12);
    var h, d := Ip.Header(f, c.device), Udp.Datagram(CLIENT_PORT, port, Ack(n));
    Ip.HeaderBytes(f, c.device);
    Udp.DatagramBytes(CLIENT_PORT, port, Ack(n));
    AckWords(n);
    hide Ip.Header, Udp.Datagram, Ack;
    Behind(h, d);
    assert d[8..][..2] == d[8..10] && d[8..][2..] == d[10..12];
    Behind(d[..8], d[8..]);
    assert d[..8] + d[8..] == d;
  }

  lemma AckWords(n: nat)
    ensures WordAt(Ack(n), 0) == 4 && WordAt(Ack(n), 2) == n % 65536
  {
    assert Ack(n)[..2] == Be16(4) && Ack(n)[2..] == Be16(n);
  }

  /** The fields of a message keep their values when it is put behind another. */
  lemma Behind(a: seq<byte>, b: seq<byte>)
    ensures forall i: nat :: i < |a| ==> (a + b)[i] == a[i]
    ensures forall i: nat :: i + 2 <= |a| ==> WordAt(a + b, i) == WordAt(a, i)
    ensures forall i: nat, j: nat :: i <= j <= |a| ==> (a + b)[i..j] == a[i..j]
    ensures forall i: nat :: i + 2 <= |b| ==> WordAt(a + b, |a| + i) == WordAt(b, i)
  {
  }

  /** The read request that opens a transfer, for every name that fits: UDP over IPv4 like the
      acknowledgements, but to port 69, with opcode 1, the name and the mode "netascii", each
      ended by a zero byte (section 5 of RFC 1350). */
  lemma ReadPacketBytes(c: Config, filename: seq<byte>)
    requires |filename| <= 32747
    ensures var r := ReadPacket(c, Start().serverPort, filename);
            && r.Made? && |r.bytes| == 40 + |filename|
            && r.bytes[9] == 17 && r.bytes[12..16] == [192, 168, 1, 102] && r.bytes[16..20] == c.server
            && WordAt(r.bytes, 20) == 60706 && WordAt(r.bytes, 22) == 69
            && r.bytes[28..] == [0, 1] + filename + [0] + [110, 101, 116, 97, 115, 99, 105, 105] + [0]
  {
    var request := ReadRequest(filename);
    Udp.CreatedExactly(CLIENT_PORT, 69, request);
    Udp.DatagramBytes(CLIENT_PORT, 69, request);
    var d := Udp.Datagram(CLIENT_PORT, 69, request);
    Ip.HeaderBytes(IpFields(c, |d|), c.device);
    var h := Ip.Header(IpFields(c, |d|), c.device);
    assert Be16(1) == [0, 1];
    hide Ip.Header, Udp.Datagram, Be16;
    Behind(h, d);
    assert (h + d)[28..] == d[8..];
  }

  lemma DataPacketRead(f: seq<byte>, port: nat, n: nat)
    requires 1 <= n <= LastBlock(f)
    ensures var p := DataPacket(f, port, n);
            IsData(p) && WordAt(p.data.value, 2) == n % 65536 && p.data.value[4..] == Block(f, n)
  {
    var d := Be16(3) + Be16(n) + Block(f, n);
    assert d[..2] == Be16(3) && d[2..4] == Be16(n);
    assert d[0] == d[..2][0] && d[1] == d[..2][1] && d[2] == d[2..4][0] && d[3] == d[2..4][1];
    assert d[4..] == Block(f, n);
  }

  lemma Prefixes(f: seq<byte>, n: nat)
    requires 1 <= n <= LastBlock(f)
    ensures BLOCK_SIZE * (n - 1) <= |f|
    ensures f[..BLOCK_SIZE * (n - 1)] + Block(f, n) == f[..Min(BLOCK_SIZE * n, |f|)]
    ensures n == LastBlock(f) ==> Min(BLOCK_SIZE * n, |f|) == |f|
  {
  }

  /** The block counter behind block n: the next one in 16 bits, or 1 for another file. */
  function NextBlock(f: seq<byte>, n: nat): int {
    if n < LastBlock(f) then Short(n + 1) else 1
  }

  /** What the client makes of the block it expects. */
  lemma ClientAdvances(c: Config, f: seq<byte>, port: nat, s: State, n: nat)
    requires port < 65536 && s.open
    requires 1 <= n <= LastBlock(f) && BLOCK_SIZE * (n - 1) <= |f| && s.file == f[..BLOCK_SIZE * (n - 1)]
    ensures var r := Handle(c, s, DataPacket(f, port, n));
            && r.file == f[..Min(BLOCK_SIZE * n, |f|)]
            && r.open == (n < LastBlock(f))
            && r.sent == s.sent + [AckPacket(c, port, n)]
            && r.serverPort == port && r.block == NextBlock(f, n)
  {
    var p := DataPacket(f, port, n);
    DataPacketRead(f, port, n);
    Prefixes(f, n);
    AckBlockModulo(c, port, n);
    ShortModulo(n);
    ShortSuccessor(n);
    hide AckPacket, IsAckOf, Block, IsData, DataPacket, Short, LastBlock, WordAt;
    var t := s.(serverPort := port);
    assert Handle(c, s, p) == OnData(c, t, Short(n), Block(f, n)) by {
      assert p.sourcePort == port && Unsigned16(port) == port;
    }
  }

  /** One round in which the sender is at block n and the client has what precedes it. */
  lemma RoundAdvances(c: Config, f: seq<byte>, port: nat, t: Transfer)
    requires port < 65536 && t.sender.Sending? && 1 <= t.sender.n <= LastBlock(f) && t.client.open
    requires BLOCK_SIZE * (t.sender.n - 1) <= |f| && t.client.file == f[..BLOCK_SIZE * (t.sender.n - 1)]
    ensures var n := t.sender.n;
            var r := Round(c, f, port, t);
            && r.client.file == f[..Min(BLOCK_SIZE * n, |f|)]
            && r.client.open == (n < LastBlock(f))
            && r.client.sent == t.client.sent + [AckPacket(c, port, n)]
            && r.client.serverPort == port && r.client.block == NextBlock(f, n)
            && r.sender == if n < LastBlock(f) then Sending(n + 1) else Done
  {
    ClientAdvances(c, f, port, t.client, t.sender.n);
    AckFields(c, port, t.sender.n);
    hide AckPacket, IsAckOf, DataPacket, Handle;
  }

  /** The state of the two sides after k blocks. */
  ghost predicate InStep(c: Config, f: seq<byte>, port: nat, t: Transfer, k: nat) {
    && t.client.file == f[..Min(BLOCK_SIZE * k, |f|)]
    && t.client.sent == AcksTo(c, port, k)
    && t.client.open == (k < LastBlock(f))
    && t.client.block == NextBlock(f, k) && t.client.serverPort == (if k == 0 then 69 else port)
    && t.sender == if k < LastBlock(f) then Sending(k + 1) else Done
  }

  lemma StaysInStep(c: Config, f: seq<byte>, port: nat, t: Transfer, k: nat)
    requires port < 65536 && 1 <= k <= LastBlock(f)
    requires InStep(c, f, port, t, k - 1)
    ensures InStep(c, f, port, Round(c, f, port, t), k)
  {
    Prefixes(f, k);
    assert Min(BLOCK_SIZE * (k - 1), |f|) == BLOCK_SIZE * (k - 1);
    hide Round, AckPacket;
    RoundAdvances(c, f, port, t);
  }

  /** Whole-transfer correctness: after k blocks the file is the first min(512k, length)
      bytes of the source and blocks 1 to k have been acknowledged, however often the 16-bit
      block number has wrapped; after length/512 + 1 blocks both sides are done. */
  lemma {:induction false} TransferCorrect(c: Config, f: seq<byte>, port: nat, k: nat)
    requires port < 65536 && k <= LastBlock(f)
    ensures InStep(c, f, port, Rounds(c, f, port, k), k)
  {
    if k > 0 {
      TransferCorrect(c, f, port, k - 1);
      hide InStep, Round, LastBlock;
      StaysInStep(c, f, port, Rounds(c, f, port, k - 1), k);
    }
  }

  /** The transfer ends with the whole file, whatever its length. */
  lemma TransferCompletes(c: Config, f: seq<byte>, port: nat)
    requires port < 65536
    ensures var t := Rounds(c, f, port, |f| / 512 + 1);
            t.client.file == f && !t.client.open && t.sender == Done
  {
    TransferCorrect(c, f, port, LastBlock(f));
    Prefixes(f, LastBlock(f));
    assert f[..|f|] == f;
  }

  // ---------- Repeated delivery ----------

  function Copies(p: Incoming, k: nat): (r: seq<Incoming>)
    ensures |r| == k && forall i :: 0 <= i < k ==> r[i] == p
  {
    seq(k, _ => p)
  }

  /** What stop and wait can deliver from block a on: in order and without loss, but each
      block as often as the wire or the sender repeats it. */
  function Delivery(f: seq<byte>, port: nat, a: nat, reps: seq<nat>): seq<Incoming>
    requires 1 <= a && a + |reps| - 1 <= LastBlock(f)
    decreases |reps|
  {
    if reps == [] then [] else Copies(DataPacket(f, port, a), reps[0]) + Delivery(f, port, a + 1, reps[1..])
  }

  predicate AllArrive(reps: seq<nat>) {
    forall i :: 0 <= i < |reps| ==> reps[i] >= 1
  }

  /** Every block but the last arrives once. */
  predicate OnceEach(reps: seq<nat>) {
    forall i :: 0 <= i < |reps| - 1 ==> reps[i] == 1
  }

  /** The deliveries too many, those of the last block aside. */
  function Extra(reps: seq<nat>): nat
    requires AllArrive(reps)
  {
    if |reps| <= 1 then 0 else reps[0] - 1 + Extra(reps[1..])
  }

  lemma {:induction false} ExtraNone(reps: seq<nat>)
    requires AllArrive(reps)
    ensures Extra(reps) == 0 <==> OnceEach(reps)
    decreases |reps|
  {
    if |reps| > 1 {
      ExtraNone(reps[1..]);
      assert forall i :: 0 < i < |reps| ==> reps[i] == reps[1..][i - 1];
    }
  }

  /** What a sequence of packets leaves in the file. */
  function Written(packets: seq<Incoming>): seq<byte> {
    UpToShort(Contents(packets))
  }

  lemma WrittenFirst(p: Incoming, rest: seq<Incoming>)
    requires IsData(p)
    ensures var content := p.data.value[4..];
            Written([p] + rest) == if |content| < BLOCK_SIZE then content else content + Written(rest)
  {
    assert ([p] + rest)[1..] == rest;
    assert Contents([p] + rest) == [p.data.value[4..]] + Contents(rest);
    assert ([p.data.value[4..]] + Contents(rest))[1..] == Contents(rest);
  }

  lemma CopiesFirst(p: Incoming, k: nat, rest: seq<Incoming>)
    requires k > 0
    ensures Copies(p, k) + rest == [p] + (Copies(p, k - 1) + rest)
  {
  }

  /** A full block is written as often as it arrives. */
  lemma {:induction false} CopiesWritten(p: Incoming, k: nat, rest: seq<Incoming>)
    requires IsData(p) && |p.data.value| == 4 + BLOCK_SIZE
    ensures |Written(Copies(p, k) + rest)| == BLOCK_SIZE * k + |Written(rest)|
    ensures k == 1 ==> Written(Copies(p, k) + rest) == p.data.value[4..] + Written(rest)
    decreases k
  {
    if k == 0 {
      assert Copies(p, 0) + rest == rest;
    } else {
      CopiesWritten(p, k - 1, rest);
      CopiesFirst(p, k, rest);
      WrittenFirst(p, Copies(p, k - 1) + rest);
      hide Written, IsData, Copies;
      assert k == 1 ==> Copies(p, 0) + rest == rest;
    }
  }

  /** From block a on, each repetition of a block but the last adds 512 bytes; without any,
      the rest of the file is written as it is. */
  lemma {:induction false} DeliveryWritten(f: seq<byte>, port: nat, a: nat, reps: seq<nat>)
    requires 1 <= a <= LastBlock(f) && a + |reps| - 1 == LastBlock(f) && AllArrive(reps)
    ensures BLOCK_SIZE * (a - 1) <= |f|
    ensures |Written(Delivery(f, port, a, reps))| == |f| - BLOCK_SIZE * (a - 1) + BLOCK_SIZE * Extra(reps)
    ensures Extra(reps) == 0 ==> Written(Delivery(f, port, a, reps)) == f[BLOCK_SIZE * (a - 1)..]
    decreases |reps|
  {
    var p, rest := DataPacket(f, port, a), Delivery(f, port, a + 1, reps[1..]);
    DataPacketRead(f, port, a);
    Prefixes(f, a);
    hide Written, IsData, DataPacket;
    if |reps| == 1 {
      CopiesFirst(p, reps[0], rest);
      WrittenFirst(p, Copies(p, reps[0] - 1) + rest);
    } else {
      CopiesWritten(p, reps[0], rest);
      DeliveryWritten(f, port, a + 1, reps[1..]);
      assert f[BLOCK_SIZE * (a - 1)..] == Block(f, a) + f[BLOCK_SIZE * a..];
    }
  }

  /** Which deliveries give the source: after any stop-and-wait delivery of all blocks, the
      client's file is the source if and only if no block but the last arrived twice. */
  lemma DeliveredExactly(c: Config, f: seq<byte>, port: nat, reps: seq<nat>)
    requires |reps| == LastBlock(f) && AllArrive(reps)
    ensures var file := HandleAll(c, Start(), Delivery(f, port, 1, reps)).file;
            && |file| == |f| + BLOCK_SIZE * Extra(reps)
            && (file == f <==> OnceEach(reps))
  {
    var packets := Delivery(f, port, 1, reps);
    LogRefinement(c, Start(), packets);
    assert HandleAll(c, Start(), packets).file == [] + Written(packets) == Written(packets);
    hide HandleAll, Written, Delivery, Extra, OnceEach;
    DeliveryWritten(f, port, 1, reps);
    ExtraNone(reps);
    assert f[BLOCK_SIZE * 0..] == f;
  }

  /** One such delivery: any block but the last arrives twice, and the file is a block too long. */
  lemma DuplicateDelivered(c: Config, f: seq<byte>, port: nat, d: nat)
    requires 1 <= d < LastBlock(f)
    ensures var reps := Once(LastBlock(f))[d - 1 := 2];
            && |HandleAll(c, Start(), Delivery(f, port, 1, reps)).file| == |f| + BLOCK_SIZE
            && HandleAll(c, Start(), Delivery(f, port, 1, reps)).file != f
  {
    var reps := Once(LastBlock(f))[d - 1 := 2];
    DeliveredExactly(c, f, port, reps);
    OneExtra(LastBlock(f), d - 1);
  }

  function Once(n: nat): (r: seq<nat>)
    ensures |r| == n && AllArrive(r) && OnceEach(r)
  {
    seq(n, _ => 1)
  }

  lemma {:induction false} OneExtra(n: nat, d: nat)
    requires d + 1 < n
    ensures Extra(Once(n)[d := 2]) == 1
    decreases d
  {
    var reps := Once(n)[d := 2];
    if d == 0 {
      assert reps[1..] == Once(n - 1);
      ExtraNone(Once(n - 1));
    } else {
      assert reps[1..] == Once(n - 1)[d - 1 := 2];
      OneExtra(n - 1, d - 1);
    }
  }
}
