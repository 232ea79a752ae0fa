/** The MAC cache and the table of waiting packets in src/protocol/ProtocolManager.java. */
module ProtocolManager {
  import opened Bytes
  import Arp
  import Jpcap

  const ETHERTYPE_IP := 0x0800
  const ETHERTYPE_ARP := 0x0806

  /** A call of `dataLinkLayer.sendData`. */
  datatype Sent = Sent(data: seq<byte>, mac: MacAddress, frameType: int)

  /** The addresses that stay fixed. */
  datatype Config = Config(device: IpAddress, deviceMac: MacAddress, router: IpAddress)

  /** The static tables. A reply that is not for us stores null under the key "null",
      here None under None. */
  datatype State = State(table: map<Option<IpAddress>, Option<MacAddress>>,
                         waiting: map<IpAddress, seq<byte>>, wire: seq<Sent>)

  datatype Event =
    | Send(data: seq<byte>, ip: IpAddress)
    | Broadcast(data: seq<byte>)
    | Receive(frameType: int, header: seq<byte>)

  function RouterMac(c: Config, table: map<Option<IpAddress>, Option<MacAddress>>): Option<MacAddress> {
    if Some(c.router) in table then table[Some(c.router)] else None
  }

  function ArpRequest(c: Config): Sent {
    Sent(Arp.Message(Arp.REQUEST, c.deviceMac, c.device, Arp.BROADCAST, c.router), Arp.BROADCAST, ETHERTYPE_ARP)
  }

  function Initial(c: Config): State {
    State(map[], map[], [ArpRequest(c)])
  }

  // ---------- One step ----------

  ghost predicate Enumerates<K(!new)>(keys: seq<K>, s: set<K>) {
    && (forall i, j :: 0 <= i < j < |keys| ==> keys[i] != keys[j])
    && (forall k :: k in s <==> k in keys)
  }

  /** The waiting packets, each once, in whatever order the hash map yields its keys. */
  ghost predicate Flushed(frames: seq<Sent>, waiting: map<IpAddress, seq<byte>>, mac: MacAddress) {
    exists keys :: FlushedBy(frames, waiting, mac, keys)
  }

  ghost predicate FlushedBy(frames: seq<Sent>, waiting: map<IpAddress, seq<byte>>, mac: MacAddress,
                            keys: seq<IpAddress>)
  {
    && Enumerates(keys, waiting.Keys)
    && |frames| == |keys|
    && forall i :: 0 <= i < |keys| ==> frames[i] == Sent(waiting[keys[i]], mac, ETHERTYPE_IP)
  }

  function Entered(table: map<Option<IpAddress>, Option<MacAddress>>, o: Arp.Outcome):
    map<Option<IpAddress>, Option<MacAddress>>
  {
    if o.Accepted? then table[Some(o.ip) := Some(o.mac)] else table[None := None]
  }

  ghost predicate ArpStep(c: Config, s: State, header: seq<byte>, t: State) {
    var o := Arp.Analysed(header, c.device);
    if o.Crash? then t == s
    else
      && t.table == Entered(s.table, o)
      && var mac := RouterMac(c, t.table);
         if mac.None? then t.waiting == s.waiting && t.wire == s.wire
         else
           && t.waiting == map[]
           && s.wire <= t.wire
           && Flushed(t.wire[|s.wire|..], s.waiting, mac.value)
  }

  ghost predicate Step(c: Config, s: State, e: Event, t: State) {
    match e
    case Send(data, ip) =>
      var mac := RouterMac(c, s.table);
      if mac.None? then t == State(s.table, s.waiting[ip := data], s.wire + [ArpRequest(c)])
      else t == s.(wire := s.wire + [Sent(data, mac.value, ETHERTYPE_IP)])
    case Broadcast(data) =>
      t == s.(wire := s.wire + [Sent(data, Arp.BROADCAST, ETHERTYPE_IP)])
    case Receive(frameType, header) =>
      if frameType == ETHERTYPE_ARP then ArpStep(c, s, header, t) else t == s
  }

  // ---------- The class ----------

  class Manager {
    const config: Config
    var ipToMacTable: map<Option<IpAddress>, Option<MacAddress>>
    var dataWaitToSend: map<IpAddress, seq<byte>>
    var wire: seq<Sent>

    ghost function Abstract(): State
      reads this
    {
      State(ipToMacTable, dataWaitToSend, wire)
    }

    /** `getInstance` on its first call. */
    constructor (config: Config)
      ensures this.config == config && Abstract() == Initial(config)
    {
      this.config := config;
      ipToMacTable := map[];
      dataWaitToSend := map[];
      wire := [];
      new;
      PrepareRouterMac();
    }

    method PrepareRouterMac()
      modifies this`wire
      ensures wire == old(wire) + [ArpRequest(config)]
    {
      var request := Arp.MakeRequest(config.router, config.deviceMac, config.device);
      wire := wire + [Sent(request, Arp.BROADCAST, ETHERTYPE_ARP)];
    }

    method GetRouterMac() returns (mac: Option<MacAddress>)
      ensures mac == RouterMac(config, ipToMacTable)
    {
      mac := if Some(config.router) in ipToMacTable then ipToMacTable[Some(config.router)] else None;
    }

    method SendData(data: seq<byte>, ip: IpAddress)
      modifies this
      ensures Step(config, old(Abstract()), Send(data, ip), Abstract())
    {
      var mac := GetRouterMac();
      if mac.None? {
        PrepareRouterMac();
        dataWaitToSend := dataWaitToSend[ip := data];
      } else {
        wire := wire + [Sent(data, mac.value, ETHERTYPE_IP)];
      }
    }

    method BroadCast(data: seq<byte>)
      modifies this
      ensures Step(config, old(Abstract()), Broadcast(data), Abstract())
    {
      wire := wire + [Sent(data, Arp.BROADCAST, ETHERTYPE_IP)];
    }

    /** `receivePacket`; IP packets go up the stack and leave these tables alone. The
        result says whether an exception leaves the method. */
    method ReceivePacket(frameType: int, header: seq<byte>) returns (thrown: bool)
      modifies this
      ensures Step(config, old(Abstract()), Receive(frameType, header), Abstract())
      ensures thrown <==> frameType == ETHERTYPE_ARP && Arp.Analysed(header, config.device).Crash?
    {
      thrown := false;
      if frameType == ETHERTYPE_ARP {
        var info := Arp.Analyse(header, config.device);
        if info.Crash? {
          return true;
        }
        if info.Accepted? {
          ipToMacTable := ipToMacTable[Some(info.ip) := Some(info.mac)];
        } else {
          ipToMacTable := ipToMacTable[None := None];
        }
        SendWaitingData();
      }
    }

    method SendWaitingData()
      modifies this`wire, this`dataWaitToSend
      ensures var mac := RouterMac(config, ipToMacTable);
              if mac.None? then wire == old(wire) && dataWaitToSend == old(dataWaitToSend)
              else
                && dataWaitToSend == map[]
                && old(wire) <= wire
                && Flushed(wire[|old(wire)|..], old(dataWaitToSend), mac.value)
    {
      var mac := GetRouterMac();
      if mac.Some? {
        var left := dataWaitToSend.Keys;
        ghost var keys: seq<IpAddress> := [];
        while left != {}
          invariant dataWaitToSend == old(dataWaitToSend)
          invariant left <= dataWaitToSend.Keys
          invariant Enumerates(keys, dataWaitToSend.Keys - left)
          invariant |wire| == |old(wire)| + |keys| && old(wire) <= wire
          invariant forall i :: 0 <= i < |keys| ==>
            keys[i] in dataWaitToSend && wire[|old(wire)| + i] == Sent(dataWaitToSend[keys[i]], mac.value, ETHERTYPE_IP)
          decreases left
        {
          var key :| key in left;
          wire := wire + [Sent(dataWaitToSend[key], mac.value, ETHERTYPE_IP)];
          keys, left := keys + [key], left - {key};
        }
        assert FlushedBy(wire[|old(wire)|..], old(dataWaitToSend), mac.value, keys);
        dataWaitToSend := map[];
      }
    }
  }

  // ---------- Runs ----------

  datatype Run = Run(states: seq<State>, events: seq<Event>)

  ghost predicate IsRun(c: Config, run: Run) {
    && |run.states| == |run.events| + 1
    && run.states[0] == Initial(c)
    && forall i :: 0 <= i < |run.events| ==> Step(c, run.states[i], run.events[i], run.states[i + 1])
  }

  /** The MAC of the latest accepted reply from ip, read off the events alone. */
  function LatestMac(c: Config, events: seq<Event>, ip: IpAddress): Option<MacAddress> {
    if events == [] then None
    else
      var e := events[|events| - 1];
      var o := if e.Receive? && e.frameType == 0x0806 then Arp.Analysed(e.header, c.device) else Arp.NoEntry;
      if o.Accepted? && o.ip == ip then Some(o.mac) else LatestMac(c, events[..|events| - 1], ip)
  }

  function LatestRouterMac(c: Config, events: seq<Event>): Option<MacAddress> {
    LatestMac(c, events, c.router)
  }

  /** The last packet handed to `sendData` for an address. */
  function LastSent(events: seq<Event>, ip: IpAddress): Option<seq<byte>> {
    if events == [] then None
    else
      var e := events[|events| - 1];
      if e.Send? && e.ip == ip then Some(e.data) else LastSent(events[..|events| - 1], ip)
  }

  function Lookup(m: map<IpAddress, seq<byte>>, ip: IpAddress): Option<seq<byte>> {
    if ip in m then Some(m[ip]) else None
  }

  /** The router's entry is known exactly when some reply of its has been accepted, and
      then it is the latest. While it is unknown the table holds, for each address, the
      last packet sent to it; once it is known nothing waits. */
  ghost predicate Consistent(c: Config, events: seq<Event>, s: State) {
    && RouterMac(c, s.table) == LatestRouterMac(c, events)
    && (RouterMac(c, s.table).Some? ==> s.waiting == map[])
    && (RouterMac(c, s.table).None? ==> forall ip :: Lookup(s.waiting, ip) == LastSent(events, ip))
  }

  lemma HistoryLast(c: Config, events: seq<Event>, e: Event)
    ensures LatestRouterMac(c, events + [e])
         == (if !e.Receive? || e.frameType != ETHERTYPE_ARP then LatestRouterMac(c, events)
             else
               var o := Arp.Analysed(e.header, c.device);
               if o.Accepted? && o.ip == c.router then Some(o.mac) else LatestRouterMac(c, events))
    ensures forall ip ::
      LastSent(events + [e], ip) == if e.Send? && e.ip == ip then Some(e.data) else LastSent(events, ip)
  {
    assert (events + [e])[..|events|] == events;
  }

  lemma StepConsistent(c: Config, events: seq<Event>, s: State, e: Event, t: State)
    requires Consistent(c, events, s) && Step(c, s, e, t)
    ensures Consistent(c, events + [e], t)
  {
    HistoryLast(c, events, e);
    hide Arp.Analysed, Arp.Message, LatestRouterMac, LastSent, Flushed;
    if e.Receive? && e.frameType == ETHERTYPE_ARP {
      var o := Arp.Analysed(e.header, c.device);
      var mac := if o.Accepted? && o.ip == c.router then Some(o.mac) else RouterMac(c, s.table);
      assert o.Crash? || RouterMac(c, t.table) == mac;
    }
    if RouterMac(c, t.table).None? {
      forall ip ensures Lookup(t.waiting, ip) == LastSent(events + [e], ip) {
        assert Lookup(s.waiting, ip) == LastSent(events, ip);
      }
    }
  }

  lemma {:induction false} RunConsistent(c: Config, run: Run, n: nat)
    requires IsRun(c, run) && n <= |run.events|
    ensures Consistent(c, run.events[..n], run.states[n])
  {
    if n > 0 {
      RunConsistent(c, run, n - 1);
      assert run.events[..n] == run.events[..n - 1] + [run.events[n - 1]];
      StepConsistent(c, run.events[..n - 1], run.states[n - 1], run.events[n - 1], run.states[n]);
    }
  }

  /** Once the router is known it stays known. */
  lemma {:induction false} RouterStaysKnown(c: Config, run: Run, m: nat, n: nat)
    requires IsRun(c, run) && m <= n <= |run.events|
    requires RouterMac(c, run.states[m].table).Some?
    ensures RouterMac(c, run.states[n].table).Some? && run.states[n].waiting == map[]
    decreases n
  {
    RunConsistent(c, run, n);
    if m < n {
      RouterStaysKnown(c, run, m, n - 1);
      assert Step(c, run.states[n - 1], run.events[n - 1], run.states[n]);
    }
  }

  /** A step only appends to the wire. Without a broadcast, the IP frames it appends carry
      the MAC that the router's entry has afterwards. */
  lemma StepFrames(c: Config, s: State, e: Event, t: State)
    requires Step(c, s, e, t)
    requires RouterMac(c, s.table).Some? ==> s.waiting == map[]
    ensures s.wire <= t.wire
    ensures forall i :: |s.wire| <= i < |t.wire| && t.wire[i].frameType == ETHERTYPE_IP && !e.Broadcast?
              ==> RouterMac(c, t.table) == Some(t.wire[i].mac)
  {
    hide Arp.Analysed, Arp.Message, Entered;
    if e.Receive? && e.frameType == ETHERTYPE_ARP && RouterMac(c, t.table).Some? && t != s {
      var mac := RouterMac(c, t.table).value;
      var frames := t.wire[|s.wire|..];
      var keys :| FlushedBy(frames, s.waiting, mac, keys);
      forall i | |s.wire| <= i < |t.wire| ensures t.wire[i].mac == mac {
        assert t.wire[i] == frames[i - |s.wire|];
      }
    }
  }

  /** Every IP frame a step emits carries the MAC of the latest accepted reply of the router
      as of that step, unless it was asked to be broadcast. */
  lemma FramesCarryLatestMac(c: Config, run: Run, n: nat, i: nat)
    requires IsRun(c, run) && n < |run.events|
    requires |run.states[n].wire| <= i < |run.states[n + 1].wire|
    requires run.states[n + 1].wire[i].frameType == ETHERTYPE_IP && !run.events[n].Broadcast?
    ensures run.states[n].wire <= run.states[n + 1].wire
    ensures LatestRouterMac(c, run.events[..n + 1]) == Some(run.states[n + 1].wire[i].mac)
  {
    RunConsistent(c, run, n);
    RunConsistent(c, run, n + 1);
    hide Step, RouterMac, LatestRouterMac, LastSent;
    StepFrames(c, run.states[n], run.events[n], run.states[n + 1]);
  }

  // ---------- What each event puts on the wire ----------

  /** A broadcast request for the router's address (RFC 826). */
  predicate AsksForRouter(c: Config, frame: Sent) {
    && frame.mac == [255, 255, 255, 255, 255, 255] && frame.frameType == 0x0806
    && |frame.data| == 28 && WordAt(frame.data, 0) == 1 && WordAt(frame.data, 2) == 0x0800
    && frame.data[4] == 6 && frame.data[5] == 4 && WordAt(frame.data, 6) == 1
    && frame.data[8..14] == c.deviceMac && frame.data[14..18] == c.device && frame.data[24..28] == c.router
  }

  lemma RequestAsks(c: Config)
    ensures AsksForRouter(c, ArpRequest(c))
  {
    Arp.MessageBytes(Arp.REQUEST, c.deviceMac, c.device, Arp.BROADCAST, c.router);
    hide Arp.Message, WordAt;
  }

  /** Every run begins with one such request. */
  lemma StartsAsking(c: Config, run: Run)
    requires IsRun(c, run)
    ensures |run.states[0].wire| == 1 && AsksForRouter(c, run.states[0].wire[0])
  {
    RequestAsks(c);
    hide AsksForRouter, ArpRequest;
  }

  /** What the next event of a run adds: a send to an unknown router asks for it again, once,
      and keeps its packet off the wire; a send to a known one is one IP frame to its latest
      MAC; a broadcast is one IP frame to everyone; a received frame makes only IP frames. */
  lemma EventFrames(c: Config, run: Run, n: nat)
    requires IsRun(c, run) && n < |run.events|
    ensures run.states[n].wire <= run.states[n + 1].wire
    ensures var e, mac := run.events[n], LatestRouterMac(c, run.events[..n]);
            var new_ := run.states[n + 1].wire[|run.states[n].wire|..];
            match e
            case Send(data, _) =>
              |new_| == 1 && if mac.None? then AsksForRouter(c, new_[0]) else new_[0] == Sent(data, mac.value, 0x0800)
            case Broadcast(data) => new_ == [Sent(data, [255, 255, 255, 255, 255, 255], 0x0800)]
            case Receive(_, _) => forall i :: 0 <= i < |new_| ==> new_[i].frameType == 0x0800
  {
    var s, e, t := run.states[n], run.events[n], run.states[n + 1];
    RunConsistent(c, run, n);
    assert Step(c, s, e, t);
    hide IsRun, LatestRouterMac, LastSent;
    RequestAsks(c);
    StepAppends(c, s, e, t);
  }

  lemma StepAppends(c: Config, s: State, e: Event, t: State)
    requires Step(c, s, e, t)
    ensures s.wire <= t.wire
    ensures var new_ := t.wire[|s.wire|..];
            match e
            case Send(data, _) =>
              new_ == [if RouterMac(c, s.table).None? then ArpRequest(c)
                       else Sent(data, RouterMac(c, s.table).value, ETHERTYPE_IP)]
            case Broadcast(data) => new_ == [Sent(data, Arp.BROADCAST, ETHERTYPE_IP)]
            case Receive(_, _) => forall i :: 0 <= i < |new_| ==> new_[i].frameType == ETHERTYPE_IP
  {
    hide Arp.Analysed, Arp.Message, Entered, RouterMac;
  }

  // ---------- The cache entry by entry ----------

  /** Some ARP packet was neither accepted nor cut short. */
  predicate SawForeign(c: Config, events: seq<Event>) {
    exists i :: 0 <= i < |events| && Foreign(c, events[i])
  }

  predicate Foreign(c: Config, e: Event) {
    e.Receive? && e.frameType == 0x0806 && Arp.Analysed(e.header, c.device).NoEntry?
  }

  ghost predicate TableExact(c: Config, events: seq<Event>, table: map<Option<IpAddress>, Option<MacAddress>>) {
    && (forall ip :: Some(ip) in table <==> LatestMac(c, events, ip).Some?)
    && (forall ip :: Some(ip) in table ==> table[Some(ip)] == LatestMac(c, events, ip))
    && (None in table <==> SawForeign(c, events))
    && (None in table ==> table[None].None?)
  }

  lemma LatestMacLast(c: Config, events: seq<Event>, e: Event)
    ensures var o := if e.Receive? && e.frameType == 0x0806 then Arp.Analysed(e.header, c.device) else Arp.NoEntry;
            forall ip :: LatestMac(c, events + [e], ip)
                         == if o.Accepted? && o.ip == ip then Some(o.mac) else LatestMac(c, events, ip)
    ensures SawForeign(c, events + [e]) <==> SawForeign(c, events) || Foreign(c, e)
  {
    var all := events + [e];
    assert all[..|events|] == events && all[|events|] == e;
    assert forall i :: 0 <= i < |events| ==> all[i] == events[i];
    hide Foreign;
    if SawForeign(c, events) {
      var i :| 0 <= i < |events| && Foreign(c, events[i]);
      assert Foreign(c, all[i]);
    }
    if Foreign(c, e) {
      assert Foreign(c, all[|events|]);
    }
  }

  lemma StepTable(c: Config, events: seq<Event>, s: State, e: Event, t: State)
    requires Step(c, s, e, t) && TableExact(c, events, s.table)
    ensures TableExact(c, events + [e], t.table)
  {
    LatestMacLast(c, events, e);
    hide Arp.Analysed, Arp.Message, LatestMac, SawForeign, Flushed, RouterMac;
  }

  /** In every reachable state the cache holds, for each address, the MAC of its latest accepted
      reply and nothing else, beside the null entry that any other complete ARP packet leaves. */
  lemma {:induction false} CacheExactly(c: Config, run: Run, n: nat)
    requires IsRun(c, run) && n <= |run.events|
    ensures TableExact(c, run.events[..n], run.states[n].table)
  {
    if n > 0 {
      CacheExactly(c, run, n - 1);
      assert run.events[..n] == run.events[..n - 1] + [run.events[n - 1]];
      assert Step(c, run.states[n - 1], run.events[n - 1], run.states[n]);
      hide TableExact, Step, IsRun;
      StepTable(c, run.events[..n - 1], run.states[n - 1], run.events[n - 1], run.states[n]);
    }
  }

  // ---------- Conservation ----------

  /** The packets in a map, with multiplicity. */
  ghost function Held(m: map<IpAddress, seq<byte>>): multiset<seq<byte>>
    decreases |m|
  {
    if m == map[] then multiset{}
    else
      var k :| k in m;
      multiset{m[k]} + Held(m - {k})
  }

  lemma HeldPick(m: map<IpAddress, seq<byte>>) returns (k: IpAddress)
    requires m != map[]
    ensures k in m && Held(m) == multiset{m[k]} + Held(m - {k})
  {
    k :| k in m && Held(m) == multiset{m[k]} + Held(m - {k});
  }

  lemma Regroup(w: multiset<seq<byte>>, h: multiset<seq<byte>>, r: multiset<seq<byte>>,
                g: multiset<seq<byte>>, x: multiset<seq<byte>>)
    requires h + r == g + x
    ensures w + h + r == w + g + x
  {
    assert w + h + r == w + (h + r);
    assert w + g + x == w + (g + x);
  }

  lemma Accumulate(now: multiset<seq<byte>>, r: multiset<seq<byte>>, before: multiset<seq<byte>>,
                   x: multiset<seq<byte>>, replaced: multiset<seq<byte>>, all: multiset<seq<byte>>)
    requires now + r == before + x && before + replaced == all
    ensures now + (replaced + r) == all + x
  {
    assert now + (replaced + r) == (now + r) + replaced;
    assert (before + x) + replaced == (before + replaced) + x;
  }

  /** Any key may be taken out first. */
  lemma {:induction false} HeldAny(m: map<IpAddress, seq<byte>>, k: IpAddress)
    requires k in m
    ensures Held(m) == multiset{m[k]} + Held(m - {k})
    decreases |m|
  {
    var first := HeldPick(m);
    if first != k {
      HeldAny(m - {first}, k);
      HeldAny(m - {k}, first);
      HeldSwap(m, first, k);
    }
  }

  lemma HeldSwap(m: map<IpAddress, seq<byte>>, first: IpAddress, k: IpAddress)
    requires first in m && k in m && first != k
    requires Held(m) == multiset{m[first]} + Held(m - {first})
    requires Held(m - {first}) == multiset{m[k]} + Held(m - {first} - {k})
    requires Held(m - {k}) == multiset{m[first]} + Held(m - {k} - {first})
    ensures Held(m) == multiset{m[k]} + Held(m - {k})
  {
    hide Held;
    assert m - {first} - {k} == m - {k} - {first};
  }

  lemma HeldUpdate(m: map<IpAddress, seq<byte>>, ip: IpAddress, data: seq<byte>)
    ensures Held(m[ip := data]) + Displaced(m, ip) == Held(m) + multiset{data}
  {
    hide Held;
    HeldAny(m[ip := data], ip);
    assert m[ip := data] - {ip} == m - {ip};
    if ip in m {
      HeldAny(m, ip);
    } else {
      assert m - {ip} == m;
    }
  }

  /** What a new entry for ip pushes out. */
  function Displaced(m: map<IpAddress, seq<byte>>, ip: IpAddress): multiset<seq<byte>> {
    if ip in m then multiset{m[ip]} else multiset{}
  }

  /** The packets in the IP frames that went out. */
  function OnWire(wire: seq<Sent>): multiset<seq<byte>> {
    if wire == [] then multiset{}
    else
      var last := wire[|wire| - 1];
      OnWire(wire[..|wire| - 1]) + if last.frameType == ETHERTYPE_IP then multiset{last.data} else multiset{}
  }

  lemma OnWireLast(wire: seq<Sent>, f: Sent)
    ensures OnWire(wire + [f]) == OnWire(wire) + if f.frameType == ETHERTYPE_IP then multiset{f.data} else multiset{}
  {
    assert (wire + [f])[..|wire|] == wire;
  }

  /** Without its last frame, a flush is a flush of the map without its last key. */
  lemma FlushedLess(frames: seq<Sent>, m: map<IpAddress, seq<byte>>, mac: MacAddress, keys: seq<IpAddress>, n: nat)
    requires FlushedBy(frames, m, mac, keys) && |keys| == n + 1
    ensures keys[n] in m && |frames| == n + 1
    ensures frames[n] == Sent(m[keys[n]], mac, ETHERTYPE_IP)
    ensures FlushedBy(frames[..n], m - {keys[n]}, mac, keys[..n])
  {
    var k := keys[n];
    assert k in m.Keys;
    EnumeratesLess(keys, m.Keys, n);
    assert (m - {k}).Keys == m.Keys - {k};
    forall i | 0 <= i < n ensures keys[i] in m && keys[i] != k {
      assert keys[i] in m.Keys;
    }
  }

  lemma EnumeratesLess<K(!new)>(keys: seq<K>, s: set<K>, n: nat)
    requires Enumerates(keys, s) && |keys| == n + 1
    ensures Enumerates(keys[..n], s - {keys[n]})
  {
    forall x ensures x in s - {keys[n]} <==> x in keys[..n] {
      if x in s && x != keys[n] {
        var i :| 0 <= i < |keys| && keys[i] == x;
        assert keys[..n][i] == x;
      }
      if x in keys[..n] {
        var i :| 0 <= i < n && keys[..n][i] == x;
        assert keys[i] == x;
      }
    }
  }

  /** Flushing puts exactly the held packets on the wire. */
  lemma {:induction false} FlushKeeps(wire: seq<Sent>, frames: seq<Sent>, m: map<IpAddress, seq<byte>>, mac: MacAddress,
                                      keys: seq<IpAddress>)
    requires FlushedBy(frames, m, mac, keys)
    ensures OnWire(wire + frames) == OnWire(wire) + Held(m)
    decreases |keys|
  {
    if keys == [] {
      assert m.Keys == {};
      assert m == map[];
      assert wire + frames == wire;
    } else {
      var n := |keys| - 1;
      FlushedLess(frames, m, mac, keys, n);
      hide FlushedBy, Held, OnWire;
      FlushKeeps(wire, frames[..n], m - {keys[n]}, mac, keys[..n]);
      FlushOne(wire, frames, n, m, keys[n]);
    }
  }

  lemma FlushOne(wire: seq<Sent>, frames: seq<Sent>, n: nat, m: map<IpAddress, seq<byte>>, k: IpAddress)
    requires |frames| == n + 1 && k in m
    requires frames[n].data == m[k] && frames[n].frameType == ETHERTYPE_IP
    requires OnWire(wire + frames[..n]) == OnWire(wire) + Held(m - {k})
    ensures OnWire(wire + frames) == OnWire(wire) + Held(m)
  {
    hide Held, OnWire;
    assert wire + frames == (wire + frames[..n]) + [frames[n]];
    OnWireLast(wire + frames[..n], frames[n]);
    HeldAny(m, k);
    MoveLast(OnWire(wire), Held(m - {k}), multiset{m[k]});
  }

  lemma MoveLast(a: multiset<seq<byte>>, b: multiset<seq<byte>>, x: multiset<seq<byte>>)
    ensures a + b + x == a + (x + b)
  {
  }

  /** The packets that callers handed over, by `sendData` or `broadCast`. */
  function HandedOver(events: seq<Event>): multiset<seq<byte>> {
    if events == [] then multiset{}
    else
      var e := events[|events| - 1];
      HandedOver(events[..|events| - 1]) + if e.Receive? then multiset{} else multiset{e.data}
  }

  /** What one event replaces in the waiting table. */
  function ReplacedBy(c: Config, s: State, e: Event): multiset<seq<byte>> {
    if e.Send? && RouterMac(c, s.table).None? then Displaced(s.waiting, e.ip) else multiset{}
  }

  /** The packets replaced, while waiting, by a later one for the same address. */
  function Replaced(c: Config, run: Run, n: nat): multiset<seq<byte>>
    requires n <= |run.events| && |run.states| == |run.events| + 1
  {
    if n == 0 then multiset{} else Replaced(c, run, n - 1) + ReplacedBy(c, run.states[n - 1], run.events[n - 1])
  }

  /** A flushing step moves what waits onto the wire. */
  lemma ReceiveConserves(c: Config, s: State, frameType: int, header: seq<byte>, t: State)
    requires Step(c, s, Receive(frameType, header), t)
    ensures OnWire(t.wire) + Held(t.waiting) == OnWire(s.wire) + Held(s.waiting)
  {
    hide Arp.Analysed, Arp.Message, Entered, RouterMac, OnWire;
    if t.waiting != s.waiting || t.wire != s.wire {
      var mac := RouterMac(c, t.table).value;
      var frames := t.wire[|s.wire|..];
      var keys :| FlushedBy(frames, s.waiting, mac, keys);
      assert t.wire == s.wire + frames;
      FlushKeeps(s.wire, frames, s.waiting, mac, keys);
      assert Held(map[]) == multiset{};
    }
  }

  lemma SendConserves(c: Config, s: State, data: seq<byte>, ip: IpAddress, t: State)
    requires Step(c, s, Send(data, ip), t)
    ensures OnWire(t.wire) + Held(t.waiting) + ReplacedBy(c, s, Send(data, ip))
         == OnWire(s.wire) + Held(s.waiting) + multiset{data}
  {
    hide Arp.Message, RouterMac, OnWire, Held;
    if RouterMac(c, s.table).None? {
      OnWireLast(s.wire, ArpRequest(c));
      assert OnWire(t.wire) == OnWire(s.wire);
      HeldUpdate(s.waiting, ip, data);
      Regroup(OnWire(s.wire), Held(t.waiting), Displaced(s.waiting, ip), Held(s.waiting), multiset{data});
    } else {
      OnWireLast(s.wire, Sent(data, RouterMac(c, s.table).value, ETHERTYPE_IP));
    }
  }

  lemma StepConserves(c: Config, s: State, e: Event, t: State)
    requires Step(c, s, e, t)
    ensures OnWire(t.wire) + Held(t.waiting) + ReplacedBy(c, s, e)
         == OnWire(s.wire) + Held(s.waiting) + if e.Receive? then multiset{} else multiset{e.data}
  {
    match e {
      case Send(data, ip) =>
        SendConserves(c, s, data, ip, t);
      case Broadcast(data) =>
        OnWireLast(s.wire, Sent(data, Arp.BROADCAST, ETHERTYPE_IP));
      case Receive(frameType, header) =>
        ReceiveConserves(c, s, frameType, header, t);
    }
  }

  lemma InitialHoldsNothing(c: Config)
    ensures OnWire(Initial(c).wire) == multiset{} && Held(Initial(c).waiting) == multiset{}
  {
    hide Arp.Message;
    assert Initial(c).wire[..0] == [];
  }

  lemma HandedOverLast(events: seq<Event>, e: Event)
    ensures HandedOver(events + [e]) == HandedOver(events) + if e.Receive? then multiset{} else multiset{e.data}
  {
    assert (events + [e])[..|events|] == events;
  }

  /** Pending-send conservation: over every run, what callers handed over is what went out
      in IP frames, plus what waits, plus what was replaced while waiting. */
  lemma {:induction false} Conservation(c: Config, run: Run, n: nat)
    requires IsRun(c, run) && n <= |run.events|
    ensures OnWire(run.states[n].wire) + Held(run.states[n].waiting) + Replaced(c, run, n)
         == HandedOver(run.events[..n])
  {
    if n == 0 {
      InitialHoldsNothing(c);
    } else {
      Conservation(c, run, n - 1);
      assert Step(c, run.states[n - 1], run.events[n - 1], run.states[n]);
      ConservationStep(c, run, n);
    }
  }

  lemma ConservationStep(c: Config, run: Run, n: nat)
    requires |run.states| == |run.events| + 1 && 0 < n <= |run.events|
    requires Step(c, run.states[n - 1], run.events[n - 1], run.states[n])
    requires OnWire(run.states[n - 1].wire) + Held(run.states[n - 1].waiting) + Replaced(c, run, n - 1)
          == HandedOver(run.events[..n - 1])
    ensures OnWire(run.states[n].wire) + Held(run.states[n].waiting) + Replaced(c, run, n)
         == HandedOver(run.events[..n])
  {
    hide Step, OnWire, Held, ReplacedBy, HandedOver;
    var s, e, t := run.states[n - 1], run.events[n - 1], run.states[n];
    HandedOverLast(run.events[..n - 1], e);
    assert run.events[..n] == run.events[..n - 1] + [e];
    StepConserves(c, s, e, t);
    Accumulate(OnWire(t.wire) + Held(t.waiting), ReplacedBy(c, s, e), OnWire(s.wire) + Held(s.waiting),
               if e.Receive? then multiset{} else multiset{e.data}, Replaced(c, run, n - 1),
               HandedOver(run.events[..n - 1]));
  }

  /** So no packet goes out in more IP frames than it was handed over. */
  lemma SentNoMoreThanAccepted(c: Config, run: Run, n: nat, packet: seq<byte>)
    requires IsRun(c, run) && n <= |run.events|
    ensures OnWire(run.states[n].wire)[packet] <= HandedOver(run.events[..n])[packet]
  {
    hide OnWire, Held, Replaced, HandedOver;
    Conservation(c, run, n);
    var all := OnWire(run.states[n].wire) + Held(run.states[n].waiting) + Replaced(c, run, n);
    assert OnWire(run.states[n].wire)[packet] <= all[packet];
  }

  /** Liveness of the exchange: when the router answers our request, everything that waits
      goes out to its MAC, and later packets go straight out. */
  lemma AnswerReleases(c: Config, run: Run, n: nat, mac: MacAddress, header: seq<byte>)
    requires IsRun(c, run) && n < |run.events|
    requires run.events[n] == Receive(ETHERTYPE_ARP, header)
    requires Arp.Analysed(header, c.device) == Arp.Accepted(c.router, mac)
    ensures run.states[n + 1].waiting == map[]
    ensures RouterMac(c, run.states[n + 1].table) == Some(mac)
    ensures OnWire(run.states[n + 1].wire) == OnWire(run.states[n].wire) + Held(run.states[n].waiting)
  {
    hide Arp.Analysed, OnWire;
    var s, t := run.states[n], run.states[n + 1];
    assert Step(c, s, run.events[n], t);
    ReceiveConserves(c, s, ETHERTYPE_ARP, header, t);
    assert Held(map[]) == multiset{};
  }

  /** In particular the answer to the request this stack itself sends does so. */
  lemma OwnRequestReleases(c: Config, run: Run, n: nat, mac: MacAddress)
    requires IsRun(c, run) && n < |run.events|
    requires run.events[n] == Receive(ETHERTYPE_ARP,
               Jpcap.EthernetHeader(c.deviceMac, mac, ETHERTYPE_ARP) + Arp.AnswerTo(ArpRequest(c).data, mac))
    ensures run.states[n + 1].waiting == map[]
    ensures RouterMac(c, run.states[n + 1].table) == Some(mac)
    ensures OnWire(run.states[n + 1].wire) == OnWire(run.states[n].wire) + Held(run.states[n].waiting)
  {
    var header := Jpcap.EthernetHeader(c.deviceMac, mac, ETHERTYPE_ARP) + Arp.AnswerTo(ArpRequest(c).data, mac);
    Arp.RequestAnswered(c.router, c.deviceMac, c.device, mac);
    AnswerReleases(c, run, n, mac, header);
  }
}
