/** DHCP option lists: section 2 of RFC 2132, and `readOptions` of src/Application/DHCPApplication.java. */
module DhcpOptions {
  import opened Bytes
  import opened ByteBuffers

  // ---------- Lists as RFC 2132 lays them out ----------

  datatype Opt = Pad | Opt(code: byte, data: seq<byte>)

  const END: byte := 255
  const MESSAGE_TYPE: byte := 53
  const OFFER: byte := 2
  const ACK: byte := 5

  predicate Legal(o: Opt) {
    o.Opt? ==> 1 <= o.code <= 254 && |o.data| <= 255
  }

  predicate AllLegal(opts: seq<Opt>) {
    forall i :: 0 <= i < |opts| ==> Legal(opts[i])
  }

  function EncodeOne(o: Opt): seq<byte> {
    if o.Pad? then [0] else [o.code, (|o.data| % 256) as byte] + o.data
  }

  function Encode(opts: seq<Opt>): seq<byte> {
    if opts == [] then [] else EncodeOne(opts[0]) + Encode(opts[1..])
  }

  function WithoutPads(opts: seq<Opt>): seq<Opt> {
    if opts == [] then []
    else (if opts[0].Pad? then [] else [opts[0]]) + WithoutPads(opts[1..])
  }

  /** A reader that follows every length field: the options before End, or None if the
      bytes run out first. */
  function Parse(msg: seq<byte>, pos: nat): Option<seq<Opt>>
    decreases if pos < |msg| then |msg| - pos else 0
  {
    if pos >= |msg| then None
    else if msg[pos] == END then Some([])
    else if msg[pos] == 0 then Parse(msg, pos + 1)
    else if pos + 1 >= |msg| || pos + 2 + msg[pos + 1] as int > |msg| then None
    else
      var next := pos + 2 + msg[pos + 1] as int;
      var rest := Parse(msg, next);
      if rest.None? then None else Some([Opt(msg[pos], msg[pos + 2..next])] + rest.value)
  }

  /** One option in a message, field by field. */
  lemma OneAt(msg: seq<byte>, pos: nat, o: Opt)
    requires At(msg, pos, EncodeOne(o)) && Legal(o)
    ensures o.Pad? ==> pos < |msg| && msg[pos] == 0
    ensures o.Opt? ==>
      && pos + 2 + |o.data| <= |msg| && msg[pos] == o.code && msg[pos + 1] == |o.data|
      && msg[pos + 2..pos + 2 + |o.data|] == o.data
  {
    if o.Pad? {
      AtByte(msg, pos, 0);
    } else {
      var n := (|o.data| % 256) as byte;
      assert EncodeOne(o) == [o.code] + ([n] + o.data);
      AtSplit(msg, pos, [o.code], [n] + o.data);
      AtByte(msg, pos, o.code);
      AtSplit(msg, pos + 1, [n], o.data);
      AtByte(msg, pos + 1, n);
    }
  }

  /** The first option of an encoded list, and the rest behind it. */
  lemma FirstAt(msg: seq<byte>, pos: nat, opts: seq<Opt>)
    requires opts != [] && At(msg, pos, Encode(opts) + [END])
    ensures At(msg, pos, EncodeOne(opts[0]))
    ensures At(msg, pos + |EncodeOne(opts[0])|, Encode(opts[1..]) + [END])
  {
    var one, rest := EncodeOne(opts[0]), Encode(opts[1..]) + [END];
    assert Encode(opts) + [END] == one + rest;
    AtSplit(msg, pos, one, rest);
  }

  lemma EndAt(msg: seq<byte>, pos: nat)
    requires At(msg, pos, Encode([]) + [END])
    ensures pos < |msg| && msg[pos] == END
  {
    assert Encode([]) + [END] == [END];
    AtByte(msg, pos, END);
  }

  /** Parsing what was encoded gives it back, without the pads. */
  lemma {:induction false} ParseEncode(msg: seq<byte>, pos: nat, opts: seq<Opt>)
    requires AllLegal(opts) && At(msg, pos, Encode(opts) + [END])
    ensures Parse(msg, pos) == Some(WithoutPads(opts))
    decreases |opts|
  {
    hide At, Encode;
    if opts == [] {
      EndAt(msg, pos);
    } else {
      FirstAt(msg, pos, opts);
      OneAt(msg, pos, opts[0]);
      ParseEncode(msg, pos + |EncodeOne(opts[0])|, opts[1..]);
      var o, rest := opts[0], WithoutPads(opts[1..]);
      if o.Pad? {
        assert [] + rest == rest;
      } else {
        assert o == Opt(msg[pos], msg[pos + 2..pos + 2 + msg[pos + 1] as int]);
        assert WithoutPads(opts) == [o] + rest;
      }
    }
  }

  // ---------- What readOptions does ----------

  /** One turn of its loop: it stops at End, runs out of bytes, or goes on behind what it
      took, with the message type if that is what it met. */
  datatype Turn = Stop | Underflow | Continue(next: nat, kind: Option<byte>)

  /** The types handled by reading as many bytes as the signed length says. */
  predicate IsPrinted(code: byte) {
    code == 54 || code == 1 || code == 28 || code == 3 || code == 6 || code == 15
  }

  /** The types handled by skipping the length byte and reading an int. */
  predicate IsTime(code: byte) {
    code == 51 || code == 58 || code == 59
  }

  function Bounded(msg: seq<byte>, next: nat, kind: Option<byte>): Turn {
    if next > |msg| then Underflow else Continue(next, kind)
  }

  function ReadOption(msg: seq<byte>, pos: nat): (r: Turn)
    ensures r.Continue? ==> pos < r.next <= |msg|
  {
    if pos >= |msg| then Underflow
    else if msg[pos] == END then Stop
    else if msg[pos] == MESSAGE_TYPE then
      if pos + 3 > |msg| then Underflow else Continue(pos + 3, Some(msg[pos + 2]))
    else if IsPrinted(msg[pos]) then
      if pos + 1 >= |msg| then Underflow else Bounded(msg, pos + 2 + Max(AsSigned8(msg[pos + 1]), 0), None)
    else if IsTime(msg[pos]) then Bounded(msg, pos + 6, None)
    else Continue(pos + 1, None)
  }

  const DISCOVER_STATE := 0
  const REQUESTING_STATE := 1
  const ACK_STATE := 5

  function NextState(state: int, kind: Option<byte>): int {
    if kind == Some(OFFER) then REQUESTING_STATE
    else if kind == Some(ACK) then ACK_STATE
    else state
  }

  /** The state afterwards, and whether End was reached. */
  datatype Outcome = Outcome(state: int, finished: bool)

  /** The loop from pos on. It ends on every byte array: each turn uses bytes up. */
  function ReadOptions(msg: seq<byte>, pos: nat, state: int): Outcome
    decreases if pos < |msg| then |msg| - pos else 0
  {
    var turn := ReadOption(msg, pos);
    if turn.Stop? then Outcome(state, true)
    else if turn.Underflow? then Outcome(state, false)
    else ReadOptions(msg, turn.next, NextState(state, turn.kind))
  }

  /** `printOptionArray`, or the loop of option 15: the length byte, then that many bytes. */
  method SkipArray(buffer: ByteBuffer) returns (ok: bool)
    requires buffer.Valid()
    modifies buffer`position
    ensures buffer.Valid()
    ensures var msg, p := buffer.store[..], old(buffer.position);
            ok == (p < |msg| && p + 1 + Max(AsSigned8(msg[p]), 0) <= |msg|)
    ensures ok ==> buffer.position == old(buffer.position) + 1 + Max(AsSigned8(buffer.store[old(buffer.position)]), 0)
  {
    var length := buffer.Get();
    if length.None? {
      return false;
    }
    var i := 0;
    while i < AsSigned8(length.value)
      invariant buffer.Valid() && 0 <= i <= Max(AsSigned8(length.value), 0)
      invariant buffer.position == old(buffer.position) + 1 + i
    {
      var b := buffer.Get();
      if b.None? {
        return false;
      }
      i := i + 1;
    }
    ok := true;
  }

  /** The body of the loop of `readOptions`. */
  method ReadOneOption(buffer: ByteBuffer) returns (r: Turn)
    requires buffer.Valid()
    modifies buffer`position
    ensures buffer.Valid()
    ensures r == ReadOption(buffer.store[..], old(buffer.position))
    ensures r.Continue? ==> buffer.position == r.next
  {
    var code := buffer.Get();
    if code.None? {
      return Underflow;
    }
    if code.value == END {
      return Stop;
    }
    if code.value == MESSAGE_TYPE {
      var both := buffer.GetAll(2);
      if both.None? {
        return Underflow;
      }
      r := Continue(buffer.position, Some(both.value[1]));
    } else if IsPrinted(code.value) {
      var ok := SkipArray(buffer);
      r := if ok then Continue(buffer.position, None) else Underflow;
    } else if IsTime(code.value) {
      var all := buffer.GetAll(5);
      r := if all.Some? then Continue(buffer.position, None) else Underflow;
    } else {
      r := Continue(buffer.position, None);
    }
  }

  /** The loop of `readOptions` from offset 240 on. */
  method ReadOptionsLoop(buffer: ByteBuffer, state0: int) returns (r: Outcome)
    requires buffer.Valid()
    modifies buffer`position
    ensures r == ReadOptions(buffer.store[..], old(buffer.position), state0)
  {
    ghost var msg := buffer.store[..];
    ghost var all := ReadOptions(msg, buffer.position, state0);
    hide ReadOption;
    var state := state0;
    while true
      invariant buffer.Valid() && buffer.store[..] == msg
      invariant ReadOptions(msg, buffer.position, state) == all
      decreases buffer.store.Length - buffer.position
    {
      var turn := ReadOneOption(buffer);
      if turn.Stop? {
        return Outcome(state, true);
      }
      if turn.Underflow? {
        return Outcome(state, false);
      }
      state := NextState(state, turn.kind);
    }
  }

  // ---------- Alignment ----------

  /** The options whose length the reader takes as it is meant. */
  predicate Handled(o: Opt) {
    || o.Pad?
    || (o.code == 53 && |o.data| == 1)
    || (o.code in {51, 58, 59} && |o.data| == 4)
    || (o.code in {1, 3, 6, 15, 28, 54} && |o.data| <= 127)
  }

  predicate AllHandled(opts: seq<Opt>) {
    forall i :: 0 <= i < |opts| ==> Legal(opts[i]) && Handled(opts[i])
  }

  function KindOf(o: Opt): Option<byte>
    requires Handled(o)
  {
    if o.Opt? && o.code == 53 then Some(o.data[0]) else None
  }

  /** Where a turn on the fields of an option ends. */
  lemma TurnOnFields(msg: seq<byte>, pos: nat, n: nat)
    requires pos + 2 + n <= |msg| && msg[pos] != END && msg[pos] != 0 && msg[pos + 1] == n
    ensures var turn := ReadOption(msg, pos);
            var code := msg[pos];
            && (turn.Continue? && turn.next == pos + 2 + n <==>
                || (code == MESSAGE_TYPE && n == 1) || (IsTime(code) && n == 4) || (IsPrinted(code) && n <= 127))
            && (code == MESSAGE_TYPE && n == 1 ==> turn == Continue(pos + 3, Some(msg[pos + 2])))
            && (turn.Continue? && code != MESSAGE_TYPE ==> turn.kind.None?)
  {
  }

  /** A turn on a legal option ends behind it exactly when the option is handled with its
      expected length; an unknown option loses only its type byte. */
  lemma StepAligned(msg: seq<byte>, pos: nat, o: Opt)
    requires Legal(o) && At(msg, pos, EncodeOne(o))
    ensures var turn := ReadOption(msg, pos);
            turn.Continue? && turn.next == pos + |EncodeOne(o)| <==> Handled(o)
    ensures Handled(o) ==> ReadOption(msg, pos) == Continue(pos + |EncodeOne(o)|, KindOf(o))
  {
    OneAt(msg, pos, o);
    assert |EncodeOne(o)| == if o.Pad? then 1 else 2 + |o.data|;
    hide At, EncodeOne;
    if o.Opt? {
      TurnOnFields(msg, pos, |o.data|);
      hide ReadOption, IsTime, IsPrinted;
      if o.code == MESSAGE_TYPE && |o.data| == 1 {
        assert msg[pos + 2] == msg[pos + 2..pos + 3][0];
      }
    }
  }

  /** The last message type in the list that the state machine reacts to. */
  function LastVerdict(opts: seq<Opt>): (r: Option<byte>)
    requires AllHandled(opts)
    ensures r.Some? ==> r.value == 2 || r.value == 5
  {
    if opts == [] then None
    else
      var o := opts[|opts| - 1];
      if KindOf(o) == Some(2) || KindOf(o) == Some(5) then KindOf(o)
      else LastVerdict(opts[..|opts| - 1])
  }

  /** Taken from the other end. */
  lemma {:induction false} LastVerdictFirst(o: Opt, rest: seq<Opt>)
    requires AllHandled([o] + rest) && AllHandled(rest) && Handled(o)
    ensures LastVerdict([o] + rest)
         == if LastVerdict(rest).Some? then LastVerdict(rest)
            else if KindOf(o) == Some(2) || KindOf(o) == Some(5) then KindOf(o) else None
    decreases |rest|
  {
    var all := [o] + rest;
    if rest == [] {
      assert all == [o] && all[..0] == [];
    } else {
      var n := |rest| - 1;
      assert all[|all| - 1] == rest[n];
      assert all[..|all| - 1] == [o] + rest[..n];
      LastVerdictFirst(o, rest[..n]);
    }
  }

  /** What an offer (2) or an acknowledgement (5) makes of the state. */
  function Decided(state: int, verdict: Option<byte>): int {
    if verdict == Some(2) then 1 else if verdict == Some(5) then 5 else state
  }

  /** On every list of pads and handled options before End, the reader takes each option
      for what it is, and the state is fixed by the one before and the last message type
      that is an offer or an acknowledgement. */
  lemma {:induction false} ReaderAligned(msg: seq<byte>, pos: nat, opts: seq<Opt>, state: int)
    requires AllHandled(opts) && At(msg, pos, Encode(opts) + [END])
    ensures ReadOptions(msg, pos, state) == Outcome(Decided(state, LastVerdict(opts)), true)
    decreases |opts|
  {
    hide At, Encode, EncodeOne, ReadOption;
    if opts == [] {
      EndAt(msg, pos);
      StopsAt(msg, pos);
    } else {
      var o, rest := opts[0], opts[1..];
      FirstAt(msg, pos, opts);
      StepAligned(msg, pos, o);
      ReaderAligned(msg, pos + |EncodeOne(o)|, rest, NextState(state, KindOf(o)));
      assert opts == [o] + rest;
      LastVerdictFirst(o, rest);
    }
  }

  lemma StopsAt(msg: seq<byte>, pos: nat)
    requires pos < |msg| && msg[pos] == END
    ensures ReadOption(msg, pos) == Stop
  {
  }

  /** An unknown option is not skipped: in these bytes its data, which RFC 2132 keeps
      opaque, moves the state machine to ACK although the list has no message type. */
  lemma UnknownOptionMisread(msg: seq<byte>, state: int)
    requires msg == [43, 4, 53, 1, 5, 0, 255]
    ensures Parse(msg, 0) == Some([Opt(43, [53, 1, 5, 0])])
    ensures ReadOptions(msg, 0, state) == Outcome(5, true)
  {
    assert Parse(msg, 6) == Some([]);
    assert msg[2..6] == [53, 1, 5, 0];
    assert Parse(msg, 0) == Some([Opt(43, msg[2..6])] + []);
    assert [Opt(43, msg[2..6])] + [] == [Opt(43, [53, 1, 5, 0])];
    assert ReadOption(msg, 0) == Continue(1, None);
    assert ReadOption(msg, 1) == Continue(2, None);
    assert ReadOption(msg, 2) == Continue(5, Some(5));
    assert ReadOption(msg, 5) == Continue(6, None);
    assert ReadOptions(msg, 6, ACK_STATE) == Outcome(ACK_STATE, true);
    assert ReadOptions(msg, 5, ACK_STATE) == Outcome(ACK_STATE, true);
    assert ReadOptions(msg, 2, state) == Outcome(ACK_STATE, true);
    assert ReadOptions(msg, 1, state) == Outcome(ACK_STATE, true);
  }
}
