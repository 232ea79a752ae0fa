/** src/protocol/ICMPEchoHeader.java */
module Icmp {
  import opened Bytes
  import opened ByteBuffers
  import opened Checksum
  import opened Packets

  datatype HeaderName = Echo | EchoReply | OtherHeader

  /** The keys `createHeader` looks up. `random` is what Random would supply for a
      missing identifier. */
  datatype Fields = Fields(name: HeaderName, identifier: Option<int>, sequence: Option<int>,
                           data: Option<seq<byte>>, random: int)

  /** What `handlePacket` puts into its map: two shorts, and the data if there is any. */
  datatype Info = Info(identifier: int, sequence: int, data: Option<seq<byte>>)

  datatype Outcome = NotAnEchoReply | Failed | Reply(info: Info)

  function Identifier(f: Fields): int {
    if f.identifier.Some? then f.identifier.value else f.random
  }

  function Sequence(f: Fields): int {
    if f.sequence.Some? then f.sequence.value else 0
  }

  /** The message with its checksum field still zero. */
  function Unchecked(f: Fields): (r: seq<byte>)
    requires f.data.Some?
    ensures |r| == 8 + |f.data.value|
  {
    [if f.name.EchoReply? then 0 else 8, 0, 0, 0] + Be16(Identifier(f)) + Be16(Sequence(f)) + f.data.value
  }

  function Message(f: Fields): (r: seq<byte>)
    requires f.data.Some?
    ensures |r| == 8 + |f.data.value|
  {
    Patch(Unchecked(f), 2, FoldOnce(WordSum(Unchecked(f))))
  }

  /** The outcome of `createHeader`: data is dereferenced before it is tested for null. */
  function Created(f: Fields): Built {
    if f.name.OtherHeader? then Null
    else if f.data.None? then Thrown
    else Made(Message(f))
  }

  method CreateHeader(f: Fields) returns (r: Built)
    ensures r == Created(f)
  {
    if f.name.OtherHeader? {
      return Null;
    }
    if f.data.None? {
      return Thrown;
    }
    assert Be16(0) == [0, 0];
    hide Be16, WordSum, FoldOnce;
    var buf := new byte[8 + |f.data.value|](_ => 0);
    var buffer := new ByteBuffer(buf);
    var kind: byte := 8;
    if f.name.EchoReply? {
      kind := 0;
    }
    buffer.Put(kind);
    buffer.Put(0);
    buffer.PutShort(0);
    assert buf[..4] == [kind, 0, 0, 0];
    var identifier := if f.identifier.None? then f.random else f.identifier.value;
    buffer.PutShort(identifier);
    var sequence := 0;
    if f.sequence.Some? {
      sequence := f.sequence.value;
    }
    buffer.PutShort(sequence);
    buffer.PutAll(f.data.value);
    assert buf[..] == buf[..buffer.position];
    assert buf[..] == Unchecked(f);
    assert buf[..Max(buf.Length, 0)] == Unchecked(f);
    var checkSum := ChecksumJava(buf, buf.Length);
    buffer.PutShortAt(2, checkSum);
    r := Made(buf[..]);
  }

  /** A message byte by byte (RFC 792), requests and replies alike. */
  lemma MessageBytes(f: Fields)
    requires f.data.Some?
    ensures var m := Message(f);
            && m[0] == (if f.name.EchoReply? then 0 else 8) && m[1] == 0
            && WordAt(m, 4) == (if f.identifier.Some? then f.identifier.value else f.random) % 65536
            && WordAt(m, 6) == (if f.sequence.Some? then f.sequence.value else 0) % 65536
            && m[8..] == f.data.value
  {
    var m, u := Message(f), Unchecked(f);
    PatchKeeps(u, 2, FoldOnce(WordSum(u)));
    assert m[0] == m[..2][0] == u[..2][0] && m[1] == m[..2][1] == u[..2][1];
    assert u[4..] == Be16(Identifier(f)) + Be16(Sequence(f)) + f.data.value;
    FieldsAt(m, Identifier(f), Sequence(f), f.data.value);
  }

  /** What is refused, and how. */
  lemma MadeExactly(f: Fields)
    ensures Created(f).Null? <==> f.name.OtherHeader?
    ensures Created(f).Thrown? <==> !f.name.OtherHeader? && f.data.None?
  {
  }

  /** A receiver accepts the message exactly when the single fold did not carry. */
  lemma MessageValid(f: Fields)
    requires f.data.Some? && |f.data.value| <= 65527
    ensures OnesSum(Message(f)) == 65535 <==> Fold(WordSum(Unchecked(f))) <= 65535
  {
    JavaChecksumValid(Unchecked(f), 2);
  }

  function Handled(p: Packet): Outcome {
    if p.header == [] then Failed
    else if p.header[0] != 0 then NotAnEchoReply
    else if |p.header| < 8 then Failed
    else Reply(Info(Short(WordAt(p.header, 4)), Short(WordAt(p.header, 6)),
                    if |p.header| > 8 then Some(p.data) else None))
  }

  method HandlePacket(p: Packet) returns (r: Outcome)
    ensures r == Handled(p)
  {
    if |p.header| < 1 {
      return Failed;
    }
    if p.header[0] != 0 {
      return NotAnEchoReply;
    }
    if |p.header| < 6 {
      return Failed;
    }
    var identifier := Short(WordAt(p.header, 4));
    if |p.header| < 8 {
      return Failed;
    }
    var sequence := Short(WordAt(p.header, 6));
    var data := None;
    if |p.header| > 8 {
      data := Some(p.data);
    }
    r := Reply(Info(identifier, sequence, data));
  }

  /** What is read, and how it fails: the type decides first. */
  lemma ParsedExactly(p: Packet)
    ensures Handled(p).NotAnEchoReply? <==> |p.header| >= 1 && p.header[0] != 0
    ensures Handled(p).Failed? <==> |p.header| < 1 || (|p.header| < 8 && p.header[0] == 0)
    ensures Handled(p).Reply? ==>
      && Handled(p).info.identifier % 65536 == WordAt(p.header, 4)
      && Handled(p).info.sequence % 65536 == WordAt(p.header, 6)
      && Handled(p).info.data == if |p.header| == 8 then None else Some(p.data)
  {
  }

  /** Echo replies come back with the identifier, sequence number and data put in;
      requests and other types are not recognised. */
  lemma RoundTrip(f: Fields)
    requires f.data.Some? && !f.name.OtherHeader?
    ensures Handled(Packet(Message(f), Message(f)[8..]))
         == if f.name.Echo? then NotAnEchoReply
            else Reply(Info(Short(Identifier(f)), Short(Sequence(f)),
                            if f.data.value == [] then None else f.data))
  {
    var m, u := Message(f), Unchecked(f);
    PatchKeeps(u, 2, FoldOnce(WordSum(u)));
    assert m[0] == m[..2][0] == u[..2][0] == u[0];
    assert u[4..] == Be16(Identifier(f)) + Be16(Sequence(f)) + f.data.value;
    FieldsAt(m, Identifier(f), Sequence(f), f.data.value);
    ShortModulo(Identifier(f));
    ShortModulo(Sequence(f));
  }

  lemma FieldsAt(m: seq<byte>, identifier: int, sequence: int, data: seq<byte>)
    requires |m| >= 8 && m[4..] == Be16(identifier) + Be16(sequence) + data
    ensures WordAt(m, 4) == identifier % 65536 && WordAt(m, 6) == sequence % 65536 && m[8..] == data
  {
    hide Be16;
    var t := m[4..];
    assert t[..2] == Be16(identifier) && t[2..4] == Be16(sequence);
    assert WordAt(m, 4) == WordAt(Be16(identifier), 0) by {
      assert m[4] == t[..2][0] && m[5] == t[..2][1];
    }
    assert WordAt(m, 6) == WordAt(Be16(sequence), 0) by {
      assert m[6] == t[2..4][0] && m[7] == t[2..4][1];
    }
    assert m[8..] == t[4..];
  }
}
