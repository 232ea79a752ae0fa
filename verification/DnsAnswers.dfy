/** The answer section and the whole message: `readAnswers` and `handleData` of
    src/Application/DNSApplication.java. */
module DnsAnswers {
  import opened Bytes
  import opened ByteBuffers
  import opened DnsNames
  import opened DnsQuestion

  const HOST_ADDRESS := 1
  const CANONICAL_NAME := 5

  /** What is printed of a resource record. Data of other types is not read at all. */
  datatype Body = Alias(name: seq<jchar>) | Address(ip: IpAddress) | Unread

  datatype Answer = Answer(owner: seq<jchar>, rtype: int, rclass: int, ttl: seq<byte>, length: int, body: Body)

  datatype Step = Step(answer: Answer, next: nat) | Stop(error: Error)

  /** The owner name. Unless it starts with a pointer, its first byte is dropped before
      `readStringContent` is called. */
  function ReadOwner(msg: seq<byte>, pos: nat, depth: nat): (r: Read)
    ensures r.Text? ==> r.next <= |msg|
  {
    if pos >= |msg| then Fail(Underflow)
    else if IsCompression(msg[pos]) then ReadLoop(msg, pos, depth)
    else ReadName(msg, pos + 1, depth)
  }

  /** The record data; the length field is not consulted. */
  function ReadBody(msg: seq<byte>, pos: nat, rtype: int, depth: nat): Option<(Body, nat)> {
    if rtype == CANONICAL_NAME then
      var name := ReadName(msg, pos, depth);
      if name.Fail? then None else Some((Alias(name.text), name.next))
    else if rtype == HOST_ADDRESS then
      if pos + 4 > |msg| then None else Some((Address(msg[pos..pos + 4]), pos + 4))
    else Some((Unread, pos))
  }

  function BodyError(msg: seq<byte>, pos: nat, rtype: int, depth: nat): Error {
    if rtype == CANONICAL_NAME && ReadName(msg, pos, depth).Fail? then ReadName(msg, pos, depth).error
    else Underflow
  }

  function ReadAnswer(msg: seq<byte>, pos: nat, depth: nat): Step {
    var owner := ReadOwner(msg, pos, depth);
    if owner.Fail? then Stop(owner.error)
    else if owner.next + 10 > |msg| then Stop(Underflow)
    else
      var q := owner.next;
      var rtype := Short(WordAt(msg, q));
      var body := ReadBody(msg, q + 10, rtype, depth);
      if body.None? then Stop(BodyError(msg, q + 10, rtype, depth))
      else Step(Answer(owner.text, rtype, Short(WordAt(msg, q + 2)), msg[q + 4..q + 8],
                       Short(WordAt(msg, q + 8)), body.value.0), body.value.1)
  }

  function ReadAnswers(msg: seq<byte>, pos: nat, count: nat, depth: nat): Section<Answer>
    decreases count
  {
    if count == 0 then Items([], pos)
    else
      var step := ReadAnswer(msg, pos, depth);
      if step.Stop? then Broken(step.error)
      else Before([step.answer], ReadAnswers(msg, step.next, count - 1, depth))
  }

  // ---------- The loops ----------

  method ReadOwnerName(data: ByteBuffer, depth: nat) returns (r: Read)
    requires data.Valid()
    modifies data`position
    ensures data.Valid()
    ensures r == ReadOwner(data.store[..], old(data.position), depth)
    ensures r.Text? ==> data.position == r.next
  {
    var first := data.Get();
    if first.None? {
      return Fail(Underflow);
    }
    if IsCompression(first.value) {
      r := FollowPointer(data, depth);
    } else {
      r := ReadStringContent(data, depth);
    }
  }

  method ReadRecordData(data: ByteBuffer, rtype: int, depth: nat) returns (r: Option<Body>, e: Error)
    requires data.Valid()
    modifies data`position
    ensures data.Valid()
    ensures ReadBody(data.store[..], old(data.position), rtype, depth)
         == if r.None? then None else Some((r.value, data.position))
    ensures r.None? ==> e == BodyError(data.store[..], old(data.position), rtype, depth)
  {
    e := Underflow;
    if rtype == CANONICAL_NAME {
      var name := ReadStringContent(data, depth);
      if name.Fail? {
        return None, name.error;
      }
      r := Some(Alias(name.text));
    } else if rtype == HOST_ADDRESS {
      var ip: seq<byte> := [];
      for j := 0 to 4
        invariant data.Valid() && |ip| == j && data.position == old(data.position) + j
        invariant ip == data.store[old(data.position)..data.position]
      {
        var b := data.Get();
        if b.None? {
          return None, e;
        }
        ip := ip + [b.value];
      }
      r := Some(Address(ip));
    } else {
      r := Some(Unread);
    }
  }

  /** The ten bytes of type, class, TTL and length. */
  method ReadFixedFields(data: ByteBuffer) returns (r: Option<(int, int, seq<byte>, int)>)
    requires data.Valid()
    modifies data`position
    ensures data.Valid()
    ensures var msg, q := data.store[..], old(data.position);
            if q + 10 > |msg| then r == None
            else
              && r == Some((Short(WordAt(msg, q)), Short(WordAt(msg, q + 2)), msg[q + 4..q + 8],
                            Short(WordAt(msg, q + 8))))
              && data.position == q + 10
  {
    var rtype := data.GetShort();
    if rtype.None? {
      return None;
    }
    var rclass := data.GetShort();
    if rclass.None? {
      return None;
    }
    var ttl := data.GetAll(4);
    if ttl.None? {
      return None;
    }
    var length := data.GetShort();
    if length.None? {
      return None;
    }
    r := Some((Short(rtype.value), Short(rclass.value), ttl.value, Short(length.value)));
  }

  /** One turn of the loop of `readAnswers`. */
  method ReadOneAnswer(data: ByteBuffer, depth: nat) returns (r: Step)
    requires data.Valid()
    modifies data`position
    ensures data.Valid()
    ensures r == ReadAnswer(data.store[..], old(data.position), depth)
    ensures r.Step? ==> data.position == r.next
  {
    hide Short, WordAt, ReadOwner, ReadBody, BodyError;
    var owner := ReadOwnerName(data, depth);
    if owner.Fail? {
      return Stop(owner.error);
    }
    var fields := ReadFixedFields(data);
    if fields.None? {
      return Stop(Underflow);
    }
    var body, e := ReadRecordData(data, fields.value.0, depth);
    if body.None? {
      return Stop(e);
    }
    r := Step(Answer(owner.text, fields.value.0, fields.value.1, fields.value.2, fields.value.3, body.value),
              data.position);
  }

  /** Unfolding the section by one record that was read. */
  lemma AnotherAnswer(msg: seq<byte>, pos: nat, count: nat, depth: nat, list: seq<Answer>)
    requires count > 0
    ensures Before(list, ReadAnswers(msg, pos, count, depth))
         == match ReadAnswer(msg, pos, depth)
            case Stop(error) => Broken(error)
            case Step(answer, next) => Before(list + [answer], ReadAnswers(msg, next, count - 1, depth))
  {
    hide ReadAnswer;
    var step := ReadAnswer(msg, pos, depth);
    if step.Step? {
      BeforeAgain(list, [step.answer], ReadAnswers(msg, step.next, count - 1, depth));
    }
  }

  lemma NoMoreAnswers(msg: seq<byte>, pos: nat, depth: nat, list: seq<Answer>)
    ensures Before(list, ReadAnswers(msg, pos, 0, depth)) == Items(list, pos)
  {
    BeforeEnd(list, pos);
  }

  method ReadAnswersLoop(answerCount: int, data: ByteBuffer, depth: nat) returns (r: Section<Answer>)
    requires data.Valid()
    modifies data`position
    ensures data.Valid()
    ensures r == ReadAnswers(data.store[..], old(data.position), Max(answerCount, 0), depth)
    ensures r.Items? ==> data.position == r.next
  {
    ghost var msg := data.store[..];
    ghost var n := Max(answerCount, 0);
    ghost var all := ReadAnswers(msg, data.position, n, depth);
    var list: seq<Answer> := [];
    BeforeNothing(all);
    hide ReadAnswer, ReadAnswers, Before;
    var i := 0;
    while i < answerCount
      invariant data.Valid() && data.store[..] == msg && 0 <= i <= n
      invariant Before(list, ReadAnswers(msg, data.position, n - i, depth)) == all
    {
      AnotherAnswer(msg, data.position, n - i, depth, list);
      var step := ReadOneAnswer(data, depth);
      if step.Stop? {
        return Broken(step.error);
      }
      list := list + [step.answer];
      i := i + 1;
    }
    NoMoreAnswers(msg, data.position, depth, list);
    r := Items(list, data.position);
  }

  // ---------- Records as sections 4.1.3, 3.3.1 and 3.4.1 of RFC 1035 lay them out ----------

  datatype RecordData = A(address: IpAddress) | Cname(alias: Name)

  /** A record of class `rclass` whose owner is a pointer to the name `owner`. */
  datatype Record = Record(owner: Name, rclass: nat, ttl: seq<byte>, data: RecordData)

  function DataLength(d: RecordData): nat {
    match d
    case A(_) => 4
    case Cname(w) => Extent(w)
  }

  function TypeCode(d: RecordData): nat {
    if d.A? then 1 else 5
  }

  function RecordSize(r: Record): nat {
    12 + DataLength(r.data)
  }

  ghost predicate DataAt(msg: seq<byte>, pos: nat, d: RecordData) {
    match d
    case A(address) => At(msg, pos, address)
    case Cname(w) => Encodes(msg, pos, w) && LowPointers(w)
  }

  ghost predicate RecordAt(msg: seq<byte>, pos: nat, r: Record) {
    && r.owner.Pointer? && Encodes(msg, pos, r.owner) && LowPointers(r.owner)
    && pos + 12 <= |msg|
    && WordAt(msg, pos + 2) == TypeCode(r.data)
    && WordAt(msg, pos + 4) == r.rclass
    && msg[pos + 6..pos + 10] == r.ttl
    && WordAt(msg, pos + 10) == DataLength(r.data)
    && DataAt(msg, pos + 12, r.data)
  }

  ghost predicate SectionAt(msg: seq<byte>, pos: nat, records: seq<Record>)
    decreases |records|
  {
    records != [] ==> RecordAt(msg, pos, records[0]) && SectionAt(msg, pos + RecordSize(records[0]), records[1..])
  }

  function SectionSize(records: seq<Record>): nat {
    if records == [] then 0 else RecordSize(records[0]) + SectionSize(records[1..])
  }

  /** The stack that the names of a record need. */
  function StackNeeded(r: Record): nat {
    Max(Pointers(r.owner), if r.data.Cname? then Pointers(r.data.alias) + 1 else 0)
  }

  /** What a record should be printed as. */
  function Shown(r: Record): Answer {
    Answer(JavaText(r.owner), TypeCode(r.data), Short(r.rclass), r.ttl, Short(DataLength(r.data)),
           if r.data.A? then Address(r.data.address) else Alias(JavaText(r.data.alias)))
  }

  function ShownAll(records: seq<Record>): (r: seq<Answer>)
    ensures |r| == |records| && forall i :: 0 <= i < |r| ==> r[i] == Shown(records[i])
  {
    seq(|records|, i requires 0 <= i < |records| => Shown(records[i]))
  }

  lemma BodyReads(msg: seq<byte>, pos: nat, d: RecordData, depth: nat)
    requires DataAt(msg, pos, d)
    requires d.Cname? ==> Pointers(d.alias) < depth
    ensures ReadBody(msg, pos, TypeCode(d), depth)
         == Some((if d.A? then Address(d.address) else Alias(JavaText(d.alias)), pos + DataLength(d)))
  {
    if d.Cname? {
      ReadLoopReads(msg, pos, depth - 1, d.alias);
    }
  }

  /** Each turn consumes exactly the record: 12 bytes and RDLENGTH more. */
  lemma AnswerReads(msg: seq<byte>, pos: nat, r: Record, depth: nat)
    requires RecordAt(msg, pos, r) && StackNeeded(r) <= depth
    ensures ReadAnswer(msg, pos, depth) == Step(Shown(r), pos + RecordSize(r))
  {
    hide Encodes, LowPointers, Pointers, ReadLoop, ReadOwner, ReadBody, JavaText, DataAt, DataLength, Extent, BodyError;
    PointerOwnerReads(msg, pos, r.owner, depth);
    BodyReads(msg, pos + 12, r.data, depth);
    TypeIsShort(r.data);
    hide Short, TypeCode;
  }

  lemma TypeIsShort(d: RecordData)
    ensures Short(TypeCode(d)) == TypeCode(d)
  {
  }

  lemma PointerOwnerReads(msg: seq<byte>, pos: nat, owner: Name, depth: nat)
    requires owner.Pointer? && Encodes(msg, pos, owner) && LowPointers(owner) && Pointers(owner) <= depth
    ensures ReadOwner(msg, pos, depth) == Text(JavaText(owner), pos + 2)
  {
    ReadLoopReads(msg, pos, depth, owner);
  }

  lemma ShownAllFirst(records: seq<Record>)
    requires records != []
    ensures ShownAll(records) == [Shown(records[0])] + ShownAll(records[1..])
  {
    hide Shown;
  }

  /** `readAnswers` refines the record list: for every section whose owners are pointers and
      whose records are A or CNAME, the answers are the records in order. */
  lemma {:induction false} AnswersRefine(msg: seq<byte>, pos: nat, records: seq<Record>, depth: nat)
    requires SectionAt(msg, pos, records)
    requires forall r :: r in records ==> StackNeeded(r) <= depth
    ensures ReadAnswers(msg, pos, |records|, depth) == Items(ShownAll(records), pos + SectionSize(records))
    decreases |records|
  {
    hide RecordAt, ReadAnswer, Shown, StackNeeded, RecordSize;
    if records != [] {
      AnswerReads(msg, pos, records[0], depth);
      AnswersRefine(msg, pos + RecordSize(records[0]), records[1..], depth);
      ShownAllFirst(records);
    } else {
      assert ShownAll(records) == [];
    }
  }

  /** The addresses printed. */
  function Addresses(answers: seq<Answer>): seq<IpAddress> {
    if answers == [] then []
    else (if answers[0].body.Address? then [answers[0].body.ip] else []) + Addresses(answers[1..])
  }

  function RecordAddresses(records: seq<Record>): seq<IpAddress> {
    if records == [] then []
    else (if records[0].data.A? then [records[0].data.address] else []) + RecordAddresses(records[1..])
  }

  /** They are the data of the A records, in order. */
  lemma {:induction false} AddressesShown(records: seq<Record>)
    ensures Addresses(ShownAll(records)) == RecordAddresses(records)
  {
    if records != [] {
      AddressesShown(records[1..]);
      assert ShownAll(records)[1..] == ShownAll(records[1..]);
    }
  }

  /** A record of type t with n bytes of data, whose owner is a pointer; the data of a CNAME
      starts with the name `alias`. Types are not limited to those the code knows. */
  ghost predicate LaidOut(msg: seq<byte>, pos: nat, owner: Name, t: nat, n: nat, alias: Name) {
    && owner.Pointer? && Encodes(msg, pos, owner) && LowPointers(owner)
    && pos + 12 + n <= |msg| && WordAt(msg, pos + 2) == t && WordAt(msg, pos + 10) == n
    && (t == 5 ==> Encodes(msg, pos + 12, alias) && LowPointers(alias))
  }

  predicate EndsAt(step: Step, next: nat) {
    step.Step? && step.next == next
  }

  /** A turn ends behind its record exactly for an address of four bytes, for a CNAME that is
      one name and nothing else, and for any other type without data. */
  lemma AlignedExactly(msg: seq<byte>, pos: nat, owner: Name, t: nat, n: nat, alias: Name, depth: nat)
    requires LaidOut(msg, pos, owner, t, n, alias)
    requires Pointers(owner) <= depth && (t == 5 ==> Pointers(alias) < depth)
    ensures EndsAt(ReadAnswer(msg, pos, depth), pos + 12 + n)
       <==> if t == 1 then n == 4 else if t == 5 then n == Extent(alias) else n == 0
  {
    ReadLoopReads(msg, pos, depth, owner);
    assert ReadOwner(msg, pos, depth) == Text(JavaText(owner), pos + 2);
    hide ReadAnswer, ReadOwner, ReadBody, Encodes, LowPointers, ReadLoop, JavaText, Extent, WordAt, Pointers;
    TurnEnds(msg, pos, depth, pos + 12 + n);
    BodyEnds(msg, pos + 12, t, n, alias, depth);
  }

  lemma TurnEnds(msg: seq<byte>, pos: nat, depth: nat, next: nat)
    requires pos + 12 <= |msg| && ReadOwner(msg, pos, depth).Text? && ReadOwner(msg, pos, depth).next == pos + 2
    ensures EndsAt(ReadAnswer(msg, pos, depth), next)
       <==> BodyEndsAt(ReadBody(msg, pos + 12, Short(WordAt(msg, pos + 2)), depth), next)
  {
    hide ReadOwner, ReadBody, Short, WordAt, BodyError;
  }

  predicate BodyEndsAt(body: Option<(Body, nat)>, next: nat) {
    body.Some? && body.value.1 == next
  }

  lemma BodyEnds(msg: seq<byte>, pos: nat, t: nat, n: nat, alias: Name, depth: nat)
    requires pos + n <= |msg| && t < 65536
    requires t == 5 ==> Encodes(msg, pos, alias) && LowPointers(alias) && Pointers(alias) < depth
    ensures BodyEndsAt(ReadBody(msg, pos, Short(t), depth), pos + n)
       <==> if t == 1 then n == 4 else if t == 5 then n == Extent(alias) else n == 0
  {
    assert Short(t) == HOST_ADDRESS <==> t == 1;
    assert Short(t) == CANONICAL_NAME <==> t == 5;
    if t == 5 {
      ReadLoopReads(msg, pos, depth - 1, alias);
    }
    hide Encodes, LowPointers, Pointers, ReadLoop, JavaText, Extent, Short;
  }

  /** A text record of one byte, after which the next record is read one byte too early. */
  lemma TextRecordMisread(msg: seq<byte>, depth: nat)
    requires msg == [0, 192, 0, 0, 16, 0, 1, 0, 0, 0, 0, 0, 1, 7] && depth > 0
    ensures LaidOut(msg, 1, Pointer(0, End), 16, 1, End) && EndsAt(ReadAnswer(msg, 1, depth), 13)
  {
    assert Encodes(msg, 0, End);
    assert Encodes(msg, 1, Pointer(0, End));
    assert WordAt(msg, 3) == 16 && WordAt(msg, 11) == 1;
    assert Short(16) == 16;
    ReadLoopReads(msg, 1, depth, Pointer(0, End));
  }

  // ---------- Owner names that are not pointers ----------

  /** No character that stands in place looks like the first byte of a pointer. */
  predicate PlainBytes(w: Name) {
    w.Label? ==> (forall i :: 0 <= i < |w.text| ==> w.text[i] < 192) && PlainBytes(w.rest)
  }

  /** What ends the name where it stands. */
  function InPlaceEnd(w: Name): (r: Name)
    ensures !r.Label?
  {
    if w.Label? then InPlaceEnd(w.rest) else w
  }

  /** A label in front of a name, by its sizes. */
  lemma LabelSizes(w: Name)
    requires w.Label?
    ensures Extent(w) == 1 + |w.text| + Extent(w.rest) && InPlaceEnd(w) == InPlaceEnd(w.rest)
    ensures |JavaText(w)| == |w.text| + if w.rest.End? then 0 else 1 + |JavaText(w.rest)|
    ensures Pointers(w) == Pointers(w.rest) && (LowPointers(w) ==> LowPointers(w.rest))
    ensures PlainBytes(w) ==> PlainBytes(w.rest)
  {
  }

  lemma LabelBytes(msg: seq<byte>, pos: nat, w: Name)
    requires w.Label? && Encodes(msg, pos, w)
    ensures |w.text| >= 1 && pos + 1 + |w.text| <= |msg| && Encodes(msg, pos + 1 + |w.text|, w.rest)
    ensures PlainBytes(w) ==> msg[pos + |w.text|] < 192
  {
    assert msg[pos + |w.text|] == msg[pos + 1..pos + 1 + |w.text|][|w.text| - 1];
  }

  lemma EndBytes(msg: seq<byte>, pos: nat, w: Name)
    requires w.End? && Encodes(msg, pos, w)
    ensures Extent(w) == 1 && JavaText(w) == [] && pos < |msg| && msg[pos] == 0
  {
  }

  lemma PointerBytes(msg: seq<byte>, pos: nat, w: Name)
    requires w.Pointer? && Encodes(msg, pos, w) && LowPointers(w)
    ensures Extent(w) == 2 && JavaText(w) == JavaText(w.rest) && pos + 2 <= |msg|
    ensures InPlaceEnd(w) == w && Pointers(w) == 1 + Pointers(w.rest)
    ensures msg[pos] >= 192 && msg[pos + 1] as int == w.target && w.target < 128
    ensures Encodes(msg, w.target, w.rest) && LowPointers(w.rest)
  {
  }

  /** How much is printed of a legal name that ends in a zero byte, and what stands before it. */
  lemma {:induction false} ZeroEnd(msg: seq<byte>, pos: nat, w: Name)
    requires Encodes(msg, pos, w) && PlainBytes(w) && InPlaceEnd(w).End?
    ensures 1 <= Extent(w) && pos + Extent(w) <= |msg| && msg[pos + Extent(w) - 1] == 0
    ensures |JavaText(w)| == Max(Extent(w) - 2, 0)
    ensures if w.Label? then Extent(w) >= 3 && msg[pos + Extent(w) - 2] < 192 else Extent(w) == 1
    decreases w
  {
    hide Encodes, PlainBytes, JavaText, Extent;
    if w.Label? {
      hide InPlaceEnd;
      LabelSizes(w);
      LabelBytes(msg, pos, w);
      ZeroEnd(msg, pos + 1 + |w.text|, w.rest);
    } else {
      EndBytes(msg, pos, w);
    }
  }

  /** The same for one that ends in a pointer. */
  lemma {:induction false} PointerEnd(msg: seq<byte>, pos: nat, w: Name)
    requires Encodes(msg, pos, w) && InPlaceEnd(w).Pointer? && LowPointers(w)
    ensures (if w.Label? then 3 else 2) <= Extent(w) && pos + Extent(w) <= |msg|
    ensures msg[pos + Extent(w) - 2] >= 192 && msg[pos + Extent(w) - 1] as int == InPlaceEnd(w).target
    ensures InPlaceEnd(w).target < 128
    ensures Encodes(msg, InPlaceEnd(w).target, InPlaceEnd(w).rest) && LowPointers(InPlaceEnd(w).rest)
    ensures Pointers(w) == 1 + Pointers(InPlaceEnd(w).rest)
    ensures |JavaText(w)| == Extent(w) - 2 + |JavaText(InPlaceEnd(w).rest)|
    decreases w
  {
    hide Encodes, LowPointers, Pointers, JavaText, Extent;
    if w.Label? {
      hide InPlaceEnd;
      LabelSizes(w);
      LabelBytes(msg, pos, w);
      PointerEnd(msg, pos + 1 + |w.text|, w.rest);
      NotEnd(w.rest);
    } else {
      PointerBytes(msg, pos, w);
    }
  }

  lemma NotEnd(w: Name)
    requires InPlaceEnd(w).Pointer?
    ensures !w.End?
  {
  }

  /** The read r from pos ended at a zero byte, or at a pointer after which `inner` was read. */
  predicate EndedAtZero(msg: seq<byte>, pos: nat, r: Read) {
    r.Text? && pos < r.next <= |msg| && msg[r.next - 1] == 0 && |r.text| == Max(r.next - pos - 2, 0)
  }

  predicate EndedAtPointer(msg: seq<byte>, pos: nat, r: Read, inner: Read) {
    && r.Text? && inner.Text? && pos + 2 <= r.next <= |msg| && msg[r.next - 2] >= 192
    && |r.text| == r.next - pos - 2 + |inner.text|
  }

  /** What is read from the place that the byte before `next` points to. */
  function Inner(msg: seq<byte>, next: nat, depth: nat): Read {
    if 0 < next <= |msg| && msg[next - 1] < 128 && depth > 0 then ReadLoop(msg, msg[next - 1], depth - 1)
    else Fail(Underflow)
  }

  /** One label of a read that succeeds, by what it adds to the rest. */
  lemma LabelTurn(msg: seq<byte>, pos: nat, depth: nat)
    requires ReadLoop(msg, pos, depth).Text? && msg[pos] != 0 && !IsCompression(msg[pos])
    ensures var next := pos + 1 + Taken(msg[pos]);
            var r, rest := ReadLoop(msg, pos, depth), ReadLoop(msg, next, depth);
            && next < |msg| && rest.Text? && r.next == rest.next
            && |r.text| == next - pos - 1 + (if msg[next] != 0 then 1 else 0) + |rest.text|
            && (msg[next] == 0 ==> rest.next == next + 1)
  {
  }

  lemma LongerByLabel(msg: seq<byte>, pos: nat, next: nat, r: Read, rest: Read, inner: Read)
    requires r.Text? && rest.Text? && pos < next < |msg| && r.next == rest.next
    requires |r.text| == next - pos - 1 + (if msg[next] != 0 then 1 else 0) + |rest.text|
    requires msg[next] == 0 ==> rest.next == next + 1
    requires EndedAtZero(msg, next, rest) || (EndedAtPointer(msg, next, rest, inner) && msg[next] != 0)
    ensures EndedAtZero(msg, pos, r) || EndedAtPointer(msg, pos, r, inner)
  {
    if EndedAtZero(msg, next, rest) {
      assert rest.next == next + 1 ==> msg[next] == 0;
    }
  }

  /** How much is printed by a read that succeeds, by where it ends. */
  lemma {:induction false} TextLength(msg: seq<byte>, pos: nat, depth: nat)
    requires ReadLoop(msg, pos, depth).Text?
    ensures EndedAtZero(msg, pos, ReadLoop(msg, pos, depth))
         || EndedAtPointer(msg, pos, ReadLoop(msg, pos, depth), Inner(msg, ReadLoop(msg, pos, depth).next, depth))
    decreases if pos < |msg| then |msg| - pos else 0
  {
    if pos < |msg| && msg[pos] != 0 && !IsCompression(msg[pos]) {
      hide ReadLoop, Inner, Taken, IsCompression, EndedAtZero;
      LabelTurn(msg, pos, depth);
      var next := pos + 1 + Taken(msg[pos]);
      TextLength(msg, next, depth);
      var rest := ReadLoop(msg, next, depth);
      LongerByLabel(msg, pos, next, ReadLoop(msg, pos, depth), rest, Inner(msg, rest.next, depth));
    }
  }

  /** A read from pos + 1 that ends where a name at pos ends at its zero byte. */
  lemma ZeroClash(msg: seq<byte>, pos: nat, r: Read, inner: Read)
    requires EndedAtZero(msg, pos + 1, r) || EndedAtPointer(msg, pos + 1, r, inner)
    requires r.next == pos + 1 || (pos + 3 <= r.next && msg[r.next - 2] < 192)
    ensures |r.text| != Max(r.next - pos - 2, 0)
  {
  }

  /** The same where it ends in a pointer, behind which both read the same. */
  lemma PointerClash(msg: seq<byte>, pos: nat, r: Read, inner: Read, size: nat)
    requires EndedAtZero(msg, pos + 1, r) || EndedAtPointer(msg, pos + 1, r, inner)
    requires pos + 3 <= r.next && inner.Text? && |inner.text| == size
    ensures |r.text| != r.next - pos - 2 + size
  {
  }

  lemma InnerAt(msg: seq<byte>, next: nat, depth: nat, target: nat)
    requires 0 < next <= |msg| && msg[next - 1] as int == target && target < 128 && depth > 0
    ensures Inner(msg, next, depth) == ReadLoop(msg, target, depth - 1)
  {
  }

  /** A read from the second byte of a name on does not give what the name spells: if it ends
      where the name ends, it has printed one character less. */
  lemma ShiftedZero(msg: seq<byte>, pos: nat, w: Name, depth: nat)
    requires Encodes(msg, pos, w) && PlainBytes(w) && InPlaceEnd(w).End?
    ensures ReadLoop(msg, pos + 1, depth) != Text(JavaText(w), pos + Extent(w))
  {
    hide *;
    var r := ReadLoop(msg, pos + 1, depth);
    if r == Text(JavaText(w), pos + Extent(w)) {
      ZeroEnd(msg, pos, w);
      TextLength(msg, pos + 1, depth);
      ZeroClash(msg, pos, r, Inner(msg, r.next, depth));
    }
  }

  lemma ShiftedPointer(msg: seq<byte>, pos: nat, w: Name, depth: nat)
    requires Encodes(msg, pos, w) && LowPointers(w) && Pointers(w) <= depth && w.Label? && InPlaceEnd(w).Pointer?
    ensures ReadLoop(msg, pos + 1, depth) != Text(JavaText(w), pos + Extent(w))
  {
    hide *;
    var r := ReadLoop(msg, pos + 1, depth);
    if r == Text(JavaText(w), pos + Extent(w)) {
      var end := InPlaceEnd(w);
      PointerEnd(msg, pos, w);
      ReadLoopReads(msg, end.target, depth - 1, end.rest);
      InnerAt(msg, r.next, depth, end.target);
      TextLength(msg, pos + 1, depth);
      PointerClash(msg, pos, r, Inner(msg, r.next, depth), |JavaText(end.rest)|);
    }
  }

  /** An owner name is read as what it spells exactly when it is a pointer, as long as none of
      its characters can be taken for one. */
  lemma OwnerExactly(msg: seq<byte>, pos: nat, w: Name, depth: nat)
    requires Encodes(msg, pos, w) && LowPointers(w) && Pointers(w) < depth && PlainBytes(w)
    ensures ReadOwner(msg, pos, depth) == Text(JavaText(w), pos + Extent(w)) <==> w.Pointer?
  {
    if w.Pointer? {
      ReadLoopReads(msg, pos, depth, w);
      hide LowPointers, PlainBytes, ReadLoop, JavaText, Extent;
    } else {
      assert ReadOwner(msg, pos, depth) == ReadLoop(msg, pos + 1, depth - 1);
      hide Encodes, LowPointers, PlainBytes, ReadLoop, ReadOwner, JavaText, Extent;
      if InPlaceEnd(w).End? {
        ShiftedZero(msg, pos, w, depth - 1);
      } else {
        ShiftedPointer(msg, pos, w, depth - 1);
      }
    }
  }

  /** The root as an owner makes the rest of the record be read one byte too late. */
  lemma RootOwnerMisread(msg: seq<byte>, pos: nat, depth: nat)
    requires pos + 2 <= |msg| && msg[pos] == 0 && msg[pos + 1] == 0 && depth > 0
    ensures Encodes(msg, pos, End) && Extent(End) == 1
    ensures ReadOwner(msg, pos, depth) == Text([], pos + 2)
  {
  }

  /** A character from 192 on can be followed as a pointer, here back to the name it is in,
      so that the name is read as it should be by accident. */
  lemma OwnerByAccident(msg: seq<byte>, depth: nat)
    requires msg == [1, 192, 0] && depth > 1
    ensures var w := Label([192], End);
            Encodes(msg, 0, w) && !PlainBytes(w) && ReadOwner(msg, 0, depth) == Text(JavaText(w), 0 + Extent(w))
  {
    var w := Label([192], End);
    assert msg[1..2] == [192];
    assert Encodes(msg, 2, End);
    ReadLoopReads(msg, 0, depth - 2, w);
    assert w.text[0] == 192;
  }

  // ---------- The whole message ----------

  datatype Response = Ignored | Failed(error: Error) | Response(questions: seq<Asked>, answers: seq<Answer>)

  /** `handleData` on the bytes of a datagram. */
  function Handled(msg: seq<byte>, transactionId: int, depth: nat): Response {
    if |msg| < 2 then Failed(Underflow)
    else if Short(WordAt(msg, 0)) != Short(transactionId) then Ignored
    else if |msg| < 12 then Failed(Underflow)
    else ReadBoth(msg, Max(Short(WordAt(msg, 4)), 0), Max(Short(WordAt(msg, 6)), 0), depth)
  }

  /** The two sections behind the header. */
  function ReadBoth(msg: seq<byte>, questionCount: nat, answerCount: nat, depth: nat): Response {
    var questions := ReadQuestions(msg, 12, questionCount, depth);
    if questions.Broken? then Failed(questions.error)
    else
      var answers := ReadAnswers(msg, questions.next, answerCount, depth);
      if answers.Broken? then Failed(answers.error) else Response(questions.list, answers.list)
  }

  method HandleData(data: array<byte>, transactionId: int, depth: nat) returns (r: Response)
    ensures r == Handled(data[..], transactionId, depth)
  {
    hide ReadQuestions, ReadAnswers, Short;
    var buffer := new ByteBuffer(data);
    var id := buffer.GetShort();
    if id.None? {
      return Failed(Underflow);
    }
    if Short(id.value) != Short(transactionId) {
      return Ignored;
    }
    var counts := ReadCounts(buffer);
    if counts.None? {
      return Failed(Underflow);
    }
    var questions := ReadQuestionsLoop(counts.value.0, buffer, depth);
    if questions.Broken? {
      return Failed(questions.error);
    }
    var answers := ReadAnswersLoop(counts.value.1, buffer, depth);
    if answers.Broken? {
      return Failed(answers.error);
    }
    r := Response(questions.list, answers.list);
  }

  lemma SameShort(a: int, b: int)
    ensures Short(a) == Short(b) <==> a % 65536 == b % 65536
  {
  }

  /** How many items a count field makes the reader expect: above 32767 it is negative. */
  function Expected(count: nat): nat {
    if count < 32768 then count else 0
  }

  /** A message is ignored exactly when it bears another transaction id, whatever it says. */
  lemma IgnoredExactly(msg: seq<byte>, id: int, depth: nat)
    ensures Handled(msg, id, depth) == Ignored <==> |msg| >= 2 && WordAt(msg, 0) != id % 65536
  {
    if |msg| >= 12 {
      NeverIgnored(msg, Max(Short(WordAt(msg, 4)), 0), Max(Short(WordAt(msg, 6)), 0), depth);
    }
    hide ReadBoth, Short;
    if |msg| >= 2 {
      SameShort(WordAt(msg, 0), id);
    }
  }

  lemma NeverIgnored(msg: seq<byte>, questionCount: nat, answerCount: nat, depth: nat)
    ensures ReadBoth(msg, questionCount, answerCount, depth) != Ignored
  {
    hide ReadQuestions, ReadAnswers;
  }

  /** A message of its own that ends inside the header makes the reader throw. */
  lemma HeaderCutShort(msg: seq<byte>, id: int, depth: nat)
    requires |msg| < 12 && (|msg| >= 2 ==> WordAt(msg, 0) == id % 65536)
    ensures Handled(msg, id, depth) == Failed(Underflow)
  {
    hide ReadBoth, Short;
    if |msg| >= 2 {
      SameShort(WordAt(msg, 0), id);
    }
  }

  /** Otherwise the two counts decide what is read. */
  lemma OwnMessage(msg: seq<byte>, id: int, depth: nat)
    requires |msg| >= 12 && WordAt(msg, 0) == id % 65536
    ensures Handled(msg, id, depth) == ReadBoth(msg, Expected(WordAt(msg, 4)), Expected(WordAt(msg, 6)), depth)
  {
    hide ReadBoth;
    SameShort(WordAt(msg, 0), id);
  }

  /** The whole message refines its two lists: for every message of its own laid out by RFC 1035,
      with pointers as owners and records of addresses and aliases, all questions and all
      answers are shown in order. */
  lemma MessageRefines(msg: seq<byte>, id: int, queries: seq<Query>, records: seq<Record>, depth: nat)
    requires |msg| >= 12 && WordAt(msg, 0) == id % 65536
    requires |queries| == Expected(WordAt(msg, 4)) && |records| == Expected(WordAt(msg, 6))
    requires QueriesAt(msg, 12, queries) && SectionAt(msg, 12 + QueriesSize(queries), records)
    requires forall q :: q in queries ==> Pointers(q.name) < depth
    requires forall r :: r in records ==> StackNeeded(r) <= depth
    ensures Handled(msg, id, depth) == Response(ShownQueries(queries), ShownAll(records))
  {
    hide *;
    OwnMessage(msg, id, depth);
    BothRefine(msg, queries, records, depth);
  }

  lemma BothRefine(msg: seq<byte>, queries: seq<Query>, records: seq<Record>, depth: nat)
    requires QueriesAt(msg, 12, queries) && SectionAt(msg, 12 + QueriesSize(queries), records)
    requires forall q :: q in queries ==> Pointers(q.name) < depth
    requires forall r :: r in records ==> StackNeeded(r) <= depth
    ensures ReadBoth(msg, |queries|, |records|, depth) == Response(ShownQueries(queries), ShownAll(records))
  {
    hide ReadQuestions, ReadAnswers, QueriesAt, QueriesSize, SectionAt, ShownQueries, ShownAll, Pointers, StackNeeded;
    QueriesRefine(msg, 12, queries, depth);
    AnswersRefine(msg, 12 + QueriesSize(queries), records, depth);
  }

  /** One message that takes the reader down, however much stack it has: its own id, a
      question, and a chain of pointers from its first name that comes back to itself. */
  lemma LoopOverflows(msg: seq<byte>, id: int, depth: nat)
    requires |msg| >= 12 && WordAt(msg, 0) == id % 65536
    requires 1 <= WordAt(msg, 4) <= 32767 && Loops(msg, 12)
    ensures Handled(msg, id, depth) == Failed(StackOverflow)
  {
    OwnMessage(msg, id, depth);
    if depth > 0 {
      TerminatesExactly(msg, 12, depth - 1);
    }
    assert ReadName(msg, 12, depth) == Fail(StackOverflow);
    hide ReadName, ReadAnswers, Handled, Loops, WordAt;
  }

  /** Flags and the four counts; the questions' and the answers' are used. */
  method ReadCounts(buffer: ByteBuffer) returns (r: Option<(int, int)>)
    requires buffer.Valid() && buffer.position == 2
    modifies buffer`position
    ensures buffer.Valid()
    ensures if buffer.store.Length < 12 then r == None
            else
              && r == Some((Short(WordAt(buffer.store[..], 4)), Short(WordAt(buffer.store[..], 6))))
              && buffer.position == 12
  {
    var flags := buffer.GetShort();
    if flags.None? {
      return None;
    }
    var questionCount := buffer.GetShort();
    if questionCount.None? {
      return None;
    }
    var answerCount := buffer.GetShort();
    if answerCount.None? {
      return None;
    }
    var authorityCount := buffer.GetShort();
    if authorityCount.None? {
      return None;
    }
    var additionalCount := buffer.GetShort();
    if additionalCount.None? {
      return None;
    }
    r := Some((Short(questionCount.value), Short(answerCount.value)));
  }

  // ---------- A resolver's reply ----------

  /** An A record as a resolver sends it: the owner is a pointer to the question's name. */
  function WireAnswer(ttl: int, address: IpAddress): seq<byte> {
    [192, 12] + Be16(1) + Be16(1) + Be32(ttl) + Be16(4) + address
  }

  function WireAnswers(ttl: int, addresses: seq<IpAddress>): seq<byte> {
    if addresses == [] then [] else WireAnswer(ttl, addresses[0]) + WireAnswers(ttl, addresses[1..])
  }

  function ReplyHeader(id: int, flags: int, answerCount: nat): (r: seq<byte>)
    ensures |r| == 12
  {
    Be16(id) + Be16(flags) + Be16(1) + Be16(answerCount) + Be16(0) + Be16(0)
  }

  function Reply(id: int, flags: int, name: seq<jchar>, ttl: int, addresses: seq<IpAddress>): seq<byte> {
    ReplyHeader(id, flags, |addresses|) + (Question(name) + WireAnswers(ttl, addresses))
  }

  function ARecords(name: Name, ttl: int, addresses: seq<IpAddress>): (r: seq<Record>)
    ensures |r| == |addresses|
    ensures forall i :: 0 <= i < |r| ==> r[i] == Record(Pointer(12, name), 1, Be32(ttl), A(addresses[i]))
  {
    seq(|addresses|, i requires 0 <= i < |addresses| => Record(Pointer(12, name), 1, Be32(ttl), A(addresses[i])))
  }

  lemma WireAnswerIsRecord(msg: seq<byte>, pos: nat, name: Name, ttl: int, address: IpAddress)
    requires At(msg, pos, WireAnswer(ttl, address))
    requires Encodes(msg, 12, name) && LowPointers(name)
    ensures RecordAt(msg, pos, Record(Pointer(12, name), 1, Be32(ttl), A(address)))
  {
    hide Be16, Be32;
    assert WireAnswer(ttl, address) == [192] + ([12] + (Be16(1) + (Be16(1) + (Be32(ttl) + (Be16(4) + address)))));
    hide WireAnswer, At;
    AtSplit(msg, pos, [192], [12] + (Be16(1) + (Be16(1) + (Be32(ttl) + (Be16(4) + address)))));
    AtByte(msg, pos, 192);
    AtSplit(msg, pos + 1, [12], Be16(1) + (Be16(1) + (Be32(ttl) + (Be16(4) + address))));
    AtByte(msg, pos + 1, 12);
    FixedFieldsAt(msg, pos + 2, ttl, address);
    AtSlice(msg, pos + 12, address);
    PointerHere(msg, pos, name);
    hide Encodes, LowPointers, WordAt;
  }

  lemma PointerHere(msg: seq<byte>, pos: nat, name: Name)
    requires pos + 2 <= |msg| && msg[pos] == 192 && msg[pos + 1] == 12 && Encodes(msg, 12, name) && LowPointers(name)
    ensures Encodes(msg, pos, Pointer(12, name)) && LowPointers(Pointer(12, name))
  {
  }

  /** What follows the owner. */
  lemma FixedFieldsAt(msg: seq<byte>, pos: nat, ttl: int, address: IpAddress)
    requires At(msg, pos, Be16(1) + (Be16(1) + (Be32(ttl) + (Be16(4) + address))))
    ensures pos + 14 <= |msg| && WordAt(msg, pos) == 1 && WordAt(msg, pos + 2) == 1
    ensures msg[pos + 4..pos + 8] == Be32(ttl) && WordAt(msg, pos + 8) == 4 && At(msg, pos + 10, address)
  {
    hide At, Be32, Be16;
    AtSplit(msg, pos, Be16(1), Be16(1) + (Be32(ttl) + (Be16(4) + address)));
    AtWord(msg, pos, 1);
    AtSplit(msg, pos + 2, Be16(1), Be32(ttl) + (Be16(4) + address));
    AtWord(msg, pos + 2, 1);
    AtSplit(msg, pos + 4, Be32(ttl), Be16(4) + address);
    AtSlice(msg, pos + 4, Be32(ttl));
    AtSplit(msg, pos + 8, Be16(4), address);
    AtWord(msg, pos + 8, 4);
    AtSlice(msg, pos + 10, address);
  }

  lemma AtSlice(msg: seq<byte>, pos: nat, s: seq<byte>)
    requires At(msg, pos, s)
    ensures pos + |s| <= |msg| && msg[pos..pos + |s|] == s
  {
  }

  lemma {:induction false} WireAnswersAreRecords(msg: seq<byte>, pos: nat, name: Name, ttl: int,
                                                 addresses: seq<IpAddress>)
    requires At(msg, pos, WireAnswers(ttl, addresses))
    requires Encodes(msg, 12, name) && LowPointers(name)
    ensures SectionAt(msg, pos, ARecords(name, ttl, addresses))
    decreases |addresses|
  {
    if addresses != [] {
      var records := ARecords(name, ttl, addresses);
      AtSplit(msg, pos, WireAnswer(ttl, addresses[0]), WireAnswers(ttl, addresses[1..]));
      WireAnswerIsRecord(msg, pos, name, ttl, addresses[0]);
      WireAnswersAreRecords(msg, pos + 16, name, ttl, addresses[1..]);
      assert records[1..] == ARecords(name, ttl, addresses[1..]);
    }
  }

  lemma {:induction false} RecordAddressesOf(name: Name, ttl: int, addresses: seq<IpAddress>)
    ensures RecordAddresses(ARecords(name, ttl, addresses)) == addresses
    decreases |addresses|
  {
    if addresses != [] {
      RecordAddressesOf(name, ttl, addresses[1..]);
      assert ARecords(name, ttl, addresses)[1..] == ARecords(name, ttl, addresses[1..]);
    }
  }

  lemma ReplyHeaderFields(msg: seq<byte>, id: int, flags: int, n: nat)
    requires At(msg, 0, ReplyHeader(id, flags, n)) && n < 32768
    ensures |msg| >= 12 && WordAt(msg, 0) == id % 65536 && WordAt(msg, 4) == 1 && WordAt(msg, 6) == n
  {
    hide Be16;
    assert ReplyHeader(id, flags, n) == Be16(id) + (Be16(flags) + (Be16(1) + (Be16(n) + (Be16(0) + Be16(0)))));
    hide At, WordAt, ReplyHeader;
    AtSplit(msg, 0, Be16(id), Be16(flags) + (Be16(1) + (Be16(n) + (Be16(0) + Be16(0)))));
    AtSplit(msg, 2, Be16(flags), Be16(1) + (Be16(n) + (Be16(0) + Be16(0))));
    AtSplit(msg, 4, Be16(1), Be16(n) + (Be16(0) + Be16(0)));
    AtSplit(msg, 6, Be16(n), Be16(0) + Be16(0));
    AtWord(msg, 0, id);
    AtWord(msg, 4, 1);
    AtWord(msg, 6, n);
  }

  lemma ReplyParts(id: int, flags: int, name: seq<jchar>, ttl: int, addresses: seq<IpAddress>)
    requires |addresses| < 32768
    ensures var msg := Reply(id, flags, name, ttl, addresses);
            && |msg| >= 12 && WordAt(msg, 0) == id % 65536
            && Expected(WordAt(msg, 4)) == 1 && Expected(WordAt(msg, 6)) == |addresses|
            && At(msg, 12, Question(name)) && At(msg, 18 + |name|, WireAnswers(ttl, addresses))
  {
    var msg := Reply(id, flags, name, ttl, addresses);
    var head, tail := ReplyHeader(id, flags, |addresses|), Question(name) + WireAnswers(ttl, addresses);
    assert At(msg, 0, head + tail) by {
      assert msg[0..0 + |msg|] == msg;
    }
    hide Reply, ReplyHeader, Question, WireAnswers, At, Be16;
    AtSplit(msg, 0, head, tail);
    ReplyHeaderFields(msg, id, flags, |addresses|);
    AtSplit(msg, 12, Question(name), WireAnswers(ttl, addresses));
  }

  /** The answers of a message that ends in such records. */
  lemma AnswersResolve(msg: seq<byte>, pos: nat, name: Name, ttl: int, addresses: seq<IpAddress>, depth: nat)
    requires At(msg, pos, WireAnswers(ttl, addresses))
    requires Encodes(msg, 12, name) && LowPointers(name) && Pointers(name) == 0 && depth > 0
    ensures var answers := ShownAll(ARecords(name, ttl, addresses));
            && ReadAnswers(msg, pos, |addresses|, depth).Items?
            && ReadAnswers(msg, pos, |addresses|, depth).list == answers
            && |answers| == |addresses| && Addresses(answers) == addresses
            && forall i :: 0 <= i < |answers| ==>
                 answers[i] == Answer(JavaText(name), 1, 1, Be32(ttl), 4, Address(addresses[i]))
  {
    var records := ARecords(name, ttl, addresses);
    WireAnswersAreRecords(msg, pos, name, ttl, addresses);
    AnswersRefine(msg, pos, records, depth);
    AddressesShown(records);
    RecordAddressesOf(name, ttl, addresses);
  }

  /** Query and reply end to end: for every legal name, the reply that repeats the question
      this client built and answers with a list of addresses is shown as that name, as far as
      bytes print it, and exactly those addresses, in order, if it bears the query's
      transaction id; otherwise nothing of it is. */
  lemma ReplyResolves(other: int, id: int, flags: int, name: seq<jchar>, ttl: int, addresses: seq<IpAddress>,
                      depth: nat)
    requires LegalName(name) && |addresses| < 32768 && depth >= 2
    ensures var r := Handled(Reply(other, flags, name, ttl, addresses), id, depth);
            if other % 65536 != id % 65536 then r == Ignored
            else
              && r.Response?
              && r.questions == [Asked(AsPrinted(name), 1, 1)]
              && |r.answers| == |addresses| && Addresses(r.answers) == addresses
              && forall i :: 0 <= i < |addresses| ==>
                   r.answers[i] == Answer(AsPrinted(name), 1, 1, Be32(ttl), 4, Address(addresses[i]))
  {
    hide *;
    var msg := Reply(other, flags, name, ttl, addresses);
    ReplyParts(other, flags, name, ttl, addresses);
    IgnoredExactly(msg, id, depth);
    if other % 65536 == id % 65536 {
      OwnMessage(msg, id, depth);
      BothResolve(msg, name, ttl, addresses, depth);
    }
  }

  lemma BothResolve(msg: seq<byte>, name: seq<jchar>, ttl: int, addresses: seq<IpAddress>, depth: nat)
    requires LegalName(name) && depth >= 2
    requires At(msg, 12, Question(name)) && At(msg, 18 + |name|, WireAnswers(ttl, addresses))
    ensures var r := ReadBoth(msg, 1, |addresses|, depth);
            && r.Response?
            && r.questions == [Asked(AsPrinted(name), 1, 1)]
            && |r.answers| == |addresses| && Addresses(r.answers) == addresses
            && forall i :: 0 <= i < |addresses| ==>
                 r.answers[i] == Answer(AsPrinted(name), 1, 1, Be32(ttl), 4, Address(addresses[i]))
  {
    assert ReadQuestions(msg, 18 + |name|, 0, depth) == Items([], 18 + |name|);
    hide ReadQuestions, ReadAnswers, WireAnswers, Question, At, NameOf, Pieces, LegalName, Encodes, LowPointers,
      Pointers, AsPrinted, JavaText, ShownAll, ARecords, Addresses, Before,
      Be32;
    QuestionAt(name, msg, 12, 1, depth);
    BeforeEnd([Asked(AsPrinted(name), 1, 1)], 18 + |name|);
    EncodedName(name, msg, 12);
    AnswersResolve(msg, 18 + |name|, NameOf(Pieces(name)), ttl, addresses, depth);
  }
}
