/** The question section: `constructDNSPacketQuestion` and `readQuestions` of
    src/Application/DNSApplication.java. */
module DnsQuestion {
  import opened Bytes
  import opened ByteBuffers
  import opened DnsNames

  // ---------- String.split("\\.") ----------

  /** The pieces between the dots, empty ones included. */
  function Pieces(s: seq<jchar>): (r: seq<seq<jchar>>)
    ensures r != []
  {
    if s == [] then [[]]
    else
      var p := Pieces(s[1..]);
      if s[0] == DOT then [[]] + p else [[s[0]] + p[0]] + p[1..]
  }

  function DropTrailingEmpty(p: seq<seq<jchar>>): (r: seq<seq<jchar>>)
    ensures r <= p
  {
    if p != [] && p[|p| - 1] == [] then DropTrailingEmpty(p[..|p| - 1]) else p
  }

  /** Java drops trailing empty pieces, unless nothing was split. */
  function JavaSplit(s: seq<jchar>): seq<seq<jchar>> {
    if DOT !in s then [s] else DropTrailingEmpty(Pieces(s))
  }

  // ---------- The bytes of a question ----------

  /** The casts `(byte) c`. */
  function ToBytes(s: seq<jchar>): (r: seq<byte>)
    ensures |r| == |s|
  {
    seq(|s|, i requires 0 <= i < |s| => s[i] as int % 256)
  }

  /** Each label after its length byte. */
  function Wire(labels: seq<seq<jchar>>): seq<byte> {
    if labels == [] then []
    else [(|labels[0]| % 256) as byte] + ToBytes(labels[0]) + Wire(labels[1..])
  }

  function QuestionBody(name: seq<jchar>): seq<byte> {
    Wire(JavaSplit(name)) + [0] + Be16(1) + Be16(1)
  }

  /** The whole array, which is sized by the length of the name alone. */
  function Question(name: seq<jchar>): (r: seq<byte>)
    ensures |r| == |name| + 6
  {
    QuestionFits(name);
    QuestionBody(name) + Zeros(|name| + 6 - |QuestionBody(name)|)
  }

  lemma {:induction false} WireConcat(a: seq<seq<jchar>>, b: seq<seq<jchar>>)
    ensures Wire(a + b) == Wire(a) + Wire(b)
  {
    if a == [] {
      assert a + b == b;
    } else {
      assert (a + b)[1..] == a[1..] + b;
      WireConcat(a[1..], b);
    }
  }

  lemma {:induction false} PiecesFill(s: seq<jchar>)
    ensures |Wire(Pieces(s))| == |s| + 1
    ensures Pieces(s)[|Pieces(s)| - 1] == [] <==> s == [] || s[|s| - 1] == DOT
    ensures DOT !in s ==> Pieces(s) == [s]
  {
    if s == [] {
      assert Wire(Pieces(s)) == [0] + ToBytes([]) + Wire([]);
    } else {
      PiecesFill(s[1..]);
      var p, q := Pieces(s[1..]), Pieces(s);
      if s[0] == DOT {
        assert q[0] == [] && q[1..] == p;
        assert q[|q| - 1] == p[|p| - 1];
      } else {
        assert q[0] == [s[0]] + p[0] && q[1..] == p[1..];
        if |p| == 1 {
          assert s == [s[0]] + s[1..];
        } else {
          assert q[|q| - 1] == p[|p| - 1];
        }
      }
    }
  }

  lemma {:induction false} DropShortens(p: seq<seq<jchar>>)
    ensures |Wire(DropTrailingEmpty(p))| + |p| == |Wire(p)| + |DropTrailingEmpty(p)|
    ensures |DropTrailingEmpty(p)| == |p| <==> p == [] || p[|p| - 1] != []
  {
    if p != [] && p[|p| - 1] == [] {
      DropShortens(p[..|p| - 1]);
      assert p == p[..|p| - 1] + [[]];
      WireConcat(p[..|p| - 1], [[]]);
      assert Wire([[]]) == [0] + ToBytes([]) + Wire([]);
    }
  }

  /** The array is never overrun, and it is filled exactly when the name does not end in a
      dot: each trailing dot loses a byte. */
  lemma QuestionFits(name: seq<jchar>)
    ensures |QuestionBody(name)| <= |name| + 6
    ensures |QuestionBody(name)| == |name| + 6 <==> name == [] || name[|name| - 1] != DOT
  {
    PiecesFill(name);
    if DOT in name {
      DropShortens(Pieces(name));
    } else {
      assert JavaSplit(name) == Pieces(name);
    }
  }

  /** `constructDNSPacketQuestion` */
  method ConstructQuestion(domainName: seq<jchar>) returns (dnsQuestion: seq<byte>)
    ensures dnsQuestion == Question(domainName)
  {
    var store := new byte[1 + 1 + |domainName| + 2 + 2](_ => 0);
    var domain := JavaSplit(domainName);
    var buffer := new ByteBuffer(store);
    QuestionFits(domainName);
    hide Wire, JavaSplit, Be16;
    PutLabels(buffer, domain);
    PutTail(buffer);
    assert store[..buffer.position] == QuestionBody(domainName);
    assert store[buffer.position..] == Zeros(store.Length - buffer.position);
    assert store[..] == store[..buffer.position] + store[buffer.position..];
    dnsQuestion := store[..];
  }

  /** The outer loop over the labels. */
  method PutLabels(buffer: ByteBuffer, domain: seq<seq<jchar>>)
    requires buffer.Valid() && buffer.position == 0 && |Wire(domain)| <= buffer.store.Length
    modifies buffer`position, buffer.store
    ensures buffer.Valid() && buffer.store[..buffer.position] == Wire(domain)
    ensures forall i :: buffer.position <= i < buffer.store.Length ==> buffer.store[i] == old(buffer.store[i])
  {
    hide ToBytes;
    var k := 0;
    while k < |domain|
      invariant 0 <= k <= |domain| && buffer.Valid()
      invariant buffer.store[..buffer.position] + Wire(domain[k..]) == Wire(domain)
      invariant forall i :: buffer.position <= i < buffer.store.Length ==> buffer.store[i] == old(buffer.store[i])
    {
      assert domain[k..][1..] == domain[k + 1..];
      PutLabel(buffer, domain[k], Wire(domain[k + 1..]));
      k := k + 1;
    }
    assert buffer.store[..buffer.position] + [] == buffer.store[..buffer.position];
  }

  /** The end byte, type A and class IN. */
  method PutTail(buffer: ByteBuffer)
    requires buffer.Valid() && buffer.position + 5 <= buffer.store.Length
    modifies buffer`position, buffer.store
    ensures buffer.Valid() && buffer.position == old(buffer.position) + 5
    ensures buffer.store[..buffer.position] == old(buffer.store[..buffer.position]) + [0] + Be16(1) + Be16(1)
    ensures forall i :: buffer.position <= i < buffer.store.Length ==> buffer.store[i] == old(buffer.store[i])
  {
    hide Be16;
    buffer.Put(0);
    buffer.PutShort(1);
    buffer.PutShort(1);
  }

  /** The inner loop: the length byte, then the characters cut to bytes. */
  method PutLabel(buffer: ByteBuffer, label_: seq<jchar>, ghost more: seq<byte>)
    requires buffer.Valid() && buffer.position + 1 + |label_| <= buffer.store.Length
    modifies buffer`position, buffer.store
    ensures buffer.Valid() && buffer.position == old(buffer.position) + 1 + |label_|
    ensures buffer.store[..buffer.position] + more
         == old(buffer.store[..buffer.position]) + ([(|label_| % 256) as byte] + ToBytes(label_) + more)
    ensures forall i :: buffer.position <= i < buffer.store.Length ==> buffer.store[i] == old(buffer.store[i])
  {
    ghost var before := buffer.store[..buffer.position];
    buffer.Put((|label_| % 256) as byte);
    for i := 0 to |label_|
      invariant buffer.Valid() && buffer.position == old(buffer.position) + 1 + i
      invariant buffer.store[..buffer.position] == before + [(|label_| % 256) as byte] + ToBytes(label_)[..i]
      invariant forall j :: buffer.position <= j < buffer.store.Length ==> buffer.store[j] == old(buffer.store[j])
    {
      assert ToBytes(label_)[..i + 1] == ToBytes(label_)[..i] + [label_[i] as int % 256];
      buffer.Put(label_[i] as int % 256);
    }
    assert ToBytes(label_)[..|label_|] == ToBytes(label_);
  }

  // ---------- Reading questions ----------

  /** The items of a section and the cursor behind them, or the exception thrown. */
  datatype Section<T> = Items(list: seq<T>, next: nat) | Broken(error: Error)

  function Before<T>(list: seq<T>, s: Section<T>): Section<T> {
    if s.Broken? then s else Items(list + s.list, s.next)
  }

  lemma BeforeAgain<T>(a: seq<T>, b: seq<T>, s: Section<T>)
    ensures Before(a, Before(b, s)) == Before(a + b, s)
  {
    if s.Items? {
      assert a + (b + s.list) == (a + b) + s.list;
    }
  }

  lemma BeforeNothing<T>(s: Section<T>)
    ensures Before([], s) == s
  {
    if s.Items? {
      assert [] + s.list == s.list;
    }
  }

  lemma BeforeEnd<T>(a: seq<T>, next: nat)
    ensures Before(a, Items([], next)) == Items(a, next)
  {
    assert a + [] == a;
  }

  /** What is printed of a question; type and class are shorts. */
  datatype Asked = Asked(name: seq<jchar>, qtype: int, qclass: int)

  datatype Turn = Turn(asked: Asked, next: nat) | Halt(error: Error)

  function ReadQuestion(msg: seq<byte>, pos: nat, depth: nat): Turn {
    var name := ReadName(msg, pos, depth);
    if name.Fail? then Halt(name.error)
    else if name.next + 4 > |msg| then Halt(Underflow)
    else
      Turn(Asked(name.text, Short(WordAt(msg, name.next)), Short(WordAt(msg, name.next + 2))), name.next + 4)
  }

  function ReadQuestions(msg: seq<byte>, pos: nat, count: nat, depth: nat): Section<Asked>
    decreases count
  {
    if count == 0 then Items([], pos)
    else
      var turn := ReadQuestion(msg, pos, depth);
      if turn.Halt? then Broken(turn.error)
      else Before([turn.asked], ReadQuestions(msg, turn.next, count - 1, depth))
  }

  /** One turn of the loop of `readQuestions`. */
  method ReadOneQuestion(data: ByteBuffer, depth: nat) returns (r: Turn)
    requires data.Valid()
    modifies data`position
    ensures data.Valid()
    ensures r == ReadQuestion(data.store[..], old(data.position), depth)
    ensures r.Turn? ==> data.position == r.next
  {
    hide Short, WordAt, ReadName;
    var name := ReadStringContent(data, depth);
    if name.Fail? {
      return Halt(name.error);
    }
    var qtype := data.GetShort();
    if qtype.None? {
      return Halt(Underflow);
    }
    var qclass := data.GetShort();
    if qclass.None? {
      return Halt(Underflow);
    }
    r := Turn(Asked(name.text, Short(qtype.value), Short(qclass.value)), data.position);
  }

  lemma NoMoreQuestions(msg: seq<byte>, pos: nat, depth: nat, list: seq<Asked>)
    ensures Before(list, ReadQuestions(msg, pos, 0, depth)) == Items(list, pos)
  {
    BeforeEnd(list, pos);
  }

  /** Unfolding the section by one question that was read. */
  lemma AnotherQuestion(msg: seq<byte>, pos: nat, count: nat, depth: nat, list: seq<Asked>)
    requires count > 0
    ensures Before(list, ReadQuestions(msg, pos, count, depth))
         == match ReadQuestion(msg, pos, depth)
            case Halt(error) => Broken(error)
            case Turn(asked, next) => Before(list + [asked], ReadQuestions(msg, next, count - 1, depth))
  {
    hide ReadQuestion;
    var turn := ReadQuestion(msg, pos, depth);
    if turn.Turn? {
      BeforeAgain(list, [turn.asked], ReadQuestions(msg, turn.next, count - 1, depth));
    }
  }

  method ReadQuestionsLoop(questionCount: int, data: ByteBuffer, depth: nat) returns (r: Section<Asked>)
    requires data.Valid()
    modifies data`position
    ensures data.Valid()
    ensures r == ReadQuestions(data.store[..], old(data.position), Max(questionCount, 0), depth)
    ensures r.Items? ==> data.position == r.next
  {
    ghost var msg := data.store[..];
    ghost var n := Max(questionCount, 0);
    ghost var all := ReadQuestions(msg, data.position, n, depth);
    var list: seq<Asked> := [];
    BeforeNothing(all);
    hide ReadQuestion, ReadQuestions, Before;
    var i := 0;
    while i < questionCount
      invariant data.Valid() && data.store[..] == msg && 0 <= i <= n
      invariant Before(list, ReadQuestions(msg, data.position, n - i, depth)) == all
    {
      AnotherQuestion(msg, data.position, n - i, depth, list);
      var turn := ReadOneQuestion(data, depth);
      if turn.Halt? {
        return Broken(turn.error);
      }
      list := list + [turn.asked];
      i := i + 1;
    }
    NoMoreQuestions(msg, data.position, depth, list);
    r := Items(list, data.position);
  }

  // ---------- Questions as section 4.1.2 of RFC 1035 lays them out ----------

  /** A name, then a type and a class. */
  datatype Query = Query(name: Name, qtype: nat, qclass: nat)

  ghost predicate QueryAt(msg: seq<byte>, pos: nat, q: Query) {
    && Encodes(msg, pos, q.name) && LowPointers(q.name)
    && pos + Extent(q.name) + 4 <= |msg|
    && WordAt(msg, pos + Extent(q.name)) == q.qtype
    && WordAt(msg, pos + Extent(q.name) + 2) == q.qclass
  }

  ghost predicate QueriesAt(msg: seq<byte>, pos: nat, queries: seq<Query>)
    decreases |queries|
  {
    queries != [] ==> QueryAt(msg, pos, queries[0]) && QueriesAt(msg, pos + QuerySize(queries[0]), queries[1..])
  }

  function QuerySize(q: Query): nat {
    Extent(q.name) + 4
  }

  function QueriesSize(queries: seq<Query>): nat {
    if queries == [] then 0 else QuerySize(queries[0]) + QueriesSize(queries[1..])
  }

  /** What a question should be printed as. */
  function ShownQuery(q: Query): Asked {
    Asked(JavaText(q.name), Short(q.qtype), Short(q.qclass))
  }

  function ShownQueries(queries: seq<Query>): (r: seq<Asked>)
    ensures |r| == |queries| && forall i :: 0 <= i < |r| ==> r[i] == ShownQuery(queries[i])
  {
    seq(|queries|, i requires 0 <= i < |queries| => ShownQuery(queries[i]))
  }

  lemma QueryReads(msg: seq<byte>, pos: nat, q: Query, depth: nat)
    requires QueryAt(msg, pos, q) && Pointers(q.name) < depth
    ensures ReadQuestion(msg, pos, depth) == Turn(ShownQuery(q), pos + QuerySize(q))
  {
    ReadLoopReads(msg, pos, depth - 1, q.name);
    assert ReadName(msg, pos, depth) == Text(JavaText(q.name), pos + Extent(q.name));
    hide Encodes, LowPointers, Pointers, ReadLoop, ReadName, JavaText, Extent, WordAt, Short;
  }

  lemma QueriesFirst(msg: seq<byte>, pos: nat, queries: seq<Query>)
    requires QueriesAt(msg, pos, queries) && queries != []
    ensures QueryAt(msg, pos, queries[0]) && QueriesAt(msg, pos + QuerySize(queries[0]), queries[1..])
    ensures QueriesSize(queries) == QuerySize(queries[0]) + QueriesSize(queries[1..])
    ensures ShownQueries(queries) == [ShownQuery(queries[0])] + ShownQueries(queries[1..])
  {
    hide QueryAt, ShownQuery, QuerySize;
  }

  /** `readQuestions` refines the list of questions: name, type and class of each, in order. */
  lemma {:induction false} QueriesRefine(msg: seq<byte>, pos: nat, queries: seq<Query>, depth: nat)
    requires QueriesAt(msg, pos, queries)
    requires forall q :: q in queries ==> Pointers(q.name) < depth
    ensures ReadQuestions(msg, pos, |queries|, depth) == Items(ShownQueries(queries), pos + QueriesSize(queries))
    decreases |queries|
  {
    hide QueryAt, QueriesAt, ShownQuery, Pointers, QuerySize, ReadQuestion;
    if queries == [] {
      assert ShownQueries(queries) == [];
    } else {
      hide ShownQueries, QueriesSize;
      QueriesFirst(msg, pos, queries);
      QueryReads(msg, pos, queries[0], depth);
      QueriesRefine(msg, pos + QuerySize(queries[0]), queries[1..], depth);
    }
  }

  // ---------- Round trip ----------

  /** What is left of a character that is cut to a byte on the way out and widened from a
      signed byte on the way back. */
  function ThereAndBack(c: jchar): jchar {
    Printed(c % 256)
  }

  function AsPrinted(name: seq<jchar>): (r: seq<jchar>)
    ensures |r| == |name| && forall i :: 0 <= i < |r| ==> r[i] == ThereAndBack(name[i])
  {
    seq(|name|, i requires 0 <= i < |name| => ThereAndBack(name[i]))
  }

  /** A character survives exactly when it is ASCII or among the last 128 of all. */
  predicate Survives(c: jchar) {
    c < 128 || c >= 0xff80
  }

  lemma PrintedExactly(name: seq<jchar>)
    ensures AsPrinted(name) == name <==> forall i :: 0 <= i < |name| ==> Survives(name[i])
  {
    assert forall c: jchar :: ThereAndBack(c) == c <==> Survives(c);
    if AsPrinted(name) == name {
      forall i | 0 <= i < |name|
        ensures Survives(name[i])
      {
        assert AsPrinted(name)[i] == ThereAndBack(name[i]);
      }
    }
  }

  lemma PrintedBack(c: jchar, s: seq<jchar>)
    ensures PrintedAll(ToBytes([c] + s)) == [ThereAndBack(c)] + PrintedAll(ToBytes(s))
  {
  }

  /** A name whose labels have the lengths that section 3.1 of RFC 1035 allows. */
  predicate LegalName(name: seq<jchar>) {
    forall p :: p in Pieces(name) ==> 1 <= |p| <= 63
  }

  function NameOf(labels: seq<seq<jchar>>): (r: Name)
    ensures LowPointers(r) && Pointers(r) == 0 && !Dangling(r) && Backward(r, 0)
  {
    if labels == [] then End else Label(ToBytes(labels[0]), NameOf(labels[1..]))
  }

  function AllBytes(labels: seq<seq<jchar>>): seq<seq<byte>> {
    if labels == [] then [] else [ToBytes(labels[0])] + AllBytes(labels[1..])
  }

  lemma EncodesEnd(msg: seq<byte>, pos: nat)
    requires At(msg, pos, [0])
    ensures Encodes(msg, pos, End)
  {
    AtByte(msg, pos, 0);
  }

  lemma EncodesLabel(msg: seq<byte>, pos: nat, text: seq<byte>, rest: Name)
    requires 1 <= |text| <= 63 && At(msg, pos, [(|text| % 256) as byte] + text)
    requires Encodes(msg, pos + 1 + |text|, rest)
    ensures Encodes(msg, pos, Label(text, rest))
  {
    AtSplit(msg, pos, [(|text| % 256) as byte], text);
    AtByte(msg, pos, (|text| % 256) as byte);
  }

  /** The encoder's bytes, wherever they stand in a message, spell the name. */
  lemma {:induction false} WireEncodes(labels: seq<seq<jchar>>, msg: seq<byte>, pos: nat)
    requires forall p :: p in labels ==> 1 <= |p| <= 63
    requires At(msg, pos, Wire(labels) + [0])
    ensures Encodes(msg, pos, NameOf(labels)) && Extent(NameOf(labels)) == |Wire(labels)| + 1
    ensures Labels(NameOf(labels)) == AllBytes(labels)
  {
    hide At, Encodes, ToBytes;
    if labels == [] {
      assert Wire(labels) + [0] == [0];
      EncodesEnd(msg, pos);
    } else {
      var l, rest := labels[0], labels[1..];
      assert l in labels;
      var head := [(|l| % 256) as byte] + ToBytes(l);
      assert Wire(labels) + [0] == head + (Wire(rest) + [0]);
      AtSplit(msg, pos, head, Wire(rest) + [0]);
      WireEncodes(rest, msg, pos + 1 + |l|);
      EncodesLabel(msg, pos, ToBytes(l), NameOf(rest));
    }
  }

  /** A dot in front starts a new, empty label. */
  lemma DottedAfterDot(rest: seq<seq<byte>>)
    requires rest != []
    ensures Dotted([ToBytes([])] + rest) == [DOT] + Dotted(rest)
  {
    DottedMore(ToBytes([]), rest);
    assert PrintedAll(ToBytes([])) == [];
    hide Dotted, PrintedAll, ToBytes;
    assert [] + [DOT] + Dotted(rest) == [DOT] + Dotted(rest);
  }

  lemma DottedMore(first: seq<byte>, rest: seq<seq<byte>>)
    ensures Dotted([first] + rest)
         == if rest == [] then PrintedAll(first) else PrintedAll(first) + [DOT] + Dotted(rest)
  {
    assert ([first] + rest)[1..] == rest;
  }

  /** Any other character in front joins the first label. */
  lemma DottedAfterChar(c: jchar, first: seq<jchar>, rest: seq<seq<byte>>)
    ensures Dotted([ToBytes([c] + first)] + rest) == [ThereAndBack(c)] + Dotted([ToBytes(first)] + rest)
  {
    PrintedBack(c, first);
    hide PrintedAll, ToBytes, ThereAndBack;
    DottedMore(ToBytes([c] + first), rest);
    DottedMore(ToBytes(first), rest);
    hide Dotted;
    if rest != [] {
      var text := PrintedAll(ToBytes(first));
      var d := ThereAndBack(c);
      assert ([d] + text) + [DOT] + Dotted(rest) == [d] + (text + [DOT] + Dotted(rest));
    }
  }

  lemma AllBytesFirst(first: seq<jchar>, rest: seq<seq<jchar>>)
    ensures AllBytes([first] + rest) == [ToBytes(first)] + AllBytes(rest)
  {
    assert ([first] + rest)[1..] == rest;
  }

  /** Splitting a name at its dots, and joining what its labels are printed as. */
  lemma {:induction false} DottedPieces(name: seq<jchar>)
    ensures Dotted(AllBytes(Pieces(name))) == AsPrinted(name)
  {
    hide Dotted, AllBytes, ToBytes;
    if name == [] {
      DottedNothing();
    } else {
      DottedPieces(name[1..]);
      var p := Pieces(name[1..]);
      assert AsPrinted(name) == [ThereAndBack(name[0])] + AsPrinted(name[1..]);
      assert ThereAndBack(DOT) == DOT;
      hide AsPrinted, ThereAndBack;
      assert p == [p[0]] + p[1..];
      AllBytesFirst(p[0], p[1..]);
      if name[0] == DOT {
        AllBytesFirst([], p);
        DottedAfterDot(AllBytes(p));
      } else {
        AllBytesFirst([name[0]] + p[0], p[1..]);
        DottedAfterChar(name[0], p[0], AllBytes(p[1..]));
      }
    }
  }

  lemma DottedNothing()
    ensures Dotted(AllBytes(Pieces([]))) == []
  {
    assert AllBytes([[]]) == [ToBytes([])] + AllBytes([]);
  }

  /** For a legal name nothing is dropped, so the array is full. */
  lemma LegalQuestion(name: seq<jchar>)
    requires LegalName(name)
    ensures JavaSplit(name) == Pieces(name) && |Wire(Pieces(name))| == |name| + 1
    ensures Question(name) == (Wire(Pieces(name)) + [0]) + (Be16(1) + Be16(1))
  {
    var p := Pieces(name);
    PiecesFill(name);
    assert p[|p| - 1] in p;
    assert JavaSplit(name) == p by {
      DropShortens(p);
    }
    QuestionFits(name);
    assert Question(name) == QuestionBody(name);
  }

  lemma LegalLabels(name: seq<jchar>)
    requires LegalName(name)
    ensures forall p :: p in Pieces(name) ==> 1 <= |p| <= 63
  {
  }

  lemma QuestionParts(name: seq<jchar>, msg: seq<byte>, pos: nat)
    requires LegalName(name) && At(msg, pos, Question(name))
    ensures At(msg, pos, Wire(Pieces(name)) + [0])
    ensures At(msg, pos + |name| + 2, Be16(1)) && At(msg, pos + |name| + 4, Be16(1))
  {
    hide *;
    LegalQuestion(name);
    AtSplit(msg, pos, Wire(Pieces(name)) + [0], Be16(1) + Be16(1));
    AtSplit(msg, pos + |name| + 2, Be16(1), Be16(1));
  }

  lemma NameOfPieces(name: seq<jchar>)
    requires LegalName(name)
    ensures Labels(NameOf(Pieces(name))) == AllBytes(Pieces(name)) ==> JavaText(NameOf(Pieces(name))) == AsPrinted(name)
  {
    JavaTextDotted(NameOf(Pieces(name)));
    DottedPieces(name);
  }

  /** A legal name, encoded into a message, decodes to what is printed of it wherever it stands. */
  lemma EncodedName(name: seq<jchar>, msg: seq<byte>, pos: nat)
    requires LegalName(name) && At(msg, pos, Question(name))
    ensures Encodes(msg, pos, NameOf(Pieces(name)))
    ensures Extent(NameOf(Pieces(name))) == |name| + 2
    ensures JavaText(NameOf(Pieces(name))) == AsPrinted(name)
    ensures pos + |name| + 6 <= |msg|
    ensures WordAt(msg, pos + |name| + 2) == 1 && WordAt(msg, pos + |name| + 4) == 1
  {
    hide *;
    LegalLabels(name);
    LegalQuestion(name);
    QuestionParts(name, msg, pos);
    AtWord(msg, pos + |name| + 2, 1);
    AtWord(msg, pos + |name| + 4, 1);
    WireEncodes(Pieces(name), msg, pos);
    NameOfPieces(name);
  }

  /** Reading one encoded question inside a message. */
  lemma QuestionAt(name: seq<jchar>, msg: seq<byte>, pos: nat, count: nat, depth: nat)
    requires LegalName(name) && depth > 0 && count > 0
    requires At(msg, pos, Question(name))
    ensures ReadQuestions(msg, pos, count, depth)
         == Before([Asked(AsPrinted(name), 1, 1)], ReadQuestions(msg, pos + |name| + 6, count - 1, depth))
  {
    hide Question, NameOf, Pieces, At, LegalName, AsPrinted, JavaText, Encodes, Extent, ReadLoop, LowPointers, Pointers;
    EncodedName(name, msg, pos);
    ReadLoopReads(msg, pos, depth - 1, NameOf(Pieces(name)));
  }

  /** One dot behind a name is lost, as Java drops trailing empty pieces: the array has a zero
      byte more, and before it is the question of the name without the dot. */
  lemma TrailingDotLost(name: seq<jchar>)
    requires LegalName(name)
    ensures Question(name + [DOT]) == Question(name) + [0]
  {
    var p, dotted := Pieces(name), name + [DOT];
    PiecesDotted(name);
    PiecesFill(name);
    DropShortens(p);
    assert p[|p| - 1] in p;
    assert (p + [[]])[..|p + [[]]| - 1] == p;
    assert DropTrailingEmpty(p + [[]]) == DropTrailingEmpty(p) == p;
    LegalQuestion(name);
    assert DOT in dotted by {
      assert dotted[|name|] == DOT;
    }
    assert JavaSplit(dotted) == p;
    QuestionFits(name);
    hide Wire, Pieces, JavaSplit, Be16;
    assert QuestionBody(dotted) == QuestionBody(name) == Question(name);
    assert Zeros(1) == [0];
  }

  lemma {:induction false} PiecesDotted(name: seq<jchar>)
    ensures Pieces(name + [DOT]) == Pieces(name) + [[]]
  {
    var dotted := name + [DOT];
    if name == [] {
      assert dotted[1..] == [];
    } else {
      assert dotted[1..] == name[1..] + [DOT];
      PiecesDotted(name[1..]);
    }
  }

  /** Question round trip: what the encoder builds, `readQuestions(1)` reads back with type 1
      and class 1, using every byte. The name comes back with each character as a byte prints. */
  lemma QuestionRoundTrip(name: seq<jchar>, depth: nat)
    requires LegalName(name) && depth > 0
    ensures ReadQuestions(Question(name), 0, 1, depth) == Items([Asked(AsPrinted(name), 1, 1)], |Question(name)|)
    ensures AsPrinted(name) == name <==> forall i :: 0 <= i < |name| ==> Survives(name[i])
  {
    var q := Question(name);
    assert q[0..0 + |q|] == q;
    hide AsPrinted;
    QuestionAt(name, q, 0, 1, depth);
    BeforeEnd([Asked(AsPrinted(name), 1, 1)], |q|);
    PrintedExactly(name);
  }

  /** A legal name that comes back as another one: the character 233 as 65513. */
  lemma AccentLost(name: seq<jchar>, depth: nat)
    requires name == [233] && depth > 0
    ensures LegalName(name)
    ensures ReadQuestions(Question(name), 0, 1, depth) == Items([Asked([65513], 1, 1)], 7)
  {
    PiecesFill(name);
    QuestionRoundTrip(name, depth);
    assert AsPrinted(name) == [65513];
  }
}
