/** Compressed names: section 4.1.4 of RFC 1035, and `readStringContent` of
    src/Application/DNSApplication.java. */
module DnsNames {
  import opened Bytes
  import opened ByteBuffers

  /** A Java char. */
  type jchar = c: int | 0 <= c < 65536

  const DOT: jchar := 46

  // ---------- Names as RFC 1035 lays them out ----------

  /** How a name is written: labels, then either the zero byte or a pointer to more. */
  datatype Name =
    | End
    | Label(text: seq<byte>, rest: Name)
    | Pointer(target: nat, rest: Name)

  /** The bytes of msg at pos spell the name w. */
  ghost predicate Encodes(msg: seq<byte>, pos: nat, w: Name)
    decreases w
  {
    match w
    case End => pos < |msg| && msg[pos] == 0
    case Label(text, rest) =>
      && 1 <= |text| <= 63
      && pos + 1 + |text| <= |msg|
      && msg[pos] == |text|
      && msg[pos + 1..pos + 1 + |text|] == text
      && Encodes(msg, pos + 1 + |text|, rest)
    case Pointer(target, rest) =>
      && pos + 2 <= |msg|
      && msg[pos] >= 192
      && target == (msg[pos] - 192) as int * 256 + msg[pos + 1] as int
      && Encodes(msg, target, rest)
  }

  function Labels(w: Name): seq<seq<byte>> {
    match w
    case End => []
    case Label(text, rest) => [text] + Labels(rest)
    case Pointer(_, rest) => Labels(rest)
  }

  /** The bytes the name takes where it stands; a pointer ends it. */
  function Extent(w: Name): nat {
    match w
    case End => 1
    case Label(text, rest) => 1 + |text| + Extent(rest)
    case Pointer(_, _) => 2
  }

  function Pointers(w: Name): nat {
    match w
    case End => 0
    case Label(_, rest) => Pointers(rest)
    case Pointer(_, rest) => 1 + Pointers(rest)
  }

  /** Every pointer stays in the range that a signed low byte can express. */
  predicate LowPointers(w: Name) {
    match w
    case End => true
    case Label(_, rest) => LowPointers(rest)
    case Pointer(target, rest) => target < 128 && LowPointers(rest)
  }

  /** Every pointer goes back to before the segment it ends, which started at seg. */
  predicate Backward(w: Name, seg: nat) {
    match w
    case End => true
    case Label(_, rest) => Backward(rest, seg)
    case Pointer(target, rest) => target < seg && Backward(rest, target)
  }

  /** A label is followed by a pointer to the root, so a dot is printed with nothing after it. */
  predicate Dangling(w: Name) {
    match w
    case End => false
    case Label(_, rest) => (rest.Pointer? && Labels(rest) == []) || Dangling(rest)
    case Pointer(_, rest) => Dangling(rest)
  }

  /** The cast `(char) b` of a signed byte. */
  function Printed(b: byte): jchar {
    if b < 128 then b else 65280 + b as int
  }

  function PrintedAll(s: seq<byte>): (r: seq<jchar>)
    ensures |r| == |s| && forall i :: 0 <= i < |s| ==> r[i] == Printed(s[i])
  {
    seq(|s|, i requires 0 <= i < |s| => Printed(s[i]))
  }

  /** The dotted form of a list of labels. */
  function Dotted(labels: seq<seq<byte>>): seq<jchar> {
    if labels == [] then []
    else if |labels| == 1 then PrintedAll(labels[0])
    else PrintedAll(labels[0]) + [DOT] + Dotted(labels[1..])
  }

  // ---------- A depth-free reader with a real termination measure ----------

  /** The name written at pos, if it is legal, its pointers are below 128, and each goes
      back to before its own segment. Either the segment start drops, or bytes are used up. */
  function NameAt(msg: seq<byte>, seg: nat, pos: nat): Option<Name>
    decreases seg, if pos < |msg| then |msg| - pos else 0
  {
    if pos >= |msg| then None
    else if msg[pos] == 0 then Some(End)
    else if msg[pos] <= 63 then
      var next := pos + 1 + msg[pos] as int;
      if next > |msg| then None
      else
        var rest := NameAt(msg, seg, next);
        if rest.None? then None else Some(Label(msg[pos + 1..next], rest.value))
    else if msg[pos] == 192 && pos + 1 < |msg| && msg[pos + 1] < 128 && msg[pos + 1] as int < seg then
      var rest := NameAt(msg, msg[pos + 1], msg[pos + 1]);
      if rest.None? then None else Some(Pointer(msg[pos + 1], rest.value))
    else None
  }

  /** NameAt finds exactly the legal names within reach, so they are also unique. */
  lemma {:induction false} NameAtExact(msg: seq<byte>, seg: nat, pos: nat, w: Name)
    ensures NameAt(msg, seg, pos) == Some(w) <==> Encodes(msg, pos, w) && LowPointers(w) && Backward(w, seg)
    decreases w
  {
    match w {
      case End =>
      case Label(text, rest) =>
        if pos < |msg| && 1 <= msg[pos] <= 63 {
          var next := pos + 1 + msg[pos] as int;
          NameAtExact(msg, seg, next, rest);
          if next <= |msg| {
            assert |msg[pos + 1..next]| == msg[pos] as int;
          }
        }
      case Pointer(target, rest) =>
        if pos + 1 < |msg| && msg[pos] == 192 {
          NameAtExact(msg, target, target, rest);
        }
    }
  }

  lemma {:induction false} PointersBounded(w: Name, seg: nat)
    requires Backward(w, seg)
    ensures Pointers(w) <= seg
  {
    match w {
      case End =>
      case Label(_, rest) => PointersBounded(rest, seg);
      case Pointer(target, rest) => PointersBounded(rest, target);
    }
  }

  // ---------- What readStringContent does ----------

  datatype Error = Underflow | BadPosition | StackOverflow

  /** Text printed and the cursor afterwards, or the exception thrown. */
  datatype Read = Text(text: seq<jchar>, next: nat) | Fail(error: Error)

  predicate IsCompression(b: byte) {
    b >= 192
  }

  /** How many characters the loop `for (i = 0; i < charCount; ++i)` takes. */
  function Taken(b: byte): nat {
    Max(AsSigned8(b), 0)
  }

  function Prefixed(text: seq<jchar>, r: Read): Read {
    if r.Fail? then r else Text(text + r.text, r.next)
  }

  /** The loop with the count byte at pos; `depth` more calls fit on the stack. */
  function ReadLoop(msg: seq<byte>, pos: nat, depth: nat): (r: Read)
    ensures r.Text? ==> r.next <= |msg|
    decreases depth, if pos < |msg| then |msg| - pos else 0
  {
    if pos >= |msg| then Fail(Underflow)
    else if msg[pos] == 0 then Text([], pos + 1)
    else if IsCompression(msg[pos]) then
      if pos + 1 >= |msg| then Fail(Underflow)
      else
        var offset := AsSigned8(msg[pos + 1]);
        if !(0 <= offset <= |msg|) then Fail(BadPosition)
        else if depth == 0 then Fail(StackOverflow)
        else
          var inner := ReadLoop(msg, offset, depth - 1);
          if inner.Fail? then inner else Text(inner.text, pos + 2)
    else
      var next := pos + 1 + Taken(msg[pos]);
      if next >= |msg| then Fail(Underflow)
      else
        var chars := PrintedAll(msg[pos + 1..next]);
        Prefixed(if msg[next] != 0 then chars + [DOT] else chars, ReadLoop(msg, next, depth))
  }

  /** What a name that ends in a pointer reads as, when its other part reads as r. */
  function Returned(r: Read, next: nat): Read {
    if r.Fail? then r else Text(r.text, next)
  }

  /** One call of `readStringContent`. */
  function ReadName(msg: seq<byte>, pos: nat, depth: nat): (r: Read)
    ensures r.Text? ==> r.next <= |msg|
  {
    if depth == 0 then Fail(StackOverflow) else ReadLoop(msg, pos, depth - 1)
  }

  lemma PrefixedNothing(r: Read)
    ensures Prefixed([], r) == r
  {
    if r.Text? {
      assert [] + r.text == r.text;
    }
  }

  lemma PrefixedKeeps(text: seq<jchar>, r: Read)
    ensures Prefixed(text, r).Text? == r.Text?
    ensures if r.Fail? then Prefixed(text, r) == r else Prefixed(text, r).next == r.next
  {
  }

  lemma ReadLoopEnds(msg: seq<byte>, pos: nat, depth: nat, text: seq<jchar>)
    requires pos < |msg| && msg[pos] == 0
    ensures Prefixed(text, ReadLoop(msg, pos, depth)) == Text(text, pos + 1)
  {
    assert text + [] == text;
  }

  lemma PrefixedAgain(a: seq<jchar>, b: seq<jchar>, r: Read)
    ensures Prefixed(a, Prefixed(b, r)) == Prefixed(a + b, r)
  {
    if r.Text? {
      assert a + (b + r.text) == (a + b) + r.text;
    }
  }

  /** The inner loop: as many characters as the signed count says. */
  method ReadChars(buffer: ByteBuffer, charCount: byte) returns (r: Option<seq<jchar>>)
    requires buffer.Valid()
    modifies buffer`position
    ensures buffer.Valid()
    ensures r.None? <==> old(buffer.position) + Taken(charCount) > buffer.store.Length
    ensures r.Some? ==>
      && buffer.position == old(buffer.position) + Taken(charCount)
      && r.value == PrintedAll(buffer.store[old(buffer.position)..buffer.position])
  {
    var chars: seq<jchar> := [];
    var i := 0;
    while i < AsSigned8(charCount)
      invariant buffer.Valid() && 0 <= i <= Taken(charCount)
      invariant buffer.position == old(buffer.position) + i
      invariant chars == PrintedAll(buffer.store[old(buffer.position)..buffer.position])
    {
      var b := buffer.Get();
      if b.None? {
        return None;
      }
      chars := chars + [Printed(b.value)];
      i := i + 1;
    }
    r := Some(chars);
  }

  /** One turn of the loop on a label: its characters, with the dot if more follows, and
      the next count byte. */
  method ReadLabel(buffer: ByteBuffer, charCount: byte, ghost depth: nat) returns (r: Option<(seq<jchar>, byte)>)
    requires buffer.Valid() && 1 <= buffer.position
    requires buffer.store[buffer.position - 1] == charCount && charCount != 0 && !IsCompression(charCount)
    modifies buffer`position
    ensures buffer.Valid()
    ensures r.None? ==> ReadLoop(buffer.store[..], old(buffer.position) - 1, depth) == Fail(Underflow)
    ensures r.Some? ==>
      && old(buffer.position) < buffer.position && buffer.store[buffer.position - 1] == r.value.1
      && ReadLoop(buffer.store[..], old(buffer.position) - 1, depth)
         == Prefixed(r.value.0, ReadLoop(buffer.store[..], buffer.position - 1, depth))
  {
    var text := ReadChars(buffer, charCount);
    if text.None? {
      return None;
    }
    hide PrintedAll, Printed;
    var chars := text.value;
    var count := buffer.Get();
    if count.None? {
      return None;
    }
    if count.value != 0 {
      chars := chars + [DOT];
    }
    r := Some((chars, count.value));
  }

  /** The branch on a pointer whose first byte has been read: the rest of the name is read
      from a duplicate positioned at the signed low byte. */
  method FollowPointer(buffer: ByteBuffer, depth: nat) returns (r: Read)
    requires buffer.Valid() && 1 <= buffer.position
    requires IsCompression(buffer.store[buffer.position - 1])
    modifies buffer`position
    ensures buffer.Valid()
    ensures r == ReadLoop(buffer.store[..], old(buffer.position) - 1, depth)
    ensures r.Text? ==> buffer.position == r.next
    decreases depth, 1
  {
    var low := buffer.Get();
    if low.None? {
      return Fail(Underflow);
    }
    var duplicate := new ByteBuffer(buffer.store);
    var ok := duplicate.SetPosition(AsSigned8(low.value));
    if !ok {
      return Fail(BadPosition);
    }
    var inner := ReadStringContent(duplicate, depth);
    r := if inner.Fail? then inner else Text(inner.text, buffer.position);
  }

  /** The same, behind the text that has been printed. */
  method PrintPointed(buffer: ByteBuffer, text: seq<jchar>, depth: nat) returns (r: Read)
    requires buffer.Valid() && 1 <= buffer.position
    requires IsCompression(buffer.store[buffer.position - 1])
    modifies buffer`position
    ensures buffer.Valid()
    ensures r == Prefixed(text, ReadLoop(buffer.store[..], old(buffer.position) - 1, depth))
    ensures r.Text? ==> buffer.position == r.next
    decreases depth, 2
  {
    hide ReadLoop, Prefixed;
    var pointed := FollowPointer(buffer, depth);
    PrefixedKeeps(text, pointed);
    r := Prefixed(text, pointed);
  }

  /** The loop of `readStringContent`, entered with its first count byte read. */
  method ReadSegments(buffer: ByteBuffer, first: byte, depth: nat) returns (r: Read)
    requires buffer.Valid() && 1 <= buffer.position && buffer.store[buffer.position - 1] == first
    modifies buffer`position
    ensures buffer.Valid()
    ensures r == ReadLoop(buffer.store[..], old(buffer.position) - 1, depth)
    ensures r.Text? ==> buffer.position == r.next
    decreases depth, 3
  {
    ghost var msg := buffer.store[..];
    ghost var all := ReadLoop(msg, buffer.position - 1, depth);
    var charCount := first;
    var text: seq<jchar> := [];
    PrefixedNothing(all);
    hide ReadLoop, Prefixed;
    while charCount != 0 || IsCompression(charCount)
      invariant buffer.Valid() && buffer.store[..] == msg
      invariant 1 <= buffer.position && msg[buffer.position - 1] == charCount
      invariant Prefixed(text, ReadLoop(msg, buffer.position - 1, depth)) == all
      decreases buffer.store.Length - buffer.position
    {
      if IsCompression(charCount) {
        r := PrintPointed(buffer, text, depth);
        return;
      }
      var segment := ReadLabel(buffer, charCount, depth);
      if segment.None? {
        PrefixedKeeps(text, Fail(Underflow));
        return Fail(Underflow);
      }
      PrefixedAgain(text, segment.value.0, ReadLoop(msg, buffer.position - 1, depth));
      text, charCount := text + segment.value.0, segment.value.1;
    }
    ReadLoopEnds(msg, buffer.position - 1, depth, text);
    r := Text(text, buffer.position);
  }

  /** `readStringContent(buffer)` with room for `depth` nested calls. Whatever the calls on
      duplicated buffers do, this buffer's cursor is the one that is left behind. */
  method ReadStringContent(buffer: ByteBuffer, depth: nat) returns (r: Read)
    requires buffer.Valid()
    modifies buffer`position
    ensures buffer.Valid()
    ensures r == ReadName(buffer.store[..], old(buffer.position), depth)
    ensures r.Text? ==> buffer.position == r.next
    decreases depth, 0
  {
    if depth == 0 {
      return Fail(StackOverflow);
    }
    var count := buffer.Get();
    if count.None? {
      return Fail(Underflow);
    }
    r := ReadSegments(buffer, count.value, depth - 1);
  }

  // ---------- The two compared ----------

  /** The characters the loop prints for w. */
  function JavaText(w: Name): seq<jchar> {
    match w
    case End => []
    case Label(text, rest) => PrintedAll(text) + (if rest.End? then [] else [DOT] + JavaText(rest))
    case Pointer(_, rest) => JavaText(rest)
  }

  /** A legal name with low pointers is printed in full, given stack for its pointers, and
      the cursor ends behind the zero byte or the pointer that ends it in place. */
  lemma {:induction false} ReadLoopReads(msg: seq<byte>, pos: nat, depth: nat, w: Name)
    requires Encodes(msg, pos, w) && LowPointers(w)
    requires Pointers(w) <= depth
    ensures ReadLoop(msg, pos, depth) == Text(JavaText(w), pos + Extent(w))
    decreases w
  {
    hide ReadLoop, Encodes;
    match w {
      case End =>
        EndRead(msg, pos, depth);
      case Label(text, rest) =>
        LabelParts(msg, pos, text, rest);
        var next := pos + 1 + |text|;
        ReadLoopReads(msg, next, depth, rest);
        FirstByte(msg, next, rest);
        LabelRead(msg, pos, depth, text, rest);
      case Pointer(target, rest) =>
        PointerRead(msg, pos, depth, target, rest);
        ReadLoopReads(msg, target, depth - 1, rest);
    }
  }

  lemma EndRead(msg: seq<byte>, pos: nat, depth: nat)
    requires Encodes(msg, pos, End)
    ensures ReadLoop(msg, pos, depth) == Text([], pos + 1)
  {
  }

  lemma LabelParts(msg: seq<byte>, pos: nat, text: seq<byte>, rest: Name)
    requires Encodes(msg, pos, Label(text, rest))
    ensures 1 <= |text| <= 63 && pos + 1 + |text| <= |msg| && Encodes(msg, pos + 1 + |text|, rest)
    ensures msg[pos] == |text| && msg[pos + 1..pos + 1 + |text|] == text
  {
  }

  lemma PointerRead(msg: seq<byte>, pos: nat, depth: nat, target: nat, rest: Name)
    requires Encodes(msg, pos, Pointer(target, rest)) && target < 128 && depth > 0
    ensures Encodes(msg, target, rest)
    ensures ReadLoop(msg, pos, depth) == Returned(ReadLoop(msg, target, depth - 1), pos + 2)
  {
    FirstByte(msg, target, rest);
  }

  lemma LabelRead(msg: seq<byte>, pos: nat, depth: nat, text: seq<byte>, rest: Name)
    requires 1 <= |text| <= 63 && pos + 1 + |text| < |msg|
    requires msg[pos] == |text| && msg[pos + 1..pos + 1 + |text|] == text
    requires msg[pos + 1 + |text|] == 0 <==> rest.End?
    requires ReadLoop(msg, pos + 1 + |text|, depth).Text?
    requires ReadLoop(msg, pos + 1 + |text|, depth).text == JavaText(rest)
    ensures ReadLoop(msg, pos, depth)
         == Text(JavaText(Label(text, rest)), ReadLoop(msg, pos + 1 + |text|, depth).next)
  {
    var chars := PrintedAll(text);
    assert Taken(msg[pos]) == |text|;
    assert (chars + [DOT]) + JavaText(rest) == chars + ([DOT] + JavaText(rest));
  }

  /** The count byte is zero only at the end of a name. */
  lemma FirstByte(msg: seq<byte>, pos: nat, w: Name)
    requires Encodes(msg, pos, w)
    ensures pos < |msg| && (msg[pos] == 0 <==> w.End?)
  {
  }

  /** What is printed is the dotted name, with one stray dot exactly when a label is
      followed by a pointer to the root. */
  lemma {:induction false} JavaTextDotted(w: Name)
    ensures JavaText(w) == if Dangling(w) then Dotted(Labels(w)) + [DOT] else Dotted(Labels(w))
  {
    match w {
      case End =>
      case Label(text, rest) =>
        JavaTextDotted(rest);
        DanglingHasLabels(rest);
        var ls := Labels(w);
        assert ls[1..] == Labels(rest);
        var chars := PrintedAll(text);
        if Labels(rest) == [] {
          if rest.Pointer? {
            assert JavaText(rest) == [];
            assert chars + ([DOT] + []) == chars + [DOT];
          } else {
            assert chars + [] == chars;
          }
        } else {
          assert chars + ([DOT] + JavaText(rest)) == (chars + [DOT]) + JavaText(rest);
          if Dangling(rest) {
            assert (chars + [DOT]) + (Dotted(Labels(rest)) + [DOT]) == ((chars + [DOT]) + Dotted(Labels(rest))) + [DOT];
          }
        }
      case Pointer(_, rest) =>
        JavaTextDotted(rest);
    }
  }

  lemma {:induction false} DanglingHasLabels(w: Name)
    ensures Dangling(w) ==> Labels(w) != []
  {
    match w {
      case End =>
      case Label(_, _) =>
      case Pointer(_, rest) => DanglingHasLabels(rest);
    }
  }

  /** The name "a" written as a label and a pointer to the root is printed as "a." */
  lemma StrayDot(msg: seq<byte>, depth: nat)
    requires msg == [0, 1, 97, 192, 0] && depth >= 2
    ensures NameAt(msg, 1, 1) == Some(Label([97], Pointer(0, End)))
    ensures ReadName(msg, 1, depth) == Text([97, 46], 5)
  {
    assert NameAt(msg, 0, 0) == Some(End);
    assert NameAt(msg, 1, 3) == Some(Pointer(0, End));
    assert msg[2..3] == [97];
    NameDecoding(msg, 1, depth, Label([97], Pointer(0, End)));
  }

  /** Section 4.1.4 of RFC 1035 for `readStringContent`: on a legal name at `start` whose
      pointers are below 128 and go back, at most `start` nested calls are made, the text
      is the dotted name unless a label is followed by a pointer to the root, and the
      cursor is left behind the name's own bytes. */
  lemma NameDecoding(msg: seq<byte>, start: nat, depth: nat, w: Name)
    requires NameAt(msg, start, start) == Some(w)
    requires depth > start
    ensures ReadName(msg, start, depth)
         == Text(if Dangling(w) then Dotted(Labels(w)) + [DOT] else Dotted(Labels(w)), start + Extent(w))
  {
    assert ReadName(msg, start, depth) == ReadLoop(msg, start, depth - 1);
    hide *;
    NameAtExact(msg, start, start, w);
    PointersBounded(w, start);
    ReadLoopReads(msg, start, depth - 1, w);
    JavaTextDotted(w);
  }

  // ---------- Where pointers lead ----------

  /** Where the segment at pos sends the reader, if it runs into a pointer that is followed. */
  function Hop(msg: seq<byte>, pos: nat): (r: Option<nat>)
    ensures r.Some? ==> r.value < 128 && r.value <= |msg|
    decreases if pos < |msg| then |msg| - pos else 0
  {
    if pos >= |msg| || msg[pos] == 0 then None
    else if IsCompression(msg[pos]) then
      if pos + 1 < |msg| && 0 <= AsSigned8(msg[pos + 1]) <= |msg| then Some(AsSigned8(msg[pos + 1])) else None
    else Hop(msg, pos + 1 + Taken(msg[pos]))
  }

  /** A pointer as RFC 1035 has it leads to the place it names exactly when that is below
      128. Otherwise it leads to its low byte, or nowhere when that is negative as a byte. */
  lemma PointerFollowed(msg: seq<byte>, pos: nat, target: nat, rest: Name, depth: nat)
    requires Encodes(msg, pos, Pointer(target, rest)) && depth > 0
    ensures Hop(msg, pos) == Some(target) <==> target < 128
    ensures target % 256 < 128 ==>
      && Hop(msg, pos) == Some(target % 256)
      && ReadLoop(msg, pos, depth) == Returned(ReadLoop(msg, target % 256, depth - 1), pos + 2)
    ensures target % 256 >= 128 ==> Hop(msg, pos) == None && ReadLoop(msg, pos, depth) == Fail(BadPosition)
  {
    FirstByte(msg, target, rest);
    assert target % 256 == msg[pos + 1] as int;
  }

  /** A legal name that is refused: a pointer to the root at offset 128. */
  lemma HighPointerRefused(msg: seq<byte>, depth: nat)
    requires msg == [192, 128] + Zeros(127) && depth > 0
    ensures Encodes(msg, 0, Pointer(128, End)) && ReadLoop(msg, 0, depth) == Fail(BadPosition)
  {
    assert Encodes(msg, 128, End);
    PointerFollowed(msg, 0, 128, End, depth);
  }

  /** Where k pointers lead, one after the other. */
  function Chain(msg: seq<byte>, pos: nat, k: nat): Option<nat>
    decreases k
  {
    if k == 0 then Some(pos)
    else
      var hop := Hop(msg, pos);
      if hop.None? then None else Chain(msg, hop.value, k - 1)
  }

  /** The chain of pointers comes back to a place it has been sent to. */
  ghost predicate Loops(msg: seq<byte>, pos: nat) {
    exists i: nat, j: nat :: 1 <= i < j <= 129 && Chain(msg, pos, i).Some? && Chain(msg, pos, i) == Chain(msg, pos, j)
  }

  /** A stack of `depth` calls overflows exactly when there is one more pointer to follow. */
  lemma {:induction false} OverflowsExactly(msg: seq<byte>, pos: nat, depth: nat)
    ensures ReadLoop(msg, pos, depth) == Fail(StackOverflow) <==> Chain(msg, pos, depth + 1).Some?
    decreases depth, if pos < |msg| then |msg| - pos else 0
  {
    if pos < |msg| && msg[pos] != 0 {
      if !IsCompression(msg[pos]) {
        OverflowsExactly(msg, pos + 1 + Taken(msg[pos]), depth);
      } else if depth > 0 && pos + 1 < |msg| && 0 <= AsSigned8(msg[pos + 1]) <= |msg| {
        OverflowsExactly(msg, AsSigned8(msg[pos + 1]), depth - 1);
      }
    }
  }

  lemma {:induction false} ChainSplit(msg: seq<byte>, pos: nat, a: nat, b: nat)
    ensures Chain(msg, pos, a + b) == match Chain(msg, pos, a) case None => None case Some(p) => Chain(msg, p, b)
    decreases a
  {
    if a > 0 && Hop(msg, pos).Some? {
      ChainSplit(msg, Hop(msg, pos).value, a - 1, b);
    }
  }

  lemma ChainLow(msg: seq<byte>, pos: nat, k: nat)
    requires k > 0 && Chain(msg, pos, k).Some?
    ensures Chain(msg, pos, k).value < 128
  {
    ChainSplit(msg, pos, k - 1, 1);
    assert Chain(msg, pos, k - 1).Some?;
    var p := Chain(msg, pos, k - 1).value;
    assert Chain(msg, p, 1) == match Hop(msg, p) case None => None case Some(q) => Chain(msg, q, 0);
  }

  /** Once around a cycle, the chain never ends. */
  lemma {:induction false} CycleEndless(msg: seq<byte>, pos: nat, period: nat, k: nat)
    requires period > 0 && Chain(msg, pos, period) == Some(pos)
    ensures Chain(msg, pos, k).Some?
    decreases k
  {
    if k <= period {
      ChainSplit(msg, pos, k, period - k);
    } else {
      CycleEndless(msg, pos, period, k - period);
      ChainSplit(msg, pos, period, k - period);
    }
  }

  lemma LoopEndless(msg: seq<byte>, pos: nat, k: nat)
    requires Loops(msg, pos)
    ensures Chain(msg, pos, k).Some?
  {
    var i: nat, j: nat :| 1 <= i < j <= 129 && Chain(msg, pos, i).Some? && Chain(msg, pos, i) == Chain(msg, pos, j);
    var p := Chain(msg, pos, i).value;
    ChainSplit(msg, pos, i, j - i);
    if k <= i {
      ChainSplit(msg, pos, k, i - k);
    } else {
      CycleEndless(msg, p, j - i, k - i);
      ChainSplit(msg, pos, i, k - i);
    }
  }

  /** More than n numbers below n are not all different. */
  lemma {:induction false} Pigeonhole(s: seq<nat>, n: nat) returns (i: nat, j: nat)
    requires |s| > n && forall k :: 0 <= k < |s| ==> s[k] < n
    ensures i < j < |s| && s[i] == s[j]
    decreases n
  {
    assert s[0] < n;
    if p: nat, q: nat :| p < q < |s| && s[p] == s[q] == n - 1 {
      i, j := p, q;
    } else if p: nat :| p < |s| && s[p] == n - 1 {
      var t := s[..p] + s[p + 1..];
      i, j := Pigeonhole(t, n - 1);
      i, j := if i < p then i else i + 1, if j < p then j else j + 1;
    } else {
      i, j := Pigeonhole(s, n - 1);
    }
  }

  /** 129 targets below 128 are not all different. */
  lemma LongChainLoops(msg: seq<byte>, pos: nat)
    requires Chain(msg, pos, 129).Some?
    ensures Loops(msg, pos)
  {
    forall k: nat | 1 <= k <= 129
      ensures Chain(msg, pos, k).Some? && Chain(msg, pos, k).value < 128
    {
      ChainSplit(msg, pos, k, 129 - k);
      ChainLow(msg, pos, k);
    }
    var targets := seq(129, k requires 0 <= k < 129 => Chain(msg, pos, k + 1).value);
    var i, j := Pigeonhole(targets, 128);
    assert Chain(msg, pos, i + 1) == Chain(msg, pos, j + 1);
  }

  /** Termination on any bytes at all: a stack of 128 calls or more overflows exactly when
      the chain of pointers comes back to itself, and then every smaller stack does too. */
  lemma TerminatesExactly(msg: seq<byte>, pos: nat, depth: nat)
    ensures Loops(msg, pos) ==> ReadLoop(msg, pos, depth) == Fail(StackOverflow)
    ensures !Loops(msg, pos) && depth >= 128 ==> ReadLoop(msg, pos, depth) != Fail(StackOverflow)
  {
    OverflowsExactly(msg, pos, depth);
    if Loops(msg, pos) {
      LoopEndless(msg, pos, depth + 1);
    } else if depth >= 128 && Chain(msg, pos, depth + 1).Some? {
      ChainSplit(msg, pos, 129, depth - 128);
      LongChainLoops(msg, pos);
    }
  }

  /** A read that does not overflow is the same with more stack. */
  lemma {:induction false} MoreStack(msg: seq<byte>, pos: nat, depth: nat, more: nat)
    requires depth <= more && ReadLoop(msg, pos, depth) != Fail(StackOverflow)
    ensures ReadLoop(msg, pos, more) == ReadLoop(msg, pos, depth)
    decreases depth, if pos < |msg| then |msg| - pos else 0
  {
    if pos < |msg| && msg[pos] != 0 {
      if !IsCompression(msg[pos]) {
        MoreStack(msg, pos + 1 + Taken(msg[pos]), depth, more);
      } else if pos + 1 < |msg| && 0 <= AsSigned8(msg[pos + 1]) <= |msg| {
        MoreStack(msg, AsSigned8(msg[pos + 1]), depth - 1, more - 1);
      }
    }
  }

  /** A pointer to itself overflows every stack. */
  lemma SelfPointerOverflows(msg: seq<byte>, pos: nat, depth: nat)
    requires pos + 2 <= |msg| && pos < 128 && msg[pos] == 192 && msg[pos + 1] == pos
    ensures Loops(msg, pos) && ReadLoop(msg, pos, depth) == Fail(StackOverflow)
  {
    assert Hop(msg, pos) == Some(pos);
    assert Chain(msg, pos, 1) == Chain(msg, pos, 2) == Some(pos) by {
      assert Chain(msg, pos, 0) == Some(pos);
    }
    TerminatesExactly(msg, pos, depth);
  }

  /** Two pointers at each other do so as well. */
  lemma MutualPointersOverflow(msg: seq<byte>, depth: nat)
    requires msg == [192, 2, 192, 0]
    ensures Loops(msg, 0) && ReadLoop(msg, 0, depth) == Fail(StackOverflow)
  {
    assert Hop(msg, 0) == Some(2) && Hop(msg, 2) == Some(0);
    assert Chain(msg, 0, 1) == Some(2) by {
      assert Chain(msg, 2, 0) == Some(2);
    }
    assert Chain(msg, 2, 2) == Some(2) by {
      assert Chain(msg, 2, 1) == Some(0) && Chain(msg, 2, 0) == Some(2);
      assert Chain(msg, 0, 1) == Some(2);
    }
    assert Chain(msg, 0, 3) == Some(2);
    TerminatesExactly(msg, 0, depth);
  }

  /** Whether every pointer the code itself would follow from pos goes back. */
  predicate GoesBack(msg: seq<byte>, seg: nat, pos: nat)
    decreases seg, if pos < |msg| then |msg| - pos else 0
  {
    pos < |msg| && msg[pos] != 0 ==>
      if IsCompression(msg[pos]) then
        pos + 1 < |msg| && 0 <= AsSigned8(msg[pos + 1]) <= |msg| ==>
          var offset := AsSigned8(msg[pos + 1]);
          offset < seg && GoesBack(msg, offset, offset)
      else GoesBack(msg, seg, pos + 1 + Taken(msg[pos]))
  }

  /** If the pointers met go back, the start of the segment bounds the stack needed. */
  lemma {:induction false} BackwardTerminates(msg: seq<byte>, seg: nat, pos: nat, depth: nat)
    requires GoesBack(msg, seg, pos) && depth >= seg
    ensures ReadLoop(msg, pos, depth) != Fail(StackOverflow)
    ensures ReadLoop(msg, pos, depth) == ReadLoop(msg, pos, seg)
    decreases seg, if pos < |msg| then |msg| - pos else 0
  {
    if pos < |msg| && msg[pos] != 0 {
      if IsCompression(msg[pos]) {
        if pos + 1 < |msg| && 0 <= AsSigned8(msg[pos + 1]) <= |msg| {
          var offset := AsSigned8(msg[pos + 1]);
          BackwardTerminates(msg, offset, offset, depth - 1);
          BackwardTerminates(msg, offset, offset, seg - 1);
        }
      } else {
        var next := pos + 1 + Taken(msg[pos]);
        BackwardTerminates(msg, seg, next, depth);
      }
    }
  }
}
