/** The part of java.nio.ByteBuffer the stack uses: a cursor over a byte array. */
module ByteBuffers {
  import opened Bytes

  /** A buffer wrapped around an array. Reads past the end are None, where Java
      throws BufferUnderflowException; writes demand the room they need. */
  class ByteBuffer {
    const store: array<byte>
    var position: nat

    ghost predicate Valid()
      reads this
    {
      position <= store.Length
    }

    constructor (store: array<byte>)
      ensures Valid() && this.store == store && position == 0
    {
      this.store := store;
      position := 0;
    }

    method Put(b: byte)
      requires Valid() && position < store.Length
      modifies this`position, store
      ensures Valid() && position == old(position) + 1
      ensures store[..position] == old(store[..position]) + [b]
      ensures forall i :: position <= i < store.Length ==> store[i] == old(store[i])
    {
      store[position] := b;
      position := position + 1;
    }

    method PutAll(bytes: seq<byte>)
      requires Valid() && position + |bytes| <= store.Length
      modifies this`position, store
      ensures Valid() && position == old(position) + |bytes|
      ensures store[..position] == old(store[..position]) + bytes
      ensures forall i :: position <= i < store.Length ==> store[i] == old(store[i])
    {
      forall i | 0 <= i < |bytes| {
        store[position + i] := bytes[i];
      }
      position := position + |bytes|;
    }

    method PutShort(n: int)
      requires Valid() && position + 2 <= store.Length
      modifies this`position, store
      ensures Valid() && position == old(position) + 2
      ensures store[..position] == old(store[..position]) + Be16(n)
      ensures forall i :: position <= i < store.Length ==> store[i] == old(store[i])
    {
      PutAll(Be16(n));
    }

    method PutInt(n: int)
      requires Valid() && position + 4 <= store.Length
      modifies this`position, store
      ensures Valid() && position == old(position) + 4
      ensures store[..position] == old(store[..position]) + Be32(n)
      ensures forall i :: position <= i < store.Length ==> store[i] == old(store[i])
    {
      PutAll(Be32(n));
    }

    /** The absolute `putShort(k, n)`, which leaves the cursor alone. */
    method PutShortAt(k: nat, n: int)
      requires Valid() && k + 2 <= store.Length
      modifies store
      ensures store[..] == old(store[..k]) + Be16(n) + old(store[k + 2..])
    {
      store[k], store[k + 1] := Be16(n)[0], Be16(n)[1];
    }

    method Get() returns (r: Option<byte>)
      requires Valid()
      modifies this`position
      ensures Valid()
      ensures old(position) < store.Length ==> r == Some(store[old(position)]) && position == old(position) + 1
      ensures old(position) == store.Length ==> r == None && position == old(position)
    {
      if position == store.Length {
        return None;
      }
      r := Some(store[position]);
      position := position + 1;
    }

    /** `get(dst, 0, n)` */
    method GetAll(n: nat) returns (r: Option<seq<byte>>)
      requires Valid()
      modifies this`position
      ensures Valid()
      ensures old(position) + n <= store.Length
          ==> r == Some(store[old(position)..old(position) + n]) && position == old(position) + n
      ensures old(position) + n > store.Length ==> r == None && position == old(position)
    {
      if position + n > store.Length {
        return None;
      }
      r := Some(store[position..position + n]);
      position := position + n;
    }

    /** The next 16-bit field, unsigned; callers that hold it in a short apply Short. */
    method GetShort() returns (r: Option<nat>)
      requires Valid()
      modifies this`position
      ensures Valid()
      ensures old(position) + 2 <= store.Length
          ==> r == Some(WordAt(store[..], old(position))) && position == old(position) + 2
      ensures old(position) + 2 > store.Length ==> r == None && position == old(position)
    {
      if position + 2 > store.Length {
        return None;
      }
      r := Some(WordAt(store[..], position));
      position := position + 2;
    }

    /** `position(p)`, which throws outside the buffer. */
    method SetPosition(p: int) returns (ok: bool)
      requires Valid()
      modifies this`position
      ensures Valid() && ok == (0 <= p <= store.Length)
      ensures position == if ok then p else old(position)
    {
      ok := 0 <= p <= store.Length;
      if ok {
        position := p;
      }
    }
  }
}
