/** What passes between the layers. */
module Packets {
  import opened Bytes

  /** A captured jpcap packet: the bytes up to the end of the transport header, and the rest. */
  datatype Packet = Packet(header: seq<byte>, data: seq<byte>)

  /** A header builder returns null, throws, or returns an array. */
  datatype Built = Null | Thrown | Made(bytes: seq<byte>)
}
