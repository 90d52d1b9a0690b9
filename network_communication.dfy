/** Framing of one named message (NetworkCommunication.cs): SendData builds
    the buffer handed to Netcode's SendNamedMessage, GetData parses a
    received buffer back into its name and its text.

    The layout that Netcode's `FastBufferWriter.WriteValue(string)` gives the
    name is not part of this model. A stand-in takes its place: a 4-byte
    little-endian count of the name's UTF-8 bytes (reduced modulo 2^32, as a
    `uint` cast would), followed by those bytes. */
module NetworkCommunication {
  import opened Wrappers
  import opened Numbers
  import opened Text

  /** The two named-message channels, Constants.FROM_SERVER and
      Constants.FROM_CLIENT. */
  datatype Listener = FromServer | FromClient

  /** What SendData hands to `SendNamedMessage`: the channel, the
      destination, the writer's bytes and the capacity it was created with. */
  datatype Packet = Packet(listener: Listener, clientId: ClientId, bytes: seq<byte>, capacity: int)

  /** `sizeof(ulong)`, which SendData adds to the capacity. */
  const SizeOfUlong: int := 8

  // ---------------------------------------------------------------------
  // The stand-in name field

  function U32Bytes(n: nat): (r: seq<byte>)
    requires n < TwoTo32
    ensures |r| == 4
  {
    [n % 0x100, (n / 0x100) % 0x100, (n / 0x1_0000) % 0x100, n / 0x100_0000]
  }

  function U32Value(b: seq<byte>): (n: nat)
    requires |b| >= 4
    ensures n < TwoTo32
  {
    b[0] as int + 0x100 * b[1] as int + 0x1_0000 * b[2] as int + 0x100_0000 * b[3] as int
  }

  lemma U32RoundTrip(n: nat, rest: seq<byte>)
    requires n < TwoTo32
    ensures U32Value(U32Bytes(n) + rest) == n
  {
    var q1 := n / 0x100;
    var q2 := q1 / 0x100;
    assert n == q1 * 0x100 + n % 0x100;
    assert q1 == q2 * 0x100 + q1 % 0x100;
    assert q2 == (q2 / 0x100) * 0x100 + q2 % 0x100;
    assert n / 0x1_0000 == q2;
    assert n / 0x100_0000 == q2 / 0x100;
  }

  /** The name as `writer.WriteValue(dataName)` writes it (stand-in). */
  function NameField(name: string): seq<byte> {
    var bytes := Encode(name);
    U32Bytes(|bytes| % TwoTo32) + bytes
  }

  /** `reader.ReadValue(out string)` on the stand-in layout: the name and
      how many bytes it took, or None when the buffer is too short. */
  function ReadNameField(b: seq<byte>): (r: Option<(string, nat)>)
    ensures r.Some? ==> 4 <= r.value.1 <= |b|
  {
    if |b| < 4 then None
    else
      var n := U32Value(b);
      if |b| - 4 < n then None else Some((Decode(b[4..4 + n]), 4 + n))
  }

  lemma ReadNameFieldOfNameField(name: string, rest: seq<byte>)
    requires |Encode(name)| < TwoTo32
    ensures ReadNameField(NameField(name) + rest) == Some((name, |NameField(name)|))
  {
    var bytes := Encode(name);
    var n := |bytes|;
    assert n % TwoTo32 == n;
    var b := NameField(name) + rest;
    assert b == U32Bytes(n) + (bytes + rest);
    U32RoundTrip(n, bytes + rest);
    assert U32Value(b) == n;
    assert b[4..4 + n] == bytes;
    DecodeEncode(name);
  }

  // ---------------------------------------------------------------------
  // Frames

  /** The frame SendData builds: the name field, then exactly the UTF-8
      bytes of the text, and nothing after them. */
  function Frame(dataName: string, dataStr: string): seq<byte> {
    NameField(dataName) + Encode(dataStr)
  }

  /** What GetData returns for a buffer: the trimmed name and the trimmed
      decoding of every byte after it, or ("", "") when the name cannot be
      read. */
  function ParseFrame(frame: seq<byte>): (r: (string, string))
    ensures IsTrimmed(r.0) && IsTrimmed(r.1)
    ensures ReadNameField(frame).None? ==> r == ("", "")
  {
    match ReadNameField(frame)
    case None => ("", "")
    case Some((name, k)) => (Trim(name), Trim(Decode(frame[k..])))
  }

  /** The frame cut at the end of its name field. */
  lemma FrameSplits(dataName: string, dataStr: string)
    ensures |Frame(dataName, dataStr)| == |NameField(dataName)| + |Encode(dataStr)|
    ensures Frame(dataName, dataStr)[..|NameField(dataName)|] == NameField(dataName)
    ensures Frame(dataName, dataStr)[|NameField(dataName)|..] == Encode(dataStr)
  {
  }

  /** ParseFrame once the name field has been read. */
  lemma ParseFrameAfterName(frame: seq<byte>)
    requires ReadNameField(frame).Some?
    ensures var field := ReadNameField(frame).value;
            ParseFrame(frame) == (Trim(field.0), Trim(Decode(frame[field.1..])))
  {
  }

  /** GetData inverts SendData, up to trimming. */
  lemma ParseFrameOfFrame(dataName: string, dataStr: string)
    requires |Encode(dataName)| < TwoTo32
    ensures ParseFrame(Frame(dataName, dataStr)) == (Trim(dataName), Trim(dataStr))
  {
    var f := Frame(dataName, dataStr);
    ReadNameFieldOfNameField(dataName, Encode(dataStr));
    assert f[|NameField(dataName)|..] == Encode(dataStr);
    DecodeEncode(dataStr);
  }

  /** Names and texts with no white space around them come out of the
      frame exactly as they went in. */
  lemma ParseFrameOfTrimmed(dataName: string, dataStr: string)
    requires IsTrimmed(dataName) && IsTrimmed(dataStr) && |dataName| < 0x4000_0000
    ensures ParseFrame(Frame(dataName, dataStr)) == (dataName, dataStr)
  {
    ParseFrameOfFrame(dataName, dataStr);
    TrimOfTrimmed(dataName);
    TrimOfTrimmed(dataStr);
  }

  /** A buffer too short to hold a name field yields ("", ""). */
  lemma TruncatedFrameYieldsEmpty(frame: seq<byte>)
    requires |frame| < 4 || U32Value(frame) > |frame| - 4
    ensures ParseFrame(frame) == ("", "")
  {
  }

  // ---------------------------------------------------------------------
  // Netcode's buffers, reduced to what SendData and GetData use

  /** FastBufferWriter: bytes appended in order. */
  class BufferWriter {
    const capacity: int
    var contents: seq<byte>

    constructor (capacity: int)
      ensures this.capacity == capacity && contents == []
    {
      this.capacity := capacity;
      contents := [];
    }

    method WriteValue(s: string)
      modifies this
      ensures contents == old(contents) + NameField(s)
    {
      contents := contents + NameField(s);
    }

    method WriteBytes(data: seq<byte>)
      modifies this
      ensures contents == old(contents) + data
    {
      contents := contents + data;
    }
  }

  /** FastBufferReader: a fixed buffer and a read position. */
  class BufferReader {
    const bytes: seq<byte>
    var position: nat

    ghost predicate Valid()
      reads this
    {
      position <= |bytes|
    }

    constructor (bytes: seq<byte>)
      ensures Valid() && this.bytes == bytes && position == 0
    {
      this.bytes := bytes;
      position := 0;
    }

    function Length(): nat {
      |bytes|
    }

    /** The bytes not read yet. */
    function Unread(): seq<byte>
      reads this
      requires Valid()
    {
      bytes[position..]
    }

    /** `ReadValue(out string)`: fails, reading nothing, on a short buffer. */
    method ReadValue() returns (s: Option<string>)
      requires Valid()
      modifies this
      ensures Valid()
      ensures match ReadNameField(old(Unread()))
              case None => s.None? && position == old(position)
              case Some(field) => s == Some(field.0) && position == old(position) + field.1
    {
      var field := ReadNameField(bytes[position..]);
      if field.Some? {
        position := position + field.value.1;
        s := Some(field.value.0);
      } else {
        s := None;
      }
    }

    method ReadByte() returns (b: byte)
      requires Valid() && position < |bytes|
      modifies this
      ensures Valid() && b == bytes[old(position)] && position == old(position) + 1
    {
      b := bytes[position];
      position := position + 1;
    }
  }

  // ---------------------------------------------------------------------
  // SendData and GetData

  /** `SendData(dataName, dataStr, clientId, listener)`: the packet handed
      to SendNamedMessage. */
  method SendData(dataName: string, dataStr: string, clientId: ClientId, listener: Listener)
    returns (p: Packet)
    ensures p.listener == listener && p.clientId == clientId
    ensures |p.bytes| == |NameField(dataName)| + |Encode(dataStr)|
    ensures p.bytes[..|NameField(dataName)|] == NameField(dataName)
    ensures p.bytes[|NameField(dataName)|..] == Encode(dataStr)
    ensures p.capacity == |Encode(dataName)| + SizeOfUlong + |Encode(dataStr)|
    ensures |Encode(dataName)| < TwoTo32 ==> ParseFrame(p.bytes) == (Trim(dataName), Trim(dataStr))
  {
    var data := Encode(dataStr);
    var size := |Encode(dataName)| + SizeOfUlong + |data|;
    var writer := new BufferWriter(size);
    writer.WriteValue(dataName);
    writer.WriteBytes(data);
    p := Packet(listener, clientId, writer.contents, size);
    assert p.bytes == Frame(dataName, dataStr);
    FrameSplits(dataName, dataStr);
    if |Encode(dataName)| < TwoTo32 {
      ParseFrameOfFrame(dataName, dataStr);
    }
  }

  /** `GetData(clientId, reader)`: reads the name, then every remaining
      byte in order, and trims both; ("", "") when the name cannot be read.
      The client id only appears in a log line and is left out. */
  method GetData(reader: BufferReader) returns (dataName: string, dataStr: string)
    requires reader.Valid()
    modifies reader
    ensures reader.Valid()
    ensures (dataName, dataStr) == ParseFrame(old(reader.Unread()))
    ensures ReadNameField(old(reader.Unread())).Some? ==> reader.position == |reader.bytes|
    ensures ReadNameField(old(reader.Unread())).None? ==> reader.position == old(reader.position)
  {
    ghost var frame := reader.Unread();
    ghost var origin := reader.position;
    var name := reader.ReadValue();
    if name.None? {
      return "", "";
    }
    ghost var field := ReadNameField(frame).value;
    assert name.value == field.0 && reader.position == origin + field.1;
    ghost var start := reader.position;
    var length := reader.Length() - reader.position;
    var data := new byte[length];
    for i := 0 to length
      invariant reader.Valid() && reader.position == start + i
      invariant data[..i] == reader.bytes[start..start + i]
    {
      var b := reader.ReadByte();
      data[i] := b;
    }
    assert data[..] == reader.bytes[start..start + length];
    assert start + length == |reader.bytes|;
    assert data[..] == frame[field.1..];
    ParseFrameAfterName(frame);
    dataStr := Trim(Decode(data[..]));
    dataName := Trim(name.value);
  }
}
