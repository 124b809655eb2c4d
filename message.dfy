/** The one-byte message envelope of the wire protocol (pkg/message/types.go). */
module Message {
  import opened GoTypes

  datatype MessageType = Info | Frame | Audio | Error | Unknown

  /** The tag byte of each known type; `Unknown` is the constant 255. */
  function Tag(t: MessageType): byte
  {
    match t
    case Info => 0
    case Frame => 1
    case Audio => 2
    case Error => 99
    case Unknown => 255
  }

  /** Splits a datagram into its payload and type. The tag is stripped for
      the four known types; any other first byte leaves the data whole.
      Go indexes `data[0]` unguarded, so callers must not pass an empty slice. */
  function Parse(data: seq<byte>): (r: (seq<byte>, MessageType))
    requires |data| > 0
    ensures data[0] in {0, 1, 2, 99} ==> r.0 == data[1..] && Tag(r.1) == data[0] && r.1 != Unknown
    ensures data[0] !in {0, 1, 2, 99} <==> r == (data, Unknown)
  {
    match data[0]
    case 0 => (data[1..], Info)
    case 1 => (data[1..], Frame)
    case 2 => (data[1..], Audio)
    case 99 => (data[1..], Error)
    case _ => (data, Unknown)
  }

  /** Prepends the tag of a known type to a payload (the four `Make*`). */
  function Make(t: MessageType, payload: seq<byte>): (m: seq<byte>)
    requires t != Unknown
    ensures |m| == |payload| + 1 && m[0] == Tag(t) && m[1..] == payload
  {
    [Tag(t)] + payload
  }

  function MakeError(e: seq<byte>): (m: seq<byte>)
    ensures m == [99] + e
  {
    Make(Error, e)
  }

  function MakeInfo(msg: seq<byte>): (m: seq<byte>)
    ensures m == [0] + msg
  {
    Make(Info, msg)
  }

  function MakeFrame(data: seq<byte>): (m: seq<byte>)
    ensures m == [1] + data
  {
    Make(Frame, data)
  }

  function MakeAudio(data: seq<byte>): (m: seq<byte>)
    ensures m == [2] + data
  {
    Make(Audio, data)
  }

  /** Parsing undoes building, for every known type. */
  lemma ParseMake(t: MessageType, payload: seq<byte>)
    requires t != Unknown
    ensures Parse(Make(t, payload)) == (payload, t)
  {
    var m := Make(t, payload);
    assert m[0] == Tag(t);
    assert m[1..] == payload;
  }

  /** Building undoes parsing, for every datagram whose tag is known. */
  lemma MakeParse(data: seq<byte>)
    requires |data| > 0 && Parse(data).1 != Unknown
    ensures Make(Parse(data).1, Parse(data).0) == data
  {
    assert [data[0]] + data[1..] == data;
  }

  /** The byte 255 is not one of the known tags: a datagram starting with the
      `Unknown` constant comes back whole. */
  lemma ParseUnknownTag(data: seq<byte>)
    requires |data| > 0 && data[0] == Tag(Unknown)
    ensures Parse(data) == (data, Unknown)
  {
  }
}
