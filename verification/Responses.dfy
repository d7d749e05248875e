/** frontend/proxy-server.js: what the proxy makes of a whole message from the server. */
module Responses {
  import opened Bits
  import opened Wrappers
  import opened Wire
  import opened PrefixCode
  import opened JsDecompressor

  datatype Response =
    | TooShort
    | Echoed(payload: seq<byte>)
    | Listed(payload: seq<byte>)
    | Sized(size: Option<nat>)
    | Retrieved(payload: seq<byte>)
    | Content(content: seq<byte>)
    | ServerError
    | Unknown(kind: nat)

  /** The payload, decoded by the message's own compression bit when the proxy has a
      dictionary. */
  function Decoded(dictionary: Option<Dictionary>, data: seq<byte>): (r: seq<byte>)
    requires |data| >= 9
  {
    if ShiftedBit(data[0], 3) && dictionary.Some? then JsDecompressed(dictionary, data[9..]) else data[9..]
  }

  /** handleTCPResponse. What is shown of a file is what follows its 20-byte record. */
  function Handled(dictionary: Option<Dictionary>, data: seq<byte>): (r: Response) {
    if |data| < 9 then TooShort
    else
      var kind, payload := KindOf(data[0]), Decoded(dictionary, data);
      if kind == 0 || kind == 1 then Echoed(payload)
      else if kind == 2 || kind == 3 then Listed(payload)
      else if kind == 4 || kind == 5 then Sized(if |payload| >= 8 then Some(NumberOf(payload[..8])) else None)
      else if kind == 6 then Retrieved(payload)
      else if kind == 7 then Content(if |payload| > 20 then payload[20..] else [])
      else if kind == 15 then ServerError
      else Unknown(kind)
  }
}
