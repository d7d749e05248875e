/** The message record that the server fills from the wire and hands to the codec. */
module Messages {
  import opened Bits

  class Message {
    var kind: nat
    var compression: bool
    var requiresCompression: bool
    var length: nat
    var buffer: seq<byte>

    ghost predicate Valid()
      reads this
    {
      length == |buffer|
    }

    constructor (kind: nat, compression: bool, requiresCompression: bool, payload: seq<byte>)
      ensures Valid() && buffer == payload
      ensures this.kind == kind && this.compression == compression
      ensures this.requiresCompression == requiresCompression
    {
      this.kind := kind;
      this.compression := compression;
      this.requiresCompression := requiresCompression;
      length := |payload|;
      buffer := payload;
    }
  }
}
