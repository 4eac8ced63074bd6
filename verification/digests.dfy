/** Hash objects that absorb bytes piece by piece. */
module Digests {
  import opened Bytes

  /** A hash function as a whole: the hexadecimal digest of a byte string. */
  type HashFunction = seq<Byte> -> string

  /** The object a hash factory returns. */
  class Digest {
    const hash: HashFunction
    var absorbed: seq<Byte>

    constructor (hash: HashFunction)
      ensures this.hash == hash && absorbed == []
    {
      this.hash, absorbed := hash, [];
    }

    method Update(chunk: seq<Byte>)
      modifies this
      ensures absorbed == old(absorbed) + chunk
    {
      absorbed := absorbed + chunk;
    }

    function HexDigest(): string
      reads this
    {
      hash(absorbed)
    }
  }
}
