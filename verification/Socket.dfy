/** A connected byte stream.  How many bytes a receive returns is up to the network: any positive
    number that is available and fits, so what is proved about callers holds for every splitting. */
module Socket {
  import opened Prelude

  class Connection {
    /** The bytes the peer has still to deliver before it closes. */
    var incoming: bytes

    constructor (incoming: bytes)
      ensures this.incoming == incoming
    {
      this.incoming := incoming;
    }

    /** recv: an empty result is the orderly close. */
    method Receive(max: nat) returns (chunk: bytes)
      requires max > 0
      modifies this
      ensures |chunk| <= max && chunk + incoming == old(incoming)
      ensures chunk == [] <==> old(incoming) == []
    {
      if incoming == [] { return []; }
      var n: nat :| 0 < n <= max && n <= |incoming|;
      chunk := incoming[..n];
      incoming := incoming[n..];
    }
  }
}
