/** OpHandler::respond, shared by both handlers (apps/ycsbserver/handler.cc). */
module Handler {

  import opened Bytes
  import opened Ops
  import opened Wire
  import opened Channel

  // OpHandler::Result, with the package that READY comes with.
  datatype Received = Ready(pkg: Package) | Incomplete | Stop

  const CHUNK := 1024

  // Strictly between two streams: `before` was written, `after` was not
  // written completely.
  predicate Between(before: bytes, stream: bytes, after: bytes) {
    before <= stream && stream < after
  }

  // The buffers that a body is sent in: full ones, then what is left.
  function Chunks(n: nat): seq<nat> {
    if n == 0 then [] else if n < CHUNK then [n] else [CHUNK] + Chunks(n - CHUNK)
  }

  lemma {:induction false} ChunksAre(n: nat)
    ensures |Chunks(n)| == (n + 1023) / 1024
    ensures forall i :: 0 <= i < |Chunks(n)| ==>
              Chunks(n)[i] == if (i + 1) * 1024 <= n then 1024 else n - i * 1024
  {
    if n < CHUNK {
    } else {
      ChunksAre(n - CHUNK);
      assert forall i :: 1 <= i < |Chunks(n)| ==> Chunks(n)[i] == Chunks(n - CHUNK)[i - 1];
    }
  }

  method Respond(c: Connection, size: u64) returns (ok: bool)
    modifies c`output, c`writes
    ensures ok ==> c.output == old(c.output) + ResponseBytes(size)
    ensures !ok ==> Between(old(c.output), c.output, old(c.output) + ResponseBytes(size))
    ensures ok ==> c.writes == old(c.writes) + ([8] + Chunks(size))
    ensures !ok ==> old(c.writes) < c.writes <= old(c.writes) + ([8] + Chunks(size))
  {
    ghost var start, whole := c.output, c.output + ResponseBytes(size);
    ghost var sizes := c.writes + ([8] + Chunks(size));
    var header := BigEndian(size, 8);
    var n := c.Send(header);
    if n != 8 {
      PartOf(start, header, Zeros(size), if n > 0 then n else 0);
      return false;
    }
    assert header[..8] == header;
    assert c.output + Zeros(size) == whole by {
      assert start + header + Zeros(size) == start + (header + Zeros(size));
    }
    var bytes: nat := size;
    while bytes > 0
      invariant bytes <= size
      invariant start <= c.output && c.output + Zeros(bytes) == whole
      invariant old(c.writes) < c.writes && c.writes + Chunks(bytes) == sizes
    {
      var amount := if bytes < CHUNK then bytes else CHUNK;
      ghost var sent, done := c.output, c.writes;
      assert Zeros(amount) + Zeros(bytes - amount) == Zeros(bytes);
      assert Chunks(bytes) == [amount] + Chunks(bytes - amount);
      n := c.Send(Zeros(amount));
      assert c.writes + Chunks(bytes - amount) == done + ([amount] + Chunks(bytes - amount));
      if n != amount {
        PartOf(sent, Zeros(amount), Zeros(bytes - amount), if n > 0 then n else 0);
        return false;
      }
      assert Zeros(amount)[..amount] == Zeros(amount);
      assert sent + Zeros(amount) + Zeros(bytes - amount) == sent + (Zeros(amount) + Zeros(bytes - amount));
      bytes := bytes - amount;
    }
    assert c.output + Zeros(0) == c.output;
    return true;
  }

  lemma PartOf(start: bytes, data: bytes, rest: bytes, n: nat)
    requires n < |data|
    ensures Between(start, start + data[..n], start + (data + rest))
    ensures start + data[..n] == start + if n > 0 then data[..n] else []
  {
  }
}
