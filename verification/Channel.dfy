/** The other end of a connection: bytes that are still to come, and what has
    been written. How many bytes a read or write moves is up to the system. */
module Channel {

  import opened Bytes

  class Connection {
    var input: bytes
    var output: bytes
    // length of every buffer handed to a write
    var writes: seq<nat>

    constructor (input: bytes)
      ensures this.input == input && output == [] && writes == []
    {
      this.input, output, writes := input, [], [];
    }

    // read(fd, data, max): at least one byte, unless nothing is left or asked for.
    method Read(max: nat) returns (data: bytes)
      modifies `input
      ensures |data| <= max && data + input == old(input)
      ensures data == [] ==> max == 0 || old(input) == []
    {
      if max == 0 || input == [] {
        return [];
      }
      var n :| 1 <= n <= max && n <= |input|;
      data := input[..n];
      input := input[n..];
    }

    // write(fd, data, len): the number of bytes taken, or -1.
    method Send(data: bytes) returns (n: int)
      modifies `output, `writes
      ensures -1 <= n <= |data|
      ensures output == old(output) + if n > 0 then data[..n] else []
      ensures writes == old(writes) + [|data|]
    {
      n :| -1 <= n <= |data|;
      output := output + if n > 0 then data[..n] else [];
      writes := writes + [|data|];
    }
  }
}
