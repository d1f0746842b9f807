// The I/O the request handler performs, reduced to the state it changes:
// the write side of a QUIC stream, and a buffered reader over an opened
// file. Transport failures (reset, timeout) are not modelled; every write
// and finish succeeds.

module Transport {
  import opened Bytes

  /** What `File::open` finds at a path that opens: a regular file with its
      bytes, or a directory, which opens but yields no bytes to read. */
  datatype Entry = File(content: seq<byte>) | Directory

  /** The bytes a reader over an opened entry can deliver. */
  function Readable(e: Entry): seq<byte>
  {
    match e
    case File(content) => content
    case Directory => []
  }

  /** The write side of a bidirectional stream (`quinn::SendStream`): the
      bytes sent so far, in order, and whether `finish` has been called. */
  class SendStream {
    var sent: seq<byte>
    var finished: bool

    constructor ()
      ensures sent == [] && !finished
    {
      sent := [];
      finished := false;
    }

    /** `write_all`: every byte of `data` is appended. */
    method WriteAll(data: seq<byte>)
      requires !finished
      modifies this
      ensures sent == old(sent) + data && !finished
    {
      sent := sent + data;
    }

    /** `write`: returns how many bytes were taken. The stream may take
        fewer; here it always takes all of them. */
    method Write(data: seq<byte>) returns (n: nat)
      requires !finished
      modifies this
      ensures n == |data|
      ensures sent == old(sent) + data[..n] && !finished
    {
      sent := sent + data;
      n := |data|;
    }

    /** `finish`: half-closes the stream; nothing more can be written. */
    method Finish()
      requires !finished
      modifies this
      ensures finished && sent == old(sent)
    {
      finished := true;
    }
  }

  /** `BufReader` over an opened entry: the readable bytes and how many of
      them have been consumed. */
  class FileReader {
    const content: seq<byte>
    var pos: nat

    ghost predicate Valid()
      reads this
    {
      pos <= |content|
    }

    constructor (e: Entry)
      ensures Valid() && content == Readable(e) && pos == 0
    {
      content := Readable(e);
      pos := 0;
    }

    /** `read_exact(buf)`: reads until `buf` is full, which succeeds, or
        until the end of the content, which fails with the bytes read so
        far left at the front of `buf` and the content used up. */
    method ReadExact(buf: array<byte>) returns (ok: bool)
      requires Valid()
      modifies this, buf
      ensures Valid()
      ensures ok <==> old(pos) + buf.Length <= |content|
      ensures ok ==> pos == old(pos) + buf.Length && buf[..] == content[old(pos)..pos]
      ensures !ok ==> pos == |content| && buf[..|content| - old(pos)] == content[old(pos)..]
    {
      var n := if pos + buf.Length <= |content| then buf.Length else |content| - pos;
      var k := 0;
      while k < n
        invariant 0 <= k <= n && pos == old(pos) && pos + n <= |content|
        invariant forall j :: 0 <= j < k ==> buf[j] == content[pos + j]
      {
        buf[k] := content[pos + k];
        k := k + 1;
      }
      assert buf[..n] == content[pos..pos + n];
      ok := n == buf.Length;
      pos := pos + n;
    }
  }
}
