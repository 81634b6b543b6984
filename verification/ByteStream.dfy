/** The bounded queue of bytes on which both halves of a connection rest. */
module ByteStreams {
  import opened Machine

  /** What a stream is: every byte ever accepted, how many have been read, and whether
      the writer has ended it. */
  datatype Stream = Stream(written: seq<byte>, read: nat, capacity: nat, ended: bool) {
    ghost predicate Valid() {
      read <= |written| <= read + capacity
    }

    function Buffered(): int {
      |written| - read
    }

    function Room(): int {
      capacity - Buffered()
    }

    predicate Eof() {
      ended && Buffered() == 0
    }

    /** How many of `n` offered bytes are accepted. */
    function Accepts(n: nat): int {
      if ended then 0 else Min(Room(), n)
    }
  }

  class ByteStream {
    const capacity: nat
    var buf: seq<byte>
    var size: nat
    var inputEnded: bool
    var bytesWritten: nat
    var bytesRead: nat
    var error: bool
    ghost var history: seq<byte>

    ghost predicate Valid()
      reads this
    {
      && size == |buf| <= capacity
      && bytesWritten == |history|
      && bytesRead <= bytesWritten
      && buf == history[bytesRead..]
    }

    ghost function View(): Stream
      reads this
    {
      Stream(history, bytesRead, capacity, inputEnded)
    }

    constructor (capacity: nat)
      ensures Valid() && View() == Stream([], 0, capacity, false) && !error
    {
      this.capacity := capacity;
      buf, size, inputEnded, bytesWritten, bytesRead, error := [], 0, false, 0, 0, false;
      history := [];
    }

    method Write(data: seq<byte>) returns (n: nat)
      requires Valid()
      modifies this
      ensures Valid() && error == old(error)
      ensures n == old(View()).Accepts(|data|) && n <= |data|
      ensures View() == old(View()).(written := old(View()).written + data[..n])
    {
      if inputEnded || capacity == size {
        return 0;
      }
      n := Min(capacity - size, |data|);
      buf := buf[..size] + data[..n] + buf[size..];
      size := size + n;
      bytesWritten := bytesWritten + n;
      history := history + data[..n];
    }

    method EndInput()
      requires Valid()
      modifies this
      ensures Valid() && error == old(error)
      ensures View() == old(View()).(ended := true)
    {
      inputEnded := true;
    }

    method SetError()
      requires Valid()
      modifies this
      ensures Valid() && error
      ensures View() == old(View())
    {
      error := true;
    }

    method PeekOutput(len: nat) returns (r: seq<byte>)
      requires Valid()
      ensures r == View().written[View().read..View().read + Min(View().Buffered(), len)]
    {
      var toPeek := Min(size, len);
      r := buf[..toPeek];
    }

    method PopOutput(len: nat)
      requires Valid()
      modifies this
      ensures Valid() && error == old(error)
      ensures View() == old(View()).(read := old(View()).read + Min(old(View()).Buffered(), len))
    {
      var toPop := Min(size, len);
      buf := buf[toPop..];
      size := size - toPop;
      bytesRead := bytesRead + toPop;
    }

    /** Reading returns exactly the next bytes of the history, in order. */
    method Read(len: nat) returns (r: seq<byte>)
      requires Valid()
      modifies this
      ensures Valid() && error == old(error)
      ensures View() == old(View()).(read := old(View()).read + |r|)
      ensures |r| == Min(old(View()).Buffered(), len)
      ensures r == View().written[old(View()).read..View().read]
    {
      r := PeekOutput(len);
      PopOutput(len);
    }
  }
}
