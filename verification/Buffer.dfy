/** The byte buffer: an array with a reader index, a writer index and head room in front. */
module Buffer {

  /** The size of the head room. */
  const PREPEND := 8
  /** The size of the spare buffer a scatter read overflows into. */
  const EXTRA := 65536

  /** What readv answers: bytes, end of stream, or an error. */
  datatype ReadResult = Received(bytes: string) | EndOfStream | ReadError

  class Buffer {
    var data: array<char>
    var reader: nat
    var writer: nat

    ghost predicate Valid()
      reads this
    {
      reader <= writer <= data.Length && PREPEND <= writer
    }

    /** The readable bytes: all a user of the buffer sees. */
    ghost function Contents(): string
      requires Valid()
      reads this, data
    {
      data[reader..writer]
    }

    constructor (initialSize: nat)
      ensures Valid() && fresh(data) && Contents() == ""
      ensures data.Length == initialSize + PREPEND
    {
      data := new char[initialSize + PREPEND](_ => '\0');
      reader, writer := PREPEND, PREPEND;
    }

    function Readable(): nat
      requires Valid()
      reads this
    {
      writer - reader
    }

    function Writable(): nat
      requires Valid()
      reads this
    {
      data.Length - writer
    }

    /** Asking for more than is there changes nothing. */
    method Retrieve(len: nat)
      requires Valid()
      modifies this`reader
      ensures Valid()
      ensures Contents() == if len <= |old(Contents())| then old(Contents())[len..] else old(Contents())
    {
      if len <= Readable() {
        reader := reader + len;
      }
    }

    method RetrieveAll()
      requires Valid()
      modifies this`reader, this`writer
      ensures Valid() && Contents() == "" && reader == PREPEND
    {
      reader, writer := PREPEND, PREPEND;
    }

    /** Asking for more than there is returns bytes behind the contents, as far as the array goes, and
        consumes nothing. */
    method RetrieveAsString(len: nat) returns (s: string)
      requires Valid() && reader + len <= data.Length
      modifies this`reader
      ensures Valid() && |s| == len
      ensures len <= |old(Contents())| ==> old(Contents()) == s + Contents()
      ensures len > |old(Contents())| ==> Contents() == old(Contents()) <= s
    {
      s := data[reader..reader + len];
      Retrieve(len);
    }

    method Resize(size: nat)
      requires Valid() && writer <= size
      modifies this`data
      ensures Valid() && fresh(data) && data.Length == size && Contents() == old(Contents())
    {
      var old_, r, w := data, reader, writer;
      data := new char[size](i requires 0 <= i < size reads old_ => if i < old_.Length then old_[i] else '\0');
      assert data[r..w] == old_[r..w];
    }

    /** Makes room for `len` more bytes: by moving the readable bytes to the front when that frees
        enough, otherwise by growing. */
    method EnsureWritableBytes(len: nat)
      requires Valid()
      modifies this, data
      ensures Valid() && (data == old(data) || fresh(data))
      ensures Writable() >= len && Contents() == old(Contents())
      // the array is replaced only when free space at both ends together would not do
      ensures data == old(data) <==> old(Writable()) >= len || PREPEND + |old(Contents())| + len <= old(data.Length)
      // compaction only ever moves the bytes to the left, even when prepends have used the head room
      ensures reader <= old(reader) && writer <= old(writer)
    {
      if Writable() >= len { return; }
      var readable := Readable();
      if PREPEND + readable + len <= data.Length {
        var from := reader;
        ghost var was := Contents();
        assert PREPEND < from;
        forall i | 0 <= i < readable {
          data[PREPEND + i] := data[from + i];
        }
        reader := PREPEND;
        writer := reader + readable;
        assert Contents() == was;
      } else {
        Resize(writer + len);
      }
    }

    method Append(bytes: string)
      requires Valid()
      modifies this, data
      ensures Valid() && (data == old(data) || fresh(data))
      ensures Contents() == old(Contents()) + bytes
    {
      EnsureWritableBytes(|bytes|);
      Fill(bytes);
    }

    /** Copies bytes into the writable part and advances the writer over them. */
    method Fill(bytes: string)
      requires Valid() && |bytes| <= Writable()
      modifies this`writer, data
      ensures Valid() && Contents() == old(Contents()) + bytes && writer == old(writer) + |bytes|
    {
      var w := writer;
      forall i | 0 <= i < |bytes| {
        data[w + i] := bytes[i];
      }
      writer := w + |bytes|;
    }

    /** Writes into the head room; without enough of it, nothing happens. */
    method Prepend(bytes: string)
      requires Valid()
      modifies this`reader, data
      ensures Valid()
      ensures Contents() == if |bytes| <= old(reader) then bytes + old(Contents()) else old(Contents())
    {
      if reader < |bytes| { return; }
      var r := reader - |bytes|;
      forall i | 0 <= i < |bytes| {
        data[r + i] := bytes[i];
      }
      reader := r;
    }

    method Shrink(reserve: nat)
      requires Valid()
      modifies this`data
      ensures Valid() && fresh(data) && Contents() == old(Contents()) && Writable() == reserve
    {
      Resize(writer + reserve);
    }

    /** A scatter read: the first bytes land in the buffer's own free part, the rest, which came
        into the spare buffer, is appended. */
    method ReadFromFd(result: ReadResult) returns (n: int)
      requires Valid() && (result.Received? ==> 0 < |result.bytes| <= Writable() + EXTRA)
      modifies this, data
      ensures Valid() && (data == old(data) || fresh(data))
      ensures result.Received? ==> n == |result.bytes| && Contents() == old(Contents()) + result.bytes
      ensures !result.Received? ==> Contents() == old(Contents()) && n == if result.EndOfStream? then 0 else -1
    {
      match result {
        case ReadError => return -1;
        case EndOfStream => return 0;
        case Received(bytes) =>
          n := |bytes|;
          var writable := Writable();
          if n <= writable {
            Fill(bytes);
          } else {
            Fill(bytes[..writable]);
            Append(bytes[writable..]);
            assert bytes == bytes[..writable] + bytes[writable..];
          }
      }
    }

    /** A write of which the kernel took the first `n` bytes. */
    method WriteToFd(n: nat) returns (sent: string)
      requires Valid() && n <= Readable()
      modifies this`reader
      ensures Valid() && old(Contents()) == sent + Contents() && |sent| == n
    {
      sent := data[reader..reader + n];
      Retrieve(n);
    }
  }
}
