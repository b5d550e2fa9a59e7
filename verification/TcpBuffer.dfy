/** The growing, compacting byte buffer of a connection. It is specified as a
    FIFO of bytes: `Contents` is what has been written and not yet recycled. */
module TcpBuffers {
  import opened Bytes

  class TcpBuffer {
    var buffer: array<Byte>
    var readIndex: int
    var writeIndex: int

    ghost predicate Valid()
      reads this
    {
      0 <= readIndex <= writeIndex <= buffer.Length
    }

    ghost function Contents(): Bytes
      reads this, buffer
      requires Valid()
    {
      buffer[readIndex..writeIndex]
    }

    constructor (size: nat)
      ensures Valid() && fresh(buffer)
      ensures Contents() == [] && buffer.Length == size == WriteAble()
    {
      buffer := new Byte[size](_ => '\0');
      readIndex, writeIndex := 0, 0;
    }

    function ReadAble(): int
      reads this
    {
      writeIndex - readIndex
    }

    function WriteAble(): int
      reads this
    {
      buffer.Length - writeIndex
    }

    /** Moves the readable bytes to the front of a new array, keeping as many as fit. */
    method ResizeBuffer(size: nat)
      requires Valid()
      modifies this
      ensures Valid() && fresh(buffer) && buffer.Length == size && readIndex == 0
      ensures size >= old(ReadAble()) ==> Contents() == old(Contents())
      ensures size < old(ReadAble()) ==> Contents() == old(Contents())[..size]
    {
      var tmp := new Byte[size](_ => '\0');
      var c := if size < ReadAble() then size else ReadAble();
      forall i | 0 <= i < c {
        tmp[i] := buffer[readIndex + i];
      }
      assert tmp[..c] == buffer[readIndex..readIndex + c];
      assert buffer[readIndex..readIndex + c] == Contents()[..c];
      buffer := tmp;
      readIndex := 0;
      writeIndex := readIndex + c;
    }

    /** Appends; grows to one and a half times the needed size when full. */
    method WriteToBuffer(bytes: Bytes)
      requires Valid()
      modifies this, buffer
      ensures Valid() && (buffer == old(buffer) || fresh(buffer))
      ensures buffer.Length >= old(buffer.Length)
      ensures buffer.Length == if |bytes| <= old(WriteAble()) then old(buffer.Length)
                               else old(writeIndex) + |bytes| + (old(writeIndex) + |bytes|) / 2
      ensures Contents() == old(Contents()) + bytes
    {
      if |bytes| > WriteAble() {
        var n := writeIndex + |bytes|;
        ResizeBuffer(n + n / 2);
      }
      CopyIn(bytes);
      ghost var r, w, n := readIndex, writeIndex, writeIndex + |bytes|;
      assert buffer[r..n] == buffer[r..w] + buffer[w..n];
      writeIndex := writeIndex + |bytes|;
    }

    /** The bytes land behind the write index, as `memcpy` and `read` leave them. */
    method CopyIn(bytes: Bytes)
      requires Valid() && |bytes| <= WriteAble()
      modifies buffer
      ensures buffer[writeIndex..writeIndex + |bytes|] == bytes
      ensures Contents() == old(Contents())
    {
      forall i | 0 <= i < |bytes| {
        buffer[writeIndex + i] := bytes[i];
      }
      assert buffer[writeIndex..writeIndex + |bytes|] == bytes;
      assert Contents() == old(Contents());
    }

    /** Takes up to `size` bytes off the front. */
    method ReadFromBuffer(size: nat) returns (re: Bytes)
      requires Valid()
      modifies this
      ensures Valid() && (buffer == old(buffer) || fresh(buffer)) && buffer.Length == old(buffer.Length)
      ensures |re| == (if size < old(ReadAble()) then size else old(ReadAble()))
      ensures re + Contents() == old(Contents())
      ensures old(ReadAble()) > 0 ==> readIndex <= buffer.Length / 3
    {
      if ReadAble() == 0 {
        return [];
      }
      var readSize := if ReadAble() > size then size else ReadAble();
      re := buffer[readIndex..readIndex + readSize];
      assert re + buffer[readIndex + readSize..writeIndex] == Contents();
      readIndex := readIndex + readSize;
      AdjustBuffer();
    }

    /** Compaction: past a third of the capacity the readable bytes move to the front. */
    method AdjustBuffer()
      requires Valid() || readIndex <= buffer.Length / 3
      modifies this
      ensures (buffer == old(buffer) || fresh(buffer)) && buffer.Length == old(buffer.Length)
      ensures old(Valid()) ==> Valid() && Contents() == old(Contents())
      ensures !old(Valid()) ==> buffer == old(buffer) && readIndex == old(readIndex) && writeIndex == old(writeIndex)
      ensures readIndex <= buffer.Length / 3
      ensures if old(readIndex) > buffer.Length / 3 then readIndex == 0
              else buffer == old(buffer) && readIndex == old(readIndex) && writeIndex == old(writeIndex)
    {
      if readIndex > buffer.Length / 3 {
        var tmp := new Byte[buffer.Length](_ => '\0');
        var count := ReadAble();
        forall i | 0 <= i < count {
          tmp[i] := buffer[readIndex + i];
        }
        assert tmp[..count] == Contents();
        buffer := tmp;
        writeIndex := count;
        readIndex := 0;
      }
    }

    method ClearBuffer()
      modifies this
      ensures Valid() && fresh(buffer) && buffer.Length == 0 && Contents() == []
    {
      buffer := new Byte[0];
      readIndex, writeIndex := 0, 0;
    }

    /** Drops `n` readable bytes. An index past the capacity is reported and ignored. Between the
        two the indices cross: tolerated while nothing is moved, undefined where `AdjustBuffer`
        would copy a negative number of bytes. */
    method RecycleRead(n: nat)
      requires Valid()
      requires n <= ReadAble() || readIndex + n > buffer.Length || readIndex + n <= buffer.Length / 3
      modifies this
      ensures (buffer == old(buffer) || fresh(buffer)) && buffer.Length == old(buffer.Length)
      ensures n <= old(ReadAble()) ==> Valid() && Contents() == old(Contents())[n..] && readIndex <= buffer.Length / 3
      ensures old(readIndex) + n > buffer.Length ==> Valid() && Contents() == old(Contents())
      ensures old(ReadAble()) < n <= buffer.Length - old(readIndex) ==>
                readIndex == old(readIndex) + n > writeIndex == old(writeIndex) && buffer == old(buffer)
    {
      var j := readIndex + n;
      if j > buffer.Length {
        return;
      }
      assert n <= ReadAble() ==> buffer[j..writeIndex] == Contents()[n..];
      readIndex := j;
      AdjustBuffer();
    }

    /** Makes readable the `n` bytes that a read put behind the write index. */
    method RecycleWrite(n: nat)
      requires Valid()
      modifies this
      ensures Valid() && (buffer == old(buffer) || fresh(buffer)) && buffer.Length == old(buffer.Length)
      ensures Contents() == if n <= old(WriteAble())
                            then old(Contents()) + old(buffer[writeIndex..writeIndex + n])
                            else old(Contents())
      ensures n <= old(WriteAble()) ==> readIndex <= buffer.Length / 3
    {
      var j := writeIndex + n;
      if j > buffer.Length {
        return;
      }
      assert buffer[readIndex..j] == Contents() + buffer[writeIndex..j];
      writeIndex := j;
      AdjustBuffer();
    }

    method GetBufferString() returns (s: Bytes)
      requires Valid()
      ensures s == Contents()
    {
      s := buffer[readIndex..writeIndex];
    }
  }
}
