/** Bounded, NUL-terminated buffers and the two ends of a byte stream. */
module Buffers {
  import opened Bytes

  /** The reading end of a byte stream. How many bytes a read delivers is up to
      the kernel: only the bounds stated by `Read` are known. */
  class Channel {
    const stream: string      // everything the peer ever sends
    var pos: nat              // how much of it has been read
    var interrupts: nat       // how many calls will still be interrupted
    const faulty: bool        // whether calls may fail

    ghost predicate Valid()
      reads this
    {
      pos <= |stream|
    }

    ghost function Rest(): string
      requires Valid()
      reads this
    {
      stream[pos..]
    }

    constructor (stream: string, interrupts: nat, faulty: bool)
      ensures Valid() && Rest() == stream == this.stream && pos == 0 && this.faulty == faulty
    {
      this.stream, this.pos, this.interrupts, this.faulty := stream, 0, interrupts, faulty;
    }

    /** poll() on this channel alone: 1 ready, -2 interrupted, -1 anything else. */
    method Poll() returns (r: int)
      requires Valid()
      modifies this
      ensures Valid() && pos == old(pos) && r in {1, -1, -2}
      ensures r == -1 ==> faulty
      ensures if r == -2 then interrupts < old(interrupts) else interrupts == old(interrupts)
    {
      var coin: bool, fault: bool := *, *;
      r := 1;
      if coin && interrupts > 0 {
        interrupts := interrupts - 1;
        r := -2;
      } else if fault && faulty {
        r := -1;
      }
    }

    /** read(): -1 failed, -2 interrupted, otherwise the number of bytes. Zero
        means that the stream has ended or that no byte was asked for. */
    method Read(count: nat) returns (n: int, data: string)
      requires Valid()
      modifies this
      ensures Valid() && -2 <= n
      ensures n == -1 ==> faulty
      ensures if n == -2 then interrupts < old(interrupts) else interrupts == old(interrupts)
      ensures n < 0 ==> pos == old(pos)
      ensures n >= 0 ==>
        && pos == old(pos) + n && n <= count && data == stream[old(pos)..pos]
        && (n == 0 <==> count == 0 || old(pos) == |stream|)
    {
      var coin: bool, fault: bool := *, *;
      data := "";
      if coin && interrupts > 0 {
        interrupts := interrupts - 1;
        return -2, data;
      } else if fault && faulty {
        return -1, data;
      }
      var most := Min(count, |stream| - pos);
      n := 0;
      if most > 0 {
        var k: nat :| 1 <= k <= most;
        n := k;
      }
      data := stream[pos..pos + n];
      pos := pos + n;
    }
  }

  /** The writing end of a byte stream. An unreliable one may write less than it
      is given, or fail. */
  class Sink {
    var written: string
    var interrupts: nat
    ghost var failures: nat   // how many calls have failed
    const reliable: bool

    constructor (interrupts: nat, reliable: bool)
      ensures written == "" && this.reliable == reliable
    {
      this.written, this.interrupts, this.reliable := "", interrupts, reliable;
      failures := 0;
    }

    /** write(): -1 failed, -2 interrupted, otherwise the number of bytes. */
    method Write(data: string) returns (n: int)
      modifies this
      ensures -2 <= n <= |data|
      ensures if n == -2 then interrupts < old(interrupts) else interrupts == old(interrupts)
      ensures n < 0 ==> written == old(written)
      ensures n >= 0 ==> written == old(written) + data[..n]
      ensures failures == old(failures) + if n == -1 then 1 else 0
      ensures reliable ==> n == -2 || n == |data|
    {
      var coin: bool := *;
      if coin && interrupts > 0 {
        interrupts := interrupts - 1;
        return -2;
      }
      n := |data|;
      if !reliable {
        n :| -1 <= n <= |data|;
      }
      if n >= 0 {
        written := written + data[..n];
      } else {
        failures := failures + 1;
      }
    }

    /** writeWrapper: tries again when interrupted, but not when short. */
    method WriteWrapper(data: string) returns (n: int)
      modifies this
      ensures -1 <= n <= |data|
      ensures n < 0 ==> written == old(written)
      ensures n >= 0 ==> written == old(written) + data[..n]
      ensures failures == old(failures) + if n == -1 then 1 else 0
      ensures reliable ==> n == |data|
    {
      n := Write(data);
      while n == -2
        invariant -2 <= n <= |data|
        invariant n < 0 ==> written == old(written)
        invariant n >= 0 ==> written == old(written) + data[..n]
        invariant failures == old(failures) + if n == -1 then 1 else 0
        invariant reliable ==> n == -2 || n == |data|
        decreases interrupts, n == -2
      {
        n := Write(data);
      }
    }
  }

  class Buffer {
    const buf: array<char>
    var buflen: nat

    ghost predicate Valid()
      reads this, buf
    {
      buflen < buf.Length && buf[buflen] == NUL
    }

    ghost function Content(): (s: string)
      requires Valid()
      reads this, buf
      ensures |s| == buflen < buf.Length
    {
      buf[..buflen]
    }

    /** createBuf */
    constructor (maxsize: nat)
      requires maxsize > 0
      ensures Valid() && Content() == "" && buf.Length == maxsize && fresh(buf)
    {
      buf := new char[maxsize](_ => NUL);
      buflen := 0;
    }

    /** flushBuf */
    method Flush()
      requires Valid()
      modifies this, buf
      ensures Valid() && Content() == ""
    {
      buf[0] := NUL;
      buflen := 0;
    }

    /** readToBuf: appends what one read delivers. It asks for at most the free
        room less the terminator, so a full buffer reads as an ended stream. */
    method ReadFrom(ch: Channel) returns (count: int)
      requires Valid() && ch.Valid()
      modifies this, buf, ch
      ensures Valid() && ch.Valid() && -2 <= count
      ensures count == -1 ==> ch.faulty
      ensures if count == -2 then ch.interrupts < old(ch.interrupts) else ch.interrupts == old(ch.interrupts)
      ensures count < 0 ==> ch.pos == old(ch.pos) && Content() == old(Content())
      ensures count >= 0 ==>
        && ch.pos == old(ch.pos) + count
        && Content() == old(Content()) + ch.stream[old(ch.pos)..ch.pos]
        && (count == 0 <==> old(buflen) == buf.Length - 1 || old(ch.pos) == |ch.stream|)
    {
      var data;
      count, data := ch.Read(buf.Length - buflen - 1);
      if count < 0 {
        return;
      }
      var at := buflen;
      forall k | 0 <= k < count {
        buf[at + k] := data[k];
      }
      buflen := at + count;
      buf[buflen] := NUL;
    }

    /** writeBuf: the buffer is flushed whatever the write did. */
    method WriteTo(fd: Sink) returns (n: int)
      requires Valid()
      modifies this, buf, fd
      ensures Valid() && Content() == ""
      ensures -1 <= n <= |old(Content())|
      ensures n < 0 ==> fd.written == old(fd.written)
      ensures n >= 0 ==> fd.written == old(fd.written) + old(Content())[..n]
      ensures fd.reliable ==> n == |old(Content())|
    {
      n := fd.WriteWrapper(buf[..buflen]);
      Flush();
    }
  }
}
