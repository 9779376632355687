/**
 A file as its byte content behind system calls that move fewer bytes than asked, are
 interrupted a finite but arbitrary number of times, or fail; and the loops around them.
 */
module FileIo {
  import opened Bytes

  /** What a system call reports: bytes moved, EINTR, or any other errno. */
  datatype Io = Moved(count: nat) | Interrupted | Failed

  /** What a retry loop reports. */
  datatype Outcome = Done | EndOfFile | IoError | OffsetOverflow

  /** The content after writing `data` at `offset`. */
  function Overwrite(s: seq<byte>, offset: nat, data: seq<byte>): (t: seq<byte>)
    requires offset <= |s|
    ensures |t| == if offset + |data| < |s| then |s| else offset + |data|
    ensures t[..offset] == s[..offset]
  {
    s[..offset] + data + (if offset + |data| < |s| then s[offset + |data|..] else [])
  }

  /** The content after ftruncate. */
  function Resize(s: seq<byte>, length: nat): (t: seq<byte>)
    ensures |t| == length
  {
    if length <= |s| then s[..length] else s + Zeros(length - |s|)
  }

  /** Writing the rest of a buffer after a first part of it writes the whole. */
  lemma OverwriteTwice(s: seq<byte>, offset: nat, first: seq<byte>, second: seq<byte>)
    requires offset <= |s|
    ensures offset + |first| <= |Overwrite(s, offset, first)|
    ensures Overwrite(Overwrite(s, offset, first), offset + |first|, second) == Overwrite(s, offset, first + second)
  {
  }

  class File {
    var bytes: seq<byte>
    /** How many more system calls a signal will interrupt. */
    var interrupts: nat
    const writable: bool
    /** Whether no call ever fails: then signals and short transfers are all that can go wrong. */
    const reliable: bool

    constructor (content: seq<byte>, signals: nat, readWrite: bool, faultless: bool)
      ensures bytes == content && interrupts == signals && writable == readWrite && reliable == faultless
    {
      bytes, interrupts, writable, reliable := content, signals, readWrite, faultless;
    }

    /** A file never outgrows the offset type. */
    ghost predicate Valid()
      reads this
    {
      |bytes| <= OFF_MAX
    }

    method PRead(buffer: array<byte>, at: nat, want: nat, offset: nat) returns (r: Io)
      requires at + want <= buffer.Length && 0 < want
      modifies this`interrupts, buffer
      ensures r.Interrupted? ==> interrupts < old(interrupts)
      ensures interrupts <= old(interrupts)
      ensures r.Moved? ==> r.count <= want && (r.count == 0 <==> |bytes| <= offset)
      ensures r.Moved? && r.count > 0 ==>
                && offset + r.count <= |bytes|
                && buffer[..] == Splice(old(buffer[..]), at, bytes[offset..offset + r.count])
      ensures !r.Moved? || r.count == 0 ==> buffer[..] == old(buffer[..])
      ensures reliable ==> !r.Failed?
    {
      var fails: bool := *;
      if fails && !reliable {
        return Failed;
      }
      if interrupts > 0 {
        if * {
          interrupts := interrupts - 1;
          return Interrupted;
        }
      }
      if |bytes| <= offset {
        return Moved(0);
      }
      var n: nat :| 1 <= n <= want && n <= |bytes| - offset;
      hide Splice;
      CopyIn(buffer, at, bytes[offset..offset + n]);
      return Moved(n);
    }

    method PWrite(data: seq<byte>, offset: nat) returns (r: Io)
      requires Valid() && offset <= |bytes| && 0 < |data|
      modifies this
      ensures Valid()
      ensures r.Interrupted? ==> interrupts < old(interrupts)
      ensures interrupts <= old(interrupts)
      ensures r.Moved? ==> r.count <= |data| && bytes == Overwrite(old(bytes), offset, data[..r.count])
      ensures !r.Moved? ==> bytes == old(bytes)
      ensures reliable && offset + |data| <= OFF_MAX ==> !r.Failed? && (r.Moved? ==> r.count > 0)
    {
      var fails: bool := *;
      if fails && !reliable {
        return Failed;
      }
      if interrupts > 0 {
        if * {
          interrupts := interrupts - 1;
          return Interrupted;
        }
      }
      if offset == OFF_MAX {
        return Failed;
      }
      var n: nat :| 0 <= n <= |data| && offset + n <= OFF_MAX && (reliable ==> n > 0);
      bytes := Overwrite(bytes, offset, data[..n]);
      return Moved(n);
    }

    method FTruncate(length: nat) returns (r: Io)
      requires Valid() && length <= OFF_MAX
      modifies this
      ensures Valid()
      ensures r.Interrupted? ==> interrupts < old(interrupts)
      ensures interrupts <= old(interrupts)
      ensures bytes == if r.Moved? then Resize(old(bytes), length) else old(bytes)
      ensures reliable ==> !r.Failed? && (old(interrupts) == 0 ==> r.Moved?)
    {
      var fails: bool := *;
      if fails && !reliable {
        return Failed;
      }
      if interrupts > 0 {
        if * {
          interrupts := interrupts - 1;
          return Interrupted;
        }
      }
      bytes := Resize(bytes, length);
      return Moved(0);
    }

    method FSync() returns (r: Io)
      modifies this`interrupts
      ensures r.Interrupted? ==> interrupts < old(interrupts)
      ensures interrupts <= old(interrupts)
      ensures reliable ==> !r.Failed? && (old(interrupts) == 0 ==> r.Moved?)
    {
      var fails: bool := *;
      if fails && !reliable {
        return Failed;
      }
      if interrupts > 0 {
        if * {
          interrupts := interrupts - 1;
          return Interrupted;
        }
      }
      return Moved(0);
    }
  }

  /** One more piece read behind the first `consumed` bytes of the buffer. */
  lemma SplicePiece(before: seq<byte>, content: seq<byte>, offset: nat, consumed: nat, n: nat, length: nat)
    requires consumed + n <= length <= |before| && offset + consumed + n <= |content|
    requires before[..consumed] == content[offset..offset + consumed]
    ensures var after := Splice(before, consumed, content[offset + consumed..offset + consumed + n]);
            && |after| == |before| && after[length..] == before[length..]
            && after[..consumed + n] == content[offset..offset + consumed + n]
  {
    var after := Splice(before, consumed, content[offset + consumed..offset + consumed + n]);
    assert after[..consumed] == before[..consumed];
    assert after[..consumed + n] == after[..consumed] + after[consumed..consumed + n];
    assert after[consumed..consumed + n] == content[offset + consumed..offset + consumed + n];
  }

  /** Reads exactly `length` bytes at `offset` into the front of `buffer`. */
  method ReadExactAt(file: File, buffer: array<byte>, length: nat, offset: nat) returns (outcome: Outcome)
    requires file.Valid() && length <= buffer.Length
    modifies file`interrupts, buffer
    ensures outcome == Done ==> offset + length <= |file.bytes| || length == 0
    ensures outcome == Done && length > 0 ==> buffer[..length] == file.bytes[offset..offset + length]
    ensures offset + length <= |file.bytes| ==> outcome == Done || (outcome == IoError && !file.reliable)
    ensures buffer[length..] == old(buffer[length..])
  {
    hide Splice;
    var consumed := 0;
    while consumed < length
      invariant 0 <= consumed <= length
      invariant consumed > 0 ==> offset + consumed <= |file.bytes| && buffer[..consumed] == file.bytes[offset..offset + consumed]
      invariant buffer[length..] == old(buffer[length..])
      decreases file.interrupts, length - consumed
    {
      if offset + consumed > OFF_MAX {
        return OffsetOverflow;
      }
      ghost var before := buffer[..];
      var r := file.PRead(buffer, consumed, length - consumed, offset + consumed);
      match r
      case Moved(n) =>
        if n == 0 {
          return EndOfFile;
        }
        SplicePiece(before, file.bytes, offset, consumed, n, length);
        consumed := consumed + n;
      case Interrupted =>
      case Failed =>
        return IoError;
    }
    return Done;
  }

  /** Writes all of `data` at `offset`; on failure some first part of it has been written. */
  method WriteExactAt(file: File, data: seq<byte>, offset: nat) returns (outcome: Outcome, ghost written: nat)
    requires file.Valid() && offset <= |file.bytes|
    modifies file
    ensures file.Valid()
    ensures written <= |data| && file.bytes == Overwrite(old(file.bytes), offset, data[..written])
    ensures outcome == Done ==> written == |data|
    ensures file.reliable && offset + |data| <= OFF_MAX ==> outcome == Done
    ensures file.interrupts <= old(file.interrupts)
  {
    var consumed := 0;
    written := 0;
    assert Overwrite(file.bytes, offset, data[..0]) == file.bytes;
    while consumed < |data|
      invariant 0 <= consumed <= |data| && written == consumed
      invariant file.Valid() && offset + consumed <= |file.bytes|
      invariant file.bytes == Overwrite(old(file.bytes), offset, data[..consumed])
      invariant file.interrupts <= old(file.interrupts)
      decreases file.interrupts, |data| - consumed
    {
      if offset + consumed > OFF_MAX {
        return OffsetOverflow, written;
      }
      var r := file.PWrite(data[consumed..], offset + consumed);
      match r
      case Moved(n) =>
        OverwriteTwice(old(file.bytes), offset, data[..consumed], data[consumed..][..n]);
        assert data[..consumed] + data[consumed..][..n] == data[..consumed + n];
        if n == 0 {
          return IoError, written;
        }
        consumed := consumed + n;
        written := consumed;
      case Interrupted =>
      case Failed =>
        return IoError, written;
    }
    return Done, written;
  }

  method Sync(file: File) returns (outcome: Outcome)
    modifies file`interrupts
    ensures outcome == Done || (outcome == IoError && !file.reliable)
  {
    while true
      decreases file.interrupts
    {
      var r := file.FSync();
      match r
      case Moved(_) => return Done;
      case Failed => return IoError;
      case Interrupted =>
    }
  }

  method Truncate(file: File, length: nat) returns (outcome: Outcome)
    requires file.Valid()
    modifies file
    ensures file.Valid()
    ensures file.bytes == if outcome == Done then Resize(old(file.bytes), length) else old(file.bytes)
    ensures length <= OFF_MAX ==> outcome == Done || (outcome == IoError && !file.reliable)
  {
    if length > OFF_MAX {
      return OffsetOverflow;
    }
    while true
      invariant file.Valid() && file.bytes == old(file.bytes)
      decreases file.interrupts
    {
      var r := file.FTruncate(length);
      match r
      case Moved(_) => return Done;
      case Failed => return IoError;
      case Interrupted =>
    }
  }
}
