// The buffered protobuf writer. A stream writes into a byte buffer and hands
// full buffers to its target: a caller's fixed slice (no refill possible), a
// caller's growable vector (the buffer is the vector's spare capacity), or an
// `io::Write` sink (an 8 KiB buffer of its own).
module CodedOutput {
  import opened Wrappers
  import opened WireFormat
  import opened Unknown
  import Scalar

  const OUTPUT_STREAM_BUFFER_SIZE: nat := 8 * 1024

  /** An `io::Write` sink: the bytes handed to it, in order. */
  class Sink {
    var data: seq<byte>

    constructor (contents: seq<byte>)
      ensures data == contents
    {
      data := contents;
    }
  }

  /** A `Vec<u8>`: its contents and its capacity. */
  class ByteVec {
    var data: seq<byte>
    var capacity: nat

    constructor (contents: seq<byte>, capacity: nat)
      requires |contents| <= capacity
      ensures data == contents && this.capacity == capacity
    {
      data := contents;
      this.capacity := capacity;
    }
  }

  function Max(a: nat, b: nat): nat
  {
    if a < b then b else a
  }

  /** Capacity of a vector of `len` bytes after `reserve(additional)`: kept
      when the spare room suffices, otherwise the largest of twice the
      capacity, the required capacity and 8. */
  function ReservedCapacity(len: nat, capacity: nat, additional: nat): (c: nat)
    requires len <= capacity
    ensures c >= len + additional && c >= capacity
    ensures capacity - len >= additional <==> c == capacity
  {
    if capacity - len >= additional then capacity
    else Max(Max(2 * capacity, len + additional), 8)
  }

  datatype Target =
    | WriteTarget(writer: Sink)
    | VecTarget(vec: ByteVec)
    | BytesTarget(slice: array<byte>)

  /** The only failure the model keeps: a slice target with too little room. */
  datatype Error = SliceTooSmall

  type Outcome = Result<(), Error>

  /** What every write promises about the bytes `e` it was asked for:
      success appends them, and failure happens exactly on a slice target
      that cannot hold them all. */
  predicate AppendedSpec(before: seq<byte>, after: seq<byte>, e: seq<byte>, ok: bool, isSlice: bool, sliceLen: nat)
  {
    (ok ==> after == before + e)
    && (!ok <==> isSlice && |before| + |e| > sliceLen)
  }

  /** Two writes in a row, the second one only after the first succeeded. */
  lemma Chain(w0: seq<byte>, w1: seq<byte>, w2: seq<byte>, t: seq<byte>, e: seq<byte>,
              ok1: bool, ok2: bool, isSlice: bool, sliceLen: nat)
    requires AppendedSpec(w0, w1, t, ok1, isSlice, sliceLen)
    requires ok1 ==> AppendedSpec(w1, w2, e, ok2, isSlice, sliceLen)
    requires !ok1 ==> !ok2
    ensures AppendedSpec(w0, w2, t + e, ok2, isSlice, sliceLen)
  {
    if ok1 {
      assert w1 + e == w0 + (t + e);
    }
  }

  /** Writes `v` as a varint at `at` in `buf`, one seven-bit group per byte,
      and returns the number of bytes used. */
  method EncodeVarintInto(buf: array<byte>, at: nat, v: nat) returns (len: nat)
    requires at + |EncodeVarint(v)| <= buf.Length
    modifies buf
    ensures len == |EncodeVarint(v)|
    ensures buf[at..at + len] == EncodeVarint(v)
    ensures buf[..at] == old(buf[..at])
  {
    var x := v;
    len := 0;
    while x >= 128
      invariant at + len + |EncodeVarint(x)| <= buf.Length
      invariant buf[at..at + len] + EncodeVarint(x) == EncodeVarint(v)
      invariant buf[..at] == old(buf[..at])
      decreases x
    {
      ghost var done := buf[at..at + len];
      assert EncodeVarint(x) == [(x % 128 + 128) as byte] + EncodeVarint(x / 128);
      buf[at + len] := (x % 128 + 128) as byte;
      assert buf[at..at + len + 1] == done + [(x % 128 + 128) as byte];
      x := x / 128;
      len := len + 1;
    }
    ghost var done := buf[at..at + len];
    buf[at + len] := x as byte;
    assert buf[at..at + len + 1] == done + [x as byte];
    len := len + 1;
  }

  // ---------------------------------------------------------------- counters

  /** `(pos_within_buf, pos_of_buffer_start)` after `write_raw_bytes` of
      `len` bytes on a Write target whose buffer holds `bufLen` bytes, as
      the source updates them: a chunk too large for the buffer goes
      straight to the writer and is not counted. */
  function RawBytesCountersAsWritten(pos: nat, start: nat, bufLen: nat, len: nat): (nat, nat)
    requires pos <= bufLen
  {
    if len <= bufLen - pos then (pos + len, start)
    else if len < bufLen then (len, start + pos)
    else (0, start + pos)
  }

  /** Writing one buffer's worth of bytes to a fresh Write-target stream
      leaves `total_bytes_written` at 0. */
  lemma WriteTargetUndercounts()
    ensures var (p, s) := RawBytesCountersAsWritten(0, 0, OUTPUT_STREAM_BUFFER_SIZE, OUTPUT_STREAM_BUFFER_SIZE + 1);
      p + s == 0
  {
  }

  /** The counters with the direct write counted, as the Vec branch does. */
  function RawBytesCounters(pos: nat, start: nat, bufLen: nat, len: nat): (nat, nat)
    requires pos <= bufLen
  {
    if len <= bufLen - pos then (pos + len, start)
    else if len < bufLen then (len, start + pos)
    else (0, start + pos + len)
  }

  /** With the correction the total always grows by exactly the bytes written. */
  lemma RawBytesCountersExact(pos: nat, start: nat, bufLen: nat, len: nat)
    requires pos <= bufLen
    ensures var (p, s) := RawBytesCounters(pos, start, bufLen, len);
      p + s == pos + start + len && p <= bufLen
  {
  }

  // ---------------------------------------------------------------- the stream

  class CodedOutputStream {
    const target: Target
    var buffer: array<byte>
    var posWithinBuf: nat
    var posOfBufferStart: nat
    /** Every byte written through the stream, in order. */
    ghost var written: seq<byte>
    /** What the vector or the sink held when the stream was made. */
    ghost const initial: seq<byte>
    ghost var Repr: set<object>

    ghost predicate Valid()
      reads this, Repr
    {
      this in Repr && buffer in Repr
      && posWithinBuf <= buffer.Length
      && |written| == posOfBufferStart + posWithinBuf
      && written[posOfBufferStart..] == buffer[..posWithinBuf]
      && match target
         case BytesTarget(slice) =>
           Repr == {this, buffer} && buffer == slice && posOfBufferStart == 0
         case VecTarget(v) =>
           Repr == {this, buffer, v}
           && v.data == initial + written[..posOfBufferStart]
           && |v.data| + buffer.Length <= v.capacity
         case WriteTarget(w) =>
           Repr == {this, buffer, w}
           && w.data == initial + written[..posOfBufferStart]
           && buffer.Length == OUTPUT_STREAM_BUFFER_SIZE
    }

    /** Length of the slice of a slice target; no other target has a limit. */
    function SliceLength(): nat
    {
      if target.BytesTarget? then target.slice.Length else 0
    }

    ghost predicate Appended(before: seq<byte>, e: seq<byte>, r: Outcome)
      reads this
    {
      AppendedSpec(before, written, e, r.Ok?, target.BytesTarget?, SliceLength())
    }

    /** `CodedOutputStream::new`: buffered writing to an `io::Write`. */
    constructor ForWrite(writer: Sink)
      ensures Valid() && fresh(buffer)
      ensures target == WriteTarget(writer) && written == [] && initial == writer.data
    {
      target := WriteTarget(writer);
      buffer := new byte[OUTPUT_STREAM_BUFFER_SIZE];
      posWithinBuf, posOfBufferStart := 0, 0;
      written, initial := [], writer.data;
      new;
      Repr := {this, buffer, writer};
    }

    /** `CodedOutputStream::bytes`: the slice itself is the buffer. */
    constructor ForBytes(slice: array<byte>)
      ensures Valid()
      ensures target == BytesTarget(slice) && written == [] && initial == []
    {
      target := BytesTarget(slice);
      buffer := slice;
      posWithinBuf, posOfBufferStart := 0, 0;
      written, initial := [], [];
      new;
      Repr := {this, buffer};
    }

    /** `CodedOutputStream::vec`: starts with an empty buffer, so the first
        write reserves room in the vector. */
    constructor ForVec(vec: ByteVec)
      requires |vec.data| <= vec.capacity
      ensures Valid() && fresh(buffer) && buffer.Length == 0
      ensures target == VecTarget(vec) && written == [] && initial == vec.data
    {
      target := VecTarget(vec);
      buffer := new byte[0];
      posWithinBuf, posOfBufferStart := 0, 0;
      written, initial := [], vec.data;
      new;
      Repr := {this, buffer, vec};
    }

    /** `total_bytes_written`. */
    function TotalBytesWritten(): (n: nat)
      reads this, Repr
      requires Valid()
      ensures n == |written|
    {
      posOfBufferStart + posWithinBuf
    }

    /** `check_eof`, whose assertion holds exactly when the slice is full;
        on other targets it panics. */
    function CheckEof(): (full: bool)
      reads this, Repr
      requires Valid() && target.BytesTarget?
      ensures full <==> |written| == target.slice.Length
    {
      buffer.Length == posWithinBuf
    }

    /** `refresh_buffer`: hand the filled part of the buffer to the target. */
    method RefreshBuffer() returns (r: Outcome)
      requires Valid()
      modifies Repr
      ensures Valid() && fresh(Repr - old(Repr))
      ensures written == old(written)
      ensures r.Err? <==> target.BytesTarget?
      ensures target.BytesTarget? ==> posWithinBuf == old(posWithinBuf)
      ensures !target.BytesTarget? ==> posWithinBuf == 0
      ensures target.WriteTarget? ==> buffer == old(buffer)
      ensures target.VecTarget? ==>
        target.vec.capacity == ReservedCapacity(|old(target.vec.data)| + old(posWithinBuf), old(target.vec.capacity), 1)
        && |target.vec.data| + buffer.Length == target.vec.capacity && buffer.Length >= 1
    {
      match target
      case WriteTarget(w) =>
        w.data := w.data + buffer[..posWithinBuf];
        posOfBufferStart := posOfBufferStart + posWithinBuf;
        posWithinBuf := 0;
        r := Ok(());
      case VecTarget(v) =>
        v.data := v.data + buffer[..posWithinBuf];
        v.capacity := ReservedCapacity(|v.data|, v.capacity, 1);
        buffer := new byte[v.capacity - |v.data|];
        Repr := {this, buffer, v};
        posOfBufferStart := posOfBufferStart + posWithinBuf;
        posWithinBuf := 0;
        r := Ok(());
      case BytesTarget(_) =>
        r := Err(SliceTooSmall);
    }

    /** `flush`: like a refresh, except that a vector is not asked for more
        room and a slice is left as it is. */
    method Flush() returns (r: Outcome)
      requires Valid()
      modifies Repr
      ensures Valid() && fresh(Repr - old(Repr))
      ensures r.Ok? && written == old(written)
      ensures target.BytesTarget? ==> posWithinBuf == old(posWithinBuf)
      ensures !target.BytesTarget? ==> posWithinBuf == 0
      ensures target.VecTarget? ==>
        target.vec.capacity == old(target.vec.capacity)
        && |target.vec.data| + buffer.Length == target.vec.capacity
    {
      match target
      case BytesTarget(_) =>
        r := Ok(());
      case VecTarget(v) =>
        v.data := v.data + buffer[..posWithinBuf];
        buffer := new byte[v.capacity - |v.data|];
        Repr := {this, buffer, v};
        posOfBufferStart := posOfBufferStart + posWithinBuf;
        posWithinBuf := 0;
        r := Ok(());
      case WriteTarget(_) =>
        r := RefreshBuffer();
    }

    /** Copies `bytes` into the buffer after the filled part. */
    method CopyIntoBuffer(bytes: seq<byte>)
      requires Valid() && posWithinBuf + |bytes| <= buffer.Length
      modifies this`posWithinBuf, this`written, buffer
      ensures Valid()
      ensures written == old(written) + bytes && posWithinBuf == old(posWithinBuf) + |bytes|
    {
      ghost var filled := buffer[..posWithinBuf];
      forall i | 0 <= i < |bytes| {
        buffer[posWithinBuf + i] := bytes[i];
      }
      assert buffer[..posWithinBuf + |bytes|] == filled + bytes;
      posWithinBuf := posWithinBuf + |bytes|;
      written := written + bytes;
    }

    /** `write_raw_byte`. */
    method WriteRawByte(b: byte) returns (r: Outcome)
      requires Valid()
      modifies Repr
      ensures Valid() && fresh(Repr - old(Repr))
      ensures Appended(old(written), [b], r)
      ensures r.Err? ==> written == old(written)
      ensures r.Ok? ==> posWithinBuf == (if old(posWithinBuf) < old(buffer.Length) then old(posWithinBuf) + 1 else 1)
      ensures target.VecTarget? ==>
        target.vec.capacity == (if old(posWithinBuf) == old(buffer.Length)
          then ReservedCapacity(|old(target.vec.data)| + old(posWithinBuf), old(target.vec.capacity), 1)
          else old(target.vec.capacity))
        && (old(posWithinBuf) < old(buffer.Length) ==> buffer == old(buffer) && target.vec.data == old(target.vec.data))
        && (old(posWithinBuf) == old(buffer.Length) ==> |target.vec.data| + buffer.Length == target.vec.capacity)
    {
      if posWithinBuf == buffer.Length {
        r := RefreshBuffer();
        if r.Err? {
          return;
        }
      }
      CopyIntoBuffer([b]);
      r := Ok(());
    }

    /** `write_raw_bytes`: into the buffer when they fit; otherwise refresh,
        then into the buffer when they fit in it strictly, else straight to
        the target. */
    method WriteRawBytes(bytes: seq<byte>) returns (r: Outcome)
      requires Valid()
      modifies Repr
      ensures Valid() && fresh(Repr - old(Repr))
      ensures Appended(old(written), bytes, r)
      ensures r.Err? ==> written == old(written)
      ensures target.WriteTarget? ==>
        (posWithinBuf, posOfBufferStart)
        == RawBytesCounters(old(posWithinBuf), old(posOfBufferStart), buffer.Length, |bytes|)
    {
      if |bytes| <= buffer.Length - posWithinBuf {
        CopyIntoBuffer(bytes);
        r := Ok(());
        return;
      }
      r := RefreshBuffer();
      if r.Err? {
        return;
      }
      if posWithinBuf + |bytes| < buffer.Length {
        CopyIntoBuffer(bytes);
        return;
      }
      WriteDirect(bytes);
    }

    /** The last branch of `write_raw_bytes`: after a refresh, bytes that do
        not fit in the buffer go straight to the writer or the vector. */
    method WriteDirect(bytes: seq<byte>)
      requires Valid() && posWithinBuf == 0 && !target.BytesTarget?
      modifies Repr
      ensures Valid() && fresh(Repr - old(Repr))
      ensures written == old(written) + bytes
      ensures posWithinBuf == 0 && posOfBufferStart == old(posOfBufferStart) + |bytes|
      ensures target.WriteTarget? ==> buffer == old(buffer)
    {
      written := written + bytes;
      posOfBufferStart := posOfBufferStart + |bytes|;
      match target
      case WriteTarget(w) =>
        w.data := w.data + bytes;
      case VecTarget(v) =>
        v.capacity := ReservedCapacity(|v.data|, v.capacity, |bytes|);
        v.data := v.data + bytes;
        buffer := new byte[v.capacity - |v.data|];
        Repr := {this, buffer, v};
    }

    /** On a slice target everything written is in the slice. */
    lemma WrittenFits()
      requires Valid()
      ensures target.BytesTarget? ==> |written| <= SliceLength()
    {
    }

    /** The fast path of the varint writers: encode straight into the buffer. */
    method WriteVarintInBuffer(v: nat)
      requires Valid() && posWithinBuf + |EncodeVarint(v)| <= buffer.Length
      modifies this`posWithinBuf, this`written, buffer
      ensures Valid()
      ensures written == old(written) + EncodeVarint(v)
    {
      ghost var filled := buffer[..posWithinBuf];
      var len := EncodeVarintInto(buffer, posWithinBuf, v);
      assert buffer[..posWithinBuf + len] == filled + EncodeVarint(v);
      posWithinBuf := posWithinBuf + len;
      written := written + EncodeVarint(v);
    }

    /** `write_raw_varint32`: encoded in place when five bytes are free,
        otherwise through a five-byte scratch buffer and `write_raw_bytes`. */
    method WriteRawVarint32(v: u32) returns (r: Outcome)
      requires Valid()
      modifies Repr
      ensures Valid() && fresh(Repr - old(Repr))
      ensures Appended(old(written), EncodeVarint(v), r)
      ensures r.Err? ==> written == old(written)
    {
      VarintSizeIsLength(v);
      if buffer.Length - posWithinBuf >= 5 {
        WriteVarintInBuffer(v);
        r := Ok(());
      } else {
        var scratch := new byte[5];
        var len := EncodeVarintInto(scratch, 0, v);
        r := WriteRawBytes(scratch[..len]);
      }
    }

    /** `write_raw_varint64`: the same with ten bytes. */
    method WriteRawVarint64(v: u64) returns (r: Outcome)
      requires Valid()
      modifies Repr
      ensures Valid() && fresh(Repr - old(Repr))
      ensures Appended(old(written), EncodeVarint(v), r)
      ensures r.Err? ==> written == old(written)
    {
      VarintSizeIsLength(v);
      if buffer.Length - posWithinBuf >= 10 {
        WriteVarintInBuffer(v);
        r := Ok(());
      } else {
        var scratch := new byte[10];
        var len := EncodeVarintInto(scratch, 0, v);
        r := WriteRawBytes(scratch[..len]);
      }
    }

    /** `write_raw_little_endian32`. */
    method WriteRawLittleEndian32(v: u32) returns (r: Outcome)
      requires Valid()
      modifies Repr
      ensures Valid() && fresh(Repr - old(Repr))
      ensures Appended(old(written), LittleEndian32(v), r)
    {
      r := WriteRawBytes(LittleEndian32(v));
    }

    /** `write_raw_little_endian64`. */
    method WriteRawLittleEndian64(v: u64) returns (r: Outcome)
      requires Valid()
      modifies Repr
      ensures Valid() && fresh(Repr - old(Repr))
      ensures Appended(old(written), LittleEndian64(v), r)
    {
      r := WriteRawBytes(LittleEndian64(v));
    }

    /** `write_tag`. */
    method WriteTag(n: FieldNumber, wt: WireType) returns (r: Outcome)
      requires Valid()
      modifies Repr
      ensures Valid() && fresh(Repr - old(Repr))
      ensures Appended(old(written), TagBytes(n, wt), r)
    {
      r := WriteRawVarint32(TagValue(n, wt));
    }

    /** The `write_<kind>_no_tag` family: each kind goes to the primitive
        write the source calls for it. */
    method WriteScalarNoTag(k: Scalar.ScalarKind, v: int) returns (r: Outcome)
      requires Valid() && Scalar.InRange(k, v)
      modifies Repr
      ensures Valid() && fresh(Repr - old(Repr))
      ensures Appended(old(written), Scalar.NoTag(k, v), r)
    {
      match k
      case UInt64 => r := WriteRawVarint64(v);
      case UInt32 => r := WriteRawVarint32(v);
      case Int64 => r := WriteRawVarint64(I64AsU64(v));
      case Int32 => r := WriteRawVarint64(I32AsU64(v));
      case SInt64 => r := WriteRawVarint64(ZigZag64(v));
      case SInt32 => r := WriteRawVarint32(ZigZag32(v));
      case Fixed64 => r := WriteRawLittleEndian64(v);
      case Fixed32 => r := WriteRawLittleEndian32(v);
      case SFixed64 => r := WriteRawLittleEndian64(I64AsU64(v));
      case SFixed32 => r := WriteRawLittleEndian32(I32AsU32(v));
      case Bool => r := WriteRawVarint32(v);
      case Enum => r := WriteRawVarint64(I32AsU64(v));
    }

    /** The `write_<kind>` family: the tag for the kind's wire type, then the value. */
    method WriteScalar(k: Scalar.ScalarKind, n: FieldNumber, v: int) returns (r: Outcome)
      requires Valid() && Scalar.InRange(k, v)
      modifies Repr
      ensures Valid() && fresh(Repr - old(Repr))
      ensures Appended(old(written), Scalar.Field(k, n, v), r)
    {
      ghost var w0 := written;
      r := WriteTag(n, Scalar.WireTypeOf(k));
      ghost var w1, ok1 := written, r.Ok?;
      if r.Ok? {
        r := WriteScalarNoTag(k, v);
      }
      Chain(w0, w1, written, TagBytes(n, Scalar.WireTypeOf(k)), Scalar.NoTag(k, v), ok1, r.Ok?, target.BytesTarget?, SliceLength());
    }

    /** `write_bytes_no_tag`: the length cast to u32, then the bytes. */
    method WriteBytesNoTag(bytes: seq<byte>) returns (r: Outcome)
      requires Valid()
      modifies Repr
      ensures Valid() && fresh(Repr - old(Repr))
      ensures Appended(old(written), BytesNoTag(bytes), r)
    {
      ghost var w0 := written;
      r := WriteRawVarint32(TruncU32(|bytes|));
      ghost var w1, ok1 := written, r.Ok?;
      if r.Ok? {
        r := WriteRawBytes(bytes);
      }
      Chain(w0, w1, written, EncodeVarint(TruncU32(|bytes|)), bytes, ok1, r.Ok?, target.BytesTarget?, SliceLength());
    }

    /** `write_bytes`: a length-delimited field. */
    method WriteBytes(n: FieldNumber, bytes: seq<byte>) returns (r: Outcome)
      requires Valid()
      modifies Repr
      ensures Valid() && fresh(Repr - old(Repr))
      ensures Appended(old(written), TagBytes(n, WireType.LengthDelimited) + BytesNoTag(bytes), r)
    {
      ghost var w0 := written;
      r := WriteTag(n, WireType.LengthDelimited);
      ghost var w1, ok1 := written, r.Ok?;
      if r.Ok? {
        r := WriteBytesNoTag(bytes);
      }
      Chain(w0, w1, written, TagBytes(n, WireType.LengthDelimited), BytesNoTag(bytes), ok1, r.Ok?, target.BytesTarget?, SliceLength());
    }

    /** `write_repeated_packed_<kind>_no_tag`: the values one after another. */
    method WriteRepeatedPackedNoTag(k: Scalar.ScalarKind, values: seq<int>) returns (r: Outcome)
      requires Valid() && Scalar.AllInRange(k, values)
      modifies Repr
      ensures Valid() && fresh(Repr - old(Repr))
      ensures Appended(old(written), Scalar.PackedNoTag(k, values), r)
    {
      ghost var w0 := written;
      var i := 0;
      r := Ok(());
      while i < |values|
        invariant Valid() && fresh(Repr - old(Repr))
        invariant 0 <= i <= |values|
        invariant r.Ok?
        invariant written == w0 + Scalar.PackedNoTag(k, values[..i])
        decreases |values| - i
      {
        r := WritePackedElementAt(k, values, i, w0);
        if r.Err? {
          return;
        }
        i := i + 1;
      }
      assert values[..i] == values;
      WrittenFits();
    }

    /** One turn of the packed loop: element `i`. */
    method WritePackedElementAt(k: Scalar.ScalarKind, values: seq<int>, i: nat, ghost w0: seq<byte>) returns (r: Outcome)
      requires Valid() && Scalar.AllInRange(k, values) && i < |values|
      requires written == w0 + Scalar.PackedNoTag(k, values[..i])
      modifies Repr
      ensures Valid() && fresh(Repr - old(Repr))
      ensures r.Ok? ==> written == w0 + Scalar.PackedNoTag(k, values[..i + 1])
      ensures r.Err? ==> Appended(w0, Scalar.PackedNoTag(k, values), r)
    {
      ghost var w1 := written;
      ghost var done := Scalar.PackedNoTag(k, values[..i]);
      ghost var e := Scalar.NoTag(k, values[i]);
      r := WriteScalarNoTag(k, values[i]);
      PackedNoTagStep(k, values, i);
      if r.Err? {
        Scalar.PackedNoTagPrefix(k, values, i + 1);
        FailedWithin(w0, w1, written, done, e, Scalar.PackedNoTag(k, values), target.BytesTarget?, SliceLength());
      } else {
        SeqAssoc(w0, done, e);
      }
    }

    /** `write_repeated_packed_<kind>`: nothing for no values; otherwise a
        length-delimited tag, the data size cast to u32, and the values. */
    method WriteRepeatedPacked(k: Scalar.ScalarKind, n: FieldNumber, values: seq<int>) returns (r: Outcome)
      requires Valid() && Scalar.AllInRange(k, values)
      modifies Repr
      ensures Valid() && fresh(Repr - old(Repr))
      ensures Appended(old(written), Scalar.Packed(k, n, values), r)
    {
      if |values| == 0 {
        r := Ok(());
        return;
      }
      ghost var w0 := written;
      r := WriteTag(n, WireType.LengthDelimited);
      ghost var w1, ok1 := written, r.Ok?;
      var dataSize := Scalar.PackedDataSize(k, values);
      if r.Ok? {
        r := WriteRawVarint32(TruncU32(dataSize));
      }
      ghost var t := TagBytes(n, WireType.LengthDelimited);
      ghost var l := EncodeVarint(TruncU32(dataSize));
      Chain(w0, w1, written, t, l, ok1, r.Ok?, target.BytesTarget?, SliceLength());
      ghost var w2, ok2 := written, r.Ok?;
      if r.Ok? {
        r := WriteRepeatedPackedNoTag(k, values);
      }
      Chain(w0, w2, written, t + l, Scalar.PackedNoTag(k, values), ok2, r.Ok?, target.BytesTarget?, SliceLength());
    }

    /** `write_unknown_no_tag`. */
    method WriteUnknownNoTag(u: UnknownValue) returns (r: Outcome)
      requires Valid()
      modifies Repr
      ensures Valid() && fresh(Repr - old(Repr))
      ensures Appended(old(written), ValueNoTag(u), r)
    {
      match u
      case Fixed64(v) => r := WriteRawLittleEndian64(v);
      case Fixed32(v) => r := WriteRawLittleEndian32(v);
      case VarintValue(v) => r := WriteRawVarint64(v);
      case LengthDelimited(bs) => r := WriteBytesNoTag(bs);
    }

    /** `write_unknown`: the tag for the value's wire type, then the value. */
    method WriteUnknown(n: FieldNumber, u: UnknownValue) returns (r: Outcome)
      requires Valid()
      modifies Repr
      ensures Valid() && fresh(Repr - old(Repr))
      ensures Appended(old(written), EncodeValue(n, u), r)
    {
      ghost var w0 := written;
      r := WriteTag(n, WireTypeOf(u));
      ghost var w1, ok1 := written, r.Ok?;
      if r.Ok? {
        r := WriteUnknownNoTag(u);
      }
      Chain(w0, w1, written, TagBytes(n, WireTypeOf(u)), ValueNoTag(u), ok1, r.Ok?, target.BytesTarget?, SliceLength());
    }

    /** The inner loop of `write_unknown_fields`: every value of one field. */
    method WriteUnknownValues(number: FieldNumber, values: seq<UnknownValue>) returns (r: Outcome)
      requires Valid()
      modifies Repr
      ensures Valid() && fresh(Repr - old(Repr))
      ensures Appended(old(written), EncodeValues(number, values), r)
    {
      ghost var w0 := written;
      ghost var done: seq<byte> := [];
      var j := 0;
      r := Ok(());
      while j < |values|
        invariant Valid() && fresh(Repr - old(Repr))
        invariant 0 <= j <= |values|
        invariant r.Ok?
        invariant done == EncodeValues(number, values[..j])
        invariant written == w0 + done
        decreases |values| - j
      {
        r, done := WriteUnknownValueAt(number, values, j, w0, done);
        if r.Err? {
          return;
        }
        j := j + 1;
      }
      assert values[..j] == values;
      WrittenFits();
    }

    /** One turn of the inner loop: value `j`. */
    method WriteUnknownValueAt(number: FieldNumber, values: seq<UnknownValue>, j: nat, ghost w0: seq<byte>, ghost done: seq<byte>)
      returns (r: Outcome, ghost done': seq<byte>)
      requires Valid() && j < |values| && done == EncodeValues(number, values[..j]) && written == w0 + done
      modifies Repr
      ensures Valid() && fresh(Repr - old(Repr))
      ensures r.Ok? ==> done' == EncodeValues(number, values[..j + 1]) && written == w0 + done'
      ensures r.Err? ==> Appended(w0, EncodeValues(number, values), r)
    {
      ghost var w1 := written;
      ghost var e := EncodeValue(number, values[j]);
      r := WriteUnknown(number, values[j]);
      EncodeValuesStep(number, values, j);
      done' := done + e;
      if r.Err? {
        EncodeValuesPrefix(number, values, j + 1);
        FailedWithin(w0, w1, written, done, e, EncodeValues(number, values), target.BytesTarget?, SliceLength());
      } else {
        SeqAssoc(w0, done, e);
      }
    }

    /** `write_unknown_fields`: for each field, each of its values. */
    method WriteUnknownFields(fields: UnknownFields) returns (r: Outcome)
      requires Valid()
      modifies Repr
      ensures Valid() && fresh(Repr - old(Repr))
      ensures Appended(old(written), EncodeUnknownFields(fields), r)
    {
      ghost var w0 := written;
      var i := 0;
      r := Ok(());
      while i < |fields|
        invariant Valid() && fresh(Repr - old(Repr))
        invariant 0 <= i <= |fields|
        invariant r.Ok?
        invariant written == w0 + EncodeUnknownFields(fields[..i])
        decreases |fields| - i
      {
        r := WriteUnknownFieldAt(fields, i, w0);
        if r.Err? {
          return;
        }
        i := i + 1;
      }
      assert fields[..i] == fields;
      WrittenFits();
    }

    /** One turn of the loop of `write_unknown_fields`: the values of field `i`. */
    method WriteUnknownFieldAt(fields: UnknownFields, i: nat, ghost w0: seq<byte>) returns (r: Outcome)
      requires Valid() && i < |fields| && written == w0 + EncodeUnknownFields(fields[..i])
      modifies Repr
      ensures Valid() && fresh(Repr - old(Repr))
      ensures r.Ok? ==> written == w0 + EncodeUnknownFields(fields[..i + 1])
      ensures r.Err? ==> Appended(w0, EncodeUnknownFields(fields), r)
    {
      ghost var w1 := written;
      ghost var done := EncodeUnknownFields(fields[..i]);
      ghost var e := EncodeValues(fields[i].number, fields[i].values);
      r := WriteUnknownValues(fields[i].number, fields[i].values);
      EncodeUnknownFieldsStep(fields, i);
      if r.Err? {
        EncodeUnknownFieldsPrefix(fields, i + 1);
        FailedWithin(w0, w1, written, done, e, EncodeUnknownFields(fields), target.BytesTarget?, SliceLength());
      } else {
        SeqAssoc(w0, done, e);
      }
    }

    /** `write_unknown_fields_sorted`: the same, fields in ascending number order. */
    method WriteUnknownFieldsSorted(fields: UnknownFields) returns (r: Outcome)
      requires Valid()
      modifies Repr
      ensures Valid() && fresh(Repr - old(Repr))
      ensures Appended(old(written), EncodeUnknownFields(SortByNumber(fields)), r)
    {
      var sorted := SortByNumber(fields);
      r := WriteUnknownFields(sorted);
    }
  }

  /** A write that failed part-way through a longer one fails the longer one. */
  lemma FailedWithin(w0: seq<byte>, w1: seq<byte>, w2: seq<byte>, done: seq<byte>, e: seq<byte>,
                     total: seq<byte>, isSlice: bool, sliceLen: nat)
    requires w1 == w0 + done && |done| + |e| <= |total|
    requires AppendedSpec(w1, w2, e, false, isSlice, sliceLen)
    ensures AppendedSpec(w0, w2, total, false, isSlice, sliceLen)
  {
  }

  lemma SeqAssoc(a: seq<byte>, b: seq<byte>, c: seq<byte>)
    ensures a + b + c == a + (b + c)
  {
  }

  lemma EncodeValuesStep(n: FieldNumber, vs: seq<UnknownValue>, j: nat)
    requires j < |vs|
    ensures EncodeValues(n, vs[..j + 1]) == EncodeValues(n, vs[..j]) + EncodeValue(n, vs[j])
  {
    assert vs[..j + 1][..j] == vs[..j];
  }

  lemma EncodeUnknownFieldsStep(fs: UnknownFields, i: nat)
    requires i < |fs|
    ensures EncodeUnknownFields(fs[..i + 1]) == EncodeUnknownFields(fs[..i]) + EncodeValues(fs[i].number, fs[i].values)
  {
    assert fs[..i + 1][..i] == fs[..i];
  }

  lemma PackedNoTagStep(k: Scalar.ScalarKind, vs: seq<int>, i: nat)
    requires i < |vs| && Scalar.AllInRange(k, vs)
    ensures Scalar.AllInRange(k, vs[..i]) && Scalar.AllInRange(k, vs[..i + 1])
    ensures Scalar.PackedNoTag(k, vs[..i + 1]) == Scalar.PackedNoTag(k, vs[..i]) + Scalar.NoTag(k, vs[i])
  {
    assert vs[..i + 1][..i] == vs[..i];
  }

  lemma {:induction false} EncodeValuesPrefix(n: FieldNumber, vs: seq<UnknownValue>, j: nat)
    requires j <= |vs|
    ensures EncodeValues(n, vs[..j]) <= EncodeValues(n, vs)
    decreases |vs| - j
  {
    if j < |vs| {
      EncodeValuesPrefix(n, vs[..|vs| - 1], j);
      assert vs[..|vs| - 1][..j] == vs[..j];
    } else {
      assert vs[..j] == vs;
    }
  }

  lemma {:induction false} EncodeUnknownFieldsPrefix(fs: UnknownFields, i: nat)
    requires i <= |fs|
    ensures EncodeUnknownFields(fs[..i]) <= EncodeUnknownFields(fs)
    decreases |fs| - i
  {
    if i < |fs| {
      EncodeUnknownFieldsPrefix(fs[..|fs| - 1], i);
      assert fs[..|fs| - 1][..i] == fs[..i];
    } else {
      assert fs[..i] == fs;
    }
  }

  // ---------------------------------------------------------------- sorting

  /** Inserts `f` after every entry whose number is not greater. */
  function Insert(f: UnknownField, sorted: UnknownFields): UnknownFields
  {
    if sorted == [] || f.number < sorted[0].number then [f] + sorted
    else [sorted[0]] + Insert(f, sorted[1..])
  }

  /** The stable sort by field number of `sort_by_key`. */
  function SortByNumber(fs: UnknownFields): UnknownFields
  {
    if fs == [] then [] else Insert(fs[|fs| - 1], SortByNumber(fs[..|fs| - 1]))
  }

  predicate SortedByNumber(fs: UnknownFields)
  {
    forall i, j :: 0 <= i < j < |fs| ==> fs[i].number <= fs[j].number
  }

  lemma {:induction false} InsertKeeps(f: UnknownField, s: UnknownFields)
    ensures multiset(Insert(f, s)) == multiset(s) + multiset{f}
    decreases |s|
  {
    if s != [] && f.number >= s[0].number {
      InsertKeeps(f, s[1..]);
      assert s == [s[0]] + s[1..];
    }
  }

  lemma SortedCons(h: UnknownField, rest: UnknownFields)
    requires SortedByNumber(rest)
    requires forall x | x in rest :: h.number <= x.number
    ensures SortedByNumber([h] + rest)
  {
    var t := [h] + rest;
    forall i, j | 0 <= i < j < |t| ensures t[i].number <= t[j].number {
      if i == 0 {
        assert t[j] == rest[j - 1];
        assert t[j] in rest;
      } else {
        assert t[i] == rest[i - 1] && t[j] == rest[j - 1];
      }
    }
  }

  lemma {:induction false} InsertSorted(f: UnknownField, s: UnknownFields)
    requires SortedByNumber(s)
    ensures SortedByNumber(Insert(f, s))
    decreases |s|
  {
    if s == [] || f.number < s[0].number {
      SortedCons(f, s);
    } else {
      InsertSorted(f, s[1..]);
      InsertKeeps(f, s[1..]);
      var rest := Insert(f, s[1..]);
      forall x | x in rest ensures s[0].number <= x.number {
        assert x in multiset(rest);
        if x != f {
          assert x in multiset(s[1..]);
          var k :| 0 <= k < |s[1..]| && s[1..][k] == x;
          assert s[k + 1] == x;
        }
      }
      SortedCons(s[0], rest);
    }
  }

  /** The sort orders the fields by number and keeps every one of them. */
  lemma {:induction false} SortByNumberCorrect(fs: UnknownFields)
    ensures SortedByNumber(SortByNumber(fs))
    ensures multiset(SortByNumber(fs)) == multiset(fs)
  {
    if fs != [] {
      SortByNumberCorrect(fs[..|fs| - 1]);
      InsertSorted(fs[|fs| - 1], SortByNumber(fs[..|fs| - 1]));
      InsertKeeps(fs[|fs| - 1], SortByNumber(fs[..|fs| - 1]));
      assert fs == fs[..|fs| - 1] + [fs[|fs| - 1]];
    }
  }

  // ---------------------------------------------------------------- scenarios

  /** The chunks one after another. */
  function Concat(chunks: seq<seq<byte>>): seq<byte>
  {
    if chunks == [] then [] else Concat(chunks[..|chunks| - 1]) + chunks[|chunks| - 1]
  }

  /** Writes every chunk with `write_raw_bytes`, stopping at the first error. */
  method WriteChunks(os: CodedOutputStream, chunks: seq<seq<byte>>) returns (r: Outcome)
    requires os.Valid()
    modifies os.Repr
    ensures os.Valid() && fresh(os.Repr - old(os.Repr))
    ensures os.Appended(old(os.written), Concat(chunks), r)
  {
    ghost var w0 := os.written;
    var i := 0;
    r := Ok(());
    while i < |chunks|
      invariant os.Valid() && fresh(os.Repr - old(os.Repr))
      invariant 0 <= i <= |chunks| && r.Ok?
      invariant os.written == w0 + Concat(chunks[..i])
      decreases |chunks| - i
    {
      r := WriteChunkAt(os, chunks, i, w0);
      if r.Err? {
        return;
      }
      i := i + 1;
    }
    assert chunks[..i] == chunks;
    os.WrittenFits();
  }

  method WriteChunkAt(os: CodedOutputStream, chunks: seq<seq<byte>>, i: nat, ghost w0: seq<byte>) returns (r: Outcome)
    requires os.Valid() && i < |chunks| && os.written == w0 + Concat(chunks[..i])
    modifies os.Repr
    ensures os.Valid() && fresh(os.Repr - old(os.Repr))
    ensures r.Ok? ==> os.written == w0 + Concat(chunks[..i + 1])
    ensures r.Err? ==> os.Appended(w0, Concat(chunks), r)
  {
    ghost var w1 := os.written;
    ghost var done := Concat(chunks[..i]);
    r := os.WriteRawBytes(chunks[i]);
    assert chunks[..i + 1][..i] == chunks[..i];
    if r.Err? {
      ConcatPrefix(chunks, i + 1);
      FailedWithin(w0, w1, os.written, done, chunks[i], Concat(chunks), os.target.BytesTarget?, os.SliceLength());
    } else {
      SeqAssoc(w0, done, chunks[i]);
    }
  }

  lemma {:induction false} ConcatPrefix(chunks: seq<seq<byte>>, i: nat)
    requires i <= |chunks|
    ensures Concat(chunks[..i]) <= Concat(chunks)
    decreases |chunks| - i
  {
    if i < |chunks| {
      ConcatPrefix(chunks[..|chunks| - 1], i);
      assert chunks[..|chunks| - 1][..i] == chunks[..i];
    } else {
      assert chunks[..i] == chunks;
    }
  }

  /** The first leg of the stream's round trip over its targets: a writer,
      once flushed, holds exactly the bytes written. */
  method WriteThroughWriter(chunks: seq<seq<byte>>) returns (received: seq<byte>)
    ensures received == Concat(chunks)
  {
    var sink := new Sink([]);
    var os := new CodedOutputStream.ForWrite(sink);
    var r := WriteChunks(os, chunks);
    var f := os.Flush();
    assert os.written[..|os.written|] == os.written;
    received := sink.data;
  }

  /** The second leg: a slice of exactly the right size ends full and holds
      the bytes written. */
  method WriteThroughSlice(chunks: seq<seq<byte>>) returns (received: seq<byte>, full: bool)
    ensures received == Concat(chunks) && full
  {
    var slice := new byte[|Concat(chunks)|];
    var os := new CodedOutputStream.ForBytes(slice);
    var r := WriteChunks(os, chunks);
    full := os.CheckEof();
    received := slice[..];
  }

  /** The third leg: a vector that held seven bytes holds, after a flush
      and once those seven are drained, the bytes written. */
  method WriteThroughVec(chunks: seq<seq<byte>>) returns (received: seq<byte>)
    ensures received == Concat(chunks)
  {
    var vec := new ByteVec([11, 22, 33, 44, 55, 66, 77], 7);
    var os := new CodedOutputStream.ForVec(vec);
    var r := WriteChunks(os, chunks);
    var f := os.Flush();
    assert os.written[..|os.written|] == os.written;
    received := vec.data[7..];
  }

  /** A flush of a vector target does not grow the vector: ten bytes into a
      vector with room for ten leave it at length ten and capacity ten. */
  method FlushForVecDoesNotAllocateMore() returns (len: nat, capacity: nat)
    ensures len == 10 && capacity == 10
  {
    var vec := new ByteVec([], 10);
    var os := new CodedOutputStream.ForVec(vec);
    var i := 0;
    while i < 10
      invariant 0 <= i <= 10
      invariant os.Valid() && os.target == VecTarget(vec) && fresh(os.Repr)
      invariant |os.written| == i && vec.capacity == 10 && os.initial == []
      invariant i > 0 ==> os.buffer.Length == 10 && os.posWithinBuf == i
      invariant i == 0 ==> os.buffer.Length == 0 && os.posWithinBuf == 0
      decreases 10 - i
    {
      var r := os.WriteRawByte(i as byte);
      i := i + 1;
    }
    var f := os.Flush();
    len, capacity := |vec.data|, vec.capacity;
  }

  /** `total_bytes_written` counts every byte written to a slice. */
  method TotalBytesWrittenToBytes() returns (t0: nat, t1: nat, t2: nat)
    ensures t0 == 0 && t1 == 2 && t2 == 5
  {
    var slice := new byte[10];
    var os := new CodedOutputStream.ForBytes(slice);
    t0 := os.TotalBytesWritten();
    var r := os.WriteRawBytes([11, 22]);
    t1 := os.TotalBytesWritten();
    r := os.WriteRawBytes([33, 44, 55]);
    t2 := os.TotalBytesWritten();
  }

  /** `total_bytes_written` counts every byte written to a vector, however
      often the vector grows. */
  method TotalBytesWrittenToVec() returns (totals: seq<nat>)
    ensures |totals| == 100
    ensures forall i :: 0 <= i < 100 ==> totals[i] == (i + 1) * 3
  {
    var vec := new ByteVec([], 0);
    var os := new CodedOutputStream.ForVec(vec);
    totals := [];
    var i := 0;
    while i < 100
      invariant 0 <= i <= 100 && |totals| == i
      invariant os.Valid() && os.target == VecTarget(vec) && fresh(os.Repr) && |os.written| == 3 * i
      invariant forall j :: 0 <= j < i ==> totals[j] == (j + 1) * 3
      decreases 100 - i
    {
      var r := os.WriteRawBytes([0, 1, 2]);
      var t := os.TotalBytesWritten();
      totals := totals + [t];
      i := i + 1;
    }
  }
}
