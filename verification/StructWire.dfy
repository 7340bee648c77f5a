/**
  What the decoder refuses, and where the encoder puts things: a wrong type code and every encoding cut short
  are errors, and the type code, the flags and a group of bits have their place among the bytes.
 */
module StructWire {
  import opened Options
  import opened Words
  import opened StructGen
  import opened StructCodec
  import opened StructRoundTrip

  // ------------------------------------------------------------ a wrong type code

  lemma TwoBytes(bs: seq<Byte>)
    requires |bs| == 2
    ensures Get(bs) == bs[0] as int * 256 + bs[1] as int
  {
    assert bs[..1] == [bs[0]];
    assert Get(bs[..1][..0]) == 0;
  }

  /** Of a struct with a type code, whatever does not begin with a size and that code is refused. */
  lemma OnlyItsCode(d: StructDef, o: StructVal, buf: seq<Byte>)
    requires Sound(d) && ShapedStruct(d, o) && d.code.Some? && DecodeStruct(d, o, buf).Some?
    ensures |buf| >= d.sizeWidth + 2 && buf[d.sizeWidth] as int * 256 + buf[d.sizeWidth + 1] as int == d.code.value
  {
    var rest := buf[d.sizeWidth..];
    assert rest[..2] == [buf[d.sizeWidth], buf[d.sizeWidth + 1]];
    TwoBytes(rest[..2]);
  }

  /** The encoder writes the code big-endian, right after the size. */
  lemma CodeOnWire(d: StructDef, v: StructVal)
    requires Sound(d) && TypedStruct(d, v) && EncodeStruct(d, v).Some? && d.code.Some?
    ensures var bytes := EncodeStruct(d, v).value;
            |bytes| >= d.sizeWidth + 2 &&
            bytes[d.sizeWidth] == d.code.value / 256 && bytes[d.sizeWidth + 1] == d.code.value % 256
  {
    StructIsPrefixAndBody(d, v);
    var bytes, code := EncodeStruct(d, v).value, Put(2, d.code.value);
    assert bytes[d.sizeWidth..d.sizeWidth + 2] == code;
    GetPut(2, d.code.value);
    TwoBytes(code);
  }

  /** On the wire a boolean is 1 or 0, a word its big-endian bytes and a string its length and then its bytes. */
  lemma FieldOnWire(t: FieldType, x: Value, bytes: seq<Byte>)
    requires SoundField(t) && Typed(t, x) && EncodeField(t, x) == Some(bytes)
    ensures t == Boolean ==> bytes == [if x.b then 1 else 0]
    ensures t == Uint(2) ==> |bytes| == 2 && x.n == bytes[0] as int * 256 + bytes[1] as int
    ensures t.Uint? ==> |bytes| == t.width && Get(bytes) == x.n
    ensures t.Raw? ==> bytes == x.s
    ensures t.Str? ==> |bytes| == t.width + |x.s| && Get(bytes[..t.width]) == |x.s| && bytes[t.width..] == x.s
  {
    match t
    case Boolean =>
      assert Limit(1) == 256 by { assert Limit(0) == 1; }
      GetPut(1, if x.b then 1 else 0);
      OneByte(if x.b then 1 else 0);
    case Uint(w) =>
      GetPut(w, x.n);
      if w == 2 { TwoBytes(bytes); }
    case Str(w) =>
      GetPut(w, |x.s|);
      assert bytes[..w] == Put(w, |x.s|);
    case _ =>
  }

  // ------------------------------------------------------------ more bytes change nothing

  lemma TakeMore(n: nat, buf: seq<Byte>, more: seq<Byte>)
    requires n <= |buf|
    ensures Take(n, buf + more) == Some(Decoded(buf[..n], buf[n..] + more))
  {
    assert (buf + more)[..n] == buf[..n] && (buf + more)[n..] == buf[n..] + more;
  }

  /** What was decoded, with more bytes left over. */
  function Longer<T>(x: Decoded<T>, more: seq<Byte>): Decoded<T> {
    Decoded(x.value, x.rest + more)
  }

  lemma {:induction false} FieldMore(t: FieldType, into: Value, buf: seq<Byte>, more: seq<Byte>)
    requires SoundField(t) && Shaped(t, into) && DecodeField(t, into, buf).Some?
    ensures DecodeField(t, into, buf + more) == Some(Longer(DecodeField(t, into, buf).value, more))
    decreases t, 0
  {
    match t
    case Nested(d) => StructMore(d, into.r, buf, more);
    case Str(w) =>
      TakeMore(w, buf, more);
      TakeMore(Get(buf[..w]), buf[w..], more);
    case Uint(w) => TakeMore(w, buf, more);
    case Raw(n) => TakeMore(n, buf, more);
    case _ => TakeMore(1, buf, more);
  }

  lemma {:induction false} StatementMore(d: StructDef, st: Statement, o: StructVal, buf: seq<Byte>, more: seq<Byte>)
    requires Sound(d) && Fitting(d, st) && ShapedStruct(d, o) && DecodeStatement(d, st, o, buf).Some?
    ensures DecodeStatement(d, st, o, buf + more) == Some(Longer(DecodeStatement(d, st, o, buf).value, more))
    decreases d, 0
  {
    match st
    case Flags => TakeMore(d.pack, buf, more);
    case BitGroup(_, _) => TakeMore(1, buf, more);
    case Plain(i) => FieldMore(d.fields[i], o.fields[i], buf, more);
    case Guarded(i) =>
      if Present(d, o.flags, i) {
        FieldMore(d.fields[i], o.fields[i], buf, more);
      }
  }

  lemma {:induction false} BodyMore(d: StructDef, sts: seq<Statement>, o: StructVal, buf: seq<Byte>, more: seq<Byte>)
    requires Sound(d) && AllFitting(d, sts) && ShapedStruct(d, o) && DecodeBody(d, sts, o, buf).Some?
    ensures DecodeBody(d, sts, o, buf + more) == Some(Longer(DecodeBody(d, sts, o, buf).value, more))
    decreases d, 1, |sts|
  {
    if sts != [] {
      StatementMore(d, sts[0], o, buf, more);
      var x := DecodeStatement(d, sts[0], o, buf).value;
      BodyMore(d, sts[1..], x.value, x.rest, more);
    }
  }

  /** Decoding looks no further than what it takes: with more bytes after it, a buffer decodes to the same. */
  lemma {:induction false} StructMore(d: StructDef, o: StructVal, buf: seq<Byte>, more: seq<Byte>)
    requires Sound(d) && ShapedStruct(d, o) && DecodeStruct(d, o, buf).Some?
    ensures DecodeStruct(d, o, buf + more) == Some(Longer(DecodeStruct(d, o, buf).value, more))
    decreases d, 2
  {
    var rest := buf[d.sizeWidth..];
    var n := if d.code.Some? then 2 else 0;
    TakeMore(d.sizeWidth, buf, more);
    TakeMore(n, rest, more);
    EmitFits(d);
    BodyMore(d, Emit(d), o, rest[n..], more);
  }

  /** Every encoding that was cut short is refused, whatever object it is decoded into. */
  lemma TruncatedIsRefused(d: StructDef, v: StructVal, o: StructVal, k: nat)
    requires Sound(d) && TypedStruct(d, v) && ShapedStruct(d, o) && EncodeStruct(d, v).Some?
    requires k < |EncodeStruct(d, v).value|
    ensures DecodeStruct(d, o, EncodeStruct(d, v).value[..k]).None?
  {
    var bytes := EncodeStruct(d, v).value;
    var r := RoundTrip(d, v, o, []);
    assert bytes + [] == bytes == bytes[..k] + bytes[k..];
    if DecodeStruct(d, o, bytes[..k]).Some? {
      StructMore(d, o, bytes[..k], bytes[k..]);
      assert false;
    }
  }

  // ------------------------------------------------------------ bits among the bytes

  /** A group of bits is one byte, the first field its lowest bit, with nothing above the last. */
  lemma GroupOnWire(d: StructDef, first: nat, count: nat, v: StructVal, j: nat)
    requires Sound(d) && TypedStruct(d, v) && Fitting(d, BitGroup(first, count)) && j < 8
    ensures var e := EncodeStatement(d, BitGroup(first, count), v);
            && e.Some? && |e.value| == 1
            && Words.Bit(e.value[0], j) == (j < count && v.fields[first + j] == Flag(true))
  {
    assert forall k :: first <= k < first + count ==> Typed(d.fields[k], v.fields[k]);
    var bs := GroupBits(v, first, count);
    ByteRoundTrip(bs, []);
    OneByte(PackBits(bs));
    if j < count {
      PackBitsBit(bs, j);
    } else {
      PackBitsBound(bs);
      Pow2Grows(count, j);
      NoBitsBeyond(PackBits(bs), j);
    }
  }

  lemma OneByte(n: nat)
    ensures |Put(1, n)| == 1 && Put(1, n)[0] == Get(Put(1, n))
  {
    var bs := Put(1, n);
    assert Get(bs[..0]) == 0;
  }

  /** A packed struct begins its body with its flags: field `i` is bit i%8 of byte i/8 after the prefix. */
  lemma FlagsOnWire(d: StructDef, v: StructVal, i: nat)
    requires Sound(d) && d.Packed() && TypedStruct(d, v) && EncodeStruct(d, v).Some? && i < |d.fields|
    ensures var bytes := EncodeStruct(d, v).value;
            var at := d.sizeWidth + (if d.code.Some? then 2 else 0) + i / 8;
            at < |bytes| && Words.Bit(bytes[at], i % 8) == Present(d, v.flags, i)
  {
    StructIsPrefixAndBody(d, v);
    FlagOnWire(d.pack, v.flags, i);
    var sts, tail := Emit(d), GuardedFrom(d.fields, 0);
    assert sts[0] == Flags && sts[1..] == tail;
    GuardedFits(d.fields, 0);
    var flags, body := Put(d.pack, v.flags), EncodeBody(d, sts, v).value;
    assert body == flags + EncodeBody(d, tail, v).value;
    var n := |Prefix(d, v)|;
    assert (Prefix(d, v) + body)[n + i / 8] == body[i / 8] == flags[i / 8];
  }
}
