/**
  What the generated encoders, decoders and size functions do, for an arbitrary struct
  definition: they run the statements the generator chose, one after the other.
 */
module StructCodec {
  import opened Options
  import opened Words
  import opened StructGen

  /** A packed struct keeps its bits in the flags; the slot of such a field is not used. */
  datatype StructVal = StructVal(flags: nat, fields: seq<Value>)

  datatype Value = Flag(b: bool) | Number(n: nat) | Text(s: seq<Byte>) | Record(r: StructVal)

  predicate Typed(t: FieldType, x: Value)
    decreases t
  {
    match t
    case Bit => x.Flag?
    case Boolean => x.Flag?
    case Uint(w) => x.Number? && x.n < Limit(w)
    case Raw(n) => x.Text? && |x.s| == n
    case Str(_) => x.Text?
    case Nested(d) => x.Record? && TypedStruct(d, x.r)
  }

  predicate TypedStruct(d: StructDef, v: StructVal)
    decreases d
  {
    && |v.fields| == |d.fields|
    && (if d.Packed() then v.flags < Limit(d.pack) else v.flags == 0)
    && forall i :: 0 <= i < |d.fields| ==>
         && Typed(d.fields[i], v.fields[i])
         && (d.Packed() && d.fields[i].Bit? ==> v.fields[i] == Flag(false))
  }

  /** The flag of field `i` is set; an unpacked struct has all its fields. */
  predicate Present(d: StructDef, flags: nat, i: nat)
    requires Sound(d) && i < |d.fields|
  {
    d.Packed() ==> Words.Bit(flags, FlagPosition(d.pack, i))
  }

  predicate Fitting(d: StructDef, st: Statement) {
    match st
    case Flags => d.Packed()
    case Guarded(i) => d.Packed() && i < |d.fields| && !d.fields[i].Bit?
    case Plain(i) => !d.Packed() && i < |d.fields|
    case BitGroup(first, count) =>
      && !d.Packed() && count <= 8 && first + count <= |d.fields|
      && forall k :: first <= k < first + count ==> d.fields[k].Bit?
  }

  predicate AllFitting(d: StructDef, sts: seq<Statement>) {
    forall g :: 0 <= g < |sts| ==> Fitting(d, sts[g])
  }

  function GroupBits(v: StructVal, first: nat, count: nat): (bs: seq<bool>)
    requires first + count <= |v.fields|
    requires forall k :: first <= k < first + count ==> v.fields[k].Flag?
    ensures |bs| == count && forall k :: 0 <= k < count ==> bs[k] == v.fields[first + k].b
    decreases count
  {
    if count == 0 then [] else GroupBits(v, first, count - 1) + [v.fields[first + count - 1].b]
  }

  // ------------------------------------------------------------ encoding

  /** None when the buffer refuses a string that is too long for its length prefix. */
  function EncodeField(t: FieldType, x: Value): Option<seq<Byte>>
    requires SoundField(t) && Typed(t, x)
    decreases t, 0
  {
    match t
    case Bit => Some(Put(1, if x.b then 1 else 0))
    case Boolean => Some(Put(1, if x.b then 1 else 0))
    case Uint(w) => Some(Put(w, x.n))
    case Raw(_) => Some(x.s)
    case Str(w) => if |x.s| < Limit(w) then Some(Put(w, |x.s|) + x.s) else None
    case Nested(d) => EncodeStruct(d, x.r)
  }

  function EncodeStatement(d: StructDef, st: Statement, v: StructVal): Option<seq<Byte>>
    requires Sound(d) && TypedStruct(d, v) && Fitting(d, st)
    decreases d, 0
  {
    match st
    case Flags => Some(Put(d.pack, v.flags))
    case Guarded(i) => if Present(d, v.flags, i) then EncodeField(d.fields[i], v.fields[i]) else Some([])
    case Plain(i) => EncodeField(d.fields[i], v.fields[i])
    case BitGroup(first, count) =>
      assert forall k :: first <= k < first + count ==> Typed(d.fields[k], v.fields[k]);
      Some(Put(1, PackBits(GroupBits(v, first, count))))
  }

  function EncodeBody(d: StructDef, sts: seq<Statement>, v: StructVal): Option<seq<Byte>>
    requires Sound(d) && TypedStruct(d, v) && AllFitting(d, sts)
    decreases d, 1, |sts|
  {
    if sts == [] then Some([]) else
      var a :- EncodeStatement(d, sts[0], v);
      var b :- EncodeBody(d, sts[1..], v);
      Some(a + b)
  }

  function EncodeStruct(d: StructDef, v: StructVal): Option<seq<Byte>>
    requires Sound(d) && TypedStruct(d, v)
    decreases d, 2
  {
    EmitFits(d);
    var body :- EncodeBody(d, Emit(d), v);
    Some(Prefix(d, v) + body)
  }

  /** The size and type code in front of a struct; the size counts the type code and the body. */
  function Prefix(d: StructDef, v: StructVal): seq<Byte>
    requires Sound(d) && TypedStruct(d, v)
    decreases d, 3
  {
    Put(d.sizeWidth, EncodedSize(d, v) - d.sizeWidth) + (if d.code.Some? then Put(2, d.code.value) else [])
  }

  // ------------------------------------------------------------ sizes

  function SizeField(t: FieldType, x: Value): nat
    requires SoundField(t) && Typed(t, x)
    decreases t, 0
  {
    match t
    case Bit => 1
    case Boolean => 1
    case Uint(w) => w
    case Raw(n) => n
    case Str(w) => w + |x.s|
    case Nested(d) => EncodedSize(d, x.r)
  }

  function SizeStatement(d: StructDef, st: Statement, v: StructVal): nat
    requires Sound(d) && TypedStruct(d, v) && Fitting(d, st)
    decreases d, 0
  {
    match st
    case Flags => d.pack
    case Guarded(i) => if Present(d, v.flags, i) then SizeField(d.fields[i], v.fields[i]) else 0
    case Plain(i) => SizeField(d.fields[i], v.fields[i])
    case BitGroup(_, _) => 1
  }

  function SizeOf(d: StructDef, sts: seq<Statement>, v: StructVal): nat
    requires Sound(d) && TypedStruct(d, v) && AllFitting(d, sts)
    decreases d, 1, |sts|
  {
    if sts == [] then 0 else SizeStatement(d, sts[0], v) + SizeOf(d, sts[1..], v)
  }

  function BodySize(d: StructDef, v: StructVal): nat
    requires Sound(d) && TypedStruct(d, v)
    decreases d, 2
  {
    EmitFits(d);
    SizeOf(d, Emit(d), v)
  }

  function EncodedSize(d: StructDef, v: StructVal): nat
    requires Sound(d) && TypedStruct(d, v)
    decreases d, 3
  {
    BodySize(d, v) + d.sizeWidth + (if d.code.Some? then 2 else 0)
  }

  // ------------------------------------------------------------ decoding

  /** An object of the right shape to decode into: nested structs are there, with all their fields. */
  predicate Shaped(t: FieldType, x: Value)
    decreases t
  {
    t.Nested? ==> x.Record? && ShapedStruct(t.def, x.r)
  }

  predicate ShapedStruct(d: StructDef, o: StructVal)
    decreases d
  {
    |o.fields| == |d.fields| && forall i :: 0 <= i < |d.fields| ==> Shaped(d.fields[i], o.fields[i])
  }

  datatype Decoded<+T> = Decoded(value: T, rest: seq<Byte>)

  /** The next `n` bytes, unless the buffer holds fewer. */
  function Take(n: nat, buf: seq<Byte>): Option<Decoded<seq<Byte>>> {
    if n <= |buf| then Some(Decoded(buf[..n], buf[n..])) else None
  }

  function DecodeField(t: FieldType, into: Value, buf: seq<Byte>): (r: Option<Decoded<Value>>)
    requires SoundField(t) && Shaped(t, into)
    ensures r.Some? ==> Shaped(t, r.value.value)
    decreases t, 0
  {
    match t
    case Bit => var x :- Take(1, buf); Some(Decoded(Flag(Get(x.value) != 0), x.rest))
    case Boolean => var x :- Take(1, buf); Some(Decoded(Flag(Get(x.value) != 0), x.rest))
    case Uint(w) => var x :- Take(w, buf); Some(Decoded(Number(Get(x.value)), x.rest))
    case Raw(n) => var x :- Take(n, buf); Some(Decoded(Text(x.value), x.rest))
    case Str(w) =>
      var n :- Take(w, buf);
      var x :- Take(Get(n.value), n.rest);
      Some(Decoded(Text(x.value), x.rest))
    case Nested(d) =>
      var x :- DecodeStruct(d, into.r, buf);
      Some(Decoded(Record(x.value), x.rest))
  }

  /** The object `o` with the bits of a byte stored in `count` fields from `first` on. */
  function StoreBits(o: StructVal, first: nat, count: nat, byte: nat): (r: StructVal)
    requires first + count <= |o.fields|
    ensures r.flags == o.flags && |r.fields| == |o.fields|
    ensures forall k :: 0 <= k < |o.fields| ==>
              r.fields[k] == if first <= k < first + count then Flag(Words.Bit(byte, k - first)) else o.fields[k]
    decreases count
  {
    if count == 0 then o else
      var p := StoreBits(o, first, count - 1, byte);
      p.(fields := p.fields[first + count - 1 := Flag(Words.Bit(byte, count - 1))])
  }

  function DecodeStatement(d: StructDef, st: Statement, o: StructVal, buf: seq<Byte>): (r: Option<Decoded<StructVal>>)
    requires Sound(d) && Fitting(d, st) && ShapedStruct(d, o)
    ensures r.Some? ==> ShapedStruct(d, r.value.value)
    decreases d, 0
  {
    match st
    case Flags => var x :- Take(d.pack, buf); Some(Decoded(o.(flags := Get(x.value)), x.rest))
    case Guarded(i) =>
      if Present(d, o.flags, i) then
        var x :- DecodeField(d.fields[i], o.fields[i], buf);
        Some(Decoded(o.(fields := o.fields[i := x.value]), x.rest))
      else Some(Decoded(o, buf))
    case Plain(i) =>
      var x :- DecodeField(d.fields[i], o.fields[i], buf);
      Some(Decoded(o.(fields := o.fields[i := x.value]), x.rest))
    case BitGroup(first, count) =>
      var x :- Take(1, buf); Some(Decoded(StoreBits(o, first, count, Get(x.value)), x.rest))
  }

  function DecodeBody(d: StructDef, sts: seq<Statement>, o: StructVal, buf: seq<Byte>): (r: Option<Decoded<StructVal>>)
    requires Sound(d) && AllFitting(d, sts) && ShapedStruct(d, o)
    ensures r.Some? ==> ShapedStruct(d, r.value.value)
    decreases d, 1, |sts|
  {
    if sts == [] then Some(Decoded(o, buf)) else
      var x :- DecodeStatement(d, sts[0], o, buf);
      DecodeBody(d, sts[1..], x.value, x.rest)
  }

  /** None also for a wrong type code; the size field is read and ignored. */
  function DecodeStruct(d: StructDef, o: StructVal, buf: seq<Byte>): (r: Option<Decoded<StructVal>>)
    requires Sound(d) && ShapedStruct(d, o)
    ensures r.Some? ==> ShapedStruct(d, r.value.value)
    decreases d, 2
  {
    var size :- Take(d.sizeWidth, buf);
    var code :- Take(if d.code.Some? then 2 else 0, size.rest);
    if d.code.Some? && Get(code.value) != d.code.value then None else
      EmitFits(d);
      DecodeBody(d, Emit(d), o, code.rest)
  }

  // ------------------------------------------------------------ the statements fit the definition

  lemma {:induction false} GuardedFits(fields: seq<FieldType>, i: nat)
    requires i <= |fields|
    ensures forall g :: 0 <= g < |GuardedFrom(fields, i)| ==>
              var st := GuardedFrom(fields, i)[g];
              st.Guarded? && i <= st.i < |fields| && !fields[st.i].Bit?
    decreases |fields| - i
  {
    if i < |fields| {
      GuardedFits(fields, i + 1);
    }
  }

  lemma EmitFits(d: StructDef)
    ensures AllFitting(d, Emit(d))
  {
    GuardedFits(d.fields, 0);
    GroupsCover(d.fields, 0);
  }
}
