/**
  The generated codec is right: what encode writes is as long as the size functions say,
  encode fails exactly when a string that is present is too long for its length prefix,
  and decode reads back every field that was present and nothing else.
 */
module StructRoundTrip {
  import opened Options
  import opened Words
  import opened StructGen
  import opened StructCodec

  // ------------------------------------------------------------ the result of decoding into an object

  predicate OverlaidField(t: FieldType, x: Value, into: Value, y: Value)
    requires SoundField(t) && Typed(t, x) && Shaped(t, into)
    decreases t, 0
  {
    if t.Nested? then y.Record? && Overlaid(t.def, x.r, into.r, y.r) else y == x
  }

  /** Field `i` of `r` is that of `v` when present there, and is left alone otherwise. */
  predicate Slot(d: StructDef, v: StructVal, o: StructVal, r: StructVal, i: nat)
    requires Sound(d) && TypedStruct(d, v) && ShapedStruct(d, o) && |r.fields| == |d.fields| && i < |d.fields|
    decreases d, 0
  {
    if Present(d, v.flags, i) && !(d.Packed() && d.fields[i].Bit?)
    then OverlaidField(d.fields[i], v.fields[i], o.fields[i], r.fields[i])
    else r.fields[i] == o.fields[i]
  }

  /** `r` is the object `o` with everything present in `v` written over it. */
  predicate Overlaid(d: StructDef, v: StructVal, o: StructVal, r: StructVal)
    requires Sound(d) && TypedStruct(d, v) && ShapedStruct(d, o)
    decreases d, 1
  {
    && |r.fields| == |d.fields| && r.flags == (if d.Packed() then v.flags else o.flags)
    && forall i :: 0 <= i < |d.fields| ==> Slot(d, v, o, r, i)
  }

  // ------------------------------------------------------------ round trip

  lemma TakePrefix(a: seq<Byte>, rest: seq<Byte>)
    ensures Take(|a|, a + rest) == Some(Decoded(a, rest))
  {
    assert (a + rest)[..|a|] == a && (a + rest)[|a|..] == rest;
  }

  lemma Assoc(a: seq<Byte>, b: seq<Byte>, c: seq<Byte>)
    ensures a + b + c == a + (b + c)
  {
  }

  lemma StringRoundTrip(w: nat, s: seq<Byte>, rest: seq<Byte>)
    requires |s| < Limit(w)
    ensures Take(w, Put(w, |s|) + s + rest) == Some(Decoded(Put(w, |s|), s + rest))
    ensures Get(Put(w, |s|)) == |s| && Take(|s|, s + rest) == Some(Decoded(s, rest))
  {
    GetPut(w, |s|);
    Assoc(Put(w, |s|), s, rest);
    TakePrefix(Put(w, |s|), s + rest);
    TakePrefix(s, rest);
  }

  lemma {:induction false} FieldRoundTrip(t: FieldType, x: Value, into: Value, rest: seq<Byte>) returns (y: Value)
    requires SoundField(t) && Typed(t, x) && Shaped(t, into) && EncodeField(t, x).Some?
    ensures DecodeField(t, into, EncodeField(t, x).value + rest) == Some(Decoded(y, rest))
    ensures OverlaidField(t, x, into, y)
    decreases t, 0
  {
    var bs := EncodeField(t, x).value;
    y := x;
    match t
    case Nested(d) =>
      var r := RoundTrip(d, x.r, into.r, rest);
      y := Record(r);
    case Str(w) =>
      StringRoundTrip(w, x.s, rest);
    case Uint(w) =>
      GetPut(w, x.n);
      TakePrefix(bs, rest);
    case Raw(n) =>
      TakePrefix(bs, rest);
    case _ =>
      assert Limit(1) == 256 by { assert Limit(0) == 1; }
      GetPut(1, if x.b then 1 else 0);
      TakePrefix(bs, rest);
  }

  /** A byte of bits comes back as those bits. */
  lemma BitGroupRoundTrip(d: StructDef, first: nat, count: nat, v: StructVal, o: StructVal, rest: seq<Byte>)
    returns (r: StructVal)
    requires Sound(d) && TypedStruct(d, v) && ShapedStruct(d, o) && Fitting(d, BitGroup(first, count))
    ensures DecodeStatement(d, BitGroup(first, count), o, EncodeStatement(d, BitGroup(first, count), v).value + rest)
         == Some(Decoded(r, rest))
    ensures ShapedStruct(d, r) && r.flags == o.flags
    ensures forall k :: 0 <= k < |d.fields| ==>
              r.fields[k] == if first <= k < first + count then v.fields[k] else o.fields[k]
  {
    assert forall k :: first <= k < first + count ==> Typed(d.fields[k], v.fields[k]);
    var bs := GroupBits(v, first, count);
    ByteRoundTrip(bs, rest);
    r := StoreBits(o, first, count, PackBits(bs));
    StoredBits(v, o, first, count);
    assert Some(Decoded(r, rest)) ==
           DecodeStatement(d, BitGroup(first, count), o, Put(1, PackBits(bs)) + rest);
  }

  lemma StoredBits(v: StructVal, o: StructVal, first: nat, count: nat)
    requires first + count <= |v.fields| == |o.fields|
    requires forall k :: first <= k < first + count ==> v.fields[k].Flag?
    ensures var r := StoreBits(o, first, count, PackBits(GroupBits(v, first, count)));
            forall k :: first <= k < first + count ==> r.fields[k] == v.fields[k]
  {
    var bs := GroupBits(v, first, count);
    var r := StoreBits(o, first, count, PackBits(bs));
    forall k | first <= k < first + count ensures r.fields[k] == v.fields[k] {
      PackBitsBit(bs, k - first);
    }
  }

  lemma ByteRoundTrip(bs: seq<bool>, rest: seq<Byte>)
    requires |bs| <= 8
    ensures Take(1, Put(1, PackBits(bs)) + rest) == Some(Decoded(Put(1, PackBits(bs)), rest))
    ensures Get(Put(1, PackBits(bs))) == PackBits(bs)
  {
    PackBitsBound(bs);
    Pow2Grows(|bs|, 8);
    assert Limit(1) == 256 && Pow2(8) == 256 by { assert Limit(0) == 1; }
    GetPut(1, PackBits(bs));
    TakePrefix(Put(1, PackBits(bs)), rest);
  }

  lemma {:induction false} Pow2Grows(a: nat, b: nat)
    requires a <= b
    ensures Pow2(a) <= Pow2(b)
  {
    if a < b { Pow2Grows(a, b - 1); }
  }

  /** `r` is `o` with the fields from `i` on filled in. */
  predicate Filled(d: StructDef, v: StructVal, o: StructVal, r: StructVal, i: nat)
    requires Sound(d) && TypedStruct(d, v) && ShapedStruct(d, o) && i <= |d.fields|
  {
    && ShapedStruct(d, r) && r.flags == o.flags
    && (forall k :: 0 <= k < i ==> r.fields[k] == o.fields[k])
    && (forall k :: i <= k < |d.fields| ==> Slot(d, v, o, r, k))
  }

  /** Guarded statements from field `i` on fill in the fields from `i` on. */
  lemma {:induction false} GuardedRoundTrip(d: StructDef, i: nat, v: StructVal, o: StructVal, rest: seq<Byte>)
    returns (r: StructVal)
    requires Sound(d) && d.Packed() && TypedStruct(d, v) && ShapedStruct(d, o) && o.flags == v.flags
    requires i <= |d.fields| && AllFitting(d, GuardedFrom(d.fields, i))
    requires EncodeBody(d, GuardedFrom(d.fields, i), v).Some?
    ensures DecodeBody(d, GuardedFrom(d.fields, i), o, EncodeBody(d, GuardedFrom(d.fields, i), v).value + rest)
         == Some(Decoded(r, rest))
    ensures Filled(d, v, o, r, i)
    decreases d, 1, |d.fields| - i
  {
    var sts := GuardedFrom(d.fields, i);
    if i == |d.fields| {
      r := o;
      assert [] + rest == rest;
    } else if d.fields[i].Bit? {
      assert sts == GuardedFrom(d.fields, i + 1);
      r := GuardedRoundTrip(d, i + 1, v, o, rest);
      FilledBit(d, v, o, r, i);
    } else {
      var tail := GuardedFrom(d.fields, i + 1);
      assert sts[0] == Guarded(i) && sts[1..] == tail;
      assert AllFitting(d, tail) by { GuardedFits(d.fields, i + 1); }
      var p := GuardedStep(d, i, v, o, EncodeBody(d, tail, v).value + rest);
      r := GuardedRoundTrip(d, i + 1, v, p, rest);
      BodyStep(d, sts, v, o, p, rest);
      FilledJoin(d, v, o, p, r, i, i + 1);
    }
  }

  lemma FilledBit(d: StructDef, v: StructVal, o: StructVal, r: StructVal, i: nat)
    requires Sound(d) && d.Packed() && TypedStruct(d, v) && ShapedStruct(d, o)
    requires i < |d.fields| && d.fields[i].Bit? && Filled(d, v, o, r, i + 1)
    ensures Filled(d, v, o, r, i)
  {
    BitSlot(d, v, o, r, i);
  }

  /** `p` is `o` with the fields from `i` up to `end` filled in. */
  predicate FilledPart(d: StructDef, v: StructVal, o: StructVal, p: StructVal, i: nat, end: nat)
    requires Sound(d) && TypedStruct(d, v) && ShapedStruct(d, o) && i <= end <= |d.fields|
  {
    && ShapedStruct(d, p) && p.flags == o.flags
    && (forall k :: 0 <= k < |d.fields| && !(i <= k < end) ==> p.fields[k] == o.fields[k])
    && (forall k :: i <= k < end ==> Slot(d, v, o, p, k))
  }

  lemma FilledJoin(d: StructDef, v: StructVal, o: StructVal, p: StructVal, r: StructVal, i: nat, end: nat)
    requires Sound(d) && TypedStruct(d, v) && ShapedStruct(d, o) && i <= end <= |d.fields|
    requires FilledPart(d, v, o, p, i, end) && Filled(d, v, p, r, end)
    ensures Filled(d, v, o, r, i)
  {
    SlotsJoin(d, v, o, p, r, i, end);
  }

  /** A bit of a packed struct is its flag: there is nothing to fill in. */
  lemma BitSlot(d: StructDef, v: StructVal, o: StructVal, r: StructVal, i: nat)
    requires Sound(d) && d.Packed() && TypedStruct(d, v) && ShapedStruct(d, o) && ShapedStruct(d, r)
    requires i < |d.fields| && d.fields[i].Bit? && r.fields[i] == o.fields[i]
    ensures Slot(d, v, o, r, i)
  {
  }

  /** A field untouched so far still has to be filled in from the original object. */
  lemma SlotFrom(d: StructDef, v: StructVal, o: StructVal, p: StructVal, r: StructVal, k: nat)
    requires Sound(d) && TypedStruct(d, v) && ShapedStruct(d, o) && ShapedStruct(d, p) && |r.fields| == |d.fields|
    requires k < |d.fields| && p.fields[k] == o.fields[k]
    ensures Slot(d, v, p, r, k) <==> Slot(d, v, o, r, k)
  {
  }

  /** Fields filled in by one statement and then left alone, and fields filled in by the statements after it. */
  lemma SlotsJoin(d: StructDef, v: StructVal, o: StructVal, p: StructVal, r: StructVal, i: nat, end: nat)
    requires Sound(d) && TypedStruct(d, v) && ShapedStruct(d, o) && ShapedStruct(d, p) && ShapedStruct(d, r)
    requires i <= end <= |d.fields|
    requires forall k :: i <= k < end ==> Slot(d, v, o, p, k) && r.fields[k] == p.fields[k]
    requires forall k :: end <= k < |d.fields| ==> Slot(d, v, p, r, k) && p.fields[k] == o.fields[k]
    ensures forall k :: i <= k < |d.fields| ==> Slot(d, v, o, r, k)
  {
    forall k | i <= k < |d.fields| ensures Slot(d, v, o, r, k) {
      if k < end { SlotKept(d, v, o, p, r, k); } else { SlotFrom(d, v, o, p, r, k); }
    }
  }

  lemma SlotKept(d: StructDef, v: StructVal, o: StructVal, p: StructVal, r: StructVal, k: nat)
    requires Sound(d) && TypedStruct(d, v) && ShapedStruct(d, o) && ShapedStruct(d, p) && ShapedStruct(d, r)
    requires k < |d.fields| && r.fields[k] == p.fields[k] && Slot(d, v, o, p, k)
    ensures Slot(d, v, o, r, k)
  {
  }

  /** One guarded statement writes its field, or nothing when the flag is clear. */
  lemma {:induction false} GuardedStep(d: StructDef, i: nat, v: StructVal, o: StructVal, rest: seq<Byte>)
    returns (p: StructVal)
    requires Sound(d) && TypedStruct(d, v) && ShapedStruct(d, o) && o.flags == v.flags && Fitting(d, Guarded(i))
    requires EncodeStatement(d, Guarded(i), v).Some?
    ensures DecodeStatement(d, Guarded(i), o, EncodeStatement(d, Guarded(i), v).value + rest) == Some(Decoded(p, rest))
    ensures FilledPart(d, v, o, p, i, i + 1)
    decreases d, 0
  {
    p := o;
    if Present(d, v.flags, i) {
      assert Typed(d.fields[i], v.fields[i]);
      var y := FieldRoundTrip(d.fields[i], v.fields[i], o.fields[i], rest);
      p := o.(fields := o.fields[i := y]);
    } else {
      assert [] + rest == rest;
    }
  }

  /** Decoding a list of statements starts with the first one. */
  lemma BodyStep(d: StructDef, sts: seq<Statement>, v: StructVal, o: StructVal, p: StructVal, rest: seq<Byte>)
    requires Sound(d) && TypedStruct(d, v) && ShapedStruct(d, o) && AllFitting(d, sts) && sts != []
    requires EncodeBody(d, sts, v).Some? && ShapedStruct(d, p)
    requires DecodeStatement(d, sts[0], o,
                             EncodeStatement(d, sts[0], v).value + (EncodeBody(d, sts[1..], v).value + rest))
          == Some(Decoded(p, EncodeBody(d, sts[1..], v).value + rest))
    ensures DecodeBody(d, sts, o, EncodeBody(d, sts, v).value + rest)
         == DecodeBody(d, sts[1..], p, EncodeBody(d, sts[1..], v).value + rest)
  {
    var a, b := EncodeStatement(d, sts[0], v).value, EncodeBody(d, sts[1..], v).value;
    Assoc(a, b, rest);
  }

  lemma GroupsHead(d: StructDef, i: nat)
    requires i < |d.fields| && AllFitting(d, GroupsFrom(d.fields, i))
    ensures var st := NextGroup(d.fields, i); var sts, tail := GroupsFrom(d.fields, i), GroupsFrom(d.fields, End(st));
            sts[0] == st && sts[1..] == tail && Fitting(d, st) && AllFitting(d, tail)
  {
    var st := NextGroup(d.fields, i);
    var sts, tail := GroupsFrom(d.fields, i), GroupsFrom(d.fields, End(st));
    assert sts[0] == st && sts[1..] == tail;
    forall g | 0 <= g < |tail| ensures Fitting(d, tail[g]) { assert sts[g + 1] == tail[g]; }
  }

  /** A group fills in its own fields. */
  lemma {:induction false} GroupStep(d: StructDef, st: Statement, v: StructVal, o: StructVal, rest: seq<Byte>)
    returns (p: StructVal)
    requires Sound(d) && TypedStruct(d, v) && ShapedStruct(d, o) && Fitting(d, st) && (st.Plain? || st.BitGroup?)
    requires EncodeStatement(d, st, v).Some?
    ensures DecodeStatement(d, st, o, EncodeStatement(d, st, v).value + rest) == Some(Decoded(p, rest))
    ensures FilledPart(d, v, o, p, Begin(st), End(st))
    decreases d, 0
  {
    if st.Plain? {
      assert Typed(d.fields[st.i], v.fields[st.i]);
      var y := FieldRoundTrip(d.fields[st.i], v.fields[st.i], o.fields[st.i], rest);
      p := o.(fields := o.fields[st.i := y]);
    } else {
      p := BitGroupRoundTrip(d, st.first, st.count, v, o, rest);
    }
  }

  /** Groups from field `i` on fill in the fields from `i` on. */
  lemma {:induction false} GroupsRoundTrip(d: StructDef, i: nat, v: StructVal, o: StructVal, rest: seq<Byte>)
    returns (r: StructVal)
    requires Sound(d) && !d.Packed() && TypedStruct(d, v) && ShapedStruct(d, o)
    requires i <= |d.fields| && AllFitting(d, GroupsFrom(d.fields, i))
    requires EncodeBody(d, GroupsFrom(d.fields, i), v).Some?
    ensures DecodeBody(d, GroupsFrom(d.fields, i), o, EncodeBody(d, GroupsFrom(d.fields, i), v).value + rest)
         == Some(Decoded(r, rest))
    ensures Filled(d, v, o, r, i)
    decreases d, 1, |d.fields| - i
  {
    var sts := GroupsFrom(d.fields, i);
    if i == |d.fields| {
      r := o;
      assert [] + rest == rest;
    } else {
      var st := NextGroup(d.fields, i);
      var tail := GroupsFrom(d.fields, End(st));
      GroupsHead(d, i);
      var p := GroupStep(d, st, v, o, EncodeBody(d, tail, v).value + rest);
      r := GroupsRoundTrip(d, End(st), v, p, rest);
      BodyStep(d, sts, v, o, p, rest);
      FilledJoin(d, v, o, p, r, i, End(st));
    }
  }

  lemma {:induction false} PackedRoundTrip(d: StructDef, v: StructVal, o: StructVal, rest: seq<Byte>)
    returns (r: StructVal)
    requires Sound(d) && d.Packed() && TypedStruct(d, v) && ShapedStruct(d, o)
    requires AllFitting(d, Emit(d)) && EncodeBody(d, Emit(d), v).Some?
    ensures DecodeBody(d, Emit(d), o, EncodeBody(d, Emit(d), v).value + rest) == Some(Decoded(r, rest))
    ensures Overlaid(d, v, o, r)
    decreases d, 2
  {
    var sts, tail := Emit(d), GuardedFrom(d.fields, 0);
    assert sts[0] == Flags && sts[1..] == tail;
    GuardedFits(d.fields, 0);
    var flags, b := Put(d.pack, v.flags), EncodeBody(d, tail, v).value;
    GetPut(d.pack, v.flags);
    TakePrefix(flags, b + rest);
    var p := o.(flags := v.flags);
    assert DecodeStatement(d, sts[0], o, flags + (b + rest)) == Some(Decoded(p, b + rest));
    r := GuardedRoundTrip(d, 0, v, p, rest);
    BodyStep(d, sts, v, o, p, rest);
    forall k | 0 <= k < |d.fields| ensures Slot(d, v, o, r, k) {
      SlotFrom(d, v, o, p, r, k);
    }
  }

  lemma {:induction false} BodyRoundTrip(d: StructDef, v: StructVal, o: StructVal, rest: seq<Byte>)
    returns (r: StructVal)
    requires Sound(d) && TypedStruct(d, v) && ShapedStruct(d, o)
    requires AllFitting(d, Emit(d)) && EncodeBody(d, Emit(d), v).Some?
    ensures DecodeBody(d, Emit(d), o, EncodeBody(d, Emit(d), v).value + rest) == Some(Decoded(r, rest))
    ensures Overlaid(d, v, o, r)
    decreases d, 3
  {
    if d.Packed() {
      r := PackedRoundTrip(d, v, o, rest);
    } else {
      assert Emit(d) == GroupsFrom(d.fields, 0);
      r := GroupsRoundTrip(d, 0, v, o, rest);
    }
  }

  lemma StructIsPrefixAndBody(d: StructDef, v: StructVal)
    requires Sound(d) && TypedStruct(d, v)
    ensures AllFitting(d, Emit(d))
    ensures EncodeStruct(d, v).Some? <==> EncodeBody(d, Emit(d), v).Some?
    ensures EncodeStruct(d, v).Some? ==> EncodeStruct(d, v).value == Prefix(d, v) + EncodeBody(d, Emit(d), v).value
  {
    EmitFits(d);
  }

  lemma SkipPrefix(d: StructDef, v: StructVal, o: StructVal, body: seq<Byte>)
    requires Sound(d) && TypedStruct(d, v) && ShapedStruct(d, o)
    ensures AllFitting(d, Emit(d))
    ensures DecodeStruct(d, o, Prefix(d, v) + body) == DecodeBody(d, Emit(d), o, body)
  {
    EmitFits(d);
    var size := if d.sizeWidth != 0 then Put(d.sizeWidth, BodySize(d, v) + (if d.code.Some? then 2 else 0)) else [];
    var code := if d.code.Some? then Put(2, d.code.value) else [];
    Assoc(size, code, body);
    TakePrefix(size, code + body);
    TakePrefix(code, body);
    if d.code.Some? { GetPut(2, d.code.value); }
  }

  /**
    Decoding what was encoded, into any object of the right shape and with any bytes
    following, writes exactly the present fields over that object and stops where the
    encoding stopped.
   */
  lemma {:induction false} RoundTrip(d: StructDef, v: StructVal, o: StructVal, rest: seq<Byte>) returns (r: StructVal)
    requires Sound(d) && TypedStruct(d, v) && ShapedStruct(d, o) && EncodeStruct(d, v).Some?
    ensures DecodeStruct(d, o, EncodeStruct(d, v).value + rest) == Some(Decoded(r, rest))
    ensures Overlaid(d, v, o, r)
    decreases d, 4
  {
    StructIsPrefixAndBody(d, v);
    var body := EncodeBody(d, Emit(d), v).value;
    SkipPrefix(d, v, o, body + rest);
    Assoc(Prefix(d, v), body, rest);
    r := BodyRoundTrip(d, v, o, rest);
  }

  // ------------------------------------------------------------ sizes

  lemma {:induction false} FieldSizeIs(t: FieldType, x: Value)
    requires SoundField(t) && Typed(t, x) && EncodeField(t, x).Some?
    ensures |EncodeField(t, x).value| == SizeField(t, x)
    decreases t, 0
  {
    if t.Nested? { SizesAgree(t.def, x.r); }
  }

  lemma {:induction false} BodySizeIs(d: StructDef, sts: seq<Statement>, v: StructVal)
    requires Sound(d) && TypedStruct(d, v) && AllFitting(d, sts) && EncodeBody(d, sts, v).Some?
    ensures |EncodeBody(d, sts, v).value| == SizeOf(d, sts, v)
    decreases d, 1, |sts|
  {
    if sts != [] {
      var st := sts[0];
      if (st.Guarded? && Present(d, v.flags, st.i)) || st.Plain? {
        assert Typed(d.fields[st.i], v.fields[st.i]);
        FieldSizeIs(d.fields[st.i], v.fields[st.i]);
      }
      BodySizeIs(d, sts[1..], v);
    }
  }

  /** The bytes written are as many as encodedSize() says. */
  lemma {:induction false} SizesAgree(d: StructDef, v: StructVal)
    requires Sound(d) && TypedStruct(d, v) && EncodeStruct(d, v).Some?
    ensures |EncodeStruct(d, v).value| == EncodedSize(d, v)
    decreases d, 2
  {
    EmitFits(d);
    BodySizeIs(d, Emit(d), v);
  }

  // ------------------------------------------------------------ when encoding succeeds

  predicate FitsField(t: FieldType, x: Value)
    requires SoundField(t) && Typed(t, x)
    decreases t, 0
  {
    match t
    case Str(w) => |x.s| < Limit(w)
    case Nested(d) => Fits(d, x.r)
    case _ => true
  }

  /** Every string that is present, at any depth, is short enough for its length prefix. */
  predicate Fits(d: StructDef, v: StructVal)
    requires Sound(d) && TypedStruct(d, v)
    decreases d, 1
  {
    forall i :: 0 <= i < |d.fields| ==>
      (Present(d, v.flags, i) && !d.fields[i].Bit? ==> FitsField(d.fields[i], v.fields[i]))
  }

  predicate SlotFits(d: StructDef, v: StructVal, i: nat)
    requires Sound(d) && TypedStruct(d, v) && i < |d.fields|
  {
    Present(d, v.flags, i) && !d.fields[i].Bit? ==> FitsField(d.fields[i], v.fields[i])
  }

  lemma FitsBySlot(d: StructDef, v: StructVal)
    requires Sound(d) && TypedStruct(d, v)
    ensures Fits(d, v) <==> forall i :: 0 <= i < |d.fields| ==> SlotFits(d, v, i)
  {
    if forall i :: 0 <= i < |d.fields| ==> SlotFits(d, v, i) {
      forall i | 0 <= i < |d.fields| && Present(d, v.flags, i) && !d.fields[i].Bit?
        ensures FitsField(d.fields[i], v.fields[i])
      {
        assert SlotFits(d, v, i);
      }
    }
  }

  lemma {:induction false} FieldEncodes(t: FieldType, x: Value)
    requires SoundField(t) && Typed(t, x)
    ensures EncodeField(t, x).Some? <==> FitsField(t, x)
    decreases t, 0
  {
    if t.Nested? { EncodesExactly(t.def, x.r); }
  }

  lemma BodyEncodes(d: StructDef, sts: seq<Statement>, v: StructVal)
    requires Sound(d) && TypedStruct(d, v) && AllFitting(d, sts) && sts != []
    ensures EncodeBody(d, sts, v).Some? <==>
            EncodeStatement(d, sts[0], v).Some? && EncodeBody(d, sts[1..], v).Some?
  {
  }

  lemma {:induction false} OneFieldEncodes(d: StructDef, st: Statement, v: StructVal)
    requires Sound(d) && TypedStruct(d, v) && Fitting(d, st)
    requires st.Guarded? || (st.Plain? && !d.fields[st.i].Bit?)
    ensures EncodeStatement(d, st, v).Some? <==> SlotFits(d, v, st.i)
    decreases d, 0, 0
  {
    assert Typed(d.fields[st.i], v.fields[st.i]);
    FieldEncodes(d.fields[st.i], v.fields[st.i]);
  }

  lemma {:induction false} GuardedEncodes(d: StructDef, i: nat, v: StructVal)
    requires Sound(d) && d.Packed() && TypedStruct(d, v) && i <= |d.fields|
    requires AllFitting(d, GuardedFrom(d.fields, i))
    ensures EncodeBody(d, GuardedFrom(d.fields, i), v).Some? <==>
            forall k :: i <= k < |d.fields| ==> SlotFits(d, v, k)
    decreases d, 1, |d.fields| - i
  {
    if i < |d.fields| {
      var sts, tail := GuardedFrom(d.fields, i), GuardedFrom(d.fields, i + 1);
      GuardedFits(d.fields, i + 1);
      GuardedEncodes(d, i + 1, v);
      if d.fields[i].Bit? {
        assert sts == tail;
      } else {
        assert sts[0] == Guarded(i) && sts[1..] == tail;
        OneFieldEncodes(d, sts[0], v);
        BodyEncodes(d, sts, v);
      }
    }
  }

  lemma {:induction false} GroupEncodes(d: StructDef, st: Statement, v: StructVal)
    requires Sound(d) && TypedStruct(d, v) && Fitting(d, st) && Group(d.fields, st)
    ensures EncodeStatement(d, st, v).Some? <==> forall k :: Begin(st) <= k < End(st) ==> SlotFits(d, v, k)
    decreases d, 0, 1
  {
    if st.Plain? {
      OneFieldEncodes(d, st, v);
    }
  }

  lemma {:induction false} GroupsEncode(d: StructDef, i: nat, v: StructVal)
    requires Sound(d) && !d.Packed() && TypedStruct(d, v) && i <= |d.fields|
    requires AllFitting(d, GroupsFrom(d.fields, i))
    ensures EncodeBody(d, GroupsFrom(d.fields, i), v).Some? <==>
            forall k :: i <= k < |d.fields| ==> SlotFits(d, v, k)
    decreases d, 1, |d.fields| - i
  {
    if i < |d.fields| {
      var st := NextGroup(d.fields, i);
      GroupsHead(d, i);
      GroupsEncode(d, End(st), v);
      BodyEncodes(d, GroupsFrom(d.fields, i), v);
      GroupEncodes(d, st, v);
    }
  }

  /** Encoding succeeds exactly when every string present fits its length prefix. */
  lemma {:induction false} EncodesExactly(d: StructDef, v: StructVal)
    requires Sound(d) && TypedStruct(d, v)
    ensures EncodeStruct(d, v).Some? <==> Fits(d, v)
    decreases d, 2
  {
    StructIsPrefixAndBody(d, v);
    FitsBySlot(d, v);
    if d.Packed() {
      var sts, tail := Emit(d), GuardedFrom(d.fields, 0);
      assert sts[0] == Flags && sts[1..] == tail;
      GuardedFits(d.fields, 0);
      GuardedEncodes(d, 0, v);
      BodyEncodes(d, sts, v);
    } else {
      assert Emit(d) == GroupsFrom(d.fields, 0);
      GroupsEncode(d, 0, v);
    }
  }

  // ------------------------------------------------------------ the size prefix

  lemma {:induction false} GetBound(bs: seq<Byte>)
    ensures Get(bs) < Limit(|bs|)
  {
    if bs != [] { GetBound(bs[..|bs| - 1]); }
  }

  /** The size read back counts the bytes that follow it if and only if that count fits the size field. */
  lemma SizePrefixExact(d: StructDef, v: StructVal)
    requires Sound(d) && TypedStruct(d, v) && EncodeStruct(d, v).Some?
    ensures |EncodeStruct(d, v).value| >= d.sizeWidth
    ensures var bytes := EncodeStruct(d, v).value; var after := |bytes| - d.sizeWidth;
            Get(bytes[..d.sizeWidth]) == after <==> after < Limit(d.sizeWidth)
  {
    var bytes := EncodeStruct(d, v).value;
    SizesAgree(d, v);
    StructIsPrefixAndBody(d, v);
    var after := EncodedSize(d, v) - d.sizeWidth;
    assert bytes[..d.sizeWidth] == Put(d.sizeWidth, after);
    GetBound(Put(d.sizeWidth, after));
    if after < Limit(d.sizeWidth) { GetPut(d.sizeWidth, after); }
  }

  // ------------------------------------------------------------ when the very value comes back

  /** Whatever is absent from the value is in the target as it is in the value, at any depth. */
  predicate Matches(d: StructDef, v: StructVal, o: StructVal)
    requires Sound(d) && TypedStruct(d, v) && ShapedStruct(d, o)
    decreases d, 1
  {
    (d.Packed() || o.flags == v.flags) && forall i :: 0 <= i < |d.fields| ==> MatchesSlot(d, v, o, i)
  }

  predicate MatchesSlot(d: StructDef, v: StructVal, o: StructVal, i: nat)
    requires Sound(d) && TypedStruct(d, v) && ShapedStruct(d, o) && i < |d.fields|
    decreases d, 0
  {
    if Present(d, v.flags, i) && !(d.Packed() && d.fields[i].Bit?)
    then MatchesField(d.fields[i], v.fields[i], o.fields[i])
    else v.fields[i] == o.fields[i]
  }

  predicate MatchesField(t: FieldType, x: Value, into: Value)
    requires SoundField(t) && Typed(t, x) && Shaped(t, into)
    decreases t, 0
  {
    t.Nested? ==> Matches(t.def, x.r, into.r)
  }

  lemma {:induction false} OverlayMatches(d: StructDef, v: StructVal, o: StructVal, r: StructVal)
    requires Sound(d) && TypedStruct(d, v) && ShapedStruct(d, o) && Overlaid(d, v, o, r)
    ensures r == v <==> Matches(d, v, o)
    decreases d
  {
    forall i | 0 <= i < |d.fields| ensures r.fields[i] == v.fields[i] <==> MatchesSlot(d, v, o, i) {
      assert Slot(d, v, o, r, i);
      assert Typed(d.fields[i], v.fields[i]) && Shaped(d.fields[i], o.fields[i]);
      if Present(d, v.flags, i) && !(d.Packed() && d.fields[i].Bit?) {
        OverlayMatchesField(d.fields[i], v.fields[i], o.fields[i], r.fields[i]);
      }
    }
    assert r == v <==> r.flags == v.flags && r.fields == v.fields;
  }

  lemma {:induction false} OverlayMatchesField(t: FieldType, x: Value, into: Value, y: Value)
    requires SoundField(t) && Typed(t, x) && Shaped(t, into) && OverlaidField(t, x, into, y)
    ensures y == x <==> MatchesField(t, x, into)
    decreases t
  {
    if t.Nested? { OverlayMatches(t.def, x.r, into.r, y.r); }
  }

  /** Into any object, decode gives back the very value encoded if and only if they match where it is absent. */
  lemma RoundTripInto(d: StructDef, v: StructVal, o: StructVal, rest: seq<Byte>)
    requires Sound(d) && TypedStruct(d, v) && ShapedStruct(d, o) && Fits(d, v)
    ensures EncodeStruct(d, v).Some?
    ensures DecodeStruct(d, o, EncodeStruct(d, v).value + rest) == Some(Decoded(v, rest)) <==> Matches(d, v, o)
  {
    EncodesExactly(d, v);
    var r := RoundTrip(d, v, o, rest);
    OverlayMatches(d, v, o, r);
  }

  // ------------------------------------------------------------ into a fresh object

  /** What the default constructor leaves in a field; a boolean it leaves unset, so that is a parameter. */
  function FreshField(t: FieldType, unset: bool): Value
    decreases t, 0
  {
    match t
    case Bit => Flag(false)
    case Boolean => Flag(unset)
    case Uint(_) => Number(0)
    case Raw(n) => Text(Put(n, 0))
    case Str(_) => Text([])
    case Nested(d) => Record(Fresh(d, unset))
  }

  function FreshFrom(d: StructDef, i: nat, unset: bool): (xs: seq<Value>)
    requires i <= |d.fields|
    ensures |xs| == |d.fields| - i
    ensures forall k :: i <= k < |d.fields| ==> xs[k - i] == FreshField(d.fields[k], unset)
    decreases d, 1, |d.fields| - i
  {
    if i == |d.fields| then [] else [FreshField(d.fields[i], unset)] + FreshFrom(d, i + 1, unset)
  }

  /** A new object whose booleans, at any depth, all happen to hold the same value. */
  function Fresh(d: StructDef, unset: bool): StructVal
    decreases d, 2
  {
    StructVal(0, FreshFrom(d, 0, unset))
  }

  /** A new object, each of whose booleans may hold anything. */
  predicate IsFresh(d: StructDef, o: StructVal)
    decreases d, 1
  {
    && o.flags == 0 && |o.fields| == |d.fields|
    && forall i :: 0 <= i < |d.fields| ==> IsFreshField(d.fields[i], o.fields[i])
  }

  predicate IsFreshField(t: FieldType, x: Value)
    decreases t, 0
  {
    match t
    case Boolean => x.Flag?
    case Nested(d) => x.Record? && IsFresh(d, x.r)
    case _ => x == FreshField(t, false)
  }

  lemma {:induction false} FreshIsFresh(d: StructDef, unset: bool)
    ensures IsFresh(d, Fresh(d, unset))
    decreases d
  {
    forall i | 0 <= i < |d.fields| ensures IsFreshField(d.fields[i], Fresh(d, unset).fields[i]) {
      if d.fields[i].Nested? { FreshIsFresh(d.fields[i].def, unset); }
    }
  }

  lemma {:induction false} FreshShaped(d: StructDef, o: StructVal)
    requires IsFresh(d, o)
    ensures ShapedStruct(d, o)
    decreases d
  {
    forall i | 0 <= i < |d.fields| ensures Shaped(d.fields[i], o.fields[i]) {
      assert IsFreshField(d.fields[i], o.fields[i]);
      if d.fields[i].Nested? { FreshShaped(d.fields[i].def, o.fields[i].r); }
    }
  }

  /** The default constructor leaves nothing unset in the field. */
  predicate Settled(t: FieldType) {
    FreshField(t, false) == FreshField(t, true)
  }

  lemma {:induction false} SettledFresh(t: FieldType, x: Value)
    requires Settled(t) && IsFreshField(t, x)
    ensures x == FreshField(t, false)
    decreases t
  {
    if t.Nested? {
      var d, o := t.def, x.r;
      forall i | 0 <= i < |d.fields| ensures o.fields[i] == FreshField(d.fields[i], false) {
        assert IsFreshField(d.fields[i], o.fields[i]);
        assert Fresh(d, false).fields[i] == Fresh(d, true).fields[i];
        SettledFresh(d.fields[i], o.fields[i]);
      }
      assert o.fields == Fresh(d, false).fields;
    }
  }

  /** Fields that are not present are of a kind that gets a default, and hold it, at any depth. */
  predicate Normal(d: StructDef, v: StructVal)
    requires Sound(d) && TypedStruct(d, v)
    decreases d, 1
  {
    forall i :: 0 <= i < |d.fields| ==> NormalSlot(d, v, i)
  }

  predicate NormalSlot(d: StructDef, v: StructVal, i: nat)
    requires Sound(d) && TypedStruct(d, v) && i < |d.fields|
    decreases d, 0
  {
    if Present(d, v.flags, i) then NormalField(d.fields[i], v.fields[i])
    else Settled(d.fields[i]) && v.fields[i] == FreshField(d.fields[i], false)
  }

  predicate NormalField(t: FieldType, x: Value)
    requires SoundField(t) && Typed(t, x)
    decreases t, 0
  {
    t.Nested? ==> Normal(t.def, x.r)
  }

  lemma {:induction false} NormalMatches(d: StructDef, v: StructVal, o: StructVal)
    requires Sound(d) && TypedStruct(d, v) && IsFresh(d, o) && ShapedStruct(d, o) && Normal(d, v)
    ensures Matches(d, v, o)
    decreases d
  {
    forall i | 0 <= i < |d.fields| ensures MatchesSlot(d, v, o, i) {
      assert NormalSlot(d, v, i) && IsFreshField(d.fields[i], o.fields[i]);
      assert Typed(d.fields[i], v.fields[i]) && Shaped(d.fields[i], o.fields[i]);
      if !Present(d, v.flags, i) {
        SettledFresh(d.fields[i], o.fields[i]);
      } else {
        NormalMatchesField(d.fields[i], v.fields[i], o.fields[i]);
      }
    }
  }

  lemma {:induction false} NormalMatchesField(t: FieldType, x: Value, into: Value)
    requires SoundField(t) && Typed(t, x) && IsFreshField(t, into) && Shaped(t, into) && NormalField(t, x)
    ensures MatchesField(t, x, into)
    decreases t
  {
    if t.Nested? { NormalMatches(t.def, x.r, into.r); }
  }

  lemma {:induction false} MatchesNormal(d: StructDef, v: StructVal)
    requires Sound(d) && TypedStruct(d, v) && ShapedStruct(d, Fresh(d, false)) && ShapedStruct(d, Fresh(d, true))
    requires Matches(d, v, Fresh(d, false)) && Matches(d, v, Fresh(d, true))
    ensures Normal(d, v)
    decreases d
  {
    forall i | 0 <= i < |d.fields| ensures NormalSlot(d, v, i) {
      assert MatchesSlot(d, v, Fresh(d, false), i) && MatchesSlot(d, v, Fresh(d, true), i);
      assert Typed(d.fields[i], v.fields[i]);
      assert Shaped(d.fields[i], Fresh(d, false).fields[i]) && Shaped(d.fields[i], Fresh(d, true).fields[i]);
      if Present(d, v.flags, i) && !(d.Packed() && d.fields[i].Bit?) {
        MatchesNormalField(d.fields[i], v.fields[i]);
      }
    }
  }

  lemma {:induction false} MatchesNormalField(t: FieldType, x: Value)
    requires SoundField(t) && Typed(t, x) && Shaped(t, FreshField(t, false)) && Shaped(t, FreshField(t, true))
    requires MatchesField(t, x, FreshField(t, false)) && MatchesField(t, x, FreshField(t, true))
    ensures NormalField(t, x)
    decreases t
  {
    if t.Nested? { MatchesNormal(t.def, x.r); }
  }

  /** Decode gives back the very object that was encoded, into whatever a constructor may have left. */
  ghost predicate AlwaysComesBack(d: StructDef, v: StructVal, bytes: seq<Byte>, rest: seq<Byte>)
    requires Sound(d)
  {
    forall o :: IsFresh(d, o) && ShapedStruct(d, o) ==> DecodeStruct(d, o, bytes + rest) == Some(Decoded(v, rest))
  }

  /**
    Into a freshly made object, decode is sure to give back the very object that was encoded if and
    only if that object's absent fields are of kinds that get a default and still hold it.
   */
  lemma RoundTripFresh(d: StructDef, v: StructVal, rest: seq<Byte>)
    requires Sound(d) && TypedStruct(d, v) && Fits(d, v)
    ensures EncodeStruct(d, v).Some?
    ensures AlwaysComesBack(d, v, EncodeStruct(d, v).value, rest) <==> Normal(d, v)
  {
    EncodesExactly(d, v);
    if Normal(d, v) {
      forall o | IsFresh(d, o) && ShapedStruct(d, o)
        ensures DecodeStruct(d, o, EncodeStruct(d, v).value + rest) == Some(Decoded(v, rest))
      {
        NormalMatches(d, v, o);
        RoundTripInto(d, v, o, rest);
      }
    }
    if AlwaysComesBack(d, v, EncodeStruct(d, v).value, rest) {
      FreshMatches(d, v, rest, false);
      FreshMatches(d, v, rest, true);
      MatchesNormal(d, v);
    }
  }

  lemma FreshMatches(d: StructDef, v: StructVal, rest: seq<Byte>, unset: bool)
    requires Sound(d) && TypedStruct(d, v) && Fits(d, v) && EncodeStruct(d, v).Some?
    requires AlwaysComesBack(d, v, EncodeStruct(d, v).value, rest)
    ensures ShapedStruct(d, Fresh(d, unset)) && Matches(d, v, Fresh(d, unset))
  {
    FreshIsFresh(d, unset);
    FreshShaped(d, Fresh(d, unset));
    RoundTripInto(d, v, Fresh(d, unset), rest);
  }

  // ------------------------------------------------------------ accessors of a packed struct

  lemma {:induction false} LimitIsPow2(w: nat)
    ensures Limit(w) == Pow2(8 * w)
  {
    if w > 0 {
      LimitIsPow2(w - 1);
      Pow2Add8(8 * (w - 1));
    }
  }

  lemma Pow2Add8(k: nat)
    ensures Pow2(k + 8) == 256 * Pow2(k)
  {
    assert Pow2(k + 8) == 2 * Pow2(k + 7) == 4 * Pow2(k + 6) == 8 * Pow2(k + 5);
    assert Pow2(k + 5) == 2 * Pow2(k + 4) == 4 * Pow2(k + 3) == 8 * Pow2(k + 2) == 16 * Pow2(k + 1);
  }

  /**
    set, clear and the bit setters touch the flag of their own field and no other, and
    keep the flags within the word.
   */
  lemma SetFlagOnly(d: StructDef, flags: nat, i: nat, j: nat, b: bool)
    requires Sound(d) && d.Packed() && flags < Limit(d.pack) && i < |d.fields| && j < |d.fields|
    ensures var flags' := WithBit(flags, FlagPosition(d.pack, i), b);
            && flags' < Limit(d.pack)
            && Present(d, flags', j) == if i == j then b else Present(d, flags, j)
  {
    FlagsDistinct(d.pack, i, j);
    BitWithBit(flags, FlagPosition(d.pack, i), b, FlagPosition(d.pack, j));
    LimitIsPow2(d.pack);
    WithBitBound(flags, FlagPosition(d.pack, i), b, 8 * d.pack);
  }
}
