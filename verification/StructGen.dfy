/**
  The struct generator: from the field list of a struct definition it decides which
  statements the encoder, the decoder and the size function are made of. A packed struct
  has a word of flags, one bit per field, and a guarded statement for each field that is
  not a bit itself; an unpacked struct gathers adjacent bits into bytes.
 */
module StructGen {
  import opened Options
  import opened Words

  datatype FieldType =
    | Bit
    | Boolean
    | Uint(width: nat)
    | Raw(length: nat)
    | Str(width: nat)
    | Nested(def: StructDef)

  datatype StructDef = StructDef(pack: nat, sizeWidth: nat, code: Option<nat>, fields: seq<FieldType>) {
    predicate Packed() {
      pack != 0
    }
  }

  /** A definition the generator can handle: every field of a packed struct has a flag. */
  predicate Sound(def: StructDef) {
    && (def.Packed() ==> |def.fields| <= 8 * def.pack)
    && (def.code.Some? ==> def.code.value < Limit(2))
    && forall i :: 0 <= i < |def.fields| ==> SoundField(def.fields[i])
  }

  predicate SoundField(t: FieldType) {
    t.Nested? ==> Sound(t.def)
  }

  // ------------------------------------------------------------ flags

  /** The bit of the flag word that stands for field `i`. */
  function FlagPosition(pack: nat, i: nat): nat
    requires i < 8 * pack
  {
    pack * 8 - 8 - i / 8 * 8 + i % 8
  }

  /** Fields have different flags, and all of them lie within the word. */
  lemma FlagsDistinct(pack: nat, i: nat, j: nat)
    requires i < 8 * pack && j < 8 * pack
    ensures FlagPosition(pack, i) < 8 * pack
    ensures FlagPosition(pack, i) == FlagPosition(pack, j) <==> i == j
  {
    var p, q := FlagPosition(pack, i), FlagPosition(pack, j);
    assert p == 8 * (pack - 1 - i / 8) + i % 8 && q == 8 * (pack - 1 - j / 8) + j % 8;
    if p == q {
      assert i % 8 == p % 8 == q % 8 == j % 8;
    }
  }

  /** On the wire the flags come in field order: field `i` is bit i%8 of byte i/8. */
  lemma FlagOnWire(pack: nat, flags: nat, i: nat)
    requires i < 8 * pack
    ensures Words.Bit(Put(pack, flags)[i / 8], i % 8) == Words.Bit(flags, FlagPosition(pack, i))
  {
    BitOnWire(pack, flags, i / 8, i % 8);
  }

  // ------------------------------------------------------------ statements

  datatype Statement =
    | Flags
    | Guarded(i: nat)
    | Plain(i: nat)
    | BitGroup(first: nat, count: nat)

  /** process_packed_fields: a guarded statement for every field that is not a bit. */
  function GuardedFrom(fields: seq<FieldType>, i: nat): seq<Statement>
    requires i <= |fields|
    decreases |fields| - i
  {
    if i == |fields| then []
    else (if fields[i].Bit? then [] else [Guarded(i)]) + GuardedFrom(fields, i + 1)
  }

  /** First field from `i` on that is no bit, or `stop`. */
  function BitsEnd(fields: seq<FieldType>, i: nat, stop: nat): (e: nat)
    requires i <= stop <= |fields|
    ensures i <= e <= stop
    ensures forall k :: i <= k < e ==> fields[k].Bit?
    ensures e < stop ==> !fields[e].Bit?
    decreases stop - i
  {
    if i == stop || !fields[i].Bit? then i else BitsEnd(fields, i + 1, stop)
  }

  /** A statement of an unpacked struct: one field that is no bit, or up to eight adjacent bits. */
  predicate Group(fields: seq<FieldType>, st: Statement) {
    match st
    case Flags => false
    case Guarded(_) => false
    case Plain(i) => i < |fields| && !fields[i].Bit?
    case BitGroup(first, count) =>
      1 <= count <= 8 && first + count <= |fields| && forall k :: first <= k < first + count ==> fields[k].Bit?
  }

  function Begin(st: Statement): nat {
    if st.BitGroup? then st.first else if st.Flags? then 0 else st.i
  }

  function End(st: Statement): nat {
    if st.BitGroup? then st.first + st.count else if st.Flags? then 0 else st.i + 1
  }

  /** The group that starts at field `i`: it stops short of eight bits only for want of bits. */
  function NextGroup(fields: seq<FieldType>, i: nat): (st: Statement)
    requires i < |fields|
    ensures Group(fields, st) && Begin(st) == i
    ensures st.BitGroup? && st.count < 8 && End(st) < |fields| ==> !fields[End(st)].Bit?
  {
    if !fields[i].Bit? then Plain(i)
    else BitGroup(i, BitsEnd(fields, i, if i + 8 <= |fields| then i + 8 else |fields|) - i)
  }

  /** What process_fields yields from field `i` on. */
  function GroupsFrom(fields: seq<FieldType>, i: nat): seq<Statement>
    requires i <= |fields|
    decreases |fields| - i
  {
    if i == |fields| then []
    else [NextGroup(fields, i)] + GroupsFrom(fields, End(NextGroup(fields, i)))
  }

  /**
    process_fields itself: one pass that remembers the field a group began with and how
    many bits have joined it, and yields a group when it is full or interrupted.
   */
  method ProcessFields(fields: seq<FieldType>) returns (out: seq<Statement>)
    ensures out == GroupsFrom(fields, 0)
  {
    out := [];
    var last: Option<nat> := None;
    var count := 0;
    ghost var done := 0;
    for i := 0 to |fields|
      invariant last.Some? ==> last.value < i
      invariant if last.Some? && fields[last.value].Bit? then
                  && done == last.value && done + count + 1 == i && count <= 7
                  && (forall k :: done <= k < i ==> fields[k].Bit?)
                else done == i && count == 0
      invariant Yielded(fields, out, done)
    {
      if last.Some? && fields[last.value].Bit? && fields[i].Bit? && count < 7 {
        count := count + 1;
      } else {
        if last.Some? && fields[last.value].Bit? {
          YieldGroup(fields, out, done, count + 1);
          out := out + [BitGroup(last.value, count + 1)];
          count := 0;
          done := i;
        }
        if !fields[i].Bit? {
          YieldPlain(fields, out, i);
          out := out + [Plain(i)];
          done := i + 1;
        }
        last := Some(i);
      }
    }
    if last.Some? && fields[last.value].Bit? {
      YieldGroup(fields, out, done, count + 1);
      out := out + [BitGroup(last.value, count + 1)];
      done := |fields|;
    }
    YieldedAll(fields, out, done);
    assert out + [] == out;
  }

  /** `out` holds the groups before field `done`, one starting where the other ends. */
  ghost predicate Yielded(fields: seq<FieldType>, out: seq<Statement>, done: nat) {
    if out == [] then done == 0 else
      var st := out[|out| - 1];
      && Begin(st) < |fields| && st == NextGroup(fields, Begin(st)) && End(st) == done
      && Yielded(fields, out[..|out| - 1], Begin(st))
  }

  lemma YieldPlain(fields: seq<FieldType>, out: seq<Statement>, i: nat)
    requires i < |fields| && !fields[i].Bit? && Yielded(fields, out, i)
    ensures Yielded(fields, out + [Plain(i)], i + 1)
  {
    assert (out + [Plain(i)])[..|out|] == out;
  }

  lemma YieldGroup(fields: seq<FieldType>, out: seq<Statement>, i: nat, n: nat)
    requires 1 <= n <= 8 && i + n <= |fields| && Yielded(fields, out, i)
    requires forall k :: i <= k < i + n ==> fields[k].Bit?
    requires n == 8 || i + n == |fields| || !fields[i + n].Bit?
    ensures Yielded(fields, out + [BitGroup(i, n)], i + n)
  {
    assert (out + [BitGroup(i, n)])[..|out|] == out;
    assert NextGroup(fields, i) == BitGroup(i, n);
  }

  lemma {:induction false} YieldedAll(fields: seq<FieldType>, out: seq<Statement>, done: nat)
    requires Yielded(fields, out, done)
    ensures done <= |fields| && out + GroupsFrom(fields, done) == GroupsFrom(fields, 0)
  {
    if out != [] {
      var init, st := out[..|out| - 1], out[|out| - 1];
      YieldedAll(fields, init, Begin(st));
      assert out == init + [st];
      assert init + ([st] + GroupsFrom(fields, done)) == init + [st] + GroupsFrom(fields, done);
    }
  }

  function Emit(def: StructDef): seq<Statement> {
    if def.Packed() then [Flags] + GuardedFrom(def.fields, 0) else GroupsFrom(def.fields, 0)
  }

  // ------------------------------------------------------------ what the groups cover

  /** Each statement takes up where the one before it stopped, from field `i` up to `end`. */
  predicate Tiles(sts: seq<Statement>, i: nat, end: nat) {
    if sts == [] then i == end
    else Begin(sts[0]) == i && Tiles(sts[1..], End(sts[0]), end)
  }

  /** The groups take every field once, in order; each holds at most eight bits, adjacent ones only when full. */
  lemma {:induction false} GroupsCover(fields: seq<FieldType>, i: nat)
    requires i <= |fields|
    ensures Tiles(GroupsFrom(fields, i), i, |fields|)
    ensures forall g :: 0 <= g < |GroupsFrom(fields, i)| ==> Group(fields, GroupsFrom(fields, i)[g])
    ensures forall g :: 0 <= g < |GroupsFrom(fields, i)| - 1 &&
                        GroupsFrom(fields, i)[g].BitGroup? && GroupsFrom(fields, i)[g + 1].BitGroup? ==>
                        GroupsFrom(fields, i)[g].count == 8
    decreases |fields| - i
  {
    if i < |fields| {
      var st := NextGroup(fields, i);
      var sts := GroupsFrom(fields, End(st));
      GroupsCover(fields, End(st));
      assert GroupsFrom(fields, i) == [st] + sts && ([st] + sts)[1..] == sts;
      assert sts != [] ==> sts[0] == NextGroup(fields, End(st));
    }
  }
}
