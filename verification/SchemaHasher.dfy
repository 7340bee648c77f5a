/** The hash kept in place, as two words that are shifted and masked, and the walk over a schema that feeds it. */
module SchemaHashing {
  import opened Words
  import opened SchemaHash

  // ------------------------------------------------------------ the second word and its bytes

  lemma {:induction false} PutDrop(w: nat, v: nat)
    ensures Put(w + 1, v)[1..] == Put(w, v)
  {
    if w > 0 {
      PutDrop(w - 1, v / 256);
      assert Put(w + 1, v)[1..] == Put(w, v / 256)[1..] + [v % 256];
    }
  }

  lemma DivDiv(v: nat, n: nat)
    requires n > 0
    ensures v / 256 / n == v / (256 * n)
  {
    var q, r := v / 256 / n, v / 256 % n;
    assert v == 256 * (n * q + r) + v % 256;
    assert v == (256 * n) * q + (256 * r + v % 256);
    assert 256 * r + v % 256 < 256 * n;
    QuotientUnique(v, 256 * n, q, 256 * r + v % 256);
  }

  lemma {:induction false} PutTop(w: nat, v: nat)
    requires v < Limit(w + 1)
    ensures Put(w + 1, v)[0] == v / Limit(w)
  {
    if w > 0 {
      PutTop(w - 1, v / 256);
      DivDiv(v, Limit(w - 1));
    }
  }

  lemma LimitTop()
    ensures Limit(7) == TOP && Limit(8) == WORD
  {
    assert Limit(7) == 256 * (256 * (256 * (256 * Limit(3))));
    assert Limit(3) == 256 * (256 * (256 * Limit(0)));
  }

  lemma RemainderParts(v: nat, n: nat)
    requires n > 0
    ensures v % (256 * n) % 256 == v % 256 && v % (256 * n) / 256 == v / 256 % n
  {
    var q, r := v / 256 / n, v / 256 % n;
    assert v / 256 == n * q + r;
    assert 256 * (n * q) == (256 * n) * q;
    ModUnique(v, 256 * n, q, 256 * r + v % 256);
  }

  lemma {:induction false} PutModulo(w: nat, v: nat)
    ensures Put(w, v % Limit(w)) == Put(w, v)
  {
    if w > 0 {
      RemainderParts(v, Limit(w - 1));
      PutModulo(w - 1, v / 256);
    }
  }

  /** Shifting the word up a byte and filling in the lowest shifts its bytes. */
  lemma ShiftIn(second: nat, low: Byte)
    requires second < WORD
    ensures second / TOP == Put(8, second)[0]
    ensures (second * 256) % WORD + low < WORD
    ensures Put(8, (second * 256) % WORD + low) == Put(8, second)[1..] + [low]
  {
    LimitTop();
    PutTop(7, second);
    PutDrop(7, second);
    LowFits(second, low);
    PutModulo(8, second * 256 + low);
    PutSnoc(7, second, low);
  }

  lemma LowFits(second: nat, low: Byte)
    ensures (second * 256) % WORD + low == (second * 256 + low) % WORD
  {
    var q, r := second / TOP, second % TOP;
    assert second * 256 == q * WORD + r * 256;
    WordMod(second * 256, q, r * 256);
    WordMod(second * 256 + low, q, r * 256 + low);
  }

  lemma PutSnoc(w: nat, v: nat, low: Byte)
    ensures Put(w + 1, v * 256 + low) == Put(w, v) + [low]
  {
    assert (v * 256 + low) / 256 == v && (v * 256 + low) % 256 == low;
  }

  lemma InitialBytes()
    ensures Put(8, 0x5A5A_5A5A_5A5A_5A5A) == INITIAL.second
  {
    PutSnoc(0, 0, 0x5A);
    PutSnoc(1, 0x5A, 0x5A);
    PutSnoc(2, 0x5A5A, 0x5A);
    PutSnoc(3, 0x5A_5A5A, 0x5A);
    PutSnoc(4, 0x5A5A_5A5A, 0x5A);
    PutSnoc(5, 0x5A_5A5A_5A5A, 0x5A);
    PutSnoc(6, 0x5A5A_5A5A_5A5A, 0x5A);
    PutSnoc(7, 0x5A_5A5A_5A5A_5A5A, 0x5A);
  }

  // ------------------------------------------------------------ the hash

  class Hasher {
    var first: nat
    var second: nat
    const signed: bool

    ghost predicate Valid()
      reads this
    {
      first < WORD && second < WORD
    }

    ghost function Value(): (h: Hash)
      requires Valid()
      reads this
      ensures h.Valid()
    {
      Hash(first, Put(8, second))
    }

    constructor (signed: bool)
      ensures Valid() && Value() == INITIAL && this.signed == signed
    {
      first, second := 0x5A5A_5A5A_5A5A_5A5A, 0x5A5A_5A5A_5A5A_5A5A;
      this.signed := signed;
      new;
      InitialBytes();
    }

    /** The body of the update loop. */
    method AddByte(b: Byte)
      requires Valid()
      modifies this
      ensures Valid() && Value() == Step(old(Value()), b, signed)
    {
      ShiftIn(second, first / TOP);
      var recycle := second / TOP;
      second := (second * 256) % WORD + first / TOP;
      first := (first * 256 + Widen(b, signed) + recycle) % WORD;
    }

    method Add(bs: seq<Byte>)
      requires Valid()
      modifies this
      ensures Valid() && Value() == Update(old(Value()), bs, signed)
    {
      for k := 0 to |bs|
        invariant Valid() && Value() == Update(old(Value()), bs[..k], signed)
      {
        assert bs[..k + 1][..k] == bs[..k];
        AddByte(bs[k]);
      }
      assert bs[..|bs|] == bs;
    }

    method AddProperty(p: Property)
      requires Valid()
      modifies this
      ensures Valid() && Value() == Update(old(Value()), PropertyBytes(p), signed)
    {
      ghost var h := Value();
      Add(p.name);
      Add([p.dataType]);
      UpdateConcat(h, p.name, [p.dataType], signed);
      Add(p.subtype);
      UpdateConcat(h, p.name + [p.dataType], p.subtype, signed);
      AddSettings(p);
      ghost var before := p.name + [p.dataType] + p.subtype;
      ghost var flags := [p.access, Flag(p.index), Flag(p.optional)];
      UpdateConcat(h, before, flags, signed);
      Add(p.unit);
      UpdateConcat(h, before + flags, p.unit, signed);
      Add(p.desc);
      UpdateConcat(h, before + flags + p.unit, p.desc, signed);
      Add([p.direction]);
      UpdateConcat(h, before + flags + p.unit + p.desc, [p.direction], signed);
    }

    method AddSettings(p: Property)
      requires Valid()
      modifies this
      ensures Valid() && Value() == Update(old(Value()), [p.access, Flag(p.index), Flag(p.optional)], signed)
    {
      ghost var h := Value();
      Add([p.access]);
      Add([if p.index then 1 else 0]);
      UpdateConcat(h, [p.access], [Flag(p.index)], signed);
      Add([if p.optional then 1 else 0]);
      UpdateConcat(h, [p.access] + [Flag(p.index)], [Flag(p.optional)], signed);
      assert [p.access] + [Flag(p.index)] + [Flag(p.optional)] == [p.access, Flag(p.index), Flag(p.optional)];
    }

    method AddProperties(ps: seq<Property>)
      requires Valid()
      modifies this
      ensures Valid() && Value() == Update(old(Value()), PropertiesBytes(ps), signed)
    {
      for k := 0 to |ps|
        invariant Valid() && Value() == Update(old(Value()), PropertiesBytes(ps[..k]), signed)
      {
        assert ps[..k + 1][..k] == ps[..k];
        AddProperty(ps[k]);
        UpdateConcat(old(Value()), PropertiesBytes(ps[..k]), PropertyBytes(ps[k]), signed);
      }
      assert ps[..|ps|] == ps;
    }

    method AddMethod(m: Method)
      requires Valid()
      modifies this
      ensures Valid() && Value() == Update(old(Value()), MethodBytes(m), signed)
    {
      ghost var h := Value();
      Add(m.name);
      Add(m.desc);
      UpdateConcat(h, m.name, m.desc, signed);
      AddProperties(m.arguments);
      UpdateConcat(h, m.name + m.desc, PropertiesBytes(m.arguments), signed);
    }

    method AddMethods(ms: seq<Method>)
      requires Valid()
      modifies this
      ensures Valid() && Value() == Update(old(Value()), MethodsBytes(ms), signed)
    {
      for k := 0 to |ms|
        invariant Valid() && Value() == Update(old(Value()), MethodsBytes(ms[..k]), signed)
      {
        assert ms[..k + 1][..k] == ms[..k];
        AddMethod(ms[k]);
        UpdateConcat(old(Value()), MethodsBytes(ms[..k]), MethodBytes(ms[k]), signed);
      }
      assert ms[..|ms|] == ms;
    }
  }

  /** The walk over a schema: the hash ends as that of the schema's bytes. */
  method Finalize(s: Schema, signed: bool) returns (hash: Hasher)
    ensures fresh(hash) && hash.Valid() && hash.Value() == Finalized(s, signed)
  {
    hash := new Hasher(signed);
    hash.Add([s.kind]);
    hash.Add(s.package);
    UpdateConcat(INITIAL, [s.kind], s.package, signed);
    hash.Add(s.name);
    UpdateConcat(INITIAL, [s.kind] + s.package, s.name, signed);
    hash.AddProperties(s.properties);
    UpdateConcat(INITIAL, [s.kind] + s.package + s.name, PropertiesBytes(s.properties), signed);
    hash.AddMethods(s.methods);
    UpdateConcat(INITIAL, [s.kind] + s.package + s.name + PropertiesBytes(s.properties), MethodsBytes(s.methods),
                 signed);
  }
}
