/**
  Where the hash does collide: ten bytes are enough, from states that schemas reach, so that nine is the
  exact width of a change that always shows.
 */
module SchemaCollisions {
  import opened Words
  import opened SchemaHash

  // ------------------------------------------------------------ two states that drift together

  /** States one apart in the first word, whose second words differ in one byte, at `m`. */
  ghost predicate OneApart(f: Hash, g: Hash, m: nat) {
    && f.Valid() && g.Valid() && m < 8
    && f.first == g.first + 1 && f.first % 256 != 0
    && f.second[m] == 0 && g.second == f.second[m := 255]
  }

  lemma OneApartFirst(f: nat, g: nat, d: int, e: int, r: int)
    requires f == g + 1 && e == d + 255 && (d + r) % 256 != 0
    ensures var x, y := (f * 256 + d + r) % WORD, (g * 256 + e + r) % WORD; x == y + 1 && x % 256 != 0
  {
    LowByte(f, d, r);
    var x := f * 256 + d + r;
    assert g * 256 + e + r == x - 1;
    WordMod(x - 1, x / WORD, x % WORD - 1);
  }

  /** Bytes 255 apart keep the first words one apart while the difference in the second moves up. */
  lemma OneApartStep(f: Hash, g: Hash, m: nat, x: Byte, y: Byte, signed: bool)
    requires OneApart(f, g, m) && 0 < m
    requires Widen(y, signed) == Widen(x, signed) + 255 && (Widen(x, signed) + f.second[0]) % 256 != 0
    ensures OneApart(Step(f, x, signed), Step(g, y, signed), m - 1)
  {
    OneApartFirst(f.first, g.first, Widen(x, signed), Widen(y, signed), f.second[0]);
    assert f.first / TOP == g.first / TOP;
    var s, t := f.second[1..] + [f.first / TOP], g.second[1..] + [g.first / TOP];
    assert t == s[m - 1 := 255];
  }

  /** The last step makes them equal. */
  lemma OneApartEnds(f: Hash, g: Hash, signed: bool)
    requires OneApart(f, g, 0)
    ensures Step(f, 0, signed) == Step(g, 1, signed)
  {
    assert f.first / TOP == g.first / TOP;
    assert f.second[1..] == g.second[1..];
  }

  function Fill(b: Byte, n: nat): (bs: seq<Byte>)
    ensures |bs| == n
  {
    if n == 0 then [] else [b] + Fill(b, n - 1)
  }

  lemma {:induction false} FillConcat(b: Byte, m: nat, n: nat)
    ensures Fill(b, m) + Fill(b, n) == Fill(b, m + n)
  {
    if m > 0 {
      FillConcat(b, m - 1, n);
      assert Fill(b, m) + Fill(b, n) == [b] + (Fill(b, m - 1) + Fill(b, n));
    }
  }

  lemma UpdateOne(h: Hash, b: Byte, signed: bool)
    requires h.Valid()
    ensures Update(h, [b], signed) == Step(h, b, signed)
  {
    assert Update(h, [b][..0], signed) == h;
  }

  lemma UpdateFill(f: Hash, x: Byte, m: nat, signed: bool)
    requires f.Valid() && 0 < m
    ensures Update(f, Fill(x, m), signed) == Update(Step(f, x, signed), Fill(x, m - 1), signed)
  {
    UpdateOne(f, x, signed);
    UpdateConcat(f, [x], Fill(x, m - 1), signed);
  }

  /** No byte to be recycled makes the first word a multiple of 256. */
  ghost predicate Drifting(f: Hash, g: Hash, m: nat, x: Byte, signed: bool) {
    OneApart(f, g, m) && forall k :: 0 <= k < m ==> (Widen(x, signed) + f.second[k]) % 256 != 0
  }

  lemma DriftStep(f: Hash, g: Hash, m: nat, x: Byte, y: Byte, signed: bool)
    requires Drifting(f, g, m, x, signed) && 0 < m && Widen(y, signed) == Widen(x, signed) + 255
    ensures Drifting(Step(f, x, signed), Step(g, y, signed), m - 1, x, signed)
  {
    OneApartStep(f, g, m, x, y, signed);
    assert forall k :: 0 <= k < m - 1 ==> Step(f, x, signed).second[k] == f.second[k + 1];
  }

  lemma {:induction false} Drift(f: Hash, g: Hash, m: nat, x: Byte, y: Byte, signed: bool)
    requires Drifting(f, g, m, x, signed) && Widen(y, signed) == Widen(x, signed) + 255
    ensures OneApart(Update(f, Fill(x, m), signed), Update(g, Fill(y, m), signed), 0)
    decreases m
  {
    if m > 0 {
      DriftStep(f, g, m, x, y, signed);
      UpdateFill(f, x, m, signed);
      UpdateFill(g, y, m, signed);
      Drift(Step(f, x, signed), Step(g, y, signed), m - 1, x, y, signed);
    }
  }

  // ------------------------------------------------------------ a state from which ten bytes collide

  const PLAIN: seq<Byte> := INITIAL.second

  /** One byte carries all the way up and the one below it does not. */
  predicate Brim(first: nat, signed: bool) {
    first < WORD && first / TOP == 0x5B && (first * 256 + Widen(0xA6, signed) + 0x5A) % WORD == 0
  }

  lemma BrimStep(first: nat, signed: bool)
    requires Brim(first, signed)
    ensures Step(Hash(first, PLAIN), 0xA6, signed) == Hash(0, PLAIN[1..] + [0x5B])
    ensures Step(Hash(first, PLAIN), 0xA5, signed) == Hash(WORD - 1, PLAIN[1..] + [0x5B])
  {
    var x := first * 256 + Widen(0xA6, signed) + 0x5A;
    assert Widen(0xA5, signed) == Widen(0xA6, signed) - 1;
    WordMod(x - 1, x / WORD - 1, WORD - 1);
  }

  /** After it, bytes 255 apart start the drift. */
  lemma DriftStarts(x: Byte, y: Byte, signed: bool)
    requires Widen(y, signed) == Widen(x, signed) + 255
    ensures var second := PLAIN[1..] + [0x5B];
            Drifting(Step(Hash(0, second), x, signed), Step(Hash(WORD - 1, second), y, signed), 7, x, signed)
  {
    var second: seq<Byte> := PLAIN[1..] + [0x5B];
    var e := Widen(x, signed);
    assert (e + 0x5A) % 256 != 0 && (e + 0x5B) % 256 != 0;
    var s, t := second[1..] + [0], second[1..] + [255];
    assert t == s[7 := 255];
    assert forall k :: 0 <= k < 7 ==> s[k] == 0x5A || s[k] == 0x5B;
    WrappedFirst(e);
  }

  lemma WrappedFirst(e: int)
    requires (e + 0x5A) % 256 != 0 && -128 <= e < 128
    ensures var f, g := (e + 0x5A) % WORD, ((WORD - 1) * 256 + (e + 255) + 0x5A) % WORD;
            f == g + 1 && f % 256 != 0
  {
    LowByte(0, e, 0x5A);
    var x := e + 0x5A;
    WordMod((WORD - 1) * 256 + (e + 255) + 0x5A, 256 + x / WORD, x % WORD - 1);
  }

  function Collider(first: Byte, x: Byte, last: Byte): (bs: seq<Byte>)
    ensures |bs| == 10
  {
    [first] + [x] + Fill(x, 7) + [last]
  }

  lemma ColliderUpdate(h: Hash, first: Byte, x: Byte, last: Byte, signed: bool)
    requires h.Valid()
    ensures Update(h, Collider(first, x, last), signed) ==
            Step(Update(Step(Step(h, first, signed), x, signed), Fill(x, 7), signed), last, signed)
  {
    UpdateConcat(h, [first] + [x] + Fill(x, 7), [last], signed);
    UpdateConcat(h, [first] + [x], Fill(x, 7), signed);
    UpdateConcat(h, [first], [x], signed);
    UpdateOne(h, first, signed);
    UpdateOne(Step(h, first, signed), x, signed);
    UpdateOne(Update(h, [first] + [x] + Fill(x, 7), signed), last, signed);
  }

  function Low(signed: bool): Byte { if signed then 0x80 else 0 }

  function High(signed: bool): Byte { if signed then 0x7F else 0xFF }

  /** Ten bytes that collide with ten others, whether or not characters are signed. */
  lemma TenCollide(first: nat, signed: bool)
    requires Brim(first, signed)
    ensures var a, b := Collider(0xA6, Low(signed), 0), Collider(0xA5, High(signed), 1);
            a != b && Update(Hash(first, PLAIN), a, signed) == Update(Hash(first, PLAIN), b, signed)
  {
    var x, y, h := Low(signed), High(signed), Hash(first, PLAIN);
    var a, b := Collider(0xA6, x, 0), Collider(0xA5, y, 1);
    assert a[0] != b[0];
    BrimStep(first, signed);
    DriftStarts(x, y, signed);
    var f, g := Step(Step(h, 0xA6, signed), x, signed), Step(Step(h, 0xA5, signed), y, signed);
    Drift(f, g, 7, x, y, signed);
    OneApartEnds(Update(f, Fill(x, 7), signed), Update(g, Fill(y, 7), signed), signed);
    ColliderUpdate(h, 0xA6, x, 0, signed);
    ColliderUpdate(h, 0xA5, y, 1, signed);
  }

  // ------------------------------------------------------------ schemas reach such a state

  /** A step that recycles a byte of the initial pattern and takes another over. */
  lemma PlainStep(first: nat, next: nat, b: Byte, signed: bool)
    requires first < WORD && first / TOP == 0x5A && next == (first * 256 + Widen(b, signed) + 0x5A) % WORD
    ensures Step(Hash(first, PLAIN), b, signed) == Hash(next, PLAIN)
  {
    assert PLAIN[1..] + [0x5A] == PLAIN;
  }

  /** First words that follow one another when the same byte is added again and again. */
  predicate Chain(words: seq<nat>, b: Byte, signed: bool) {
    forall i :: 0 <= i < |words| - 1 ==>
      && words[i] < WORD && words[i] / TOP == 0x5A
      && words[i + 1] == (words[i] * 256 + Widen(b, signed) + 0x5A) % WORD
  }

  lemma PlainFillStep(first: nat, next: nat, b: Byte, m: nat, signed: bool)
    requires first < WORD && first / TOP == 0x5A && next == (first * 256 + Widen(b, signed) + 0x5A) % WORD && 0 < m
    ensures next < WORD
    ensures Update(Hash(first, PLAIN), Fill(b, m), signed) == Update(Hash(next, PLAIN), Fill(b, m - 1), signed)
  {
    PlainStep(first, next, b, signed);
    UpdateFill(Hash(first, PLAIN), b, m, signed);
  }

  lemma ChainTail(words: seq<nat>, b: Byte, signed: bool)
    requires |words| > 1 && Chain(words, b, signed)
    ensures Chain(words[1..], b, signed)
  {
  }

  lemma {:induction false} PlainFill(words: seq<nat>, b: Byte, m: nat, signed: bool)
    requires |words| == m + 1 && words[0] < WORD && Chain(words, b, signed)
    ensures Update(Hash(words[0], PLAIN), Fill(b, m), signed) == Hash(words[m], PLAIN)
    decreases m
  {
    if m > 0 {
      PlainFillStep(words[0], words[1], b, m, signed);
      ChainTail(words, b, signed);
      PlainFill(words[1..], b, m - 1, signed);
    }
  }

  const UNSIGNED_WORDS: seq<nat> :=
    [0x5A5A_5A5A_5A5A_5A5B, 0x5A5A_5A5A_5A5A_5BFF, 0x5A5A_5A5A_5A5B_FFFF, 0x5A5A_5A5A_5BFF_FFFF,
     0x5A5A_5A5B_FFFF_FFFF, 0x5A5A_5BFF_FFFF_FFFF, 0x5A5B_FFFF_FFFF_FFFF, 0x5BFF_FFFF_FFFF_FFFF]

  const SIGNED_WORDS: seq<nat> :=
    [0x5A5A_5A5A_5A5A_5A5B, 0x5A5A_5A5A_5A5A_5B00, 0x5A5A_5A5A_5A5B_0000, 0x5A5A_5A5A_5B00_0000,
     0x5A5A_5A5B_0000_0000, 0x5A5A_5B00_0000_0000, 0x5A5B_0000_0000_0000, 0x5B00_0000_0000_0000]

  function BrimWords(signed: bool): seq<nat> { if signed then SIGNED_WORDS else UNSIGNED_WORDS }

  function BrimFirst(signed: bool): nat { BrimWords(signed)[7] }

  function Filler(signed: bool): Byte { if signed then 0xA6 else 0xA5 }

  lemma UnsignedChain()
    ensures Chain(UNSIGNED_WORDS, 0xA5, false)
  {
  }

  lemma SignedChain()
    ensures Chain(SIGNED_WORDS, 0xA6, true)
  {
  }

  lemma BrimChain(signed: bool)
    ensures Chain(BrimWords(signed), Filler(signed), signed) && Brim(BrimFirst(signed), signed)
  {
    if signed {
      SignedChain();
    } else {
      UnsignedChain();
    }
  }

  /** A schema kind of 1 and seven bytes of package and name lead from the initial state to the brim. */
  lemma BrimReached(signed: bool)
    ensures Brim(BrimFirst(signed), signed)
    ensures Update(INITIAL, [1] + Fill(Filler(signed), 7), signed) == Hash(BrimFirst(signed), PLAIN)
  {
    var words, b := BrimWords(signed), Filler(signed);
    BrimChain(signed);
    PlainStep(INITIAL.first, words[0], 1, signed);
    UpdateOne(INITIAL, 1, signed);
    UpdateConcat(INITIAL, [1], Fill(b, 7), signed);
    PlainFill(words, b, 7, signed);
  }

  /** A schema of one class whose first property has a given name; everything else about it is free. */
  function Named(name: seq<Byte>, p: Property, rest: seq<Property>, methods: seq<Method>, signed: bool): Schema {
    Schema(1, Fill(Filler(signed), 3), Fill(Filler(signed), 4), [p.(name := name)] + rest, methods)
  }

  lemma {:induction false} FirstProperty(p: Property, rest: seq<Property>)
    ensures PropertiesBytes([p] + rest) == PropertyBytes(p) + PropertiesBytes(rest)
    decreases |rest|
  {
    var ps := [p] + rest;
    if rest == [] {
      assert ps == [p] && ps[..0] == [];
    } else {
      var n := |rest| - 1;
      FirstProperty(p, rest[..n]);
      assert ps[..|ps| - 1] == [p] + rest[..n] && ps[|ps| - 1] == rest[n];
      var a, b, c := PropertyBytes(p), PropertiesBytes(rest[..n]), PropertyBytes(rest[n]);
      assert a + b + c == a + (b + c);
    }
  }

  /** What is hashed after the name of the first property. */
  function AfterName(p: Property, rest: seq<Property>, methods: seq<Method>): seq<Byte> {
    PropertyBytes(p.(name := [])) + (PropertiesBytes(rest) + MethodsBytes(methods))
  }

  lemma PropertyName(p: Property, name: seq<Byte>)
    ensures PropertyBytes(p.(name := name)) == name + PropertyBytes(p.(name := []))
  {
  }

  lemma NamedBytes(name: seq<Byte>, p: Property, rest: seq<Property>, methods: seq<Method>, signed: bool)
    ensures SchemaBytes(Named(name, p, rest, methods, signed)) ==
            [1] + Fill(Filler(signed), 7) + name + AfterName(p, rest, methods)
  {
    var b := Filler(signed);
    FillConcat(b, 3, 4);
    FirstProperty(p.(name := name), rest);
    PropertyName(p, name);
    Regroup([1], Fill(b, 3), Fill(b, 4), name, PropertyBytes(p.(name := [])), PropertiesBytes(rest),
            MethodsBytes(methods));
  }

  lemma Regroup(a: seq<Byte>, b: seq<Byte>, c: seq<Byte>, d: seq<Byte>, e: seq<Byte>, f: seq<Byte>, g: seq<Byte>)
    ensures a + b + c + (d + e + f) + g == a + (b + c) + d + (e + (f + g))
  {
  }

  lemma UpdateParts(h: Hash, start: seq<Byte>, name: seq<Byte>, tail: seq<Byte>, after: seq<Byte>, signed: bool)
    requires h.Valid()
    ensures Update(h, start + (name + tail) + after, signed) ==
            Update(Update(Update(h, start, signed), name, signed), tail + after, signed)
  {
    assert start + (name + tail) + after == start + name + (tail + after);
    UpdateConcat(h, start + name, tail + after, signed);
    UpdateConcat(h, start, name, signed);
  }

  lemma NamedHash(
    name: seq<Byte>, tail: seq<Byte>, p: Property, rest: seq<Property>, methods: seq<Method>, signed: bool)
    ensures Finalized(Named(name + tail, p, rest, methods, signed), signed) ==
            Update(Update(Hash(BrimFirst(signed), PLAIN), name, signed), tail + AfterName(p, rest, methods), signed)
  {
    NamedBytes(name + tail, p, rest, methods, signed);
    UpdateParts(INITIAL, [1] + Fill(Filler(signed), 7), name, tail, AfterName(p, rest, methods), signed);
    BrimReached(signed);
  }

  /** The two names. */
  function Clash(signed: bool): seq<Byte> { Collider(0xA6, Low(signed), 0) }

  function Clash'(signed: bool): seq<Byte> { Collider(0xA5, High(signed), 1) }

  lemma ClashDiffer(tail: seq<Byte>, signed: bool)
    ensures Clash(signed) + tail != Clash'(signed) + tail && Clash(signed) != Clash'(signed)
  {
    assert (Clash(signed) + tail)[0] != (Clash'(signed) + tail)[0];
  }

  lemma NamedWindow(a: seq<Byte>, b: seq<Byte>, p: Property, rest: seq<Property>, methods: seq<Method>, signed: bool)
    ensures var s, t := Named(a, p, rest, methods, signed), Named(b, p, rest, methods, signed);
            && Window(SchemaBytes(s), SchemaBytes(t), a, b)
            && (|a| == |b| && a != b ==> SchemaBytes(s) != SchemaBytes(t))
  {
    NamedBytes(a, p, rest, methods, signed);
    NamedBytes(b, p, rest, methods, signed);
    Cancel([1] + Fill(Filler(signed), 7), a, b, AfterName(p, rest, methods));
  }

  lemma Cancel(before: seq<Byte>, a: seq<Byte>, b: seq<Byte>, after: seq<Byte>)
    ensures |a| == |b| && a != b ==> before + a + after != before + b + after
  {
    var x, y := before + a + after, before + b + after;
    assert x[|before|..|before| + |a|] == a && y[|before|..|before| + |b|] == b;
  }

  /**
    Two schemas of the same class with the same hash that differ only in the name of a property, by ten bytes:
    whatever the property's other settings, the rest of its name, and the other properties and methods.
   */
  lemma SameClassCollides(tail: seq<Byte>, p: Property, rest: seq<Property>, methods: seq<Method>, signed: bool)
    ensures var a, b := Clash(signed) + tail, Clash'(signed) + tail;
            var s, t := Named(a, p, rest, methods, signed), Named(b, p, rest, methods, signed);
            && Window(SchemaBytes(s), SchemaBytes(t), a, b) && SchemaBytes(s) != SchemaBytes(t)
            && Finalized(s, signed) == Finalized(t, signed)
  {
    ClashDiffer(tail, signed);
    NamedWindow(Clash(signed) + tail, Clash'(signed) + tail, p, rest, methods, signed);
    NamedHash(Clash(signed), tail, p, rest, methods, signed);
    NamedHash(Clash'(signed), tail, p, rest, methods, signed);
    BrimChain(signed);
    TenCollide(BrimFirst(signed), signed);
  }

  // ------------------------------------------------------------ nine is the exact width

  /** A change from `a` to `b` somewhere in a schema's bytes is seen in its hash. */
  ghost predicate Shows(s: Schema, t: Schema, a: seq<Byte>, b: seq<Byte>, signed: bool) {
    Window(SchemaBytes(s), SchemaBytes(t), a, b) && Finalized(s, signed) == Finalized(t, signed) ==>
      SchemaBytes(s) == SchemaBytes(t)
  }

  /** So is every change within `n` consecutive bytes. */
  ghost predicate AlwaysShows(n: nat, signed: bool) {
    forall s, t, a, b :: |a| == |b| == n ==> Shows(s, t, a, b, signed)
  }

  lemma TenDoNotShow(n: nat, signed: bool)
    requires n >= 10
    ensures !AlwaysShows(n, signed)
  {
    var tail, p := Fill(0, n - 10), Property([], 0, [], 0, false, false, [], [], 0);
    var a, b := Clash(signed) + tail, Clash'(signed) + tail;
    SameClassCollides(tail, p, [], [], signed);
    assert |a| == |b| == n && !Shows(Named(a, p, [], [], signed), Named(b, p, [], [], signed), a, b, signed);
  }

  /** A change of a schema's bytes within `n` consecutive ones always shows if and only if n is at most nine. */
  lemma ShowsExactly(n: nat, signed: bool)
    ensures AlwaysShows(n, signed) <==> n <= 9
  {
    if n <= 9 {
      forall s, t, a, b | |a| == |b| == n ensures Shows(s, t, a, b, signed) {
        if Window(SchemaBytes(s), SchemaBytes(t), a, b) {
          HashShowsBytes(s, t, a, b, signed);
        }
      }
    } else {
      TenDoNotShow(n, signed);
    }
  }

  ghost predicate Collide(h: Hash, a: seq<Byte>, b: seq<Byte>, signed: bool)
    requires h.Valid()
  {
    a != b && Update(h, a, signed) == Update(h, b, signed)
  }

  ghost predicate NeverCollides(n: nat, signed: bool) {
    forall h: Hash, a, b :: h.Valid() && |a| == |b| == n ==> !Collide(h, a, b, signed)
  }

  lemma LongerCollide(h: Hash, a: seq<Byte>, b: seq<Byte>, pad: seq<Byte>, signed: bool)
    requires h.Valid() && |a| == |b| && Collide(h, a, b, signed)
    ensures Collide(h, a + pad, b + pad, signed)
  {
    UpdateConcat(h, a, pad, signed);
    UpdateConcat(h, b, pad, signed);
    assert (a + pad)[..|a|] == a && (b + pad)[..|a|] == b;
  }

  lemma BrimCollides(signed: bool) returns (h: Hash, a: seq<Byte>, b: seq<Byte>)
    ensures h.Valid() && |a| == |b| == 10 && Collide(h, a, b, signed)
  {
    h, a, b := Hash(BrimFirst(signed), PLAIN), Clash(signed), Clash'(signed);
    BrimChain(signed);
    TenCollide(BrimFirst(signed), signed);
  }

  lemma TenOrMoreCollide(n: nat, signed: bool)
    requires n >= 10
    ensures !NeverCollides(n, signed)
  {
    var h, a, b := BrimCollides(signed);
    var pad := Fill(0, n - 10);
    LongerCollide(h, a, b, pad, signed);
    assert |a + pad| == |b + pad| == n;
  }

  /** From any state, inputs of a given length never collide if and only if they have at most nine bytes. */
  lemma CollisionThreshold(n: nat, signed: bool)
    ensures NeverCollides(n, signed) <==> n <= 9
  {
    if n <= 9 {
      forall h: Hash, a, b | h.Valid() && |a| == |b| == n ensures !Collide(h, a, b, signed) {
        if Update(h, a, signed) == Update(h, b, signed) {
          ShortDifference(h, a, b, signed);
        }
      }
    } else {
      TenOrMoreCollide(n, signed);
    }
  }
}
