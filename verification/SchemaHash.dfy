/**
  The hash that names a version of a schema: two 64-bit words through which each byte is recycled.
  The second word is only ever shifted, so it is specified by its eight bytes, most significant first.
 */
module SchemaHash {
  import opened Words

  const WORD := 0x1_0000_0000_0000_0000
  const TOP := 0x100_0000_0000_0000

  datatype Hash = Hash(first: nat, second: seq<Byte>) {
    predicate Valid() {
      first < WORD && |second| == 8
    }
  }

  const INITIAL := Hash(0x5A5A_5A5A_5A5A_5A5A, [0x5A, 0x5A, 0x5A, 0x5A, 0x5A, 0x5A, 0x5A, 0x5A])

  /** Whether `char` is signed is up to the platform; if so, high bytes are widened with their sign. */
  function Widen(b: Byte, signed: bool): int {
    if signed && b >= 128 then b - 256 else b
  }

  function Step(h: Hash, b: Byte, signed: bool): (r: Hash)
    requires h.Valid()
    ensures r.Valid()
  {
    Hash((h.first * 256 + Widen(b, signed) + h.second[0]) % WORD, h.second[1..] + [h.first / TOP])
  }

  function Update(h: Hash, bs: seq<Byte>, signed: bool): (r: Hash)
    requires h.Valid()
    ensures r.Valid()
  {
    if bs == [] then h else Step(Update(h, bs[..|bs| - 1], signed), bs[|bs| - 1], signed)
  }

  // ------------------------------------------------------------ each step can be undone

  function Unstep(r: Hash, b: Byte, signed: bool): (h: Hash)
    requires r.Valid()
    ensures h.Valid()
  {
    var y := (r.first - Widen(b, signed)) % WORD;
    Hash(r.second[7] * TOP + y / 256, [y % 256] + r.second[..7])
  }

  lemma WordMod(x: int, q: int, r: nat)
    requires x == q * WORD + r && r < WORD
    ensures x % WORD == r
  {
  }

  lemma UnstepFirst(first: nat, e: int, recycle: Byte)
    requires first < WORD
    ensures var y := ((first * 256 + e + recycle) % WORD - e) % WORD;
            y % 256 == recycle && first / TOP * TOP + y / 256 == first
  {
    var x, low := first * 256 + e + recycle, first % TOP * 256 + recycle;
    assert x - e == first / TOP * WORD + low;
    assert x % WORD - e == (first / TOP - x / WORD) * WORD + low;
    WordMod(x % WORD - e, first / TOP - x / WORD, low);
  }

  lemma UnstepStep(h: Hash, b: Byte, signed: bool)
    requires h.Valid()
    ensures Unstep(Step(h, b, signed), b, signed) == h
  {
    UnstepFirst(h.first, Widen(b, signed), h.second[0]);
    assert Step(h, b, signed).second[..7] == h.second[1..];
  }

  lemma StepFirst(first: nat, e: int, top: Byte)
    requires first < WORD
    ensures var y := (first - e) % WORD;
            ((top * TOP + y / 256) * 256 + e + y % 256) % WORD == first && (top * TOP + y / 256) / TOP == top
  {
  }

  lemma StepUnstep(r: Hash, b: Byte, signed: bool)
    requires r.Valid()
    ensures Step(Unstep(r, b, signed), b, signed) == r
  {
    StepFirst(r.first, Widen(b, signed), r.second[7]);
    assert r.second[..7] + [r.second[7]] == r.second;
  }

  /** What follows a difference never hides it. */
  lemma {:induction false} UpdateInjective(h: Hash, g: Hash, bs: seq<Byte>, signed: bool)
    requires h.Valid() && g.Valid() && Update(h, bs, signed) == Update(g, bs, signed)
    ensures h == g
  {
    if bs != [] {
      var init, last := bs[..|bs| - 1], bs[|bs| - 1];
      UnstepStep(Update(h, init, signed), last, signed);
      UnstepStep(Update(g, init, signed), last, signed);
      UpdateInjective(h, g, init, signed);
    }
  }

  lemma {:induction false} UpdateConcat(h: Hash, a: seq<Byte>, b: seq<Byte>, signed: bool)
    requires h.Valid()
    ensures Update(h, a + b, signed) == Update(Update(h, a, signed), b, signed)
  {
    if b == [] {
      assert a + b == a;
    } else {
      var init := b[..|b| - 1];
      UpdateConcat(h, a, init, signed);
      assert (a + b)[..|a + b| - 1] == a + init;
    }
  }

  // ------------------------------------------------------------ a short difference is never lost

  /** How far apart two inputs of the same length are, as numbers in base 256. */
  function Gap(a: seq<Byte>, b: seq<Byte>, signed: bool): int
    requires |a| == |b|
  {
    if a == [] then 0 else
      var n := |a| - 1;
      Gap(a[..n], b[..n], signed) * 256 + Widen(a[n], signed) - Widen(b[n], signed)
  }

  lemma {:induction false} GapBound(a: seq<Byte>, b: seq<Byte>, signed: bool)
    requires |a| == |b|
    ensures 0 < Gap(a, b, signed) + Limit(|a|) && Gap(a, b, signed) < Limit(|a|)
    ensures Gap(a, b, signed) == 0 ==> a == b
  {
    if a != [] {
      var n := |a| - 1;
      GapBound(a[..n], b[..n], signed);
      assert a == a[..n] + [a[n]] && b == b[..n] + [b[n]];
    }
  }

  lemma {:induction false} LimitWord(w: nat)
    requires w <= 8
    ensures Limit(w) <= WORD
    decreases 8 - w
  {
    if w == 8 {
      assert Limit(8) == 256 * (256 * (256 * (256 * Limit(4))));
      assert Limit(4) == 256 * (256 * (256 * (256 * Limit(0))));
    } else {
      LimitWord(w + 1);
    }
  }

  lemma GapStep(f: int, g: int, gap: int, d: int, e: int, r: int)
    requires (f - g - gap) % WORD == 0
    ensures ((f * 256 + d + r) % WORD - (g * 256 + e + r) % WORD - (gap * 256 + d - e)) % WORD == 0
  {
    var q := (f - g - gap) / WORD;
    assert f == g + gap + q * WORD;
    var x, y := f * 256 + d + r, g * 256 + e + r;
    assert x - y - (gap * 256 + d - e) == 256 * q * WORD;
    assert x % WORD - y % WORD - (gap * 256 + d - e) == (256 * q - x / WORD + y / WORD) * WORD;
    WordMod(x % WORD - y % WORD - (gap * 256 + d - e), 256 * q - x / WORD + y / WORD, 0);
  }

  /** Two states whose first words are a given gap apart and whose second words share their leading bytes. */
  predicate Apart(f: Hash, g: Hash, gap: int, shared: nat)
    requires f.Valid() && g.Valid() && shared <= 8
  {
    f.second[..shared] == g.second[..shared] && (f.first - g.first - gap) % WORD == 0
  }

  lemma ApartStep(f: Hash, g: Hash, gap: int, shared: nat, x: Byte, y: Byte, signed: bool)
    requires f.Valid() && g.Valid() && 1 <= shared <= 8 && Apart(f, g, gap, shared)
    ensures Apart(Step(f, x, signed), Step(g, y, signed), gap * 256 + Widen(x, signed) - Widen(y, signed), shared - 1)
  {
    assert f.second[0] == f.second[..shared][0] == g.second[..shared][0] == g.second[0];
    GapStep(f.first, g.first, gap, Widen(x, signed), Widen(y, signed), f.second[0]);
    ShiftPrefix(f.second, g.second, f.first / TOP, g.first / TOP, shared);
  }

  /** Eight bytes pass before the second word hands anything back that differs. */
  lemma {:induction false} ApartAfter(h: Hash, a: seq<Byte>, b: seq<Byte>, signed: bool)
    requires h.Valid() && |a| == |b| <= 8
    ensures Apart(Update(h, a, signed), Update(h, b, signed), Gap(a, b, signed), 8 - |a|)
  {
    if a != [] {
      var n := |a| - 1;
      ApartAfter(h, a[..n], b[..n], signed);
      var f, g := Update(h, a[..n], signed), Update(h, b[..n], signed);
      ApartStep(f, g, Gap(a[..n], b[..n], signed), 8 - n, a[n], b[n], signed);
    }
  }

  lemma ShiftPrefix(s: seq<Byte>, t: seq<Byte>, x: Byte, y: Byte, k: nat)
    requires |s| == |t| == 8 && 1 <= k <= 8 && s[..k] == t[..k]
    ensures (s[1..] + [x])[..k - 1] == (t[1..] + [y])[..k - 1]
  {
    assert (s[1..] + [x])[..k - 1] == s[..k][1..] && (t[1..] + [y])[..k - 1] == t[..k][1..];
  }

  lemma EightDiffer(h: Hash, a: seq<Byte>, b: seq<Byte>, signed: bool)
    requires h.Valid() && |a| == |b| <= 8 && Update(h, a, signed) == Update(h, b, signed)
    ensures a == b
  {
    ApartAfter(h, a, b, signed);
    GapBound(a, b, signed);
    LimitWord(|a|);
    assert Gap(a, b, signed) % WORD == 0;
  }

  /** The byte that the first of eight or fewer steps moves over is the same whatever they add. */
  lemma {:induction false} CarriedOver(h: Hash, a: seq<Byte>, signed: bool)
    requires h.Valid() && 1 <= |a| <= 8
    ensures Update(h, a, signed).second[8 - |a|] == h.first / TOP
  {
    var n := |a| - 1;
    if n == 0 {
      assert Update(h, a[..0], signed) == h;
    } else {
      CarriedOver(h, a[..n], signed);
    }
  }

  lemma LowByte(f: int, e: int, r: int)
    ensures (f * 256 + e + r) % WORD % 256 == (e + r) % 256
  {
    var x := f * 256 + e + r;
    assert x % WORD == 256 * (f - x / WORD * TOP) + (e + r);
  }

  /** The lowest byte of the first word after a step: what was added and what was recycled. */
  lemma StepLowByte(f: Hash, x: Byte, signed: bool)
    requires f.Valid()
    ensures Step(f, x, signed).first % 256 == (Widen(x, signed) + f.second[0]) % 256
  {
    LowByte(f.first, Widen(x, signed), f.second[0]);
  }

  lemma WidenInjective(x: Byte, y: Byte, r: Byte, signed: bool)
    requires (Widen(x, signed) + r) % 256 == (Widen(y, signed) + r) % 256
    ensures x == y
  {
  }

  /** From the same recycled byte, the state after a step tells the byte that was added. */
  lemma SameByte(f: Hash, g: Hash, x: Byte, y: Byte, signed: bool)
    requires f.Valid() && g.Valid() && f.second[0] == g.second[0] && Step(f, x, signed) == Step(g, y, signed)
    ensures x == y
  {
    StepLowByte(f, x, signed);
    StepLowByte(g, y, signed);
    WidenInjective(x, y, f.second[0], signed);
  }

  lemma NineDiffer(h: Hash, a: seq<Byte>, b: seq<Byte>, signed: bool)
    requires h.Valid() && |a| == |b| == 9 && Update(h, a, signed) == Update(h, b, signed)
    ensures a == b
  {
    var f, g := Update(h, a[..8], signed), Update(h, b[..8], signed);
    CarriedOver(h, a[..8], signed);
    CarriedOver(h, b[..8], signed);
    SameByte(f, g, a[8], b[8], signed);
    UnstepStep(f, a[8], signed);
    UnstepStep(g, b[8], signed);
    EightDiffer(h, a[..8], b[..8], signed);
    assert a == a[..8] + [a[8]] && b == b[..8] + [b[8]];
  }

  lemma ShortDifference(h: Hash, a: seq<Byte>, b: seq<Byte>, signed: bool)
    requires h.Valid() && |a| == |b| <= 9 && Update(h, a, signed) == Update(h, b, signed)
    ensures a == b
  {
    if |a| == 9 {
      NineDiffer(h, a, b, signed);
    } else {
      EightDiffer(h, a, b, signed);
    }
  }

  /** Inputs that differ only within nine consecutive bytes never collide, whatever surrounds the difference. */
  lemma NoShortCollision(h: Hash, before: seq<Byte>, a: seq<Byte>, b: seq<Byte>, after: seq<Byte>, signed: bool)
    requires h.Valid() && |a| == |b| <= 9 && a != b
    ensures Update(h, before + a + after, signed) != Update(h, before + b + after, signed)
  {
    UpdateConcat(h, before + a, after, signed);
    UpdateConcat(h, before + b, after, signed);
    UpdateConcat(h, before, a, signed);
    UpdateConcat(h, before, b, signed);
    if Update(h, before + a + after, signed) == Update(h, before + b + after, signed) {
      UpdateInjective(Update(h, before + a, signed), Update(h, before + b, signed), after, signed);
      ShortDifference(Update(h, before, signed), a, b, signed);
      assert false;
    }
  }

  // ------------------------------------------------------------ schemas

  datatype Property = Property(
    name: seq<Byte>, dataType: Byte, subtype: seq<Byte>, access: Byte, index: bool, optional: bool,
    unit: seq<Byte>, desc: seq<Byte>, direction: Byte)

  datatype Method = Method(name: seq<Byte>, desc: seq<Byte>, arguments: seq<Property>)

  datatype Schema = Schema(
    kind: Byte, package: seq<Byte>, name: seq<Byte>, properties: seq<Property>, methods: seq<Method>)

  function Flag(b: bool): Byte {
    if b then 1 else 0
  }

  function PropertyBytes(p: Property): seq<Byte> {
    p.name + [p.dataType] + p.subtype + [p.access, Flag(p.index), Flag(p.optional)] + p.unit + p.desc + [p.direction]
  }

  function PropertiesBytes(ps: seq<Property>): seq<Byte> {
    if ps == [] then [] else PropertiesBytes(ps[..|ps| - 1]) + PropertyBytes(ps[|ps| - 1])
  }

  function MethodBytes(m: Method): seq<Byte> {
    m.name + m.desc + PropertiesBytes(m.arguments)
  }

  function MethodsBytes(ms: seq<Method>): seq<Byte> {
    if ms == [] then [] else MethodsBytes(ms[..|ms| - 1]) + MethodBytes(ms[|ms| - 1])
  }

  /** Everything a schema's hash is taken over, in the order it is taken. */
  function SchemaBytes(s: Schema): seq<Byte> {
    [s.kind] + s.package + s.name + PropertiesBytes(s.properties) + MethodsBytes(s.methods)
  }

  function Finalized(s: Schema, signed: bool): (h: Hash) {
    Update(INITIAL, SchemaBytes(s), signed)
  }

  /** Two byte sequences that differ at most in a stretch of the same length. */
  ghost predicate Window(x: seq<Byte>, y: seq<Byte>, a: seq<Byte>, b: seq<Byte>) {
    exists before, after :: x == before + a + after && y == before + b + after
  }

  lemma WindowWithin(before: seq<Byte>, x: seq<Byte>, y: seq<Byte>, after: seq<Byte>, a: seq<Byte>, b: seq<Byte>)
    requires Window(x, y, a, b)
    ensures Window(before + x + after, before + y + after, a, b)
  {
    var l, r :| x == l + a + r && y == l + b + r;
    assert before + x + after == (before + l) + a + (r + after);
    assert before + y + after == (before + l) + b + (r + after);
  }

  lemma {:induction false} PropertiesWindow(ps: seq<Property>, i: nat, p: Property, a: seq<Byte>, b: seq<Byte>)
    requires i < |ps| && Window(PropertyBytes(ps[i]), PropertyBytes(p), a, b)
    ensures Window(PropertiesBytes(ps), PropertiesBytes(ps[i := p]), a, b)
  {
    var n := |ps| - 1;
    var init := ps[..n];
    if i == n {
      assert ps[i := p][..n] == init;
      Padded(PropertiesBytes(init), PropertyBytes(ps[i]), PropertyBytes(p), [], a, b);
    } else {
      assert ps[i := p][..n] == init[i := p];
      PropertiesWindow(init, i, p, a, b);
      Padded([], PropertiesBytes(init), PropertiesBytes(init[i := p]), PropertyBytes(ps[n]), a, b);
    }
  }

  /** WindowWithin, for a stretch that begins or ends the whole. */
  lemma Padded(before: seq<Byte>, x: seq<Byte>, y: seq<Byte>, after: seq<Byte>, a: seq<Byte>, b: seq<Byte>)
    requires Window(x, y, a, b)
    ensures Window(before + x + after, before + y + after, a, b)
    ensures after == [] ==> Window(before + x, before + y, a, b)
    ensures before == [] ==> Window(x + after, y + after, a, b)
  {
    WindowWithin(before, x, y, after, a, b);
    if after == [] {
      assert before + x + after == before + x && before + y + after == before + y;
    }
    if before == [] {
      assert before + x == x && before + y == y;
    }
  }

  lemma WindowNoCollision(x: seq<Byte>, y: seq<Byte>, a: seq<Byte>, b: seq<Byte>, signed: bool)
    requires Window(x, y, a, b) && |a| == |b| <= 9 && a != b
    ensures Update(INITIAL, x, signed) != Update(INITIAL, y, signed)
  {
    var before, after :| x == before + a + after && y == before + b + after;
    NoShortCollision(INITIAL, before, a, b, after, signed);
  }

  function WithProperty(s: Schema, i: nat, q: Property): Schema
    requires i < |s.properties|
  {
    s.(properties := s.properties[i := q])
  }

  /** A change of one property's type, of its direction, or of any of its access, index and optional settings. */
  predicate SettingChange(p: Property, q: Property) {
    || q == p.(dataType := q.dataType)
    || q == p.(direction := q.direction)
    || q == p.(access := q.access, index := q.index, optional := q.optional)
  }

  /** Each such change is within three consecutive bytes. */
  ghost predicate ShortChange(p: Property, q: Property, a: seq<Byte>, b: seq<Byte>) {
    Window(PropertyBytes(p), PropertyBytes(q), a, b) && |a| == |b| <= 3 && a != b
  }

  lemma TypeChange(p: Property, q: Property)
    requires p != q && q == p.(dataType := q.dataType)
    ensures ShortChange(p, q, [p.dataType], [q.dataType])
  {
    var after := p.subtype + [p.access, Flag(p.index), Flag(p.optional)] + p.unit + p.desc + [p.direction];
    assert PropertyBytes(p) == p.name + [p.dataType] + after;
    assert PropertyBytes(q) == p.name + [q.dataType] + after;
    assert [p.dataType][0] != [q.dataType][0];
  }

  lemma DirectionChange(p: Property, q: Property)
    requires p != q && q == p.(direction := q.direction)
    ensures ShortChange(p, q, [p.direction], [q.direction])
  {
    var before := p.name + [p.dataType] + p.subtype + [p.access, Flag(p.index), Flag(p.optional)] + p.unit + p.desc;
    assert PropertyBytes(p) == before + [p.direction] + [];
    assert PropertyBytes(q) == before + [q.direction] + [];
    assert [p.direction][0] != [q.direction][0];
  }

  lemma AccessChange(p: Property, q: Property)
    requires p != q && q == p.(access := q.access, index := q.index, optional := q.optional)
    ensures ShortChange(p, q, [p.access, Flag(p.index), Flag(p.optional)], [q.access, Flag(q.index), Flag(q.optional)])
  {
    var a, b := [p.access, Flag(p.index), Flag(p.optional)], [q.access, Flag(q.index), Flag(q.optional)];
    var before, after := p.name + [p.dataType] + p.subtype, p.unit + p.desc + [p.direction];
    assert PropertyBytes(p) == before + a + after;
    assert PropertyBytes(q) == before + b + after;
    assert a[0] != b[0] || a[1] != b[1] || a[2] != b[2];
  }

  lemma SettingIsShort(p: Property, q: Property) returns (a: seq<Byte>, b: seq<Byte>)
    requires p != q && SettingChange(p, q)
    ensures ShortChange(p, q, a, b)
  {
    if q == p.(dataType := q.dataType) {
      TypeChange(p, q);
      a, b := [p.dataType], [q.dataType];
    } else if q == p.(direction := q.direction) {
      DirectionChange(p, q);
      a, b := [p.direction], [q.direction];
    } else {
      AccessChange(p, q);
      a, b := [p.access, Flag(p.index), Flag(p.optional)], [q.access, Flag(q.index), Flag(q.optional)];
    }
  }

  /** Changing any one-byte setting of a property always changes the hash of the schema. */
  lemma PropertyChangeShows(s: Schema, i: nat, q: Property, signed: bool)
    requires i < |s.properties| && q != s.properties[i] && SettingChange(s.properties[i], q)
    ensures Finalized(s, signed) != Finalized(WithProperty(s, i, q), signed)
  {
    var a, b := SettingIsShort(s.properties[i], q);
    SchemaWindow(s, i, q, a, b);
    WindowNoCollision(SchemaBytes(s), SchemaBytes(WithProperty(s, i, q)), a, b, signed);
  }

  function WithArgument(m: Method, i: nat, q: Property): Method
    requires i < |m.arguments|
  {
    m.(arguments := m.arguments[i := q])
  }

  lemma {:induction false} MethodsWindow(ms: seq<Method>, k: nat, m: Method, a: seq<Byte>, b: seq<Byte>)
    requires k < |ms| && Window(MethodBytes(ms[k]), MethodBytes(m), a, b)
    ensures Window(MethodsBytes(ms), MethodsBytes(ms[k := m]), a, b)
  {
    var n := |ms| - 1;
    var init := ms[..n];
    if k == n {
      assert ms[k := m][..n] == init;
      Padded(MethodsBytes(init), MethodBytes(ms[k]), MethodBytes(m), [], a, b);
    } else {
      assert ms[k := m][..n] == init[k := m];
      MethodsWindow(init, k, m, a, b);
      Padded([], MethodsBytes(init), MethodsBytes(init[k := m]), MethodBytes(ms[n]), a, b);
    }
  }

  /** The same for a property that is an argument of a method. */
  lemma ArgumentChangeShows(s: Schema, k: nat, i: nat, q: Property, signed: bool)
    requires k < |s.methods| && i < |s.methods[k].arguments|
    requires q != s.methods[k].arguments[i] && SettingChange(s.methods[k].arguments[i], q)
    ensures Finalized(s, signed) != Finalized(s.(methods := s.methods[k := WithArgument(s.methods[k], i, q)]), signed)
  {
    var m := s.methods[k];
    var n := WithArgument(m, i, q);
    var t := s.(methods := s.methods[k := n]);
    var a, b := SettingIsShort(m.arguments[i], q);
    PropertiesWindow(m.arguments, i, q, a, b);
    Padded(m.name + m.desc, PropertiesBytes(m.arguments), PropertiesBytes(n.arguments), [], a, b);
    MethodsWindow(s.methods, k, n, a, b);
    Padded([s.kind] + s.package + s.name + PropertiesBytes(s.properties),
           MethodsBytes(s.methods), MethodsBytes(t.methods), [], a, b);
    WindowNoCollision(SchemaBytes(s), SchemaBytes(t), a, b, signed);
  }

  /** Schemas whose bytes differ only within nine consecutive ones hash alike exactly when the bytes are the same. */
  lemma HashShowsBytes(s: Schema, t: Schema, a: seq<Byte>, b: seq<Byte>, signed: bool)
    requires Window(SchemaBytes(s), SchemaBytes(t), a, b) && |a| == |b| <= 9
    ensures Finalized(s, signed) == Finalized(t, signed) <==> SchemaBytes(s) == SchemaBytes(t)
  {
    if a != b {
      WindowNoCollision(SchemaBytes(s), SchemaBytes(t), a, b, signed);
    }
  }

  lemma TextWindow(p: Property, q: Property)
    requires q == p.(unit := q.unit, desc := q.desc)
    ensures Window(PropertyBytes(p), PropertyBytes(q), p.unit + p.desc, q.unit + q.desc)
  {
    var before := p.name + [p.dataType] + p.subtype + [p.access, Flag(p.index), Flag(p.optional)];
    assert PropertyBytes(p) == before + (p.unit + p.desc) + [p.direction];
    assert PropertyBytes(q) == before + (q.unit + q.desc) + [p.direction];
  }

  lemma SchemaWindow(s: Schema, i: nat, q: Property, a: seq<Byte>, b: seq<Byte>)
    requires i < |s.properties| && Window(PropertyBytes(s.properties[i]), PropertyBytes(q), a, b)
    ensures Window(SchemaBytes(s), SchemaBytes(WithProperty(s, i, q)), a, b)
  {
    PropertiesWindow(s.properties, i, q, a, b);
    WindowWithin([s.kind] + s.package + s.name, PropertiesBytes(s.properties), PropertiesBytes(s.properties[i := q]),
                 MethodsBytes(s.methods), a, b);
  }

  /**
    Field boundaries are not hashed: a unit and a description of nine bytes or fewer in all can be replaced
    by others of the same total length without changing the hash if and only if they read the same run together.
   */
  lemma BoundariesAreLost(s: Schema, i: nat, q: Property, signed: bool)
    requires i < |s.properties|
    requires var p := s.properties[i];
             q == p.(unit := q.unit, desc := q.desc) && |q.unit + q.desc| == |p.unit + p.desc| <= 9
    ensures Finalized(s, signed) == Finalized(WithProperty(s, i, q), signed) <==>
            q.unit + q.desc == s.properties[i].unit + s.properties[i].desc
  {
    var p := s.properties[i];
    var a, b := p.unit + p.desc, q.unit + q.desc;
    TextWindow(p, q);
    SchemaWindow(s, i, q, a, b);
    if a != b {
      WindowNoCollision(SchemaBytes(s), SchemaBytes(WithProperty(s, i, q)), a, b, signed);
    } else {
      SameText(s, i, q, signed);
    }
  }

  /** Whatever their length, texts that read the same run together are hashed alike. */
  lemma SameText(s: Schema, i: nat, q: Property, signed: bool)
    requires i < |s.properties|
    requires var p := s.properties[i]; q == p.(unit := q.unit, desc := q.desc) && q.unit + q.desc == p.unit + p.desc
    ensures Finalized(s, signed) == Finalized(WithProperty(s, i, q), signed)
  {
    TextWindow(s.properties[i], q);
    var before, after :| PropertyBytes(s.properties[i]) == before + (q.unit + q.desc) + after
                         && PropertyBytes(q) == before + (q.unit + q.desc) + after;
    SameBytes(s.properties, i, q);
  }

  /** So every schema that has a unit shares its hash with a different schema. */
  lemma MovedTextCollides(s: Schema, i: nat, q: Property, signed: bool)
    requires i < |s.properties| && s.properties[i].unit != []
    requires q == s.properties[i].(unit := [], desc := s.properties[i].unit + s.properties[i].desc)
    ensures WithProperty(s, i, q) != s && Finalized(WithProperty(s, i, q), signed) == Finalized(s, signed)
  {
    assert q != s.properties[i];
    assert WithProperty(s, i, q).properties[i] == q;
    SameText(s, i, q, signed);
  }

  lemma {:induction false} SameBytes(ps: seq<Property>, i: nat, q: Property)
    requires i < |ps| && PropertyBytes(q) == PropertyBytes(ps[i])
    ensures PropertiesBytes(ps[i := q]) == PropertiesBytes(ps)
  {
    var n := |ps| - 1;
    if i == n {
      assert ps[i := q][..n] == ps[..n];
    } else {
      assert ps[i := q][..n] == ps[..n][i := q];
      SameBytes(ps[..n], i, q);
    }
  }
}
