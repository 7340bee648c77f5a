/**
  The hash covers every field: a change within nine bytes of any one of them shows, wherever in the schema it is.
 */
module SchemaFields {
  import opened Words
  import opened SchemaHash

  /** Two texts that differ, and only within nine bytes. */
  ghost predicate Close(x: seq<Byte>, y: seq<Byte>, a: seq<Byte>, b: seq<Byte>) {
    Window(x, y, a, b) && |a| == |b| <= 9 && a != b
  }

  // ------------------------------------------------------------ properties

  /** A change of one of the texts of a property. */
  ghost predicate TextChange(p: Property, q: Property, a: seq<Byte>, b: seq<Byte>) {
    || (q == p.(name := q.name) && Close(p.name, q.name, a, b))
    || (q == p.(subtype := q.subtype) && Close(p.subtype, q.subtype, a, b))
    || (q == p.(unit := q.unit) && Close(p.unit, q.unit, a, b))
    || (q == p.(desc := q.desc) && Close(p.desc, q.desc, a, b))
  }

  function Settings(p: Property): seq<Byte> {
    [p.access, Flag(p.index), Flag(p.optional)]
  }

  lemma NameChange(p: Property, q: Property, a: seq<Byte>, b: seq<Byte>)
    requires q == p.(name := q.name) && Close(p.name, q.name, a, b)
    ensures Close(PropertyBytes(p), PropertyBytes(q), a, b)
  {
    var after := [p.dataType] + p.subtype + Settings(p) + p.unit + p.desc + [p.direction];
    assert PropertyBytes(p) == [] + p.name + after && PropertyBytes(q) == [] + q.name + after;
    WindowWithin([], p.name, q.name, after, a, b);
  }

  lemma SubtypeChange(p: Property, q: Property, a: seq<Byte>, b: seq<Byte>)
    requires q == p.(subtype := q.subtype) && Close(p.subtype, q.subtype, a, b)
    ensures Close(PropertyBytes(p), PropertyBytes(q), a, b)
  {
    var before, after := p.name + [p.dataType], Settings(p) + p.unit + p.desc + [p.direction];
    assert PropertyBytes(p) == before + p.subtype + after && PropertyBytes(q) == before + q.subtype + after;
    WindowWithin(before, p.subtype, q.subtype, after, a, b);
  }

  lemma UnitChange(p: Property, q: Property, a: seq<Byte>, b: seq<Byte>)
    requires q == p.(unit := q.unit) && Close(p.unit, q.unit, a, b)
    ensures Close(PropertyBytes(p), PropertyBytes(q), a, b)
  {
    var before, after := p.name + [p.dataType] + p.subtype + Settings(p), p.desc + [p.direction];
    assert PropertyBytes(p) == before + p.unit + after && PropertyBytes(q) == before + q.unit + after;
    WindowWithin(before, p.unit, q.unit, after, a, b);
  }

  lemma DescChange(p: Property, q: Property, a: seq<Byte>, b: seq<Byte>)
    requires q == p.(desc := q.desc) && Close(p.desc, q.desc, a, b)
    ensures Close(PropertyBytes(p), PropertyBytes(q), a, b)
  {
    var before, after := p.name + [p.dataType] + p.subtype + Settings(p) + p.unit, [p.direction];
    assert PropertyBytes(p) == before + p.desc + after && PropertyBytes(q) == before + q.desc + after;
    WindowWithin(before, p.desc, q.desc, after, a, b);
  }

  lemma TextIsClose(p: Property, q: Property, a: seq<Byte>, b: seq<Byte>)
    requires TextChange(p, q, a, b)
    ensures Close(PropertyBytes(p), PropertyBytes(q), a, b)
  {
    if q == p.(name := q.name) && Close(p.name, q.name, a, b) {
      NameChange(p, q, a, b);
    } else if q == p.(subtype := q.subtype) && Close(p.subtype, q.subtype, a, b) {
      SubtypeChange(p, q, a, b);
    } else if q == p.(unit := q.unit) && Close(p.unit, q.unit, a, b) {
      UnitChange(p, q, a, b);
    } else {
      DescChange(p, q, a, b);
    }
  }

  /** A change within nine bytes of a property's name, subtype, unit or description changes the hash. */
  lemma PropertyTextShows(s: Schema, i: nat, q: Property, a: seq<Byte>, b: seq<Byte>, signed: bool)
    requires i < |s.properties| && TextChange(s.properties[i], q, a, b)
    ensures Finalized(s, signed) != Finalized(WithProperty(s, i, q), signed)
  {
    TextIsClose(s.properties[i], q, a, b);
    SchemaWindow(s, i, q, a, b);
    WindowNoCollision(SchemaBytes(s), SchemaBytes(WithProperty(s, i, q)), a, b, signed);
  }

  // ------------------------------------------------------------ methods

  function WithMethod(s: Schema, k: nat, m: Method): Schema
    requires k < |s.methods|
  {
    s.(methods := s.methods[k := m])
  }

  lemma MethodShows(s: Schema, k: nat, m: Method, a: seq<Byte>, b: seq<Byte>, signed: bool)
    requires k < |s.methods| && Close(MethodBytes(s.methods[k]), MethodBytes(m), a, b)
    ensures Finalized(s, signed) != Finalized(WithMethod(s, k, m), signed)
  {
    var t := WithMethod(s, k, m);
    MethodsWindow(s.methods, k, m, a, b);
    Padded([s.kind] + s.package + s.name + PropertiesBytes(s.properties),
           MethodsBytes(s.methods), MethodsBytes(t.methods), [], a, b);
    WindowNoCollision(SchemaBytes(s), SchemaBytes(t), a, b, signed);
  }

  /** A change within nine bytes of a method's name or description changes the hash. */
  lemma MethodTextShows(s: Schema, k: nat, m: Method, a: seq<Byte>, b: seq<Byte>, signed: bool)
    requires k < |s.methods|
    requires var n := s.methods[k];
             || (m == n.(name := m.name) && Close(n.name, m.name, a, b))
             || (m == n.(desc := m.desc) && Close(n.desc, m.desc, a, b))
    ensures Finalized(s, signed) != Finalized(WithMethod(s, k, m), signed)
  {
    var n := s.methods[k];
    var args := PropertiesBytes(n.arguments);
    if m == n.(name := m.name) && Close(n.name, m.name, a, b) {
      assert MethodBytes(n) == [] + n.name + (n.desc + args) && MethodBytes(m) == [] + m.name + (n.desc + args);
      WindowWithin([], n.name, m.name, n.desc + args, a, b);
    } else {
      WindowWithin(n.name, n.desc, m.desc, args, a, b);
    }
    MethodShows(s, k, m, a, b, signed);
  }

  /** A change within nine bytes of one of the texts of a method's argument changes the hash. */
  lemma ArgumentTextShows(s: Schema, k: nat, i: nat, q: Property, a: seq<Byte>, b: seq<Byte>, signed: bool)
    requires k < |s.methods| && i < |s.methods[k].arguments| && TextChange(s.methods[k].arguments[i], q, a, b)
    ensures Finalized(s, signed) != Finalized(WithMethod(s, k, WithArgument(s.methods[k], i, q)), signed)
  {
    var m, n := s.methods[k], WithArgument(s.methods[k], i, q);
    TextIsClose(m.arguments[i], q, a, b);
    PropertiesWindow(m.arguments, i, q, a, b);
    Padded(m.name + m.desc, PropertiesBytes(m.arguments), PropertiesBytes(n.arguments), [], a, b);
    MethodShows(s, k, n, a, b, signed);
  }

  // ------------------------------------------------------------ the schema itself

  /** A change of the kind, or within nine bytes of the package or the class name, changes the hash. */
  lemma HeadShows(s: Schema, t: Schema, a: seq<Byte>, b: seq<Byte>, signed: bool)
    requires || (t == s.(kind := t.kind) && Close([s.kind], [t.kind], a, b))
             || (t == s.(package := t.package) && Close(s.package, t.package, a, b))
             || (t == s.(name := t.name) && Close(s.name, t.name, a, b))
    ensures Finalized(s, signed) != Finalized(t, signed)
  {
    var tail := PropertiesBytes(s.properties) + MethodsBytes(s.methods);
    HeadSplit(s);
    HeadSplit(t);
    if t == s.(kind := t.kind) && Close([s.kind], [t.kind], a, b) {
      assert [] + [s.kind] == [s.kind] && [] + [t.kind] == [t.kind];
      WindowWithin([], [s.kind], [t.kind], s.package + (s.name + tail), a, b);
    } else if t == s.(package := t.package) && Close(s.package, t.package, a, b) {
      WindowWithin([s.kind], s.package, t.package, s.name + tail, a, b);
    } else {
      WindowWithin([s.kind] + s.package, s.name, t.name, tail, a, b);
    }
    WindowNoCollision(SchemaBytes(s), SchemaBytes(t), a, b, signed);
  }

  lemma Assoc(a: seq<Byte>, b: seq<Byte>, c: seq<Byte>)
    ensures a + b + c == a + (b + c)
  {
  }

  lemma HeadSplit(s: Schema)
    ensures var tail := PropertiesBytes(s.properties) + MethodsBytes(s.methods);
            && SchemaBytes(s) == [s.kind] + (s.package + (s.name + tail))
            && SchemaBytes(s) == [s.kind] + s.package + (s.name + tail)
            && SchemaBytes(s) == [s.kind] + s.package + s.name + tail
  {
    var ps, ms := PropertiesBytes(s.properties), MethodsBytes(s.methods);
    Assoc([s.kind] + s.package + s.name, ps, ms);
    Assoc([s.kind] + s.package, s.name, ps + ms);
    Assoc([s.kind], s.package, s.name + (ps + ms));
  }

  // ------------------------------------------------------------ where each field is

  /** Where the fields of a property stand among the bytes that are hashed. */
  lemma PropertyLayout(p: Property)
    ensures var bytes := PropertyBytes(p);
            var settings := |p.name| + 1 + |p.subtype|;
            var desc := settings + 3 + |p.unit|;
            && |bytes| == desc + |p.desc| + 1
            && bytes[..|p.name|] == p.name && bytes[|p.name|] == p.dataType
            && bytes[|p.name| + 1..settings] == p.subtype
            && bytes[settings] == p.access
            && bytes[settings + 1] == (if p.index then 1 else 0)
            && bytes[settings + 2] == (if p.optional then 1 else 0)
            && bytes[settings + 3..desc] == p.unit
            && bytes[desc..|bytes| - 1] == p.desc && bytes[|bytes| - 1] == p.direction
  {
  }
}
