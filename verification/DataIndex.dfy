/**
  The agent's data: a primary index by address and a secondary index that groups the data
  of each class, kept in step by hand. Addresses are numbered in the order of the index
  (by name, then agent name); a class is known by its package and name, without the hash.
 */
module DataIndexes {
  import opened Options
  import opened OrderedKeys

  type Addr = nat

  datatype ClassKey = ClassKey(package: string, name: string)

  datatype Data = Data(id: nat, class_: Option<ClassKey>)

  type DataIndex = map<Addr, Data>

  datatype Indexes = Indexes(global: DataIndex, byClass: map<ClassKey, DataIndex>)

  const Empty := Indexes(map[], map[])

  /** The data of a class in the primary index. */
  function OfClass(global: DataIndex, key: ClassKey): DataIndex {
    map a | a in global && global[a].class_ == Some(key) :: global[a]
  }

  /** The secondary index holds, class by class, exactly the primary index's data of that class. */
  ghost predicate Agree(s: Indexes) {
    forall key :: Lookup(s.byClass, key) == OfClass(s.global, key)
  }

  function Lookup(byClass: map<ClassKey, DataIndex>, key: ClassKey): DataIndex {
    if key in byClass then byClass[key] else map[]
  }

  // ------------------------------------------------------------ the operations on values

  function Register(s: Indexes, key: ClassKey): Indexes {
    s.(byClass := s.byClass[key := map[]])
  }

  /** A taken address is refused and changes nothing. */
  function Add(s: Indexes, addr: Addr, data: Data): Indexes {
    if addr in s.global then s else
      s.(global := s.global[addr := data],
         byClass := if data.class_.Some?
                    then s.byClass[data.class_.value := Lookup(s.byClass, data.class_.value)[addr := data]]
                    else s.byClass)
  }

  function Delete(s: Indexes, addr: Addr): Indexes {
    if addr !in s.global then s else
      var c := s.global[addr].class_;
      s.(global := s.global - {addr},
         byClass := if c.Some? then s.byClass[c.value := Lookup(s.byClass, c.value) - {addr}] else s.byClass)
  }

  lemma AddKeeps(s: Indexes, addr: Addr, data: Data)
    requires Agree(s)
    ensures Agree(Add(s, addr, data))
  {
    var t := Add(s, addr, data);
    forall key ensures Lookup(t.byClass, key) == OfClass(t.global, key) {
      assert Lookup(s.byClass, key) == OfClass(s.global, key);
    }
  }

  lemma DeleteKeeps(s: Indexes, addr: Addr)
    requires Agree(s)
    ensures Agree(Delete(s, addr))
  {
    var t := Delete(s, addr);
    forall key ensures Lookup(t.byClass, key) == OfClass(t.global, key) {
      assert Lookup(s.byClass, key) == OfClass(s.global, key);
    }
  }

  /** Registering a class keeps the indexes in step exactly when there is no data of that class yet. */
  lemma RegisterKeeps(s: Indexes, key: ClassKey)
    requires Agree(s)
    ensures Agree(Register(s, key)) <==> forall a :: a in s.global ==> s.global[a].class_ != Some(key)
  {
    var t := Register(s, key);
    assert Lookup(t.byClass, key) == map[];
    if forall a :: a in s.global ==> s.global[a].class_ != Some(key) {
      forall k ensures Lookup(t.byClass, k) == OfClass(t.global, k) {
        assert Lookup(s.byClass, k) == OfClass(s.global, k);
      }
    } else {
      var a :| a in s.global && s.global[a].class_ == Some(key);
      assert a in OfClass(t.global, key);
    }
  }

  // ------------------------------------------------------------ whole runs

  datatype Action = DoRegister(key: ClassKey) | DoAdd(addr: Addr, data: Data) | DoDelete(addr: Addr)

  function Step(s: Indexes, a: Action): Indexes {
    match a
    case DoRegister(key) => Register(s, key)
    case DoAdd(addr, data) => Add(s, addr, data)
    case DoDelete(addr) => Delete(s, addr)
  }

  function RunAll(actions: seq<Action>): Indexes {
    if actions == [] then Empty else Step(RunAll(actions[..|actions| - 1]), actions[|actions| - 1])
  }

  /** No class is registered while data of that class is there. */
  ghost predicate RegistersFirst(actions: seq<Action>) {
    forall i, a :: 0 <= i < |actions| && actions[i].DoRegister? && a in RunAll(actions[..i]).global ==>
      RunAll(actions[..i]).global[a].class_ != Some(actions[i].key)
  }

  lemma {:induction false} AlwaysAgree(actions: seq<Action>)
    requires RegistersFirst(actions)
    ensures Agree(RunAll(actions))
  {
    if actions == [] {
      forall key ensures Lookup(Empty.byClass, key) == OfClass(Empty.global, key) {
      }
    } else {
      var n := |actions| - 1;
      var before := actions[..n];
      assert forall i :: 0 <= i < n ==> before[..i] == actions[..i] && before[i] == actions[i];
      AlwaysAgree(before);
      match actions[n]
      case DoRegister(key) => RegisterKeeps(RunAll(before), key);
      case DoAdd(addr, data) => AddKeeps(RunAll(before), addr, data);
      case DoDelete(addr) => DeleteKeeps(RunAll(before), addr);
    }
  }

  // ------------------------------------------------------------ what a run leaves, from its history alone

  /** Whatever was added at the address before action `i` was deleted before it too. */
  ghost predicate FreeBefore(actions: seq<Action>, addr: Addr, i: nat)
    requires i <= |actions|
  {
    forall j :: 0 <= j < i && actions[j].DoAdd? && actions[j].addr == addr ==> DeletedBetween(actions, addr, j, i)
  }

  ghost predicate DeletedBetween(actions: seq<Action>, addr: Addr, j: nat, i: nat)
    requires j <= i <= |actions|
  {
    exists k :: j < k < i && actions[k] == DoDelete(addr)
  }

  /** The datum was added at the address while it was free, and has not been deleted since. */
  ghost predicate AddedAndKept(actions: seq<Action>, addr: Addr, d: Data, i: nat) {
    && i < |actions| && actions[i] == DoAdd(addr, d) && FreeBefore(actions, addr, i)
    && !DeletedBetween(actions, addr, i, |actions|)
  }

  ghost predicate Kept(actions: seq<Action>, addr: Addr, d: Data) {
    exists i :: AddedAndKept(actions, addr, d, i)
  }

  lemma BetweenSnoc(actions: seq<Action>, a: Action, addr: Addr, j: nat)
    requires j < |actions|
    ensures var all := actions + [a];
            && (DeletedBetween(all, addr, j, |actions|) <==> DeletedBetween(actions, addr, j, |actions|))
            && (DeletedBetween(all, addr, j, |all|) <==>
                DeletedBetween(actions, addr, j, |actions|) || a == DoDelete(addr))
  {
    var all := actions + [a];
    assert all[|actions|] == a && forall k :: 0 <= k < |actions| ==> all[k] == actions[k];
    if DeletedBetween(actions, addr, j, |actions|) {
      var k :| j < k < |actions| && actions[k] == DoDelete(addr);
      assert all[k] == DoDelete(addr);
    }
  }

  lemma FreePrefix(actions: seq<Action>, a: Action, addr: Addr, i: nat)
    requires i <= |actions|
    ensures FreeBefore(actions + [a], addr, i) <==> FreeBefore(actions, addr, i)
  {
    var all := actions + [a];
    assert forall k :: 0 <= k < |actions| ==> all[k] == actions[k];
    forall j | 0 <= j < i ensures DeletedBetween(all, addr, j, i) <==> DeletedBetween(actions, addr, j, i) {
      if DeletedBetween(actions, addr, j, i) {
        var k :| j < k < i && actions[k] == DoDelete(addr);
        assert all[k] == DoDelete(addr);
      }
    }
  }

  lemma FreeSnoc(actions: seq<Action>, a: Action, addr: Addr)
    ensures FreeBefore(actions + [a], addr, |actions| + 1) <==>
            a == DoDelete(addr) || (FreeBefore(actions, addr, |actions|) && !(a.DoAdd? && a.addr == addr))
  {
    var all, n := actions + [a], |actions|;
    assert all[n] == a && forall k :: 0 <= k < n ==> all[k] == actions[k];
    forall j | 0 <= j < n
      ensures DeletedBetween(all, addr, j, n + 1) <==> DeletedBetween(actions, addr, j, n) || a == DoDelete(addr)
    {
      BetweenSnoc(actions, a, addr, j);
    }
    assert !DeletedBetween(all, addr, n, n + 1);
    if FreeBefore(all, addr, n + 1) && a != DoDelete(addr) {
      assert !(a.DoAdd? && a.addr == addr);
      forall j | 0 <= j < n && actions[j].DoAdd? && actions[j].addr == addr
        ensures DeletedBetween(actions, addr, j, n)
      {
        assert all[j] == actions[j];
      }
    }
  }

  lemma KeptSnoc(actions: seq<Action>, a: Action, addr: Addr, d: Data)
    ensures Kept(actions + [a], addr, d) <==>
            || (Kept(actions, addr, d) && a != DoDelete(addr))
            || (a == DoAdd(addr, d) && FreeBefore(actions, addr, |actions|))
  {
    var all, n := actions + [a], |actions|;
    assert all[n] == a && forall k :: 0 <= k < n ==> all[k] == actions[k];
    FreePrefix(actions, a, addr, n);
    assert !DeletedBetween(all, addr, n, n + 1);
    forall i | 0 <= i < n
      ensures AddedAndKept(all, addr, d, i) <==> AddedAndKept(actions, addr, d, i) && a != DoDelete(addr)
    {
      FreePrefix(actions, a, addr, i);
      BetweenSnoc(actions, a, addr, i);
    }
    if Kept(actions, addr, d) && a != DoDelete(addr) {
      var i :| AddedAndKept(actions, addr, d, i);
      assert AddedAndKept(all, addr, d, i);
    }
    if a == DoAdd(addr, d) && FreeBefore(actions, addr, n) {
      assert AddedAndKept(all, addr, d, n);
    }
  }

  /** After any run, an address is free exactly when everything added there was deleted again. */
  lemma {:induction false} FreeExactly(actions: seq<Action>, addr: Addr)
    ensures addr !in RunAll(actions).global <==> FreeBefore(actions, addr, |actions|)
  {
    if actions != [] {
      var n := |actions| - 1;
      FreeExactly(actions[..n], addr);
      assert actions == actions[..n] + [actions[n]];
      FreeSnoc(actions[..n], actions[n], addr);
    }
  }

  /** After any run, the primary index holds exactly the data added at a free address and not deleted since. */
  lemma {:induction false} HeldExactly(actions: seq<Action>, addr: Addr, d: Data)
    ensures addr in RunAll(actions).global && RunAll(actions).global[addr] == d <==> Kept(actions, addr, d)
  {
    if actions != [] {
      var n := |actions| - 1;
      HeldExactly(actions[..n], addr, d);
      FreeExactly(actions[..n], addr);
      assert actions == actions[..n] + [actions[n]];
      KeptSnoc(actions[..n], actions[n], addr, d);
    }
  }

  // ------------------------------------------------------------ queries

  /** The data of an index that satisfy a predicate, in the order of the index. */
  ghost function Select(index: DataIndex, p: Data -> bool): seq<Data>
    decreases |index.Keys|
  {
    if index == map[] then [] else
      var a := Least(index.Keys);
      assert (index - {a}).Keys == index.Keys - {a};
      (if p(index[a]) then [index[a]] else []) + Select(index - {a}, p)
  }

  ghost predicate Ascending(addrs: seq<Addr>) {
    forall i, j :: 0 <= i < j < |addrs| ==> addrs[i] < addrs[j]
  }

  lemma AscendingCons(a: Addr, addrs: seq<Addr>)
    requires Ascending(addrs) && forall b :: b in addrs ==> a < b
    ensures Ascending([a] + addrs)
  {
    assert forall k :: 0 <= k < |addrs| ==> addrs[k] in addrs;
  }

  /** The addresses are exactly the matching ones, in ascending order, and the answer is the data there. */
  ghost predicate Answers(addrs: seq<Addr>, index: DataIndex, p: Data -> bool, answer: seq<Data>) {
    && Ascending(addrs) && |addrs| == |answer|
    && (forall a :: a in addrs <==> a in index && p(index[a]))
    && (forall k :: 0 <= k < |addrs| ==> answer[k] == index[addrs[k]])
  }

  /** The least address comes first in the answer, if its data match. */
  lemma AnswersLeast(index: DataIndex, p: Data -> bool, a: Addr, addrs: seq<Addr>, answer: seq<Data>)
    requires IsLeast(a, index.Keys) && Answers(addrs, index - {a}, p, answer)
    ensures if p(index[a]) then Answers([a] + addrs, index, p, [index[a]] + answer)
            else Answers(addrs, index, p, answer)
  {
    if p(index[a]) {
      AscendingCons(a, addrs);
    }
  }

  /** The answer is the data at exactly the matching addresses, each once, in ascending order of address. */
  lemma {:induction false} SelectedOnce(index: DataIndex, p: Data -> bool) returns (addrs: seq<Addr>)
    ensures Answers(addrs, index, p, Select(index, p))
    decreases |index.Keys|
  {
    addrs := [];
    if index != map[] {
      var a := Least(index.Keys);
      assert (index - {a}).Keys == index.Keys - {a};
      addrs := SelectedOnce(index - {a}, p);
      AnswersLeast(index, p, a, addrs, Select(index - {a}, p));
      if p(index[a]) {
        addrs := [a] + addrs;
      }
    }
  }

  /** The condition a scan of all data would test: the class, and then the query's own predicate. */
  function OfClassAnd(key: ClassKey, p: Data -> bool): Data -> bool {
    (d: Data) => d.class_ == Some(key) && p(d)
  }

  /** Taking the least address off an index and off its data of one class. */
  lemma OfClassLeast(index: DataIndex, key: ClassKey, a: Addr)
    requires IsLeast(a, index.Keys)
    ensures var part := OfClass(index, key);
            if index[a].class_ == Some(key)
            then IsLeast(a, part.Keys) && part - {a} == OfClass(index - {a}, key)
            else part == OfClass(index - {a}, key)
  {
  }

  /** Selecting from the data of one class is selecting from all data with the class as a further condition. */
  lemma {:induction false} SelectOfClass(index: DataIndex, key: ClassKey, p: Data -> bool)
    ensures Select(OfClass(index, key), p) == Select(index, OfClassAnd(key, p))
    decreases |index.Keys|
  {
    var part := OfClass(index, key);
    if index == map[] {
      assert part == map[];
    } else {
      var a := Least(index.Keys);
      assert (index - {a}).Keys == index.Keys - {a};
      SelectOfClass(index - {a}, key, p);
      OfClassLeast(index, key, a);
    }
  }

  /** In every run that registers classes first, a query by class finds what a scan of all data would. */
  lemma QueryFindsAll(actions: seq<Action>, key: ClassKey, p: Data -> bool)
    requires RegistersFirst(actions)
    ensures var s := RunAll(actions);
            Select(Lookup(s.byClass, key), p) == Select(s.global, OfClassAnd(key, p))
  {
    AlwaysAgree(actions);
    var s := RunAll(actions);
    assert Lookup(s.byClass, key) == OfClass(s.global, key);
    SelectOfClass(s.global, key, p);
  }

  // ------------------------------------------------------------ the agent session

  datatype Query = ByAddr(addr: Addr) | ByClass(key: ClassKey) | Invalid

  datatype Answer = HandedOver | Found(data: seq<Data>) | Failed

  class AgentData {
    var globalIndex: DataIndex
    var schemaIndex: map<ClassKey, DataIndex>

    ghost function Value(): Indexes
      reads this
    {
      Indexes(globalIndex, schemaIndex)
    }

    /** The application keeps the data itself and is handed the queries. */
    const externalStorage: bool

    constructor (externalStorage: bool)
      ensures Value() == Empty && this.externalStorage == externalStorage
    {
      this.externalStorage := externalStorage;
      globalIndex, schemaIndex := map[], map[];
    }

    method RegisterSchema(key: ClassKey)
      modifies this
      ensures Value() == Register(old(Value()), key)
      ensures globalIndex == old(globalIndex) && schemaIndex == old(schemaIndex)[key := map[]]
    {
      schemaIndex := schemaIndex[key := map[]];
    }

    /** Returns false for a duplicate address, and whenever the application keeps the data. */
    method AddData(addr: Addr, data: Data) returns (ok: bool)
      modifies this
      ensures ok <==> !externalStorage && addr !in old(globalIndex)
      ensures Value() == if externalStorage then old(Value()) else Add(old(Value()), addr, data)
      ensures globalIndex == if ok then old(globalIndex)[addr := data] else old(globalIndex)
    {
      if externalStorage {
        return false;
      }
      if addr in globalIndex {
        return false;
      }
      globalIndex := globalIndex[addr := data];
      if data.class_.Some? {
        var key := data.class_.value;
        var index := if key in schemaIndex then schemaIndex[key] else map[];
        schemaIndex := schemaIndex[key := index[addr := data]];
      }
      ok := true;
    }

    method DelData(addr: Addr)
      modifies this
      ensures Value() == Delete(old(Value()), addr)
      ensures globalIndex == old(globalIndex) - {addr}
    {
      if addr !in globalIndex {
        return;
      }
      if globalIndex[addr].class_.Some? {
        var key := globalIndex[addr].class_.value;
        var index := if key in schemaIndex then schemaIndex[key] else map[];
        schemaIndex := schemaIndex[key := index - {addr}];
      }
      globalIndex := globalIndex - {addr};
    }

    /** Answering a query: one datum by its address, or the data of a class that pass the query's predicate. */
    method AuthAccept(query: Query, p: Data -> bool) returns (answer: Answer)
      ensures answer.HandedOver? <==> externalStorage
      ensures answer.Failed? <==> !externalStorage && query.Invalid?
      ensures !externalStorage && query.ByAddr? ==>
                answer == Found(if query.addr in globalIndex then [globalIndex[query.addr]] else [])
      ensures !externalStorage && query.ByClass? ==> answer == Found(Select(Lookup(schemaIndex, query.key), p))
      ensures !externalStorage && query.ByClass? && Agree(Value()) ==>
                answer == Found(Select(globalIndex, OfClassAnd(query.key, p)))
    {
      if externalStorage {
        return HandedOver;
      }
      match query
      case ByAddr(addr) =>
        answer := Found(if addr in globalIndex then [globalIndex[addr]] else []);
      case ByClass(key) =>
        var data := QueryClass(key, p);
        answer := Found(data);
      case Invalid =>
        answer := Failed;
    }

    /** The loop over the index of a class, in the order of the index. */
    method QueryClass(key: ClassKey, p: Data -> bool) returns (found: seq<Data>)
      ensures found == Select(Lookup(schemaIndex, key), p)
      ensures Agree(Value()) ==> found == Select(globalIndex, OfClassAnd(key, p))
    {
      found := [];
      var index := if key in schemaIndex then schemaIndex[key] else map[];
      ghost var all := index;
      while index != map[]
        invariant found + Select(index, p) == Select(all, p)
        decreases |index.Keys|
      {
        var a := LeastOf(index.Keys);
        assert a == Least(index.Keys);
        ghost var rest := Select(index - {a}, p);
        assert (index - {a}).Keys == index.Keys - {a};
        if p(index[a]) {
          assert found + ([index[a]] + rest) == found + [index[a]] + rest;
          found := found + [index[a]];
        } else {
          assert [] + rest == rest;
        }
        index := index - {a};
      }
      assert found + [] == found;
      if Agree(Value()) {
        assert Lookup(schemaIndex, key) == OfClass(globalIndex, key);
        SelectOfClass(globalIndex, key, p);
      }
    }
  }
}
