/** A character's memory store: the transactions `addMemory` and the reflection
    phase build, and an explicit entity store standing in for the Datascript
    database they are applied to. */
module Memories {
  import opened Wrappers
  import opened Util

  /** A value held in a memory: a string, a number, or a list of values. */
  datatype Val = VStr(s: string) | VNum(n: real) | VList(items: seq<Val>)

  /** One own property of a memory object, in `Object.entries` order. */
  datatype Entry = Entry(key: string, val: Val)

  /** A transaction operation: `[":db/add", e, attr, v]` or `[":db/retractEntity", e]`. */
  datatype TxOp = DbAdd(e: int, attr: string, v: Val) | RetractEntity(e: int)

  /** The temporary entity id every datom of a new memory is asserted on. */
  const TempId: int := -1

  /** `for...of` over a number throws. */
  datatype TxError = NotIterable(key: string)

  // ---------------------------------------------------------------------------
  // Building the addMemory transaction
  // ---------------------------------------------------------------------------

  /** What `for...of` visits: a list's items, or a string's characters. */
  function Elements(key: string, v: Val): (r: Result<seq<Val>, TxError>)
    ensures r.Err? <==> v.VNum?
    ensures v.VList? ==> r == Ok(v.items)
    ensures v.VStr? ==> r.Ok? && |r.value| == |v.s|
  {
    match v
    case VList(items) => Ok(items)
    case VStr(s) => Ok(seq(|s|, i requires 0 <= i < |s| => VStr([s[i]])))
    case VNum(_) => Err(NotIterable(key))
  }

  /** The attribute a memory key is stored under: the plural list keys become the
      schema's multi-valued `tag` and `bystander`. */
  function AttrOf(key: string): string
  {
    if key == "tags" then "tag" else if key == "bystanders" then "bystander" else key
  }

  predicate IsListKey(key: string)
  {
    key == "tags" || key == "bystanders"
  }

  /** One `:db/add` on the temporary entity per element. */
  function AddEach(attr: string, xs: seq<Val>): (r: seq<TxOp>)
    ensures |r| == |xs|
    ensures forall i :: 0 <= i < |r| ==> r[i] == DbAdd(TempId, attr, xs[i])
  {
    seq(|xs|, i requires 0 <= i < |xs| => DbAdd(TempId, attr, xs[i]))
  }

  /** The datoms one entry contributes. */
  function EntryTx(en: Entry): Result<seq<TxOp>, TxError>
  {
    if IsListKey(en.key) then
      match Elements(en.key, en.val)
      case Ok(xs) => Ok(AddEach(AttrOf(en.key), xs))
      case Err(err) => Err(err)
    else Ok([DbAdd(TempId, en.key, en.val)])
  }

  /** The transaction `addMemory` builds, entry by entry; the first entry that cannot
      be iterated is the error. */
  function AddMemoryTx(entries: seq<Entry>): Result<seq<TxOp>, TxError>
  {
    if entries == [] then Ok([])
    else
      match AddMemoryTx(entries[..|entries| - 1])
      case Err(err) => Err(err)
      case Ok(tx) =>
        match EntryTx(entries[|entries| - 1])
        case Err(err) => Err(err)
        case Ok(more) => Ok(tx + more)
  }

  /** The transaction-building loop of `addMemory`. */
  method BuildAddMemoryTx(entries: seq<Entry>) returns (r: Result<seq<TxOp>, TxError>)
    ensures r == AddMemoryTx(entries)
  {
    var tx: seq<TxOp> := [];
    var i := 0;
    while i < |entries|
      invariant 0 <= i <= |entries|
      invariant AddMemoryTx(entries[..i]) == Ok(tx)
    {
      var en := entries[i];
      assert entries[..i + 1][..i] == entries[..i];
      var more := EntryTx(en);
      if more.Err? {
        assert AddMemoryTx(entries[..i + 1]) == Err(more.error);
        ErrorPersists(entries, i + 1);
        return Err(more.error);
      }
      if IsListKey(en.key) {
        tx := AppendEach(tx, AttrOf(en.key), Elements(en.key, en.val).value);
      } else {
        tx := tx + [DbAdd(TempId, en.key, en.val)];
      }
      assert AddMemoryTx(entries[..i + 1]) == Ok(tx);
      i := i + 1;
    }
    assert entries[..i] == entries;
    r := Ok(tx);
  }

  /** The inner loop of `addMemory` that adds one datom per element of a list value. */
  method AppendEach(tx: seq<TxOp>, attr: string, xs: seq<Val>) returns (r: seq<TxOp>)
    ensures r == tx + AddEach(attr, xs)
  {
    r := tx;
    var j := 0;
    while j < |xs|
      invariant 0 <= j <= |xs|
      invariant r == tx + AddEach(attr, xs[..j])
    {
      r := r + [DbAdd(TempId, attr, xs[j])];
      j := j + 1;
    }
    assert xs[..j] == xs;
  }

  /** Once a prefix fails, every longer prefix fails with the same error. */
  lemma {:induction false} ErrorPersists(entries: seq<Entry>, n: nat)
    requires n <= |entries| && AddMemoryTx(entries[..n]).Err?
    ensures AddMemoryTx(entries) == AddMemoryTx(entries[..n])
    decreases |entries| - n
  {
    if n == |entries| {
      assert entries[..n] == entries;
    } else {
      assert entries[..n + 1][..n] == entries[..n];
      ErrorPersists(entries, n + 1);
    }
  }

  /** How many datoms an entry contributes, when it can be iterated. */
  function EntrySize(en: Entry): nat
  {
    if IsListKey(en.key) then
      match Elements(en.key, en.val)
      case Ok(xs) => |xs|
      case Err(_) => 0
    else 1
  }

  function ScalarCount(entries: seq<Entry>): nat
  {
    if entries == [] then 0
    else ScalarCount(entries[..|entries| - 1]) + (if IsListKey(entries[|entries| - 1].key) then 0 else 1)
  }

  /** The elements of every entry named `key`, in order. */
  function ElementsFor(entries: seq<Entry>, key: string): seq<Val>
  {
    if entries == [] then []
    else
      var last := entries[|entries| - 1];
      ElementsFor(entries[..|entries| - 1], key)
        + (if last.key == key && Elements(key, last.val).Ok? then Elements(key, last.val).value else [])
  }

  /** The transaction holds one datom per scalar entry, one `tag` datom per element of
      `tags` and one `bystander` datom per element of `bystanders`, all on the
      temporary entity; it fails exactly when a list entry holds a number. */
  lemma {:induction false} AddMemoryTxShape(entries: seq<Entry>)
    ensures AddMemoryTx(entries).Err? <==> exists i :: 0 <= i < |entries| && IsListKey(entries[i].key) && entries[i].val.VNum?
    ensures AddMemoryTx(entries).Ok? ==>
      |AddMemoryTx(entries).value| == ScalarCount(entries) + |ElementsFor(entries, "tags")| + |ElementsFor(entries, "bystanders")|
    ensures AddMemoryTx(entries).Ok? ==>
      forall k :: 0 <= k < |AddMemoryTx(entries).value| ==>
        AddMemoryTx(entries).value[k].DbAdd? && AddMemoryTx(entries).value[k].e == TempId
  {
    if entries != [] {
      var init := entries[..|entries| - 1];
      var last := entries[|entries| - 1];
      AddMemoryTxShape(init);
      assert forall i :: 0 <= i < |init| ==> init[i] == entries[i];
      if AddMemoryTx(init).Ok? && EntryTx(last).Ok? {
        var tx := AddMemoryTx(init).value + EntryTx(last).value;
        assert AddMemoryTx(entries) == Ok(tx);
        forall k | 0 <= k < |tx| ensures tx[k].DbAdd? && tx[k].e == TempId {
          if k >= |AddMemoryTx(init).value| {
            assert tx[k] == EntryTx(last).value[k - |AddMemoryTx(init).value|];
          }
        }
      }
    }
  }

  // ---------------------------------------------------------------------------
  // The entity store
  // ---------------------------------------------------------------------------

  /** An attribute of an entity: one value, or the set of values of a
      multi-valued attribute. */
  datatype Attr = One(v: Val) | Many(vs: set<Val>)

  type Entity = map<string, Attr>

  /** Entities by id, and the largest id ever allocated. */
  datatype Store = Store(entities: map<int, Entity>, maxEid: int)

  const EmptyStore: Store := Store(map[], 0)

  /** The schema's multi-valued attributes. */
  predicate IsManyAttr(a: string)
  {
    a == "tag" || a == "bystander"
  }

  /** Entity ids are positive and never above the allocation counter. */
  predicate ValidStore(s: Store)
  {
    s.maxEid >= 0 && forall e :: e in s.entities ==> 1 <= e <= s.maxEid
  }

  /** One asserted datom: a multi-valued attribute gains the value, any other
      attribute is replaced by it. */
  function AddDatom(ent: Entity, a: string, v: Val): (r: Entity)
    ensures r.Keys == ent.Keys + {a}
    ensures forall b :: b in ent && b != a ==> r[b] == ent[b]
  {
    if IsManyAttr(a) then
      var existing := if a in ent && ent[a].Many? then ent[a].vs else {};
      ent[a := Many(existing + {v})]
    else ent[a := One(v)]
  }

  function ApplyOp(ents: map<int, Entity>, op: TxOp, newId: int): map<int, Entity>
  {
    match op
    case DbAdd(e, a, v) =>
      var id := if e == TempId then newId else e;
      ents[id := AddDatom(if id in ents then ents[id] else map[], a, v)]
    case RetractEntity(e) => ents - {e}
  }

  /** The operations of a transaction in order. */
  function ApplyOps(ents: map<int, Entity>, ops: seq<TxOp>, newId: int): map<int, Entity>
  {
    if ops == [] then ents
    else ApplyOp(ApplyOps(ents, ops[..|ops| - 1], newId), ops[|ops| - 1], newId)
  }

  predicate UsesTempId(ops: seq<TxOp>)
  {
    exists i :: 0 <= i < |ops| && ops[i].DbAdd? && ops[i].e == TempId
  }

  /** `db_with`: the temporary id resolves to the next entity id, which is allocated
      only if the transaction uses it. */
  function ApplyTx(s: Store, tx: seq<TxOp>): (r: Store)
    ensures r.maxEid == if UsesTempId(tx) then s.maxEid + 1 else s.maxEid
  {
    Store(ApplyOps(s.entities, tx, s.maxEid + 1), if UsesTempId(tx) then s.maxEid + 1 else s.maxEid)
  }

  // ---------------------------------------------------------------------------
  // Round trip: a memory added to the store reads back as it was given
  // ---------------------------------------------------------------------------

  /** The values a transaction asserts for attribute `a`. */
  function ValuesFor(ops: seq<TxOp>, a: string): set<Val>
  {
    if ops == [] then {}
    else
      var op := ops[|ops| - 1];
      ValuesFor(ops[..|ops| - 1], a) + (if op.DbAdd? && op.attr == a then {op.v} else {})
  }

  /** The value a transaction asserts last for attribute `a`. */
  function LastValue(ops: seq<TxOp>, a: string): Option<Val>
  {
    if ops == [] then None
    else
      var op := ops[|ops| - 1];
      if op.DbAdd? && op.attr == a then Some(op.v) else LastValue(ops[..|ops| - 1], a)
  }

  /** How attribute `a` reads on an entity built from nothing but `ops`. */
  function View(ops: seq<TxOp>, a: string): Option<Attr>
  {
    if IsManyAttr(a) then (if ValuesFor(ops, a) == {} then None else Some(Many(ValuesFor(ops, a))))
    else if LastValue(ops, a).Some? then Some(One(LastValue(ops, a).value))
    else None
  }

  lemma {:induction false} ValuesForAppend(xs: seq<TxOp>, ys: seq<TxOp>, a: string)
    ensures ValuesFor(xs + ys, a) == ValuesFor(xs, a) + ValuesFor(ys, a)
  {
    if ys != [] {
      assert (xs + ys)[..|xs + ys| - 1] == xs + ys[..|ys| - 1];
      ValuesForAppend(xs, ys[..|ys| - 1], a);
    } else {
      assert xs + ys == xs;
    }
  }

  lemma {:induction false} LastValueAppend(xs: seq<TxOp>, ys: seq<TxOp>, a: string)
    ensures LastValue(xs + ys, a) == if LastValue(ys, a).Some? then LastValue(ys, a) else LastValue(xs, a)
  {
    if ys != [] {
      assert (xs + ys)[..|xs + ys| - 1] == xs + ys[..|ys| - 1];
      LastValueAppend(xs, ys[..|ys| - 1], a);
    } else {
      assert xs + ys == xs;
    }
  }

  /** All operations are additions on the temporary entity. */
  predicate AllTempAdds(ops: seq<TxOp>)
  {
    forall i :: 0 <= i < |ops| ==> ops[i].DbAdd? && ops[i].e == TempId
  }

  /** Every attribute of `ent` reads as `View` of the operations `ops`. */
  ghost predicate ReadsAsView(ent: Entity, ops: seq<TxOp>)
  {
    forall a :: (a in ent <==> View(ops, a).Some?) && (a in ent ==> ent[a] == View(ops, a).value)
  }

  lemma ReadsAsViewEmpty()
    ensures ReadsAsView(map[], [])
  {
    forall a ensures View([], a) == None {
      assert ValuesFor([], a) == {} && LastValue([], a) == None;
    }
  }

  /** Asserting one more datom on an entity keeps it reading as the view of the
      operations so far. */
  lemma AddDatomView(prior: Entity, init: seq<TxOp>, op: TxOp)
    requires op.DbAdd? && ReadsAsView(prior, init)
    ensures ReadsAsView(AddDatom(prior, op.attr, op.v), init + [op])
  {
    var ops := init + [op];
    assert ops[..|ops| - 1] == init;
    var r := AddDatom(prior, op.attr, op.v);
    forall a ensures (a in r <==> View(ops, a).Some?) && (a in r ==> r[a] == View(ops, a).value) {
      if a != op.attr {
        assert ValuesFor(ops, a) == ValuesFor(init, a);
        assert LastValue(ops, a) == LastValue(init, a);
      } else if IsManyAttr(a) {
        assert ValuesFor(ops, a) == ValuesFor(init, a) + {op.v};
      }
    }
  }

  /** A transaction of additions on the temporary entity, applied where the fresh id
      is unused, adds exactly one entity, whose every attribute reads as `View`. */
  lemma ApplyTempAdds(ents: map<int, Entity>, ops: seq<TxOp>, newId: int)
    requires AllTempAdds(ops) && newId !in ents && ops != []
    ensures newId in ApplyOps(ents, ops, newId)
    ensures ApplyOps(ents, ops, newId) - {newId} == ents
    ensures ReadsAsView(ApplyOps(ents, ops, newId)[newId], ops)
  {
    ApplyTempAddsKeys(ents, ops, newId);
    ApplyTempAddsView(ents, ops, newId);
  }

  lemma {:induction false} ApplyTempAddsKeys(ents: map<int, Entity>, ops: seq<TxOp>, newId: int)
    requires AllTempAdds(ops) && newId !in ents
    ensures ops != [] ==> newId in ApplyOps(ents, ops, newId)
    ensures ApplyOps(ents, ops, newId) - {newId} == ents
  {
    if ops != [] {
      var init, op := ops[..|ops| - 1], ops[|ops| - 1];
      assert AllTempAdds(init) by {
        assert forall i :: 0 <= i < |init| ==> init[i] == ops[i];
      }
      ApplyTempAddsKeys(ents, init, newId);
      var before := ApplyOps(ents, init, newId);
      assert op.DbAdd? && op.e == TempId;
      var r := ApplyOps(ents, ops, newId);
      assert r.Keys == before.Keys + {newId};
      assert r - {newId} == before - {newId};
    }
  }

  lemma {:induction false} ApplyTempAddsView(ents: map<int, Entity>, ops: seq<TxOp>, newId: int)
    requires AllTempAdds(ops) && newId !in ents && ops != []
    ensures newId in ApplyOps(ents, ops, newId)
    ensures ReadsAsView(ApplyOps(ents, ops, newId)[newId], ops)
  {
    var init, op := ops[..|ops| - 1], ops[|ops| - 1];
    assert ops == init + [op];
    var before := ApplyOps(ents, init, newId);
    if init == [] {
      assert before == ents;
      ReadsAsViewEmpty();
    } else {
      assert AllTempAdds(init) by {
        assert forall i :: 0 <= i < |init| ==> init[i] == ops[i];
      }
      ApplyTempAddsView(ents, init, newId);
    }
    assert op.DbAdd? && op.e == TempId;
    var prior := if newId in before then before[newId] else map[];
    assert ApplyOps(ents, ops, newId)[newId] == AddDatom(prior, op.attr, op.v);
    AddDatomView(prior, init, op);
  }

  /** The set of elements of the entries named `key`. */
  function ElementSet(entries: seq<Entry>, key: string): set<Val>
  {
    if entries == [] then {}
    else
      var last := entries[|entries| - 1];
      ElementSet(entries[..|entries| - 1], key)
        + (if last.key == key && Elements(key, last.val).Ok? then set x | x in Elements(key, last.val).value else {})
  }

  /** The value of the last entry named `key`. */
  function LastEntryValue(entries: seq<Entry>, key: string): Option<Val>
  {
    if entries == [] then None
    else if entries[|entries| - 1].key == key then Some(entries[|entries| - 1].val)
    else LastEntryValue(entries[..|entries| - 1], key)
  }

  /** No entry is itself named like a multi-valued attribute. */
  predicate NoManyKeys(entries: seq<Entry>)
  {
    forall i :: 0 <= i < |entries| ==> !IsManyAttr(entries[i].key)
  }

  /** One attribute of the memory's transaction: the elements of `tags` are its
      `tag` values, those of `bystanders` its `bystander` values, each other key's
      value is asserted under its own name, and nothing under `tags` or `bystanders`. */
  lemma {:induction false} TxViewAt(entries: seq<Entry>, a: string)
    requires AddMemoryTx(entries).Ok? && NoManyKeys(entries)
    ensures a == "tag" ==> ValuesFor(AddMemoryTx(entries).value, a) == ElementSet(entries, "tags")
    ensures a == "bystander" ==> ValuesFor(AddMemoryTx(entries).value, a) == ElementSet(entries, "bystanders")
    ensures !IsManyAttr(a) && !IsListKey(a) ==> LastValue(AddMemoryTx(entries).value, a) == LastEntryValue(entries, a)
    ensures IsListKey(a) ==> LastValue(AddMemoryTx(entries).value, a) == None
  {
    if entries != [] {
      var init := entries[..|entries| - 1];
      var last := entries[|entries| - 1];
      assert forall i :: 0 <= i < |init| ==> init[i] == entries[i];
      TxViewAt(init, a);
      var tx0 := AddMemoryTx(init).value;
      var more := EntryTx(last).value;
      assert AddMemoryTx(entries) == Ok(tx0 + more);
      ValuesForAppend(tx0, more, a);
      LastValueAppend(tx0, more, a);
      EntryView(last);
    }
  }

  /** With distinct keys, each entry's value is the last one under its key. */
  lemma {:induction false} DistinctKeysLastEntry(entries: seq<Entry>, i: nat)
    requires i < |entries|
    requires forall j, k :: 0 <= j < k < |entries| ==> entries[j].key != entries[k].key
    ensures LastEntryValue(entries, entries[i].key) == Some(entries[i].val)
  {
    if i < |entries| - 1 {
      var init := entries[..|entries| - 1];
      assert init[i] == entries[i];
      DistinctKeysLastEntry(init, i);
    }
  }

  /** Every key other than `tags` and `bystanders` reads back as a single value: the
      last one given under that key. */
  ghost predicate HoldsScalars(ent: Entity, entries: seq<Entry>)
  {
    forall k :: !IsManyAttr(k) && !IsListKey(k) ==>
      && (k in ent <==> LastEntryValue(entries, k).Some?)
      && (k in ent ==> ent[k] == One(LastEntryValue(entries, k).value))
  }

  /** The elements given under `key` read back as the set of `attr` values. */
  ghost predicate HoldsElements(ent: Entity, entries: seq<Entry>, attr: string, key: string)
  {
    && (attr in ent <==> ElementSet(entries, key) != {})
    && (attr in ent ==> ent[attr] == Many(ElementSet(entries, key)))
  }

  /** An entity reads back as the memory given by `entries`: every key other than
      `tags` and `bystanders` as a single value, nothing under `tags` or `bystanders`
      themselves, the elements of `tags` as the set of `tag` values and the elements
      of `bystanders` as the set of `bystander` values, whatever order they came in. */
  ghost predicate HoldsMemory(ent: Entity, entries: seq<Entry>)
  {
    && HoldsScalars(ent, entries)
    && (forall k :: IsListKey(k) ==> k !in ent)
    && HoldsElements(ent, entries, "tag", "tags")
    && HoldsElements(ent, entries, "bystander", "bystanders")
  }

  lemma ViewHoldsScalars(ent: Entity, entries: seq<Entry>)
    requires AddMemoryTx(entries).Ok? && NoManyKeys(entries)
    requires ReadsAsView(ent, AddMemoryTx(entries).value)
    ensures HoldsScalars(ent, entries)
  {
    forall k | !IsManyAttr(k) && !IsListKey(k)
      ensures k in ent <==> LastEntryValue(entries, k).Some?
      ensures k in ent ==> ent[k] == One(LastEntryValue(entries, k).value)
    {
      TxViewAt(entries, k);
    }
  }

  lemma ViewHoldsElements(ent: Entity, entries: seq<Entry>, attr: string, key: string)
    requires AddMemoryTx(entries).Ok? && NoManyKeys(entries)
    requires (attr, key) == ("tag", "tags") || (attr, key) == ("bystander", "bystanders")
    requires ReadsAsView(ent, AddMemoryTx(entries).value)
    ensures HoldsElements(ent, entries, attr, key)
  {
    TxViewAt(entries, attr);
  }

  lemma ViewHoldsNoListKeys(ent: Entity, entries: seq<Entry>)
    requires AddMemoryTx(entries).Ok? && NoManyKeys(entries)
    requires ReadsAsView(ent, AddMemoryTx(entries).value)
    ensures forall k :: IsListKey(k) ==> k !in ent
  {
    TxViewAt(entries, "tags");
    TxViewAt(entries, "bystanders");
  }

  lemma ViewHoldsMemory(ent: Entity, entries: seq<Entry>)
    requires AddMemoryTx(entries).Ok? && NoManyKeys(entries)
    requires ReadsAsView(ent, AddMemoryTx(entries).value)
    ensures HoldsMemory(ent, entries)
  {
    ViewHoldsScalars(ent, entries);
    ViewHoldsNoListKeys(ent, entries);
    ViewHoldsElements(ent, entries, "tag", "tags");
    ViewHoldsElements(ent, entries, "bystander", "bystanders");
  }

  /** Adding a memory to a store allocates one new entity, which holds the memory,
      and touches nothing else. */
  lemma AddMemoryRoundTrip(s: Store, entries: seq<Entry>)
    requires ValidStore(s) && NoManyKeys(entries)
    requires AddMemoryTx(entries).Ok? && AddMemoryTx(entries).value != []
    ensures ValidStore(ApplyTx(s, AddMemoryTx(entries).value))
    ensures ApplyTx(s, AddMemoryTx(entries).value).maxEid == s.maxEid + 1
    ensures s.maxEid + 1 !in s.entities
    ensures s.maxEid + 1 in ApplyTx(s, AddMemoryTx(entries).value).entities
    ensures ApplyTx(s, AddMemoryTx(entries).value).entities - {s.maxEid + 1} == s.entities
    ensures HoldsMemory(ApplyTx(s, AddMemoryTx(entries).value).entities[s.maxEid + 1], entries)
  {
    var tx := AddMemoryTx(entries).value;
    var id := s.maxEid + 1;
    assert AllTempAdds(tx) by { AddMemoryTxShape(entries); }
    assert UsesTempId(tx) by { assert tx[0].DbAdd? && tx[0].e == TempId; }
    var ents := ApplyOps(s.entities, tx, id);
    assert id !in s.entities;
    ApplyTempAdds(s.entities, tx, id);
    assert ApplyTx(s, tx) == Store(ents, id);
    assert HoldsMemory(ents[id], entries) by {
      ViewHoldsMemory(ents[id], entries);
    }
    forall e | e in ents ensures 1 <= e <= id {
      if e != id {
        assert e in ents - {id};
      }
    }
  }

  /** The datoms of a single entry, attribute by attribute. */
  lemma EntryView(en: Entry)
    requires EntryTx(en).Ok?
    ensures forall a :: a != AttrOf(en.key) ==> ValuesFor(EntryTx(en).value, a) == {} && LastValue(EntryTx(en).value, a) == None
    ensures IsListKey(en.key) ==> ValuesFor(EntryTx(en).value, AttrOf(en.key)) == set x | x in Elements(en.key, en.val).value
    ensures !IsListKey(en.key) ==> LastValue(EntryTx(en).value, en.key) == Some(en.val)
    ensures !IsListKey(en.key) ==> ValuesFor(EntryTx(en).value, en.key) == {en.val}
  {
    if IsListKey(en.key) {
      var xs := Elements(en.key, en.val).value;
      AddEachView(AttrOf(en.key), xs);
    } else {
      var tx := EntryTx(en).value;
      assert tx == [DbAdd(TempId, en.key, en.val)];
      assert tx[..0] == [];
      assert AttrOf(en.key) == en.key;
      forall a ensures ValuesFor(tx, a) == (if a == en.key then {en.val} else {}) {
        assert ValuesFor(tx[..0], a) == {};
      }
      forall a ensures LastValue(tx, a) == (if a == en.key then Some(en.val) else None) {
        assert LastValue(tx[..0], a) == None;
      }
    }
  }

  lemma {:induction false} AddEachView(attr: string, xs: seq<Val>)
    ensures forall a :: a != attr ==> ValuesFor(AddEach(attr, xs), a) == {} && LastValue(AddEach(attr, xs), a) == None
    ensures ValuesFor(AddEach(attr, xs), attr) == set x | x in xs
  {
    if xs != [] {
      var init := xs[..|xs| - 1];
      AddEachView(attr, init);
      assert AddEach(attr, xs)[..|xs| - 1] == AddEach(attr, init);
      assert (set x | x in xs) == (set x | x in init) + {xs[|xs| - 1]} by {
        assert xs == init + [xs[|xs| - 1]];
      }
    }
  }

  // ---------------------------------------------------------------------------
  // Strength decay
  // ---------------------------------------------------------------------------

  /** What one reflection phase takes off every memory's strength. */
  const DecayAmount: real := 10.0

  /** An entity the decay query finds: of type `memory`, with a strength. */
  predicate IsMemory(ent: Entity)
  {
    "type" in ent && ent["type"] == One(VStr("memory")) && "strength" in ent && ent["strength"].One?
  }

  /** The strength after one decay step; a strength that is not a number yields
      `NaN`, which is not above 0. */
  function DecayedStrength(ent: Entity): Option<real>
    requires IsMemory(ent)
  {
    match ent["strength"].v
    case VNum(n) => Some(n - DecayAmount)
    case _ => None
  }

  predicate Survives(ent: Entity)
    requires IsMemory(ent)
  {
    DecayedStrength(ent).Some? && DecayedStrength(ent).value > 0.0
  }

  /** The operation the decay loop emits for one memory. */
  function DecayOp(e: int, ent: Entity): TxOp
    requires IsMemory(ent)
  {
    if Survives(ent) then DbAdd(e, "strength", VNum(DecayedStrength(ent).value)) else RetractEntity(e)
  }

  /** Every listed id is a memory of the store. */
  predicate ListsMemories(s: Store, order: seq<int>)
  {
    forall i :: 0 <= i < |order| ==> order[i] in s.entities && IsMemory(s.entities[order[i]])
  }

  /** The decay transaction for the memories in the order the query listed them. */
  function DecayTx(s: Store, order: seq<int>): (tx: seq<TxOp>)
    requires ListsMemories(s, order)
    ensures |tx| == |order|
    ensures forall i :: 0 <= i < |order| ==> tx[i] == DecayOp(order[i], s.entities[order[i]])
  {
    seq(|order|, i requires 0 <= i < |order| => DecayOp(order[i], s.entities[order[i]]))
  }

  /** A surviving memory after decay: the new strength, everything else as it was. */
  function DecayedEntity(ent: Entity): Entity
    requires IsMemory(ent) && Survives(ent)
  {
    ent["strength" := One(VNum(DecayedStrength(ent).value))]
  }

  /** The store after decay, entity by entity: memories that stay positive are
      weakened, the others are retracted, and every other entity is kept as is. */
  function Decayed(s: Store): Store
  {
    Store(map e | e in s.entities && !(IsMemory(s.entities[e]) && !Survives(s.entities[e])) ::
            if IsMemory(s.entities[e]) then DecayedEntity(s.entities[e]) else s.entities[e],
          s.maxEid)
  }

  /** Decay retracts exactly the memories whose new strength is not positive, lowers
      the strength of the others by ten and changes nothing else; so no memory left
      in the store has a strength at or below 0. */
  lemma DecayedProps(s: Store)
    ensures Decayed(s).maxEid == s.maxEid
    ensures ValidStore(s) ==> ValidStore(Decayed(s))
    ensures forall e :: e in Decayed(s).entities <==>
      e in s.entities && (IsMemory(s.entities[e]) ==> Survives(s.entities[e]))
    ensures forall e :: e in Decayed(s).entities && !IsMemory(s.entities[e]) ==>
      Decayed(s).entities[e] == s.entities[e]
    ensures forall e :: e in Decayed(s).entities && IsMemory(s.entities[e]) ==>
      && IsMemory(Decayed(s).entities[e])
      && s.entities[e]["strength"].v.VNum?
      && Decayed(s).entities[e]["strength"] == One(VNum(s.entities[e]["strength"].v.n - DecayAmount))
      && Decayed(s).entities[e]["strength"].v.n > 0.0
      && Decayed(s).entities[e] - {"strength"} == s.entities[e] - {"strength"}
  {
  }

  /** The entities after decaying the memories in `done` and no others. */
  function PartlyDecayed(ents: map<int, Entity>, done: set<int>): map<int, Entity>
  {
    map e | e in ents && !(e in done && IsMemory(ents[e]) && !Survives(ents[e])) ::
      if e in done && IsMemory(ents[e]) then DecayedEntity(ents[e]) else ents[e]
  }

  /** One more memory's decay operation. */
  lemma DecayOpStep(ents: map<int, Entity>, done: set<int>, x: int, newId: int)
    requires x in ents && IsMemory(ents[x]) && x !in done && x != TempId
    ensures ApplyOp(PartlyDecayed(ents, done), DecayOp(x, ents[x]), newId) == PartlyDecayed(ents, done + {x})
  {
    var before := PartlyDecayed(ents, done);
    assert before[x] == ents[x];
    var after := ApplyOp(before, DecayOp(x, ents[x]), newId);
    var want := PartlyDecayed(ents, done + {x});
    if Survives(ents[x]) {
      assert after == before[x := DecayedEntity(ents[x])];
    } else {
      assert after == before - {x};
    }
    assert after.Keys == want.Keys;
  }

  lemma DecayTxSnoc(s: Store, order: seq<int>)
    requires ListsMemories(s, order) && order != []
    ensures ListsMemories(s, order[..|order| - 1])
    ensures ApplyOps(s.entities, DecayTx(s, order), s.maxEid + 1)
      == ApplyOp(ApplyOps(s.entities, DecayTx(s, order[..|order| - 1]), s.maxEid + 1),
                 DecayOp(order[|order| - 1], s.entities[order[|order| - 1]]), s.maxEid + 1)
  {
    assert DecayTx(s, order)[..|order| - 1] == DecayTx(s, order[..|order| - 1]);
  }

  /** The ids a listing names. */
  function Members(order: seq<int>): (r: set<int>)
    ensures forall e :: e in r <==> e in order
  {
    if order == [] then {} else Members(order[..|order| - 1]) + {order[|order| - 1]}
  }

  /** The decay transaction built over a prefix of the query's listing. */
  lemma {:induction false} DecayTxPartial(s: Store, order: seq<int>)
    requires ValidStore(s) && NoDuplicates(order) && ListsMemories(s, order)
    ensures ApplyOps(s.entities, DecayTx(s, order), s.maxEid + 1) == PartlyDecayed(s.entities, Members(order))
  {
    if order == [] {
      assert PartlyDecayed(s.entities, {}) == s.entities;
    } else {
      var init := order[..|order| - 1];
      var x := order[|order| - 1];
      assert NoDuplicates(init) && x !in init by {
        assert forall i :: 0 <= i < |init| ==> init[i] == order[i];
      }
      DecayTxSnoc(s, order);
      DecayTxPartial(s, init);
      var done := Members(init);
      assert Members(order) == done + {x};
      DecayOpStep(s.entities, done, x, s.maxEid + 1);
    }
  }

  /** Applying the decay transaction yields the decayed store, whatever order the
      query listed the memories in. */
  lemma DecayTxApplies(s: Store, order: seq<int>)
    requires ValidStore(s) && NoDuplicates(order) && ListsMemories(s, order)
    requires forall e :: e in s.entities && IsMemory(s.entities[e]) ==> e in order
    ensures ApplyTx(s, DecayTx(s, order)) == Decayed(s)
  {
    DecayTxPartial(s, order);
    var tx := DecayTx(s, order);
    assert !UsesTempId(tx) by {
      forall i | 0 <= i < |tx| && tx[i].DbAdd? ensures tx[i].e != TempId {
        assert order[i] in s.entities;
      }
    }
    var done := Members(order);
    var ents := PartlyDecayed(s.entities, done);
    forall e ensures e in ents <==> e in Decayed(s).entities {
      if e in s.entities && IsMemory(s.entities[e]) {
        assert e in done;
      }
    }
    forall e | e in ents ensures ents[e] == Decayed(s).entities[e] {
      if IsMemory(s.entities[e]) {
        assert e in done;
      }
    }
  }

  /** The decay loop of the reflection phase: for each memory the query finds, in
      whatever order, an update to the lowered strength when that stays above 0 and
      a retraction otherwise. Applied, the transaction gives the decayed store. */
  method BuildDecayTx(store: Store) returns (tx: seq<TxOp>)
    requires ValidStore(store)
    ensures ApplyTx(store, tx) == Decayed(store)
  {
    var remaining := set e | e in store.entities && IsMemory(store.entities[e]);
    ghost var all := remaining;
    tx := [];
    ghost var order: seq<int> := [];
    while remaining != {}
      invariant ListsMemories(store, order) && NoDuplicates(order)
      invariant tx == DecayTx(store, order)
      invariant remaining <= all
      invariant forall i :: 0 <= i < |order| ==> order[i] !in remaining
      invariant forall e :: e in all ==> e in remaining || e in order
      decreases remaining
    {
      var id := PickMember(remaining);
      var newStrength := DecayedStrength(store.entities[id]);
      if newStrength.Some? && newStrength.value > 0.0 {
        tx := tx + [DbAdd(id, "strength", VNum(newStrength.value))];
      } else {
        tx := tx + [RetractEntity(id)];
      }
      order := order + [id];
      remaining := remaining - {id};
    }
    assert forall e :: e in store.entities && IsMemory(store.entities[e]) ==> e in all;
    DecayTxApplies(store, order);
  }

  /** `k` reflection phases of decay. */
  function DecayedTimes(s: Store, k: nat): Store
  {
    if k == 0 then s else Decayed(DecayedTimes(s, k - 1))
  }

  /** A memory of strength `S` is present after `k` decays exactly while
      `S - 10k > 0`, with that strength and nothing else changed; so it is
      retracted by the first decay that brings it to 0 or below. */
  lemma {:induction false} DecayTermination(s: Store, e: int, strength: real, k: nat)
    requires e in s.entities && IsMemory(s.entities[e])
    requires s.entities[e]["strength"] == One(VNum(strength))
    ensures e in DecayedTimes(s, k).entities <==> k == 0 || strength - DecayAmount * (k as real) > 0.0
    ensures e in DecayedTimes(s, k).entities ==>
      DecayedTimes(s, k).entities[e] == s.entities[e]["strength" := One(VNum(strength - DecayAmount * (k as real)))]
  {
    if k == 0 {
      assert s.entities[e]["strength" := One(VNum(strength))] == s.entities[e];
    } else {
      DecayTermination(s, e, strength, k - 1);
      var prev := DecayedTimes(s, k - 1);
      if e in prev.entities {
        var ent := prev.entities[e];
        assert IsMemory(ent);
        assert DecayedStrength(ent) == Some(strength - DecayAmount * (k as real));
        if Survives(ent) {
          assert DecayedTimes(s, k).entities[e] == DecayedEntity(ent);
        }
      }
    }
  }
}
