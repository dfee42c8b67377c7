/** The simulation's global tables and the steps of a day that update them in
    place: id generation, the ship ledger's lookups and queries, adding memories,
    a chat's bookkeeping, the reflection phase, and the normalisation of the tag
    mutation rates. */
module Gossamer {
  import opened Wrappers
  import opened Util
  import opened Ships
  import opened Memories

  // ---------------------------------------------------------------------------
  // Generated ids
  // ---------------------------------------------------------------------------

  predicate IsDecimalDigit(c: char)
  {
    '0' <= c <= '9'
  }

  function DigitChar(d: nat): (c: char)
    requires d < 10
    ensures IsDecimalDigit(c)
  {
    (48 + d) as char
  }

  function DigitValue(c: char): (d: nat)
    requires IsDecimalDigit(c)
    ensures d < 10
  {
    c as int - 48
  }

  /** How a counter value prints after a string prefix: plain decimal digits. */
  function DecimalString(n: nat): (r: string)
    ensures |r| >= 1
    ensures forall i :: 0 <= i < |r| ==> IsDecimalDigit(r[i])
  {
    if n < 10 then [DigitChar(n)] else DecimalString(n / 10) + [DigitChar(n % 10)]
  }

  /** Reads a string of decimal digits back as a number. */
  function ParseDecimal(s: string): nat
    requires forall i :: 0 <= i < |s| ==> IsDecimalDigit(s[i])
  {
    if s == [] then 0 else ParseDecimal(s[..|s| - 1]) * 10 + DigitValue(s[|s| - 1])
  }

  /** The decimal rendering reads back as the number it renders. */
  lemma {:induction false} DecimalRoundTrip(n: nat)
    ensures ParseDecimal(DecimalString(n)) == n
  {
    var s := DecimalString(n);
    if n < 10 {
      assert s[..0] == [];
    } else {
      DecimalRoundTrip(n / 10);
      assert s[..|s| - 1] == DecimalString(n / 10);
    }
  }

  lemma DecimalInjective(a: nat, b: nat)
    ensures DecimalString(a) == DecimalString(b) <==> a == b
  {
    if DecimalString(a) == DecimalString(b) {
      DecimalRoundTrip(a);
      DecimalRoundTrip(b);
    }
  }

  predicate NoDigits(p: string)
  {
    forall i :: 0 <= i < |p| ==> !IsDecimalDigit(p[i])
  }

  /** The id `genID` returns for a prefix and a counter value. */
  function GeneratedId(prefix: string, n: nat): string
  {
    prefix + DecimalString(n)
  }

  /** The index of the first digit, or the length when there is none. */
  function FirstDigit(s: string): (k: nat)
    ensures k <= |s|
  {
    if s == [] then 0 else if IsDecimalDigit(s[0]) then 0 else 1 + FirstDigit(s[1..])
  }

  lemma {:induction false} FirstDigitAfterPrefix(p: string, d: string)
    requires NoDigits(p) && d != [] && IsDecimalDigit(d[0])
    ensures FirstDigit(p + d) == |p|
  {
    if p == [] {
      assert p + d == d;
    } else {
      assert (p + d)[0] == p[0];
      assert (p + d)[1..] == p[1..] + d;
      FirstDigitAfterPrefix(p[1..], d);
    }
  }

  /** Ids from digit-free prefixes (such as "A", "B", "C" and "H") are equal only for
      the same prefix and the same counter value: every generated id is unique. */
  lemma GeneratedIdsDistinct(p1: string, n1: nat, p2: string, n2: nat)
    requires NoDigits(p1) && NoDigits(p2)
    ensures GeneratedId(p1, n1) == GeneratedId(p2, n2) <==> p1 == p2 && n1 == n2
  {
    var s1, s2 := GeneratedId(p1, n1), GeneratedId(p2, n2);
    if s1 == s2 {
      FirstDigitAfterPrefix(p1, DecimalString(n1));
      FirstDigitAfterPrefix(p2, DecimalString(n2));
      assert p1 == s1[..|p1|] && p2 == s2[..|p2|];
      assert DecimalString(n1) == s1[|p1|..] && DecimalString(n2) == s2[|p2|..];
      DecimalInjective(n1, n2);
    }
  }

  // ---------------------------------------------------------------------------
  // Tag mutation rates
  // ---------------------------------------------------------------------------

  /** One row of the table: an object's own properties in insertion order. */
  type Rates = seq<(string, int)>

  type RateTable = seq<(string, Rates)>

  /** The table as written, before each row is given its rate of staying the same. */
  const InitialMutationRates: RateTable := [
    ("flirty", [("friendly", 10), ("neutral", 10), ("rude", 5)]),
    ("friendly", [("flirty", 10), ("neutral", 10), ("rude", 5)]),
    ("neutral", [("flirty", 5), ("friendly", 5), ("rude", 5)]),
    ("rude", [("neutral", 10), ("friendly", 5), ("flirty", 5)])
  ]

  /** `Object.values`. */
  function Values(row: Rates): (r: seq<int>)
    ensures |r| == |row|
    ensures forall i :: 0 <= i < |row| ==> r[i] == row[i].1
  {
    seq(|row|, i requires 0 <= i < |row| => row[i].1)
  }

  predicate HasKey(row: Rates, key: string)
  {
    exists i :: 0 <= i < |row| && row[i].0 == key
  }

  /** The rate stored under `key`, 0 when there is none. */
  function RateOf(row: Rates, key: string): int
  {
    if row == [] then 0 else if row[0].0 == key then row[0].1 else RateOf(row[1..], key)
  }

  /** Property assignment: an existing key keeps its place, a new one goes last. */
  function SetRate(row: Rates, key: string, v: int): (r: Rates)
  {
    if row == [] then [(key, v)]
    else if row[0].0 == key then [(key, v)] + row[1..]
    else [row[0]] + SetRate(row[1..], key, v)
  }

  lemma HasKeyCons(row: Rates, k: string)
    ensures HasKey(row, k) <==> row != [] && (row[0].0 == k || HasKey(row[1..], k))
  {
    if row != [] {
      assert forall i :: 0 <= i < |row[1..]| ==> row[1..][i] == row[i + 1];
      if HasKey(row, k) && row[0].0 != k {
        var i :| 0 <= i < |row| && row[i].0 == k;
        assert row[1..][i - 1].0 == k;
      }
    }
  }

  /** Assignment gives the key its rate and keeps every other key and its rate. */
  lemma {:induction false} SetRateKeys(row: Rates, key: string, v: int)
    ensures RateOf(SetRate(row, key, v), key) == v
    ensures forall k :: k != key ==> RateOf(SetRate(row, key, v), k) == RateOf(row, k)
    ensures HasKey(SetRate(row, key, v), key)
    ensures forall k :: k != key ==> (HasKey(SetRate(row, key, v), k) <==> HasKey(row, k))
  {
    var r := SetRate(row, key, v);
    HasKeyCons(r, key);
    forall k ensures HasKey(r, k) <==> r != [] && (r[0].0 == k || HasKey(r[1..], k)) {
      HasKeyCons(r, k);
    }
    forall k ensures HasKey(row, k) <==> row != [] && (row[0].0 == k || HasKey(row[1..], k)) {
      HasKeyCons(row, k);
    }
    if row != [] && row[0].0 != key {
      SetRateKeys(row[1..], key, v);
      assert r[1..] == SetRate(row[1..], key, v);
    } else if row != [] {
      assert r[1..] == row[1..];
    }
  }

  lemma ValuesTail(row: Rates)
    requires row != []
    ensures Values(row)[0] == row[0].1 && Values(row)[1..] == Values(row[1..])
  {
  }

  /** Assignment keeps the row's length for an existing key and adds one entry for
      a new key. */
  lemma {:induction false} SetRateLength(row: Rates, key: string, v: int)
    ensures |SetRate(row, key, v)| == if HasKey(row, key) then |row| else |row| + 1
  {
    HasKeyCons(row, key);
    if row != [] && row[0].0 != key {
      SetRateLength(row[1..], key, v);
    }
  }

  /** Assignment moves the row's total by the change of that one rate. */
  lemma {:induction false} SetRateTotal(row: Rates, key: string, v: int)
    ensures Total(Values(SetRate(row, key, v))) == Total(Values(row)) - RateOf(row, key) + v
  {
    var r := SetRate(row, key, v);
    if row == [] {
      assert Values(r) == [v];
      assert Values(r)[1..] == [];
    } else {
      ValuesTail(row);
      ValuesTail(r);
      if row[0].0 == key {
        assert r[1..] == row[1..];
      } else {
        assert r[1..] == SetRate(row[1..], key, v);
        SetRateTotal(row[1..], key, v);
      }
    }
  }

  /** One row of the normalisation loop: the row's own tag gets 100 minus the sum of
      the row; `sum` of an empty row throws, modelled as `None`. */
  function NormalizeRow(tag: string, row: Rates): Option<Rates>
  {
    match Sum(Values(row))
    case None => None
    case Some(total) => Some(SetRate(row, tag, 100 - total))
  }

  /** A normalised row sums to 100 less the rate its tag already had (none in the
      table as written), and gives its tag 100 minus the rest of the row. */
  lemma NormalizeRowSums(tag: string, row: Rates)
    ensures NormalizeRow(tag, row).None? <==> row == []
    ensures NormalizeRow(tag, row).Some? ==>
      Total(Values(NormalizeRow(tag, row).value)) == 100 - RateOf(row, tag)
    ensures NormalizeRow(tag, row).Some? ==>
      RateOf(NormalizeRow(tag, row).value, tag) == 100 - Total(Values(row))
    ensures NormalizeRow(tag, row).Some? && !HasKey(row, tag) ==>
      Total(Values(NormalizeRow(tag, row).value)) == 100
  {
    if row != [] {
      SetRateKeys(row, tag, 100 - Total(Values(row)));
      SetRateTotal(row, tag, 100 - Total(Values(row)));
      SetRateLength(row, tag, 100 - Total(Values(row)));
      if !HasKey(row, tag) {
        RateOfAbsent(row, tag);
      }
    }
  }

  lemma {:induction false} RateOfAbsent(row: Rates, key: string)
    requires !HasKey(row, key)
    ensures RateOf(row, key) == 0
  {
    if row != [] {
      HasKeyCons(row, key);
      RateOfAbsent(row[1..], key);
    }
  }

  /** The number of leading rows that can be normalised: up to the first empty row. */
  function NormalizableRows(table: RateTable): (n: nat)
    ensures n <= |table|
    ensures forall i :: 0 <= i < n ==> table[i].1 != []
    ensures n < |table| ==> table[n].1 == []
  {
    if table == [] then 0
    else if table[0].1 == [] then 0
    else 1 + NormalizableRows(table[1..])
  }

  /** The table with its first `n` rows normalised in place. */
  function NormalizedPrefix(table: RateTable, n: nat): (r: RateTable)
    requires n <= |table| && forall i :: 0 <= i < n ==> table[i].1 != []
    ensures |r| == |table|
  {
    seq(|table|, i requires 0 <= i < |table| =>
      if i < n then (table[i].0, NormalizeRow(table[i].0, table[i].1).value) else table[i])
  }

  /** The load-time loop over the table's rows in insertion order: each row's own tag
      gets 100 minus the sum of the row. `sum` of an empty row throws, which stops the
      loop with the rows before it already normalised; `ok` says whether it ran to
      the end. */
  method NormalizeRates(table: RateTable) returns (r: RateTable, ok: bool)
    ensures r == NormalizedPrefix(table, NormalizableRows(table))
    ensures ok <==> NormalizableRows(table) == |table|
  {
    r := table;
    var i := 0;
    while i < |table|
      invariant i <= NormalizableRows(table)
      invariant r == NormalizedPrefix(table, i)
    {
      var row := NormalizeRow(r[i].0, r[i].1);
      if row.None? {
        NormalizeRowSums(table[i].0, table[i].1);
        return r, false;
      }
      r := r[i := (r[i].0, row.value)];
      i := i + 1;
    }
    ok := true;
  }

  lemma TotalOfThree(row: Rates)
    requires |row| == 3
    ensures Total(Values(row)) == row[0].1 + row[1].1 + row[2].1
  {
    var vs := Values(row);
    assert vs[2..][1..] == [];
    assert Total(vs[2..]) == vs[2];
    assert vs[1..][1..] == vs[2..];
    assert Total(vs[1..]) == vs[1] + vs[2];
  }

  lemma HasKeyOfThree(row: Rates, k: string)
    requires |row| == 3
    ensures HasKey(row, k) <==> row[0].0 == k || row[1].0 == k || row[2].0 == k
  {
  }

  /** A row of the table as written: three other tags, none of them the row's own. */
  lemma InitialRow(i: nat)
    requires i < 4
    ensures InitialMutationRates[i].1 != []
    ensures !HasKey(InitialMutationRates[i].1, InitialMutationRates[i].0)
    ensures Total(Values(InitialMutationRates[i].1)) == [25, 25, 15, 20][i]
  {
    var row := InitialMutationRates[i].1;
    TotalOfThree(row);
    HasKeyOfThree(row, InitialMutationRates[i].0);
  }

  /** No row of the table as written is empty, so the load-time loop runs to the end. */
  lemma InitialRowsNormalizable()
    ensures NormalizableRows(InitialMutationRates) == 4
  {
    var t := InitialMutationRates;
    forall i | 0 <= i < 4 ensures t[i].1 != [] {
      InitialRow(i);
    }
    assert t[1..][1..][1..][1..] == [];
  }

  /** One row of the table as written, once normalised. */
  lemma InitialRowNormalized(i: nat)
    requires i < 4
    ensures NormalizeRow(InitialMutationRates[i].0, InitialMutationRates[i].1).Some?
    ensures Total(Values(NormalizeRow(InitialMutationRates[i].0, InitialMutationRates[i].1).value)) == 100
    ensures RateOf(NormalizeRow(InitialMutationRates[i].0, InitialMutationRates[i].1).value,
                   InitialMutationRates[i].0) == 100 - [25, 25, 15, 20][i]
  {
    InitialRow(i);
    NormalizeRowSums(InitialMutationRates[i].0, InitialMutationRates[i].1);
  }

  /** Normalising the table as written: every row then sums to 100, and the rates of
      staying the same are flirty 75, friendly 75, neutral 85 and rude 80. */
  lemma InitialRatesNormalized()
    ensures NormalizableRows(InitialMutationRates) == 4
    ensures forall i :: 0 <= i < 4 ==> Total(Values(NormalizedPrefix(InitialMutationRates, 4)[i].1)) == 100
    ensures RateOf(NormalizedPrefix(InitialMutationRates, 4)[0].1, "flirty") == 75
    ensures RateOf(NormalizedPrefix(InitialMutationRates, 4)[1].1, "friendly") == 75
    ensures RateOf(NormalizedPrefix(InitialMutationRates, 4)[2].1, "neutral") == 85
    ensures RateOf(NormalizedPrefix(InitialMutationRates, 4)[3].1, "rude") == 80
  {
    InitialRowsNormalizable();
    var t := InitialMutationRates;
    var r := NormalizedPrefix(t, 4);
    forall i | 0 <= i < 4
      ensures Total(Values(r[i].1)) == 100
      ensures RateOf(r[i].1, t[i].0) == 100 - [25, 25, 15, 20][i]
    {
      InitialRowNormalized(i);
    }
  }

  // ---------------------------------------------------------------------------
  // The world
  // ---------------------------------------------------------------------------

  /** A record in the global action log. */
  datatype Action = Action(id: string, actionType: string, actor: CharId, target: CharId,
                           place: string, day: int, bystanders: seq<CharId>, tags: seq<string>)

  /** Why `addMemory` fails: the memory cannot be turned into datoms, or the
      character does not exist. */
  datatype MemoryError = BadMemory(err: TxError) | UnknownCharacter(id: CharId)

  /** The other characters present, without the target. */
  function Without(others: seq<CharId>, x: CharId): (r: seq<CharId>)
    ensures forall c :: c in r <==> c in others && c != x
    ensures |r| == |others| - multiset(others)[x]
    ensures x !in others ==> r == others
  {
    if others == [] then []
    else
      assert others == [others[0]] + others[1..];
      (if others[0] == x then [] else [others[0]]) + Without(others[1..], x)
  }

  /** The table after the candidates are sorted by the actor's positive feeling for
      them: with two or more candidates every one is compared, and so looked up, at
      least once; a single candidate is never compared. */
  function AfterSort(t: ShipTable, actor: CharId, others: seq<CharId>, draws: seq<DeltaDraw>): ShipTable
    requires |draws| == |others| && ValidDraws(draws)
  {
    if |others| >= 2 then WithShips(t, actor, others, draws) else t
  }

  /** With two or more others present, a chat leaves the actor a ship to each of
      them: a bystander's is the one the sort's lookup found or created, untouched by
      the chat itself, and one created there is fresh. */
  lemma ChatLooksUpEveryOther(t: ShipTable, actor: CharId, others: seq<CharId>, draws: seq<DeltaDraw>,
                              target: CharId, d1: DeltaDraw, d2: DeltaDraw, o: CharId)
    requires |draws| == |others| && ValidDraws(draws) && ValidDraw(d1) && ValidDraw(d2)
    requires |others| >= 2 && o in others && o != target && actor != target
    ensures HasShip(AfterChat(AfterSort(t, actor, others, draws), actor, target, d1, d2), actor, o)
    ensures HasShip(t, actor, o) ==>
      AfterChat(AfterSort(t, actor, others, draws), actor, target, d1, d2)[actor][o] == t[actor][o]
    ensures !HasShip(t, actor, o) ==>
      exists k :: (0 <= k < |others| && others[k] == o &&
        AfterChat(AfterSort(t, actor, others, draws), actor, target, d1, d2)[actor][o] == NewShip(actor, o, draws[k]))
  {
    var s := AfterSort(t, actor, others, draws);
    WithShipsKeys(t, actor, others, draws);
    if !HasShip(t, actor, o) {
      WithShipsNew(t, actor, others, draws, o);
    }
    var u := Touch(s, actor, target, d1);
    assert HasShip(u, actor, o) && u[actor][o] == s[actor][o];
  }

  /** The salience of `c2` to `c1` as a lookup in table `t` yields it. */
  function SalienceIn(t: ShipTable, c1: CharId, c2: CharId, draw: DeltaDraw): real
    requires ValidDraw(draw)
  {
    if c1 == c2 then SelfSalience else SalienceOf(WithShip(t, c1, c2, draw)[c1][c2])
  }

  /** The table after a salience lookup: the self is looked up without a ship. */
  function AfterSalience(t: ShipTable, c1: CharId, c2: CharId, draw: DeltaDraw): ShipTable
    requires ValidDraw(draw)
  {
    if c1 == c2 then t else WithShip(t, c1, c2, draw)
  }

  /** A memory's target counts only when present and not the empty string. */
  predicate TargetCounts(target: Option<CharId>)
  {
    target.Some? && target.value != ""
  }

  /** The tables of the simulation. `memories` has one store per registered
      character and `cast` lists them in registration order. */
  class World {
    var ships: ShipTable
    var lastId: int
    var cast: seq<CharId>
    var memories: map<CharId, Store>
    var actions: map<string, Action>
    var tagMutationRates: RateTable

    ghost predicate Valid()
      reads this
    {
      && lastId >= -1
      && NoDuplicates(cast)
      && (forall c :: c in memories <==> c in cast)
      && (forall c :: c in memories ==> ValidStore(memories[c]))
      && KeyedBySrcDst(ships)
      && AllInRange(ships)
    }

    constructor ()
      ensures Valid()
      ensures ships == map[] && lastId == -1 && cast == [] && memories == map[] && actions == map[]
      ensures tagMutationRates == NormalizedPrefix(InitialMutationRates, 4)
    {
      ships := map[];
      lastId := -1;
      cast := [];
      memories := map[];
      actions := map[];
      var rates, _ := NormalizeRates(InitialMutationRates);
      InitialRowsNormalizable();
      tagMutationRates := rates;
    }

    /** `genID`: bumps the counter and appends it to the prefix. */
    method GenId(prefix: string) returns (id: string)
      requires Valid()
      modifies this
      ensures Valid()
      ensures lastId == old(lastId) + 1 && id == GeneratedId(prefix, lastId)
      ensures ships == old(ships) && cast == old(cast) && memories == old(memories)
      ensures actions == old(actions) && tagMutationRates == old(tagMutationRates)
    {
      lastId := lastId + 1;
      id := prefix + DecimalString(lastId);
    }

    /** `getOrCreateShip`: both ids must be strings; the ship is created on first
        lookup and the same record is returned afterwards. */
    method GetOrCreateShip(c1: IdArg, c2: IdArg, draw: DeltaDraw) returns (r: Result<Ship, LedgerError>)
      requires Valid() && ValidDraw(draw)
      modifies this
      ensures Valid()
      ensures r.Err? <==> !(c1.StringId? && c2.StringId?)
      ensures r.Err? ==> r.error == BadCharId(if !c1.StringId? then c1 else c2) && ships == old(ships)
      ensures r.Ok? ==> ships == WithShip(old(ships), c1.id, c2.id, draw) && r.value == ships[c1.id][c2.id]
      ensures r.Ok? ==> r.value.src == c1.id && r.value.dst == c2.id
      ensures lastId == old(lastId) && cast == old(cast) && memories == old(memories)
      ensures actions == old(actions) && tagMutationRates == old(tagMutationRates)
    {
      if !c1.StringId? {
        return Err(BadCharId(c1));
      }
      if !c2.StringId? {
        return Err(BadCharId(c2));
      }
      WithShipKeepsInvariants(ships, c1.id, c2.id, draw);
      ships := WithShip(ships, c1.id, c2.id, draw);
      r := Ok(ships[c1.id][c2.id]);
    }

    /** `positiveFeeling`. */
    method PositiveFeeling(c1: IdArg, c2: IdArg, draw: DeltaDraw) returns (r: Result<real, LedgerError>)
      requires Valid() && ValidDraw(draw)
      modifies this
      ensures Valid()
      ensures r.Err? <==> !(c1.StringId? && c2.StringId?)
      ensures r.Err? ==> ships == old(ships)
      ensures r.Ok? ==> ships == WithShip(old(ships), c1.id, c2.id, draw)
      ensures r.Ok? ==> r.value == PositiveFeelingOf(ships[c1.id][c2.id]) && r.value >= 0.0
      ensures lastId == old(lastId) && cast == old(cast) && memories == old(memories)
      ensures actions == old(actions) && tagMutationRates == old(tagMutationRates)
    {
      var s := GetOrCreateShip(c1, c2, draw);
      if s.Err? {
        return Err(s.error);
      }
      r := Ok(PositiveFeelingOf(s.value));
    }

    /** `charSalience`: 250 for the self, with no lookup and so no id check;
        otherwise from the ship, and then at most 220. */
    method CharSalience(c1: IdArg, c2: IdArg, draw: DeltaDraw) returns (r: Result<real, LedgerError>)
      requires Valid() && ValidDraw(draw)
      modifies this
      ensures Valid()
      ensures c1 == c2 ==> r == Ok(SelfSalience) && ships == old(ships)
      ensures c1 != c2 ==> (r.Err? <==> !(c1.StringId? && c2.StringId?))
      ensures r.Err? ==> ships == old(ships)
      ensures r.Ok? && c1 != c2 ==> ships == WithShip(old(ships), c1.id, c2.id, draw)
      ensures r.Ok? && c1 != c2 ==> r.value == SalienceOf(ships[c1.id][c2.id])
      ensures r.Ok? && c1 != c2 ==> 0.0 <= r.value && r.value + 30.0 <= SelfSalience
      ensures lastId == old(lastId) && cast == old(cast) && memories == old(memories)
      ensures actions == old(actions) && tagMutationRates == old(tagMutationRates)
    {
      if c1 == c2 {
        return Ok(SelfSalience);
      }
      var s := GetOrCreateShip(c1, c2, draw);
      if s.Err? {
        return Err(s.error);
      }
      assert InRange(ships[c1.id][c2.id]);
      r := Ok(SalienceOf(s.value));
    }

    /** `memorySalience` for a memory with a string actor and an optional target:
        the actor's salience plus the target's when the target is truthy. */
    method MemorySalience(c: CharId, actor: CharId, target: Option<CharId>, d1: DeltaDraw, d2: DeltaDraw)
      returns (r: real)
      requires Valid() && ValidDraw(d1) && ValidDraw(d2)
      modifies this
      ensures Valid()
      ensures r == SalienceIn(old(ships), c, actor, d1)
        + (if TargetCounts(target) then SalienceIn(AfterSalience(old(ships), c, actor, d1), c, target.value, d2) else 0.0)
      ensures ships == if TargetCounts(target)
        then AfterSalience(AfterSalience(old(ships), c, actor, d1), c, target.value, d2)
        else AfterSalience(old(ships), c, actor, d1)
      ensures r >= 0.0
      ensures actor == c || (TargetCounts(target) && target.value == c) ==> r >= SelfSalience
      ensures lastId == old(lastId) && cast == old(cast) && memories == old(memories)
      ensures actions == old(actions) && tagMutationRates == old(tagMutationRates)
    {
      var a := CharSalience(StringId(c), StringId(actor), d1);
      var actorSalience := a.value;
      var targetSalience := 0.0;
      if TargetCounts(target) {
        var t := CharSalience(StringId(c), StringId(target.value), d2);
        targetSalience := t.value;
      }
      r := actorSalience + targetSalience;
    }

    /** `wouldInviteToHangOut`: attraction or liking. */
    method WouldInviteToHangOut(c1: IdArg, c2: IdArg, draw: DeltaDraw) returns (r: Result<bool, LedgerError>)
      requires Valid() && ValidDraw(draw)
      modifies this
      ensures Valid()
      ensures r.Err? <==> !(c1.StringId? && c2.StringId?)
      ensures r.Err? ==> ships == old(ships)
      ensures r.Ok? ==> ships == WithShip(old(ships), c1.id, c2.id, draw)
      ensures r.Ok? ==> (r.value <==> ships[c1.id][c2.id].spark >= 20.0 || ships[c1.id][c2.id].charge >= 20.0)
      ensures lastId == old(lastId) && cast == old(cast) && memories == old(memories)
      ensures actions == old(actions) && tagMutationRates == old(tagMutationRates)
    {
      var s := GetOrCreateShip(c1, c2, draw);
      if s.Err? {
        return Err(s.error);
      }
      r := Ok(WouldInvite(s.value));
    }

    /** `allChars[id] = char`: a new character gets an empty memory store; an id
        registered again keeps its place in the order and gets a fresh store. */
    method RegisterCharacter(id: CharId)
      requires Valid()
      modifies this
      ensures Valid()
      ensures memories == old(memories)[id := EmptyStore]
      ensures cast == if id in old(memories) then old(cast) else old(cast) + [id]
      ensures ships == old(ships) && lastId == old(lastId)
      ensures actions == old(actions) && tagMutationRates == old(tagMutationRates)
    {
      if id !in memories {
        cast := cast + [id];
      }
      memories := memories[id := EmptyStore];
    }

    /** `addMemory`: builds the transaction, then applies it to the character's
        store. */
    method AddMemory(charId: CharId, entries: seq<Entry>) returns (r: Result<(), MemoryError>)
      requires Valid()
      modifies this
      ensures Valid()
      ensures r.Ok? <==> AddMemoryTx(entries).Ok? && charId in old(memories)
      ensures AddMemoryTx(entries).Err? ==> r == Err(BadMemory(AddMemoryTx(entries).error))
      ensures AddMemoryTx(entries).Ok? && charId !in old(memories) ==> r == Err(UnknownCharacter(charId))
      ensures r.Ok? ==> memories == old(memories)[charId := ApplyTx(old(memories)[charId], AddMemoryTx(entries).value)]
      ensures r.Err? ==> memories == old(memories)
      ensures ships == old(ships) && lastId == old(lastId) && cast == old(cast)
      ensures actions == old(actions) && tagMutationRates == old(tagMutationRates)
    {
      var tx := BuildAddMemoryTx(entries);
      if tx.Err? {
        return Err(BadMemory(tx.error));
      }
      if charId !in memories {
        return Err(UnknownCharacter(charId));
      }
      AddMemoryTxShape(entries);
      TempAddsKeepStoreValid(memories[charId], tx.value);
      memories := memories[charId := ApplyTx(memories[charId], tx.value)];
      r := Ok(());
    }

    /** One chat of the action phase, from sorting the other characters present by
        the actor's positive feeling to the entry in the action log. The target, the
        draws of the ships the lookups create, the shuffle draws and the number of
        tones kept are the random draws, passed in. */
    method Chat(actor: CharId, others: seq<CharId>, target: CharId, place: string, day: int,
                sortDraws: seq<DeltaDraw>, d1: DeltaDraw, d2: DeltaDraw, toneSwaps: seq<nat>, toneCount: nat)
      returns (action: Action)
      requires Valid() && ValidDraw(d1) && ValidDraw(d2)
      requires |sortDraws| == |others| && ValidDraws(sortDraws)
      requires ValidSwaps(3, toneSwaps) && (toneCount == 1 || toneCount == 2)
      modifies this
      ensures Valid()
      ensures ships == AfterChat(AfterSort(old(ships), actor, others, sortDraws), actor, target, d1, d2)
      ensures lastId == old(lastId) + 1
      ensures action == Action(GeneratedId("A", lastId), "chat", actor, target, place, day,
                               Without(others, target),
                               ChatTags(WithShip(AfterSort(old(ships), actor, others, sortDraws), actor, target, d1)[actor][target],
                                        toneSwaps, toneCount))
      ensures actions == old(actions)[action.id := action]
      ensures cast == old(cast) && memories == old(memories) && tagMutationRates == old(tagMutationRates)
    {
      if |others| >= 2 {
        SortLookups(actor, others, sortDraws);
      }
      var targetShip := TouchShip(actor, target, d1);
      var id := GenId("A");
      var bystanders := Without(others, targetShip.dst);
      PossibleTonesProps(targetShip);
      var tags := IntendedTags(targetShip, toneSwaps, toneCount);
      var reverseShip := TouchShip(targetShip.dst, targetShip.src, d2);
      action := Action(id, "chat", actor, targetShip.dst, place, day, bystanders, tags);
      LogAction(action);
    }

    /** The `positiveFeeling(actor, o)` calls the comparator of the sort makes, one
        lookup per candidate. Which lookup comes first is up to the sort, so the
        draws are given in lookup order. */
    method SortLookups(actor: CharId, others: seq<CharId>, draws: seq<DeltaDraw>)
      requires Valid() && |draws| == |others| && ValidDraws(draws)
      modifies this
      ensures Valid()
      ensures ships == WithShips(old(ships), actor, others, draws)
      ensures lastId == old(lastId) && cast == old(cast) && memories == old(memories)
      ensures actions == old(actions) && tagMutationRates == old(tagMutationRates)
    {
      var i := 0;
      while i < |others|
        invariant 0 <= i <= |others|
        invariant Valid()
        invariant ships == WithShips(old(ships), actor, others[..i], draws[..i])
        invariant lastId == old(lastId) && cast == old(cast) && memories == old(memories)
        invariant actions == old(actions) && tagMutationRates == old(tagMutationRates)
      {
        assert others[..i + 1][..i] == others[..i] && draws[..i + 1][..i] == draws[..i];
        assert ValidDraw(draws[i]);
        var feeling := PositiveFeeling(StringId(actor), StringId(others[i]), draws[i]);
        i := i + 1;
      }
      assert others[..i] == others && draws[..i] == draws;
    }

    /** `allActions[action.id] = action`. */
    method LogAction(action: Action)
      requires Valid()
      modifies this
      ensures Valid()
      ensures actions == old(actions)[action.id := action]
      ensures ships == old(ships) && lastId == old(lastId) && cast == old(cast)
      ensures memories == old(memories) && tagMutationRates == old(tagMutationRates)
    {
      actions := actions[action.id := action];
    }

    /** Looks up (or creates) the ship from `c1` to `c2`, counts one more direct
        interaction on it and marks it refreshed; returns the ship as looked up. */
    method TouchShip(c1: CharId, c2: CharId, draw: DeltaDraw) returns (ship: Ship)
      requires Valid() && ValidDraw(draw)
      modifies this
      ensures Valid()
      ensures ship == WithShip(old(ships), c1, c2, draw)[c1][c2] && ship.src == c1 && ship.dst == c2
      ensures ships == Touch(old(ships), c1, c2, draw)
      ensures lastId == old(lastId) && cast == old(cast) && memories == old(memories)
      ensures actions == old(actions) && tagMutationRates == old(tagMutationRates)
    {
      var found := GetOrCreateShip(StringId(c1), StringId(c2), draw);
      ship := found.value;
      SetShipKeepsInvariants(ships, c1, c2, Bump(ship));
      ships := SetShip(ships, c1, c2, Bump(ship));
    }

    /** The reflection loop over one character's outgoing ships. */
    method ReflectShips(c: CharId)
      requires Valid()
      modifies this
      ensures Valid()
      ensures ships == ReflectSource(old(ships), c)
      ensures lastId == old(lastId) && cast == old(cast) && memories == old(memories)
      ensures actions == old(actions) && tagMutationRates == old(tagMutationRates)
    {
      ReflectSourceKeepsInvariants(ships, c);
      if c in ships {
        var inner := ReflectEach(ships[c]);
        ships := ships[c := inner];
      }
    }

    /** The decay of one character's memories: one operation per memory the query
        finds, in whatever order it finds them, then the transaction is applied. */
    method DecayMemories(c: CharId)
      requires Valid() && c in memories
      modifies this
      ensures Valid()
      ensures memories == old(memories)[c := Decayed(old(memories)[c])]
      ensures ships == old(ships) && lastId == old(lastId) && cast == old(cast)
      ensures actions == old(actions) && tagMutationRates == old(tagMutationRates)
    {
      var store := memories[c];
      var tx := BuildDecayTx(store);
      DecayedProps(store);
      memories := memories[c := ApplyTx(store, tx)];
    }

    /** The ship and memory updates of the reflection phase, character by character
        in registration order. */
    method Reflect()
      requires Valid()
      modifies this
      ensures Valid()
      ensures ships == map a | a in old(ships) :: if a in cast then ReflectAll(old(ships)[a]) else old(ships)[a]
      ensures memories == map c | c in old(memories) :: Decayed(old(memories)[c])
      ensures lastId == old(lastId) && cast == old(cast)
      ensures actions == old(actions) && tagMutationRates == old(tagMutationRates)
    {
      var i := 0;
      while i < |cast|
        invariant Valid() && 0 <= i <= |cast|
        invariant cast == old(cast) && lastId == old(lastId)
        invariant actions == old(actions) && tagMutationRates == old(tagMutationRates)
        invariant ships == ReflectSources(old(ships), cast[..i])
        invariant memories == DecaySources(old(memories), cast[..i])
      {
        var c := cast[i];
        assert cast[..i + 1][..i] == cast[..i] && cast[..i + 1][i] == c;
        ghost var shipsBefore, memoriesBefore := ships, memories;
        ReflectShips(c);
        assert ships == ReflectSources(old(ships), cast[..i + 1]) by {
          assert ships == ReflectSource(shipsBefore, c);
        }
        DecayMemories(c);
        assert memories == DecaySources(old(memories), cast[..i + 1]) by {
          assert c in memoriesBefore && memories == memoriesBefore[c := Decayed(memoriesBefore[c])];
        }
        i := i + 1;
      }
      assert cast[..i] == cast;
      ReflectSourcesEach(old(ships), cast);
      DecaySourcesEach(old(memories), cast);
    }
  }

  /** The memory stores after decaying those of `cs` one after the other. */
  function DecaySources(m: map<CharId, Store>, cs: seq<CharId>): map<CharId, Store>
    decreases |cs|
  {
    if cs == [] then m
    else
      var before := DecaySources(m, cs[..|cs| - 1]);
      var c := cs[|cs| - 1];
      if c in before then before[c := Decayed(before[c])] else before
  }

  /** Decaying distinct characters in sequence decays each listed store once and
      leaves every other store alone. */
  lemma {:induction false} DecaySourcesEach(m: map<CharId, Store>, cs: seq<CharId>)
    requires NoDuplicates(cs)
    ensures DecaySources(m, cs) == map c | c in m :: if c in cs then Decayed(m[c]) else m[c]
  {
    if cs != [] {
      var p, c := cs[..|cs| - 1], cs[|cs| - 1];
      assert cs == p + [c];
      assert NoDuplicates(p);
      assert c !in p;
      DecaySourcesEach(m, p);
      var want := map a | a in m :: if a in cs then Decayed(m[a]) else m[a];
      assert DecaySources(m, cs).Keys == want.Keys;
      forall a | a in m ensures DecaySources(m, cs)[a] == want[a] {
        assert a in cs <==> a in p || a == c;
      }
    }
  }

  /** Additions on the temporary entity keep a store's ids valid. */
  lemma TempAddsKeepStoreValid(s: Store, tx: seq<TxOp>)
    requires ValidStore(s) && AllTempAdds(tx)
    ensures ValidStore(ApplyTx(s, tx))
  {
    if tx != [] {
      assert UsesTempId(tx) by { assert tx[0].DbAdd? && tx[0].e == TempId; }
      ApplyTempAdds(s.entities, tx, s.maxEid + 1);
      var ents := ApplyOps(s.entities, tx, s.maxEid + 1);
      forall e | e in ents ensures 1 <= e <= s.maxEid + 1 {
        if e != s.maxEid + 1 {
          assert e in ents - {s.maxEid + 1};
        }
      }
    } else {
      assert !UsesTempId(tx);
    }
  }
}
