/** The relationship ledger's records ("ships") and the pure rules over them:
    lazy creation in the two-level ship table, the derived scores and thresholds,
    the per-interaction bookkeeping and the once-a-day reflection step. */
module Ships {
  import opened Wrappers
  import opened Util

  type CharId = string

  /** The lists that a new ship's `chargeDelta` and `sparkDelta` are drawn from. */
  const ChargeDeltaChoices: seq<int> := [-28, -14, -7, -7, 7, 7, 7, 14, 14, 28]
  const SparkDeltaChoices: seq<int> := [-28, -14, -14, -7, -7, -7, 7, 7, 14, 28]

  /** The two `randNth` draws made when a ship is created, as list indices. */
  datatype DeltaDraw = DeltaDraw(chargeIndex: nat, sparkIndex: nat)

  predicate ValidDraw(d: DeltaDraw)
  {
    d.chargeIndex < |ChargeDeltaChoices| && d.sparkIndex < |SparkDeltaChoices|
  }

  /** A directed relationship record; `wasJustRefreshed` false stands for the
      property being absent. */
  datatype Ship = Ship(src: CharId, dst: CharId, directInteractions: nat,
                       charge: real, spark: real, chargeDelta: int, sparkDelta: int,
                       wasJustRefreshed: bool)

  /** A value passed as a character id: a string, or any other JavaScript value,
      told apart from the others by an integer that stands for its identity under
      `===`. */
  datatype IdArg = StringId(id: CharId) | NonStringId(value: int)

  datatype LedgerError = BadCharId(arg: IdArg)

  predicate IsDeltaMagnitude(d: int)
  {
    d == -28 || d == -14 || d == -7 || d == 7 || d == 14 || d == 28
  }

  /** A freshly created ship: zero scores, no interactions, and nonzero deltas of
      magnitude 7, 14 or 28. */
  function NewShip(c1: CharId, c2: CharId, draw: DeltaDraw): (s: Ship)
    requires ValidDraw(draw)
    ensures s.src == c1 && s.dst == c2
    ensures s.directInteractions == 0 && s.charge == 0.0 && s.spark == 0.0 && !s.wasJustRefreshed
    ensures IsDeltaMagnitude(s.chargeDelta) && IsDeltaMagnitude(s.sparkDelta)
  {
    Ship(c1, c2, 0, 0.0, 0.0, ChargeDeltaChoices[draw.chargeIndex], SparkDeltaChoices[draw.sparkIndex], false)
  }

  /** `allShips`: source id, then destination id, to ship. */
  type ShipTable = map<CharId, map<CharId, Ship>>

  predicate HasShip(t: ShipTable, c1: CharId, c2: CharId)
  {
    c1 in t && c2 in t[c1]
  }

  /** Every ship is filed under its own source and destination. */
  predicate KeyedBySrcDst(t: ShipTable)
  {
    forall a, b :: a in t && b in t[a] ==> t[a][b].src == a && t[a][b].dst == b
  }

  /** The table after `getOrCreateShip(c1, c2)` with two string ids: the source's
      inner table and the ship are created when missing, and nothing else moves.
      An existing ship is returned as it is, so a second lookup changes nothing. */
  function WithShip(t: ShipTable, c1: CharId, c2: CharId, draw: DeltaDraw): (r: ShipTable)
    requires ValidDraw(draw)
    ensures HasShip(r, c1, c2)
    ensures HasShip(t, c1, c2) ==> r == t
    ensures !HasShip(t, c1, c2) ==> r[c1][c2] == NewShip(c1, c2, draw)
    ensures r.Keys == t.Keys + {c1}
    ensures forall a, b :: (a != c1 || b != c2) ==> (HasShip(r, a, b) <==> HasShip(t, a, b))
    ensures forall a, b :: HasShip(t, a, b) ==> HasShip(r, a, b) && r[a][b] == t[a][b]
  {
    var inner := if c1 in t then t[c1] else map[];
    var inner' := if c2 in inner then inner else inner[c2 := NewShip(c1, c2, draw)];
    t[c1 := inner']
  }

  /** A later lookup of the same pair returns the record of the first. */
  lemma LookupIdempotent(t: ShipTable, c1: CharId, c2: CharId, d1: DeltaDraw, d2: DeltaDraw)
    requires ValidDraw(d1) && ValidDraw(d2)
    ensures WithShip(WithShip(t, c1, c2, d1), c1, c2, d2) == WithShip(t, c1, c2, d1)
    ensures WithShip(WithShip(t, c1, c2, d1), c1, c2, d2)[c1][c2] == WithShip(t, c1, c2, d1)[c1][c2]
  {
  }

  /** Every ship's charge and spark lie in -100..100. */
  predicate AllInRange(t: ShipTable)
  {
    forall a, b :: a in t && b in t[a] ==> InRange(t[a][b])
  }

  /** Lookups keep ships filed under their own ids and in range. */
  lemma WithShipKeepsInvariants(t: ShipTable, c1: CharId, c2: CharId, draw: DeltaDraw)
    requires ValidDraw(draw) && KeyedBySrcDst(t) && AllInRange(t)
    ensures KeyedBySrcDst(WithShip(t, c1, c2, draw)) && AllInRange(WithShip(t, c1, c2, draw))
  {
    var r := WithShip(t, c1, c2, draw);
    forall a, b | HasShip(r, a, b) ensures r[a][b].src == a && r[a][b].dst == b && InRange(r[a][b]) {
      if !HasShip(t, a, b) {
        assert a == c1 && b == c2;
      }
    }
  }

  predicate ValidDraws(draws: seq<DeltaDraw>)
  {
    forall k :: 0 <= k < |draws| ==> ValidDraw(draws[k])
  }

  /** The table after looking up the ship from `c` to each of `os` in turn, the k-th
      lookup drawing `draws[k]` if it creates the ship. */
  function WithShips(t: ShipTable, c: CharId, os: seq<CharId>, draws: seq<DeltaDraw>): ShipTable
    requires |draws| == |os| && ValidDraws(draws)
    decreases |os|
  {
    if os == [] then t
    else WithShip(WithShips(t, c, os[..|os| - 1], draws[..|draws| - 1]), c, os[|os| - 1], draws[|draws| - 1])
  }

  /** A run of lookups gives `c` a ship to each of `os`, leaves every existing ship
      as it was, and creates no other ship. */
  lemma {:induction false} WithShipsKeys(t: ShipTable, c: CharId, os: seq<CharId>, draws: seq<DeltaDraw>)
    requires |draws| == |os| && ValidDraws(draws)
    ensures forall a, b :: HasShip(WithShips(t, c, os, draws), a, b) <==> HasShip(t, a, b) || (a == c && b in os)
    ensures forall a, b :: HasShip(t, a, b) ==> WithShips(t, c, os, draws)[a][b] == t[a][b]
    decreases |os|
  {
    if os != [] {
      var n := |os| - 1;
      assert ValidDraws(draws[..n]);
      WithShipsKeys(t, c, os[..n], draws[..n]);
      assert os == os[..n] + [os[n]];
    }
  }

  /** Each ship a run of lookups creates is fresh, made with the draw of one of the
      lookups of it. */
  lemma {:induction false} WithShipsNew(t: ShipTable, c: CharId, os: seq<CharId>, draws: seq<DeltaDraw>, o: CharId)
    requires |draws| == |os| && ValidDraws(draws)
    requires o in os && !HasShip(t, c, o)
    ensures HasShip(WithShips(t, c, os, draws), c, o)
    ensures exists k :: 0 <= k < |os| && os[k] == o && WithShips(t, c, os, draws)[c][o] == NewShip(c, o, draws[k])
    decreases |os|
  {
    var n := |os| - 1;
    var init, dinit := os[..n], draws[..n];
    assert ValidDraws(dinit);
    var prev := WithShips(t, c, init, dinit);
    assert os == init + [os[n]];
    if o in init {
      WithShipsNew(t, c, init, dinit, o);
      var k :| 0 <= k < |init| && init[k] == o && prev[c][o] == NewShip(c, o, dinit[k]);
      assert os[k] == o && draws[k] == dinit[k];
    } else {
      assert o == os[n];
      WithShipsKeys(t, c, init, dinit);
      assert !HasShip(prev, c, o);
    }
  }

  /** Lookups keep the table keyed by source and destination and in range. */
  lemma {:induction false} WithShipsKeepsInvariants(t: ShipTable, c: CharId, os: seq<CharId>, draws: seq<DeltaDraw>)
    requires |draws| == |os| && ValidDraws(draws)
    requires KeyedBySrcDst(t) && AllInRange(t)
    ensures KeyedBySrcDst(WithShips(t, c, os, draws)) && AllInRange(WithShips(t, c, os, draws))
    decreases |os|
  {
    if os != [] {
      var n := |os| - 1;
      assert ValidDraws(draws[..n]);
      WithShipsKeepsInvariants(t, c, os[..n], draws[..n]);
      WithShipKeepsInvariants(WithShips(t, c, os[..n], draws[..n]), c, os[n], draws[n]);
    }
  }

  /** Writing back an updated ship: only the entry for `(c1, c2)` changes. */
  function SetShip(t: ShipTable, c1: CharId, c2: CharId, s: Ship): (r: ShipTable)
    requires HasShip(t, c1, c2)
    ensures HasShip(r, c1, c2) && r[c1][c2] == s
    ensures r.Keys == t.Keys
    ensures forall a, b :: HasShip(r, a, b) <==> HasShip(t, a, b)
    ensures forall a, b :: HasShip(t, a, b) && (a != c1 || b != c2) ==> HasShip(r, a, b) && r[a][b] == t[a][b]
  {
    t[c1 := t[c1][c2 := s]]
  }

  /** Writing back a ship filed under its own ids and in range keeps both invariants. */
  lemma SetShipKeepsInvariants(t: ShipTable, c1: CharId, c2: CharId, s: Ship)
    requires HasShip(t, c1, c2) && KeyedBySrcDst(t) && AllInRange(t)
    requires s.src == c1 && s.dst == c2 && InRange(s)
    ensures KeyedBySrcDst(SetShip(t, c1, c2, s)) && AllInRange(SetShip(t, c1, c2, s))
  {
    var r := SetShip(t, c1, c2, s);
    forall a, b | HasShip(r, a, b) ensures r[a][b].src == a && r[a][b].dst == b && InRange(r[a][b]) {
      if a != c1 || b != c2 {
        assert HasShip(t, a, b);
      }
    }
  }

  /** `(c1, c2)` and `(c2, c1)` are separate records: updating one leaves the other. */
  lemma ShipsAreDirected(t: ShipTable, c1: CharId, c2: CharId, s: Ship)
    requires c1 != c2 && HasShip(t, c1, c2) && HasShip(t, c2, c1)
    ensures SetShip(t, c1, c2, s)[c2][c1] == t[c2][c1]
  {
  }

  // ---------------------------------------------------------------------------
  // Derived scores and thresholds
  // ---------------------------------------------------------------------------

  predicate IncludesAttraction(s: Ship) { s.spark >= 20.0 }

  predicate IncludesLiking(s: Ship) { s.charge >= 20.0 }

  predicate IncludesAnimosity(s: Ship) { s.charge <= -20.0 }

  function Max(a: real, b: real): real { if a < b then b else a }

  function Abs(a: real): real { if a < 0.0 then -a else a }

  /** Charge and spark within the fairmath range. */
  predicate InRange(s: Ship)
  {
    -100.0 <= s.charge <= 100.0 && -100.0 <= s.spark <= 100.0
  }

  /** `positiveFeeling`: never negative, at least the charge and at least the spark,
      and zero exactly when neither is positive. */
  function PositiveFeelingOf(s: Ship): (r: real)
    ensures r >= 0.0
    ensures r >= s.charge && r >= s.spark
    ensures r == 0.0 <==> s.charge <= 0.0 && s.spark <= 0.0
  {
    Max(0.0, s.charge) + Max(0.0, s.spark)
  }

  /** The fixed salience of a character for itself. */
  const SelfSalience: real := 250.0

  /** `charSalience` for two different characters: never negative, and for a ship in
      range at most 220, 30 below the salience of the self. */
  function SalienceOf(s: Ship): (r: real)
    ensures r >= 0.0
    ensures r >= Abs(s.charge) && r >= Max(0.0, s.spark)
    ensures InRange(s) ==> r + 30.0 <= SelfSalience
  {
    Abs(s.charge) + Max(0.0, s.spark) + (if s.directInteractions < 20 then s.directInteractions else 20) as real
  }

  /** The salience bound is reached by a maximally charged, sparked and familiar ship. */
  lemma SalienceBoundReached(s: Ship)
    requires s.charge == 100.0 && s.spark == 100.0 && s.directInteractions >= 20
    ensures SalienceOf(s) + 30.0 == SelfSalience
  {
  }

  /** `wouldInviteToHangOut`: attraction or liking. An invitation needs a positive
      feeling of at least 20, and a positive feeling of 40 or more always brings one;
      it is offered exactly when a chat could take a flirty or friendly tone. */
  function WouldInvite(s: Ship): (b: bool)
    ensures b ==> PositiveFeelingOf(s) >= 20.0
    ensures PositiveFeelingOf(s) >= 40.0 ==> b
    ensures b <==> "flirty" in PossibleTones(s) || "friendly" in PossibleTones(s)
  {
    PossibleTonesProps(s);
    IncludesAttraction(s) || IncludesLiking(s)
  }

  // ---------------------------------------------------------------------------
  // Intended tones of a chat
  // ---------------------------------------------------------------------------

  /** `possibleTones`: neutral, then flirty, friendly and rude as the ship allows. */
  function PossibleTones(s: Ship): seq<string>
  {
    ["neutral"]
    + (if IncludesAttraction(s) then ["flirty"] else [])
    + (if IncludesLiking(s) then ["friendly"] else [])
    + (if IncludesAnimosity(s) then ["rude"] else [])
  }

  predicate IsTone(t: string)
  {
    t == "neutral" || t == "flirty" || t == "friendly" || t == "rude"
  }

  /** The possible tones are distinct tones, always include neutral, and never pair
      friendly with rude, since liking and animosity exclude each other. */
  lemma PossibleTonesProps(s: Ship)
    ensures 1 <= |PossibleTones(s)| <= 3
    ensures NoDuplicates(PossibleTones(s))
    ensures forall t :: t in PossibleTones(s) ==> IsTone(t)
    ensures "neutral" in PossibleTones(s)
    ensures ("flirty" in PossibleTones(s) <==> IncludesAttraction(s))
    ensures ("friendly" in PossibleTones(s) <==> IncludesLiking(s))
    ensures ("rude" in PossibleTones(s) <==> IncludesAnimosity(s))
    ensures !("friendly" in PossibleTones(s) && "rude" in PossibleTones(s))
  {
    var ts := PossibleTones(s);
    assert ts[0] == "neutral";
  }

  /** `slice(0, n)`. */
  function Take<T>(s: seq<T>, n: nat): (r: seq<T>)
    ensures |r| == if n <= |s| then n else |s|
    ensures forall i :: 0 <= i < |r| ==> r[i] == s[i]
  {
    if n <= |s| then s[..n] else s
  }

  /** The tags of a chat: one or two of the possible tones in shuffled order, then
      `introduction` when the actor's ship has never had a direct interaction. */
  function ChatTags(s: Ship, toneSwaps: seq<nat>, toneCount: nat): seq<string>
    requires ValidSwaps(|PossibleTones(s)|, toneSwaps)
  {
    Take(Shuffled(PossibleTones(s), toneSwaps), toneCount)
      + (if s.directInteractions == 0 then ["introduction"] else [])
  }

  /** The shuffle and cut of the possible tones, then the introduction marker, as
      the chat computes them on a fresh array. */
  method IntendedTags(s: Ship, toneSwaps: seq<nat>, toneCount: nat) returns (tags: seq<string>)
    requires ValidSwaps(|PossibleTones(s)|, toneSwaps)
    ensures tags == ChatTags(s, toneSwaps, toneCount)
  {
    var possibleTones := PossibleTones(s);
    var toneArray := new string[|possibleTones|](i requires 0 <= i < |possibleTones| => possibleTones[i]);
    assert toneArray[..] == possibleTones;
    var shuffled := Shuffle(toneArray, toneSwaps);
    tags := Take(shuffled[..], toneCount);
    if s.directInteractions == 0 {
      tags := tags + ["introduction"];
    }
  }

  lemma TakeProps<T>(s: seq<T>, n: nat)
    requires NoDuplicates(s)
    ensures NoDuplicates(Take(s, n))
    ensures forall x :: x in Take(s, n) ==> x in s
  {
    var r := Take(s, n);
    forall x | x in r ensures x in s {
      var i :| 0 <= i < |r| && r[i] == x;
      assert s[i] == x;
    }
  }

  lemma WithIntroductionProps(picked: seq<string>, intro: bool)
    requires NoDuplicates(picked) && "introduction" !in picked
    ensures var tags := picked + (if intro then ["introduction"] else []);
      && NoDuplicates(tags)
      && ("introduction" in tags <==> intro)
      && (forall t :: t in tags && t != "introduction" ==> t in picked)
  {
  }

  /** The shuffled and trimmed tones: distinct possible tones, never `introduction`. */
  lemma PickedTonesProps(s: Ship, toneSwaps: seq<nat>, toneCount: nat)
    requires ValidSwaps(|PossibleTones(s)|, toneSwaps)
    ensures var picked := Take(Shuffled(PossibleTones(s), toneSwaps), toneCount);
      && NoDuplicates(picked)
      && (forall t :: t in picked ==> t in PossibleTones(s))
      && "introduction" !in picked
  {
    var tones := PossibleTones(s);
    PossibleTonesProps(s);
    var shuffled := Shuffled(tones, toneSwaps);
    PermutationKeepsMembers(tones, shuffled);
    PermutationKeepsNoDuplicates(tones, shuffled);
    TakeProps(shuffled, toneCount);
    assert !IsTone("introduction");
  }

  /** A chat is tagged `introduction` exactly on the pair's first direct interaction;
      its tags are distinct and every other tag is a tone the ship allows, as many
      of them as were asked for (up to the number allowed). */
  lemma ChatTagsProps(s: Ship, toneSwaps: seq<nat>, toneCount: nat)
    requires ValidSwaps(|PossibleTones(s)|, toneSwaps)
    ensures "introduction" in ChatTags(s, toneSwaps, toneCount) <==> s.directInteractions == 0
    ensures NoDuplicates(ChatTags(s, toneSwaps, toneCount))
    ensures forall t :: t in ChatTags(s, toneSwaps, toneCount) && t != "introduction" ==> t in PossibleTones(s)
    ensures |ChatTags(s, toneSwaps, toneCount)| ==
      (if toneCount <= |PossibleTones(s)| then toneCount else |PossibleTones(s)|)
      + (if s.directInteractions == 0 then 1 else 0)
  {
    PickedTonesProps(s, toneSwaps, toneCount);
    WithIntroductionProps(Take(Shuffled(PossibleTones(s), toneSwaps), toneCount), s.directInteractions == 0);
  }

  // ---------------------------------------------------------------------------
  // Action phase: a chat refreshes both directions
  // ---------------------------------------------------------------------------

  /** One more direct interaction, and the ship is marked refreshed. */
  function Bump(s: Ship): (r: Ship)
    ensures r.directInteractions == s.directInteractions + 1 && r.wasJustRefreshed
    ensures r.(directInteractions := s.directInteractions, wasJustRefreshed := s.wasJustRefreshed) == s
  {
    s.(directInteractions := s.directInteractions + 1, wasJustRefreshed := true)
  }

  /** One direction of a chat's bookkeeping: the ship is looked up (or created)
      and bumped; every other ship is untouched and no other ship appears. */
  function Touch(t: ShipTable, c1: CharId, c2: CharId, draw: DeltaDraw): (r: ShipTable)
    requires ValidDraw(draw)
    ensures HasShip(r, c1, c2) && r[c1][c2] == Bump(WithShip(t, c1, c2, draw)[c1][c2])
    ensures forall x, y :: HasShip(t, x, y) && (x != c1 || y != c2) ==> HasShip(r, x, y) && r[x][y] == t[x][y]
    ensures forall x, y :: HasShip(r, x, y) ==> HasShip(t, x, y) || (x == c1 && y == c2)
  {
    var t1 := WithShip(t, c1, c2, draw);
    SetShip(t1, c1, c2, Bump(t1[c1][c2]))
  }

  /** The ship table after `actor` chats with `target`: the forward ship, then the
      reverse ship. */
  function AfterChat(t: ShipTable, actor: CharId, target: CharId, d1: DeltaDraw, d2: DeltaDraw): ShipTable
    requires ValidDraw(d1) && ValidDraw(d2)
  {
    Touch(Touch(t, actor, target, d1), target, actor, d2)
  }

  /** After a chat between two different characters, both directed ships exist and
      each has exactly one more direct interaction than before (a new ship counts
      from 0) and is marked refreshed; every other ship is untouched. */
  lemma AfterChatProps(t: ShipTable, a: CharId, b: CharId, d1: DeltaDraw, d2: DeltaDraw)
    requires ValidDraw(d1) && ValidDraw(d2) && a != b
    ensures var r := AfterChat(t, a, b, d1, d2);
      && HasShip(r, a, b) && HasShip(r, b, a)
      && r[a][b] == Bump(WithShip(t, a, b, d1)[a][b])
      && r[b][a] == Bump(WithShip(t, b, a, d2)[b][a])
      && r[a][b].directInteractions == (if HasShip(t, a, b) then t[a][b].directInteractions else 0) + 1
      && r[b][a].directInteractions == (if HasShip(t, b, a) then t[b][a].directInteractions else 0) + 1
      && (forall x, y :: HasShip(t, x, y) && (x != a || y != b) && (x != b || y != a) ==> HasShip(r, x, y) && r[x][y] == t[x][y])
      && (forall x, y :: HasShip(r, x, y) ==> HasShip(t, x, y) || (x == a && y == b) || (x == b && y == a))
  {
    var t1 := Touch(t, a, b, d1);
    assert HasShip(t1, b, a) <==> HasShip(t, b, a);
    assert HasShip(t, b, a) ==> t1[b][a] == t[b][a];
    assert WithShip(t1, b, a, d2)[b][a] == WithShip(t, b, a, d2)[b][a];
  }

  // ---------------------------------------------------------------------------
  // Reflection phase
  // ---------------------------------------------------------------------------

  /** `fairmath` on the ledger's range -100..100. */
  function Bounded(to: real, add: real): (r: real)
    ensures -100.0 <= r <= 100.0
  {
    Fairmath(FairmathParams(to, add, Some(-100.0), Some(100.0)))
  }

  /** The one-unit decay step: down when positive, otherwise up (0 included). */
  function DecayStep(v: real): real
  {
    if v > 0.0 then -1.0 else 1.0
  }

  /** One ship's reflection update. A refreshed ship moves charge and spark by its own
      deltas and loses the mark; any other ship has both decayed one fairmath unit.
      Either way the scores end in range and nothing else changes. */
  function ReflectShip(s: Ship): (r: Ship)
    ensures InRange(r)
    ensures !r.wasJustRefreshed
    ensures r.(charge := s.charge, spark := s.spark, wasJustRefreshed := s.wasJustRefreshed) == s
  {
    if s.wasJustRefreshed then
      s.(charge := Bounded(s.charge, s.chargeDelta as real),
         spark := Bounded(s.spark, s.sparkDelta as real),
         wasJustRefreshed := false)
    else
      s.(charge := Bounded(s.charge, DecayStep(s.charge)),
         spark := Bounded(s.spark, DecayStep(s.spark)))
  }

  lemma BoundedMoves(to: real, add: real)
    requires -100.0 <= to <= 100.0
    ensures add >= 0.0 ==> Bounded(to, add) >= to
    ensures add < 0.0 ==> Bounded(to, add) <= to
    ensures add > 0.0 && to < 100.0 ==> Bounded(to, add) > to
    ensures add < 0.0 && to > -100.0 ==> Bounded(to, add) < to
  {
    FairmathMonotone(FairmathParams(to, add, Some(-100.0), Some(100.0)));
  }

  /** Without a refresh, a positive score strictly falls and a score of zero or below
      strictly rises: every in-range value moves, none stays put. */
  lemma ReflectDecays(s: Ship)
    requires !s.wasJustRefreshed && InRange(s)
    ensures s.charge > 0.0 ==> ReflectShip(s).charge < s.charge
    ensures s.charge <= 0.0 ==> ReflectShip(s).charge > s.charge
    ensures s.spark > 0.0 ==> ReflectShip(s).spark < s.spark
    ensures s.spark <= 0.0 ==> ReflectShip(s).spark > s.spark
  {
    BoundedMoves(s.charge, DecayStep(s.charge));
    BoundedMoves(s.spark, DecayStep(s.spark));
  }

  /** A score of exactly 0 does not stay at 0: it is treated as going up and lands on 0.5. */
  lemma ReflectZeroRises(s: Ship)
    requires !s.wasJustRefreshed && s.charge == 0.0 && s.spark == 0.0
    ensures ReflectShip(s).charge == 0.5 && ReflectShip(s).spark == 0.5
  {
    var p := FairmathParams(0.0, 1.0, Some(-100.0), Some(100.0));
    assert FairDelta(p) == (1.0 / 200.0) * 100.0;
  }

  /** A small positive score decays past zero: 0.25 becomes negative. */
  lemma ReflectSmallChargeCrossesZero(s: Ship)
    requires !s.wasJustRefreshed && s.charge == 0.25
    ensures ReflectShip(s).charge < 0.0
  {
    var p := FairmathParams(0.25, -1.0, Some(-100.0), Some(100.0));
    assert FairDelta(p) == (-1.0 / 200.0) * 100.25;
  }

  /** A refreshed ship moves each score in the direction of its delta, strictly
      unless the score already sits on that edge. */
  lemma ReflectRefreshed(s: Ship)
    requires s.wasJustRefreshed && InRange(s)
    requires IsDeltaMagnitude(s.chargeDelta) && IsDeltaMagnitude(s.sparkDelta)
    ensures s.chargeDelta > 0 && s.charge < 100.0 ==> ReflectShip(s).charge > s.charge
    ensures s.chargeDelta < 0 && s.charge > -100.0 ==> ReflectShip(s).charge < s.charge
    ensures s.sparkDelta > 0 && s.spark < 100.0 ==> ReflectShip(s).spark > s.spark
    ensures s.sparkDelta < 0 && s.spark > -100.0 ==> ReflectShip(s).spark < s.spark
  {
    BoundedMoves(s.charge, s.chargeDelta as real);
    BoundedMoves(s.spark, s.sparkDelta as real);
  }

  /** The reflection of all of one character's outgoing ships. */
  function ReflectAll(inner: map<CharId, Ship>): (r: map<CharId, Ship>)
    ensures r.Keys == inner.Keys
    ensures forall k :: k in r ==> InRange(r[k]) && !r[k].wasJustRefreshed
  {
    map k | k in inner :: ReflectShip(inner[k])
  }

  /** The table after reflecting the outgoing ships of `c`, if it has any. */
  function ReflectSource(t: ShipTable, c: CharId): (r: ShipTable)
    ensures r.Keys == t.Keys
    ensures forall a :: a in t && a != c ==> r[a] == t[a]
  {
    if c in t then t[c := ReflectAll(t[c])] else t
  }

  /** Reflection keeps ships filed under their own ids and brings every reflected ship
      into range. */
  lemma ReflectSourceKeepsInvariants(t: ShipTable, c: CharId)
    requires KeyedBySrcDst(t) && AllInRange(t)
    ensures KeyedBySrcDst(ReflectSource(t, c)) && AllInRange(ReflectSource(t, c))
  {
    var r: ShipTable := ReflectSource(t, c);
    forall a: CharId, b: CharId | a in r && b in r[a] ensures r[a][b].src == a && r[a][b].dst == b && InRange(r[a][b]) {
      if a == c {
        assert r[a][b] == ReflectShip(t[a][b]);
      }
    }
  }

  /** The loop over one source's ships, in whatever order the object yields them:
      every ship is reflected exactly once. */
  method ReflectEach(inner: map<CharId, Ship>) returns (r: map<CharId, Ship>)
    ensures r == ReflectAll(inner)
  {
    r := inner;
    var remaining := inner.Keys;
    while remaining != {}
      invariant remaining <= inner.Keys && r.Keys == inner.Keys
      invariant forall k :: k in inner ==> r[k] == if k in remaining then inner[k] else ReflectShip(inner[k])
      decreases remaining
    {
      var k := PickMember(remaining);
      r := r[k := ReflectShip(r[k])];
      remaining := remaining - {k};
    }
  }

  /** The table after reflecting the sources `cs` one after the other. */
  function ReflectSources(t: ShipTable, cs: seq<CharId>): ShipTable
    decreases |cs|
  {
    if cs == [] then t else ReflectSource(ReflectSources(t, cs[..|cs| - 1]), cs[|cs| - 1])
  }

  /** Reflecting distinct sources in sequence reflects each listed source's ships once
      and leaves every other source alone. */
  lemma {:induction false} ReflectSourcesEach(t: ShipTable, cs: seq<CharId>)
    requires NoDuplicates(cs)
    ensures ReflectSources(t, cs) == map a | a in t :: if a in cs then ReflectAll(t[a]) else t[a]
  {
    if cs != [] {
      var p, c := cs[..|cs| - 1], cs[|cs| - 1];
      assert cs == p + [c];
      assert NoDuplicates(p);
      assert c !in p;
      ReflectSourcesEach(t, p);
      var m := ReflectSources(t, p);
      var want := map a | a in t :: if a in cs then ReflectAll(t[a]) else t[a];
      assert ReflectSource(m, c).Keys == want.Keys;
      forall a | a in t ensures ReflectSource(m, c)[a] == want[a] {
        assert a in cs <==> a in p || a == c;
      }
    }
  }
}
