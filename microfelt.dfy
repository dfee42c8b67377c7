/** The Felt-style sifting-pattern preprocessor: turns a list of clause lines into
    a Datalog query string and the list of logic variables it exports. */
module Microfelt {
  import opened Wrappers
  import opened Util

  // ---------------------------------------------------------------------------
  // Characters and whitespace
  // ---------------------------------------------------------------------------

  /** The JavaScript whitespace and line-terminator set, shared by `trim`, the `\s`
      regex class and the leading-space skip of `parseFloat`. */
  predicate IsSpace(c: char)
  {
    || c == '\t' || c == '\n' || c == '\U{000B}' || c == '\U{000C}' || c == '\r' || c == ' '
    || c == '\U{00A0}' || c == '\U{1680}' || ('\U{2000}' <= c <= '\U{200A}')
    || c == '\U{2028}' || c == '\U{2029}' || c == '\U{202F}' || c == '\U{205F}'
    || c == '\U{3000}' || c == '\U{FEFF}'
  }

  predicate SpaceFree(t: string)
  {
    forall k :: 0 <= k < |t| ==> !IsSpace(t[k])
  }

  predicate IsDigit(c: char) { '0' <= c <= '9' }

  predicate IsIdentStart(c: char) { 'a' <= c <= 'z' || 'A' <= c <= 'Z' || c == '_' }

  predicate IsIdentChar(c: char) { IsIdentStart(c) || IsDigit(c) }

  /** A name matching `[a-zA-Z_][a-zA-Z0-9_]*`. */
  predicate IsIdent(s: string)
  {
    |s| > 0 && IsIdentStart(s[0]) && forall i :: 0 < i < |s| ==> IsIdentChar(s[i])
  }

  function TrimStart(s: string): (r: string)
    ensures r == [] || !IsSpace(r[0])
    ensures |r| <= |s| && r == s[|s| - |r|..]
  {
    if s != [] && IsSpace(s[0]) then TrimStart(s[1..]) else s
  }

  function TrimEnd(s: string): (r: string)
    ensures r == [] || !IsSpace(r[|r| - 1])
    ensures |r| <= |s| && r == s[..|r|]
  {
    if s != [] && IsSpace(s[|s| - 1]) then TrimEnd(s[..|s| - 1]) else s
  }

  /** `String.prototype.trim`. */
  function Trim(s: string): (r: string)
    ensures r == [] || (!IsSpace(r[0]) && !IsSpace(r[|r| - 1]))
  {
    TrimEnd(TrimStart(s))
  }

  // ---------------------------------------------------------------------------
  // findLvars: a scanner for the global regex /\?[a-zA-Z_][a-zA-Z0-9_]*/g
  // ---------------------------------------------------------------------------

  /** The end of the longest run of identifier characters starting at `k`. */
  function IdentEnd(s: string, k: nat): (r: nat)
    requires k <= |s|
    ensures k <= r <= |s|
    ensures forall i :: k <= i < r ==> IsIdentChar(s[i])
    ensures r == |s| || !IsIdentChar(s[r])
    decreases |s| - k
  {
    if k < |s| && IsIdentChar(s[k]) then IdentEnd(s, k + 1) else k
  }

  /** A match of the logic-variable regex can start at `k`. */
  predicate LvarAt(s: string, k: int)
  {
    0 <= k && k + 1 < |s| && s[k] == '?' && IsIdentStart(s[k + 1])
  }

  predicate HasLvar(s: string)
  {
    exists k :: 0 <= k < |s| && LvarAt(s, k)
  }

  /** `?v` occurs at position `k` of `s`. */
  predicate OccursAt(s: string, k: int, v: string)
  {
    0 <= k && k + 1 + |v| <= |s| && s[k] == '?' && s[k + 1..k + 1 + |v|] == v
  }

  /** The positions at or after `i` where a match of the regex starts, ascending. A
      match never covers another `?`, so every such position starts a match. */
  function LvarPositions(s: string, i: nat): (ps: seq<nat>)
    requires i <= |s|
    ensures forall k :: k in ps <==> i <= k && LvarAt(s, k)
    ensures forall a, b :: 0 <= a < b < |ps| ==> ps[a] < ps[b]
    decreases |s| - i
  {
    if i == |s| then []
    else
      var rest := LvarPositions(s, i + 1);
      if LvarAt(s, i) then
        var ps := [i] + rest;
        assert forall a, b :: 0 <= a < b < |ps| ==> ps[a] < ps[b] by {
          forall a, b | 0 <= a < b < |ps| ensures ps[a] < ps[b] {
            assert ps[b] == rest[b - 1] && rest[b - 1] in rest;
            if a > 0 {
              assert ps[a] == rest[a - 1];
            }
          }
        }
        ps
      else rest
  }

  /** The match starting at position `k`, as long as possible, without its `?`. */
  function MatchAt(s: string, k: nat): string
    requires LvarAt(s, k)
  {
    s[k + 1..IdentEnd(s, k + 2)]
  }

  function MatchesAt(s: string, ps: seq<nat>): (r: seq<string>)
    requires forall k :: k in ps ==> LvarAt(s, k)
  {
    seq(|ps|, j requires 0 <= j < |ps| => MatchAt(s, ps[j]))
  }

  /** Positions without a match start do not change the positions found after them. */
  lemma {:induction false} LvarPositionsSkip(s: string, a: nat, b: nat)
    requires a <= b <= |s|
    requires forall k :: a <= k < b ==> !LvarAt(s, k)
    ensures LvarPositions(s, a) == LvarPositions(s, b)
    decreases b - a
  {
    if a < b {
      assert !LvarAt(s, a);
      LvarPositionsSkip(s, a + 1, b);
    }
  }

  /** The matches of the logic-variable regex in `s[i..]`, left to right, each taken as
      long as possible, scanning on after the end of each match; the `?` is dropped. */
  function Scan(s: string, i: nat): (r: seq<string>)
    requires i <= |s|
    ensures forall v :: v in r ==> IsIdent(v)
    ensures forall v :: v in r ==> exists k :: i <= k && OccursAt(s, k, v)
    decreases |s| - i
  {
    if i + 1 >= |s| then []
    else if s[i] == '?' && IsIdentStart(s[i + 1]) then
      var j := IdentEnd(s, i + 2);
      assert OccursAt(s, i, s[i + 1..j]);
      [s[i + 1..j]] + Scan(s, j)
    else Scan(s, i + 1)
  }

  /** The scan returns the match at every position where one can start, in order:
      a match never covers another `?`, so none is skipped. */
  lemma {:induction false} ScanMatches(s: string, i: nat)
    requires i <= |s|
    ensures Scan(s, i) == MatchesAt(s, LvarPositions(s, i))
    decreases |s| - i
  {
    if i + 1 >= |s| {
      assert forall k :: i <= k < |s| ==> !LvarAt(s, k);
      LvarPositionsSkip(s, i, |s|);
    } else if s[i] == '?' && IsIdentStart(s[i + 1]) {
      var j := IdentEnd(s, i + 2);
      assert Scan(s, i) == [MatchAt(s, i)] + Scan(s, j);
      ScanMatches(s, j);
      forall k | i + 1 <= k < j ensures !LvarAt(s, k) {
        assert IsIdentChar(s[k]);
      }
      LvarPositionsSkip(s, i + 1, j);
      MatchesAtCons(s, i, LvarPositions(s, j));
    } else {
      assert Scan(s, i) == Scan(s, i + 1);
      ScanMatches(s, i + 1);
      assert !LvarAt(s, i);
      LvarPositionsSkip(s, i, i + 1);
    }
  }

  lemma MatchesAtCons(s: string, k: nat, ps: seq<nat>)
    requires LvarAt(s, k) && forall p :: p in ps ==> LvarAt(s, p)
    ensures MatchesAt(s, [k] + ps) == [MatchAt(s, k)] + MatchesAt(s, ps)
  {
    assert forall j :: 0 < j <= |ps| ==> ([k] + ps)[j] == ps[j - 1];
  }

  /** The scan finds nothing exactly when no match can start at or after `i`. */
  lemma {:induction false} ScanEmptyIff(s: string, i: nat)
    requires i <= |s|
    ensures Scan(s, i) == [] <==> forall k :: i <= k ==> !LvarAt(s, k)
    decreases |s| - i
  {
    if i + 1 >= |s| {
      assert forall k :: i <= k ==> !LvarAt(s, k);
    } else if s[i] == '?' && IsIdentStart(s[i + 1]) {
      assert LvarAt(s, i);
    } else {
      ScanEmptyIff(s, i + 1);
      assert !LvarAt(s, i);
      assert (forall k :: i <= k ==> !LvarAt(s, k)) <==> (forall k :: i + 1 <= k ==> !LvarAt(s, k));
    }
  }

  datatype FeltError =
    /** `String.match` found nothing and returned `null`, which has no `map`. */
    NoLogicVariables(text: string)

  /** `findLvars`: every `?identifier` of `s`, in order, each as long as possible, with
      the `?` stripped; a string without one is an error. */
  function FindLvars(s: string): (r: Result<seq<string>, FeltError>)
    ensures r.Err? <==> !HasLvar(s)
    ensures r.Ok? ==> |r.value| > 0
    ensures r.Ok? ==> forall v :: v in r.value ==> IsIdent(v) && exists k :: OccursAt(s, k, v)
    ensures r.Ok? ==> r.value == MatchesAt(s, LvarPositions(s, 0))
    ensures r.Ok? ==> forall k: nat :: LvarAt(s, k) ==> MatchAt(s, k) in r.value
    ensures r.Ok? ==> forall v :: v in r.value ==> exists k: nat :: LvarAt(s, k) && v == MatchAt(s, k)
  {
    ScanEmptyIff(s, 0);
    ScanMatches(s, 0);
    MatchesAtPositions(s, 0);
    var found := Scan(s, 0);
    if found == [] then Err(NoLogicVariables(s)) else Ok(found)
  }

  /** Every position where a match starts contributes its match, and nothing else
      is listed. */
  lemma MatchesAtPositions(s: string, i: nat)
    requires i <= |s|
    ensures forall k: nat :: i <= k && LvarAt(s, k) ==> MatchAt(s, k) in MatchesAt(s, LvarPositions(s, i))
    ensures forall v :: v in MatchesAt(s, LvarPositions(s, i)) ==>
      exists k: nat :: i <= k && LvarAt(s, k) && v == MatchAt(s, k)
  {
    var ps := LvarPositions(s, i);
    var ms := MatchesAt(s, ps);
    forall k: nat | i <= k && LvarAt(s, k) ensures MatchAt(s, k) in ms {
      var j :| 0 <= j < |ps| && ps[j] == k;
      assert ms[j] == MatchAt(s, k);
    }
    forall v | v in ms ensures exists k: nat :: i <= k && LvarAt(s, k) && v == MatchAt(s, k) {
      var j :| 0 <= j < |ms| && ms[j] == v;
      assert ps[j] in ps;
    }
  }

  // ---------------------------------------------------------------------------
  // quotewrapIfNeeded
  // ---------------------------------------------------------------------------

  /** A prefix that `parseFloat` reads as a number: a digit, a point followed by a
      digit, or `Infinity`. */
  predicate StartsNumber(t: string)
  {
    || (|t| > 0 && IsDigit(t[0]))
    || (|t| > 1 && t[0] == '.' && IsDigit(t[1]))
    || (|t| >= 8 && t[..8] == "Infinity")
  }

  /** `!Number.isNaN(parseFloat(part))`: after leading whitespace and an optional sign,
      the text starts like a decimal literal. */
  predicate ParsesAsNumber(part: string)
  {
    var t := TrimStart(part);
    if |t| > 0 && (t[0] == '+' || t[0] == '-') then StartsNumber(t[1..]) else StartsNumber(t)
  }

  predicate IsReservedLiteral(part: string)
  {
    part == "true" || part == "false" || part == "nil"
  }

  predicate IsQuoted(part: string)
  {
    |part| >= 2 && part[0] == '"' && part[|part| - 1] == '"'
  }

  /** The four kinds of token that go into a query unchanged. */
  predicate KeptAsIs(part: string)
  {
    (|part| > 0 && part[0] == '?') || IsReservedLiteral(part) || ParsesAsNumber(part) || IsQuoted(part)
  }

  /** `quotewrapIfNeeded`: a token is left alone exactly when it is a logic variable,
      a reserved literal, a number or already quoted; any other token is wrapped in
      double quotes, and the result is always a token that is left alone. */
  function QuotewrapIfNeeded(part: string): (r: string)
    ensures r == part <==> KeptAsIs(part)
    ensures !KeptAsIs(part) ==> r == "\"" + part + "\""
    ensures KeptAsIs(r)
  {
    if |part| > 0 && part[0] == '?' then part
    else if IsReservedLiteral(part) then part
    else if ParsesAsNumber(part) then part
    else if |part| >= 2 && part[0] == '"' && part[|part| - 1] == '"' then part
    else "\"" + part + "\""
  }

  /** Wrapping twice is wrapping once. */
  lemma QuotewrapIdempotent(part: string)
    ensures QuotewrapIfNeeded(QuotewrapIfNeeded(part)) == QuotewrapIfNeeded(part)
  {
  }

  /** Wrapping adds no whitespace and never produces an empty token. */
  lemma QuotewrapKeepsToken(part: string)
    requires |part| > 0 && SpaceFree(part)
    ensures |QuotewrapIfNeeded(part)| > 0 && SpaceFree(QuotewrapIfNeeded(part))
  {
    if !KeptAsIs(part) {
      WrapKeepsSpaceFree(part);
    }
  }

  lemma WrapKeepsSpaceFree(part: string)
    requires SpaceFree(part)
    ensures SpaceFree("\"" + part + "\"")
  {
    var r := "\"" + part + "\"";
    forall k | 0 <= k < |r| ensures !IsSpace(r[k]) {
      if 0 < k < |r| - 1 {
        assert r[k] == part[k - 1];
      }
    }
  }

  function QuotewrapAll(parts: seq<string>): (r: seq<string>)
    ensures |r| == |parts|
    ensures forall i :: 0 <= i < |parts| ==> r[i] == QuotewrapIfNeeded(parts[i])
  {
    if parts == [] then [] else [QuotewrapIfNeeded(parts[0])] + QuotewrapAll(parts[1..])
  }

  // ---------------------------------------------------------------------------
  // split(/\s+/) and join
  // ---------------------------------------------------------------------------

  /** The first whitespace position at or after `k`, or `|s|`. */
  function FirstSpace(s: string, k: nat): (r: nat)
    requires k <= |s|
    ensures k <= r <= |s|
    ensures forall i :: k <= i < r ==> !IsSpace(s[i])
    ensures r == |s| || IsSpace(s[r])
    decreases |s| - k
  {
    if k < |s| && !IsSpace(s[k]) then FirstSpace(s, k + 1) else k
  }

  /** The end of the whitespace run that starts at `k`. */
  function SpaceEnd(s: string, k: nat): (r: nat)
    requires k <= |s|
    ensures k <= r <= |s|
    ensures forall i :: k <= i < r ==> IsSpace(s[i])
    ensures r == |s| || !IsSpace(s[r])
    decreases |s| - k
  {
    if k < |s| && IsSpace(s[k]) then SpaceEnd(s, k + 1) else k
  }

  /** `s.split(/\s+/)`: the pieces between maximal whitespace runs, with an empty piece
      before a leading run or after a trailing one. */
  function SplitWs(s: string): (r: seq<string>)
    ensures |r| >= 1
    ensures forall i :: 0 <= i < |r| ==> SpaceFree(r[i])
    decreases |s|
  {
    var i := FirstSpace(s, 0);
    if i == |s| then [s] else [s[..i]] + SplitWs(s[SpaceEnd(s, i)..])
  }

  /** `parts.join(sep)`. */
  function Join(parts: seq<string>, sep: string): string
  {
    if |parts| == 0 then "" else if |parts| == 1 then parts[0] else parts[0] + sep + Join(parts[1..], sep)
  }

  lemma {:induction false} JoinStartsWith(parts: seq<string>, sep: string)
    requires |parts| >= 1
    ensures |Join(parts, sep)| >= |parts[0]| && Join(parts, sep)[..|parts[0]|] == parts[0]
  {
  }

  /** Splitting a space-joined list of non-empty, whitespace-free tokens gives the
      tokens back. */
  lemma {:induction false} SplitJoin(ts: seq<string>)
    requires |ts| >= 1
    requires forall i :: 0 <= i < |ts| ==> |ts[i]| > 0 && SpaceFree(ts[i])
    ensures SplitWs(Join(ts, " ")) == ts
    decreases |ts|
  {
    var s := Join(ts, " ");
    var n := |ts[0]|;
    if |ts| == 1 {
      assert FirstSpace(s, 0) == |s|;
    } else {
      var rest := Join(ts[1..], " ");
      assert s == ts[0] + " " + rest;
      assert s[n] == ' ';
      var i := FirstSpace(s, 0);
      assert forall k :: 0 <= k < n ==> s[k] == ts[0][k];
      assert i == n;
      JoinStartsWith(ts[1..], " ");
      assert |rest| >= 1 && rest[0] == ts[1][0];
      assert SpaceEnd(s, n) == n + 1 by {
        assert SpaceEnd(s, n + 1) == n + 1;
      }
      assert s[n + 1..] == rest;
      assert s[..n] == ts[0];
      SplitJoin(ts[1..]);
    }
  }

  /** A trimmed, non-empty string splits into non-empty tokens. */
  lemma {:induction false} SplitTrimmedTokens(s: string)
    requires s != [] && !IsSpace(s[0]) && !IsSpace(s[|s| - 1])
    ensures forall i :: 0 <= i < |SplitWs(s)| ==> |SplitWs(s)[i]| > 0
    decreases |s|
  {
    var i := FirstSpace(s, 0);
    if i < |s| {
      assert i > 0 && i < |s| - 1;
      var j := SpaceEnd(s, i);
      assert !IsSpace(s[|s| - 1]);
      assert j <= |s| - 1;
      var rest := s[j..];
      assert rest[0] == s[j] && rest[|rest| - 1] == s[|s| - 1];
      SplitTrimmedTokens(rest);
      assert SplitWs(s) == [s[..i]] + SplitWs(rest);
    }
  }

  // ---------------------------------------------------------------------------
  // parseSiftingPatternClause
  // ---------------------------------------------------------------------------

  datatype Clause = Clause(clauseStr: string, lvars: seq<string>, original: string)

  /** `parts[0].substring(1)`: the head symbol of a `(`-headed clause. */
  function ClauseHead(parts: seq<string>): string
    requires |parts| >= 1
  {
    if |parts[0]| >= 1 then parts[0][1..] else ""
  }

  predicate IsComplex(line: string)
  {
    |line| > 0 && line[0] == '('
  }

  /** A clause headed `(or`, `(not` or `(not-join`, whose variables stay local. */
  predicate IsExclusionary(line: string)
  {
    IsComplex(line) && ClauseHead(SplitWs(line)) in ["or", "not", "not-join"]
  }

  /** `parseSiftingPatternClause`. It fails exactly when the trimmed line holds no
      logic variable; otherwise its variables are listed once each and in order,
      except that an exclusionary clause exports none. */
  function ParseClause(line: string): (r: Result<Clause, FeltError>)
    ensures r.Ok? <==> HasLvar(Trim(line))
    ensures r.Ok? ==> r.value.original == Trim(line) && NoDuplicates(r.value.lvars)
    ensures r.Ok? && IsExclusionary(Trim(line)) ==> r.value.lvars == []
    ensures r.Ok? && !IsExclusionary(Trim(line)) ==>
      forall v :: v in r.value.lvars <==> v in FindLvars(Trim(line)).value
    ensures r.Ok? && !IsExclusionary(Trim(line)) ==> r.value.lvars == Distinct(FindLvars(Trim(line)).value)
  {
    var t := Trim(line);
    var found := FindLvars(t);
    if found.Err? then Err(found.error)
    else
      var lvars := Distinct(found.value);
      var parts := SplitWs(t);
      if IsComplex(t) then
        if ClauseHead(parts) in ["or", "not", "not-join"] then Ok(Clause(t, [], t))
        else Ok(Clause("[" + t + "]", lvars, t))
      else
        Ok(Clause("[" + Join(QuotewrapAll(parts), " ") + "]", lvars, t))
  }

  /** The three forms a clause string takes: an exclusionary clause passes through
      as is, any other `(`-headed clause is bracketed verbatim, and a simple clause
      is bracketed after quote-wrapping each of its tokens, which keeps the token
      count whatever it is (more than three tokens is only a warning). */
  lemma ParseClauseForms(line: string)
    requires HasLvar(Trim(line))
    ensures var t, c := Trim(line), ParseClause(line).value;
      && (IsExclusionary(t) ==> c.clauseStr == t)
      && (IsComplex(t) && !IsExclusionary(t) ==> c.clauseStr == "[" + t + "]")
      && (!IsComplex(t) ==>
            && |c.clauseStr| >= 2 && c.clauseStr[0] == '[' && c.clauseStr[|c.clauseStr| - 1] == ']'
            && SplitWs(c.clauseStr[1..|c.clauseStr| - 1]) == QuotewrapAll(SplitWs(t))
            && |SplitWs(c.clauseStr[1..|c.clauseStr| - 1])| == |SplitWs(t)|)
  {
    var t := Trim(line);
    if !IsComplex(t) {
      var parts := SplitWs(t);
      assert t != [] by { assert !HasLvar([]); }
      SplitTrimmedTokens(t);
      var wrapped := QuotewrapAll(parts);
      forall i | 0 <= i < |wrapped| ensures |wrapped[i]| > 0 && SpaceFree(wrapped[i]) {
        QuotewrapKeepsToken(parts[i]);
      }
      SplitJoin(wrapped);
      var inner := Join(wrapped, " ");
      var c := "[" + inner + "]";
      assert c[1..|c| - 1] == inner;
    }
  }

  // ---------------------------------------------------------------------------
  // parseSiftingPattern
  // ---------------------------------------------------------------------------

  datatype Pattern = Pattern(lvars: seq<string>, clauses: seq<Clause>, query: string,
                             findPart: string, wherePart: string)

  /** `xs.map(f)` where `f` may throw: the first failure propagates. */
  function MapOrFail<A, B, E>(f: A -> Result<B, E>, xs: seq<A>): Result<seq<B>, E>
  {
    if xs == [] then Ok([])
    else
      match f(xs[0])
      case Err(e) => Err(e)
      case Ok(y) =>
        match MapOrFail(f, xs[1..])
        case Err(e) => Err(e)
        case Ok(ys) => Ok([y] + ys)
  }

  /** The map succeeds exactly when `f` succeeds on every element, and then holds
      `f`'s results in order. */
  lemma {:induction false} MapOrFailEach<A, B, E>(f: A -> Result<B, E>, xs: seq<A>)
    ensures MapOrFail(f, xs).Ok? <==> forall i :: 0 <= i < |xs| ==> f(xs[i]).Ok?
    ensures MapOrFail(f, xs).Ok? ==> |MapOrFail(f, xs).value| == |xs|
    ensures MapOrFail(f, xs).Ok? ==> forall i :: 0 <= i < |xs| ==> f(xs[i]) == Ok(MapOrFail(f, xs).value[i])
  {
    if xs != [] {
      MapOrFailEach(f, xs[1..]);
      assert forall i :: 1 <= i < |xs| ==> xs[i] == xs[1..][i - 1];
    }
  }

  /** `lines.map(parseSiftingPatternClause)`: a line without a logic variable makes
      `findLvars` throw, which aborts the whole pattern. */
  function ParseClauses(lines: seq<string>): Result<seq<Clause>, FeltError>
  {
    MapOrFail(ParseClause, lines)
  }

  /** The clauses are parsed line by line: all of them parse exactly when every
      line does, and then the i-th clause is the i-th line's. */
  lemma ParseClausesEach(lines: seq<string>)
    ensures ParseClauses(lines).Ok? <==> forall i :: 0 <= i < |lines| ==> ParseClause(lines[i]).Ok?
    ensures ParseClauses(lines).Ok? ==> |ParseClauses(lines).value| == |lines|
    ensures ParseClauses(lines).Ok? ==>
      forall i :: 0 <= i < |lines| ==> ParseClause(lines[i]) == Ok(ParseClauses(lines).value[i])
  {
    MapOrFailEach(ParseClause, lines);
  }

  /** The loop `lvars = lvars.concat(clause.lvars)`. */
  function ConcatLvars(clauses: seq<Clause>): (r: seq<string>)
    ensures forall v :: v in r <==> exists i :: 0 <= i < |clauses| && v in clauses[i].lvars
  {
    if clauses == [] then []
    else
      var init := clauses[..|clauses| - 1];
      assert forall i :: 0 <= i < |init| ==> init[i] == clauses[i];
      ConcatLvars(init) + clauses[|clauses| - 1].lvars
  }

  /** `lvars.map(lvar => "?" + lvar)`. */
  function Prefixed(lvars: seq<string>): (r: seq<string>)
    ensures |r| == |lvars| && forall i :: 0 <= i < |lvars| ==> r[i] == "?" + lvars[i]
  {
    if lvars == [] then [] else ["?" + lvars[0]] + Prefixed(lvars[1..])
  }

  function FindPart(lvars: seq<string>): string
  {
    Join(Prefixed(lvars), " ")
  }

  function ClauseStrs(clauses: seq<Clause>): (r: seq<string>)
    ensures |r| == |clauses| && forall i :: 0 <= i < |clauses| ==> r[i] == clauses[i].clauseStr
  {
    if clauses == [] then [] else [clauses[0].clauseStr] + ClauseStrs(clauses[1..])
  }

  /** `parseSiftingPattern`. It fails exactly when some line has no logic variable.
      Otherwise the exported variables are those of the clauses, each once, in order
      of first occurrence, and the query is the `:find` part over them followed by
      the comma-joined clause strings. */
  function ParsePattern(lines: seq<string>): (r: Result<Pattern, FeltError>)
    ensures r.Ok? <==> forall i :: 0 <= i < |lines| ==> HasLvar(Trim(lines[i]))
    ensures r.Ok? ==> NoDuplicates(r.value.lvars)
    ensures r.Ok? ==> forall v :: v in r.value.lvars <==>
      exists i :: 0 <= i < |r.value.clauses| && v in r.value.clauses[i].lvars
    ensures r.Ok? ==> |r.value.clauses| == |lines|
    ensures r.Ok? ==> forall i :: 0 <= i < |lines| ==> ParseClause(lines[i]) == Ok(r.value.clauses[i])
    ensures r.Ok? ==> r.value.lvars == Distinct(ConcatLvars(r.value.clauses))
    ensures r.Ok? ==> r.value.wherePart == Join(ClauseStrs(r.value.clauses), ",")
    ensures r.Ok? ==> r.value.findPart == FindPart(r.value.lvars)
    ensures r.Ok? ==> (r.value.query ==
      "[:find " + FindPart(r.value.lvars) + " :in $ :where " + Join(ClauseStrs(r.value.clauses), ",") + "]")
  {
    ParseClausesEach(lines);
    match ParseClauses(lines)
    case Err(e) => Err(e)
    case Ok(clauses) =>
      var lvars := Distinct(ConcatLvars(clauses));
      var findPart := FindPart(lvars);
      var wherePart := Join(ClauseStrs(clauses), ",");
      var query := "[:find " + findPart + " :in $ :where " + wherePart + "]";
      Ok(Pattern(lvars, clauses, query, findPart, wherePart))
  }

  /** A variable is exported exactly when it occurs in some clause that is not
      headed `(or`, `(not` or `(not-join`; one that occurs only inside such clauses
      is absent. */
  lemma PatternExports(lines: seq<string>, v: string)
    requires ParsePattern(lines).Ok?
    ensures v in ParsePattern(lines).value.lvars <==>
      exists i :: 0 <= i < |lines| && !IsExclusionary(Trim(lines[i])) && v in FindLvars(Trim(lines[i])).value
  {
    var p := ParsePattern(lines).value;
    var cs := ParseClauses(lines).value;
    ParseClausesEach(lines);
    assert p.clauses == cs;
    if v in p.lvars {
      var i :| 0 <= i < |cs| && v in cs[i].lvars;
      assert ParseClause(lines[i]) == Ok(cs[i]);
      assert !IsExclusionary(Trim(lines[i]));
    }
    if exists i :: 0 <= i < |lines| && !IsExclusionary(Trim(lines[i])) && v in FindLvars(Trim(lines[i])).value {
      var i :| 0 <= i < |lines| && !IsExclusionary(Trim(lines[i])) && v in FindLvars(Trim(lines[i])).value;
      assert ParseClause(lines[i]) == Ok(cs[i]);
      assert v in cs[i].lvars;
    }
  }

  // ---------------------------------------------------------------------------
  // The find part reads back as the exported variables
  // ---------------------------------------------------------------------------

  /** Scanning is insensitive to a prefix before the starting point. */
  lemma {:induction false} ScanShift(p: string, s: string, i: nat)
    requires i <= |s|
    ensures Scan(p + s, |p| + i) == Scan(s, i)
    decreases |s| - i
  {
    var t := p + s;
    if i + 1 < |s| {
      assert t[|p| + i] == s[i] && t[|p| + i + 1] == s[i + 1];
      if s[i] == '?' && IsIdentStart(s[i + 1]) {
        var j := IdentEnd(s, i + 2);
        IdentEndShift(p, s, i + 2);
        assert t[|p| + i + 1..|p| + j] == s[i + 1..j];
        assert Scan(t, |p| + i) == [s[i + 1..j]] + Scan(t, |p| + j);
        ScanShift(p, s, j);
      } else {
        assert Scan(t, |p| + i) == Scan(t, |p| + i + 1);
        ScanShift(p, s, i + 1);
      }
    }
  }

  lemma {:induction false} IdentEndShift(p: string, s: string, k: nat)
    requires k <= |s|
    ensures IdentEnd(p + s, |p| + k) == |p| + IdentEnd(s, k)
    decreases |s| - k
  {
    if k < |s| {
      assert (p + s)[|p| + k] == s[k];
      if IsIdentChar(s[k]) { IdentEndShift(p, s, k + 1); }
    }
  }

  /** A `?` followed by an identifier and then a non-identifier character (or the
      end) scans as that identifier, and scanning resumes right after it. */
  lemma ScanHead(v: string, tail: string)
    requires IsIdent(v)
    requires tail == [] || !IsIdentChar(tail[0])
    ensures Scan("?" + v + tail, 0) == [v] + Scan("?" + v + tail, |v| + 1)
  {
    var s := "?" + v + tail;
    var n := |v| + 1;
    assert forall i :: 1 <= i < n ==> s[i] == v[i - 1];
    var j := IdentEnd(s, 2);
    assert j == n by {
      assert n == |s| || s[n] == tail[0];
    }
    assert s[1..j] == v;
  }

  /** Scanning the `:find` part yields the variables it was built from. */
  lemma {:induction false} ScanFindPart(lvars: seq<string>)
    requires forall v :: v in lvars ==> IsIdent(v)
    ensures Scan(FindPart(lvars), 0) == lvars
    decreases |lvars|
  {
    if lvars == [] {
      assert FindPart(lvars) == "";
    } else {
      var v := lvars[0];
      assert v in lvars;
      var s := FindPart(lvars);
      assert Prefixed(lvars)[0] == "?" + v;
      if |lvars| == 1 {
        assert s == "?" + v + "";
        ScanHead(v, "");
      } else {
        var rest := FindPart(lvars[1..]);
        assert Prefixed(lvars)[1..] == Prefixed(lvars[1..]);
        assert s == "?" + v + (" " + rest);
        ScanHead(v, " " + rest);
        ScanFindPart(lvars[1..]);
        assert s == ("?" + v + " ") + rest;
        ScanShift("?" + v + " ", rest, 0);
        ScanSkip(s, |v| + 1);
      }
    }
  }

  lemma ScanSkip(s: string, i: nat)
    requires i < |s| && s[i] != '?'
    ensures Scan(s, i) == Scan(s, i + 1)
  {
  }

  /** Reading the variables back out of the `:find` part gives the exported list. */
  lemma FindPartRoundTrip(lvars: seq<string>)
    requires |lvars| > 0
    requires forall v :: v in lvars ==> IsIdent(v)
    ensures FindLvars(FindPart(lvars)) == Ok(lvars)
  {
    ScanFindPart(lvars);
  }

  lemma ClauseLvarsAreIdents(line: string)
    requires ParseClause(line).Ok?
    ensures forall v :: v in ParseClause(line).value.lvars ==> IsIdent(v)
  {
  }

  /** A compiled pattern's `:find` part lists exactly its exported variables. */
  lemma PatternFindPart(lines: seq<string>)
    requires ParsePattern(lines).Ok?
    requires |ParsePattern(lines).value.lvars| > 0
    ensures FindLvars(ParsePattern(lines).value.findPart) == Ok(ParsePattern(lines).value.lvars)
  {
    var p := ParsePattern(lines).value;
    var cs := ParseClauses(lines).value;
    ParseClausesEach(lines);
    forall v | v in p.lvars ensures IsIdent(v) {
      var i :| 0 <= i < |cs| && v in cs[i].lvars;
      ClauseLvarsAreIdents(lines[i]);
      assert ParseClause(lines[i]) == Ok(cs[i]);
    }
    FindPartRoundTrip(p.lvars);
  }
}
