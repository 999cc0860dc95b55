/**
  Stage 1 (results/create_team_pairs.py): give every team a strength score,
  rank the teams from strongest to weakest and pair them off two by two as
  PAIR_1, PAIR_2, ... An odd team at the end of the ranking gets no pair.
 */
module TeamPairs {
  import opened Wrappers
  import opened Tables

  // ---------------------------------------------------------------------
  // Normalisation
  // ---------------------------------------------------------------------

  /** A column after `pd.to_numeric(..., errors="coerce").fillna(0)`. */
  function Coerced(col: seq<Cell>): (s: seq<real>)
    ensures |s| == |col|
    ensures forall i :: 0 <= i < |col| ==> s[i] == Coerce(col[i])
  {
    seq(|col|, i requires 0 <= i < |col| => Coerce(col[i]))
  }

  /** The largest element of a non-empty sequence (`Series.max()`). */
  function Max(s: seq<real>): (m: real)
    requires |s| > 0
    ensures forall i :: 0 <= i < |s| ==> s[i] <= m
    ensures exists i :: 0 <= i < |s| && s[i] == m
  {
    if |s| == 1 then s[0]
    else
      var rest := Max(s[1..]);
      assert forall i :: 1 <= i < |s| ==> s[i] == s[1..][i - 1];
      if s[0] >= rest then s[0] else rest
  }

  /** `normalize` (lines 10-19): every value divided by the column maximum;
      when the maximum is 0, or undefined because the column is empty, every
      value becomes 0. */
  function Normalize(col: seq<Cell>): (r: seq<real>)
    ensures |r| == |col|
  {
    var s := Coerced(col);
    if |s| == 0 || Max(s) == 0.0 then seq(|s|, _ => 0.0)
    else seq(|s|, i requires 0 <= i < |s| => s[i] / Max(s))
  }

  /** When the maximum is 0 (say, an all-zero, all-NaN or all-text column, or
      one of zeros and negative values) every normalised value is 0. */
  lemma NormalizeAllZero(col: seq<Cell>)
    requires |col| == 0 || Max(Coerced(col)) == 0.0
    ensures forall i :: 0 <= i < |col| ==> Normalize(col)[i] == 0.0
  {
  }

  /** In particular a column whose values are all 0 after coercion. */
  lemma NormalizeZeroColumn(col: seq<Cell>)
    requires forall i :: 0 <= i < |col| ==> Coerce(col[i]) == 0.0
    ensures forall i :: 0 <= i < |col| ==> Normalize(col)[i] == 0.0
  {
    var s := Coerced(col);
    if |s| > 0 {
      var k :| 0 <= k < |s| && s[k] == Max(s);
      assert Max(s) == 0.0;
    }
    NormalizeAllZero(col);
  }

  /** Otherwise every value is divided by the maximum, so a value equal to the
      maximum normalises to exactly 1. */
  lemma NormalizeMaxIsOne(col: seq<Cell>)
    requires |col| > 0 && Max(Coerced(col)) != 0.0
    ensures forall i :: 0 <= i < |col| ==> Normalize(col)[i] == Coerce(col[i]) / Max(Coerced(col))
    ensures exists i :: 0 <= i < |col| && Normalize(col)[i] == 1.0
  {
    var s := Coerced(col);
    var k :| 0 <= k < |s| && s[k] == Max(s);
    assert Normalize(col)[k] == s[k] / Max(s);
    DivideBySelf(Max(s));
  }

  /** For a column without negative values every normalised value lies in [0, 1]. */
  lemma NormalizeInUnitInterval(col: seq<Cell>)
    requires forall i :: 0 <= i < |col| ==> Coerce(col[i]) >= 0.0
    ensures forall i :: 0 <= i < |col| ==> 0.0 <= Normalize(col)[i] <= 1.0
  {
    var s := Coerced(col);
    if |s| > 0 && Max(s) != 0.0 {
      var m := Max(s);
      var k :| 0 <= k < |s| && s[k] == m;
      assert m > 0.0;
      forall i | 0 <= i < |col|
        ensures 0.0 <= Normalize(col)[i] <= 1.0
      {
        assert Normalize(col)[i] == s[i] / m;
        assert 0.0 <= s[i] <= m;
        DivideWithin(s[i], m);
      }
    }
  }

  lemma DivideBySelf(m: real)
    requires m != 0.0
    ensures m / m == 1.0
  {
  }

  lemma DivideWithin(x: real, m: real)
    requires 0.0 <= x <= m && m > 0.0
    ensures 0.0 <= x / m <= 1.0
  {
    assert x / m * m == x;
  }

  /** A missing or non-numeric entry is read as 0 before the maximum is taken:
      replacing it by an explicit 0 changes nothing. */
  lemma NormalizeMissingIsZero(col: seq<Cell>, i: nat)
    requires i < |col| && col[i] == None
    ensures Normalize(col) == Normalize(col[i := Some(0.0)])
  {
    assert Coerced(col) == Coerced(col[i := Some(0.0)]);
  }

  // ---------------------------------------------------------------------
  // Strength
  // ---------------------------------------------------------------------

  /** Which column the strength score comes from (lines 36-66). */
  datatype StrengthSource = WinPct | AvgPointsFor | Composite

  /** `win_pct` if the summary has it, else `avg_points_for`, else the composite. */
  function SourceFor(columns: set<string>): StrengthSource
  {
    if "win_pct" in columns then WinPct
    else if "avg_points_for" in columns then AvgPointsFor
    else Composite
  }

  /** A component of the composite; a column the summary lacks is added as all
      zeros (lines 49-52). */
  function ComponentColumn(t: TeamTable, column: string): (col: seq<Cell>)
    ensures |col| == |t.rows|
  {
    if column in t.columns then Column(t, column) else seq(|t.rows|, _ => Some(0.0))
  }

  /** `Series.abs()`: NaN stays NaN. */
  function AbsCells(col: seq<Cell>): (r: seq<Cell>)
    ensures |r| == |col|
    ensures forall i :: 0 <= i < |col| ==> Coerce(r[i]) >= 0.0
  {
    seq(|col|, i requires 0 <= i < |col| =>
      match col[i]
      case Some(v) => Some(if v < 0.0 then -v else v)
      case None => None)
  }

  /** The composite strength of lines 59-64:
      0.35 n(total_yards) + 0.30 n(avg_yards_per_play) + 0.25 n(touchdowns) - 0.10 n(|penalties|). */
  function CompositeStrength(t: TeamTable): (r: seq<real>)
    ensures |r| == |t.rows|
  {
    var yards := Normalize(ComponentColumn(t, "total_yards"));
    var perPlay := Normalize(ComponentColumn(t, "avg_yards_per_play"));
    var touchdowns := Normalize(ComponentColumn(t, "touchdowns"));
    var penalties := Normalize(AbsCells(ComponentColumn(t, "penalties")));
    seq(|t.rows|, i requires 0 <= i < |t.rows| =>
      0.35 * yards[i] + 0.30 * perPlay[i] + 0.25 * touchdowns[i] - 0.10 * penalties[i])
  }

  /** The strength of every team, in summary order, after the NaN-to-0
      coercion of line 75. */
  function Strengths(t: TeamTable): (r: seq<real>)
    ensures |r| == |t.rows|
  {
    match SourceFor(t.columns)
    case WinPct => Coerced(Column(t, "win_pct"))
    case AvgPointsFor => Coerced(Column(t, "avg_points_for"))
    case Composite => CompositeStrength(t)
  }

  /** Source precedence: `win_pct` wins whenever present, then `avg_points_for`;
      a missing or non-numeric value of the chosen column scores 0. */
  lemma StrengthPrecedence(t: TeamTable, i: nat)
    requires i < |t.rows|
    ensures "win_pct" in t.columns ==> Strengths(t)[i] == Coerce(CellOf(t.rows[i], "win_pct"))
    ensures "win_pct" !in t.columns && "avg_points_for" in t.columns ==>
              Strengths(t)[i] == Coerce(CellOf(t.rows[i], "avg_points_for"))
    ensures "win_pct" !in t.columns && "avg_points_for" !in t.columns ==>
              Strengths(t)[i] == CompositeStrength(t)[i]
    ensures "win_pct" in t.columns && CellOf(t.rows[i], "win_pct") == None ==> Strengths(t)[i] == 0.0
  {
  }

  predicate NonNegativeColumn(col: seq<Cell>)
  {
    forall i :: 0 <= i < |col| ==> Coerce(col[i]) >= 0.0
  }

  /** With non-negative yards, yards per play and touchdowns (missing columns
      count as zeros) every composite strength lies in [-0.10, 0.90]. */
  lemma CompositeStrengthBounds(t: TeamTable, i: nat)
    requires i < |t.rows|
    requires NonNegativeColumn(ComponentColumn(t, "total_yards"))
    requires NonNegativeColumn(ComponentColumn(t, "avg_yards_per_play"))
    requires NonNegativeColumn(ComponentColumn(t, "touchdowns"))
    ensures -0.10 <= CompositeStrength(t)[i] <= 0.90
  {
    NormalizeInUnitInterval(ComponentColumn(t, "total_yards"));
    NormalizeInUnitInterval(ComponentColumn(t, "avg_yards_per_play"));
    NormalizeInUnitInterval(ComponentColumn(t, "touchdowns"));
    NormalizeInUnitInterval(AbsCells(ComponentColumn(t, "penalties")));
  }

  /** The summary with column `column` added as all zeros, as lines 49-52 do. */
  function WithZeroColumn(t: TeamTable, column: string): TeamTable
  {
    TeamTable(t.columns + {column},
              seq(|t.rows|, i requires 0 <= i < |t.rows| =>
                TeamRow(t.rows[i].team, t.rows[i].stats[column := Some(0.0)])))
  }

  /** A composite component missing from the summary is the same as a column of zeros. */
  lemma MissingComponentIsZero(t: TeamTable, column: string)
    requires column in ["total_yards", "avg_yards_per_play", "touchdowns", "penalties"]
    requires column !in t.columns
    ensures CompositeStrength(t) == CompositeStrength(WithZeroColumn(t, column))
  {
    var z := WithZeroColumn(t, column);
    assert ComponentColumn(t, column) == ComponentColumn(z, column);
    forall c | c in ["total_yards", "avg_yards_per_play", "touchdowns", "penalties"] && c != column
      ensures ComponentColumn(t, c) == ComponentColumn(z, c)
    {
      if c in t.columns {
        assert forall i :: 0 <= i < |t.rows| ==> CellOf(z.rows[i], c) == CellOf(t.rows[i], c);
      }
    }
  }

  // ---------------------------------------------------------------------
  // Ranking
  // ---------------------------------------------------------------------

  /** One row of `team_df` (lines 71-75): a team and its strength. */
  datatype RankedTeam = RankedTeam(team: string, strength: real)

  /** Strongest first: strengths never increase along the sequence. */
  predicate Descending(s: seq<RankedTeam>)
  {
    forall i, j :: 0 <= i < j < |s| ==> s[i].strength >= s[j].strength
  }

  /** Prepending a team at least as strong as the head keeps a sequence descending. */
  lemma DescendingCons(h: RankedTeam, rest: seq<RankedTeam>)
    requires Descending(rest)
    requires rest == [] || h.strength >= rest[0].strength
    ensures Descending([h] + rest)
  {
    var r := [h] + rest;
    forall i, j | 0 <= i < j < |r|
      ensures r[i].strength >= r[j].strength
    {
      if i == 0 && j > 1 {
        assert r[j] == rest[j - 1];
      }
    }
  }

  /** Insert `x` into a descending sequence. */
  function Insert(x: RankedTeam, s: seq<RankedTeam>): (r: seq<RankedTeam>)
    requires Descending(s)
    ensures |r| == |s| + 1
    ensures r[0] == x || (|s| > 0 && r[0] == s[0])
    ensures Descending(r)
    ensures multiset(r) == multiset(s) + multiset{x}
  {
    if s == [] || x.strength >= s[0].strength then
      DescendingCons(x, s);
      [x] + s
    else
      var rest := Insert(x, s[1..]);
      DescendingCons(s[0], rest);
      assert s == [s[0]] + s[1..];
      [s[0]] + rest
  }

  /** `sort_values("strength", ascending=False)`. The contract promises
      descending order and a permutation only: pandas' default sort does not
      promise which of two equally strong teams comes first. */
  function SortByStrength(s: seq<RankedTeam>): (r: seq<RankedTeam>)
    ensures |r| == |s|
    ensures Descending(r)
    ensures multiset(r) == multiset(s)
  {
    if s == [] then []
    else
      assert s == [s[0]] + s[1..];
      Insert(s[0], SortByStrength(s[1..]))
  }

  /** The teams with their strengths, in summary order. */
  function Teams(t: TeamTable): (r: seq<RankedTeam>)
    ensures |r| == |t.rows|
  {
    var strengths := Strengths(t);
    seq(|t.rows|, i requires 0 <= i < |t.rows| => RankedTeam(t.rows[i].team, strengths[i]))
  }

  /** `team_df` after the sort of line 78. */
  function Ranking(t: TeamTable): (r: seq<RankedTeam>)
    ensures |r| == |t.rows|
  {
    SortByStrength(Teams(t))
  }

  /** The ranking is a strongest-first permutation of the summary's teams. */
  lemma RankingIsSortedPermutation(t: TeamTable)
    ensures Descending(Ranking(t))
    ensures multiset(Ranking(t)) == multiset(Teams(t))
    ensures forall k :: 0 <= k < |Ranking(t)| ==> exists i :: 0 <= i < |t.rows| && Ranking(t)[k] == RankedTeam(t.rows[i].team, Strengths(t)[i])
  {
    var r := Ranking(t);
    forall k | 0 <= k < |r|
      ensures exists i :: 0 <= i < |t.rows| && r[k] == RankedTeam(t.rows[i].team, Strengths(t)[i])
    {
      assert r[k] in multiset(Teams(t));
      var i :| 0 <= i < |Teams(t)| && Teams(t)[i] == r[k];
    }
  }

  // ---------------------------------------------------------------------
  // Pair identifiers
  // ---------------------------------------------------------------------

  function DigitChar(d: nat): (c: char)
    requires d < 10
    ensures '0' <= c <= '9'
  {
    "0123456789"[d]
  }

  predicate IsDigits(s: string)
  {
    forall i :: 0 <= i < |s| ==> '0' <= s[i] <= '9'
  }

  /** `str(n)` for a natural number: its decimal digits, no leading zeros. */
  function NatToString(n: nat): (s: string)
    ensures |s| > 0 && IsDigits(s)
    ensures n >= 10 ==> |s| >= 2
    ensures s[0] == '0' ==> n == 0
  {
    if n < 10 then [DigitChar(n)] else NatToString(n / 10) + [DigitChar(n % 10)]
  }

  /** The value of a string of decimal digits. */
  function DecimalValue(s: string): nat
    requires IsDigits(s)
  {
    if s == [] then 0
    else DecimalValue(s[..|s| - 1]) * 10 + (s[|s| - 1] as int - '0' as int)
  }

  /** Reading back the digits of `NatToString(n)` gives `n`. */
  lemma {:induction false} DecimalRoundTrip(n: nat)
    ensures DecimalValue(NatToString(n)) == n
  {
    if n >= 10 {
      DecimalRoundTrip(n / 10);
      var s := NatToString(n);
      assert s[..|s| - 1] == NatToString(n / 10);
    }
  }

  /** `f"PAIR_{k}"`. */
  function PairId(k: nat): string
  {
    "PAIR_" + NatToString(k)
  }

  /** Different counters give different pair identifiers. */
  lemma PairIdInjective(a: nat, b: nat)
    requires PairId(a) == PairId(b)
    ensures a == b
  {
    assert PairId(a)[5..] == NatToString(a);
    assert PairId(b)[5..] == NatToString(b);
    DecimalRoundTrip(a);
    DecimalRoundTrip(b);
  }

  // ---------------------------------------------------------------------
  // Pairing
  // ---------------------------------------------------------------------

  /** One row of the pair table written at line 120. */
  datatype Pair = Pair(pairId: string, teamA: string, teamB: string, teamAStrength: real, teamBStrength: real)

  datatype PairingError =
    | MissingTeamColumn   // line 33: no OffenseTeam column
    | TooFewTeams         // line 88: fewer than two teams

  /** Pair number k (from 0) takes ranking positions 2k and 2k+1 and is called PAIR_{k+1}. */
  function PairAt(ranked: seq<RankedTeam>, k: nat): Pair
    requires 2 * k + 1 < |ranked|
  {
    Pair(PairId(k + 1), ranked[2 * k].team, ranked[2 * k + 1].team,
         ranked[2 * k].strength, ranked[2 * k + 1].strength)
  }

  /** `pairs` is what the loop of lines 93-108 emits for `ranked`: floor(n/2)
      pairs, pair k made of ranking positions 2k and 2k+1. */
  predicate IsPairingOf(pairs: seq<Pair>, ranked: seq<RankedTeam>)
  {
    && |pairs| == |ranked| / 2
    && forall k :: 0 <= k < |pairs| ==> 2 * k + 1 < |ranked| && pairs[k] == PairAt(ranked, k)
  }

  /** Lines 84-108: fail with fewer than two teams, otherwise stride through
      the ranking in steps of two. */
  method PairUp(ranked: seq<RankedTeam>) returns (r: Result<seq<Pair>, PairingError>)
    ensures r.Failure? <==> |ranked| < 2
    ensures r.Failure? ==> r.error == TooFewTeams
    ensures r.Success? ==> IsPairingOf(r.value, ranked)
  {
    var numTeams := |ranked|;
    if numTeams < 2 {
      return Failure(TooFewTeams);
    }
    var pairs: seq<Pair> := [];
    var pairId := 1;
    var i := 0;
    while i < numTeams - 1
      invariant 0 <= i <= numTeams && i % 2 == 0
      invariant |pairs| == i / 2 && pairId == |pairs| + 1
      invariant forall k :: 0 <= k < |pairs| ==> 2 * k + 1 < numTeams && pairs[k] == PairAt(ranked, k)
    {
      var teamA := ranked[i];
      var teamB := ranked[i + 1];
      pairs := pairs + [Pair(PairId(pairId), teamA.team, teamB.team, teamA.strength, teamB.strength)];
      pairId := pairId + 1;
      i := i + 2;
    }
    return Success(pairs);
  }

  /** `main` of results/create_team_pairs.py without the file I/O. The pairs
      are those of some strongest-first ordering of the teams; which of two
      equally strong teams comes first is not promised. */
  method CreateTeamPairs(t: TeamTable) returns (r: Result<seq<Pair>, PairingError>)
    ensures "OffenseTeam" !in t.columns ==> r == Failure(MissingTeamColumn)
    ensures "OffenseTeam" in t.columns && |t.rows| < 2 ==> r == Failure(TooFewTeams)
    ensures "OffenseTeam" in t.columns && |t.rows| >= 2 ==>
              r.Success? &&
              exists ranked :: Descending(ranked) && multiset(ranked) == multiset(Teams(t)) && IsPairingOf(r.value, ranked)
  {
    if "OffenseTeam" !in t.columns {
      return Failure(MissingTeamColumn);
    }
    var ranked := Ranking(t);
    RankingIsSortedPermutation(t);
    r := PairUp(ranked);
  }

  /** Within a pair the first team is at least as strong as the second, and the
      pairs come strongest first. */
  lemma PairStrengthsOrdered(pairs: seq<Pair>, ranked: seq<RankedTeam>)
    requires IsPairingOf(pairs, ranked) && Descending(ranked)
    ensures forall k :: 0 <= k < |pairs| ==> pairs[k].teamAStrength >= pairs[k].teamBStrength
    ensures forall k, l :: 0 <= k < l < |pairs| ==> pairs[k].teamBStrength >= pairs[l].teamAStrength
  {
    forall k, l | 0 <= k < l < |pairs|
      ensures pairs[k].teamBStrength >= pairs[l].teamAStrength
    {
      assert 2 * k + 1 < 2 * l;
      assert pairs[l] == PairAt(ranked, l);
    }
  }

  /** No two pairs share an identifier. */
  lemma PairIdsDistinct(pairs: seq<Pair>, ranked: seq<RankedTeam>)
    requires IsPairingOf(pairs, ranked)
    ensures forall k, l :: 0 <= k < l < |pairs| ==> pairs[k].pairId != pairs[l].pairId
  {
    forall k, l | 0 <= k < l < |pairs|
      ensures pairs[k].pairId != pairs[l].pairId
    {
      if pairs[k].pairId == pairs[l].pairId {
        PairIdInjective(k + 1, l + 1);
      }
    }
  }

  /** The teams of the pairs, in order: A1, B1, A2, B2, ... */
  function PairedTeams(pairs: seq<Pair>): (r: seq<string>)
    ensures |r| == 2 * |pairs|
  {
    if pairs == [] then [] else [pairs[0].teamA, pairs[0].teamB] + PairedTeams(pairs[1..])
  }

  /** The team left without a pair (line 111): the last one when the count is odd. */
  function Leftover(ranked: seq<RankedTeam>): seq<string>
  {
    if |ranked| % 2 == 1 then [ranked[|ranked| - 1].team] else []
  }

  function Names(ranked: seq<RankedTeam>): (r: seq<string>)
    ensures |r| == |ranked|
  {
    seq(|ranked|, i requires 0 <= i < |ranked| => ranked[i].team)
  }

  lemma {:induction false} PairedTeamsAt(pairs: seq<Pair>, i: nat)
    requires i < 2 * |pairs|
    ensures PairedTeams(pairs)[i] == if i % 2 == 0 then pairs[i / 2].teamA else pairs[i / 2].teamB
  {
    if i >= 2 {
      PairedTeamsAt(pairs[1..], i - 2);
    }
  }

  /** Paired team i is ranking position i. */
  lemma {:induction false} PairedTeamIsRanked(pairs: seq<Pair>, ranked: seq<RankedTeam>, i: nat)
    requires IsPairingOf(pairs, ranked) && i < 2 * |pairs|
    ensures PairedTeams(pairs)[i] == ranked[i].team
  {
    var k := i / 2;
    assert i == 2 * k + i % 2;
    PairedTeamsAt(pairs, i);
    assert pairs[k] == PairAt(ranked, k);
  }

  /** Every ranked team is used exactly once: the paired teams in order,
      followed by the leftover, are the ranking itself. So with an even count
      every team is paired, and with an odd count only the weakest-ranked last
      team is not. */
  lemma PairingPartitionsRanking(pairs: seq<Pair>, ranked: seq<RankedTeam>)
    requires IsPairingOf(pairs, ranked)
    ensures PairedTeams(pairs) + Leftover(ranked) == Names(ranked)
    ensures |ranked| % 2 == 0 ==> PairedTeams(pairs) == Names(ranked)
  {
    var flat := PairedTeams(pairs) + Leftover(ranked);
    assert |flat| == |ranked|;
    forall i | 0 <= i < |ranked|
      ensures flat[i] == Names(ranked)[i]
    {
      if i < 2 * |pairs| {
        PairedTeamIsRanked(pairs, ranked, i);
      } else {
        assert flat[i] == Leftover(ranked)[0];
      }
    }
  }

  /** When team names are distinct, no team is in two pairs and no pair
      matches a team with itself. */
  lemma PairsDisjoint(pairs: seq<Pair>, ranked: seq<RankedTeam>)
    requires IsPairingOf(pairs, ranked)
    requires forall i, j :: 0 <= i < j < |ranked| ==> ranked[i].team != ranked[j].team
    ensures forall k :: 0 <= k < |pairs| ==> pairs[k].teamA != pairs[k].teamB
    ensures forall k, l :: 0 <= k < l < |pairs| ==>
              && pairs[k].teamA != pairs[l].teamA && pairs[k].teamA != pairs[l].teamB
              && pairs[k].teamB != pairs[l].teamA && pairs[k].teamB != pairs[l].teamB
  {
    forall k, l | 0 <= k < l < |pairs|
      ensures && pairs[k].teamA != pairs[l].teamA && pairs[k].teamA != pairs[l].teamB
              && pairs[k].teamB != pairs[l].teamA && pairs[k].teamB != pairs[l].teamB
    {
      assert 2 * k + 1 < 2 * l;
      assert pairs[l] == PairAt(ranked, l);
    }
  }

  /** The pair table as the later stages read it back from CSV. */
  function PairsTableOf(pairs: seq<Pair>): PairsTable
  {
    PairsTable({"pair_id", "teamA", "teamB", "teamA_strength", "teamB_strength"},
               seq(|pairs|, k requires 0 <= k < |pairs| => PairRow(pairs[k].pairId, pairs[k].teamA, pairs[k].teamB)))
  }
}
