/**
  Stage 2 (code/generate_prompts_for_llm.py): check the columns of the team
  summary and the pair table, then emit two prompt records for every pair
  whose two teams both have statistics.

  The wording of the prompts and `describe_team`'s number formatting are not
  modelled: `describe` stands for `describe_team` and `compose` for the two
  prompt templates, both as functions the caller supplies.
 */
module Prompts {
  import opened Wrappers
  import opened Tables

  /** Lines 18-22. */
  const RequiredTeamColumns: seq<string> := ["OffenseTeam"] + FeatureColumns

  /** Line 28. */
  const RequiredPairColumns: seq<string> := ["pair_id", "teamA", "teamB"]

  datatype PromptType = BetterOffense | StyleComparison

  /** The `prompt_type` value written for each kind of prompt. */
  function PromptTypeName(p: PromptType): string
  {
    match p
    case BetterOffense => "better_offense"
    case StyleComparison => "style_comparison"
  }

  /** One line of results/prompts_for_llm.jsonl. */
  datatype PromptRecord = PromptRecord(pairId: string, promptType: PromptType, teamA: string, teamB: string, prompt: string)

  datatype PromptError =
    | MissingTeamColumns(columns: seq<string>)   // line 26
    | MissingPairColumns(columns: seq<string>)   // line 31

  /** What the script reports besides the records. */
  datatype PromptBatch = PromptBatch(records: seq<PromptRecord>, numPairs: nat, numPrompts: nat)

  /** `describe_team(name, row)`. */
  type Describer = (string, TeamRow) -> string

  /** The prompt template of each kind, applied to the two team descriptions. */
  type Composer = (PromptType, string, string) -> string

  /** `team_lookup` (line 50): team name to row, a later row with the same name
      replacing an earlier one. */
  function TeamLookup(rows: seq<TeamRow>): (m: map<string, TeamRow>)
    ensures forall i :: 0 <= i < |rows| ==> rows[i].team in m
    ensures forall name :: name in m ==> exists i :: 0 <= i < |rows| && rows[i].team == name
  {
    if rows == [] then map[]
    else
      var init := rows[..|rows| - 1];
      var last := rows[|rows| - 1];
      assert forall i :: 0 <= i < |init| ==> init[i] == rows[i];
      TeamLookup(init)[last.team := last]
  }

  /** With duplicate names the last row of that name is the one kept. */
  lemma {:induction false} LookupLastRowWins(rows: seq<TeamRow>, i: nat)
    requires i < |rows|
    requires forall j :: i < j < |rows| ==> rows[j].team != rows[i].team
    ensures TeamLookup(rows)[rows[i].team] == rows[i]
  {
    if i < |rows| - 1 {
      var init := rows[..|rows| - 1];
      assert forall j :: i < j < |init| ==> init[j] == rows[j];
      LookupLastRowWins(init, i);
    }
  }

  /** Line 61: both teams of the pair have statistics. */
  predicate Known(pair: PairRow, lookup: map<string, TeamRow>)
  {
    pair.teamA in lookup && pair.teamB in lookup
  }

  /** The pairs that the loop does not skip, in input order. */
  function KeptPairs(rows: seq<PairRow>, lookup: map<string, TeamRow>): (kept: seq<PairRow>)
    ensures |kept| <= |rows|
    ensures forall p :: p in kept <==> p in rows && Known(p, lookup)
    ensures SubsequenceOf(kept, rows)
  {
    if rows == [] then []
    else
      assert forall p :: p in rows <==> p == rows[0] || p in rows[1..];
      assert rows == [rows[0]] + rows[1..];
      if Known(rows[0], lookup) then [rows[0]] + KeptPairs(rows[1..], lookup)
      else KeptPairs(rows[1..], lookup)
  }

  /** The two records of lines 89-123 for one pair whose teams are known. */
  function RecordsFor(pair: PairRow, lookup: map<string, TeamRow>, describe: Describer, compose: Composer): (r: seq<PromptRecord>)
    requires Known(pair, lookup)
    ensures |r| == 2 && r[0].promptType == BetterOffense && r[1].promptType == StyleComparison
    ensures forall k :: 0 <= k < 2 ==> r[k].pairId == pair.pairId && r[k].teamA == pair.teamA && r[k].teamB == pair.teamB
  {
    var descA := describe(pair.teamA, lookup[pair.teamA]);
    var descB := describe(pair.teamB, lookup[pair.teamB]);
    [PromptRecord(pair.pairId, BetterOffense, pair.teamA, pair.teamB, compose(BetterOffense, descA, descB)),
     PromptRecord(pair.pairId, StyleComparison, pair.teamA, pair.teamB, compose(StyleComparison, descA, descB))]
  }

  /** The records the loop of lines 56-126 emits for `rows`. */
  function PromptsFor(rows: seq<PairRow>, lookup: map<string, TeamRow>, describe: Describer, compose: Composer): (r: seq<PromptRecord>)
    ensures |r| % 2 == 0 && |r| <= 2 * |rows|
  {
    if rows == [] then []
    else
      (if Known(rows[0], lookup) then RecordsFor(rows[0], lookup, describe, compose) else [])
      + PromptsFor(rows[1..], lookup, describe, compose)
  }

  /** Each pair is kept as often as it occurs when both its teams are known,
      and never otherwise. */
  lemma {:induction false} KeptPairsCount(rows: seq<PairRow>, lookup: map<string, TeamRow>)
    ensures forall p :: multiset(KeptPairs(rows, lookup))[p] == if Known(p, lookup) then multiset(rows)[p] else 0
  {
    if rows != [] {
      KeptPairsCount(rows[1..], lookup);
      assert rows == [rows[0]] + rows[1..];
    }
  }

  /** The records alternate `better_offense` and `style_comparison`. */
  lemma {:induction false} PromptsForAlternates(rows: seq<PairRow>, lookup: map<string, TeamRow>, describe: Describer, compose: Composer)
    ensures forall k :: 0 <= k < |PromptsFor(rows, lookup, describe, compose)| ==>
              PromptsFor(rows, lookup, describe, compose)[k].promptType == if k % 2 == 0 then BetterOffense else StyleComparison
  {
    if rows != [] {
      PromptsForAlternates(rows[1..], lookup, describe, compose);
      var r := PromptsFor(rows, lookup, describe, compose);
      var rest := PromptsFor(rows[1..], lookup, describe, compose);
      if Known(rows[0], lookup) {
        assert r == RecordsFor(rows[0], lookup, describe, compose) + rest;
        forall k | 2 <= k < |r|
          ensures r[k].promptType == if k % 2 == 0 then BetterOffense else StyleComparison
        {
          assert r[k] == rest[k - 2];
          assert (k - 2) % 2 == k % 2;
        }
      }
    }
  }

  lemma {:induction false} PromptsForAppend(rows: seq<PairRow>, more: seq<PairRow>, lookup: map<string, TeamRow>, describe: Describer, compose: Composer)
    ensures PromptsFor(rows + more, lookup, describe, compose)
         == PromptsFor(rows, lookup, describe, compose) + PromptsFor(more, lookup, describe, compose)
  {
    if rows != [] {
      assert (rows + more)[1..] == rows[1..] + more;
      PromptsForAppend(rows[1..], more, lookup, describe, compose);
    } else {
      assert rows + more == more;
    }
  }

  lemma {:induction false} KeptPairsAppend(rows: seq<PairRow>, more: seq<PairRow>, lookup: map<string, TeamRow>)
    ensures KeptPairs(rows + more, lookup) == KeptPairs(rows, lookup) + KeptPairs(more, lookup)
  {
    if rows != [] {
      assert (rows + more)[1..] == rows[1..] + more;
      KeptPairsAppend(rows[1..], more, lookup);
    } else {
      assert rows + more == more;
    }
  }

  /** One step of the loop: the records and the kept pairs of a prefix grow by
      those of the next pair. */
  lemma PromptsStep(rows: seq<PairRow>, i: nat, lookup: map<string, TeamRow>, describe: Describer, compose: Composer)
    requires i < |rows|
    ensures PromptsFor(rows[..i + 1], lookup, describe, compose)
         == PromptsFor(rows[..i], lookup, describe, compose)
          + (if Known(rows[i], lookup) then RecordsFor(rows[i], lookup, describe, compose) else [])
    ensures |KeptPairs(rows[..i + 1], lookup)|
         == |KeptPairs(rows[..i], lookup)| + (if Known(rows[i], lookup) then 1 else 0)
  {
    assert rows[..i + 1] == rows[..i] + [rows[i]];
    PromptsForAppend(rows[..i], [rows[i]], lookup, describe, compose);
    KeptPairsAppend(rows[..i], [rows[i]], lookup);
  }

  /** A pair with an unknown team contributes no records at all. */
  lemma SkippedPairContributesNothing(before: seq<PairRow>, pair: PairRow, after: seq<PairRow>,
                                      lookup: map<string, TeamRow>, describe: Describer, compose: Composer)
    requires !Known(pair, lookup)
    ensures PromptsFor(before + [pair] + after, lookup, describe, compose)
         == PromptsFor(before, lookup, describe, compose) + PromptsFor(after, lookup, describe, compose)
  {
    assert PromptsFor([pair], lookup, describe, compose) == [];
    PromptsForAppend(before, [pair], lookup, describe, compose);
    assert PromptsFor(before + [pair], lookup, describe, compose) == PromptsFor(before, lookup, describe, compose);
    PromptsForAppend(before + [pair], after, lookup, describe, compose);
  }

  /** Two records for every kept pair. */
  lemma {:induction false} PromptsForLength(rows: seq<PairRow>, lookup: map<string, TeamRow>, describe: Describer, compose: Composer)
    ensures |PromptsFor(rows, lookup, describe, compose)| == 2 * |KeptPairs(rows, lookup)|
  {
    if rows != [] {
      PromptsForLength(rows[1..], lookup, describe, compose);
    }
  }

  /** Records 2k and 2k+1 are the two records of kept pair k. */
  lemma {:induction false} PromptsForAt(rows: seq<PairRow>, lookup: map<string, TeamRow>, describe: Describer, compose: Composer, k: nat)
    requires k < |KeptPairs(rows, lookup)|
    ensures Known(KeptPairs(rows, lookup)[k], lookup)
    ensures 2 * k + 1 < |PromptsFor(rows, lookup, describe, compose)|
    ensures PromptsFor(rows, lookup, describe, compose)[2 * k] == RecordsFor(KeptPairs(rows, lookup)[k], lookup, describe, compose)[0]
    ensures PromptsFor(rows, lookup, describe, compose)[2 * k + 1] == RecordsFor(KeptPairs(rows, lookup)[k], lookup, describe, compose)[1]
  {
    PromptsForLength(rows, lookup, describe, compose);
    var rest := PromptsFor(rows[1..], lookup, describe, compose);
    var keptRest := KeptPairs(rows[1..], lookup);
    if Known(rows[0], lookup) {
      assert KeptPairs(rows, lookup) == [rows[0]] + keptRest;
      assert PromptsFor(rows, lookup, describe, compose) == RecordsFor(rows[0], lookup, describe, compose) + rest;
      var recs := RecordsFor(rows[0], lookup, describe, compose);
      if k > 0 {
        PromptsForAt(rows[1..], lookup, describe, compose, k - 1);
        assert KeptPairs(rows, lookup)[k] == keptRest[k - 1];
        assert PromptsFor(rows, lookup, describe, compose)[2 * k] == rest[2 * (k - 1)];
        assert PromptsFor(rows, lookup, describe, compose)[2 * k + 1] == rest[2 * (k - 1) + 1];
      } else {
        assert KeptPairs(rows, lookup)[0] == rows[0];
        assert PromptsFor(rows, lookup, describe, compose)[0] == recs[0];
        assert PromptsFor(rows, lookup, describe, compose)[1] == recs[1];
      }
    } else {
      assert KeptPairs(rows, lookup) == keptRest;
      assert PromptsFor(rows, lookup, describe, compose) == rest;
      PromptsForAt(rows[1..], lookup, describe, compose, k);
    }
  }

  /** Every kept pair, in input order, yields exactly two consecutive records,
      first `better_offense` and then `style_comparison`, each carrying the
      pair's identifier and teams and the template applied to the two teams'
      descriptions. */
  lemma PromptsForShape(rows: seq<PairRow>, lookup: map<string, TeamRow>, describe: Describer, compose: Composer, k: nat)
    requires k < |KeptPairs(rows, lookup)|
    ensures |PromptsFor(rows, lookup, describe, compose)| == 2 * |KeptPairs(rows, lookup)|
    ensures var p := KeptPairs(rows, lookup)[k];
            var recs := PromptsFor(rows, lookup, describe, compose);
            && Known(p, lookup)
            && var descA := describe(p.teamA, lookup[p.teamA]);
               var descB := describe(p.teamB, lookup[p.teamB]);
               && recs[2 * k] == PromptRecord(p.pairId, BetterOffense, p.teamA, p.teamB, compose(BetterOffense, descA, descB))
               && recs[2 * k + 1] == PromptRecord(p.pairId, StyleComparison, p.teamA, p.teamB, compose(StyleComparison, descA, descB))
  {
    PromptsForLength(rows, lookup, describe, compose);
    PromptsForAt(rows, lookup, describe, compose, k);
  }

  /** Lines 1-126 without the file I/O and the printing. */
  method GeneratePrompts(teams: TeamTable, pairs: PairsTable, describe: Describer, compose: Composer)
    returns (r: Result<PromptBatch, PromptError>)
    ensures MissingColumns(RequiredTeamColumns, teams.columns) != [] ==>
              r == Failure(MissingTeamColumns(MissingColumns(RequiredTeamColumns, teams.columns)))
    ensures MissingColumns(RequiredTeamColumns, teams.columns) == [] && MissingColumns(RequiredPairColumns, pairs.columns) != [] ==>
              r == Failure(MissingPairColumns(MissingColumns(RequiredPairColumns, pairs.columns)))
    ensures MissingColumns(RequiredTeamColumns, teams.columns) == [] && MissingColumns(RequiredPairColumns, pairs.columns) == [] ==>
              r.Success?
    ensures r.Success? ==>
              var lookup := TeamLookup(teams.rows);
              && r.value.records == PromptsFor(pairs.rows, lookup, describe, compose)
              && r.value.numPairs == |KeptPairs(pairs.rows, lookup)| <= |pairs.rows|
              && r.value.numPrompts == 2 * r.value.numPairs == |r.value.records|
  {
    var missingCols := MissingColumns(RequiredTeamColumns, teams.columns);
    if missingCols != [] {
      return Failure(MissingTeamColumns(missingCols));
    }
    var missingPairs := MissingColumns(RequiredPairColumns, pairs.columns);
    if missingPairs != [] {
      return Failure(MissingPairColumns(missingPairs));
    }
    var teamLookup := TeamLookup(teams.rows);
    var records: seq<PromptRecord> := [];
    var numPairs := 0;
    var numPrompts := 0;
    for i := 0 to |pairs.rows|
      invariant records == PromptsFor(pairs.rows[..i], teamLookup, describe, compose)
      invariant numPairs == |KeptPairs(pairs.rows[..i], teamLookup)|
      invariant numPrompts == |records| == 2 * numPairs
    {
      var pair := pairs.rows[i];
      PromptsStep(pairs.rows, i, teamLookup, describe, compose);
      if pair.teamA !in teamLookup || pair.teamB !in teamLookup {
        continue;
      }
      var descA := describe(pair.teamA, teamLookup[pair.teamA]);
      var descB := describe(pair.teamB, teamLookup[pair.teamB]);
      records := records + [PromptRecord(pair.pairId, BetterOffense, pair.teamA, pair.teamB, compose(BetterOffense, descA, descB))];
      numPrompts := numPrompts + 1;
      records := records + [PromptRecord(pair.pairId, StyleComparison, pair.teamA, pair.teamB, compose(StyleComparison, descA, descB))];
      numPrompts := numPrompts + 1;
      numPairs := numPairs + 1;
    }
    assert pairs.rows[..|pairs.rows|] == pairs.rows;
    return Success(PromptBatch(records, numPairs, numPrompts));
  }
}
