# NFL offense preference pipeline — a Dafny model

This project models the data-preparation core of the NFL offense preference
pipeline. The pipeline has three stages:

1. `results/create_team_pairs.py` gives every team a strength score. The score
   is `win_pct`, else `avg_points_for`, else a composite of normalised offensive
   statistics. Teams are ranked strongest first and then paired 0–1, 2–3, … as
   `PAIR_1`, `PAIR_2`, …; with an odd number of teams the last one is unpaired.
2. `code/generate_prompts_for_llm.py` checks the required columns. For every
   pair whose two teams both appear in the team summary, it writes two prompt
   records, `better_offense` then `style_comparison`, and counts pairs and
   prompts.
3. `code/build_training_data_from_llm.py` reads the judge's JSON-lines answers
   and keeps the `better_offense` answers. From each one it reads which team the
   answer picks ("team a" / "team b", earlier one wins). It left-joins the labels
   to the pair table (pair ids must be unique), maps A/B to a 1/0 target, and
   left-merges both teams' statistics. Finally it builds the ten `diff_<metric>`
   columns.

Files, one module each:

- `wrappers.dfy`: `Option`, `Result`.
- `tables.dfy`: tables as read from CSV. A cell is `Option<real>`, where `None`
  stands for a missing, NaN or non-numeric value. Also the ten metric column
  names and the missing-columns check.
- `team_pairs.dfy`: stage 1.
- `prompts.dfy`: stage 2.
- `json.dfy`: decoded JSON values, Python truthiness, `dict.get` and `or` chains.
- `answer_parser.dfy`: `extract_choice`.
- `training_data.dfy`: stage 3.
- `pipeline.dfy`: lemmas linking the stages. They cover the record the judge
  script writes for each prompt and the pair table stage 1 writes.

Four loops of the source are methods with loop invariants: `PairUp`,
`GeneratePrompts`, `ReadAnswerLabels` and `AddDiffColumns`. Each is proved
against its own specification:

- The prompt loop and the answer-reading loop are proved equal to recursive
  specification functions, `PromptsFor` and `LabelRowsOf`. The lemmas are
  proved about those functions.
- The pairing loop satisfies the predicate `IsPairingOf`: pair k holds ranks
  2k and 2k+1.
- The difference-column loop is stated cell by cell: column j, row i is
  teamA's metric minus teamB's.

The pandas expressions are functions. So is the loop at
`create_team_pairs.py:49-52` that fills each missing component column with
zeros: `TeamPairs.ComponentColumn` reads an absent column as zeros.

Three behaviours of the code shape the contracts:

- The sort at `create_team_pairs.py:78` is pandas' default `sort_values`,
  which is not stable. `TeamPairs.CreateTeamPairs` promises pairs of *some*
  strongest-first ordering of the teams, not one order among ties.
- The join at `build_training_data_from_llm.py:100` is a left join. A label
  whose `pair_id` matches no pair is kept, with neither team. Only a
  duplicated id in the pair table fails, through `validate="m:1"`.
- The merges at `build_training_data_from_llm.py:142-144` are left joins. A
  team that is missing from the summary does not raise; its row gets missing
  differences.

## Model

| member | source | states |
|---|---|---|
| Tables.Column | results/create_team_pairs.py:71-75 | a column has one cell per row, the row's value for that column or missing |
| Tables.MissingColumns | code/generate_prompts_for_llm.py:24 | the missing required columns, in required order: exactly those required and absent; empty iff all are present |
| TeamPairs.Coerced | results/create_team_pairs.py:15 | `to_numeric(...).fillna(0)`: one value per cell, missing cells as 0 |
| TeamPairs.Max | results/create_team_pairs.py:16 | the maximum is an upper bound of every value and is attained |
| TeamPairs.Normalize | results/create_team_pairs.py:10-19 | normalisation keeps the column length |
| TeamPairs.NormalizeAllZero | results/create_team_pairs.py:13-18 | an empty column, or one whose maximum is 0 (including ones of zeros and negative values), normalises to all zeros |
| TeamPairs.NormalizeZeroColumn | results/create_team_pairs.py:15-18 | in particular a column whose values are all 0 after coercion (zeros, NaN, text) |
| TeamPairs.NormalizeMaxIsOne | results/create_team_pairs.py:19 | with a non-zero maximum each value is divided by it, and some value becomes exactly 1 |
| TeamPairs.NormalizeInUnitInterval | results/create_team_pairs.py:10-19 | a non-negative column normalises into [0, 1] |
| TeamPairs.NormalizeMissingIsZero | results/create_team_pairs.py:15 | a missing cell normalises exactly as a 0 would |
| TeamPairs.ComponentColumn | results/create_team_pairs.py:49-52 | a composite component column has one cell per team |
| TeamPairs.AbsCells | results/create_team_pairs.py:63 | `penalties.abs()`: every value is non-negative |
| TeamPairs.CompositeStrength | results/create_team_pairs.py:59-64 | one composite strength per team |
| TeamPairs.Strengths | results/create_team_pairs.py:36-75 | one strength per team |
| TeamPairs.StrengthPrecedence | results/create_team_pairs.py:38-66 | `win_pct` wins over `avg_points_for`, which wins over the composite; a missing strength value becomes 0 |
| TeamPairs.CompositeStrengthBounds | results/create_team_pairs.py:59-64 | with non-negative yards, yards per play and touchdowns, the composite lies in [-0.10, 0.90] |
| TeamPairs.MissingComponentIsZero | results/create_team_pairs.py:49-52 | a missing component column gives the same composite as a column of zeros |
| TeamPairs.Insert | results/create_team_pairs.py:78 | inserting into a descending list keeps it descending and adds exactly that team |
| TeamPairs.SortByStrength | results/create_team_pairs.py:78 | the sort's result is descending by strength and a permutation of its input |
| TeamPairs.Teams | results/create_team_pairs.py:71-72 | one (team, strength) entry per summary row |
| TeamPairs.Ranking | results/create_team_pairs.py:78 | the ranking has one entry per team |
| TeamPairs.RankingIsSortedPermutation | results/create_team_pairs.py:71-78 | the ranking is descending, a permutation of the teams, and each entry is a summary row's team with that row's strength |
| TeamPairs.NatToString | results/create_team_pairs.py:100 | the decimal numeral is non-empty, all digits, and has no leading zero |
| TeamPairs.DecimalRoundTrip | results/create_team_pairs.py:100 | reading the numeral back gives the number |
| TeamPairs.PairIdInjective | results/create_team_pairs.py:100 | distinct counters give distinct `PAIR_<n>` ids |
| TeamPairs.PairUp | results/create_team_pairs.py:84-108 | fewer than two teams fails; otherwise floor(n/2) pairs, pair k of ranks 2k and 2k+1 named `PAIR_<k+1>` |
| TeamPairs.CreateTeamPairs | results/create_team_pairs.py:32-108 | no `OffenseTeam` column fails first, then fewer than two rows; otherwise the pairing of some descending permutation of the teams (no tie order promised) |
| TeamPairs.PairStrengthsOrdered | results/create_team_pairs.py:78-108 | in each pair teamA is at least as strong as teamB, and every team in an earlier pair is at least as strong as every team in a later one |
| TeamPairs.PairIdsDistinct | results/create_team_pairs.py:93-107 | pair ids are pairwise distinct |
| TeamPairs.PairedTeams | results/create_team_pairs.py:101-102 | the paired teams are two per pair |
| TeamPairs.PairedTeamsAt | results/create_team_pairs.py:101-102 | paired team 2k is pair k's teamA and 2k+1 its teamB |
| TeamPairs.PairedTeamIsRanked | results/create_team_pairs.py:95-102 | paired team i is the team at ranking position i |
| TeamPairs.PairingPartitionsRanking | results/create_team_pairs.py:95-113 | the paired teams followed by the leftover are exactly the ranking; with an even count nothing is left over |
| TeamPairs.PairsDisjoint | results/create_team_pairs.py:95-108 | with distinct team names no team appears in two pairs or twice in one |
| Prompts.TeamLookup | code/generate_prompts_for_llm.py:50 | every summary team is a key, and every key is some row's team |
| Prompts.LookupLastRowWins | code/generate_prompts_for_llm.py:50 | for a repeated team name the last row is the one looked up |
| Prompts.KeptPairs | code/generate_prompts_for_llm.py:56-63 | the pairs kept are exactly those whose teams are both known, in input order |
| Prompts.KeptPairsCount | code/generate_prompts_for_llm.py:56-63 | a pair with both teams known is kept as often as it occurs in the input, and any other pair never |
| Prompts.RecordsFor | code/generate_prompts_for_llm.py:89-123 | a kept pair gives two records, `better_offense` then `style_comparison`, both with the pair's id and teams |
| Prompts.PromptsFor | code/generate_prompts_for_llm.py:56-126 | the loop writes an even number of records, at most two per pair row |
| Prompts.PromptsForAlternates | code/generate_prompts_for_llm.py:89-123 | the records alternate `better_offense` / `style_comparison`, starting with `better_offense` |
| Prompts.PromptsForAt | code/generate_prompts_for_llm.py:56-124 | records 2k and 2k+1 are the two records of kept pair k |
| Prompts.PromptsForAppend | code/generate_prompts_for_llm.py:56-124 | the records of concatenated pair lists are the concatenation of their records |
| Prompts.KeptPairsAppend | code/generate_prompts_for_llm.py:56-63 | the same for kept pairs |
| Prompts.PromptsStep | code/generate_prompts_for_llm.py:56-126 | one more pair adds its two records, or nothing when it is skipped |
| Prompts.SkippedPairContributesNothing | code/generate_prompts_for_llm.py:61-63 | a pair with an unknown team contributes no record |
| Prompts.PromptsForLength | code/generate_prompts_for_llm.py:96-126 | two prompts are written per kept pair |
| Prompts.PromptsForShape | code/generate_prompts_for_llm.py:65-124 | record 2k is kept pair k's `better_offense` prompt and 2k+1 its `style_comparison` prompt, both built from the two looked-up team descriptions |
| Prompts.GeneratePrompts | code/generate_prompts_for_llm.py:18-126 | missing team columns fail first, then missing pair columns; otherwise these records, with pairs used ≤ pairs read and prompts = 2 × pairs used |
| Json.Truthy | code/build_training_data_from_llm.py:66-72 | Python's `bool`: false exactly for null, false, 0, "", [] and {} |
| Json.Get | code/build_training_data_from_llm.py:65-72 | `dict.get`: the value at the key, null when the key is absent, so a truthy value means the key is present |
| Json.FirstTruthy | code/build_training_data_from_llm.py:66-72 | an `or` chain returns the first truthy value, or the last value when none is truthy |
| AnswerParser.Lower | code/build_training_data_from_llm.py:30 | lower-casing keeps the length and maps each character |
| AnswerParser.LowerIdempotent | code/build_training_data_from_llm.py:30 | lower-casing twice equals lower-casing once |
| AnswerParser.IndexFrom | code/build_training_data_from_llm.py:40-41 | the first occurrence at or after a position, or none after it |
| AnswerParser.IndexOf | code/build_training_data_from_llm.py:32-41 | `in` and `str.index`: the first occurrence, and none exactly when the phrase does not occur |
| AnswerParser.ExtractChoice | code/build_training_data_from_llm.py:27-28 | a choice is only ever read from a string |
| AnswerParser.PhrasesNeverStartTogether | code/build_training_data_from_llm.py:39-42 | "team a" and "team b" never start at the same index, so the comparison always decides |
| AnswerParser.ExtractChoiceIsA | code/build_training_data_from_llm.py:30-42 | A iff "team a" occurs with no "team b" at or before that position |
| AnswerParser.ExtractChoiceIsB | code/build_training_data_from_llm.py:30-42 | B iff "team b" occurs with no "team a" at or before that position |
| AnswerParser.ExtractChoiceIsNone | code/build_training_data_from_llm.py:27-44 | no choice iff the value is not a string or neither phrase occurs |
| AnswerParser.ExtractChoiceIgnoresCase | code/build_training_data_from_llm.py:30 | answers equal up to ASCII case give the same choice |
| AnswerParser.ExampleOnlyTeamA | code/build_training_data_from_llm.py:35-36 | "Team A is better because of yards" and "Team A, not Team B" pick A |
| AnswerParser.ExampleTeamBFirst | code/build_training_data_from_llm.py:39-42 | "I'd pick Team B, not team A" picks B |
| AnswerParser.ExampleNeitherTeam | code/build_training_data_from_llm.py:44 | "unclear which is stronger" picks neither |
| TrainingData.IsSpace | code/build_training_data_from_llm.py:59 | `str.isspace`: includes space, tab, newline and carriage return; excludes letters, digits, `{` and `"` |
| TrainingData.Strip | code/build_training_data_from_llm.py:59 | strip gives empty iff the line is all whitespace; otherwise it neither starts nor ends with whitespace |
| TrainingData.StripIsSlice | code/build_training_data_from_llm.py:59 | the stripped line is the slice of the line between a whitespace-only prefix and a whitespace-only suffix |
| TrainingData.LabelRowsAppend | code/build_training_data_from_llm.py:58-87 | rows of a file are the rows of its start then of its end, and the first bad line decides the error |
| TrainingData.SkippedLineChangesNothing | code/build_training_data_from_llm.py:60-61 | a skipped line can be removed without changing the result |
| TrainingData.LabelOf | code/build_training_data_from_llm.py:65-87 | an object gives a label row iff its first truthy type key is `better_offense`; the row holds `pair_id`, that type, the first truthy answer key and the choice read from it |
| TrainingData.ReadLine | code/build_training_data_from_llm.py:58-87 | the only errors a line can raise are a decode error and a non-object |
| TrainingData.ReadLineOutcome | code/build_training_data_from_llm.py:59-87 | a whitespace line is skipped; a decode error and a non-object are rejected, each exactly in its case; an object's line is kept exactly when it has a label row, and it keeps that row |
| TrainingData.LabelRowsOf | code/build_training_data_from_llm.py:56-87 | (no contract of its own) the label rows of the file, or the first error; specified by the lemmas below |
| TrainingData.NoBadLineSucceeds | code/build_training_data_from_llm.py:56-87 | a file with no rejected line is read without error |
| TrainingData.BadLineFails | code/build_training_data_from_llm.py:62-65 | one rejected line, anywhere, makes the read fail |
| TrainingData.CleanReadIffNoBadLine | code/build_training_data_from_llm.py:56-87 | the read succeeds exactly when no line is rejected |
| TrainingData.FirstBadLineDecides | code/build_training_data_from_llm.py:62-65 | a failing read fails with the error of its first rejected line |
| TrainingData.LabelRowsSound | code/build_training_data_from_llm.py:75-87 | every row has type `better_offense` and the choice read from its answer; at most one row per line |
| TrainingData.EmptyAnswerHasNoChoice | code/build_training_data_from_llm.py:67-78 | a record with all four answer keys missing, null or empty gives no choice |
| TrainingData.LabelRowsFailureSticks | code/build_training_data_from_llm.py:62 | an error in a line ends the whole read with that error |
| TrainingData.ReadAnswerLabels | code/build_training_data_from_llm.py:56-87 | the answer-reading loop computes the label rows of the file, or the error of its first bad line |
| TrainingData.CountUnknown | code/build_training_data_from_llm.py:93 | at most as many unknown choices as rows |
| TrainingData.FindPair | code/build_training_data_from_llm.py:100 | the matching pair row, or none exactly when no pair row has this id |
| TrainingData.Target | code/build_training_data_from_llm.py:103 | `map({"A": 1, "B": 0})`: 1 exactly for A, 0 exactly for B, missing exactly when there is no choice |
| TrainingData.JoinLabels | code/build_training_data_from_llm.py:100-103 | no `pair_id` column fails, then duplicate pair ids; otherwise one row per label in order, with the matching pair's teamA and teamB (both missing exactly when unmatched) and target A→1, B→0, else missing |
| TrainingData.ParsedCountIsKnownTargets | code/build_training_data_from_llm.py:93-103 | total minus unknown is the number of joined rows with a target |
| TrainingData.MatchingTeams | code/build_training_data_from_llm.py:142-144 | the summary rows merged for a name are exactly those with that team name, in summary order; none when there are none |
| TrainingData.MatchingTeamsCount | code/build_training_data_from_llm.py:142-144 | a summary row with that name is merged as often as it occurs in the summary, and any other row never |
| TrainingData.MergeTeams | code/build_training_data_from_llm.py:142-144 | a left merge has at least as many rows as labels |
| TrainingData.MergeTeamsKeepsOrder | code/build_training_data_from_llm.py:142-144 | whatever the summary holds, every label row is kept, in order, as a subsequence of the merged rows' labels |
| TrainingData.MergeTeamsFromLabels | code/build_training_data_from_llm.py:142-144 | every merged row carries one of the label rows |
| TrainingData.MergeTeamsMatched | code/build_training_data_from_llm.py:142-144 | each side's statistics belong to that side's team, and a team absent from the summary gets none instead of an error |
| TrainingData.MatchingTeamsAtMostOne | code/build_training_data_from_llm.py:142-144 | with distinct team names at most one summary row matches |
| TrainingData.MergeTeamsKeepsRows | code/build_training_data_from_llm.py:142-144 | with distinct team names the merges keep every label row once, in order, including rows without a target |
| TrainingData.Sub | code/build_training_data_from_llm.py:148 | a difference is missing iff either side is, and otherwise adds back to teamA's value |
| TrainingData.DiffColumnNamesAreTen | code/build_training_data_from_llm.py:151-153 | ten distinct `diff_<metric>` names in metric order; the training header is the four key columns then these, fourteen in all |
| TrainingData.AddDiffColumns | code/build_training_data_from_llm.py:147-148 | column j row i is teamA's metric j minus teamB's, missing if either is |
| TrainingData.KeysOf | code/build_training_data_from_llm.py:153 | one key row per merged row |
| TrainingData.BuildTrainingData | code/build_training_data_from_llm.py:47-153 | error precedence read → no rows → join → pair team columns → summary columns; on success the label table, the two counts and the training table with its header |
| Pipeline.AnswerObjectType | code/call_llm_and_collect_answers.py:69-75 | the judge's record gives the reader the prompt's pair id and its prompt type as question type |
| Pipeline.AnswerObjectText | code/call_llm_and_collect_answers.py:69-75 | the reader's answer text is the answer, or null when the call failed or answered with an empty string |
| Pipeline.AnswerObjectLabel | code/call_llm_and_collect_answers.py:69-75 | an answer to a generated prompt becomes a label exactly when the prompt was `better_offense`; the label keeps the pair id, and a failed call gives no choice |
| Pipeline.CreatedPairsJoin | code/build_training_data_from_llm.py:100 | stage 1's pair table has the columns later stages need and always passes the unique-id join; a label for `PAIR_<k+1>` gets pair k's teams |

## Left out

- File reading and writing, directory creation, `print` output and the previews are not modelled. The tables and answer lines are parameters, and the results are returned values.
- The judge call (`code/call_llm_and_collect_answers.py`) is not part of this model. Only the shape of the record it writes is.
- The player summary and the training model script are not part of this model.
- `describe_team` and the two prompt templates are the parameters `describe` and `compose`. Their f-string formatting, and the `int()` of a NaN they would raise on, are not modelled.
- `json.loads` is the parameter `decode`; `None` stands for a decoding error.
- TeamPairs.PairUp: the `round(..., 4)` of the written strengths is not modelled; strengths are exact reals.
- TeamPairs.SortByStrength: the order among equal strengths is left open, because pandas' default `sort_values` is not stable.
- Cells are exact reals or missing, with no IEEE NaN. Text in a numeric column is treated as missing, as `to_numeric(errors="coerce")` does. Subtraction or `abs` on a text column, which would raise in pandas, is not modelled.
- AnswerParser.Lower: only ASCII letters are folded, not the full Unicode `str.lower`.
- pandas' merge-key type coercion (for example, a numeric `pair_id` matching its text form) is not modelled. A key matches only a string of the same text.
- A missing (NaN) team name in a merge, which pandas would match to a NaN key, gets no statistics in the model.
- The extra columns of the pair table that pandas carries through the joins (`teamA_strength`, `teamB_strength`) are not modelled. Only `pair_id`, `teamA` and `teamB` are.
- TrainingData.BuildTrainingData: the summary column check asks for `OffenseTeam` and the ten metrics. A summary that already has a `team` column instead of `OffenseTeam` is not modelled. The missing-column list in the error is the model's, not pandas' message text.
