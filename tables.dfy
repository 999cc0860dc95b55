/**
  The flat tables the three stages exchange: the per-team summary
  (data/team_summary.csv) and the pair table (results/team_pairs.csv),
  together with the column checks that the stages run before using them.
 */
module Tables {
  import opened Wrappers

  /** One numeric cell. `None` stands for everything pandas turns into NaN:
      an empty cell, a NaN, or text that `pd.to_numeric(..., errors="coerce")`
      cannot read as a number. */
  type Cell = Option<real>

  /** `pd.to_numeric(x, errors="coerce").fillna(0)` for one cell. */
  function Coerce(c: Cell): real
  {
    match c
    case Some(v) => v
    case None => 0.0
  }

  /** One row of the team summary: the `OffenseTeam` value and the other cells by column name. */
  datatype TeamRow = TeamRow(team: string, stats: map<string, Cell>)

  /** The team summary: the set of column headers and the rows in file order. */
  datatype TeamTable = TeamTable(columns: set<string>, rows: seq<TeamRow>)

  /** The cell of `row` in `column`; a row that lacks the key reads as NaN. */
  function CellOf(row: TeamRow, column: string): Cell
  {
    if column in row.stats then row.stats[column] else None
  }

  /** The whole column `column` of the team summary, top to bottom. */
  function Column(t: TeamTable, column: string): (col: seq<Cell>)
    ensures |col| == |t.rows|
    ensures forall i :: 0 <= i < |t.rows| ==> col[i] == CellOf(t.rows[i], column)
  {
    seq(|t.rows|, i requires 0 <= i < |t.rows| => CellOf(t.rows[i], column))
  }

  /** One row of the pair table as the later stages read it back. */
  datatype PairRow = PairRow(pairId: string, teamA: string, teamB: string)

  /** The pair table: its column headers and the rows in file order. */
  datatype PairsTable = PairsTable(columns: set<string>, rows: seq<PairRow>)

  /** The ten metric columns of a team summary, in the order the sources list them. */
  const FeatureColumns: seq<string> := [
    "total_plays", "total_yards", "avg_yards_per_play", "rush_plays", "pass_plays",
    "touchdowns", "penalties", "rush_pct", "pass_pct", "yards_per_touchdown"
  ]

  /** `a` is `b` with some elements left out, the rest in their order. */
  ghost predicate SubsequenceOf<T>(a: seq<T>, b: seq<T>)
  {
    if a == [] then true
    else if b == [] then false
    else (a[0] == b[0] && SubsequenceOf(a[1..], b[1..])) || SubsequenceOf(a, b[1..])
  }

  /** Putting elements in front of `b` keeps `a` a subsequence of it. */
  lemma {:induction false} SubsequencePrepend<T>(a: seq<T>, b: seq<T>, c: seq<T>)
    requires SubsequenceOf(a, b)
    ensures SubsequenceOf(a, c + b)
    decreases |c|
  {
    if c != [] {
      SubsequencePrepend(a, b, c[1..]);
      assert (c + b)[1..] == c[1..] + b;
      if a != [] {
        assert SubsequenceOf(a, (c + b)[1..]);
      }
    } else {
      assert c + b == b;
    }
  }

  /** An element matched at the front, then anything, then a matching tail. */
  lemma SubsequenceCons<T>(x: T, a: seq<T>, b: seq<T>, c: seq<T>)
    requires SubsequenceOf(a, b)
    ensures SubsequenceOf([x] + a, [x] + c + b)
  {
    SubsequencePrepend(a, b, c);
    assert ([x] + a)[1..] == a;
    assert ([x] + c + b)[1..] == c + b;
  }

  /** `[c for c in required if c not in present]`: the required columns that
      a table lacks, in the order they are required. */
  function MissingColumns(required: seq<string>, present: set<string>): (r: seq<string>)
    ensures forall c :: c in r <==> c in required && c !in present
    ensures SubsequenceOf(r, required)
    ensures r == [] <==> forall c :: c in required ==> c in present
  {
    if required == [] then []
    else if required[0] in present then MissingColumns(required[1..], present)
    else [required[0]] + MissingColumns(required[1..], present)
  }
}
