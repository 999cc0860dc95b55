/**
  Stage 3 (code/build_training_data_from_llm.py, `main`, lines 47-163): read
  the judge's answers, keep the `better_offense` ones as label rows, join them
  to the pair table, and build one training row per label with the ten
  `diff_<metric>` columns teamA value minus teamB value.

  JSON decoding is the caller's `decode`: `None` stands for `json.loads`
  raising. The CSV files are given as already-read tables.
 */
module TrainingData {
  import opened Wrappers
  import opened Tables
  import opened Json
  import opened AnswerParser

  datatype BuildError =
    | MalformedJson                              // line 62: json.loads raises
    | NotAnObject                                // line 65: .get on a decoded non-object
    | NoLabelRows                                // line 93: no "choice" column in an empty frame
    | MissingPairColumns(columns: seq<string>)   // lines 100 and 109
    | DuplicatePairIds                           // line 100: validate="m:1"
    | MissingTeamColumns(columns: seq<string>)   // line 129

  type Decoder = string -> Option<JsonValue>

  // ---------------------------------------------------------------------
  // Step 1: answer lines to label rows (lines 56-87)
  // ---------------------------------------------------------------------

  /** Python's `str.isspace` for one character. */
  predicate IsSpace(c: char)
    ensures c == ' ' || c == '\t' || c == '\n' || c == '\r' ==> IsSpace(c)
    ensures 'a' <= c <= 'z' || 'A' <= c <= 'Z' || '0' <= c <= '9' || c == '{' || c == '"' ==> !IsSpace(c)
  {
    var n := c as int;
    || 9 <= n <= 13 || 28 <= n <= 32 || n == 0x85 || n == 0xA0 || n == 0x1680
    || 0x2000 <= n <= 0x200A || n == 0x2028 || n == 0x2029 || n == 0x202F
    || n == 0x205F || n == 0x3000
  }

  function FirstNonSpace(s: string, from: nat): (k: nat)
    requires from <= |s|
    decreases |s| - from
    ensures from <= k <= |s|
    ensures forall i :: from <= i < k ==> IsSpace(s[i])
    ensures k < |s| ==> !IsSpace(s[k])
  {
    if from == |s| || !IsSpace(s[from]) then from else FirstNonSpace(s, from + 1)
  }

  function EndOfNonSpace(s: string, to: nat): (k: nat)
    requires to <= |s|
    ensures k <= to
    ensures forall i :: k <= i < to ==> IsSpace(s[i])
    ensures k > 0 ==> !IsSpace(s[k - 1])
  {
    if to == 0 || !IsSpace(s[to - 1]) then to else EndOfNonSpace(s, to - 1)
  }

  /** `str.strip()`: the line without leading and trailing whitespace. */
  function Strip(s: string): (r: string)
    ensures r == "" <==> forall i :: 0 <= i < |s| ==> IsSpace(s[i])
    ensures r != "" ==> !IsSpace(r[0]) && !IsSpace(r[|r| - 1])
  {
    var start := FirstNonSpace(s, 0);
    var end := EndOfNonSpace(s, |s|);
    if end <= start then ""
    else
      assert forall i :: 0 <= i < |s| && !IsSpace(s[i]) ==> start <= i < end;
      s[start..end]
  }

  /** What `str.strip()` removes is whitespace and nothing else: the result
      is the slice of the line between a whitespace prefix and a whitespace
      suffix. */
  lemma StripIsSlice(s: string)
    ensures exists i, j :: 0 <= i <= j <= |s| && Strip(s) == s[i..j] &&
              (forall k :: 0 <= k < i ==> IsSpace(s[k])) && (forall k :: j <= k < |s| ==> IsSpace(s[k]))
  {
    var start := FirstNonSpace(s, 0);
    var end := EndOfNonSpace(s, |s|);
    if end <= start {
      assert Strip(s) == s[|s|..|s|];
      assert forall k :: 0 <= k < |s| ==> IsSpace(s[k]);
    } else {
      assert Strip(s) == s[start..end];
    }
  }

  /** One label row (lines 80-85). */
  datatype LabelRow = LabelRow(pairId: JsonValue, questionType: JsonValue, answerText: JsonValue, choice: Option<Choice>)

  const BetterOffenseType: string := "better_offense"

  /** Line 66: the first truthy of `type`, `prompt_type`, `question_type`. */
  function QuestionTypeOf(obj: map<string, JsonValue>): JsonValue
  {
    FirstTruthy([Get(obj, "type"), Get(obj, "prompt_type"), Get(obj, "question_type")])
  }

  /** Lines 67-72: the first truthy of `answer`, `response`, `model_answer`, `content`. */
  function AnswerTextOf(obj: map<string, JsonValue>): JsonValue
  {
    FirstTruthy([Get(obj, "answer"), Get(obj, "response"), Get(obj, "model_answer"), Get(obj, "content")])
  }

  /** Lines 65-87 for one decoded object: its label row, or `None` when its
      question type is not `better_offense`. */
  function LabelOf(obj: map<string, JsonValue>): (r: Option<LabelRow>)
    ensures r.Some? <==> QuestionTypeOf(obj) == JString(BetterOffenseType)
    ensures r.Some? ==> && r.value.pairId == Get(obj, "pair_id") && r.value.questionType == QuestionTypeOf(obj)
                        && r.value.answerText == AnswerTextOf(obj) && r.value.choice == ExtractChoice(r.value.answerText)
  {
    var qtype := QuestionTypeOf(obj);
    if qtype != JString(BetterOffenseType) then None
    else
      var answer := AnswerTextOf(obj);
      Some(LabelRow(Get(obj, "pair_id"), qtype, answer, ExtractChoice(answer)))
  }

  datatype LineOutcome = Skip | Keep(row: LabelRow) | Reject(error: BuildError)

  /** What the loop does with one line of the answers file. */
  function ReadLine(line: string, decode: Decoder): (r: LineOutcome)
    ensures r.Reject? ==> r.error == MalformedJson || r.error == NotAnObject
  {
    var stripped := Strip(line);
    if stripped == "" then Skip
    else
      match decode(stripped)
      case None => Reject(MalformedJson)
      case Some(JObject(obj)) =>
        (match LabelOf(obj)
         case None => Skip
         case Some(row) => Keep(row))
      case Some(_) => Reject(NotAnObject)
  }

  /** Each outcome of a line, exactly in its case: a line of whitespace is
      skipped, a decode error and a non-object are rejected, and an object is
      kept exactly when it has a label row. */
  lemma ReadLineOutcome(line: string, decode: Decoder)
    ensures (forall i :: 0 <= i < |line| ==> IsSpace(line[i])) ==> ReadLine(line, decode) == Skip
    ensures ReadLine(line, decode) == Reject(MalformedJson) <==> Strip(line) != "" && decode(Strip(line)).None?
    ensures ReadLine(line, decode) == Reject(NotAnObject) <==>
              Strip(line) != "" && decode(Strip(line)).Some? && !decode(Strip(line)).value.JObject?
    ensures ReadLine(line, decode).Keep? <==>
              Strip(line) != "" && decode(Strip(line)).Some? && decode(Strip(line)).value.JObject? &&
              LabelOf(decode(Strip(line)).value.fields).Some?
    ensures ReadLine(line, decode).Keep? ==> LabelOf(decode(Strip(line)).value.fields) == Some(ReadLine(line, decode).row)
  {
  }

  /** The label rows of a whole file, or the error of its first bad line. */
  function LabelRowsOf(lines: seq<string>, decode: Decoder): Result<seq<LabelRow>, BuildError>
  {
    if lines == [] then Success([])
    else
      match LabelRowsOf(lines[..|lines| - 1], decode)
      case Failure(e) => Failure(e)
      case Success(rows) =>
        match ReadLine(lines[|lines| - 1], decode)
        case Skip => Success(rows)
        case Keep(row) => Success(rows + [row])
        case Reject(e) => Failure(e)
  }

  /** Reading two pieces of a file one after the other. */
  function Then(first: Result<seq<LabelRow>, BuildError>, second: Result<seq<LabelRow>, BuildError>): Result<seq<LabelRow>, BuildError>
  {
    match first
    case Failure(e) => Failure(e)
    case Success(x) =>
      match second
      case Failure(e) => Failure(e)
      case Success(y) => Success(x + y)
  }

  /** Reading pieces one after the other does not depend on how they are grouped. */
  lemma ThenAssoc(p: Result<seq<LabelRow>, BuildError>, q: Result<seq<LabelRow>, BuildError>, r: Result<seq<LabelRow>, BuildError>)
    ensures Then(Then(p, q), r) == Then(p, Then(q, r))
  {
    if p.Success? && q.Success? && r.Success? {
      assert (p.value + q.value) + r.value == p.value + (q.value + r.value);
    }
  }

  /** One more line at the end of a file. */
  lemma {:induction false} LabelRowsSnoc(lines: seq<string>, line: string, decode: Decoder)
    ensures LabelRowsOf(lines + [line], decode) == Then(LabelRowsOf(lines, decode), LabelRowsOf([line], decode))
  {
    var whole := lines + [line];
    assert whole[..|whole| - 1] == lines;
    assert whole[|whole| - 1] == line;
    assert [line][..0] == [];
    var outcome := ReadLine(line, decode);
    match outcome {
      case Skip =>
        assert LabelRowsOf([line], decode) == Success([]);
        if LabelRowsOf(lines, decode).Success? {
          assert LabelRowsOf(lines, decode).value + [] == LabelRowsOf(lines, decode).value;
        }
      case Keep(row) =>
        assert LabelRowsOf([line], decode) == Success([] + [row]);
        assert [] + [row] == [row];
      case Reject(e) =>
        assert LabelRowsOf([line], decode) == Failure(e);
    }
  }

  /** The rows of a file are the rows of its beginning followed by those of
      its end, so they keep input order; the first bad line decides the error. */
  lemma {:induction false} LabelRowsAppend(a: seq<string>, b: seq<string>, decode: Decoder)
    ensures LabelRowsOf(a + b, decode) == Then(LabelRowsOf(a, decode), LabelRowsOf(b, decode))
  {
    if b == [] {
      assert a + b == a;
      if LabelRowsOf(a, decode).Success? {
        assert LabelRowsOf(a, decode).value + [] == LabelRowsOf(a, decode).value;
      }
    } else {
      var b' := b[..|b| - 1];
      var line := b[|b| - 1];
      assert b == b' + [line];
      assert a + b == (a + b') + [line];
      LabelRowsSnoc(a + b', line, decode);
      LabelRowsAppend(a, b', decode);
      ThenAssoc(LabelRowsOf(a, decode), LabelRowsOf(b', decode), LabelRowsOf([line], decode));
      LabelRowsSnoc(b', line, decode);
    }
  }

  /** A skipped line (blank, or another question type) changes nothing. */
  lemma SkippedLineChangesNothing(before: seq<string>, line: string, after: seq<string>, decode: Decoder)
    requires ReadLine(line, decode) == Skip
    ensures LabelRowsOf(before + [line] + after, decode) == LabelRowsOf(before + after, decode)
  {
    LabelRowsAppend(before + [line], after, decode);
    LabelRowsAppend(before, [line], decode);
    LabelRowsAppend(before, after, decode);
    assert [line][..0] == [];
    match LabelRowsOf(before, decode) {
      case Failure(e) =>
      case Success(x) => assert x + [] == x;
    }
  }

  /** Every label row is a `better_offense` record, its choice read from its
      answer text; there is at most one row per line. */
  lemma {:induction false} LabelRowsSound(lines: seq<string>, decode: Decoder)
    requires LabelRowsOf(lines, decode).Success?
    ensures |LabelRowsOf(lines, decode).value| <= |lines|
    ensures forall k :: 0 <= k < |LabelRowsOf(lines, decode).value| ==>
              var row := LabelRowsOf(lines, decode).value[k];
              row.questionType == JString(BetterOffenseType) && row.choice == ExtractChoice(row.answerText)
  {
    if lines != [] {
      LabelRowsSound(lines[..|lines| - 1], decode);
    }
  }

  /** A record whose four answer keys are all missing, null or empty (such as
      the record written when the judge call failed) yields no choice. */
  lemma EmptyAnswerHasNoChoice(obj: map<string, JsonValue>)
    requires !Truthy(Get(obj, "answer")) && !Truthy(Get(obj, "response"))
    requires !Truthy(Get(obj, "model_answer")) && !Truthy(Get(obj, "content"))
    ensures ExtractChoice(AnswerTextOf(obj)) == None
  {
    var answer := AnswerTextOf(obj);
    assert answer == Get(obj, "content");
    if answer.JString? {
      assert answer.s == "";
      assert Lower(answer.s) == "";
    }
  }

  /** A file with no rejected line is read without error. */
  lemma {:induction false} NoBadLineSucceeds(lines: seq<string>, decode: Decoder)
    requires forall i :: 0 <= i < |lines| ==> !ReadLine(lines[i], decode).Reject?
    ensures LabelRowsOf(lines, decode).Success?
  {
    if lines != [] {
      var pre := lines[..|lines| - 1];
      forall i | 0 <= i < |pre|
        ensures !ReadLine(pre[i], decode).Reject?
      {
        assert pre[i] == lines[i];
      }
      NoBadLineSucceeds(pre, decode);
      assert !ReadLine(lines[|lines| - 1], decode).Reject?;
    }
  }

  /** A single rejected line makes the whole read fail. */
  lemma {:induction false} BadLineFails(lines: seq<string>, decode: Decoder, i: nat)
    requires i < |lines| && ReadLine(lines[i], decode).Reject?
    ensures LabelRowsOf(lines, decode).Failure?
  {
    match LabelRowsOf(lines[..i], decode) {
      case Failure(_) =>
        LabelRowsFailureSticks(lines, i, decode);
      case Success(rows) =>
        LabelRowsStep(lines, i, decode, rows);
        LabelRowsFailureSticks(lines, i + 1, decode);
    }
  }

  /** The read succeeds exactly when no line is rejected. */
  lemma {:induction false} CleanReadIffNoBadLine(lines: seq<string>, decode: Decoder)
    ensures LabelRowsOf(lines, decode).Success? <==> forall i :: 0 <= i < |lines| ==> !ReadLine(lines[i], decode).Reject?
  {
    if forall i :: 0 <= i < |lines| ==> !ReadLine(lines[i], decode).Reject? {
      NoBadLineSucceeds(lines, decode);
    } else {
      var i :| 0 <= i < |lines| && ReadLine(lines[i], decode).Reject?;
      BadLineFails(lines, decode, i);
    }
  }

  lemma {:induction false} CleanPrefix(lines: seq<string>, decode: Decoder, i: nat)
    requires i <= |lines|
    requires forall j :: 0 <= j < i ==> !ReadLine(lines[j], decode).Reject?
    ensures LabelRowsOf(lines[..i], decode).Success?
  {
    var pre := lines[..i];
    forall j | 0 <= j < |pre|
      ensures !ReadLine(pre[j], decode).Reject?
    {
      assert pre[j] == lines[j];
    }
    CleanReadIffNoBadLine(pre, decode);
  }

  lemma {:induction false} RejectedLineFails(lines: seq<string>, decode: Decoder, i: nat)
    requires i < |lines| && ReadLine(lines[i], decode).Reject?
    requires LabelRowsOf(lines[..i], decode).Success?
    ensures LabelRowsOf(lines[..i + 1], decode) == Failure(ReadLine(lines[i], decode).error)
  {
    LabelRowsStep(lines, i, decode, LabelRowsOf(lines[..i], decode).value);
  }

  /** A failing read fails with the error of its first rejected line. */
  lemma {:induction false} FirstBadLineDecides(lines: seq<string>, decode: Decoder, i: nat)
    requires i < |lines| && ReadLine(lines[i], decode).Reject?
    requires forall j :: 0 <= j < i ==> !ReadLine(lines[j], decode).Reject?
    ensures LabelRowsOf(lines, decode) == Failure(ReadLine(lines[i], decode).error)
  {
    var e := ReadLine(lines[i], decode).error;
    CleanPrefix(lines, decode, i);
    RejectedLineFails(lines, decode, i);
    FailedPrefixFailsAll(lines, decode, i + 1, e);
  }

  lemma {:induction false} FailedPrefixFailsAll(lines: seq<string>, decode: Decoder, n: nat, e: BuildError)
    requires n <= |lines|
    requires LabelRowsOf(lines[..n], decode) == Failure(e)
    ensures LabelRowsOf(lines, decode) == Failure(e)
  {
    LabelRowsFailureSticks(lines, n, decode);
  }

  /** Reading one more line after a clean prefix. */
  lemma LabelRowsStep(lines: seq<string>, i: nat, decode: Decoder, rows: seq<LabelRow>)
    requires i < |lines|
    requires LabelRowsOf(lines[..i], decode) == Success(rows)
    ensures LabelRowsOf(lines[..i + 1], decode) ==
              match ReadLine(lines[i], decode)
              case Skip => Success(rows)
              case Keep(row) => Success(rows + [row])
              case Reject(e) => Failure(e)
  {
    assert lines[..i + 1][..i] == lines[..i];
  }

  /** Once a prefix of the file fails, the whole file fails the same way. */
  lemma LabelRowsFailureSticks(lines: seq<string>, n: nat, decode: Decoder)
    requires n <= |lines|
    requires LabelRowsOf(lines[..n], decode).Failure?
    ensures LabelRowsOf(lines, decode) == LabelRowsOf(lines[..n], decode)
  {
    LabelRowsAppend(lines[..n], lines[n..], decode);
    assert lines[..n] + lines[n..] == lines;
  }

  /** The first loop of `main`. */
  method ReadAnswerLabels(lines: seq<string>, decode: Decoder) returns (r: Result<seq<LabelRow>, BuildError>)
    ensures r == LabelRowsOf(lines, decode)
  {
    var records: seq<LabelRow> := [];
    for i := 0 to |lines|
      invariant LabelRowsOf(lines[..i], decode) == Success(records)
    {
      LabelRowsStep(lines, i, decode, records);
      var line := Strip(lines[i]);
      if line == "" {
        continue;
      }
      var decoded := decode(line);
      if decoded.None? {
        LabelRowsFailureSticks(lines, i + 1, decode);
        return Failure(MalformedJson);
      }
      if !decoded.value.JObject? {
        LabelRowsFailureSticks(lines, i + 1, decode);
        return Failure(NotAnObject);
      }
      var obj := decoded.value.fields;
      var pairId := Get(obj, "pair_id");
      var qtype := FirstTruthy([Get(obj, "type"), Get(obj, "prompt_type"), Get(obj, "question_type")]);
      var answerText := FirstTruthy([Get(obj, "answer"), Get(obj, "response"), Get(obj, "model_answer"), Get(obj, "content")]);
      if qtype != JString(BetterOffenseType) {
        continue;
      }
      var choice := ExtractChoice(answerText);
      records := records + [LabelRow(pairId, qtype, answerText, choice)];
    }
    assert lines[..|lines|] == lines;
    return Success(records);
  }

  /** Lines 93-94: how many label rows have no choice. */
  function CountUnknown(rows: seq<LabelRow>): (n: nat)
    ensures n <= |rows|
  {
    if rows == [] then 0 else (if rows[0].choice.None? then 1 else 0) + CountUnknown(rows[1..])
  }

  // ---------------------------------------------------------------------
  // Step 2: the join with the pair table and the target (lines 100-103)
  // ---------------------------------------------------------------------

  /** A label row of `results/llm_pair_labels.csv`. */
  datatype LabelTableRow = LabelTableRow(
    pairId: JsonValue, questionType: JsonValue, answerText: JsonValue, choice: Option<Choice>,
    teamA: Option<string>, teamB: Option<string>, target: Option<int>)

  /** The label's `pair_id` equals the pair row's. */
  predicate MatchesPair(key: JsonValue, row: PairRow)
  {
    key == JString(row.pairId)
  }

  function FindPair(key: JsonValue, rows: seq<PairRow>): (r: Option<PairRow>)
    ensures r.Some? ==> r.value in rows && MatchesPair(key, r.value)
    ensures r.None? ==> forall j :: 0 <= j < |rows| ==> !MatchesPair(key, rows[j])
  {
    if rows == [] then None
    else if MatchesPair(key, rows[0]) then Some(rows[0])
    else
      var r := FindPair(key, rows[1..]);
      assert forall j :: 1 <= j < |rows| ==> rows[j] == rows[1..][j - 1];
      r
  }

  /** The right-hand keys are unique, as `validate="m:1"` demands. */
  predicate UniquePairIds(rows: seq<PairRow>)
  {
    forall i, j :: 0 <= i < j < |rows| ==> rows[i].pairId != rows[j].pairId
  }

  /** `.map({"A": 1, "B": 0})` (line 103). */
  function Target(c: Option<Choice>): (r: Option<int>)
    ensures r.Some? <==> c.Some?
    ensures r == Some(1) <==> c == Some(A)
    ensures r == Some(0) <==> c == Some(B)
  {
    match c
    case Some(A) => Some(1)
    case Some(B) => Some(0)
    case None => None
  }

  function JoinRow(entry: LabelRow, rows: seq<PairRow>): LabelTableRow
  {
    var m := FindPair(entry.pairId, rows);
    LabelTableRow(entry.pairId, entry.questionType, entry.answerText, entry.choice,
                  if m.Some? then Some(m.value.teamA) else None,
                  if m.Some? then Some(m.value.teamB) else None,
                  Target(entry.choice))
  }

  function JoinedRows(labels: seq<LabelRow>, rows: seq<PairRow>): (r: seq<LabelTableRow>)
    ensures |r| == |labels|
  {
    seq(|labels|, i requires 0 <= i < |labels| => JoinRow(labels[i], rows))
  }

  /** `df_labels.merge(pairs, on="pair_id", how="left", validate="m:1")`
      followed by the target column: one output row per label row, in order;
      a matched row gets the pair's teams, an unmatched one keeps the row with
      no teams; duplicate pair ids in the pair table fail. */
  function JoinLabels(labels: seq<LabelRow>, pairs: PairsTable): (r: Result<seq<LabelTableRow>, BuildError>)
    ensures "pair_id" !in pairs.columns ==> r == Failure(MissingPairColumns(["pair_id"]))
    ensures "pair_id" in pairs.columns && !UniquePairIds(pairs.rows) ==> r == Failure(DuplicatePairIds)
    ensures "pair_id" in pairs.columns && UniquePairIds(pairs.rows) ==> r.Success?
    ensures r.Success? ==> |r.value| == |labels|
    ensures r.Success? ==> forall i :: 0 <= i < |labels| ==>
              var row := r.value[i];
              && row.pairId == labels[i].pairId && row.questionType == labels[i].questionType
              && row.answerText == labels[i].answerText && row.choice == labels[i].choice
              && (row.teamA.None? <==> forall j :: 0 <= j < |pairs.rows| ==> !MatchesPair(labels[i].pairId, pairs.rows[j]))
              && (row.teamB.None? <==> forall j :: 0 <= j < |pairs.rows| ==> !MatchesPair(labels[i].pairId, pairs.rows[j]))
              && (forall j :: 0 <= j < |pairs.rows| && MatchesPair(labels[i].pairId, pairs.rows[j]) ==>
                    row.teamA == Some(pairs.rows[j].teamA) && row.teamB == Some(pairs.rows[j].teamB))
              && row.target == (if labels[i].choice == Some(A) then Some(1)
                                else if labels[i].choice == Some(B) then Some(0) else None)
  {
    if "pair_id" !in pairs.columns then Failure(MissingPairColumns(["pair_id"]))
    else if !UniquePairIds(pairs.rows) then Failure(DuplicatePairIds)
    else
      var joined := JoinedRows(labels, pairs.rows);
      assert forall i, j :: 0 <= i < |labels| && 0 <= j < |pairs.rows| && MatchesPair(labels[i].pairId, pairs.rows[j]) ==>
               FindPair(labels[i].pairId, pairs.rows) == Some(pairs.rows[j]);
      Success(joined)
  }

  function CountKnownTargets(rows: seq<LabelTableRow>): nat
  {
    if rows == [] then 0 else (if rows[0].target.Some? then 1 else 0) + CountKnownTargets(rows[1..])
  }

  /** The count reported at line 95, total minus unknown, is the number of
      label rows that end up with a target. */
  lemma {:induction false} ParsedCountIsKnownTargets(labels: seq<LabelRow>, rows: seq<PairRow>)
    ensures |labels| - CountUnknown(labels) == CountKnownTargets(JoinedRows(labels, rows))
  {
    if labels != [] {
      ParsedCountIsKnownTargets(labels[1..], rows);
      assert JoinedRows(labels, rows)[1..] == JoinedRows(labels[1..], rows);
    }
  }

  // ---------------------------------------------------------------------
  // Step 3: team statistics and differences (lines 113-153)
  // ---------------------------------------------------------------------

  /** Line 129 selects these columns of the team summary. */
  const TeamColumnsUsed: seq<string> := ["OffenseTeam"] + FeatureColumns

  /** A row of `df_train`: the label row and the matched team rows, if any. */
  datatype MergedRow = MergedRow(entry: LabelTableRow, statsA: Option<TeamRow>, statsB: Option<TeamRow>)

  /** The summary rows whose team name is `name`, in summary order. */
  function MatchingTeams(name: Option<string>, teams: seq<TeamRow>): (m: seq<TeamRow>)
    ensures forall t :: t in m <==> t in teams && name == Some(t.team)
    ensures m == [] <==> forall j :: 0 <= j < |teams| ==> name != Some(teams[j].team)
    ensures SubsequenceOf(m, teams)
  {
    if teams == [] then []
    else
      assert forall t :: t in teams <==> t == teams[0] || t in teams[1..];
      assert teams == [teams[0]] + teams[1..];
      if name == Some(teams[0].team) then [teams[0]] + MatchingTeams(name, teams[1..])
      else MatchingTeams(name, teams[1..])
  }

  /** Each summary row is merged as often as it occurs when it has the
      name, and never otherwise. */
  lemma {:induction false} MatchingTeamsCount(name: Option<string>, teams: seq<TeamRow>)
    ensures forall t :: multiset(MatchingTeams(name, teams))[t] == if name == Some(t.team) then multiset(teams)[t] else 0
  {
    if teams != [] {
      MatchingTeamsCount(name, teams[1..]);
      assert teams == [teams[0]] + teams[1..];
    }
  }

  /** A left merge emits, per left row, one row per match, or the row itself
      with no match. */
  function ExpandA(row: LabelTableRow, matches: seq<TeamRow>): (r: seq<MergedRow>)
    ensures |r| >= 1
  {
    if matches == [] then [MergedRow(row, None, None)]
    else seq(|matches|, k requires 0 <= k < |matches| => MergedRow(row, Some(matches[k]), None))
  }

  function ExpandB(row: MergedRow, matches: seq<TeamRow>): (r: seq<MergedRow>)
    ensures |r| >= 1
  {
    if matches == [] then [row.(statsB := None)]
    else seq(|matches|, k requires 0 <= k < |matches| => row.(statsB := Some(matches[k])))
  }

  /** `df_labels.merge(teams_A, on="teamA", how="left")`. */
  function MergeTeamA(rows: seq<LabelTableRow>, teams: seq<TeamRow>): (r: seq<MergedRow>)
    ensures |r| >= |rows|
  {
    if rows == [] then []
    else ExpandA(rows[0], MatchingTeams(rows[0].teamA, teams)) + MergeTeamA(rows[1..], teams)
  }

  /** `.merge(teams_B, on="teamB", how="left")`. */
  function MergeTeamB(rows: seq<MergedRow>, teams: seq<TeamRow>): (r: seq<MergedRow>)
    ensures |r| >= |rows|
  {
    if rows == [] then []
    else ExpandB(rows[0], MatchingTeams(rows[0].entry.teamB, teams)) + MergeTeamB(rows[1..], teams)
  }

  /** `df_train` of lines 142-144. */
  function MergeTeams(rows: seq<LabelTableRow>, teams: seq<TeamRow>): (r: seq<MergedRow>)
    ensures |r| >= |rows|
  {
    MergeTeamB(MergeTeamA(rows, teams), teams)
  }

  /** The label rows behind a list of merged rows. */
  function Entries(merged: seq<MergedRow>): (r: seq<LabelTableRow>)
    ensures |r| == |merged|
    ensures forall n :: 0 <= n < |merged| ==> r[n] == merged[n].entry
  {
    seq(|merged|, n requires 0 <= n < |merged| => merged[n].entry)
  }

  lemma {:induction false} MergeTeamBAppend(xs: seq<MergedRow>, ys: seq<MergedRow>, teams: seq<TeamRow>)
    ensures MergeTeamB(xs + ys, teams) == MergeTeamB(xs, teams) + MergeTeamB(ys, teams)
  {
    if xs == [] {
      assert xs + ys == ys;
    } else {
      assert (xs + ys)[1..] == xs[1..] + ys;
      MergeTeamBAppend(xs[1..], ys, teams);
    }
  }

  lemma {:induction false} MergeTeamBSameEntry(ms: seq<MergedRow>, teams: seq<TeamRow>, row: LabelTableRow)
    requires forall n :: 0 <= n < |ms| ==> ms[n].entry == row
    ensures forall n :: 0 <= n < |MergeTeamB(ms, teams)| ==> MergeTeamB(ms, teams)[n].entry == row
  {
    if ms != [] {
      MergeTeamBSameEntry(ms[1..], teams, row);
    }
  }

  lemma EntriesAppend(xs: seq<MergedRow>, ys: seq<MergedRow>)
    ensures Entries(xs + ys) == Entries(xs) + Entries(ys)
  {
    assert forall n :: 0 <= n < |xs + ys| ==> Entries(xs + ys)[n] == (Entries(xs) + Entries(ys))[n];
  }

  /** The merged rows of a non-empty label list: those of its first row, all
      carrying that row and at least one, then those of the rest. */
  lemma MergeTeamsUnfold(rows: seq<LabelTableRow>, teams: seq<TeamRow>)
    requires rows != []
    ensures var first := MergeTeamB(ExpandA(rows[0], MatchingTeams(rows[0].teamA, teams)), teams);
            && |first| >= 1
            && (forall n :: 0 <= n < |first| ==> first[n].entry == rows[0])
            && MergeTeams(rows, teams) == first + MergeTeams(rows[1..], teams)
  {
    var head := ExpandA(rows[0], MatchingTeams(rows[0].teamA, teams));
    MergeTeamBAppend(head, MergeTeamA(rows[1..], teams), teams);
    MergeTeamBSameEntry(head, teams, rows[0]);
  }

  /** Whatever the summary holds, the merges drop no label row and keep them
      in order. A row appears max(1, a) * max(1, b) times, where a and b
      count the summary rows matching its teamA and its teamB. */
  lemma {:induction false} MergeTeamsKeepsOrder(rows: seq<LabelTableRow>, teams: seq<TeamRow>)
    ensures SubsequenceOf(rows, Entries(MergeTeams(rows, teams)))
  {
    if rows != [] {
      MergeTeamsUnfold(rows, teams);
      MergeTeamsKeepsOrder(rows[1..], teams);
      var first := MergeTeamB(ExpandA(rows[0], MatchingTeams(rows[0].teamA, teams)), teams);
      var rest := MergeTeams(rows[1..], teams);
      EntriesAppend(first, rest);
      var ef := Entries(first);
      assert ef == [rows[0]] + ef[1..];
      SubsequenceCons(rows[0], rows[1..], Entries(rest), ef[1..]);
      assert [rows[0]] + rows[1..] == rows;
    }
  }

  /** Every merged row comes from a label row. */
  lemma {:induction false} MergeTeamsFromLabels(rows: seq<LabelTableRow>, teams: seq<TeamRow>)
    ensures forall e :: e in Entries(MergeTeams(rows, teams)) ==> e in rows
  {
    if rows != [] {
      MergeTeamsUnfold(rows, teams);
      MergeTeamsFromLabels(rows[1..], teams);
      var first := MergeTeamB(ExpandA(rows[0], MatchingTeams(rows[0].teamA, teams)), teams);
      var rest := MergeTeams(rows[1..], teams);
      EntriesAppend(first, rest);
      forall e | e in Entries(first)
        ensures e == rows[0]
      {
        var n :| 0 <= n < |Entries(first)| && Entries(first)[n] == e;
        assert first[n].entry == rows[0];
      }
      assert forall e :: e in rows[1..] ==> e in rows;
    }
  }

  /** A merged row carries, on each side, a summary row of exactly that team,
      or nothing when the summary has no such team. */
  predicate SideMatched(name: Option<string>, stats: Option<TeamRow>, teams: seq<TeamRow>)
  {
    match stats
    case Some(t) => t in teams && name == Some(t.team)
    case None => forall j :: 0 <= j < |teams| ==> name != Some(teams[j].team)
  }

  lemma {:induction false} MergeTeamAMatched(rows: seq<LabelTableRow>, teams: seq<TeamRow>)
    ensures forall k :: 0 <= k < |MergeTeamA(rows, teams)| ==>
              var m := MergeTeamA(rows, teams)[k];
              m.statsB.None? && SideMatched(m.entry.teamA, m.statsA, teams)
  {
    if rows != [] {
      MergeTeamAMatched(rows[1..], teams);
      var matches := MatchingTeams(rows[0].teamA, teams);
      if matches == [] {
        assert forall j :: 0 <= j < |teams| ==> teams[j] !in matches;
      } else {
        assert forall k :: 0 <= k < |matches| ==> matches[k] in matches;
      }
    }
  }

  lemma {:induction false} MergeTeamBMatched(rows: seq<MergedRow>, teams: seq<TeamRow>)
    requires forall k :: 0 <= k < |rows| ==> SideMatched(rows[k].entry.teamA, rows[k].statsA, teams)
    ensures forall k :: 0 <= k < |MergeTeamB(rows, teams)| ==>
              var m := MergeTeamB(rows, teams)[k];
              SideMatched(m.entry.teamA, m.statsA, teams) && SideMatched(m.entry.teamB, m.statsB, teams)
  {
    if rows != [] {
      MergeTeamBMatched(rows[1..], teams);
      var matches := MatchingTeams(rows[0].entry.teamB, teams);
      if matches == [] {
        assert forall j :: 0 <= j < |teams| ==> teams[j] !in matches;
      } else {
        assert forall k :: 0 <= k < |matches| ==> matches[k] in matches;
      }
    }
  }

  /** Both merges are left joins by team name: every training row's statistics
      belong to its own teamA and teamB, and a team the summary does not know
      gets no statistics rather than an error. */
  lemma MergeTeamsMatched(rows: seq<LabelTableRow>, teams: seq<TeamRow>)
    ensures forall k :: 0 <= k < |MergeTeams(rows, teams)| ==>
              var m := MergeTeams(rows, teams)[k];
              SideMatched(m.entry.teamA, m.statsA, teams) && SideMatched(m.entry.teamB, m.statsB, teams)
  {
    MergeTeamAMatched(rows, teams);
    MergeTeamBMatched(MergeTeamA(rows, teams), teams);
  }

  predicate UniqueTeamNames(teams: seq<TeamRow>)
  {
    forall i, j :: 0 <= i < j < |teams| ==> teams[i].team != teams[j].team
  }

  lemma {:induction false} MatchingTeamsAtMostOne(name: Option<string>, teams: seq<TeamRow>)
    requires UniqueTeamNames(teams)
    ensures |MatchingTeams(name, teams)| <= 1
  {
    if teams != [] {
      MatchingTeamsAtMostOne(name, teams[1..]);
      if name == Some(teams[0].team) {
        assert forall j :: 0 <= j < |teams[1..]| ==> teams[1..][j].team != teams[0].team;
      }
    }
  }

  lemma {:induction false} MergeTeamALength(rows: seq<LabelTableRow>, teams: seq<TeamRow>)
    requires UniqueTeamNames(teams)
    ensures |MergeTeamA(rows, teams)| == |rows|
    ensures forall k :: 0 <= k < |rows| ==> MergeTeamA(rows, teams)[k].entry == rows[k]
  {
    if rows != [] {
      MergeTeamALength(rows[1..], teams);
      MatchingTeamsAtMostOne(rows[0].teamA, teams);
    }
  }

  lemma {:induction false} MergeTeamBLength(rows: seq<MergedRow>, teams: seq<TeamRow>)
    requires UniqueTeamNames(teams)
    ensures |MergeTeamB(rows, teams)| == |rows|
    ensures forall k :: 0 <= k < |rows| ==> MergeTeamB(rows, teams)[k].entry == rows[k].entry
  {
    if rows != [] {
      MergeTeamBLength(rows[1..], teams);
      MatchingTeamsAtMostOne(rows[0].entry.teamB, teams);
    }
  }

  /** With distinct team names in the summary the merges keep every label row,
      in order, one row each; rows without a target stay too. (With duplicated
      names a label row is repeated max(1, a) * max(1, b) times, a and b
      counting the summary rows matching its teamA and its teamB.) */
  lemma MergeTeamsKeepsRows(rows: seq<LabelTableRow>, teams: seq<TeamRow>)
    requires UniqueTeamNames(teams)
    ensures |MergeTeams(rows, teams)| == |rows|
    ensures forall k :: 0 <= k < |rows| ==> MergeTeams(rows, teams)[k].entry == rows[k]
  {
    MergeTeamALength(rows, teams);
    MergeTeamBLength(MergeTeamA(rows, teams), teams);
  }

  /** `df_train[f"teamX_{c}"]`: NaN when the team was not matched. */
  function StatOf(stats: Option<TeamRow>, column: string): Cell
  {
    match stats
    case Some(t) => CellOf(t, column)
    case None => None
  }

  /** Subtraction of two cells, NaN if either is NaN. */
  function Sub(a: Cell, b: Cell): (r: Cell)
    ensures r.Some? <==> a.Some? && b.Some?
    ensures r.Some? ==> r.value + b.value == a.value
  {
    if a.Some? && b.Some? then Some(a.value - b.value) else None
  }

  /** The names of the difference columns (line 151). */
  const DiffColumnNames: seq<string> :=
    seq(|FeatureColumns|, j requires 0 <= j < |FeatureColumns| => "diff_" + FeatureColumns[j])

  /** The columns of `results/training_data_for_model.csv` (line 153). */
  const TrainingColumns: seq<string> := ["pair_id", "teamA", "teamB", "llm_prefers_teamA"] + DiffColumnNames

  /** The training table has exactly ten difference columns, one per metric,
      named `diff_<metric>` in metric order and all distinct, after the four
      key columns, none of which is a difference column name. */
  lemma DiffColumnNamesAreTen()
    ensures |DiffColumnNames| == 10
    ensures forall j :: 0 <= j < 10 ==> DiffColumnNames[j] == "diff_" + FeatureColumns[j]
    ensures forall j, k :: 0 <= j < k < 10 ==> DiffColumnNames[j] != DiffColumnNames[k]
    ensures TrainingColumns == ["pair_id", "teamA", "teamB", "llm_prefers_teamA"] + DiffColumnNames && |TrainingColumns| == 14
    ensures forall j :: 0 <= j < 4 ==> TrainingColumns[j] !in DiffColumnNames
  {
    forall j, k | 0 <= j < k < 10
      ensures DiffColumnNames[j] != DiffColumnNames[k]
    {
      assert DiffColumnNames[j][5..] == FeatureColumns[j];
      assert DiffColumnNames[k][5..] == FeatureColumns[k];
    }
  }

  /** The loop of lines 147-148: one difference column per metric, in order. */
  method AddDiffColumns(merged: seq<MergedRow>) returns (diffs: seq<seq<Cell>>)
    ensures |diffs| == |FeatureColumns|
    ensures forall j :: 0 <= j < |FeatureColumns| ==> |diffs[j]| == |merged|
    ensures forall j, i :: 0 <= j < |FeatureColumns| && 0 <= i < |merged| ==>
              diffs[j][i] == Sub(StatOf(merged[i].statsA, FeatureColumns[j]), StatOf(merged[i].statsB, FeatureColumns[j]))
  {
    diffs := [];
    for j := 0 to |FeatureColumns|
      invariant |diffs| == j
      invariant forall k :: 0 <= k < j ==> |diffs[k]| == |merged|
      invariant forall k, i :: 0 <= k < j && 0 <= i < |merged| ==>
                  diffs[k][i] == Sub(StatOf(merged[i].statsA, FeatureColumns[k]), StatOf(merged[i].statsB, FeatureColumns[k]))
    {
      var c := FeatureColumns[j];
      var column := seq(|merged|, i requires 0 <= i < |merged| => Sub(StatOf(merged[i].statsA, c), StatOf(merged[i].statsB, c)));
      diffs := diffs + [column];
    }
  }

  /** The key columns of one training row. */
  datatype TrainingKey = TrainingKey(pairId: JsonValue, teamA: Option<string>, teamB: Option<string>, target: Option<int>)

  /** `model_df`: its header, the key columns row by row and `diffColumns[j]`
      holding `DiffColumnNames[j]`. */
  datatype TrainingTable = TrainingTable(columns: seq<string>, keys: seq<TrainingKey>, diffColumns: seq<seq<Cell>>)

  function KeyOf(m: MergedRow): TrainingKey
  {
    TrainingKey(m.entry.pairId, m.entry.teamA, m.entry.teamB, m.entry.target)
  }

  function KeysOf(merged: seq<MergedRow>): (keys: seq<TrainingKey>)
    ensures |keys| == |merged|
  {
    seq(|merged|, i requires 0 <= i < |merged| => KeyOf(merged[i]))
  }

  /** What `main` produces: the label table, the two counts it reports and
      the training table. */
  datatype BuildOutput = BuildOutput(labels: seq<LabelTableRow>, parsed: nat, total: nat, training: TrainingTable)

  /** `main` without the file I/O and the printing. */
  method BuildTrainingData(teamSummary: TeamTable, pairs: PairsTable, lines: seq<string>, decode: Decoder)
    returns (r: Result<BuildOutput, BuildError>)
    ensures LabelRowsOf(lines, decode).Failure? ==> r == Failure(LabelRowsOf(lines, decode).error)
    ensures LabelRowsOf(lines, decode) == Success([]) ==> r == Failure(NoLabelRows)
    ensures LabelRowsOf(lines, decode).Success? && LabelRowsOf(lines, decode).value != [] ==>
              var joined := JoinLabels(LabelRowsOf(lines, decode).value, pairs);
              var missingPair := MissingColumns(["teamA", "teamB"], pairs.columns);
              var missingTeam := MissingColumns(TeamColumnsUsed, teamSummary.columns);
              && (joined.Failure? ==> r == Failure(joined.error))
              && (joined.Success? && missingPair != [] ==> r == Failure(MissingPairColumns(missingPair)))
              && (joined.Success? && missingPair == [] && missingTeam != [] ==> r == Failure(MissingTeamColumns(missingTeam)))
              && (joined.Success? && missingPair == [] && missingTeam == [] ==> r.Success?)
    ensures r.Success? ==>
              var labels := LabelRowsOf(lines, decode).value;
              var table := JoinLabels(labels, pairs).value;
              var merged := MergeTeams(table, teamSummary.rows);
              && r.value.labels == table
              && r.value.total == |labels|
              && r.value.parsed == |labels| - CountUnknown(labels)
              && r.value.training.columns == TrainingColumns
              && r.value.training.keys == KeysOf(merged)
              && |r.value.training.diffColumns| == |FeatureColumns|
              && forall j, i :: 0 <= j < |FeatureColumns| && 0 <= i < |merged| ==>
                   |r.value.training.diffColumns[j]| == |merged| &&
                   r.value.training.diffColumns[j][i]
                     == Sub(StatOf(merged[i].statsA, FeatureColumns[j]), StatOf(merged[i].statsB, FeatureColumns[j]))
  {
    var read := ReadAnswerLabels(lines, decode);
    if read.Failure? {
      return Failure(read.error);
    }
    var labels := read.value;
    if labels == [] {
      return Failure(NoLabelRows);
    }
    var unknown := CountUnknown(labels);
    var total := |labels|;
    var joined := JoinLabels(labels, pairs);
    if joined.Failure? {
      return Failure(joined.error);
    }
    var missingPair := MissingColumns(["teamA", "teamB"], pairs.columns);
    if missingPair != [] {
      return Failure(MissingPairColumns(missingPair));
    }
    var missingTeam := MissingColumns(TeamColumnsUsed, teamSummary.columns);
    if missingTeam != [] {
      return Failure(MissingTeamColumns(missingTeam));
    }
    var merged := MergeTeams(joined.value, teamSummary.rows);
    var diffs := AddDiffColumns(merged);
    return Success(BuildOutput(joined.value, total - unknown, total, TrainingTable(TrainingColumns, KeysOf(merged), diffs)));
  }
}
