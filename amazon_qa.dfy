/** src/components/process_amazon_qa.py: builds the cleaned Amazon Q&A file.
    Answers from the multi-answer file are joined by question id to the texts of
    the multi-question file and written under a `question,answer` header; the
    pairs of the single-file dataset are then appended.

    A cell as pandas reads it is either missing (`NaN`) or a text. `NaN` is a
    float, which Python treats as true, while `notnull` rejects it. */
module AmazonQa {
  import opened Wrappers

  datatype Cell = NaN | Text(s: string)

  /** Python truthiness of a cell value: only the empty text is false. */
  predicate Truthy(c: Cell)
  {
    c.NaN? || c.s != []
  }

  /** `pd.notnull` of a value looked up with `.get`, where `None` means the key was absent. */
  predicate NotNull(v: Option<Cell>)
  {
    v.Some? && v.value.Text?
  }

  /** A row of multi_questions.csv; ids are compared by value. */
  datatype QuestionRow = QuestionRow(questionId: string, questionText: Cell)

  /** A row of multi_answers.csv. */
  datatype AnswerRow = AnswerRow(questionId: string, answerText: Cell)

  /** A row of single_qna.csv, by column name. */
  type SingleRow = map<string, Cell>

  /** A row of the output file. */
  type CsvRow = seq<Cell>

  const Header: CsvRow := [Text("question"), Text("answer")]

  // ---------------------------------------------------------------------------
  // Multi-file join

  /** The `questions` dict after reading every question row in order. */
  function QuestionMap(qs: seq<QuestionRow>): (m: map<string, Cell>)
    ensures m.Keys <= set i | 0 <= i < |qs| :: qs[i].questionId
    decreases |qs|
  {
    if qs == [] then map[]
    else
      var init := qs[..|qs| - 1];
      assert forall i :: 0 <= i < |init| ==> init[i] == qs[i];
      QuestionMap(init)[qs[|qs| - 1].questionId := qs[|qs| - 1].questionText]
  }

  /** Every id read is in the dict. */
  lemma {:induction false} QuestionMapHasEveryId(qs: seq<QuestionRow>, i: nat)
    requires i < |qs|
    ensures qs[i].questionId in QuestionMap(qs)
    decreases |qs|
  {
    if i < |qs| - 1 {
      QuestionMapHasEveryId(qs[..|qs| - 1], i);
    }
  }

  /** When ids repeat, the last row read wins: the dict holds the text of the
      last row carrying each id. */
  lemma {:induction false} LastWriteWins(qs: seq<QuestionRow>, i: nat)
    requires i < |qs|
    requires forall j :: i < j < |qs| ==> qs[j].questionId != qs[i].questionId
    ensures qs[i].questionId in QuestionMap(qs)
    ensures QuestionMap(qs)[qs[i].questionId] == qs[i].questionText
    decreases |qs|
  {
    if i < |qs| - 1 {
      LastWriteWins(qs[..|qs| - 1], i);
    }
  }

  /** The loop filling `questions`. */
  method BuildQuestionMap(qs: seq<QuestionRow>) returns (m: map<string, Cell>)
    ensures m == QuestionMap(qs)
  {
    m := map[];
    for i := 0 to |qs|
      invariant m == QuestionMap(qs[..i])
    {
      assert qs[..i + 1][..i] == qs[..i];
      m := m[qs[i].questionId := qs[i].questionText];
    }
    assert qs[..|qs|] == qs;
  }

  /** The row written for one answer, if any: its id must map to a truthy
      question and its answer must not be null. */
  function PairFor(questions: map<string, Cell>, a: AnswerRow): Option<CsvRow>
  {
    if a.questionId in questions && Truthy(questions[a.questionId]) && a.answerText.Text?
    then Some([questions[a.questionId], a.answerText])
    else None
  }

  /** The pairs written for `answers`, in answer order. */
  function MultiPairs(questions: map<string, Cell>, answers: seq<AnswerRow>): (rows: seq<CsvRow>)
    ensures |rows| <= |answers|
    decreases |answers|
  {
    if answers == [] then []
    else
      var init := MultiPairs(questions, answers[..|answers| - 1]);
      match PairFor(questions, answers[|answers| - 1])
      case None => init
      case Some(row) => init + [row]
  }

  /** The join distributes over concatenation, so written pairs follow answer order. */
  lemma {:induction false} MultiPairsAppend(questions: map<string, Cell>, xs: seq<AnswerRow>, ys: seq<AnswerRow>)
    ensures MultiPairs(questions, xs + ys) == MultiPairs(questions, xs) + MultiPairs(questions, ys)
    decreases |ys|
  {
    if ys == [] {
      assert xs + ys == xs;
    } else {
      var init := ys[..|ys| - 1];
      MultiPairsAppend(questions, xs, init);
      assert (xs + ys)[..|xs + ys| - 1] == xs + init;
      assert (xs + ys)[|xs + ys| - 1] == ys[|ys| - 1];
    }
  }

  /** `row` is the pair for answer `a`: the answer's id maps to a truthy
      question, the answer is present, and the row holds both. */
  predicate Produces(questions: map<string, Cell>, a: AnswerRow, row: CsvRow)
  {
    a.questionId in questions && Truthy(questions[a.questionId]) && a.answerText.Text?
    && row == [questions[a.questionId], a.answerText]
  }

  /** Every written pair is the mapped question and the answer text of some
      answer whose id has a truthy question, and whose answer is not null. */
  lemma {:induction false} MultiPairsSound(questions: map<string, Cell>, answers: seq<AnswerRow>)
    ensures forall row :: row in MultiPairs(questions, answers) ==> exists i :: 0 <= i < |answers| && Produces(questions, answers[i], row)
    decreases |answers|
  {
    if answers != [] {
      var init := answers[..|answers| - 1];
      MultiPairsSound(questions, init);
      forall row | row in MultiPairs(questions, answers)
        ensures exists i :: 0 <= i < |answers| && Produces(questions, answers[i], row)
      {
        if row in MultiPairs(questions, init) {
          var i :| 0 <= i < |init| && Produces(questions, init[i], row);
          assert answers[i] == init[i];
        } else {
          assert Produces(questions, answers[|answers| - 1], row);
        }
      }
    }
  }

  /** A single answer is written exactly when its question is known and truthy and its answer is present. */
  lemma {:induction false} OneAnswerWritten(questions: map<string, Cell>, a: AnswerRow)
    ensures MultiPairs(questions, [a]) != [] <==>
      a.questionId in questions && Truthy(questions[a.questionId]) && !a.answerText.NaN?
  {
    assert [a][..0] == [];
  }

  /** A question whose text is missing is still written: `NaN` is true in Python,
      so the pair carries the missing question. */
  lemma {:induction false} MissingQuestionTextIsWritten(questions: map<string, Cell>, a: AnswerRow)
    requires a.questionId in questions && questions[a.questionId] == NaN
    requires a.answerText.Text?
    ensures MultiPairs(questions, [a]) == [[NaN, a.answerText]]
  {
    assert [a][..0] == [];
  }

  // ---------------------------------------------------------------------------
  // Single-file pairs

  /** `row.get(lower) or row.get(upper)`: the lower-case column when present and
      truthy, otherwise whatever the capitalised column holds. */
  function Field(row: SingleRow, lower: string, upper: string): Option<Cell>
  {
    if lower in row && Truthy(row[lower]) then Some(row[lower])
    else if upper in row then Some(row[upper])
    else None
  }

  /** The row written for one single-file row, if any. */
  function SinglePairFor(row: SingleRow): Option<CsvRow>
  {
    var q: Option<Cell> := Field(row, "question", "Question");
    var a: Option<Cell> := Field(row, "answer", "Answer");
    if NotNull(q) && NotNull(a) then Some([q.value, a.value]) else None
  }

  /** The pairs appended for the single file, in row order, at most one per row. */
  function SinglePairs(rows: seq<SingleRow>): (out: seq<CsvRow>)
    ensures |out| <= |rows|
    decreases |rows|
  {
    if rows == [] then []
    else
      var init := SinglePairs(rows[..|rows| - 1]);
      match SinglePairFor(rows[|rows| - 1])
      case None => init
      case Some(pair) => init + [pair]
  }

  /** Every single-file pair holds two non-null texts. */
  lemma {:induction false} SinglePairsAreTexts(rows: seq<SingleRow>)
    ensures forall k :: 0 <= k < |SinglePairs(rows)| ==>
      |SinglePairs(rows)[k]| == 2 && SinglePairs(rows)[k][0].Text? && SinglePairs(rows)[k][1].Text?
    decreases |rows|
  {
    if rows != [] {
      SinglePairsAreTexts(rows[..|rows| - 1]);
    }
  }

  /** One more row adds its pair, if it has one. */
  lemma {:induction false} SinglePairsSnoc(rows: seq<SingleRow>, i: nat)
    requires i < |rows|
    ensures SinglePairs(rows[..i + 1])
      == SinglePairs(rows[..i]) + if SinglePairFor(rows[i]).Some? then [SinglePairFor(rows[i]).value] else []
  {
    assert rows[..i + 1][..i] == rows[..i];
  }

  /** A non-empty lower-case text is used whatever the capitalised column says. */
  lemma {:induction false} LowerCaseColumnPreferred(row: SingleRow, upperQuestion: Cell)
    requires "question" in row && row["question"].Text? && row["question"].s != []
    requires "answer" in row && row["answer"].Text? && row["answer"].s != []
    ensures SinglePairs([row["Question" := upperQuestion]]) == [[row["question"], row["answer"]]]
  {
    var r := row["Question" := upperQuestion];
    assert [r][..0] == [];
  }

  /** A lower-case column that is absent or holds the empty text falls back to
      the capitalised column: the row is written from the capitalised question and
      answer when both hold texts, and skipped otherwise. */
  lemma {:induction false} EmptyLowerCaseFallsBack(row: SingleRow)
    requires "question" !in row || row["question"] == Text([])
    requires "answer" !in row || row["answer"] == Text([])
    ensures SinglePairs([row])
      == if "Question" in row && row["Question"].Text? && "Answer" in row && row["Answer"].Text?
         then [[row["Question"], row["Answer"]]]
         else []
  {
    assert [row][..0] == [];
  }

  /** Every single-file pair comes from some row, and every row that has a pair
      contributes it. */
  lemma {:induction false} SinglePairsSound(rows: seq<SingleRow>)
    ensures forall pair :: pair in SinglePairs(rows) ==> exists i :: 0 <= i < |rows| && SinglePairFor(rows[i]) == Some(pair)
    ensures forall i :: 0 <= i < |rows| && SinglePairFor(rows[i]).Some? ==> SinglePairFor(rows[i]).value in SinglePairs(rows)
    decreases |rows|
  {
    if rows != [] {
      var init := rows[..|rows| - 1];
      SinglePairsSound(init);
      forall pair | pair in SinglePairs(rows)
        ensures exists i :: 0 <= i < |rows| && SinglePairFor(rows[i]) == Some(pair)
      {
        if pair in SinglePairs(init) {
          var i :| 0 <= i < |init| && SinglePairFor(init[i]) == Some(pair);
          assert rows[i] == init[i];
        } else {
          assert SinglePairFor(rows[|rows| - 1]) == Some(pair);
        }
      }
      forall i | 0 <= i < |rows| && SinglePairFor(rows[i]).Some?
        ensures SinglePairFor(rows[i]).value in SinglePairs(rows)
      {
        if i < |rows| - 1 {
          assert rows[i] == init[i];
        }
      }
    }
  }

  /** A missing lower-case value is true in Python, so it is kept, fails the
      null check, and the row is skipped even when the capitalised column holds
      a question. */
  lemma {:induction false} MissingLowerCaseHidesFallback(row: SingleRow)
    requires "question" in row && row["question"] == NaN
    ensures SinglePairs([row]) == []
  {
    assert [row][..0] == [];
  }

  // ---------------------------------------------------------------------------
  // The output file

  /** artifacts/amazon_qa_cleaned.csv. */
  class OutputFile {
    var rows: seq<CsvRow>

    constructor ()
      ensures rows == []
    {
      rows := [];
    }

    /** `process_multi_qa`: the file is truncated, the header written, and one
        pair per qualifying answer appended in answer order. */
    method ProcessMultiQa(questionRows: seq<QuestionRow>, answerRows: seq<AnswerRow>)
      modifies this
      ensures rows == [Header] + MultiPairs(QuestionMap(questionRows), answerRows)
    {
      var questions := BuildQuestionMap(questionRows);
      rows := [Header];
      for i := 0 to |answerRows|
        invariant rows == [Header] + MultiPairs(questions, answerRows[..i])
      {
        var a := answerRows[i];
        ghost var before := rows;
        if a.questionId in questions {
          var question := questions[a.questionId];
          if Truthy(question) && a.answerText.Text? {
            rows := rows + [[question, a.answerText]];
          }
        }
        assert rows == before + match PairFor(questions, a) case None => [] case Some(pair) => [pair];
        assert answerRows[..i + 1][..i] == answerRows[..i];
      }
      assert answerRows[..|answerRows|] == answerRows;
    }

    /** `process_single_qna`: the file is opened for appending and the qualifying
        single-file pairs are added after what it already holds. */
    method ProcessSingleQna(singleRows: seq<SingleRow>)
      modifies this
      ensures rows == old(rows) + SinglePairs(singleRows)
    {
      for i := 0 to |singleRows|
        invariant rows == old(rows) + SinglePairs(singleRows[..i])
      {
        var row := singleRows[i];
        var question := Field(row, "question", "Question");
        var answer := Field(row, "answer", "Answer");
        ghost var before := rows;
        if NotNull(question) && NotNull(answer) {
          rows := rows + [[question.value, answer.value]];
        }
        assert SinglePairFor(row) == if NotNull(question) && NotNull(answer) then Some([question.value, answer.value]) else None;
        SinglePairsSnoc(singleRows, i);
      }
      assert singleRows[..|singleRows|] == singleRows;
    }
  }

  /** The script: multi pairs under the header, then the single-file pairs. */
  method BuildCleanedQa(questionRows: seq<QuestionRow>, answerRows: seq<AnswerRow>, singleRows: seq<SingleRow>)
    returns (out: OutputFile)
    ensures out.rows == [Header] + MultiPairs(QuestionMap(questionRows), answerRows) + SinglePairs(singleRows)
    ensures out.rows[0] == Header
  {
    out := new OutputFile();
    out.ProcessMultiQa(questionRows, answerRows);
    out.ProcessSingleQna(singleRows);
  }
}
