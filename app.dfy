/**
 The answer-selection path of the question-answering web service: the
 lookup table built once from the dataset at start-up, and the `/predict`
 handler that chooses the reply to a submitted question.

 The dataset is `None` when reading the CSV file failed. The recurrent
 network's output is taken as given: `predToken` is the vocabulary token it
 predicted for the question, and `tokenize` is the tokenizer of the model's
 module, left uninterpreted.
 */
module QaApp {
  import opened Wrappers
  import opened Text
  import Dict

  /** One dataset row: its `question` and `answer` columns. */
  datatype Row = Row(question: string, answer: string)

  /** The reply when the dataset could not be loaded. */
  const DatasetNotLoaded: string := "Dataset not loaded."
  /** The reply when neither the table nor the model finds an answer. */
  const AnswerNotFound: string := "Sorry, answer not found."

  /** The lookup key of a row: its question, stripped and lower-cased. The
      key has no whitespace at either end and no upper-case letter. */
  function Key(row: Row): (k: string)
    ensures Trimmed(k) && NoUpper(k)
    ensures |k| <= |row.question|
  {
    Normalize(row.question)
  }

  /** No row after `i` has the key of row `i`. */
  predicate LastWithKey(rows: seq<Row>, i: int)
    requires 0 <= i < |rows|
  {
    forall j :: i < j < |rows| ==> Key(rows[j]) != Key(rows[i])
  }

  /** The `(key, answer)` pairs of the rows, in row order. */
  function KeyedAnswers(rows: seq<Row>): seq<(string, string)> {
    seq(|rows|, i requires 0 <= i < |rows| => (Key(rows[i]), rows[i].answer))
  }

  /** The direct question-to-answer table, filled in row order, so that a
      later row with the same key overwrites an earlier one. Every row's key
      is in it (and, by LookupEntry, nothing else is). */
  function BuildLookup(rows: seq<Row>): (m: map<string, string>)
    ensures forall i :: 0 <= i < |rows| ==> Key(rows[i]) in m
  {
    var pairs := KeyedAnswers(rows);
    assert forall i :: 0 <= i < |rows| ==> pairs[i].0 == Key(rows[i]);
    Dict.FromPairs(pairs)
  }

  /** The key of the last row that has it maps to that row's answer. */
  lemma LookupLastWins(rows: seq<Row>, i: int)
    requires 0 <= i < |rows| && LastWithKey(rows, i)
    ensures BuildLookup(rows)[Key(rows[i])] == rows[i].answer
  {
    var pairs := KeyedAnswers(rows);
    assert Dict.LastWithKey(pairs, i) by {
      forall j | i < j < |pairs| ensures pairs[j].0 != pairs[i].0 {
        assert pairs[j].0 == Key(rows[j]);
      }
    }
    Dict.LastWins(pairs, i);
  }

  /** Every entry of the table comes from the last row with that key. */
  lemma LookupEntry(rows: seq<Row>, k: string) returns (i: nat)
    requires k in BuildLookup(rows)
    ensures i < |rows| && Key(rows[i]) == k && LastWithKey(rows, i)
    ensures BuildLookup(rows)[k] == rows[i].answer
  {
    var pairs := KeyedAnswers(rows);
    i := Dict.EntryOf(pairs, k);
    forall j | i < j < |rows| ensures Key(rows[j]) != k {
      assert pairs[j].0 == Key(rows[j]);
    }
  }

  /** The module-level table `qa_lookup`: empty when the dataset is missing. */
  function QaLookup(df: Option<seq<Row>>): (m: map<string, string>)
    ensures df.None? ==> m == map[]
  {
    match df
    case None => map[]
    case Some(rows) => BuildLookup(rows)
  }

  /** The submitted `question` form field, the empty string when absent. */
  function QuestionField(form: map<string, string>): (q: string)
    ensures "question" in form ==> q == form["question"]
    ensures "question" !in form ==> q == ""
  {
    if "question" in form then form["question"] else ""
  }

  /** How many rows have an answer whose tokens contain the predicted
      token. */
  function CountMatches(rows: seq<Row>, tokenize: string -> seq<string>, predToken: string): (n: nat)
    ensures n <= |rows|
  {
    if rows == [] then 0
    else (if predToken in tokenize(rows[0].answer) then 1 else 0) + CountMatches(rows[1..], tokenize, predToken)
  }

  /** The answers, in row order, whose tokens contain the predicted token:
      one per matching row (see PossibleAnswersInOrder for the position of
      each), and nothing else. */
  function PossibleAnswers(rows: seq<Row>, tokenize: string -> seq<string>, predToken: string): (r: seq<string>)
    ensures |r| == CountMatches(rows, tokenize, predToken)
    ensures forall a :: a in r ==> predToken in tokenize(a)
    ensures forall a :: a in r ==> exists i :: 0 <= i < |rows| && rows[i].answer == a
    ensures forall i :: 0 <= i < |rows| && predToken in tokenize(rows[i].answer) ==> rows[i].answer in r
    ensures r == [] <==> forall i :: 0 <= i < |rows| ==> predToken !in tokenize(rows[i].answer)
  {
    if rows == [] then []
    else
      (if predToken in tokenize(rows[0].answer) then [rows[0].answer] else [])
      + PossibleAnswers(rows[1..], tokenize, predToken)
  }

  /** The answer of the `i`th row, if it matches, is listed after exactly
      the answers of the matching rows before it. With the length given by
      PossibleAnswers this fixes the whole list: the matching answers, in
      row order. */
  lemma {:induction false} PossibleAnswersInOrder(rows: seq<Row>, tokenize: string -> seq<string>, predToken: string, i: int)
    requires 0 <= i < |rows| && predToken in tokenize(rows[i].answer)
    ensures CountMatches(rows[..i], tokenize, predToken) < |PossibleAnswers(rows, tokenize, predToken)|
    ensures PossibleAnswers(rows, tokenize, predToken)[CountMatches(rows[..i], tokenize, predToken)] == rows[i].answer
  {
    var rest := rows[1..];
    var head: seq<string> := if predToken in tokenize(rows[0].answer) then [rows[0].answer] else [];
    assert PossibleAnswers(rows, tokenize, predToken) == head + PossibleAnswers(rest, tokenize, predToken);
    if i > 0 {
      PossibleAnswersInOrder(rest, tokenize, predToken, i - 1);
      assert rows[..i][1..] == rest[..i - 1];
      assert CountMatches(rows[..i], tokenize, predToken) == |head| + CountMatches(rest[..i - 1], tokenize, predToken);
    }
  }

  /** The position of the first row whose answer's tokens contain the
      predicted token, if any. */
  function FirstMatching(rows: seq<Row>, tokenize: string -> seq<string>, predToken: string): (r: Option<nat>)
    ensures r.Some? ==> r.value < |rows| && predToken in tokenize(rows[r.value].answer)
    ensures r.Some? ==> forall j :: 0 <= j < r.value ==> predToken !in tokenize(rows[j].answer)
    ensures r.None? <==> forall j :: 0 <= j < |rows| ==> predToken !in tokenize(rows[j].answer)
  {
    if rows == [] then None
    else if predToken in tokenize(rows[0].answer) then Some(0)
    else
      match FirstMatching(rows[1..], tokenize, predToken)
      case None => None
      case Some(i) => Some(i + 1)
  }

  /** The head of the list of possible answers is the answer of the first
      matching row. */
  lemma {:induction false} PossibleAnswersHead(rows: seq<Row>, tokenize: string -> seq<string>, predToken: string)
    ensures FirstMatching(rows, tokenize, predToken).None? <==> PossibleAnswers(rows, tokenize, predToken) == []
    ensures FirstMatching(rows, tokenize, predToken).Some? ==>
      PossibleAnswers(rows, tokenize, predToken)[0] == rows[FirstMatching(rows, tokenize, predToken).value].answer
  {
    if rows != [] {
      var rest := rows[1..];
      var head: seq<string> := if predToken in tokenize(rows[0].answer) then [rows[0].answer] else [];
      assert PossibleAnswers(rows, tokenize, predToken) == head + PossibleAnswers(rest, tokenize, predToken);
      if head == [] {
        PossibleAnswersHead(rest, tokenize, predToken);
        match FirstMatching(rest, tokenize, predToken)
        case None =>
        case Some(j) => assert rows[j + 1] == rest[j];
      }
    }
  }

  /** The `/predict` handler: the reply placed in the `answer` field. */
  function Predict(df: Option<seq<Row>>, form: map<string, string>,
                   tokenize: string -> seq<string>, predToken: string): (reply: string)
    ensures df.None? ==> reply == DatasetNotLoaded
    ensures '-' !in reply
  {
    if df.None? then DatasetNotLoaded
    else
      var rows := df.value;
      var qkey := Normalize(QuestionField(form));
      var lookup := QaLookup(df);
      if qkey in lookup then ReplaceHyphens(lookup[qkey])
      else
        var possible := PossibleAnswers(rows, tokenize, predToken);
        if possible != [] then ReplaceHyphens(possible[0])
        else AnswerNotFound
  }

  /** A missing `question` field is answered exactly like an empty one. */
  lemma MissingQuestionIsEmpty(df: Option<seq<Row>>, form: map<string, string>,
                               tokenize: string -> seq<string>, predToken: string)
    requires "question" !in form
    ensures Predict(df, form, tokenize, predToken) == Predict(df, form["question" := ""], tokenize, predToken)
  {
  }

  /** A question whose key is in the table gets the answer of the last row
      with that key, hyphens turned into spaces, whatever the model
      predicted. */
  lemma PredictDirectHit(rows: seq<Row>, form: map<string, string>, i: int,
                         tokenize: string -> seq<string>, predToken: string)
    requires 0 <= i < |rows| && LastWithKey(rows, i)
    requires Key(rows[i]) == Normalize(QuestionField(form))
    ensures Predict(Some(rows), form, tokenize, predToken) == ReplaceHyphens(rows[i].answer)
  {
    LookupLastWins(rows, i);
  }

  /** The model's prediction matters only when the key is not in the
      table: on a direct hit the reply does not depend on it. */
  lemma DirectHitIgnoresModel(rows: seq<Row>, form: map<string, string>,
                              tokenize: string -> seq<string>, predToken: string,
                              tokenize': string -> seq<string>, predToken': string)
    requires Normalize(QuestionField(form)) in BuildLookup(rows)
    ensures Predict(Some(rows), form, tokenize, predToken) == Predict(Some(rows), form, tokenize', predToken')
  {
  }

  /** A question that differs from a stored one only in ASCII letter case
      and in the whitespace around either of them takes the direct-lookup
      path: the stored question is `before' + u + after'`, the asked one is
      `before + t + after`, and `t` equals `u` up to case. */
  lemma {:induction false} PredictUpToCaseAndPadding(rows: seq<Row>, i: int, before: string, t: string, after: string,
                                                     before': string, u: string, after': string,
                                                     tokenize: string -> seq<string>, predToken: string)
    requires 0 <= i < |rows| && LastWithKey(rows, i)
    requires rows[i].question == before' + u + after'
    requires AllSpace(before') && AllSpace(after')
    requires AllSpace(before) && AllSpace(after) && SameUpToCase(t, u)
    ensures Predict(Some(rows), map["question" := before + t + after], tokenize, predToken)
            == ReplaceHyphens(rows[i].answer)
  {
    NormalizeIgnoresCaseAndPadding(before, t, after, u);
    NormalizeIgnoresCaseAndPadding(before', u, after', u);
    PredictDirectHit(rows, map["question" := before + t + after], i, tokenize, predToken);
  }

  /** When no row has the question's key, the reply is the answer of the
      first row whose tokens contain the predicted token, hyphens turned
      into spaces. */
  lemma PredictFallback(rows: seq<Row>, form: map<string, string>, i: int,
                        tokenize: string -> seq<string>, predToken: string)
    requires forall j :: 0 <= j < |rows| ==> Key(rows[j]) != Normalize(QuestionField(form))
    requires 0 <= i < |rows| && predToken in tokenize(rows[i].answer)
    requires forall j :: 0 <= j < i ==> predToken !in tokenize(rows[j].answer)
    ensures Predict(Some(rows), form, tokenize, predToken) == ReplaceHyphens(rows[i].answer)
  {
    var k := Normalize(QuestionField(form));
    if k in BuildLookup(rows) {
      var j := LookupEntry(rows, k);
      assert false;
    }
    PossibleAnswersHead(rows, tokenize, predToken);
  }

  /** When no row has the question's key and no answer contains the
      predicted token, the reply is the not-found sentinel. */
  lemma PredictNotFound(rows: seq<Row>, form: map<string, string>,
                        tokenize: string -> seq<string>, predToken: string)
    requires forall j :: 0 <= j < |rows| ==> Key(rows[j]) != Normalize(QuestionField(form))
    requires forall j :: 0 <= j < |rows| ==> predToken !in tokenize(rows[j].answer)
    ensures Predict(Some(rows), form, tokenize, predToken) == AnswerNotFound
  {
    var k := Normalize(QuestionField(form));
    if k in BuildLookup(rows) {
      var j := LookupEntry(rows, k);
      assert false;
    }
  }

  /** With the dataset loaded, every reply is either the not-found sentinel
      or some row's answer with its hyphens turned into spaces. */
  lemma PredictReplyOrigin(rows: seq<Row>, form: map<string, string>,
                           tokenize: string -> seq<string>, predToken: string)
      returns (i: Option<nat>)
    ensures i.None? ==> Predict(Some(rows), form, tokenize, predToken) == AnswerNotFound
    ensures i.Some? ==> i.value < |rows|
    ensures i.Some? ==> Predict(Some(rows), form, tokenize, predToken) == ReplaceHyphens(rows[i.value].answer)
  {
    var k := Normalize(QuestionField(form));
    if k in BuildLookup(rows) {
      var j := LookupEntry(rows, k);
      i := Some(j);
    } else {
      PossibleAnswersHead(rows, tokenize, predToken);
      match FirstMatching(rows, tokenize, predToken)
      case None => i := None;
      case Some(j) => i := Some(j);
    }
  }
}
