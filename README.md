# Question-answering service: answer selection

A model, in Dafny, of how the Flask question-answering service in `app.py`
chooses the reply to a question posted to its `/predict` endpoint.

At start-up the service reads a CSV dataset of question/answer rows and
builds `qa_lookup`, a dict from each row's question, stripped of surrounding
whitespace and lower-cased, to that row's answer; a later row with the same
key overwrites an earlier one. A posted question is then answered by the
first of these that applies:

1. the dataset failed to load: the reply is `"Dataset not loaded."`;
2. the question's key is in the table: the stored answer;
3. otherwise the recurrent network predicts a vocabulary token, and the reply
   is the first answer, in row order, whose tokens contain it;
4. no answer contains it: the reply is `"Sorry, answer not found."`.

Answers are returned with every `-` turned into a space.

The model is made of pure functions and lemmas, as the code is: the table is
a dict comprehension and `predict` only reads globals that are set once.

- `wrappers.dfy` (`Wrappers`): `Option`. The dataset is an
  `Option<seq<Row>>`, and `None` stands for a CSV file that could not be read.
- `text.dfy` (`Text`): Python's `str.strip()`, `str.lower()` and
  `str.replace('-', ' ')` on strings. `Normalize` gives the table key.
- `dict.dfy` (`Dict`): a dict built by a comprehension over ordered
  key/value pairs, where the last occurrence of a key wins.
- `app.dfy` (`QaApp`): the table `qa_lookup`, the list `possible_answers`
  and the `predict` handler.

Some parts of the service are not modelled and become parameters:

- the form is a `map<string, string>`;
- `predToken` is the token the network predicted;
- `tokenize` is a function value whose body is not known.

## Model

| member | source | states |
|---|---|---|
| `Text.Strip` | app.py:34 | `strip()` gives a string with no whitespace at either end, found in the input with only whitespace before and after it |
| `Text.StripUnique` | app.py:34 | any trimmed string that the input pads with whitespace alone is the result of `strip()`, so the result is unique |
| `Text.StripIgnoresPadding` | app.py:34 | adding whitespace on either side of a string does not change what `strip()` returns |
| `Text.StripIdempotent` | app.py:34 | stripping twice gives the same result as stripping once |
| `Text.Lower` | app.py:34 | `lower()` keeps the length and lowers each character where it stands |
| `Text.LowerProperties` | app.py:34 | after `lower()` no upper-case letter is left, lowering again changes nothing, and the result equals the input up to case |
| `Text.Normalize` | app.py:34 | the key `strip().lower()` has no surrounding whitespace, no upper-case letters and is no longer than the input |
| `Text.NormalizeLowerFirst` | app.py:34 | lowering and then stripping gives the same key as stripping and then lowering |
| `Text.NormalizeIgnoresCaseAndPadding` | app.py:34 | two questions that differ only in letter case and surrounding whitespace have the same key |
| `Text.ReplaceHyphens` | app.py:37 | `replace('-', ' ')` keeps the length, turns each `-` into a space, leaves every other character in place, and leaves no `-` |
| `Text.ReplaceHyphensIdentity` | app.py:48 | a string with no hyphen is returned unchanged, so the replacement is idempotent |
| `Dict.FromPairs` | app.py:16 | a dict comprehension over pairs has every key of the pairs |
| `Dict.LastWins` | app.py:16 | a key maps to the value of its last occurrence among the pairs |
| `Dict.EntryOf` | app.py:16 | every entry of the dict is the key and value of the last pair with that key |
| `QaApp.Key` | app.py:16 | a row's key, `question.strip().lower()`, has no whitespace at either end, no upper-case letter, and is no longer than the question |
| `QaApp.BuildLookup` | app.py:16 | every row's stripped and lower-cased question is a key of `qa_lookup` |
| `QaApp.LookupLastWins` | app.py:16 | when several rows share a key, the table maps it to the answer of the last of them |
| `QaApp.LookupEntry` | app.py:16 | every key of the table is the key of some row, and its value is the answer of the last row with that key |
| `QaApp.QaLookup` | app.py:16 | without a dataset the table is empty |
| `QaApp.PossibleAnswers` | app.py:46 | the list holds one answer per row whose answer's tokens contain the predicted token: every listed answer is such a row's answer, every matching row's answer is listed, and the list is empty exactly when no row matches |
| `QaApp.PossibleAnswersInOrder` | app.py:46 | each matching row's answer sits at the position given by the number of matching rows before it, so the list keeps row order |
| `QaApp.FirstMatching` | app.py:46-48 | the position of the first row whose answer's tokens contain the predicted token: no earlier row's do, and there is none exactly when no row's do |
| `QaApp.PossibleAnswersHead` | app.py:46-48 | `possible_answers` is non-empty exactly when a row matches, and its first element is the first matching row's answer |
| `QaApp.Predict` | app.py:30-50 | without a dataset the reply is exactly `"Dataset not loaded."` for every input, and no reply contains a `-` |
| `QaApp.QuestionField` | app.py:33 | the submitted `question` field, and an absent field is the empty string |
| `QaApp.MissingQuestionIsEmpty` | app.py:33 | a request with no `question` field gets the same reply as one with an empty `question` |
| `QaApp.PredictDirectHit` | app.py:34-37 | when a row has the question's key, the reply is the answer of the last such row with its hyphens turned into spaces |
| `QaApp.DirectHitIgnoresModel` | app.py:36-39 | when the key is in the table, the reply does not depend on the tokenizer or the predicted token, so the fallback runs only when the key is absent |
| `QaApp.PredictUpToCaseAndPadding` | app.py:34-37 | a question equal to a stored one up to case, with any whitespace around either of them, is answered from the table with that row's answer |
| `QaApp.PredictFallback` | app.py:38-48 | when no row has the question's key, the reply is the first answer in row order whose tokens contain the predicted token, with its hyphens turned into spaces |
| `QaApp.PredictNotFound` | app.py:46-50 | when no row has the key and no answer contains the predicted token, the reply is exactly `"Sorry, answer not found."` |
| `QaApp.PredictReplyOrigin` | app.py:31-50 | with the dataset loaded, every reply is either the not-found sentinel or some row's answer with its hyphens turned into spaces |

## Left out

- Flask routing, `render_template`, `jsonify` and `app.run` (app.py:23-27, 52-53) are web glue. The model's reply is the string placed in the JSON `answer` field.
- Reading the CSV with pandas, the absolute path and the error message (app.py:8-13) are file I/O. Only the outcome is modelled: `Some(rows)` or `None`.
- Building `SimpleRNN`, `text_to_indices`, the tensor, softmax and argmax (app.py:19-21, 39-43) are floating-point inference over a model that is not part of this project. The predicted token is a parameter, `predToken`.
- The token for the predicted index, `list(vocab.keys())[i]` (app.py:45), depends on the ordering of `vocab`, which is not part of this model. It is folded into `predToken`.
- `tokenize` comes from `copy_of_pytorch_rnn_based_qa_system`, which is not part of this model. It is the parameter `tokenize`, and membership is taken as sequence membership, as Python's `in` on a list of tokens.
- Text.Lower: lowers only the ASCII letters `A`..`Z`. Python's `str.lower()` also lowers other Unicode letters, and a few of them change length (`'İ'` becomes two code points). Whitespace in `Text.IsSpace` is Python's full `str.isspace` set, so `strip()` is exact.
- Rows are modelled as pairs of strings. Under pandas' defaults an empty cell, or one reading `NA` or `null`, loads as the float `NaN`. A `NaN` in the `question` column makes `strip()` raise at start-up (app.py:16). A `NaN` in the `answer` column loads without error. It makes `.replace` raise at request time when a question hits its row directly (app.py:37), and it is passed to `tokenize` on every fallback (app.py:46). None of these failures is modelled.
