# SpamApi core, modelled in Dafny

SpamApi is a small HTTP service that labels an e-mail (subject plus body) as
"spam" or "ham" with a pre-trained vectorizer and classifier. This project
models the two pieces of `index.py` that hold logic of their own. It then
proves what they promise:

- **`text_process`** (index.py:29-37) is the text-cleaning helper. It drops
  every punctuation character, splits the rest on runs of whitespace, and drops
  every token whose lower-cased form is an English stopword. `TextProcess.Clean`
  models it, with the punctuation set and the stopword list as parameters.
  `TextProcess.PythonPunctuation` is Python's `string.punctuation`, and its
  32 characters are proved distinct. The handler never calls this helper:
  index.py:79 passes `full_text` to the vectorizer as it is. So it is modelled
  on its own.
- **The `/predict` handler** (index.py:64-95) is `Predict.Handle`. The two
  artifacts loaded at start-up are function values:
  - the vectorizer maps text to features of an arbitrary type `F`;
  - the classifier maps features to a label.

  `None` stands for an artifact that failed to load. The request body is the
  JSON object the handler reads, or `None` when it cannot be read as one.

The Python built-ins the code relies on are in `PyStrings`:

- `str.isspace` has the exact Python character set (index.py:37, 73);
- `str.lower` covers ASCII only (index.py:37);
- `str.strip()` (index.py:73) and `str.split()` with no separator (index.py:37).

`PyStrings.JoinWords` (`" ".join`) is an auxiliary. The service never joins
with spaces; the function only serves to state that `split()` has a left
inverse and that cleaning is idempotent.

The list comprehension `[x for x in xs if keep(x)]` is `Sequences.Filter`. It
is proved to be the unique longest subsequence of its input made only of kept
elements.

Files:
- `sequences.dfy`: the generic filter.
- `py_strings.dfy`: the Python string built-ins.
- `text_process.dfy`: the text cleaner.
- `predict.dfy`: the handler.

`Clean` returns each kept token in its original case. `Lower` is used only
for the stopword test (index.py:37). `CleanExample` shows that "Hi" stays "Hi".

## Model

| member | source | states |
|---|---|---|
| Sequences.Filter | index.py:35-37 | a comprehension's result is no longer than its input, and every element in it comes from the input and passes the test |
| Sequences.FilterIsSubsequence | index.py:35-37 | a comprehension's result is an order-preserving subsequence of what it ranges over |
| Sequences.FilterCounts | index.py:35-37 | every kept element survives exactly as often as it occurs; every rejected one is gone |
| Sequences.FilterIsLongest | index.py:35-37 | no subsequence made only of kept elements is longer than the comprehension's result |
| Sequences.FilterIsUnique | index.py:35-37 | any longest subsequence made only of kept elements IS the result, so exactly the rejected elements are removed |
| Sequences.FilterIdempotent | index.py:35-37 | filtering the result again changes nothing |
| Sequences.FilterAppend | index.py:35 | the comprehension distributes over concatenation of the input |
| PyStrings.IsSpaceListed | index.py:37 | the whitespace of `split()` here and of `strip()` at index.py:73 is exactly the 29 distinct characters `str.isspace` accepts, listed one by one |
| PyStrings.Lower | index.py:37 | `word.lower()` keeps the length, leaves no ASCII capital and changes a character only by mapping a capital to its small letter |
| PyStrings.LowerIdempotent | index.py:37 | lower-casing twice is lower-casing once |
| PyStrings.TrimStart | index.py:73 | the left part of `strip()`: a suffix that starts with a non-space and whose removed prefix is whitespace only |
| PyStrings.TrimEnd | index.py:73 | the right part of `strip()`: a prefix that ends with a non-space and whose removed suffix is whitespace only |
| PyStrings.Strip | index.py:73 | `strip()` is empty exactly when the input is whitespace only; otherwise it starts and ends with a non-space |
| PyStrings.StripIsSlice | index.py:73 | `strip()` returns a contiguous slice of the input whose margins on both sides are whitespace only |
| PyStrings.StripIdempotent | index.py:73 | stripping twice is stripping once |
| PyStrings.AllSpaceConcat | index.py:73-75 | a concatenation is whitespace only exactly when both parts are |
| PyStrings.TokenEnd | index.py:37 | the first token of `split()` ends at the first whitespace character or at the end of the text |
| PyStrings.Split | index.py:37 | every token of `split()` is non-empty and whitespace-free, and every character in it comes from the input |
| PyStrings.SplitKeepsText | index.py:37 | the tokens, glued back together, are exactly the input's non-whitespace characters in their original order |
| PyStrings.TokenEndOfWord | index.py:37 | a whitespace-free run followed by whitespace or by the end of the text is one whole token |
| PyStrings.SplitJoinWords | index.py:37 | `split()` undoes the auxiliary `" ".join` on any list of tokens |
| PyStrings.SplitSeparator | index.py:37 | any one whitespace character separates tokens: splitting around it is splitting both sides |
| PyStrings.SplitOfWord | index.py:37 | a non-empty text without whitespace is exactly one token |
| PyStrings.SplitOfSpace | index.py:37 | a whitespace-only text has no token |
| TextProcess.PythonPunctuation | index.py:35 | `string.punctuation` has 32 characters, all printable ASCII, none of them a letter, a digit or whitespace |
| TextProcess.PunctuationCharsIncrease | index.py:35 | the characters of `string.punctuation` are listed in increasing order, so they are distinct |
| TextProcess.PunctuationCharsArePrintable | index.py:35 | every punctuation character lies between `!` and `~` |
| TextProcess.PunctuationCharsAreNotAlphanumeric | index.py:35 | no punctuation character is a letter or a digit |
| TextProcess.NotPunctuation | index.py:35 | the comprehension's test keeps a character exactly when it is not punctuation |
| TextProcess.NotStopword | index.py:37 | the comprehension's test keeps a token exactly when its lower-cased form is not a stopword |
| TextProcess.RemovePunctuation | index.py:35-36 | the depunctuated text is no longer than the input and holds only non-punctuation characters of the input |
| TextProcess.RemovePunctuationSpec | index.py:35-36 | the depunctuated text is an order-preserving subsequence of the input; it keeps every other character as often as it occurs; no punctuation-free subsequence is longer, and one as long is the depunctuated text itself |
| TextProcess.RemovePunctuationIdempotent | index.py:35-36 | removing punctuation a second time changes nothing |
| TextProcess.RemoveStopwords | index.py:37 | every surviving token is one of the input tokens whose lower-cased form is not a stopword |
| TextProcess.RemoveStopwordsSpec | index.py:37 | exactly the stopword tokens are removed and nothing else; order and multiplicity of the others are kept |
| TextProcess.Clean | index.py:29-37 | each returned token is non-empty and whitespace-free; its lower-cased form is no stopword; each of its characters is an input character that is not punctuation |
| TextProcess.CleanIsSubsequence | index.py:36-37 | the result is an order-preserving subsequence of the whitespace-split of the depunctuated text, and that split loses only whitespace |
| TextProcess.CleanWithoutStopwords | index.py:37 | with no stopwords the helper is depunctuate-then-split |
| TextProcess.CleanIdempotent | index.py:29-37 | cleaning the space-joined result again gives the same tokens, when the space is not punctuation |
| TextProcess.CleanPythonIdempotent | index.py:29-37 | with `string.punctuation`, cleaning the space-joined result again gives the same tokens |
| TextProcess.ExampleDepunctuated | index.py:35-36 | "Hi, the cat!" without `,` and `!` is "Hi the cat" |
| TextProcess.ExampleSplit | index.py:37 | "Hi the cat" splits into "Hi", "the", "cat" |
| TextProcess.ExampleStopwords | index.py:37 | with "the" a stopword, "Hi", "the", "cat" becomes "Hi", "cat" |
| TextProcess.CleanExample | index.py:29-37 | "Hi, the cat!" cleans to "Hi", "cat": the capital of a kept token is kept |
| Predict.Status | index.py:66-95 | 200 exactly for a classification, 400 exactly for empty text, 500 for a missing model and for any exception |
| Predict.ErrorText | index.py:66-76 | the two fixed error messages belong to the not-loaded and the empty-text answers |
| Predict.GetOr | index.py:71-72 | `data.get(key, "")` is the field's value when present and the default when absent |
| Predict.RawTextLayout | index.py:73 | the f-string is the subject, one space and the message, each unchanged, an absent field empty |
| Predict.FullText | index.py:71-73 | `full_text` is empty exactly when subject and message are both whitespace only, absent fields counting as "" |
| Predict.FullTextOfTrimmedFields | index.py:73 | fields without surrounding whitespace are joined by exactly one space |
| Predict.FullTextWithoutSubject | index.py:71-73 | with no subject the analysed text is the stripped message |
| Predict.Respond | index.py:75-90 | with both artifacts loaded, an empty `full_text` gives the 400 exactly; any other gives a 200 with the classifier's label on it, `is_spam` exactly when that label is "spam", and its length |
| Predict.Handle | index.py:64-95 | a missing artifact gives the not-loaded 500 exactly; an unreadable body gives a 500; an empty `full_text` gives the 400 exactly; a 200 carries the classifier's label on `full_text` unchanged, `is_spam` exactly when that label is "spam", and the length of `full_text` |
| Predict.NotLoadedIgnoresRequest | index.py:65-66 | with an artifact missing every request gets the same 500, whatever its body |
| Predict.EmptyTextSkipsArtifacts | index.py:75-76 | an empty `full_text` gets the same 400 whatever vectorizer and classifier are loaded, so neither is consulted |
| Predict.BlankFieldsAreBadRequest | index.py:71-76 | a loaded service answers 400 exactly when subject and message are both whitespace only |
| Predict.EmptyObjectIsBadRequest | index.py:71-76 | the body `{}` gets the 400 |
| Predict.AnswerDependsOnlyOnFullText | index.py:73-90 | two bodies with the same `full_text` get the same answer |
| Predict.ClassifiedAnswer | index.py:79-90 | a non-empty `full_text` gets exactly the 200 record built from the classifier's label on it |
| Predict.ClosedLabelSet | index.py:80-87 | if the classifier only ever says "spam" or "ham", a 200 carries one of them and flags spam exactly when the label is not "ham" |
| Predict.WinMoneyExample | index.py:71-90 | subject "Win money now" with message "Click here" is classified on "Win money now Click here", 24 characters |

## Left out

- Flask app creation, route decorators, `jsonify` and HTTP plumbing (index.py:1-9, 56-63) are framework I/O. A response is a datatype with its status code given by `Status`.
- The CORS allow-list (index.py:13) is deployment configuration.
- The NLTK data path and the stopword download (index.py:15-26) are network and filesystem effects. The stopword list is a parameter, and NLTK's English list itself is not part of this model.
- Loading the pickled artifacts (index.py:39-53) is file I/O and deserialisation. Only its outcome is modelled: each artifact is present (`Some`) or absent (`None`). The truthiness test `not model` (index.py:65) is read as "absent". An artifact object that Python counts as false is not modelled.
- The internals of `vectorizer.transform` and `model.predict` (index.py:79-80) belong to opaque scikit-learn objects. They are arbitrary functions. Wrapping the text in a one-element list and taking `[0]` of the result is folded into them.
- `confidence` (index.py:82-83, 88) is the floating-point maximum of `predict_proba`. No floating point is modelled, so the 200 record has no confidence field.
- Predict.Handle: the exception handler (index.py:92-95) is modelled only for a body that cannot be read as a JSON object. That case gives `InternalError`, which carries no message (Python's `str(e)`) and has no log line. Exceptions raised inside the vectorizer or the classifier are not modelled, because the artifacts are total functions here.
- JSON fields that are present but are not strings are not modelled. The f-string at index.py:73 would format them with `str()`. Here the fields are `Option<string>`.
- PyStrings.Lower: lower-cases ASCII letters only. Python's `str.lower` also maps non-ASCII capitals, and a few of them to more than one character. Unicode case tables are out of scope.
- `home()` (index.py:56-61) returns a constant and holds no logic.
- Strings are sequences of Unicode scalar values. A Python string holding a lone surrogate has no counterpart.
