# VeriTrust review classifier backend, modelled in Dafny

VeriTrust is a small web service. It labels a product review "fake" or
"real" with a fine-tuned text classifier. It also explains each verdict with
a list of rule-based "signals". This project models the decision logic of
its backend, `backend/app.py`, and proves properties of that model:

- `GET /health` (`health_check`): reports the service name and whether the
  model loaded.
- `POST /predict` (`predict_review`): checks in a fixed order.
  - First it refuses with 503 when the model did not load.
  - Then it refuses with 400 when the text is empty or whitespace-only.
  - Otherwise it classifies the text. Class index 1 becomes "fake", every
    other index "real", and the signals of the original, untrimmed text are
    attached.
- `extract_signals`: four independent rules, checked in declaration order.
  Each rule appends one fixed message when it fires:
  - fewer than 5 whitespace-separated words;
  - at least 3 `!`;
  - one of five promotional phrases, ignoring case;
  - a model confidence above 0.90.

The project has four modules:

- `pystr.dfy` (`PyStr`) models the Python `str` builtins the rules rely on:
  - `isspace`, with CPython's whitespace set;
  - `split()` with no separator;
  - `strip()`;
  - `count` of one character;
  - `lower()`;
  - the `in` substring test.

  Each comes with lemmas that pin down what it computes. For example,
  `split()` yields non-empty, whitespace-free words. Those words put back
  together are exactly the non-whitespace characters, and there is one word
  per maximal run of non-whitespace.
- `signals.dfy` (`Signals`) holds the rule table. `SignalsOf` is the
  specification function: the messages of the rules that fire, filtered in
  declaration order.
  - `ExtractSignals` is the source's imperative shape. It starts from an
    empty list and appends under four successive conditionals. It is proved
    equal to `SignalsOf`.
  - The lemmas prove that each message is present exactly when its own
    condition holds. They also prove that messages follow declaration order
    with no duplicates and at most four entries, and that the result is
    empty exactly when no rule fires.
- `api.dfy` (`Api`) holds the two endpoints. The classifier is a parameter
  `classify: string -> Inference`, giving a class index and a confidence for
  a text.
- `worked_requests.dfy` (`WorkedRequests`) works through concrete requests:
  - `"great"` classified "real" at 0.9500;
  - `"Best ever!"` at any confidence up to 0.9000.

Confidence is an integer count of ten-thousandths, 0..10000. The service
rounds the winning probability to four decimals, so the service's
`confidence > 0.90` is `confidence > 9000` here.

The handler checks `model_loaded` before it looks at the text
(backend/app.py:115-125), so an empty text with no model gets 503, not 400.
`PredictReview`'s first `ensures` states this case.

A high-confidence "real" verdict also carries the message "Strong deceptive
language pattern detected by model", because that rule looks only at the
confidence. The model keeps this behaviour. `Api.StrongSignalIgnoresLabel`
and `WorkedRequests.ConfidentRealExample` state it.

## Model

| member | source | states |
|---|---|---|
| PyStr.IsSpace | backend/app.py:87 | no contract; the definition is CPython's whitespace set for `str.isspace()` and `str.split()`: U+0009..U+000D, U+001C..U+001F, space, U+0085, U+00A0, U+1680, U+2000..U+200A, U+2028, U+2029, U+202F, U+205F, U+3000 |
| PyStr.Split | backend/app.py:87 | no contract; the definition skips leading whitespace, takes the longest whitespace-free prefix as the next word, and repeats until the text is used up; its lemmas below state what that yields |
| PyStr.Strip | backend/app.py:121 | no contract; the definition is `rstrip` applied after `lstrip`, each dropping whitespace from its end of the text |
| PyStr.Contains | backend/app.py:95 | no contract; the definition tests whether the needle is a prefix of the haystack or of one of its suffixes; `ContainsIffOccurs` states what that means |
| PyStr.StripEmptyIffAllSpace | backend/app.py:121 | `text.strip()` is empty exactly when every character of the text is whitespace |
| PyStr.LStripDropsSpace | backend/app.py:121 | what `lstrip()` removes from the front is all whitespace |
| PyStr.RStripDropsSpace | backend/app.py:121 | what `rstrip()` removes from the back is all whitespace |
| PyStr.LStripSuffix | backend/app.py:121 | `lstrip()` leaves a suffix of the text |
| PyStr.LStrip | backend/app.py:121 | `lstrip()` is no longer than the text and does not start with whitespace |
| PyStr.RStrip | backend/app.py:121 | `rstrip()` is a prefix of the text that does not end with whitespace |
| PyStr.SplitWordsAreWords | backend/app.py:87 | every word of `text.split()` is non-empty and holds no whitespace |
| PyStr.SplitWordAt | backend/app.py:87 | the word at any position of `text.split()` is non-empty and holds no whitespace |
| PyStr.SplitKeepsNonSpace | backend/app.py:87 | the words of `text.split()`, laid end to end, are exactly the non-whitespace characters of the text in their original order |
| PyStr.SplitCountsRuns | backend/app.py:87 | `len(text.split())` is the number of maximal runs of non-whitespace characters |
| PyStr.SplitEmptyIffAllSpace | backend/app.py:87 | `text.split()` is empty exactly when the text is all whitespace, which is exactly when `text.strip()` is empty |
| PyStr.SplitWordThen | backend/app.py:87 | a word ended by whitespace or by the end of the text is the first item of `split()`, followed by the words of the rest |
| PyStr.SplitSpaceThen | backend/app.py:87 | leading whitespace does not change `split()` |
| PyStr.SplitOneWord | backend/app.py:87 | a non-empty, whitespace-free text splits into itself alone |
| PyStr.SplitTwoWords | backend/app.py:87 | two words separated by one whitespace character split into exactly those two words |
| PyStr.LeadingWordOf | backend/app.py:87 | a whitespace-free stretch followed by whitespace or the end is the leading word |
| PyStr.LeadingWordNoSpace | backend/app.py:87 | the leading word holds no whitespace |
| PyStr.LeadingWordPrefix | backend/app.py:87 | the leading word is a prefix of the text |
| PyStr.RunsLStrip | backend/app.py:87 | leading whitespace does not change the number of runs |
| PyStr.RunsWord | backend/app.py:87 | a word followed by whitespace or the end adds exactly one run |
| PyStr.NonSpaceAppend | backend/app.py:87 | the non-whitespace of a concatenation is the concatenation of the non-whitespace |
| PyStr.Count | backend/app.py:92 | `text.count(c)` is at most the length of the text |
| PyStr.CountIsMultiplicity | backend/app.py:92 | `text.count(c)` is the number of occurrences of `c` in the text |
| PyStr.CountAppend | backend/app.py:92 | `count` adds up over concatenation |
| PyStr.CountAbsent | backend/app.py:92 | a character not in the text is counted zero times |
| PyStr.Lower | backend/app.py:95 | the ASCII lowering has the length of the text |
| PyStr.LowerLowers | backend/app.py:95 | `text.lower()` holds no uppercase ASCII letter, leaves every other character as it was, and equals the text ignoring case |
| PyStr.LowerIdempotent | backend/app.py:95 | lowering an already lowercase text changes nothing, so lowering twice is lowering once |
| PyStr.ContainsIffOccurs | backend/app.py:95 | `needle in hay` holds exactly when the needle occurs at some position of the haystack |
| PyStr.ContainsTooLong | backend/app.py:95 | a needle longer than the haystack is not in it |
| PyStr.LowerOccursIgnoringCase | backend/app.py:95 | an all-lowercase needle occurs in `text.lower()` at a position exactly when it matches the text there, ignoring case |
| Signals.WordCount | backend/app.py:87 | no contract; the definition is the number of items of `text.split()` |
| Signals.IsPromotional | backend/app.py:95-101 | no contract; the definition applies `AnyPhraseIn` to the five phrases and the lowered text |
| Signals.SignalsOf | backend/app.py:84-107 | no contract; the definition measures the text (word count, `!` count, promotional phrase, confidence), keeps the rules of the table that fire in declaration order, and lists their messages; the lemmas below state what that yields |
| Signals.AnyPhraseIn | backend/app.py:95-101 | the `any(...)` over the phrase list holds exactly when some phrase of the list is a substring of the lowered text |
| Signals.ExtractSignals | backend/app.py:84-107 | appending under the four conditionals yields exactly the rule table's signals; each message is present exactly when its own condition holds |
| Signals.SignalsExactly | backend/app.py:87-105 | "Very short review length" iff fewer than 5 words; "Excessive punctuation" iff at least 3 `!`; "Overly promotional language" iff a phrase occurs in the lowered text; the strong-pattern message iff confidence > 0.9000; nothing else is ever reported |
| Signals.SignalsOrdered | backend/app.py:85-107 | the signals follow rule-declaration order, hold no duplicates, and number at most four |
| Signals.SignalsEmptyIff | backend/app.py:85-107 | the signal list is empty exactly when none of the four conditions holds |
| Signals.RuleOrderUnfolds | backend/app.py:85-105 | filtering the rule table in declaration order is the same as appending each firing rule's message in turn |
| Signals.RuleOrderExactly | backend/app.py:89-105 | over any measurements, each message is listed exactly when its rule fires, and only the four messages are listed |
| Signals.RuleOrderOrdered | backend/app.py:85-107 | over any measurements, listed messages strictly increase in declaration order, so there are no duplicates and at most four |
| Signals.FiredRulesHas | backend/app.py:89-105 | a rule survives the filter exactly when it is listed and fires |
| Signals.FiredRulesOrdered | backend/app.py:89-105 | filtering keeps a list of rules in increasing declaration order |
| Signals.MessagesHas | backend/app.py:89-105 | a rule's message is listed exactly when the rule is |
| Signals.ShortReviewCountsRuns | backend/app.py:87-90 | the short-review rule fires exactly when the text has fewer than 5 maximal runs of non-whitespace |
| Signals.PunctuationCountsBangs | backend/app.py:92-93 | the punctuation rule fires exactly when `!` occurs at least 3 times in the text |
| Signals.PromotionalIgnoresCase | backend/app.py:95-102 | the promotional rule fires exactly when one of the five phrases matches some stretch of the text letter for letter, ignoring case |
| Api.HealthCheck | backend/app.py:71-77 | `/health` always answers status "ok", service "veritrust", and the model-loaded flag unchanged |
| Api.IsBlank | backend/app.py:121 | no contract; the definition is `not text or not text.strip()`; `BlankIffNoWords` states what it means |
| Api.LabelOf | backend/app.py:146 | class index 1 is "fake" and every other index is "real" |
| Api.PredictReview | backend/app.py:113-155 | no model gives 503 for every text; otherwise blank text gives 400; the request succeeds exactly when the model is loaded and the text is not blank; on success the label is "fake" iff the class index is 1, the confidence is the classifier's, and the signals are those of the original text at that confidence |
| Api.BlankIffNoWords | backend/app.py:121-125 | a text is refused as blank exactly when it is all whitespace, which is exactly when it has no words |
| Api.HealthAgreesWithPredict | backend/app.py:115-119 | `/health` reports an unloaded model exactly when `/predict` answers 503, whatever the text and classifier |
| Api.RefusalIgnoresClassifier | backend/app.py:115-125 | a refused request is the same whatever the classifier would say: no classification happens |
| Api.AcceptedReviewHasWords | backend/app.py:121-125 | an accepted review has at least one word, so its short-review signal means one to four words |
| Api.StrongSignalIgnoresLabel | backend/app.py:104-105 | on success the strong-pattern message appears exactly when the confidence exceeds 0.9000, whichever label won |
| WorkedRequests.GreatWords | backend/app.py:87 | "great" has one word |
| WorkedRequests.GreatBangs | backend/app.py:92 | "great" holds no `!` |
| WorkedRequests.GreatNotPromotional | backend/app.py:95-101 | "great" holds none of the five phrases |
| WorkedRequests.GreatSignals | backend/app.py:84-107 | the signals of "great" at a confidence above 0.9000 are the short-review and strong-pattern messages |
| WorkedRequests.ConfidentRealExample | backend/app.py:113-155 | "great" classified "real" at 0.9500 answers "real", 0.9500, with the short-review and strong-pattern messages |
| WorkedRequests.BestEverWords | backend/app.py:87 | "Best ever!" has two words |
| WorkedRequests.BestEverBangs | backend/app.py:92 | "Best ever!" holds one `!` |
| WorkedRequests.BestEverPromotional | backend/app.py:95-101 | "Best ever!" lowered holds the phrase "best ever" |
| WorkedRequests.BestEverExample | backend/app.py:84-107 | the signals of "Best ever!" up to 0.9000 are the short-review and promotional messages |

## Left out

- Tokenization, the RoBERTa forward pass, softmax and `torch.max`
  (backend/app.py:127-144) are foreign calls over floating-point tensors.
  They are replaced by the `classify` parameter.
- `round(confidence.item(), 4)` (backend/app.py:147) is floating-point
  rounding. The confidence arrives as an integer count of ten-thousandths.
- Signals.ExtractSignals: takes its confidence only in that fixed-point range
  0..10000. The Python function accepts any float.
- PyStr.Lower: lowercases ASCII letters only, a weaker model of Python's
  full Unicode `lower()`. For the rule that uses it this makes no
  difference. The five phrases are ASCII. The only non-ASCII characters
  whose lowercase contains ASCII letters are U+0130, which lowers to "i"
  plus U+0307, and the Kelvin sign, which lowers to "k". That "i" is always
  followed by U+0307, and no phrase ends in "i" or contains U+0307. No
  phrase contains "k".
- Api.PredictReview: the response's `label` is a two-valued datatype with
  the strings "fake" and "real" as its names, not a free string.
  `confidence` is the fixed-point integer above.
- Model loading, device selection, the FastAPI application, CORS and the
  Pydantic schemas (backend/app.py:15-65) are I/O and framework plumbing.
  Only the resulting `model_loaded` flag is kept, as a parameter.
- A request body that is not `{text: string}` is rejected by the framework
  before the handler runs, so it is not part of this model.
- Exceptions the handler does not catch (tokenizer or model failures, which
  the framework turns into 500) are not part of this model.
- The offline training script, the data-validation placeholder, the
  integration-test HTTP client and the React frontend are not part of this
  model.
