# PhishGuard scoring core in Dafny

This project models the decision logic of PhishGuard, a small web service that gives an uploaded
email a phishing verdict and keeps a history of verdicts. It covers three parts:

- **Text assembly** (`Extract`, extract.dfy). A parsed message is a tree of MIME entities. Leaves
  hold decoded text. Containers hold parts and are walked in pre-order, following the multipart
  structure of RFC 2046 section 5.1. For a multipart message the body is the concatenation, in
  walk order, of the payloads of the `text/plain` leaves. For a single-part message the body is
  its one payload, whatever its type. The analysed text is the Subject header (`""` when absent),
  one space, and the body.
- **Scoring** (`Scoring` and `Patterns`, scoring.dfy; `Analyzer`, analyzer.dfy). There are two
  tests. One is a URL search for `http[s]?://[\w.-]+`. The other is a case-insensitive keyword
  search for `verify|urgent|password|bank|login`. Each test adds 0.3. The ML probability comes
  from the classifier, or is the neutral 0.5 when no model file exists. The score is
  `round((heuristics + ml) / 2, 2)`. The label is `phishing` exactly when the score is strictly
  above 0.5. Scores are integers in hundredths. The classifier is a function from text to a
  probability in [0, 1].
- **Verdict ledger** (`VerdictLedger`, ledger.dfy; `Routes`, routes.dfy). The ledger is a class
  whose store is either missing or a table: one header line, then one record per verdict.
  `Append` creates the store with its header on the first write. After that it adds the record
  at the end. The dashboard shows `history[-10:]` and the phishing and safe counts.

`Wrappers` (wrappers.dfy) holds `Option` and `Result`.

A subject full of keywords but without a URL, such as "URGENT: verify your bank login", hits
only the keyword test. That test adds 0.3 once however many keywords match, so with no model file
the score is 0.4 and the label is `safe` (`Analyzer.UrgentSubjectScenario`).

## Model

| member | source | states |
|---|---|---|
| `Extract.Contribution` | main.py:104-105 | a walked entity adds its payload to the body when it is a `text/plain` leaf, and nothing otherwise |
| `Extract.PlainText` | main.py:103-105 | the body of a walk: the contributions of its entities concatenated left to right |
| `Extract.Body` | main.py:101-107 | a single-part message's body is its payload; a multipart message's body is `PlainText` of its walk; it fails (`NoPayload`) when the walk meets a `text/plain` container, whose payload is `None` |
| `Extract.Subject` | main.py:100 | the Subject header, or `""` when it is absent |
| `Extract.Text` | main.py:109 | the analysed text: the subject, one space, the body; it fails when the body does |
| `Extract.Walk` | main.py:103 | the walk of an entity is non-empty and starts with the entity itself (`msg.walk()` yields the message first) |
| `Extract.ExtractBody` | main.py:101-107 | the loop over the walk builds exactly `Body`: for a single part, its payload; for a multipart message, the `text/plain` payloads in walk order; it fails (`NoPayload`) exactly when a walked `text/plain` entity is a container |
| `Extract.SinglePartBody` | main.py:106-107 | a single-part message's body is its payload, whatever its content type |
| `Extract.TextShape` | main.py:100-109 | the text is the subject (`""` when absent), one space, then the body: it starts with the subject, has the space right after it, ends with the body, and has exactly their lengths plus one; it fails exactly when the body does |
| `Extract.ExtractText` | main.py:98-109 | computes `Text` from the subject and the extracted body |
| `Extract.PlainTextAppend` | main.py:103-105 | the body of two consecutive runs of walked entities is the first run's body followed by the second's |
| `Extract.OthersContributeNothing` | main.py:104 | removing an entity that is not a `text/plain` leaf from the walk leaves the body unchanged |
| `Extract.PlainLeafContributesPayload` | main.py:104-105 | a `text/plain` leaf contributes exactly its payload, placed between the text of the entities before it and after it |
| `Extract.WalkAllAppend` | main.py:103 | walking a run of sibling parts visits the first group's subtrees and then the second's |
| `Extract.SiblingsConcatenate` | main.py:102-105 | adding parts to a multipart container appends their text after the text of the earlier parts |
| `Extract.ContainerContributesNothing` | main.py:104 | a container at the head of a walk (the multipart message itself) adds nothing to the body |
| `Scoring.SearchFrom` | main.py:112-114 | a search succeeds exactly when the pattern matches at some position at or after the start |
| `Scoring.UrlAt` | main.py:112 | `http[s]?://[\w.-]+` matches at position j: `http://` or `https://` at j, case-sensitive, then one `[\w.-]` character (one is enough for a search) |
| `Scoring.HasUrl` | main.py:112 | the URL test: `UrlAt` holds at some position of the text |
| `Scoring.IsWordChar` | main.py:112 | `\w`: an ASCII letter, digit or underscore |
| `Scoring.Lower` | main.py:114 | the simple lower-case mapping as far as it reaches an ASCII letter: ASCII capitals, dotted capital I to `i`, Kelvin sign to `k` |
| `Scoring.FoldsTo` | main.py:114 | a character matches a lower-case keyword letter under `re.I`: the lower-case forms agree, or it is dotless i for `i` or long s for `s` |
| `Scoring.FoldedAt` | main.py:114 | a lower-case word occurs at position j ignoring case, character by character |
| `Scoring.KeywordAt` | main.py:114 | one of the words verify, urgent, password, bank, login occurs at position j, ignoring case |
| `Scoring.HasKeyword` | main.py:114 | the keyword test: `KeywordAt` holds at some position of the text |
| `Scoring.HeuristicScore` | main.py:111-115 | the heuristic sub-score: 30 hundredths per test that hits |
| `Scoring.Heuristics` | main.py:111-115 | the heuristic sub-score is 0, 30 or 60 hundredths; it is 30 per test that hits, so the order of the tests does not matter; it is 0 exactly when neither hits and 60 exactly when both do |
| `Scoring.MlScore` | main.py:117-121 | the ML sub-score is a probability in [0, 1]; it is the model's answer for the text when a model exists and exactly 0.5 otherwise |
| `Scoring.RoundHalfEven` | main.py:123 | the result is within one half of the value, and a tie goes to the even neighbour (Python's `round`) |
| `Scoring.RoundMonotone` | main.py:123 | rounding preserves order |
| `Scoring.RoundExact` | main.py:123 | a value already on the grid is not changed by rounding |
| `Scoring.Fuse` | main.py:123 | the fused score is the hundredth nearest to the average of the two sub-scores |
| `Scoring.FuseMonotone` | main.py:123 | the fused score is non-decreasing in both the heuristic sub-score and the ML probability |
| `Scoring.FuseBounds` | main.py:123 | with a heuristic sub-score in [0, 0.6] and a probability in [0, 1], the score lies in [0, 0.8] |
| `Scoring.FuseNeutral` | main.py:121-123 | with the neutral 0.5 the only scores are 0.25, 0.4 and 0.55 |
| `Scoring.LabelOf` | main.py:124 | the label is `phishing` exactly when the score is strictly above 0.5, so a score of 0.5 is `safe` |
| `Scoring.LabelName` | main.py:124 | the stored label text is `phishing` or `safe`, and it is `phishing` exactly for the phishing label |
| `Scoring.Score` | main.py:111-126 | every verdict has label `phishing` exactly when its score is above 0.5, a score in [0, 0.8], and the fixed explanation |
| `Patterns.UrlInContext` | main.py:112 | the URL test is a substring search: text around a URL never hides it |
| `Patterns.KeywordInContext` | main.py:114 | the keyword test is a substring search with no word boundary: text around a keyword never hides it |
| `Patterns.KeywordIgnoresCase` | main.py:114 | the keyword test ignores case: "URGENT" and "LogIn" hit it |
| `Patterns.KeywordInsideWord` | main.py:114 | the keyword test has no word boundary: "banking" hits it through "bank" |
| `Patterns.NoKeywordAt` | main.py:114 | no keyword match starts at position j when the character there is none of v, u, b, l in either case and, if it is a p in either case, the next character (if any) is not an a in either case |
| `Patterns.UrlHits` | main.py:112 | "https://a" and "http://-" hit the URL test: one host character after `://` is enough |
| `Patterns.UrlNeedsHost` | main.py:112 | "http://" and "https:// x" do not hit the URL test: a host character must follow `://` |
| `Patterns.UrlSchemeIsCaseSensitive` | main.py:112 | "HTTP://example" does not hit the URL test: the scheme is matched case-sensitively |
| `Patterns.NoUrlWithoutH` | main.py:112 | a text with no lower-case `h` holds no URL |
| `Analyzer.Analysis` | main.py:97-126 | an analysis fails exactly when body extraction fails; otherwise it yields a verdict with the fixed explanation |
| `Analyzer.AnalyzeEmail` | main.py:97-126 | the analysis of a message: on success the label is `phishing` exactly when the score exceeds 0.5 and the score lies in [0, 0.8]; it fails exactly when a multipart walk meets a `text/plain` container |
| `Analyzer.NeutralOutcomes` | main.py:111-124 | with no model file the score is 0.25 when no test hits, 0.4 when exactly one hits and 0.55 when both hit; only 0.55 is `phishing` |
| `Analyzer.ScoreMonotoneInModel` | main.py:117-124 | a model giving the text a higher probability never lowers the score and never turns `phishing` into `safe` |
| `Analyzer.NeutralNoHit` | main.py:111-124 | with no model file, a message whose text hits neither test scores 0.25 and is `safe` |
| `Analyzer.NeutralOneHit` | main.py:111-124 | with no model file, a message whose text hits exactly one test scores 0.4 and is `safe` |
| `Analyzer.NeutralTwoHits` | main.py:111-124 | with no model file, a message whose text hits both tests scores 0.55 and is `phishing` |
| `Analyzer.SinglePartText` | main.py:100-109 | the text of a single-part message is the subject, a space and its payload |
| `Analyzer.PlainBesideOther` | main.py:102-105 | a container with one `text/plain` part and one part of another type has the plain part's payload as its body |
| `Analyzer.UrgentSubjectScenario` | main.py:100-124 | subject "URGENT: verify your bank login", empty body, no model file: score 0.4, `safe` |
| `Analyzer.PlainMeetingScenario` | main.py:100-124 | no subject, body "Meeting at 3pm tomorrow.", no model file: score 0.25, `safe` |
| `Analyzer.MultipartScenario` | main.py:102-124 | no subject, a plain part "click http://evil.example/login" beside an HTML part: the text is a space and the plain part alone, both tests hit, and the score is 0.55, `phishing` |
| `VerdictLedger.Records` | main.py:153 | reading a table gives one row per record line, in order, skipping the header |
| `VerdictLedger.ReadAll` | main.py:131-134 | a missing store reads as the empty history; an existing one gives one row per line after the header |
| `VerdictLedger.RecordsAppend` | main.py:148-149 | appending a record to a table leaves it well formed and adds the row at the end of what reading gives |
| `VerdictLedger.SliceFrom` | main.py:137 | Python's `s[start:]`: a suffix of `s`; with n the length of `s`, its length is n - start clamped to [0, n] for a non-negative start, and -start clamped to n for a negative one |
| `VerdictLedger.Recent` | main.py:137 | `history[-10:]` holds the last min(10, n) rows in insertion order |
| `VerdictLedger.RecentOfFifteen` | main.py:137 | with fifteen rows the display shows rows 6 to 15 |
| `VerdictLedger.CountLabel` | main.py:135-136 | a label count never exceeds the number of rows |
| `VerdictLedger.CountAppend` | main.py:135-136 | a new row adds one to the count of its own label and leaves every other count as it was |
| `VerdictLedger.CountsPartition` | main.py:135-136 | counts of two different labels sum to at most n, and to exactly n when every row has one of the two |
| `VerdictLedger.Dashboard` | main.py:135-137 | the dashboard shows at most 10 rows; phishing plus safe counts are at most n, and exactly n when every label is `phishing` or `safe` |
| `VerdictLedger.EmptyDashboard` | main.py:131-137 | a missing store shows no rows and zero counts |
| `VerdictLedger.Ledger.constructor` | main.py:13 | the ledger opens over the dataset store, which may be missing |
| `VerdictLedger.Ledger.Append` | main.py:146-151 | the history gains exactly the new row, at the end; a missing store is created as header plus row; an existing store keeps its header and earlier lines and gains one record line |
| `VerdictLedger.AppendOrderScenario` | main.py:148-153 | three rows appended to a fresh ledger read back as exactly those three, in order |
| `Routes.RowOf` | main.py:146 | the stored row keeps the filename and the score; its label text is `phishing` or `safe`, and `phishing` exactly for a phishing verdict |
| `Routes.Consistent` | main.py:124 | every stored row's label is `phishing` or `safe`, and `phishing` exactly when its score is above 0.5 |
| `Routes.ConsistentAppend` | main.py:124 | adding a row whose label is `phishing` or `safe`, `phishing` exactly above 0.5, keeps a history with that property |
| `Routes.Index` | main.py:129-137 | the dashboard request shows the dashboard of the stored history; a missing store shows nothing; for a consistent history the two counts sum to n |
| `Routes.Upload` | main.py:139-156 | on success the verdict is the analysis of the message, the history gains exactly its row, and the page shows the new history's dashboard; a failed analysis leaves the store unchanged; rows stay consistent |

## Left out

- Web plumbing is not modelled: Flask routing, request handling, saving the upload to the uploads
  directory, and rendering the HTML template with its chart. `Routes` takes the parsed message and
  the filename as parameters.
- Email parsing and charset decoding are not modelled. Entities arrive with their decoded text,
  so decode errors, which the source ignores, cannot arise.
- The classifier is not modelled: model loading and the vectorizer's and classifier's
  computations are foreign library calls. A trained model is a function from text to a
  probability. The source checks only the model file before using the classifier, and loading
  needs both files; that path is not modelled.
- CSV serialisation and pandas type inference are not modelled. Rows round-trip as values.
  Quoting, a filename that reads back as a number, and an empty file are not represented.
- An unreadable or unwritable store is not modelled. The store is always there or missing.
- Scoring.RoundHalfEven: applies Python's round-half-even to exact real values. The rounding
  of binary floating point, and ties that floats cannot represent, are left out.
- Scoring.IsWordChar: `\w` is restricted to ASCII letters, digits and underscore. Python's
  Unicode `\w` also accepts non-ASCII letters and digits.
- Scoring.FoldsTo: case-insensitive matching is modelled for the letters of the five keywords
  only. That means ASCII case, plus the Unicode characters whose simple case mapping reaches
  those letters (dotted capital I, dotless i, long s, Kelvin sign). Full Unicode case folding of
  other patterns is not needed.
- Concurrent requests and the race between appends are not modelled; the model is single-threaded.
