# Syslog alert triage engine, modelled in Dafny

This project models the scoring core of `SyslogAlertAnalyzer`, the alert-triage
engine of the repository. Each incoming security alert has a raw message, a
type and a severity. The engine:

1. normalises the message into a key: IPv4 addresses become `IP_ADDR`,
   `HH:MM:SS` clock times become `TIMESTAMP`, `PID: <digits>` becomes
   `PID: XXX`, and the result is lower-cased;
2. if this is the first alert of its type, records it and answers with the
   type weight as the score;
3. otherwise it compares the alert with the vectors stored for its type,
   computes a uniqueness from that similarity and from how often the key was
   seen before, records the alert (bucket, per-key count, per-type count,
   re-vectorised bucket), and returns a weighted score;
4. reports statistics over the per-type counters.

The files:

- `normalizer.dfy` (module `Normalizer`): `preprocess_alert`. The three
  regular-expression passes are one left-to-right scan, `SubstituteWith`. It
  is applied to a matcher per pattern (`AddressAt`, `ClockAt`, `PidAt`), and
  an `afterWord` flag carries the `\b` context. Lemmas show that a key has no
  upper-case letter, that an address, a clock time or a PID field between
  separators becomes `ip_addr`, `timestamp` or `pid: xxx` in the key while the
  text on either side is keyed as on its own, and that messages differing only
  in such a part get the same key.
- `scoring.dfy` (module `Scoring`): the weight tables, the similarity
  threshold, `_calculate_uniqueness` / `calculate_uniqueness_score` and the
  final weighted score, on exact reals.
- `counting.dfy` (module `Counting`): the `defaultdict(int)` counters. A
  counter map is the tally of the keys recorded so far.
- `statistics.dfy` (module `Statistics`): the report of `get_statistics`.
- `analyzer.dfy` (module `Analyzer`): the class `SyslogAlertAnalyzer`. Its
  fields are the instance dictionaries and the fit-once flag. Its methods
  update them in place. The invariant `Valid()` ties the buckets, both
  counters, the first-seen order of types and the stored vectors together.

TF-IDF vectors and cosine similarity are not computed. A stored vector index is
the fitted vocabulary together with the normalised documents of one type. The
best similarity to such an index, and the frequency factor
`1 / (1 + log1p(f))`, come from an `Oracle` value passed to `AnalyzeAlert`.

The model follows these behaviours of the code:

- The count handed to the uniqueness calculation is the key's count BEFORE the
  alert is recorded (secops/syslog_vectorization.py:105-106), not after. The
  `frequency` and `type_frequency` that are returned are read AFTER recording
  (lines 158-159).
- An alert with an unknown type or severity is recorded first. Only then does
  the weight lookup raise (lines 109 then 147-148 on the general path; 117
  then 119/124 on the first-alert path). The state is not rolled back. The
  model returns `Err(UnknownAlertType)` / `Err(UnknownSeverity)` with the new
  state already committed.
- Scores are not clamped. The model proves instead that they lie in (0, 1]
  whenever the oracle is well-formed.
- A fit that finds no word raises after the bucket and counters were updated.
  The fallback fit at lines 68-72 repeats the same fit, because `min_df` is
  already 1, so it fails the same way. The model returns
  `Err(EmptyVocabulary)` and leaves the stored vectors unchanged.

## Model

| member | source | states |
|---|---|---|
| Normalizer.AddressMatch | secops/syslog_vectorization.py:11 | a match of `(\d{1,3}\.){3}\d{1,3}\b` lies within the text, starts and ends on a digit, and is followed by the end or a non-word character |
| Normalizer.AddressMatchIsAddress | secops/syslog_vectorization.py:11 | the matched text is exactly the dot-terminated groups of one to three digits and one last group |
| Normalizer.PidMatch | secops/syslog_vectorization.py:13 | a match of `PID: \d+` starts with `PID: `, takes the whole run of digits after it, and ends on a digit |
| Normalizer.PidMatchIsField | secops/syslog_vectorization.py:13 | the matched text is the label `PID: ` followed by digits only |
| Normalizer.AddressAt | secops/syslog_vectorization.py:11 | the address matcher matches nothing right after a word character (`\b`), and a match ends on a digit |
| Normalizer.AddressAtMatchesAddress | secops/syslog_vectorization.py:11 | whatever the address matcher matches is a dotted IPv4 address followed by the end or a non-word character |
| Normalizer.ClockAt | secops/syslog_vectorization.py:12 | the clock matcher matches nothing right after a word character; otherwise it matches nothing or exactly 8 characters that form `HH:MM:SS` and are followed by the end or a non-word character |
| Normalizer.PidAt | secops/syslog_vectorization.py:13 | the PID matcher matches the same in either word context (`PID: \d+` has no `\b`), and a match ends on a digit |
| Normalizer.SubstituteWith | secops/syslog_vectorization.py:51-53 | `re.sub` with a given matcher and replacement: it scans left to right, replaces each match and resumes after it, and takes each `\b` context from the original text. Its meaning is stated by SplitWith, CopyWith and KeepsLastWith |
| Normalizer.Addresses | secops/syslog_vectorization.py:51 | the address pass `ip_pattern.sub('IP_ADDR', …)`. Its effect is stated by AddressWhole, AddressPass and AddressPassCopies |
| Normalizer.Clocks | secops/syslog_vectorization.py:52 | the clock pass `timestamp_pattern.sub('TIMESTAMP', …)`. Its effect is stated by ClockWhole, ClockPass and ClockPassCopies |
| Normalizer.Pids | secops/syslog_vectorization.py:53 | the PID pass `pid_pattern.sub('PID: XXX', …)`. Its effect is stated by PidWhole, PidsSplit, PidPassReplaces and PidPassCopies |
| Normalizer.Lower | secops/syslog_vectorization.py:54 | `lower()` keeps the length; LowerChars states it character by character |
| Normalizer.Normalize | secops/syslog_vectorization.py:47-54 | the key of a message: the address, clock and PID passes in that order, then lower-casing. Its meaning is stated by NormalizeIsLowerCase, the *Key, *KeyInContext and *Invariance lemmas |
| Normalizer.LowerChar | secops/syslog_vectorization.py:54 | lower-casing one character yields no upper-case letter, maps `A`-`Z` onto `a`-`z` in order, and leaves every other character alone |
| Normalizer.LowerChars | secops/syslog_vectorization.py:54 | `lower()` works character by character |
| Normalizer.NormalizeIsLowerCase | secops/syslog_vectorization.py:54 | no key contains an upper-case letter |
| Normalizer.LowerIdempotent | secops/syslog_vectorization.py:54 | lower-casing a key again changes nothing |
| Normalizer.LowerAppend | secops/syslog_vectorization.py:54 | lower-casing a concatenation lower-cases each piece |
| Normalizer.AddressKey | secops/syslog_vectorization.py:47-54 | a message that is one IPv4 address has the key `ip_addr` |
| Normalizer.ClockKey | secops/syslog_vectorization.py:47-54 | a message that is one clock time has the key `timestamp` |
| Normalizer.PidKey | secops/syslog_vectorization.py:47-54 | a message that is one `PID: <digits>` field has the key `pid: xxx` |
| Normalizer.SplitWith | secops/syslog_vectorization.py:51-53 | `re.sub` distributes over a split point that no match crosses |
| Normalizer.CopyWith | secops/syslog_vectorization.py:51-53 | `re.sub` copies a stretch in which no match starts |
| Normalizer.KeepsLastWith | secops/syslog_vectorization.py:51-53 | when no match reaches the last character, `re.sub` keeps it last |
| Normalizer.DigitFreeIsSilent | secops/syslog_vectorization.py:11-13 | none of the three patterns can match anywhere in text without digits |
| Normalizer.AddressContained | secops/syslog_vectorization.py:11 | an address match starting in a stretch that ends in a non-digit other than '.' ends inside it, whatever follows |
| Normalizer.ClockContained | secops/syslog_vectorization.py:12 | the same for clock times and a stretch ending in a non-digit other than ':' |
| Normalizer.PidMatchBefore | secops/syslog_vectorization.py:13 | a PID match starting in a text is unchanged by what follows when that cannot continue the `PID: ` label |
| Normalizer.PidsSplit | secops/syslog_vectorization.py:53 | the PID pass distributes over any point followed by a text that cannot continue the `PID: ` label |
| Normalizer.NoPidWithoutPI | secops/syslog_vectorization.py:13 | no PID field starts in a text where no 'P' is followed by 'I', when the text after it does not start with 'I' |
| Normalizer.NoAddressWithoutDot | secops/syslog_vectorization.py:11 | no address starts in a text without '.', when the text after it does not start with a digit or '.' |
| Normalizer.NoClockWithoutColon | secops/syslog_vectorization.py:12 | no clock time starts in a text where no ':' follows a digit, when the text after it does not start with a digit or ':' |
| Normalizer.AddressMatchWhole | secops/syslog_vectorization.py:11 | a dotted address followed by a non-word character is matched whole |
| Normalizer.AddressWhole | secops/syslog_vectorization.py:51 | the address pass replaces a leading address by `IP_ADDR` |
| Normalizer.ClockWhole | secops/syslog_vectorization.py:52 | the clock pass replaces a leading clock time by `TIMESTAMP` |
| Normalizer.PidWhole | secops/syslog_vectorization.py:53 | the PID pass replaces a leading `PID: <digits>` by `PID: XXX` |
| Normalizer.AddressPass | secops/syslog_vectorization.py:51 | an address between separators becomes `IP_ADDR` and the rest is substituted on its own |
| Normalizer.AddressPassCopies | secops/syslog_vectorization.py:51 | the address pass copies a dot-free part bordered on both sides by non-digits other than '.' |
| Normalizer.ClockPass | secops/syslog_vectorization.py:51-52 | after the address pass leaves it alone, a clock time between separators becomes `TIMESTAMP` |
| Normalizer.ClockPassCopies | secops/syslog_vectorization.py:52 | the clock pass copies a part in which no ':' follows a digit, bordered by non-digits other than ':' |
| Normalizer.PidPassCopies | secops/syslog_vectorization.py:53 | the PID pass copies a part of two or more characters that cannot continue a `PID: ` label and in which no 'P' is followed by 'I', whatever precedes it, when the text after it does not start with 'I' |
| Normalizer.PidPassReplaces | secops/syslog_vectorization.py:53 | the PID pass turns any `PID: <digits>` field into `PID: XXX`, whatever precedes it, and substitutes the text on either side on its own |
| Normalizer.PidFieldSurvives | secops/syslog_vectorization.py:51-52 | the address and clock passes leave a PID field between separators intact |
| Normalizer.PidPass | secops/syslog_vectorization.py:51-53 | all three passes turn a PID field between separators into `PID: XXX` |
| Normalizer.PidPassAnywhere | secops/syslog_vectorization.py:51-53 | all three passes turn a PID field after any text into `PID: XXX`, and what surrounds it does not depend on the digits, when the text after the field does not start with a digit, '.' or ':' |
| Normalizer.ContextFree | secops/syslog_vectorization.py:51-53 | `re.sub` on a text does not depend on the character before it when the first match attempt does not |
| Normalizer.RightContext | secops/syslog_vectorization.py:51-53 | after a placeholder, the three passes treat text that does not start with a digit as a message of its own |
| Normalizer.AddressPassesAround | secops/syslog_vectorization.py:51-53 | all three passes turn an address that follows a separator and is followed by a non-word character other than ':' ('.' included) into `IP_ADDR`, and leave the text on either side as its own passes give it |
| Normalizer.ClockPassesAround | secops/syslog_vectorization.py:51-53 | all three passes turn a clock time between separators into `TIMESTAMP` likewise |
| Normalizer.KeyAround | secops/syslog_vectorization.py:47-54 | a message whose passes give those of its left part, a placeholder, and those of its right part has the key of the left part, the lower-cased placeholder and the key of the right part |
| Normalizer.AddressKeyInContext | secops/syslog_vectorization.py:47-54 | an IPv4 address after a separator and before a non-word character other than ':' (such as the '.' ending a sentence) becomes `ip_addr` in the key, and the text on either side is keyed as on its own |
| Normalizer.ClockKeyInContext | secops/syslog_vectorization.py:47-54 | a clock time between separators becomes `timestamp` in the key, and the text on either side is keyed as on its own |
| Normalizer.PidKeyInContext | secops/syslog_vectorization.py:47-54 | a `PID: <digits>` field between separators becomes `pid: xxx` in the key, and the text on either side is keyed as on its own |
| Normalizer.AddressInvariance | secops/syslog_vectorization.py:47-54 | messages differing only in an IPv4 address have the same key, when the address follows a non-word character other than '.' (or the start) and is followed by a non-word character (or the end) |
| Normalizer.ClockInvariance | secops/syslog_vectorization.py:47-54 | messages differing only in a clock time between separators have the same key |
| Normalizer.PidInvariance | secops/syslog_vectorization.py:47-54 | messages differing only in the digits of a `PID: <digits>` field have the same key, whatever precedes the field, when the text after it is empty or does not start with a digit, '.' or ':' |
| Scoring.SimilarityFactor | secops/syslog_vectorization.py:141 | the similarity factor is 0 at or above 0.85, otherwise the distance `1 - similarity`, which is positive |
| Scoring.Uniqueness | secops/syslog_vectorization.py:139-143 | uniqueness is the mean of the two factors; it lies in (0, 1], is 1 for an unseen exact-new alert, and is at most 1/2 above the threshold |
| Scoring.FinalScore | secops/syslog_vectorization.py:150-154 | the weighted score of weights and uniqueness in (0, 1] lies in (0, 1] |
| Scoring.WeightsInRange | secops/syslog_vectorization.py:33-45 | every type and severity weight lies in (0, 1] |
| Scoring.UniquenessFallsWithSimilarity | secops/syslog_vectorization.py:87-91 | a more similar alert is never more unique |
| Scoring.UniquenessFallsWithFrequency | secops/syslog_vectorization.py:87-91 | a more frequent key is never more unique |
| Scoring.FinalScoreMonotone | secops/syslog_vectorization.py:150-154 | the score grows with uniqueness, by 0.4 per unit |
| Scoring.RepeatedCriticalMemoryAttack | secops/syslog_vectorization.py:145-154 | a repeated MEMORY_ATTACK/Critical alert 0.92 similar to its predecessors scores 0.57 + 0.2 * ff(frequency) |
| Counting.Increment | secops/syslog_vectorization.py:132-133 | `+= 1` adds the key, raises its count by one and changes no other count |
| Counting.Tally | secops/syslog_vectorization.py:132 | the counters built by counting the keys one by one. TallyIsMultiplicity states their meaning |
| Counting.TallyIsMultiplicity | secops/syslog_vectorization.py:132 | each count is the number of times its key was recorded |
| Counting.TallyAppend | secops/syslog_vectorization.py:132 | recording one more key increments the tally |
| Counting.MapSumIncrement | secops/syslog_vectorization.py:132 | recording a key raises the sum of the counts by one |
| Counting.TallySum | secops/syslog_vectorization.py:132 | the per-key counts of a type add up to the number of alerts recorded |
| Counting.TallySize | secops/syslog_vectorization.py:176 | there are at least one and at most as many distinct keys as alerts |
| Statistics.SummaryOf | secops/syslog_vectorization.py:174-179 | a type summary holds the type's count and number of patterns, and its ratio times the patterns is the count |
| Statistics.Summarize | secops/syslog_vectorization.py:173-180 | the distribution has one summary per type, in first-seen order |
| Statistics.SumOver | secops/syslog_vectorization.py:170 | the sum of the type counts over the first-seen order. SumOverNewKey, SumOverIncrement and RecordingAddsOne state how recording changes it |
| Statistics.SumOverNewKey | secops/syslog_vectorization.py:170 | the first alert of a new type adds one to the total |
| Statistics.SumOverIncrement | secops/syslog_vectorization.py:170 | one more alert of a known type adds one to the total |
| Statistics.RecordingAddsOne | secops/syslog_vectorization.py:170 | recording any alert adds exactly one to the total |
| Statistics.RatioAtLeastOne | secops/syslog_vectorization.py:177 | a type with no more patterns than alerts has a repetition ratio of at least 1 |
| Statistics.SummariesRatios | secops/syslog_vectorization.py:173-180 | every repetition ratio in the distribution is at least 1 |
| Analyzer.ProcessedAlerts | secops/syslog_vectorization.py:61 | the documents of a bucket, one per alert. ProcessedAt states which key each one is |
| Analyzer.ProcessedAt | secops/syslog_vectorization.py:61 | the document at each position of a bucket is the key of the alert at that position |
| Analyzer.ProcessedAppend | secops/syslog_vectorization.py:61 | the documents of a grown bucket are the old documents plus the new key |
| Analyzer.HasWord | secops/syslog_vectorization.py:18 | whether a document holds a token of `\b\w+\b`. HasWordIff states its meaning |
| Analyzer.HasVocabulary | secops/syslog_vectorization.py:64-72 | whether a fit finds a vocabulary in the documents. HasVocabularyIff states its meaning |
| Analyzer.HasWordIff | secops/syslog_vectorization.py:18 | the check that a document holds a token of `\b\w+\b` succeeds exactly when some character of it is a word character (every maximal run of word characters is such a token) |
| Analyzer.HasVocabularyIff | secops/syslog_vectorization.py:64-72 | the fit finds a vocabulary exactly when some document holds a token |
| Analyzer.FirstAlertResult | secops/syslog_vectorization.py:118-127 | the first alert of a type scores its type weight, with frequency 1, type frequency 1, uniqueness 1, no similarity and the severity weight reported; an unknown type or severity is an error |
| Analyzer.RecordKeepsBuckets | secops/syslog_vectorization.py:129-133 | appending an alert and counting its key and type keeps the buckets, counters and first-seen order in agreement |
| Analyzer.EncodeKeepsVectors | secops/syslog_vectorization.py:134-137 | storing the re-vectorised bucket keeps every stored vector equal to the encoding of its whole bucket |
| Analyzer.FailedFitKeepsVectors | secops/syslog_vectorization.py:64-72 | a failed fit leaves consistent vectors and a bucket with no word |
| Analyzer.UpdateKeepsInvariants | secops/syslog_vectorization.py:129-137 | recording an alert and re-vectorising (or failing to fit) keeps every invariant |
| Analyzer.SyslogAlertAnalyzer.constructor | secops/syslog_vectorization.py:26-29 | a new analyser has empty dictionaries, is not fitted and satisfies the invariant |
| Analyzer.SyslogAlertAnalyzer.VectorizeAlerts | secops/syslog_vectorization.py:56-75 | no alerts give nothing; otherwise the vocabulary is fitted once, from the first bucket that holds a word, and never again, and the bucket is encoded with it; a fit with no word fails and changes nothing |
| Analyzer.SyslogAlertAnalyzer.CalculateSimilarityScore | secops/syslog_vectorization.py:77-85 | 0 for a type with no stored vector or with an empty entry, otherwise the oracle's best match of the key against that vector, in [0, 1] |
| Analyzer.SyslogAlertAnalyzer.CalculateFinalScores | secops/syslog_vectorization.py:145-166 | an unknown type or severity is an error; otherwise the weights, similarity and uniqueness are reported, the frequencies are the current counters, and the score is the weighted sum of the type weight, the severity weight and the uniqueness, which lies in (0, 1] when the uniqueness does |
| Analyzer.SyslogAlertAnalyzer.UpdateAlertState | secops/syslog_vectorization.py:129-137 | exactly one alert is appended to its bucket and counted, other types are untouched, the bucket is re-vectorised (or the fit fails with the empty-vocabulary error, its only error, and nothing else changes), and the invariant holds |
| Analyzer.SyslogAlertAnalyzer.HandleFirstAlert | secops/syslog_vectorization.py:115-127 | the alert is recorded, then the first-alert result is returned, whose lookup may fail |
| Analyzer.SyslogAlertAnalyzer.AnalyzeAlert | secops/syslog_vectorization.py:93-113 | the alert is always recorded; similarity and the key's count are taken before recording, the reported frequencies after; frequency equals the occurrences of the key in the new bucket and type frequency its size; the score is in (0, 1]; the total rises by one |
| Analyzer.SyslogAlertAnalyzer.CountersAreTallies | secops/syslog_vectorization.py:129-133 | the count of a key is its number of occurrences in the bucket, and the type count is the bucket size |
| Analyzer.SyslogAlertAnalyzer.CountsBounded | secops/syslog_vectorization.py:129-133 | for every type, bucket size = type count = sum of key counts, and 1 <= keys <= type count; the first-seen order lists each known type once |
| Analyzer.SyslogAlertAnalyzer.GetStatistics | secops/syslog_vectorization.py:168-186 | the total is the sum of the type counts, one summary per type in first-seen order, each the type's summary (count, patterns, ratio times patterns = count) with its bucket size, 1 <= patterns <= alerts and a ratio of at least 1 |

## Left out

- TF-IDF fitting and transforming, and cosine similarity (scikit-learn, floating point): a vector index is the vocabulary with the normalised documents, and the best similarity comes from the `Oracle`.
- `max_features`, bigrams and `min_df`/`max_df` pruning: with `min_df = 1` and `max_df = 1.0` a fit fails only when no document holds a word, and that is the only fit outcome modelled.
- The fallback fit at secops/syslog_vectorization.py:68-72 is not modelled separately, because it repeats the same fit.
- `np.log1p`: the frequency factor is a parameter. The model assumes only that it is 1 at 0, lies in (0, 1] and does not increase.
- Floating point: scores and weights are exact reals, so rounding is not modelled.
- Unicode: `\d`, `\w`, `\b` and `lower()` are modelled on ASCII only.
- `defaultdict` auto-insertion: reading a missing key (line 99 or line 106) inserts an empty entry in Python, and the model reads it as empty without inserting. Lines 131-133 fill those entries in the same call, so this makes no observable difference.
- The `similarity` value returned for a repeat alert is modelled as present (`Some`), and absent for the first alert of a type, as the result dictionaries are built.
- Normalizer.ClockInvariance, Normalizer.ClockKeyInContext: proved only for a clock time bordered by separators (or the message ends). Without that condition the property fails in the code too: in `12:34:56.7.8.9` the address pass consumes the seconds.
- Normalizer.AddressKeyInContext: not proved for a ':' right before or right after the address, nor for a '.' right before it. The code keys an address after ':' or before ':' as `ip_addr` too; the lemmas that carry the placeholder through the clock pass exclude a ':' beside it. A '.' before the address can make the pattern match a different stretch.
- Normalizer.AddressInvariance: needs the borders that the pattern's `\b` and its digit groups need: a non-word character other than '.' before the address, a non-word character after it.
- Normalizer.PidKeyInContext: proved only for a field bordered by separators (or the message ends). The code keys more cases this way. On the right, any text that does not start with a digit, '.' or ':' works. On the left, the border matters only for how the left part is keyed on its own: an address or clock time at its very end is not matched in the message, where the 'P' of the label follows it. Normalizer.PidPassAnywhere states the three passes for any preceding text.
- Normalizer.Lower: its own contract states only the length; the per-character meaning is stated by Normalizer.LowerChars.
- secops/alert_simulator.py (random alert generation from clocks and random numbers) and main.py (console output) are not part of this model.
- Input validation of alert fields other than type and severity is not part of this model: an alert is its raw message, type and severity.
