/**
 * The alert analyser: a store of alerts bucketed by alert type, the per-type
 * and per-pattern counters kept beside it, a vectoriser whose vocabulary is
 * fixed by the first successful fit, and the scoring of each new alert
 * against what was recorded before it.
 *
 * The TF-IDF vectoriser and cosine similarity are not modelled as numbers: a
 * stored index is the fitted vocabulary plus the normalised documents of one
 * type, and the maximum similarity of a new alert to such an index is
 * supplied by an `Oracle`, together with the frequency factor.
 */
module Analyzer {
  import opened Normalizer
  import opened Scoring
  import opened Counting
  import opened Statistics

  datatype Option<T> = None | Some(value: T)

  /** An alert as the analyser receives it: its raw text, its type and its severity. */
  datatype Alert = Alert(rawMessage: string, alertType: string, severity: string)

  /** What `vectorizer.transform(processed_alerts)` stands for: the fitted vocabulary and the documents it encodes. */
  datatype VectorIndex = VectorIndex(vocabulary: seq<string>, documents: seq<string>)

  /**
   * The numeric parts that are not modelled: the largest cosine similarity of
   * a normalised message to the documents of an index, and
   * `1 / (1 + log1p(f))`.
   */
  datatype Oracle = Oracle(maxSimilarity: (VectorIndex, string) -> real, frequencyFactor: nat -> real)
  {
    /** Cosine similarities of non-negative TF-IDF vectors lie in [0, 1]. */
    ghost predicate WellFormed()
    {
      && (forall index, doc :: 0.0 <= maxSimilarity(index, doc) <= 1.0)
      && IsFrequencyFactor(frequencyFactor)
    }
  }

  /** The exceptions analysis can raise: a `KeyError` from either weight table, or a fit that finds no word at all. */
  datatype AnalysisError =
    | UnknownAlertType(alertType: string)
    | UnknownSeverity(severity: string)
    | EmptyVocabulary

  datatype Result<T> = Ok(value: T) | Err(error: AnalysisError)

  /** The dictionary `analyze_alert` returns; `similarity` is absent for the first alert of a type. */
  datatype Analysis = Analysis(
    score: real,
    frequency: nat,
    typeFrequency: nat,
    similarity: Option<real>,
    uniqueness: real,
    typeScore: real,
    severityScore: real,
    alertType: string,
    severity: string)

  /** `[self.preprocess_alert(alert) for alert in alerts]` */
  function ProcessedAlerts(alerts: seq<Alert>): (r: seq<string>)
    ensures |r| == |alerts|
  {
    if alerts == [] then [] else ProcessedAlerts(alerts[..|alerts| - 1]) + [Normalize(alerts[|alerts| - 1].rawMessage)]
  }

  /** Each processed document is the key of the alert at the same position. */
  lemma {:induction false} ProcessedAt(alerts: seq<Alert>, i: nat)
    requires i < |alerts|
    ensures ProcessedAlerts(alerts)[i] == Normalize(alerts[i].rawMessage)
    decreases |alerts|
  {
    if i < |alerts| - 1 {
      ProcessedAt(alerts[..|alerts| - 1], i);
    }
  }

  lemma ProcessedAppend(alerts: seq<Alert>, alert: Alert)
    ensures ProcessedAlerts(alerts + [alert]) == ProcessedAlerts(alerts) + [Normalize(alert.rawMessage)]
  {
    assert (alerts + [alert])[..|alerts|] == alerts;
  }

  /**
   * Some document holds a token of `\b\w+\b`. Fitting the vectoriser raises
   * (empty vocabulary) exactly when none does; with `min_df = 1` and
   * `max_df = 1.0` nothing else is pruned.
   */
  predicate HasVocabulary(docs: seq<string>)
  {
    docs != [] && (HasVocabulary(docs[..|docs| - 1]) || HasWord(docs[|docs| - 1]))
  }

  /** `doc` holds a word character, hence a token of `\b\w+\b`. */
  predicate HasWord(doc: string)
  {
    doc != [] && (HasWord(doc[..|doc| - 1]) || IsWord(doc[|doc| - 1]))
  }

  /** A document holds a token exactly when one of its characters is a word character. */
  lemma {:induction false} HasWordIff(doc: string)
    ensures HasWord(doc) <==> exists j :: 0 <= j < |doc| && IsWord(doc[j])
    decreases |doc|
  {
    if doc != [] {
      var init := doc[..|doc| - 1];
      HasWordIff(init);
      if HasWord(init) {
        var j :| 0 <= j < |init| && IsWord(init[j]);
        assert doc[j] == init[j];
      }
      if exists j :: 0 <= j < |doc| && IsWord(doc[j]) {
        var j :| 0 <= j < |doc| && IsWord(doc[j]);
        if j < |init| {
          assert init[j] == doc[j];
        }
      }
    }
  }

  /** The fit finds a vocabulary exactly when some document holds a token. */
  lemma {:induction false} HasVocabularyIff(docs: seq<string>)
    ensures HasVocabulary(docs) <==> exists i :: 0 <= i < |docs| && HasWord(docs[i])
    decreases |docs|
  {
    if docs != [] {
      var init := docs[..|docs| - 1];
      HasVocabularyIff(init);
      if HasVocabulary(init) {
        var i :| 0 <= i < |init| && HasWord(init[i]);
        assert docs[i] == init[i];
      }
      if exists i :: 0 <= i < |docs| && HasWord(docs[i]) {
        var i :| 0 <= i < |docs| && HasWord(docs[i]);
        if i < |init| {
          assert init[i] == docs[i];
        }
      }
    }
  }

  /** `alert_history[t]` on a `defaultdict(list)`. */
  function HistoryOf(history: map<string, seq<Alert>>, t: string): seq<Alert>
  {
    if t in history then history[t] else []
  }

  /** `alert_counts[t]` on a `defaultdict(lambda: defaultdict(int))`. */
  function CountsOf(counts: map<string, map<string, nat>>, t: string): map<string, nat>
  {
    if t in counts then counts[t] else map[]
  }

  /** The dictionary built for the first alert of a type: its type weight stands in for the score. */
  function FirstAlertResult(alert: Alert): (r: Result<Analysis>)
    ensures alert.alertType !in TypeWeights ==> r == Err(UnknownAlertType(alert.alertType))
    ensures alert.alertType in TypeWeights && alert.severity !in SeverityWeights ==> r == Err(UnknownSeverity(alert.severity))
    ensures r.Ok? <==> alert.alertType in TypeWeights && alert.severity in SeverityWeights
    ensures r.Ok? ==>
      && r.value.score == r.value.typeScore == TypeWeights[alert.alertType]
      && r.value.severityScore == SeverityWeights[alert.severity]
      && r.value.frequency == 1 && r.value.typeFrequency == 1
      && r.value.uniqueness == 1.0 && r.value.similarity.None?
      && r.value.alertType == alert.alertType && r.value.severity == alert.severity
      && 0.0 < r.value.score <= 1.0
  {
    if alert.alertType !in TypeWeights then Err(UnknownAlertType(alert.alertType))
    else if alert.severity !in SeverityWeights then Err(UnknownSeverity(alert.severity))
    else
      var typeScore := TypeWeights[alert.alertType];
      Ok(Analysis(typeScore, 1, 1, None, 1.0, typeScore, SeverityWeights[alert.severity], alert.alertType, alert.severity))
  }

  /**
   * What the store holds about type `t`: the bucket store, both counters and
   * the first-seen order all know `t` or none does, and a known type has a
   * nonempty bucket of alerts of that type, a count equal to the size of the
   * bucket and per-text counts that tally the bucket's normalised texts.
   */
  ghost predicate TypeRecorded(
    t: string, history: map<string, seq<Alert>>, counts: map<string, map<string, nat>>,
    typeCounts: map<string, nat>, order: seq<string>)
  {
    && (t in history <==> t in order)
    && (t in counts <==> t in order)
    && (t in typeCounts <==> t in order)
    && (t in history && t in counts && t in typeCounts ==>
          && history[t] != []
          && (forall i :: 0 <= i < |history[t]| ==> history[t][i].alertType == t)
          && typeCounts[t] == |history[t]|
          && counts[t] == Tally(ProcessedAlerts(history[t])))
  }

  /** The buckets and counters agree on every type, and the first-seen order lists each type once. */
  ghost predicate BucketsValid(
    history: map<string, seq<Alert>>, counts: map<string, map<string, nat>>,
    typeCounts: map<string, nat>, order: seq<string>)
  {
    && NoDuplicates(order)
    && forall t {:trigger TypeRecorded(t, history, counts, typeCounts, order)} ::
         TypeRecorded(t, history, counts, typeCounts, order)
  }

  /**
   * A stored vector of type `t` exists only once the vocabulary is fitted and
   * encodes the whole current bucket of `t`; while nothing is fitted, the
   * bucket of `t` holds no word (every fit attempted so far failed).
   */
  ghost predicate TypeVectors(
    t: string, history: map<string, seq<Alert>>, vectors: map<string, Option<VectorIndex>>,
    fitted: bool, vocabulary: seq<string>)
  {
    && (t in vectors ==>
          && t in history && fitted
          && vectors[t] == Some(VectorIndex(vocabulary, ProcessedAlerts(history[t]))))
    && (!fitted && t in history ==> !HasVocabulary(ProcessedAlerts(history[t])))
  }

  ghost predicate VectorsValid(
    history: map<string, seq<Alert>>, vectors: map<string, Option<VectorIndex>>,
    fitted: bool, vocabulary: seq<string>)
  {
    forall t {:trigger TypeVectors(t, history, vectors, fitted, vocabulary)} ::
      TypeVectors(t, history, vectors, fitted, vocabulary)
  }

  lemma AppendKeepsNoDuplicates(order: seq<string>, t: string)
    requires NoDuplicates(order) && t !in order
    ensures NoDuplicates(order + [t])
  {
    var order' := order + [t];
    forall i, j | 0 <= i < j < |order'| ensures order'[i] != order'[j] {
      if j == |order| {
        assert order'[i] == order[i];
      }
    }
  }

  /** Recording an alert keeps the buckets and counters in agreement. */
  lemma RecordKeepsBuckets(
    history: map<string, seq<Alert>>, counts: map<string, map<string, nat>>,
    typeCounts: map<string, nat>, order: seq<string>, alert: Alert)
    requires BucketsValid(history, counts, typeCounts, order)
    ensures var t := alert.alertType;
      BucketsValid(
        history[t := HistoryOf(history, t) + [alert]],
        counts[t := Increment(CountsOf(counts, t), Normalize(alert.rawMessage))],
        Increment(typeCounts, t),
        if t in order then order else order + [t])
  {
    var t := alert.alertType;
    var before := HistoryOf(history, t);
    var history', counts', typeCounts' :=
      history[t := before + [alert]], counts[t := Increment(CountsOf(counts, t), Normalize(alert.rawMessage))],
      Increment(typeCounts, t);
    var order' := if t in order then order else order + [t];
    assert TypeRecorded(t, history, counts, typeCounts, order);
    forall x ensures TypeRecorded(x, history', counts', typeCounts', order') {
      assert TypeRecorded(x, history, counts, typeCounts, order);
      if x == t {
        ProcessedAppend(before, alert);
        TallyAppend(ProcessedAlerts(before), Normalize(alert.rawMessage));
      }
    }
    if t !in order {
      AppendKeepsNoDuplicates(order, t);
    }
  }

  /** A successful fit-and-encode of bucket `t` keeps the stored vectors consistent. */
  lemma EncodeKeepsVectors(
    history: map<string, seq<Alert>>, vectors: map<string, Option<VectorIndex>>,
    fitted: bool, vocabulary: seq<string>, t: string, bucket: seq<Alert>)
    requires VectorsValid(history, vectors, fitted, vocabulary)
    requires fitted || HasVocabulary(ProcessedAlerts(bucket))
    ensures var vocabulary' := if fitted then vocabulary else ProcessedAlerts(bucket);
      VectorsValid(history[t := bucket], vectors[t := Some(VectorIndex(vocabulary', ProcessedAlerts(bucket)))], true, vocabulary')
  {
    var vocabulary' := if fitted then vocabulary else ProcessedAlerts(bucket);
    var history', vectors' := history[t := bucket], vectors[t := Some(VectorIndex(vocabulary', ProcessedAlerts(bucket)))];
    forall x ensures TypeVectors(x, history', vectors', true, vocabulary') {
      assert TypeVectors(x, history, vectors, fitted, vocabulary);
    }
  }

  /** A failed fit of bucket `t` keeps the stored vectors consistent. */
  lemma FailedFitKeepsVectors(
    history: map<string, seq<Alert>>, vectors: map<string, Option<VectorIndex>>,
    vocabulary: seq<string>, t: string, bucket: seq<Alert>)
    requires VectorsValid(history, vectors, false, vocabulary)
    requires !HasVocabulary(ProcessedAlerts(bucket))
    ensures VectorsValid(history[t := bucket], vectors, false, vocabulary)
  {
    var history' := history[t := bucket];
    forall x ensures TypeVectors(x, history', vectors, false, vocabulary) {
      assert TypeVectors(x, history, vectors, false, vocabulary);
    }
  }

  /**
   * `_update_alert_state` on the values of the store: recording an alert and
   * then re-vectorising its bucket (or failing to fit) keeps every invariant.
   */
  lemma UpdateKeepsInvariants(
    history: map<string, seq<Alert>>, vectors: map<string, Option<VectorIndex>>,
    counts: map<string, map<string, nat>>, typeCounts: map<string, nat>, order: seq<string>,
    fitted: bool, vocabulary: seq<string>, alert: Alert)
    requires BucketsValid(history, counts, typeCounts, order) && VectorsValid(history, vectors, fitted, vocabulary)
    ensures var t := alert.alertType;
      var bucket := HistoryOf(history, t) + [alert];
      var docs := ProcessedAlerts(bucket);
      && BucketsValid(history[t := bucket], counts[t := Increment(CountsOf(counts, t), Normalize(alert.rawMessage))],
           Increment(typeCounts, t), if t in order then order else order + [t])
      && (fitted || HasVocabulary(docs) ==>
            var vocabulary' := if fitted then vocabulary else docs;
            VectorsValid(history[t := bucket], vectors[t := Some(VectorIndex(vocabulary', docs))], true, vocabulary'))
      && (!(fitted || HasVocabulary(docs)) ==> VectorsValid(history[t := bucket], vectors, false, vocabulary))
  {
    var t := alert.alertType;
    var bucket := HistoryOf(history, t) + [alert];
    RecordKeepsBuckets(history, counts, typeCounts, order, alert);
    if fitted || HasVocabulary(ProcessedAlerts(bucket)) {
      EncodeKeepsVectors(history, vectors, fitted, vocabulary, t, bucket);
    } else {
      FailedFitKeepsVectors(history, vectors, vocabulary, t, bucket);
    }
  }

  class SyslogAlertAnalyzer {
    /** `alert_history`: every recorded alert, bucketed by type, in arrival order. */
    var alertHistory: map<string, seq<Alert>>
    /** `alert_vectors`: the vectorised history of each type. */
    var alertVectors: map<string, Option<VectorIndex>>
    /** `alert_counts`: per type, how many alerts had each normalised text. */
    var alertCounts: map<string, map<string, nat>>
    /** `type_counts`: how many alerts of each type were recorded. */
    var typeCounts: map<string, nat>
    /** The insertion order of `type_counts`: each type, in the order of its first alert. */
    var typeOrder: seq<string>
    /** Whether the `is_fitted` attribute exists. */
    var isFitted: bool
    /** The documents of the fit that fixed the vocabulary. */
    var vocabulary: seq<string>

    ghost predicate Valid()
      reads this
    {
      && BucketsValid(alertHistory, alertCounts, typeCounts, typeOrder)
      && VectorsValid(alertHistory, alertVectors, isFitted, vocabulary)
    }

    constructor ()
      ensures Valid()
      ensures alertHistory == map[] && alertVectors == map[] && alertCounts == map[] && typeCounts == map[]
      ensures typeOrder == [] && !isFitted
    {
      alertHistory := map[];
      alertVectors := map[];
      alertCounts := map[];
      typeCounts := map[];
      typeOrder := [];
      isFitted := false;
      vocabulary := [];
    }

    /**
     * `vectorize_alerts`: nothing for no alerts; otherwise fit once (the
     * vocabulary of the first successful fit is kept for good) and encode the
     * normalised alerts with that vocabulary.
     */
    method VectorizeAlerts(alerts: seq<Alert>) returns (r: Result<Option<VectorIndex>>)
      modifies this`isFitted, this`vocabulary
      ensures alerts == [] ==> r == Ok(None) && isFitted == old(isFitted) && vocabulary == old(vocabulary)
      ensures alerts != [] && old(isFitted) ==>
        isFitted && vocabulary == old(vocabulary) && r == Ok(Some(VectorIndex(vocabulary, ProcessedAlerts(alerts))))
      ensures alerts != [] && !old(isFitted) && HasVocabulary(ProcessedAlerts(alerts)) ==>
        isFitted && vocabulary == ProcessedAlerts(alerts) && r == Ok(Some(VectorIndex(vocabulary, ProcessedAlerts(alerts))))
      ensures alerts != [] && !old(isFitted) && !HasVocabulary(ProcessedAlerts(alerts)) ==>
        !isFitted && vocabulary == old(vocabulary) && r == Err(EmptyVocabulary)
    {
      if alerts == [] {
        return Ok(None);
      }
      var processed := ProcessedAlerts(alerts);
      if !isFitted {
        if !HasVocabulary(processed) {
          return Err(EmptyVocabulary);
        }
        vocabulary := processed;
        isFitted := true;
      }
      return Ok(Some(VectorIndex(vocabulary, processed)));
    }

    /** `calculate_similarity_score`: 0 for a type with no stored vectors, otherwise the best match among them. */
    function CalculateSimilarityScore(alert: Alert, oracle: Oracle): (s: real)
      reads this
      ensures alert.alertType !in alertVectors ==> s == 0.0
      ensures alert.alertType in alertVectors && alertVectors[alert.alertType].Some? ==>
        s == oracle.maxSimilarity(alertVectors[alert.alertType].value, Normalize(alert.rawMessage))
      ensures alert.alertType in alertVectors && alertVectors[alert.alertType].None? ==> s == 0.0
      ensures oracle.WellFormed() ==> 0.0 <= s <= 1.0
    {
      var t := alert.alertType;
      if t !in alertVectors || alertVectors[t].None? then 0.0
      else oracle.maxSimilarity(alertVectors[t].value, Normalize(alert.rawMessage))
    }

    /**
     * `_calculate_final_scores`: the weighted score, with the frequency and
     * the type frequency read from the counters as they are now.
     */
    function CalculateFinalScores(alert: Alert, similarity: real, uniqueness: real): (r: Result<Analysis>)
      reads this
      ensures alert.alertType !in TypeWeights ==> r == Err(UnknownAlertType(alert.alertType))
      ensures alert.alertType in TypeWeights && alert.severity !in SeverityWeights ==> r == Err(UnknownSeverity(alert.severity))
      ensures r.Ok? <==> alert.alertType in TypeWeights && alert.severity in SeverityWeights
      ensures r.Ok? ==>
        && r.value.typeScore == TypeWeights[alert.alertType]
        && r.value.severityScore == SeverityWeights[alert.severity]
        && r.value.similarity == Some(similarity) && r.value.uniqueness == uniqueness
        && r.value.alertType == alert.alertType && r.value.severity == alert.severity
        && r.value.score == FinalScore(r.value.typeScore, r.value.severityScore, uniqueness)
        && (0.0 < uniqueness <= 1.0 ==> 0.0 < r.value.score <= 1.0)
        && r.value.frequency == Count(CountsOf(alertCounts, alert.alertType), Normalize(alert.rawMessage))
        && r.value.typeFrequency == Count(typeCounts, alert.alertType)
    {
      var t := alert.alertType;
      if t !in TypeWeights then Err(UnknownAlertType(t))
      else if alert.severity !in SeverityWeights then Err(UnknownSeverity(alert.severity))
      else
        var typeScore := TypeWeights[t];
        var severityScore := SeverityWeights[alert.severity];
        var key := Normalize(alert.rawMessage);
        Ok(Analysis(
          FinalScore(typeScore, severityScore, uniqueness),
          Count(CountsOf(alertCounts, t), key),
          Count(typeCounts, t),
          Some(similarity),
          uniqueness,
          typeScore,
          severityScore,
          t,
          alert.severity))
    }

    /** The new state records `alert` in its type's bucket and counters, as `_update_alert_state` does first. */
    twostate predicate Recorded(alert: Alert)
      reads this
    {
      var t := alert.alertType;
      && alertHistory == old(alertHistory)[t := HistoryOf(old(alertHistory), t) + [alert]]
      && alertCounts == old(alertCounts)[t := Increment(CountsOf(old(alertCounts), t), Normalize(alert.rawMessage))]
      && typeCounts == Increment(old(typeCounts), t)
      && typeOrder == if t in old(typeOrder) then old(typeOrder) else old(typeOrder) + [t]
    }

    /**
     * The new state holds the re-vectorised bucket of type `t`, or, when the
     * fit found no word, nothing new and the error.
     */
    twostate predicate Revectorized(t: string, new failure: Option<AnalysisError>)
      reads this
    {
      && t in alertHistory
      && var docs := ProcessedAlerts(alertHistory[t]);
      if old(isFitted) || HasVocabulary(docs) then
        && failure == None && isFitted
        && vocabulary == (if old(isFitted) then old(vocabulary) else docs)
        && alertVectors == old(alertVectors)[t := Some(VectorIndex(vocabulary, docs))]
      else
        && failure == Some(EmptyVocabulary) && !isFitted
        && vocabulary == old(vocabulary) && alertVectors == old(alertVectors)
    }

    /**
     * `_update_alert_state`: append the alert to its bucket, count its
     * normalised text and its type, then re-vectorise the bucket. A failed
     * fit leaves the first three updates in place.
     */
    method UpdateAlertState(alert: Alert, alertType: string, preprocessedAlert: string)
      returns (failure: Option<AnalysisError>)
      requires Valid()
      requires alertType == alert.alertType && preprocessedAlert == Normalize(alert.rawMessage)
      modifies this
      ensures Valid()
      ensures Recorded(alert)
      ensures Revectorized(alertType, failure)
      ensures failure == None || failure == Some(EmptyVocabulary)
    {
      var t := alertType;
      ghost var history, vectors, counts, perType, order, fitted, vocabulary0 :=
        alertHistory, alertVectors, alertCounts, typeCounts, typeOrder, isFitted, vocabulary;
      var bucket := HistoryOf(alertHistory, t) + [alert];
      var encoded := VectorizeAlerts(bucket);
      failure := if encoded.Ok? then None else Some(encoded.error);
      alertHistory, alertVectors, alertCounts, typeCounts, typeOrder :=
        alertHistory[t := bucket],
        if encoded.Ok? then alertVectors[t := encoded.value] else alertVectors,
        alertCounts[t := Increment(CountsOf(alertCounts, t), preprocessedAlert)],
        Increment(typeCounts, t),
        if t in typeOrder then typeOrder else typeOrder + [t];
      UpdateKeepsInvariants(history, vectors, counts, perType, order, fitted, vocabulary0, alert);
    }

    /** `_handle_first_alert`: record the alert, then answer with its type weight as the score. */
    method HandleFirstAlert(alert: Alert, alertType: string, preprocessedAlert: string) returns (r: Result<Analysis>)
      requires Valid()
      requires alertType == alert.alertType && preprocessedAlert == Normalize(alert.rawMessage)
      modifies this
      ensures Valid()
      ensures Recorded(alert)
      ensures Revectorized(alertType, if r == Err(EmptyVocabulary) then Some(EmptyVocabulary) else None)
      ensures r != Err(EmptyVocabulary) ==> r == FirstAlertResult(alert)
    {
      var first := FirstAlertResult(alert);
      assert first != Err(EmptyVocabulary);
      var failure := UpdateAlertState(alert, alertType, preprocessedAlert);
      if failure.Some? {
        r := Err(failure.value);
      } else {
        r := first;
      }
    }

    /**
     * `analyze_alert`. The first alert of a type gets `FirstAlertResult`.
     * Any later one is compared with the vectors stored before it is
     * recorded, its uniqueness uses the number of EARLIER alerts with the
     * same normalised text, and the frequencies it reports are read after it
     * is recorded. The alert is recorded even when a weight lookup then fails.
     */
    method AnalyzeAlert(alert: Alert, oracle: Oracle) returns (r: Result<Analysis>)
      requires Valid()
      modifies this
      ensures Valid()
      ensures Recorded(alert)
      ensures var t := alert.alertType;
        var encoded := old(isFitted) || HasVocabulary(ProcessedAlerts(alertHistory[t]));
        && Revectorized(t, if encoded then None else Some(EmptyVocabulary))
        && (!encoded ==> r == Err(EmptyVocabulary))
        && (encoded && t !in old(alertHistory) ==> r == FirstAlertResult(alert))
        && (encoded && t in old(alertHistory) ==>
              var similarity := old(CalculateSimilarityScore(alert, oracle));
              var earlier := old(Count(CountsOf(alertCounts, t), Normalize(alert.rawMessage)));
              r == CalculateFinalScores(alert, similarity, Uniqueness(similarity, earlier, oracle.frequencyFactor)))
      ensures r.Ok? ==>
        && r.value.frequency == multiset(ProcessedAlerts(alertHistory[alert.alertType]))[Normalize(alert.rawMessage)]
        && r.value.typeFrequency == |alertHistory[alert.alertType]|
      ensures r.Ok? && alert.alertType in old(alertHistory) && alert.alertType !in old(alertVectors) ==>
        r.value.similarity == Some(0.0)
      ensures r.Ok? && alert.alertType in old(alertHistory) && alert.alertType in old(alertVectors) ==>
        r.value.similarity == Some(oracle.maxSimilarity(
          VectorIndex(old(vocabulary), ProcessedAlerts(old(alertHistory)[alert.alertType])), Normalize(alert.rawMessage)))
      ensures r.Ok? && alert.alertType in old(alertHistory) ==>
        r.value.uniqueness == Uniqueness(r.value.similarity.value,
          multiset(ProcessedAlerts(old(alertHistory)[alert.alertType]))[Normalize(alert.rawMessage)],
          oracle.frequencyFactor)
      ensures r.Ok? && oracle.WellFormed() ==> 0.0 < r.value.score <= 1.0
      ensures GetStatistics().totalAlerts == old(GetStatistics().totalAlerts) + 1
    {
      var t := alert.alertType;
      var key := Normalize(alert.rawMessage);
      ghost var order, counts := typeOrder, typeCounts;
      CountsBounded();
      assert TypeRecorded(t, alertHistory, alertCounts, typeCounts, typeOrder);
      assert TypeVectors(t, alertHistory, alertVectors, isFitted, vocabulary);
      if HistoryOf(alertHistory, t) == [] {
        r := HandleFirstAlert(alert, t, key);
      } else {
        var similarity := CalculateSimilarityScore(alert, oracle);
        assert t !in alertVectors ==> similarity == 0.0;
        assert t in alertVectors ==>
          similarity == oracle.maxSimilarity(VectorIndex(vocabulary, ProcessedAlerts(alertHistory[t])), key);
        var earlier := Count(CountsOf(alertCounts, t), key);
        CountersAreTallies(t, key);
        var uniqueness := Uniqueness(similarity, earlier, oracle.frequencyFactor);
        var failure := UpdateAlertState(alert, t, key);
        if failure.Some? {
          r := Err(failure.value);
        } else {
          r := CalculateFinalScores(alert, similarity, uniqueness);
        }
      }
      RecordingAddsOne(order, counts, t);
      CountersAreTallies(t, key);
    }

    /**
     * The counters of a known type are what its bucket says: the count of a
     * normalised text is the number of alerts in the bucket with that text,
     * and the type count is the size of the bucket.
     */
    lemma CountersAreTallies(t: string, key: string)
      requires Valid() && t in alertHistory
      ensures Count(CountsOf(alertCounts, t), key) == multiset(ProcessedAlerts(alertHistory[t]))[key]
      ensures Count(typeCounts, t) == |alertHistory[t]|
    {
      assert TypeRecorded(t, alertHistory, alertCounts, typeCounts, typeOrder);
      TallyIsMultiplicity(ProcessedAlerts(alertHistory[t]), key);
    }

    /**
     * The first-seen order lists exactly the known types, each once; each has
     * at least one and at most as many distinct patterns as alerts, and its
     * per-text counts add up to its total.
     */
    lemma CountsBounded()
      requires Valid()
      ensures NoDuplicates(typeOrder)
      ensures forall t :: t in typeOrder <==> t in alertHistory
      ensures forall t :: t in typeOrder <==> t in alertCounts
      ensures forall t :: t in typeOrder <==> t in typeCounts
      ensures forall t :: t in alertCounts ==>
        && t in alertHistory && t in typeCounts && typeCounts[t] == |alertHistory[t]|
        && 1 <= |alertCounts[t]| <= typeCounts[t]
        && MapSum(alertCounts[t]) == typeCounts[t]
    {
      forall t
        ensures t in typeOrder <==> t in alertHistory
        ensures t in typeOrder <==> t in alertCounts
        ensures t in typeOrder <==> t in typeCounts
        ensures t in alertCounts ==>
          && t in alertHistory && t in typeCounts && typeCounts[t] == |alertHistory[t]|
          && 1 <= |alertCounts[t]| <= typeCounts[t]
          && MapSum(alertCounts[t]) == typeCounts[t]
      {
        assert TypeRecorded(t, alertHistory, alertCounts, typeCounts, typeOrder);
        if t in alertCounts {
          TallySize(ProcessedAlerts(alertHistory[t]));
          TallySum(ProcessedAlerts(alertHistory[t]));
        }
      }
    }

    /** `get_statistics`. */
    function GetStatistics(): (r: Report)
      reads this
      requires Valid()
      ensures r.totalAlerts == SumOver(typeOrder, typeCounts)
      ensures r.alertsByType == typeCounts
      ensures |r.typeDistribution| == |typeOrder|
      ensures forall i :: 0 <= i < |typeOrder| ==>
        var s := r.typeDistribution[i];
        && s.alertType == typeOrder[i]
        && typeOrder[i] in alertHistory && typeOrder[i] in alertCounts
        && s.totalAlerts == |alertHistory[typeOrder[i]]|
        && s.uniquePatterns == |alertCounts[typeOrder[i]]|
        && 1 <= s.uniquePatterns <= s.totalAlerts
        && typeOrder[i] in typeCounts && s == SummaryOf(typeOrder[i], typeCounts, alertCounts)
        && s.repetitionRatio >= 1.0
    {
      CountsBounded();
      SummariesRatios(typeOrder, typeCounts, alertCounts);
      Report(SumOver(typeOrder, typeCounts), typeCounts, Summarize(typeOrder, typeCounts, alertCounts))
    }
  }
}
