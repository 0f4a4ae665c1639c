/**
 * The scoring constants and formulas of the alert analyser: the weight
 * tables, the similarity threshold, the uniqueness of an alert and the
 * final weighted score. Scores are exact reals; the frequency factor
 * `1 / (1 + log1p(f))` is a parameter `ff` about which only what the
 * formula guarantees is assumed (see `IsFrequencyFactor`).
 */
module Scoring {

  /** Weight of each known alert type. */
  const TypeWeights: map<string, real> := map[
    "MEMORY_ATTACK" := 0.9,
    "PRIVILEGE_ESCALATION" := 0.85,
    "SYSTEM_TAMPERING" := 0.75,
    "ACCESS_VIOLATION" := 0.7,
    "SUSPICIOUS_EXECUTION" := 0.65
  ]

  /** Weight of each known severity. */
  const SeverityWeights: map<string, real> := map[
    "Critical" := 1.0,
    "High" := 0.8,
    "Medium" := 0.6,
    "Low" := 0.3
  ]

  /** At or above this similarity an alert is treated as a repeat. */
  const SimilarityThreshold: real := 0.85

  /** Shares of the type weight, the severity weight and the uniqueness in the final score. */
  const TypeShare: real := 0.3
  const SeverityShare: real := 0.3
  const UniquenessShare: real := 0.4

  /**
   * What `1 / (1 + log1p(f))` guarantees: it is 1 at f = 0, stays in (0, 1],
   * and does not grow as f grows.
   */
  ghost predicate IsFrequencyFactor(ff: nat -> real)
  {
    && ff(0) == 1.0
    && (forall n :: 0.0 < ff(n) <= 1.0)
    && (forall m, n :: m <= n ==> ff(n) <= ff(m))
  }

  /** How far an alert is from its nearest predecessor; nothing below the threshold distance. */
  function SimilarityFactor(similarity: real): (f: real)
    ensures similarity < SimilarityThreshold ==> f > 0.0 && f + similarity == 1.0
    ensures similarity >= SimilarityThreshold ==> f == 0.0
    ensures 0.0 <= similarity ==> f <= 1.0
  {
    if similarity < SimilarityThreshold then 1.0 - similarity else 0.0
  }

  /**
   * `calculate_uniqueness_score` / `_calculate_uniqueness`: the mean of the
   * similarity factor and the frequency factor of `frequency` earlier
   * occurrences.
   */
  function Uniqueness(similarity: real, frequency: nat, ff: nat -> real): (u: real)
    ensures similarity >= SimilarityThreshold ==> 2.0 * u == ff(frequency)
    ensures similarity < SimilarityThreshold ==> 2.0 * u == 1.0 - similarity + ff(frequency)
    ensures IsFrequencyFactor(ff) && 0.0 <= similarity ==> 0.0 < u <= 1.0
    ensures IsFrequencyFactor(ff) && frequency == 0 && similarity == 0.0 ==> u == 1.0
    ensures IsFrequencyFactor(ff) && similarity >= SimilarityThreshold ==> u <= 0.5
  {
    (SimilarityFactor(similarity) + ff(frequency)) / 2.0
  }

  /** `_calculate_final_scores`: the weighted sum of type, severity and uniqueness. */
  function FinalScore(typeScore: real, severityScore: real, uniqueness: real): (score: real)
    ensures 0.0 < typeScore <= 1.0 && 0.0 < severityScore <= 1.0 && 0.0 < uniqueness <= 1.0
      ==> 0.0 < score <= 1.0
  {
    typeScore * TypeShare + severityScore * SeverityShare + uniqueness * UniquenessShare
  }

  /** Every weight in both tables is a proper fraction in (0, 1]. */
  lemma WeightsInRange()
    ensures forall t :: t in TypeWeights ==> 0.0 < TypeWeights[t] <= 1.0
    ensures forall s :: s in SeverityWeights ==> 0.0 < SeverityWeights[s] <= 1.0
  {
  }

  /** A more similar alert is never more unique. */
  lemma UniquenessFallsWithSimilarity(s1: real, s2: real, frequency: nat, ff: nat -> real)
    requires s1 <= s2
    ensures Uniqueness(s2, frequency, ff) <= Uniqueness(s1, frequency, ff)
  {
  }

  /** A more frequent alert is never more unique. */
  lemma UniquenessFallsWithFrequency(similarity: real, f1: nat, f2: nat, ff: nat -> real)
    requires IsFrequencyFactor(ff) && f1 <= f2
    ensures Uniqueness(similarity, f2, ff) <= Uniqueness(similarity, f1, ff)
  {
  }

  /** A higher uniqueness never lowers the final score, and each step of it is worth 0.4 of a point. */
  lemma FinalScoreMonotone(typeScore: real, severityScore: real, u1: real, u2: real)
    requires u1 <= u2
    ensures FinalScore(typeScore, severityScore, u1) <= FinalScore(typeScore, severityScore, u2)
    ensures FinalScore(typeScore, severityScore, u2) - FinalScore(typeScore, severityScore, u1)
         == UniquenessShare * (u2 - u1)
  {
  }

  /**
   * A repeat of a MEMORY_ATTACK/Critical alert whose nearest predecessor is
   * 0.92 similar scores 0.27 + 0.3 + 0.2 * ff(frequency): the similarity
   * factor is zero above the threshold.
   */
  lemma RepeatedCriticalMemoryAttack(frequency: nat, ff: nat -> real)
    ensures FinalScore(TypeWeights["MEMORY_ATTACK"], SeverityWeights["Critical"], Uniqueness(0.92, frequency, ff))
         == 0.57 + 0.2 * ff(frequency)
  {
  }
}
