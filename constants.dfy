/** Physical constants shared by both analysis scripts. Every closed form uses
    only the coupling constant Phi, never the raw constants. */
module ModelConstants {

  /** Agent density: 1000 agents on a 150 x 150 box. */
  const Rho: real := 1000.0 / (150.0 * 150.0)

  /** Duration of the infectious period. */
  const TauI: real := 200.0

  /** Contact cross-section. */
  const Sigma: real := 4.0

  /** The coupling constant of every formula. */
  const Phi: real := 1.4 * Rho * Sigma * TauI

  /** Critical mean velocity of the uniform model, where 2 / Phi - v vanishes. */
  const VUniformCrit: real := 2.0 / Phi

  /** Population size by which raw outbreak counts are normalised. */
  const PopulationSize: real := 1000.0

  /** The constants are rational: Rho = 2/45, Phi = 448/9, so 2/Phi = 9/224. */
  lemma ConstantsAreExact()
    ensures Rho == 2.0 / 45.0
    ensures Phi == 448.0 / 9.0
    ensures VUniformCrit == 9.0 / 224.0
    ensures Phi > 0.0
  {
  }
}
