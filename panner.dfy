/** The attenuation curves a panner node can use, and which one is the default. */
module Panner {

  datatype DistanceModel = Linear | Inverse | Exponential

  /** `Default::default()`: the variant marked `#[default]`. */
  function DefaultDistanceModel(): (m: DistanceModel)
    ensures m.Inverse?
  {
    Inverse
  }
}
