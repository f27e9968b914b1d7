/**
 * The four-way cluster rule applied to every (coherence, response) pair before
 * the responsiveness/coherence proportions are plotted.
 */
module Quadrant {

  datatype Cluster = Accommodating | Discontinuous | Directive | Integrative

  /** Both axes are split at the same boundary. */
  const Boundary: real := 0.35

  /** Left of the coherence boundary and above the response boundary. */
  predicate Low(coherence: real) { coherence < Boundary }
  predicate High(response: real) { response > Boundary }

  /**
   * `classify_quadrant`: each label holds exactly on one quadrant of the plane; the
   * response boundary itself belongs to the lower half, the coherence boundary to
   * the right half.
   */
  function Classify(coherence: real, response: real): (r: Cluster)
    ensures r == Accommodating <==> Low(coherence) && High(response)
    ensures r == Discontinuous <==> Low(coherence) && !High(response)
    ensures r == Directive <==> !Low(coherence) && !High(response)
    ensures r == Integrative <==> !Low(coherence) && High(response)
  {
    if coherence < Boundary && response > Boundary then Accommodating
    else if coherence < Boundary then Discontinuous
    else if response <= Boundary then Directive
    else Integrative
  }

  /** The label the plot shows for a cluster. */
  function Name(c: Cluster): (s: string)
    ensures |s| > 0
  {
    match c
    case Accommodating => "Accommodating"
    case Discontinuous => "Discontinuous"
    case Directive => "Directive"
    case Integrative => "Integrative"
  }

  /** Different clusters are shown under different names. */
  lemma NameInjective(a: Cluster, b: Cluster)
    requires Name(a) == Name(b)
    ensures a == b
  {
    assert Name(a)[1] == Name(b)[1];
    assert Name(a)[2] == Name(b)[2];
  }
}
