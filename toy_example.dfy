/**
 * The toy data set of the repository's tests, on chromosome "chr1":
 * domains [0,12) and [15,37), boundary [12,15), genes C [2,5), B [10,14),
 * D [18,20) and A [26,32), enhancers [2,4) and [26,28), and the CNVs
 * cnv1 [9,19), cnv2 [8,33), cnv3 [12,19) and cnv4 [14,16).
 */
module ToyExample {
  import opened GenomicRegions

  ghost predicate Placed(e: GenomicElement, start: int, end: int)
    reads e
  {
    e.chr == "chr1" && e.start == start && e.end == end
  }

  /** cnv1 disrupts the boundary and genes B and D, and no enhancer. */
  lemma Cnv1Overlaps(cnv1: GenomicElement, boundary: GenomicElement,
                     geneC: GenomicElement, geneB: GenomicElement, geneD: GenomicElement, geneA: GenomicElement,
                     enhancer1: GenomicElement, enhancer2: GenomicElement)
    requires Placed(cnv1, 9, 19) && Placed(boundary, 12, 15)
    requires Placed(geneC, 2, 5) && Placed(geneB, 10, 14) && Placed(geneD, 18, 20) && Placed(geneA, 26, 32)
    requires Placed(enhancer1, 2, 4) && Placed(enhancer2, 26, 28)
    ensures cnv1.HasOverlap(boundary) && cnv1.HasOverlap(geneB) && cnv1.HasOverlap(geneD)
    ensures !cnv1.HasOverlap(geneC) && !cnv1.HasOverlap(geneA)
    ensures !cnv1.HasOverlap(enhancer1) && !cnv1.HasOverlap(enhancer2)
  {
  }

  /** cnv2 reaches gene A and the second enhancer, but not gene C or the first enhancer. */
  lemma Cnv2Overlaps(cnv2: GenomicElement, boundary: GenomicElement,
                     geneC: GenomicElement, geneB: GenomicElement, geneD: GenomicElement, geneA: GenomicElement,
                     enhancer1: GenomicElement, enhancer2: GenomicElement)
    requires Placed(cnv2, 8, 33) && Placed(boundary, 12, 15)
    requires Placed(geneC, 2, 5) && Placed(geneB, 10, 14) && Placed(geneD, 18, 20) && Placed(geneA, 26, 32)
    requires Placed(enhancer1, 2, 4) && Placed(enhancer2, 26, 28)
    ensures cnv2.HasOverlap(boundary) && cnv2.HasOverlap(geneB) && cnv2.HasOverlap(geneD) && cnv2.HasOverlap(geneA)
    ensures !cnv2.HasOverlap(geneC)
    ensures !cnv2.HasOverlap(enhancer1) && cnv2.HasOverlap(enhancer2)
  {
  }

  /** cnv3 starts exactly at the boundary's start and still overlaps it, and gene B. */
  lemma Cnv3Overlaps(cnv3: GenomicElement, boundary: GenomicElement, leftDomain: GenomicElement,
                     geneB: GenomicElement, geneD: GenomicElement)
    requires Placed(cnv3, 12, 19) && Placed(boundary, 12, 15) && Placed(leftDomain, 0, 12)
    requires Placed(geneB, 10, 14) && Placed(geneD, 18, 20)
    ensures cnv3.HasOverlap(boundary) && cnv3.HasOverlap(geneB) && cnv3.HasOverlap(geneD)
    ensures !cnv3.HasOverlap(leftDomain)
  {
  }

  /**
   * cnv4 starts where gene B ends, so it does not overlap gene B; it
   * overlaps the boundary's last position and the first position of the
   * right domain.
   */
  lemma Cnv4Overlaps(cnv4: GenomicElement, boundary: GenomicElement, rightDomain: GenomicElement,
                     geneB: GenomicElement, geneD: GenomicElement)
    requires Placed(cnv4, 14, 16) && Placed(boundary, 12, 15) && Placed(rightDomain, 15, 37)
    requires Placed(geneB, 10, 14) && Placed(geneD, 18, 20)
    ensures cnv4.HasOverlap(boundary) && cnv4.HasOverlap(rightDomain)
    ensures !cnv4.HasOverlap(geneB) && !cnv4.HasOverlap(geneD)
  {
  }

  /**
   * The regions next to cnv1 inside its two domains, [0,9) and [19,37),
   * only touch cnv1 and do not overlap it; their string forms are the ones
   * that `Equals` compares.
   */
  lemma Cnv1AdjacentRegions(left: GenomicElement, right: GenomicElement, cnv1: GenomicElement)
    requires Placed(left, 0, 9) && left.name == "leftAdjacentRegion"
    requires Placed(right, 19, 37) && right.name == "rightAdjacentRegion"
    requires Placed(cnv1, 9, 19)
    ensures !left.HasOverlap(cnv1) && !right.HasOverlap(cnv1) && !left.HasOverlap(right)
    ensures left.ToString() == "leftAdjacentRegion:chr1:[0,9)"
    ensures right.ToString() == "rightAdjacentRegion:chr1:[19,37)"
  {
  }
}
