/**
 * What the operations of `GenomicElement` promise about one another:
 * the algebra of the half-open overlap test, the closed form handed to the
 * interval tree, and equality and order through the string form.
 */
module GenomicElementProperties {
  import opened JavaText
  import opened GenomicRegions

  // ---------------------------------------------------------------------
  // Overlap

  /** Overlap does not depend on which element asks. */
  lemma OverlapSymmetric(a: GenomicElement, b: GenomicElement)
    ensures a.HasOverlap(b) == b.HasOverlap(a)
  {
  }

  /** Elements on different chromosomes never overlap, whatever their coordinates. */
  lemma DifferentChromosomesNeverOverlap(a: GenomicElement, b: GenomicElement)
    requires a.chr != b.chr
    ensures !a.HasOverlap(b) && !b.HasOverlap(a)
  {
  }

  /**
   * The overlap test agrees with its meaning: two valid elements overlap
   * exactly when they are on the same chromosome and share a position.
   */
  lemma OverlapIsSharedPosition(a: GenomicElement, b: GenomicElement)
    requires a.Valid() && b.Valid()
    ensures a.HasOverlap(b) <==> a.chr == b.chr && exists p :: a.Covers(p) && b.Covers(p)
  {
    if a.HasOverlap(b) {
      var p := if a.start < b.start then b.start else a.start;
      assert a.Covers(p) && b.Covers(p);
    }
  }

  /** A valid element overlaps itself. */
  lemma ValidElementOverlapsItself(a: GenomicElement)
    requires a.Valid()
    ensures a.HasOverlap(a)
  {
  }

  /** Half-open ends: elements that only touch do not overlap. */
  lemma TouchingElementsDoNotOverlap(a: GenomicElement, b: GenomicElement)
    requires a.end == b.start
    ensures !a.HasOverlap(b) && !b.HasOverlap(a)
  {
  }

  /** The last position of a valid element is inside it: starting there overlaps. */
  lemma StartAtLastPositionOverlaps(a: GenomicElement, b: GenomicElement)
    requires a.Valid() && b.Valid() && a.chr == b.chr
    requires b.start == a.end - 1
    ensures a.HasOverlap(b) && b.HasOverlap(a)
  {
  }

  /**
   * On one chromosome, the closed forms `[start, end - 1]` intersect exactly
   * when the half-open elements overlap, so the interval tree answers the
   * same question as `HasOverlap`.
   */
  lemma ClosedFormPreservesOverlap(a: GenomicElement, b: GenomicElement)
    requires a.Valid() && b.Valid() && a.chr == b.chr
    ensures a.ToInterval().Intersects(b.ToInterval()) <==> a.HasOverlap(b)
  {
  }

  // ---------------------------------------------------------------------
  // Equality through the string form

  /** Equality of string forms is an equivalence relation. */
  lemma EqualsIsEquivalence(a: GenomicElement, b: GenomicElement, c: GenomicElement)
    ensures a.Equals(a)
    ensures a.Equals(b) ==> b.Equals(a)
    ensures a.Equals(b) && b.Equals(c) ==> a.Equals(c)
  {
  }

  /** Where the parts of `x + [d] + y` sit. */
  lemma DelimitedParts(d: char, x: string, y: string)
    ensures (x + [d] + y)[|x|] == d
    ensures forall i :: 0 <= i < |x| ==> (x + [d] + y)[i] == x[i]
    ensures forall i :: |x| < i < |x| + 1 + |y| ==> (x + [d] + y)[i] == y[i - |x| - 1]
  {
  }

  /** Two strings around a delimiter that the left parts do not contain split the same way. */
  lemma SplitAtFirst(d: char, x1: string, y1: string, x2: string, y2: string)
    requires d !in x1 && d !in x2
    requires x1 + [d] + y1 == x2 + [d] + y2
    ensures x1 == x2 && y1 == y2
  {
    var s := x1 + [d] + y1;
    DelimitedParts(d, x1, y1);
    DelimitedParts(d, x2, y2);
    assert |x1| == |x2|;
    assert x1 == s[..|x1|] == x2;
    assert y1 == s[|x1| + 1..] == y2;
  }

  /** Two strings around a delimiter that the right parts do not contain split the same way. */
  lemma SplitAtLast(d: char, x1: string, y1: string, x2: string, y2: string)
    requires d !in y1 && d !in y2
    requires x1 + [d] + y1 == x2 + [d] + y2
    ensures x1 == x2 && y1 == y2
  {
    var s := x1 + [d] + y1;
    DelimitedParts(d, x1, y1);
    DelimitedParts(d, x2, y2);
    assert |y1| == |y2|;
    assert x1 == s[..|x1|] == x2;
    assert y1 == s[|x1| + 1..] == y2;
  }

  /** The coordinate part `[start,end)` of the string form. */
  function CoordinateText(start: nat, end: nat): string {
    "[" + NatToString(start) + "," + NatToString(end) + ")"
  }

  /** The coordinate part determines both coordinates. */
  lemma {:induction false} CoordinateTextInjective(s1: nat, e1: nat, s2: nat, e2: nat)
    requires CoordinateText(s1, e1) == CoordinateText(s2, e2)
    ensures s1 == s2 && e1 == e2
  {
    var t1, t2 := CoordinateText(s1, e1), CoordinateText(s2, e2);
    var a1, b1 := NatToString(s1), NatToString(e1) + ")";
    var a2, b2 := NatToString(s2), NatToString(e2) + ")";
    assert t1[1..] == a1 + [','] + b1;
    assert t2[1..] == a2 + [','] + b2;
    assert ',' !in a1 by { assert AllDigits(a1); }
    assert ',' !in a2 by { assert AllDigits(a2); }
    SplitAtFirst(',', a1, b1, a2, b2);
    assert NatToString(e1) == b1[..|b1| - 1] == b2[..|b2| - 1] == NatToString(e2);
    NatToStringInjective(s1, s2);
    NatToStringInjective(e1, e2);
  }

  /** The string form of a valid element, grouped around either of its two ':' delimiters. */
  lemma RenderShape(n: string, c: string, s: nat, e: nat)
    ensures Render(n, c, s, e) == n + [':'] + (c + [':'] + CoordinateText(s, e))
    ensures Render(n, c, s, e) == (n + [':'] + c) + [':'] + CoordinateText(s, e)
  {
  }

  /**
   * When both names, or both chromosomes, contain no ':', the string form
   * of a valid element determines the element: name, chromosome and both
   * coordinates.
   */
  lemma {:induction false} RenderInjective(n1: string, c1: string, s1: nat, e1: nat,
                                           n2: string, c2: string, s2: nat, e2: nat)
    requires (':' !in n1 && ':' !in n2) || (':' !in c1 && ':' !in c2)
    requires Render(n1, c1, s1, e1) == Render(n2, c2, s2, e2)
    ensures n1 == n2 && c1 == c2 && s1 == s2 && e1 == e2
  {
    var t1, t2 := CoordinateText(s1, e1), CoordinateText(s2, e2);
    RenderShape(n1, c1, s1, e1);
    RenderShape(n2, c2, s2, e2);
    assert ':' !in t1 by { assert AllDigits(NatToString(s1)) && AllDigits(NatToString(e1)); }
    assert ':' !in t2 by { assert AllDigits(NatToString(s2)) && AllDigits(NatToString(e2)); }
    if ':' !in n1 && ':' !in n2 {
      SplitAtFirst(':', n1, c1 + [':'] + t1, n2, c2 + [':'] + t2);
      SplitAtLast(':', c1, t1, c2, t2);
    } else {
      SplitAtLast(':', n1 + [':'] + c1, t1, n2 + [':'] + c2, t2);
      SplitAtLast(':', n1, c1, n2, c2);
    }
    CoordinateTextInjective(s1, e1, s2, e2);
  }

  /**
   * For valid elements whose names, or whose chromosomes, contain no ':',
   * `Equals` holds exactly when all four fields agree.
   */
  lemma EqualsIffSameFields(a: GenomicElement, b: GenomicElement)
    requires a.Valid() && b.Valid()
    requires (':' !in a.name && ':' !in b.name) || (':' !in a.chr && ':' !in b.chr)
    ensures a.Equals(b) <==> a.name == b.name && a.chr == b.chr && a.start == b.start && a.end == b.end
  {
    if a.Equals(b) {
      RenderInjective(a.name, a.chr, a.start, a.end, b.name, b.chr, b.start, b.end);
    }
  }

  /**
   * Without either restriction the string form is not injective: the element
   * named "a:b" on chromosome "c" equals the element named "a" on
   * chromosome "b:c" at the same coordinates.
   */
  lemma EqualsIgnoresWhereTheColonIs(a: GenomicElement, b: GenomicElement)
    requires a.name == "a:b" && a.chr == "c"
    requires b.name == "a" && b.chr == "b:c"
    requires a.start == b.start && a.end == b.end
    ensures a.Equals(b) && a.name != b.name && a.chr != b.chr
  {
  }

  // ---------------------------------------------------------------------
  // Order through the string form

  /** `CompareTo` is exactly antisymmetric, as Java's `Comparable` asks. */
  lemma CompareToAntisymmetric(a: GenomicElement, b: GenomicElement)
    ensures a.CompareTo(b) == -b.CompareTo(a)
  {
    CompareAntisymmetric(a.ToString(), b.ToString());
  }

  /** `CompareTo` orders elements transitively. */
  lemma CompareToTransitive(a: GenomicElement, b: GenomicElement, c: GenomicElement)
    requires a.CompareTo(b) < 0 && b.CompareTo(c) < 0
    ensures a.CompareTo(c) < 0
  {
    CompareTransitive(a.ToString(), b.ToString(), c.ToString());
  }

  /** `CompareTo` is the lexicographic order of the string forms, not a genomic order. */
  lemma CompareToIsLexicographic(a: GenomicElement, b: GenomicElement)
    ensures a.CompareTo(b) < 0 <==> LexLess(a.ToString(), b.ToString())
  {
    CompareIsLexicographic(a.ToString(), b.ToString());
  }
}
