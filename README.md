# GenomicElement: a verified model

This project models `GenomicElement` from the topodombar CNV-annotation
tool. A genomic element is a named interval on a chromosome. It uses
zero-based, half-open (BED-like) coordinates `[start, end)`. Every other
interval structure of the tool is built on it: CNVs, genes, topological
domains, domain boundaries and enhancers.

The model has four modules:

- `GenomicRegions` (`genomic_element.dfy`) holds the class
  `GenomicElement`. Its fields are `chr`, `start`, `end` and `name`. The
  Java constructor throws `IllegalArgumentException`. Here it is the
  static method `Create`, which returns `Err(NegativeCoordinate)` or
  `Err(StartNotBeforeEnd)`, checked in the source's order, or a fresh
  valid element. `setName` is the one method that changes an element.
  `toString`, `toInterval`, `equals`, `hasOverlap` and `compareTo` are
  functions that read the object. The getters are functions that return
  their field.
- `JavaText` (`java_text.dfy`) models the two pieces of the Java runtime
  that the string form depends on. The first is decimal rendering of an
  `int`, as string concatenation does it. The second is
  `String.compareTo`: the difference of the first differing characters,
  or else the difference of the lengths.
- `GenomicElementProperties` (`genomic_element_properties.dfy`) states
  what the operations promise. It covers the overlap algebra, the closed
  form, and equality and order through the string form.
- `ToyExample` (`toy_example.dfy`) states the overlaps of the tests' toy
  data set as concrete lemmas.

Coordinates have the type `Int32`, Java's `int`. Valid elements have
`0 <= start < end`, so `end - 1` in `toInterval` cannot wrap around.

Where the documentation and the code disagree, the model follows the code:

- `toInterval` yields `[start, end - 1]`. The Javadoc speaks of 1-based
  coordinates, which would give `[start + 1, end]`, but the code passes
  `start` unchanged. Every element goes through the same conversion, so
  intersection of closed forms still matches `hasOverlap`
  (`ClosedFormPreservesOverlap`).
- `toString` yields `name:chr:[start,end)`. Its Javadoc describes a
  different format, `name|chr:start-(end-1)`.

Equality is equality of string forms, and that is not field equality.
`EqualsIffSameFields` proves that the string form determines all four
fields when neither name contains `:`, or when neither chromosome does
(the usual case: chromosome names such as `chr1` have no colon). `EqualsIgnoresWhereTheColonIs`
shows two elements with different names and chromosomes that are equal.

## Model

| member | source | states |
|---|---|---|
| `GenomicRegions.CheckRange` | src/main/java/genomicregions/GenomicElement.java:52-69 | no error exactly when `0 <= start < end`; the negative-coordinate error exactly when a coordinate is negative, so it takes precedence over `start >= end` |
| `GenomicRegions.GenomicElement.Create` | src/main/java/genomicregions/GenomicElement.java:47-75 | construction succeeds exactly when `0 <= start < end`; a failure reports negative coordinates exactly when one is negative; a success is a fresh valid element with the given chr, start, end and name |
| `GenomicRegions.GenomicElement.constructor` | src/main/java/genomicregions/GenomicElement.java:49-73 | for a checked range, the element holds exactly the given fields and is valid |
| `GenomicRegions.GenomicElement.SetName` | src/main/java/genomicregions/GenomicElement.java:161-163 | the name becomes the new one; chr, start and end are unchanged; validity is kept; the overlap with every existing element is unchanged |
| `GenomicRegions.GenomicElement.ToInterval` | src/main/java/genomicregions/GenomicElement.java:98-100 | the closed interval is non-empty (`lo <= hi`) and holds exactly the positions of `[start, end)` |
| `GenomicRegions.Render` | src/main/java/genomicregions/GenomicElement.java:84-86 | no contract of its own: the format `name:chr:[start,end)`; its properties are `RenderShape`, `RenderInjective`, `CoordinateTextInjective` and `EqualsIgnoresWhereTheColonIs` |
| `GenomicRegions.GenomicElement.ToString` | src/main/java/genomicregions/GenomicElement.java:84-86 | no contract of its own: `Render` of the element's four fields; its properties are those of `Render` |
| `GenomicRegions.GenomicElement.HasOverlap` | src/main/java/genomicregions/GenomicElement.java:118-127 | no contract of its own: same chromosome and each starts before the other ends; its properties are `OverlapSymmetric`, `DifferentChromosomesNeverOverlap`, `OverlapIsSharedPosition`, `ValidElementOverlapsItself`, `TouchingElementsDoNotOverlap`, `StartAtLastPositionOverlaps` and `ClosedFormPreservesOverlap` |
| `GenomicRegions.GenomicElement.Equals` | src/main/java/genomicregions/GenomicElement.java:108-110 | no contract of its own: the string forms are equal; its properties are `EqualsIsEquivalence`, `EqualsIffSameFields`, `EqualsIgnoresWhereTheColonIs` and `CompareTo`'s ensures |
| `GenomicElementProperties.RenderShape` | src/main/java/genomicregions/GenomicElement.java:85 | the string form of a valid element is the name, `:`, the chromosome, `:` and the digits-only coordinate text `[start,end)` |
| `GenomicRegions.GenomicElement.CompareTo` | src/main/java/genomicregions/GenomicElement.java:174-176 | the result is zero exactly when `Equals` holds |
| `GenomicElementProperties.OverlapSymmetric` | src/main/java/genomicregions/GenomicElement.java:118-127 | `a.HasOverlap(b) == b.HasOverlap(a)` |
| `GenomicElementProperties.DifferentChromosomesNeverOverlap` | src/main/java/genomicregions/GenomicElement.java:121-126 | elements on different chromosomes do not overlap, whatever their coordinates |
| `GenomicElementProperties.OverlapIsSharedPosition` | src/main/java/genomicregions/GenomicElement.java:118-127 | two valid elements overlap exactly when they are on the same chromosome and some position lies in both |
| `GenomicElementProperties.ValidElementOverlapsItself` | src/main/java/genomicregions/GenomicElement.java:124 | a valid element overlaps itself |
| `GenomicElementProperties.TouchingElementsDoNotOverlap` | src/main/java/genomicregions/GenomicElement.java:124 | when one element ends where the other starts, neither overlaps the other |
| `GenomicElementProperties.StartAtLastPositionOverlaps` | src/main/java/genomicregions/GenomicElement.java:124 | an element that starts at another's last position `end - 1` on the same chromosome overlaps it |
| `GenomicElementProperties.ClosedFormPreservesOverlap` | src/main/java/genomicregions/GenomicElement.java:90-100 | on one chromosome, the closed forms intersect exactly when the elements overlap |
| `GenomicElementProperties.EqualsIsEquivalence` | src/main/java/genomicregions/GenomicElement.java:108-110 | `Equals` is reflexive, symmetric and transitive |
| `GenomicElementProperties.CoordinateTextInjective` | src/main/java/genomicregions/GenomicElement.java:85 | the `[start,end)` part of the string form determines both coordinates |
| `GenomicElementProperties.RenderInjective` | src/main/java/genomicregions/GenomicElement.java:84-86 | when both names, or both chromosomes, contain no `:`, the string form `name:chr:[start,end)` determines name, chr, start and end |
| `GenomicElementProperties.EqualsIffSameFields` | src/main/java/genomicregions/GenomicElement.java:84-110 | for valid elements whose names, or whose chromosomes, contain no `:`, `Equals` holds exactly when all four fields agree |
| `GenomicElementProperties.EqualsIgnoresWhereTheColonIs` | src/main/java/genomicregions/GenomicElement.java:84-86 | "a:b" on "c" equals "a" on "b:c" at the same coordinates, although names and chromosomes differ |
| `GenomicElementProperties.CompareToAntisymmetric` | src/main/java/genomicregions/GenomicElement.java:174-176 | `a.CompareTo(b) == -b.CompareTo(a)` |
| `GenomicElementProperties.CompareToTransitive` | src/main/java/genomicregions/GenomicElement.java:174-176 | `a < b` and `b < c` by `CompareTo` give `a < c` |
| `GenomicElementProperties.CompareToIsLexicographic` | src/main/java/genomicregions/GenomicElement.java:174-176 | a negative `CompareTo` means exactly that the string forms are in lexicographic order, so the order is not genomic |
| `JavaText.NatToString` | src/main/java/genomicregions/GenomicElement.java:85 | decimal rendering: non-empty, digits only, a leading `0` exactly for zero |
| `JavaText.IntToString` | src/main/java/genomicregions/GenomicElement.java:85 | non-empty; starts with `-` exactly for negative values; digits only otherwise |
| `JavaText.DecimalRoundTrip` | src/main/java/genomicregions/GenomicElement.java:85 | reading the rendering of `n` back as a decimal number gives `n` |
| `JavaText.NatToStringInjective` | src/main/java/genomicregions/GenomicElement.java:85 | different numbers render differently |
| `JavaText.Compare` | src/main/java/genomicregions/GenomicElement.java:175 | `String.compareTo` is zero exactly for equal strings |
| `JavaText.CompareIsLexicographic` | src/main/java/genomicregions/GenomicElement.java:175 | a negative `String.compareTo` means exactly lexicographic precedence: a common prefix, then `a` ends first or has the smaller character |
| `JavaText.CompareAntisymmetric` | src/main/java/genomicregions/GenomicElement.java:175 | `Compare(a, b) == -Compare(b, a)` |
| `JavaText.CompareTransitive` | src/main/java/genomicregions/GenomicElement.java:175 | `Compare(a, b) < 0` is transitive |
| `ToyExample.Cnv1Overlaps` | src/test/java/phenotypeontology/PhenotypeDataTest.java:36-43 | cnv1 `[9,19)` overlaps the boundary and genes B and D, but not genes C or A and no enhancer |
| `ToyExample.Cnv2Overlaps` | src/test/java/phenotypeontology/PhenotypeDataTest.java:36-43 | cnv2 `[8,33)` overlaps the boundary, genes B, D and A and the enhancer `[26,28)`, but not gene C and not the enhancer `[2,4)` |
| `ToyExample.Cnv3Overlaps` | src/test/java/phenotypeontology/PhenotypeDataTest.java:36-43 | cnv3 `[12,19)` overlaps the boundary and genes B and D, but not the domain `[0,12)` that ends where it starts |
| `ToyExample.Cnv4Overlaps` | src/test/java/phenotypeontology/PhenotypeDataTest.java:36-43 | cnv4 `[14,16)` overlaps the boundary and the domain `[15,37)`, but not gene B `[10,14)`, which it only touches, and not gene D |
| `ToyExample.Cnv1AdjacentRegions` | src/test/java/genomicregions/AnnotateCNVsTest.java:145-146 | the regions `[0,9)` and `[19,37)` do not overlap cnv1 `[9,19)` or each other; their string forms are `leftAdjacentRegion:chr1:[0,9)` and `rightAdjacentRegion:chr1:[19,37)` |

## Left out

- Exceptions are modelled as the `Err` values of `Create`. The message text of the `IllegalArgumentException` is not modelled.
- The Java constructor assigns `chr` and `name` before it throws. Nothing can observe that, because no object comes out of a failed construction.
- `GenomicRegions.GenomicElement.ToInterval`: jannovar's `Interval` also carries a reference back to the element. The model returns only the pair `(lo, hi)`, because the interval tree is an external library.
- `GenomicRegions.GenomicElement.CompareTo`: it takes a `GenomicElement`. Java's `compareTo(Object)` also accepts any other object and uses that object's `toString`. Only elements are compared in the tool.
- `JavaText.Compare`: Java compares UTF-16 code units. Dafny strings are sequences of Unicode scalar values. The two differ only for characters outside the Basic Multilingual Plane.
- `equals(GenomicElement)` overloads rather than overrides `Object.equals`, and `hashCode` is not defined. Neither is modelled. A `null` argument, which throws in Java, cannot occur, because the model's references are non-null.
- Null `chr` and `name`: the Java constructor accepts `null` for both; `toString` then prints `null`, and `hasOverlap` on an element whose `chr` is `null` throws a `NullPointerException`. The model's fields are `string` values and cannot be null, so neither behaviour is captured.
- Virtual dispatch of `toString`: `equals` and `compareTo` call `toString()`, which a subclass such as `Gene` or `CNV` could override and so change what both compare. The model fixes both to the base form `Render`, because the subclasses are not part of this model.
- The getters `GetChr`, `GetStart`, `GetEnd` and `GetName` just return their field. They have no contract of their own.
- `GenomicSet`, `Gene`, `CNV`, `AnnotateCNVs`, `PhenotypeData` and `TermPair` are not part of this model. Their behaviour, such as adjacent-region derivation, phenotype scoring and the TDBD classification, appears only through the tests' toy coordinates.
