/**
 * A genomic element: an interval on a chromosome in zero-based, half-open
 * (BED-like) coordinates `[start, end)`, with a name. Only the name can be
 * changed after construction.
 */
module GenomicRegions {
  import opened JavaText

  /** Java's `int`. */
  type Int32 = x: int | -0x8000_0000 <= x < 0x8000_0000

  /** Why the constructor refuses its coordinates (both are an `IllegalArgumentException` in Java). */
  datatype RangeError = NegativeCoordinate | StartNotBeforeEnd

  datatype Option<T> = None | Some(value: T)

  datatype Result<T> = Ok(value: T) | Err(error: RangeError)

  /**
   * The closed interval `[lo, hi]` handed to the external interval tree.
   * `Intersects` is the overlap test of closed intervals.
   */
  datatype ClosedInterval = ClosedInterval(lo: int, hi: int) {
    predicate Contains(p: int) {
      lo <= p <= hi
    }

    predicate Intersects(other: ClosedInterval) {
      lo <= other.hi && other.lo <= hi
    }
  }

  /**
   * The constructor's checks, in their order: negative coordinates are
   * reported first, then a start that is not before the end. No error
   * exactly for `0 <= start < end`.
   */
  function CheckRange(start: int, end: int): (r: Option<RangeError>)
    ensures r.None? <==> 0 <= start < end
    ensures r == Some(NegativeCoordinate) <==> start < 0 || end < 0
  {
    if start < 0 || end < 0 then Some(NegativeCoordinate)
    else if start >= end then Some(StartNotBeforeEnd)
    else None
  }

  /** The string form `name:chr:[start,end)`. */
  function Render(name: string, chr: string, start: int, end: int): string {
    name + ":" + chr + ":[" + IntToString(start) + "," + IntToString(end) + ")"
  }

  class GenomicElement {
    var chr: string
    var start: Int32
    var end: Int32
    var name: string

    /** The invariant every constructed element satisfies. */
    ghost predicate Valid()
      reads this
    {
      0 <= start < end
    }

    /** Whether zero-based position `p` lies inside `[start, end)`. */
    predicate Covers(p: int)
      reads this
    {
      start <= p < end
    }

    /** Assigns the fields of an element whose range has already been checked. */
    constructor (chr: string, start: Int32, end: Int32, name: string)
      requires CheckRange(start, end).None?
      ensures Valid()
      ensures this.chr == chr && this.start == start && this.end == end && this.name == name
    {
      this.chr := chr;
      this.name := name;
      this.start := start;
      this.end := end;
    }

    /**
     * The Java constructor: refuses negative coordinates and `start >= end`,
     * and otherwise yields a new valid element with exactly the given fields.
     */
    static method Create(chr: string, start: Int32, end: Int32, name: string)
      returns (r: Result<GenomicElement>)
      ensures r.Ok? <==> 0 <= start < end
      ensures r.Err? ==> (r.error == NegativeCoordinate <==> start < 0 || end < 0)
      ensures r.Ok? ==> fresh(r.value) && r.value.Valid()
      ensures r.Ok? ==> r.value.chr == chr && r.value.start == start && r.value.end == end && r.value.name == name
    {
      var check := CheckRange(start, end);
      if check.Some? {
        return Err(check.value);
      }
      var e := new GenomicElement(chr, start, end, name);
      return Ok(e);
    }

    function GetChr(): string
      reads this
    {
      chr
    }

    function GetStart(): Int32
      reads this
    {
      start
    }

    function GetEnd(): Int32
      reads this
    {
      end
    }

    function GetName(): string
      reads this
    {
      name
    }

    /** `toString`: the form `name:chr:[start,end)` that equality and order use. */
    function ToString(): string
      reads this
    {
      Render(name, chr, start, end)
    }

    /**
     * `toInterval`: the closed form `[start, end - 1]`. It is never empty and
     * holds exactly the positions of the half-open element.
     */
    function ToInterval(): (r: ClosedInterval)
      reads this
      requires Valid()
      ensures r.lo <= r.hi
      ensures forall p :: r.Contains(p) <==> Covers(p)
    {
      ClosedInterval(start, end - 1)
    }

    /** `equals`: the two string forms are the same. */
    function Equals(other: GenomicElement): bool
      reads this, other
    {
      other.ToString() == ToString()
    }

    /** `hasOverlap`: same chromosome, and each starts before the other ends. */
    function HasOverlap(other: GenomicElement): bool
      reads this, other
    {
      chr == other.GetChr() && start < other.GetEnd() && other.GetStart() < end
    }

    /** `compareTo`: the order of the string forms; zero exactly when `Equals` holds. */
    function CompareTo(other: GenomicElement): (r: int)
      reads this, other
      ensures r == 0 <==> Equals(other)
    {
      Compare(ToString(), other.ToString())
    }

    /**
     * `setName`: the name is replaced; chromosome and coordinates stay as
     * they were, so no overlap with any existing element changes.
     */
    method SetName(name: string)
      modifies this
      ensures this.name == name
      ensures chr == old(chr) && start == old(start) && end == old(end)
      ensures Valid() == old(Valid())
      ensures forall o: GenomicElement :: old(allocated(o)) ==> (HasOverlap(o) <==> old(HasOverlap(o)))
    {
      this.name := name;
    }
  }
}
