/**
 * Display modes as the windowing library enumerates them, the criterion
 * `initLWJGL` filters them by, the scan for an exact refresh-rate match and
 * the frequency comparator handed to the sort.
 */
module Modes {
  import opened Wrappers

  /** A platform display mode: resolution, colour depth and refresh rate. */
  datatype DisplayMode = DisplayMode(width: int, height: int, bitsPerPixel: int, frequency: int)

  /** The requested window size and colour depth. */
  const WIDTH: int := 1024
  const HEIGHT: int := 768
  const BITS_PER_PIXEL: int := 32

  /** A mode is a candidate when it has the requested size and depth. */
  predicate IsCandidate(m: DisplayMode) {
    m.width == WIDTH && m.height == HEIGHT && m.bitsPerPixel == BITS_PER_PIXEL
  }

  /** The candidates among `modes`, in enumeration order. */
  function Candidates(modes: seq<DisplayMode>): (cs: seq<DisplayMode>)
    ensures |cs| <= |modes|
    ensures forall m :: m in cs <==> m in modes && IsCandidate(m)
  {
    if modes == [] then []
    else (if IsCandidate(modes[0]) then [modes[0]] else []) + Candidates(modes[1..])
  }

  /** Filtering distributes over concatenation: enumeration order is kept. */
  lemma {:induction false} CandidatesAppend(a: seq<DisplayMode>, b: seq<DisplayMode>)
    ensures Candidates(a + b) == Candidates(a) + Candidates(b)
  {
    if a == [] {
      assert a + b == b;
    } else {
      assert (a + b)[0] == a[0];
      assert (a + b)[1..] == a[1..] + b;
      CandidatesAppend(a[1..], b);
    }
  }

  /** The first mode of `cs` whose refresh rate is `f`, if any. */
  function ExactMatch(cs: seq<DisplayMode>, f: int): (r: Option<DisplayMode>)
    ensures r.None? <==> forall m :: m in cs ==> m.frequency != f
    ensures r.Some? ==> r.value in cs && r.value.frequency == f
  {
    if cs == [] then None
    else if cs[0].frequency == f then Some(cs[0])
    else ExactMatch(cs[1..], f)
  }

  /** The match found is the earliest one. */
  lemma {:induction false} ExactMatchIsFirst(cs: seq<DisplayMode>, f: int, k: nat)
    requires k < |cs| && cs[k].frequency == f
    requires forall j :: 0 <= j < k ==> cs[j].frequency != f
    ensures ExactMatch(cs, f) == Some(cs[k])
  {
    if k > 0 {
      assert forall j :: 0 <= j < k - 1 ==> cs[1..][j] == cs[j + 1];
      ExactMatchIsFirst(cs[1..], f, k - 1);
    }
  }

  /**
   * The comparator of the sort: positive, negative or zero as the first
   * mode's refresh rate is higher than, lower than or equal to the second's.
   */
  function CompareFrequency(o1: DisplayMode, o2: DisplayMode): (r: int)
    ensures r == 1 <==> o1.frequency > o2.frequency
    ensures r == -1 <==> o1.frequency < o2.frequency
    ensures r == 0 <==> o1.frequency == o2.frequency
  {
    if o1.frequency > o2.frequency then 1
    else if o1.frequency < o2.frequency then -1
    else 0
  }

  /** The comparator is antisymmetric: sgn(compare(x, y)) == -sgn(compare(y, x)). */
  lemma CompareFrequencyAntisymmetric(o1: DisplayMode, o2: DisplayMode)
    ensures CompareFrequency(o1, o2) == -CompareFrequency(o2, o1)
  {
  }

  /** The comparator is transitive, so it is a total preorder on modes. */
  lemma CompareFrequencyTransitive(o1: DisplayMode, o2: DisplayMode, o3: DisplayMode)
    ensures CompareFrequency(o1, o2) <= 0 && CompareFrequency(o2, o3) <= 0 ==> CompareFrequency(o1, o3) <= 0
    ensures CompareFrequency(o1, o2) == 0 ==> CompareFrequency(o1, o3) == CompareFrequency(o2, o3)
  {
  }
}
