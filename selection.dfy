/**
 * What `initLWJGL` selects and where it places the window: the exact
 * refresh-rate match if there is one, otherwise the head of the candidates
 * sorted by refresh rate, otherwise nothing; then the window centred on the
 * desktop with Java's truncating integer division.
 */
module Selection {
  import opened Wrappers
  import opened Modes
  import opened FrequencySort

  /** The mode passed to `Display.setDisplayMode`, if one is. */
  function Select(modes: seq<DisplayMode>, current: DisplayMode): (r: Option<DisplayMode>)
    ensures r.Some? ==> r.value in modes && IsCandidate(r.value)
    ensures r.None? <==> forall m :: m in modes ==> !IsCandidate(m)
  {
    var cs := Candidates(modes);
    var exact := ExactMatch(cs, current.frequency);
    if exact.Some? then exact
    else if |cs| == 0 then None
    else
      assert StableSort(cs)[0] in multiset(cs);
      Some(StableSort(cs)[0])
  }

  /**
   * When some candidate has the desktop's refresh rate, the selection is the
   * first such candidate in enumeration order.
   */
  lemma SelectExactMatch(modes: seq<DisplayMode>, current: DisplayMode, i: nat)
    requires i < |modes| && IsCandidate(modes[i]) && modes[i].frequency == current.frequency
    requires forall j :: 0 <= j < i ==> !(IsCandidate(modes[j]) && modes[j].frequency == current.frequency)
    ensures Select(modes, current) == Some(modes[i])
  {
    var before, rest := modes[..i], modes[i..];
    assert modes == before + rest;
    CandidatesAppend(before, rest);
    assert rest == [modes[i]] + rest[1..];
    CandidatesAppend([modes[i]], rest[1..]);
    assert Candidates([modes[i]]) == [modes[i]] by {
      assert [modes[i]][1..] == [];
    }
    var cb := Candidates(before);
    var cs := Candidates(modes);
    assert forall m :: m in before ==> exists j :: 0 <= j < i && modes[j] == m;
    assert forall j :: 0 <= j < |cb| ==> cs[j] == cb[j] && cb[j] in cb;
    ExactMatchIsFirst(cs, current.frequency, |cb|);
  }

  /**
   * When no candidate has the desktop's refresh rate but some exist, the
   * selection is the earliest candidate with the lowest refresh rate.
   */
  lemma SelectFallback(modes: seq<DisplayMode>, current: DisplayMode)
    requires forall m :: m in modes && IsCandidate(m) ==> m.frequency != current.frequency
    requires exists m :: m in modes && IsCandidate(m)
    ensures Candidates(modes) != []
    ensures Select(modes, current) == Some(Candidates(modes)[FirstMinimum(Candidates(modes))])
    ensures forall m :: m in modes && IsCandidate(m) ==> Select(modes, current).value.frequency <= m.frequency
  {
    var cs := Candidates(modes);
    StableSortHead(cs);
  }

  function Abs(n: int): nat {
    if n < 0 then -n else n
  }

  /**
   * `q` is the quotient of `a` by `b` truncated toward zero: the remainder
   * takes the sign of the dividend and is smaller than the divisor.
   */
  predicate Truncates(a: int, b: int, q: int) {
    var r := a - q * b;
    (a >= 0 ==> 0 <= r) && (a <= 0 ==> r <= 0) && Abs(r) < Abs(b)
  }

  /** The quotient of naturals leaves a remainder below the divisor. */
  lemma NaturalRemainder(n: nat, d: nat)
    requires d > 0
    ensures 0 <= n - (n / d) * d < d
  {
  }

  /** Truncating division by a positive divisor. */
  lemma TruncatedByPositive(a: int, d: int, q: int)
    requires d > 0 && q == Abs(a) / d
    ensures Truncates(a, d, if a < 0 then -q else q)
  {
    NaturalRemainder(Abs(a), d);
    var m := Abs(a) - q * d;
    if a < 0 {
      assert a - (-q) * d == -m by {
        assert (-q) * d == -(q * d);
      }
    } else {
      assert a - q * d == m;
    }
  }

  /** Truncating division by a negative divisor, reduced to a positive one. */
  lemma TruncatedByNegative(a: int, b: int, q: int)
    requires b < 0 && q == Abs(a) / Abs(b)
    ensures Truncates(a, b, if a < 0 then q else -q)
  {
    var d := -b;
    TruncatedByPositive(a, d, q);
    var p := if a < 0 then -q else q;
    assert (-p) * b == p * d;
  }

  /**
   * Java's `int` division: the quotient truncated toward zero. Dafny's `/`
   * is Euclidean and differs when the dividend is negative.
   */
  function JDiv(a: int, b: int): (q: int)
    requires b != 0
    ensures Truncates(a, b, q)
  {
    var q := Abs(a) / Abs(b);
    if b > 0 then
      TruncatedByPositive(a, b, q);
      if a < 0 then -q else q
    else
      TruncatedByNegative(a, b, q);
      if a < 0 then q else -q
  }

  /** Truncating division and Euclidean division disagree on -1 / 2. */
  lemma JDivOfNegative()
    ensures JDiv(-1, 2) == 0 && -1 / 2 == -1
  {
  }

  /** The window's top-left corner. */
  datatype Location = Location(x: int, y: int)

  /** `x` is half of `d`, rounded toward zero. */
  predicate HalfTowardZero(d: int, x: int) {
    (d >= 0 ==> d - 1 <= 2 * x <= d) && (d < 0 ==> d <= 2 * x <= d + 1)
  }

  /**
   * The location that centres a window of the `active` mode's size on a
   * desktop of the `desktop` mode's size.
   */
  function WindowLocation(desktop: DisplayMode, active: DisplayMode): (loc: Location)
    ensures HalfTowardZero(desktop.width - active.width, loc.x)
    ensures HalfTowardZero(desktop.height - active.height, loc.y)
  {
    Location(JDiv(desktop.width - active.width, 2), JDiv(desktop.height - active.height, 2))
  }

  /** A 1024x768 window on a 1920x1080 desktop is placed at (448, 156). */
  lemma CenteredOnFullHd()
    ensures WindowLocation(DisplayMode(1920, 1080, 32, 60), DisplayMode(1024, 768, 32, 60)) == Location(448, 156)
  {
  }

  /**
   * The mode `Display.getDisplayMode` reports afterwards: the selected one,
   * or the desktop mode when nothing was selected.
   */
  function ActiveMode(selected: Option<DisplayMode>, current: DisplayMode): DisplayMode {
    selected.GetOr(current)
  }

  /**
   * With no candidate nothing is selected, the desktop mode stays active and
   * the window is placed at the origin.
   */
  lemma NoCandidates(modes: seq<DisplayMode>, current: DisplayMode)
    requires forall m :: m in modes ==> !IsCandidate(m)
    ensures Select(modes, current) == None
    ensures WindowLocation(current, ActiveMode(Select(modes, current), current)) == Location(0, 0)
  {
  }
}
