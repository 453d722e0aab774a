/**
 * The display-mode selection of `initLWJGL` as the source runs it: a loop
 * that collects the candidates into a list, a scan with a `found` flag and a
 * `break`, an in-place stable sort of the candidate array, and the centring.
 */
module Bootstrap {
  import opened Wrappers
  import opened Modes
  import opened FrequencySort
  import opened Selection

  /** Appends each candidate of `modes` to `matching`, in enumeration order. */
  method CollectCandidates(modes: seq<DisplayMode>) returns (matching: seq<DisplayMode>)
    ensures matching == Candidates(modes)
  {
    matching := [];
    for i := 0 to |modes|
      invariant matching == Candidates(modes[..i])
    {
      assert modes[..i + 1] == modes[..i] + [modes[i]];
      CandidatesAppend(modes[..i], [modes[i]]);
      assert [modes[i]][1..] == [];
      if IsCandidate(modes[i]) {
        matching := matching + [modes[i]];
      }
    }
    assert modes[..|modes|] == modes;
  }

  /** Scans `a` for the first mode whose refresh rate is `frequency`. */
  method FindFrequency(a: array<DisplayMode>, frequency: int) returns (found: bool, index: nat)
    ensures found ==> index < a.Length && a[index].frequency == frequency
    ensures found ==> forall j :: 0 <= j < index ==> a[j].frequency != frequency
    ensures !found ==> forall j :: 0 <= j < a.Length ==> a[j].frequency != frequency
  {
    found, index := false, 0;
    var i := 0;
    while i < a.Length
      invariant 0 <= i <= a.Length
      invariant forall j :: 0 <= j < i ==> a[j].frequency != frequency
    {
      if a[i].frequency == frequency {
        found, index := true, i;
        break;
      }
      i := i + 1;
    }
  }

  /**
   * One pass of the insertion sort: moves `a[i]` left past the elements of
   * the sorted prefix `a[..i]` that the comparator ranks strictly above it.
   */
  method InsertInPlace(a: array<DisplayMode>, i: nat)
    requires i < a.Length
    modifies a
    ensures a[..i + 1] == Insert(old(a[..i]), old(a[i]))
    ensures a[i + 1..] == old(a[i + 1..])
  {
    ghost var sorted, x, rest := a[..i], a[i], a[i + 1..];
    assert a[..] == sorted[..i] + [x] + sorted[i..] + rest by {
      assert a[..] == a[..i] + [a[i]] + a[i + 1..];
      assert sorted[..i] == sorted && sorted[i..] == [];
    }
    var j := i;
    assert Insert(sorted, x) == Insert(sorted[..j], x) + sorted[j..] by {
      assert sorted[..j] == sorted && sorted[j..] == [];
    }
    while j > 0 && CompareFrequency(a[j - 1], a[j]) > 0
      invariant 0 <= j <= i
      invariant a[..] == sorted[..j] + [x] + sorted[j..] + rest
      invariant Insert(sorted, x) == Insert(sorted[..j], x) + sorted[j..]
    {
      ghost var before := a[..];
      SwapStep(sorted, x, rest, j);
      InsertShift(sorted, x, j);
      a[j - 1], a[j] := a[j], a[j - 1];
      assert a[..] == before[j - 1 := x][j := sorted[j - 1]];
      j := j - 1;
    }
    InsertStop(sorted, x, j, rest, a[..]);
  }

  lemma SwapStep(sorted: seq<DisplayMode>, x: DisplayMode, rest: seq<DisplayMode>, j: nat)
    requires 0 < j <= |sorted|
    ensures var before := sorted[..j] + [x] + sorted[j..] + rest;
      before[j - 1] == sorted[j - 1] && before[j] == x &&
      before[j - 1 := x][j := sorted[j - 1]] == sorted[..j - 1] + [x] + sorted[j - 1..] + rest
  {
  }

  lemma InsertShift(sorted: seq<DisplayMode>, x: DisplayMode, j: nat)
    requires 0 < j <= |sorted| && CompareFrequency(sorted[j - 1], x) > 0
    requires Insert(sorted, x) == Insert(sorted[..j], x) + sorted[j..]
    ensures Insert(sorted, x) == Insert(sorted[..j - 1], x) + sorted[j - 1..]
  {
    InsertStep(sorted[..j], x);
    assert sorted[..j][..j - 1] == sorted[..j - 1];
    assert sorted[j - 1..] == [sorted[j - 1]] + sorted[j..];
  }

  lemma InsertStop(sorted: seq<DisplayMode>, x: DisplayMode, j: nat, rest: seq<DisplayMode>, now: seq<DisplayMode>)
    requires j <= |sorted|
    requires j == 0 || CompareFrequency(sorted[j - 1], x) <= 0
    requires Insert(sorted, x) == Insert(sorted[..j], x) + sorted[j..]
    requires now == sorted[..j] + [x] + sorted[j..] + rest
    ensures now[..|sorted| + 1] == Insert(sorted, x) && now[|sorted| + 1..] == rest
  {
    assert Insert(sorted[..j], x) == sorted[..j] + [x];
  }

  /**
   * Sorts `a` in place by ascending refresh rate, stably: the result is the
   * stable sort of the array's former contents.
   */
  method SortByFrequency(a: array<DisplayMode>)
    modifies a
    ensures a[..] == StableSort(old(a[..]))
    ensures SortedByFrequency(a[..]) && multiset(a[..]) == multiset(old(a[..]))
  {
    ghost var input := a[..];
    for i := 0 to a.Length
      invariant a[..i] == StableSort(input[..i])
      invariant a[i..] == input[i..]
    {
      ghost var prefix := input[..i + 1];
      assert prefix[..i] == input[..i] && prefix[i] == a[i] by {
        assert a[i..][0] == a[i];
      }
      InsertInPlace(a, i);
      assert a[..i + 1] == StableSort(prefix);
    }
    assert a[..] == a[..a.Length];
    assert input == input[..a.Length];
  }

  /**
   * Selects the display mode and computes the window location from the
   * enumerated `modes` and the desktop's `current` mode.
   */
  method InitDisplay(modes: seq<DisplayMode>, current: DisplayMode) returns (selected: Option<DisplayMode>, location: Location)
    ensures selected == Select(modes, current)
    ensures location == WindowLocation(current, ActiveMode(selected, current))
  {
    var matching := CollectCandidates(modes);
    var matchingModes := new DisplayMode[|matching|](i requires 0 <= i < |matching| => matching[i]);
    assert matchingModes[..] == matching;
    selected := None;
    var found, index := FindFrequency(matchingModes, current.frequency);
    if found {
      ExactMatchIsFirst(matching, current.frequency, index);
      selected := Some(matchingModes[index]);
    } else {
      SortByFrequency(matchingModes);
      if matchingModes.Length > 0 {
        selected := Some(matchingModes[0]);
      }
    }
    location := WindowLocation(current, ActiveMode(selected, current));
  }
}
