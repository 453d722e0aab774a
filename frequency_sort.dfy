/**
 * The stable ascending sort by refresh rate that the fallback of
 * `initLWJGL` applies to the candidates (a stable sort by the frequency
 * comparator), given as insertion sort on sequences, and the first-minimum
 * reference it is proved against.
 */
module FrequencySort {
  import opened Modes

  /** Refresh rates do not decrease along `s`. */
  predicate SortedByFrequency(s: seq<DisplayMode>) {
    forall i, j :: 0 <= i < j < |s| ==> s[i].frequency <= s[j].frequency
  }

  /**
   * Inserts `x` into `t` after every element that the comparator does not
   * rank above it, so that `x` stays behind the modes with its refresh rate.
   */
  function Insert(t: seq<DisplayMode>, x: DisplayMode): (r: seq<DisplayMode>)
    ensures |r| == |t| + 1
    decreases |t|
  {
    if |t| == 0 || CompareFrequency(t[|t| - 1], x) <= 0 then t + [x]
    else Insert(t[..|t| - 1], x) + [t[|t| - 1]]
  }

  /** Inserting adds `x` and keeps everything else. */
  lemma {:induction false} InsertPermutes(t: seq<DisplayMode>, x: DisplayMode)
    ensures multiset(Insert(t, x)) == multiset(t) + multiset{x}
    decreases |t|
  {
    if |t| > 0 && CompareFrequency(t[|t| - 1], x) > 0 {
      var t', last := t[..|t| - 1], t[|t| - 1];
      assert t == t' + [last];
      InsertPermutes(t', x);
    }
  }

  /** Inserting into a sorted sequence keeps it sorted. */
  lemma {:induction false} InsertSorted(t: seq<DisplayMode>, x: DisplayMode)
    requires SortedByFrequency(t)
    ensures SortedByFrequency(Insert(t, x))
    decreases |t|
  {
    if |t| > 0 && CompareFrequency(t[|t| - 1], x) > 0 {
      var t', last := t[..|t| - 1], t[|t| - 1];
      assert t == t' + [last];
      InsertSorted(t', x);
      InsertPermutes(t', x);
      var r' := Insert(t', x);
      forall k | 0 <= k < |r'|
        ensures r'[k].frequency <= last.frequency
      {
        assert r'[k] in multiset(r');
      }
    }
  }

  /** One step of `Insert`: `x` moves in front of a last element ranked above it. */
  lemma InsertStep(t: seq<DisplayMode>, x: DisplayMode)
    requires |t| > 0 && CompareFrequency(t[|t| - 1], x) > 0
    ensures Insert(t, x) == Insert(t[..|t| - 1], x) + [t[|t| - 1]]
  {
  }

  /** Stable insertion sort by ascending refresh rate. */
  function StableSort(s: seq<DisplayMode>): (r: seq<DisplayMode>)
    ensures multiset(r) == multiset(s)
    ensures SortedByFrequency(r)
  {
    if |s| == 0 then []
    else
      var s', x := s[..|s| - 1], s[|s| - 1];
      assert s == s' + [x];
      InsertPermutes(StableSort(s'), x);
      InsertSorted(StableSort(s'), x);
      Insert(StableSort(s'), x)
  }

  /** The modes of `s` with refresh rate `f`, in their order in `s`. */
  function WithFrequency(s: seq<DisplayMode>, f: int): seq<DisplayMode> {
    if |s| == 0 then []
    else WithFrequency(s[..|s| - 1], f) + (if s[|s| - 1].frequency == f then [s[|s| - 1]] else [])
  }

  lemma WithFrequencySnoc(t: seq<DisplayMode>, x: DisplayMode, f: int)
    ensures WithFrequency(t + [x], f) == WithFrequency(t, f) + WithFrequency([x], f)
  {
    assert (t + [x])[..|t|] == t;
    assert [x][..0] == [];
  }

  lemma {:induction false} InsertStable(t: seq<DisplayMode>, x: DisplayMode, f: int)
    ensures WithFrequency(Insert(t, x), f) == WithFrequency(t, f) + WithFrequency([x], f)
    decreases |t|
  {
    if |t| == 0 || CompareFrequency(t[|t| - 1], x) <= 0 {
      WithFrequencySnoc(t, x, f);
    } else {
      var t', last := t[..|t| - 1], t[|t| - 1];
      assert t == t' + [last];
      InsertStable(t', x, f);
      WithFrequencySnoc(Insert(t', x), last, f);
      WithFrequencySnoc(t', last, f);
      assert [x][..0] == [] && [last][..0] == [];
    }
  }

  /**
   * The sort is stable: the modes sharing any one refresh rate keep their
   * relative order.
   */
  lemma {:induction false} StableSortIsStable(s: seq<DisplayMode>, f: int)
    ensures WithFrequency(StableSort(s), f) == WithFrequency(s, f)
  {
    if |s| > 0 {
      var s', x := s[..|s| - 1], s[|s| - 1];
      StableSortIsStable(s', f);
      InsertStable(StableSort(s'), x, f);
      assert s == s' + [x];
      WithFrequencySnoc(s', x, f);
    }
  }

  /** The index of the first mode of `s` with the lowest refresh rate. */
  function FirstMinimum(s: seq<DisplayMode>): (k: nat)
    requires |s| > 0
    ensures k < |s|
    ensures forall j :: 0 <= j < |s| ==> s[k].frequency <= s[j].frequency
    ensures forall j :: 0 <= j < k ==> s[j].frequency > s[k].frequency
  {
    if |s| == 1 then 0
    else
      var k := FirstMinimum(s[..|s| - 1]);
      if s[|s| - 1].frequency < s[k].frequency then |s| - 1 else k
  }

  lemma {:induction false} InsertHead(t: seq<DisplayMode>, x: DisplayMode)
    requires SortedByFrequency(t)
    ensures Insert(t, x)[0] == if |t| == 0 || x.frequency < t[0].frequency then x else t[0]
    decreases |t|
  {
    if |t| > 0 && CompareFrequency(t[|t| - 1], x) > 0 {
      var t' := t[..|t| - 1];
      if |t'| > 0 {
        InsertHead(t', x);
      }
    }
  }

  /**
   * After the stable sort, the first element is the earliest mode in the
   * original order with the lowest refresh rate.
   */
  lemma {:induction false} StableSortHead(s: seq<DisplayMode>)
    requires |s| > 0
    ensures StableSort(s)[0] == s[FirstMinimum(s)]
  {
    var s', x := s[..|s| - 1], s[|s| - 1];
    InsertHead(StableSort(s'), x);
    if |s'| > 0 {
      StableSortHead(s');
    }
  }
}
