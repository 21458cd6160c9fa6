/**
 * The use-case tabs of the home page: while autoplay is on, an interval
 * moves the active tab to its cyclic successor in a fixed list; a tab chosen
 * by hand stops the rotation for good.
 */
module TabRotation {

  /** The rotation order the page uses. */
  const Tabs: seq<string> := ["sales", "support", "lead", "faq", "upsell"]

  /** `xs.indexOf(x)`: the first position of `x` in `xs`, or -1 when it is absent. */
  function IndexOf<T(==)>(xs: seq<T>, x: T): (r: int)
    ensures -1 <= r < |xs|
    ensures r == -1 <==> x !in xs
    ensures 0 <= r ==> xs[r] == x
  {
    IndexFrom(xs, x, 0)
  }

  /** The scan behind `indexOf`: the first position at or after `from` that holds `x`, or -1. */
  function IndexFrom<T(==)>(xs: seq<T>, x: T, from: nat): (r: int)
    requires from <= |xs|
    ensures -1 <= r < |xs|
    ensures r == -1 <==> forall j :: from <= j < |xs| ==> xs[j] != x
    ensures 0 <= r ==> from <= r && xs[r] == x
    decreases |xs| - from
  {
    if from == |xs| then -1
    else if xs[from] == x then from
    else IndexFrom(xs, x, from + 1)
  }

  /** No position before the one `indexOf` reports holds `x`. */
  lemma {:induction false} IndexFromFirst<T>(xs: seq<T>, x: T, from: nat, j: nat)
    requires from <= j < |xs| && j < IndexFrom(xs, x, from)
    ensures xs[j] != x
    decreases |xs| - from
  {
    if j > from {
      IndexFromFirst(xs, x, from + 1, j);
    }
  }

  /** `indexOf` finds the first occurrence. */
  lemma IndexOfFirst<T>(xs: seq<T>, x: T, j: nat)
    requires j < IndexOf(xs, x)
    ensures xs[j] != x
  {
    IndexFromFirst(xs, x, 0, j);
  }

  /** No tab occurs twice in the list. */
  predicate Distinct<T(==)>(xs: seq<T>)
  {
    forall i, j :: 0 <= i < j < |xs| ==> xs[i] != xs[j]
  }

  /**
   * The tab one rotation tick moves to: the one after the current tab, the
   * last wrapping round to the first. An unknown tab has index -1 and so
   * moves to the first tab.
   */
  function Successor<T(==)>(tabs: seq<T>, current: T): (r: T)
    requires |tabs| > 0
    ensures current !in tabs ==> r == tabs[0]
  {
    var next := IndexOf(tabs, current) + 1;
    if next < |tabs| then tabs[next] else tabs[0]
  }

  /** Whatever the current tab, even one outside the list, the next one is in the list. */
  lemma SuccessorInList<T>(tabs: seq<T>, current: T)
    requires |tabs| > 0
    ensures Successor(tabs, current) in tabs
  {
    var next := IndexOf(tabs, current) + 1;
    var j := if next < |tabs| then next else 0;
    assert tabs[j] == Successor(tabs, current);
  }

  /**
   * The successor as the page computes it, `tabs[(indexOf + 1) % length]`:
   * `indexOf + 1` is never negative, so JavaScript's `%` agrees with Dafny's.
   */
  lemma SuccessorIsModular<T>(tabs: seq<T>, current: T)
    requires |tabs| > 0
    ensures Successor(tabs, current) == tabs[(IndexOf(tabs, current) + 1) % |tabs|]
  {
    ModInRange(IndexOf(tabs, current) + 1, |tabs|);
  }

  /** For `0 <= m <= n`, the remainder of `m` by `n` is `m`, or 0 when `m == n`. */
  lemma ModInRange(m: int, n: int)
    requires 0 <= m <= n && 0 < n
    ensures m % n == if m < n then m else 0
  {
  }

  /** In a list without repeats, the tab at position `i` moves to position `i + 1`, or back to 0. */
  lemma SuccessorAt<T>(tabs: seq<T>, i: nat)
    requires Distinct(tabs) && i < |tabs|
    ensures Successor(tabs, tabs[i]) == if i + 1 < |tabs| then tabs[i + 1] else tabs[0]
  {
    assert IndexOf(tabs, tabs[i]) == i;
  }

  /** `k` rotation ticks from `t`: after at least one tick the tab is in the list. */
  function Rotate<T(==)>(tabs: seq<T>, t: T, k: nat): (r: T)
    requires |tabs| > 0
    ensures k == 0 ==> r == t
    ensures k > 0 ==> r in tabs
  {
    if k == 0 then t
    else
      var previous := Rotate(tabs, t, k - 1);
      SuccessorInList(tabs, previous);
      Successor(tabs, previous)
  }

  /** Position `p` of a list of five, moved on by one. */
  function Wrap(p: nat): nat
  {
    if p < 4 then p + 1 else 0
  }

  /** On a list of five, each tick moves one position on. */
  predicate CyclesByOne<T(==)>(tabs: seq<T>)
    requires |tabs| == 5
  {
    && Successor(tabs, tabs[0]) == tabs[1]
    && Successor(tabs, tabs[1]) == tabs[2]
    && Successor(tabs, tabs[2]) == tabs[3]
    && Successor(tabs, tabs[3]) == tabs[4]
    && Successor(tabs, tabs[4]) == tabs[0]
  }

  /** Five distinct tabs cycle one position per tick. */
  lemma DistinctCycles<T>(tabs: seq<T>)
    requires |tabs| == 5 && Distinct(tabs)
    ensures CyclesByOne(tabs)
  {
    SuccessorAt(tabs, 0);
    SuccessorAt(tabs, 1);
    SuccessorAt(tabs, 2);
    SuccessorAt(tabs, 3);
    SuccessorAt(tabs, 4);
  }

  /** The tab at position `j` moves to position `Wrap(j)`. */
  lemma SuccessorWrap<T>(tabs: seq<T>, j: nat)
    requires |tabs| == 5 && CyclesByOne(tabs) && j < 5
    ensures Successor(tabs, tabs[j]) == tabs[Wrap(j)]
  {
  }

  /** `k` ticks from position `i` land on position `(i + k) mod 5`. */
  lemma {:induction false} RotateFrom<T>(tabs: seq<T>, i: nat, k: nat)
    requires |tabs| == 5 && CyclesByOne(tabs) && i < 5
    ensures Rotate(tabs, tabs[i], k) == tabs[(i + k) % 5]
  {
    if k > 0 {
      RotateFrom(tabs, i, k - 1);
      var j := (i + k - 1) % 5;
      SuccessorWrap(tabs, j);
      assert Wrap(j) == (i + k) % 5;
    }
  }

  /** Five ticks bring every tab of a list of five distinct tabs back to itself. */
  lemma RotateCycle<T>(tabs: seq<T>, i: nat)
    requires |tabs| == 5 && Distinct(tabs) && i < 5
    ensures Rotate(tabs, tabs[i], 5) == tabs[i]
  {
    DistinctCycles(tabs);
    RotateFrom(tabs, i, 5);
  }

  /** A tab outside such a list moves to the first one and from there goes round the list. */
  lemma RotateUnknown<T>(tabs: seq<T>, t: T, k: nat)
    requires |tabs| == 5 && Distinct(tabs) && t !in tabs
    ensures Rotate(tabs, t, k + 1) == tabs[k % 5]
  {
    DistinctCycles(tabs);
    RotateUnknownFrom(tabs, t, k);
  }

  /** The induction behind `RotateUnknown`, over a list that cycles by one. */
  lemma {:induction false} RotateUnknownFrom<T>(tabs: seq<T>, t: T, k: nat)
    requires |tabs| == 5 && CyclesByOne(tabs) && t !in tabs
    ensures Rotate(tabs, t, k + 1) == tabs[k % 5]
  {
    if k > 0 {
      RotateUnknownFrom(tabs, t, k - 1);
      var j := (k - 1) % 5;
      SuccessorWrap(tabs, j);
      assert Wrap(j) == k % 5;
    }
  }

  /** The page's list has five distinct tabs. */
  lemma TabsDistinct()
    ensures |Tabs| == 5 && Distinct(Tabs)
  {
  }

  /**
   * On the page: the next tab is always one of the five, five ticks return
   * to the start, and an unknown tab moves to "sales".
   */
  lemma PageRotation(t: string)
    ensures Successor(Tabs, t) in Tabs
    ensures t in Tabs ==> Rotate(Tabs, t, 5) == t
    ensures t !in Tabs ==> Successor(Tabs, t) == "sales"
  {
    TabsDistinct();
    SuccessorInList(Tabs, t);
    if t in Tabs {
      var i :| 0 <= i < |Tabs| && Tabs[i] == t;
      RotateCycle(Tabs, i);
    }
  }

  /** Autoplay from the initial tab shows the tabs in list order, round and round. */
  lemma AutoplayOrder(k: nat)
    ensures Rotate(Tabs, "sales", k) == Tabs[k % 5]
  {
    TabsDistinct();
    DistinctCycles(Tabs);
    RotateFrom(Tabs, 0, k);
  }

  /** The two state cells of the page that drive the tabs. */
  class TabState {
    var activeTab: string
    var isAutoPlaying: bool

    /** The page starts on "sales" with autoplay on. */
    constructor ()
      ensures activeTab == "sales" && isAutoPlaying
    {
      activeTab := "sales";
      isAutoPlaying := true;
    }

    /** One firing of the rotation interval; with autoplay off there is no interval. */
    method Tick()
      modifies this
      ensures isAutoPlaying == old(isAutoPlaying)
      ensures activeTab == if isAutoPlaying then Successor(Tabs, old(activeTab)) else old(activeTab)
    {
      if isAutoPlaying {
        activeTab := Successor(Tabs, activeTab);
      }
    }

    /** A tab chosen by hand: show it and stop autoplay. */
    method HandleTabChange(value: string)
      modifies this
      ensures activeTab == value && !isAutoPlaying
    {
      activeTab := value;
      isAutoPlaying := false;
    }

    /** `n` firings of the rotation interval in a row. */
    method Ticks(n: nat)
      modifies this
      ensures isAutoPlaying == old(isAutoPlaying)
      ensures activeTab == if isAutoPlaying then Rotate(Tabs, old(activeTab), n) else old(activeTab)
    {
      var k := 0;
      while k < n
        invariant k <= n
        invariant isAutoPlaying == old(isAutoPlaying)
        invariant activeTab == if isAutoPlaying then Rotate(Tabs, old(activeTab), k) else old(activeTab)
      {
        Tick();
        k := k + 1;
      }
    }
  }

  /** After any number `m` of autoplay ticks, a tab chosen by hand stays through any number `n` of further ticks. */
  method ManualChoiceSticks(value: string, m: nat, n: nat) returns (shown: string)
    ensures shown == value
  {
    var tabs := new TabState();
    tabs.Ticks(m);
    tabs.HandleTabChange(value);
    tabs.Ticks(n);
    shown := tabs.activeTab;
  }
}
