/**
 * selectBestTab: which tab of a duplicate set survives. The source folds the
 * list with a pairwise comparator (`tabs.reduce`); the model proves that fold
 * returns the maximum of an independent lexicographic rank.
 */
module Selection {
  import opened Wrappers
  import opened Tabs

  // ---------------------------------------------------------------------------
  // The reference order

  function Flag(b: bool): int {
    if b then 1 else 0
  }

  /**
   * The survivor priorities in order: active, audible, pinned, later
   * completion time, and finally the lower id (entered negated, so that
   * larger is better in every position).
   */
  function Rank(t: Tab, st: Stamps): seq<int> {
    [Flag(t.active), Flag(t.audible), Flag(t.pinned), st.Of(t.id), -t.id]
  }

  /** Lexicographic "at least as good as" on rank vectors of equal length. */
  predicate LexGe(x: seq<int>, y: seq<int>)
    requires |x| == |y|
    decreases |x|
  {
    x == [] || x[0] > y[0] || (x[0] == y[0] && LexGe(x[1..], y[1..]))
  }

  lemma {:induction false} LexGeTotal(x: seq<int>, y: seq<int>)
    requires |x| == |y|
    ensures LexGe(x, y) || LexGe(y, x)
    decreases |x|
  {
    if x != [] && x[0] == y[0] {
      LexGeTotal(x[1..], y[1..]);
    }
  }

  lemma {:induction false} LexGeTransitive(x: seq<int>, y: seq<int>, z: seq<int>)
    requires |x| == |y| == |z|
    requires LexGe(x, y) && LexGe(y, z)
    ensures LexGe(x, z)
    decreases |x|
  {
    if x != [] && x[0] == y[0] == z[0] {
      LexGeTransitive(x[1..], y[1..], z[1..]);
    }
  }

  lemma {:induction false} LexGeAntisymmetric(x: seq<int>, y: seq<int>)
    requires |x| == |y|
    requires LexGe(x, y) && LexGe(y, x)
    ensures x == y
    decreases |x|
  {
    if x != [] {
      LexGeAntisymmetric(x[1..], y[1..]);
      assert x == [x[0]] + x[1..] && y == [y[0]] + y[1..];
    }
  }

  /** The ranks of two tabs, compared position by position. */
  lemma RankOrder(a: Tab, b: Tab, st: Stamps)
    ensures LexGe(Rank(a, st), Rank(b, st)) <==>
      if a.active != b.active then a.active
      else if a.audible != b.audible then a.audible
      else if a.pinned != b.pinned then a.pinned
      else if st.Of(a.id) != st.Of(b.id) then st.Of(a.id) > st.Of(b.id)
      else a.id <= b.id
  {
    var x, y := Rank(a, st), Rank(b, st);
    assert LexGe(x[4..], y[4..]) <==> -a.id >= -b.id by {
      assert x[4..][1..] == [] && y[4..][1..] == [];
    }
    assert x[4..] == x[3..][1..] && y[4..] == y[3..][1..];
    assert LexGe(x[3..], y[3..]) <==> x[3] > y[3] || (x[3] == y[3] && LexGe(x[4..], y[4..]));
    assert x[3..] == x[2..][1..] && y[3..] == y[2..][1..];
    assert LexGe(x[2..], y[2..]) <==> x[2] > y[2] || (x[2] == y[2] && LexGe(x[3..], y[3..]));
    assert x[2..] == x[1..][1..] && y[2..] == y[1..][1..];
    assert LexGe(x[1..], y[1..]) <==> x[1] > y[1] || (x[1] == y[1] && LexGe(x[2..], y[2..]));
  }

  lemma {:induction false} LexGeReflexive(x: seq<int>)
    ensures LexGe(x, x)
    decreases |x|
  {
    if x != [] {
      LexGeReflexive(x[1..]);
    }
  }

  // ---------------------------------------------------------------------------
  // The comparator and the fold

  /** The `reduce` callback: which of the running best and the current tab to carry on. */
  function Pick(best: Tab, current: Tab, st: Stamps): (r: Tab)
    ensures r == best || r == current
    ensures LexGe(Rank(r, st), Rank(best, st)) && LexGe(Rank(r, st), Rank(current, st))
  {
    RankOrder(best, current, st);
    RankOrder(current, best, st);
    RankOrder(best, best, st);
    RankOrder(current, current, st);
    // Priority 1: active
    if current.active && !best.active then current
    else if best.active && !current.active then best
    // Priority 2: audible
    else if current.audible && !best.audible then current
    else if best.audible && !current.audible then best
    // Priority 3: pinned
    else if current.pinned && !best.pinned then current
    else if best.pinned && !current.pinned then best
    else
      // Priority 4: the later completion (or creation) time
      var bestTime := st.Of(best.id);
      var currentTime := st.Of(current.id);
      if currentTime > bestTime then current
      else if bestTime > currentTime then best
      // Priority 5: the lower id
      else if best.id < current.id then best
      else current
  }

  /**
   * `tabs.reduce(Pick)`: a left fold from the first tab. `reduce` without an
   * initial value throws on an empty array, so the caller must pass a
   * non-empty list (both callers do). The survivor is a member of the list
   * and ranks at least as high as every tab in it.
   */
  function SelectBestTab(tabs: seq<Tab>, st: Stamps): (r: Tab)
    requires |tabs| > 0
    ensures r in tabs
    ensures forall t <- tabs :: LexGe(Rank(r, st), Rank(t, st))
  {
    if |tabs| == 1 then
      LexGeReflexive(Rank(tabs[0], st));
      tabs[0]
    else
      var init := tabs[..|tabs| - 1];
      var best := SelectBestTab(init, st);
      var r := Pick(best, tabs[|tabs| - 1], st);
      PickDominates(init, best, tabs[|tabs| - 1], r, st);
      assert tabs == init + [tabs[|tabs| - 1]];
      r
  }

  lemma PickDominates(init: seq<Tab>, best: Tab, last: Tab, r: Tab, st: Stamps)
    requires forall t <- init :: LexGe(Rank(best, st), Rank(t, st))
    requires LexGe(Rank(r, st), Rank(best, st)) && LexGe(Rank(r, st), Rank(last, st))
    ensures forall t <- init + [last] :: LexGe(Rank(r, st), Rank(t, st))
  {
    forall t <- init + [last] ensures LexGe(Rank(r, st), Rank(t, st)) {
      if t != last {
        LexGeTransitive(Rank(r, st), Rank(best, st), Rank(t, st));
      }
    }
  }

  /** The head of the rank decides first: a better head is never outranked. */
  lemma LexGeHead(x: seq<int>, y: seq<int>)
    requires |x| == |y| > 0 && LexGe(x, y)
    ensures x[0] >= y[0]
  {
  }

  /** If any tab of the list is active, the survivor is active. */
  lemma SurvivorIsActiveIfAnyIs(tabs: seq<Tab>, st: Stamps)
    requires |tabs| > 0
    ensures (exists t <- tabs :: t.active) ==> SelectBestTab(tabs, st).active
  {
    var r := SelectBestTab(tabs, st);
    if t :| t in tabs && t.active {
      LexGeHead(Rank(r, st), Rank(t, st));
    }
  }

  /** Among tabs with distinct ids, the survivor is the one tab no other tab ties or beats. */
  lemma SurvivorIsUniqueMaximum(tabs: seq<Tab>, st: Stamps, t: Tab)
    requires |tabs| > 0
    requires forall i, j :: 0 <= i < j < |tabs| ==> tabs[i].id != tabs[j].id
    requires t in tabs && LexGe(Rank(t, st), Rank(SelectBestTab(tabs, st), st))
    ensures t == SelectBestTab(tabs, st)
  {
    var r := SelectBestTab(tabs, st);
    LexGeAntisymmetric(Rank(t, st), Rank(r, st));
    assert Rank(t, st)[4] == Rank(r, st)[4];
  }

  /**
   * The survivor does not depend on the order the browser listed the tabs
   * in, as long as their ids are distinct.
   */
  lemma SurvivorIgnoresOrder(tabs1: seq<Tab>, tabs2: seq<Tab>, st: Stamps)
    requires |tabs1| > 0
    requires multiset(tabs1) == multiset(tabs2)
    requires forall i, j :: 0 <= i < j < |tabs1| ==> tabs1[i].id != tabs1[j].id
    requires forall i, j :: 0 <= i < j < |tabs2| ==> tabs2[i].id != tabs2[j].id
    ensures SelectBestTab(tabs1, st) == SelectBestTab(tabs2, st)
  {
    assert |tabs2| == |multiset(tabs2)| == |tabs1|;
    var r1, r2 := SelectBestTab(tabs1, st), SelectBestTab(tabs2, st);
    assert r1 in multiset(tabs2) && r2 in multiset(tabs1);
    SurvivorIsUniqueMaximum(tabs1, st, r2);
  }

  /**
   * Two tabs equal in activity, sound and pinning: the one completed LATER
   * survives, whichever comes first in the list.
   */
  lemma LaterCompletionSurvives(a: Tab, b: Tab, st: Stamps)
    requires a.active == b.active && a.audible == b.audible && a.pinned == b.pinned
    requires st.Of(a.id) > st.Of(b.id)
    ensures SelectBestTab([a, b], st) == a && SelectBestTab([b, a], st) == a
  {
    assert [a, b][..1] == [a];
    assert [b, a][..1] == [b];
  }

  // ---------------------------------------------------------------------------
  // The tabs to close

  /** `tabs.filter(t => t.id !== keepId)`: every listed tab except those sharing the survivor's id, in order. */
  function Others(tabs: seq<Tab>, keepId: int): (r: seq<Tab>)
    ensures forall t <- r :: t in tabs && t.id != keepId
    ensures forall t <- tabs :: t.id != keepId ==> t in r
    ensures |r| <= |tabs|
  {
    if tabs == [] then []
    else (if tabs[0].id != keepId then [tabs[0]] else []) + Others(tabs[1..], keepId)
  }

  /** The ids of a list of tabs, in order. */
  function Ids(tabs: seq<Tab>): (r: seq<int>)
    ensures |r| == |tabs| && forall i :: 0 <= i < |tabs| ==> r[i] == tabs[i].id
  {
    if tabs == [] then [] else [tabs[0].id] + Ids(tabs[1..])
  }
}
