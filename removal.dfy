/**
 * `remove_steps(a)`: every listed position of the step array is set to nil, one after
 * the other, and only then are the nils compacted away. Positions therefore refer to the
 * list as it was before the call, a negative position counts from the end of the array
 * as it is at that moment, and a position past the end grows the array with nils.
 */
module Removal {
  import opened Wrappers
  import opened Report

  /** The slot that `array[n] = nil` writes in an array of length `len`; None when Ruby
      raises IndexError (a negative position before the start). */
  function Slot(len: nat, n: int): (r: Option<nat>)
    ensures r.None? <==> n < -(len as int)
    ensures r.Some? && n < 0 ==> r.value < len
  {
    if n >= 0 then Some(n)
    else if n >= -(len as int) then Some((len as int + n) as nat)
    else None
  }

  /** `array[i] = nil`: a slot past the end first pads the array with nils. */
  function Clear(slots: seq<Option<Step>>, i: nat): (r: seq<Option<Step>>)
    ensures |r| == if i < |slots| then |slots| else i + 1
    ensures forall k :: 0 <= k < |r| ==> r[k] == if k == i || k >= |slots| then None else slots[k]
  {
    if i < |slots| then slots[i := None] else slots + seq(i + 1 - |slots|, _ => None)
  }

  /** `a.each {|n| @steps[n] = nil }`, in order; None at the first IndexError. */
  function ClearAll(slots: seq<Option<Step>>, a: seq<int>): Option<seq<Option<Step>>>
    decreases |a|
  {
    if a == [] then Some(slots)
    else
      match Slot(|slots|, a[0])
      case None => None
      case Some(i) => ClearAll(Clear(slots, i), a[1..])
  }

  /** `compact`: the non-nil elements, in order. */
  function Compact(slots: seq<Option<Step>>): (r: seq<Step>)
    ensures |r| <= |slots|
  {
    if slots == [] then []
    else
      var last := slots[|slots| - 1];
      Compact(slots[..|slots| - 1]) + (if last.Some? then [last.value] else [])
  }

  function Wrap(steps: seq<Step>): (r: seq<Option<Step>>)
    ensures |r| == |steps| && forall k :: 0 <= k < |r| ==> r[k] == Some(steps[k])
  {
    seq(|steps|, k requires 0 <= k < |steps| => Some(steps[k]))
  }

  /** The step list after `remove_steps(a)`; None when the call raises IndexError. */
  function RemoveSteps(steps: seq<Step>, a: seq<int>): Option<seq<Step>> {
    match ClearAll(Wrap(steps), a)
    case None => None
    case Some(t) => Some(Compact(t))
  }

  // ---------------------------------------------------------------------------
  // The reference description: which original positions are hit, and what survives.

  /** The array length and the set of slots cleared after the positions `a`, starting
      from an array of length `len`; None at an IndexError. */
  function Hits(len: nat, a: seq<int>): Option<(nat, set<nat>)>
    decreases |a|
  {
    if a == [] then Some((len, {}))
    else
      match Slot(len, a[0])
      case None => None
      case Some(i) =>
        match Hits(if i < len then len else i + 1, a[1..])
        case None => None
        case Some((l, h)) => Some((l, h + {i}))
  }

  /** The positions below `n` that are not in `h`, in increasing order. */
  function Kept(n: nat, h: set<nat>): (r: seq<nat>)
    ensures forall j :: 0 <= j < |r| ==> r[j] < n && r[j] !in h
    ensures forall j, k :: 0 <= j < k < |r| ==> r[j] < r[k]
    ensures forall i :: 0 <= i < n && i !in h ==> i in r
  {
    if n == 0 then []
    else Kept(n - 1, h) + (if n - 1 in h then [] else [n - 1])
  }

  /** The steps at the kept positions, in their original order. */
  function Survivors(steps: seq<Step>, h: set<nat>): (r: seq<Step>)
    ensures |r| == |Kept(|steps|, h)|
    ensures forall j :: 0 <= j < |r| ==> r[j] == steps[Kept(|steps|, h)[j]]
  {
    var kept := Kept(|steps|, h);
    seq(|kept|, j requires 0 <= j < |kept| => steps[kept[j]])
  }

  /** The cleared slots are exactly those `Hits` names: the array keeps its original
      elements elsewhere, and the growth past its end holds only nils. */
  lemma {:induction false} ClearAllHits(slots: seq<Option<Step>>, a: seq<int>)
    ensures ClearAll(slots, a).Some? <==> Hits(|slots|, a).Some?
    ensures ClearAll(slots, a).Some? ==>
              var t := ClearAll(slots, a).value;
              var (l, h) := Hits(|slots|, a).value;
              |t| == l >= |slots| &&
              forall k :: 0 <= k < |t| ==> t[k] == if k in h || k >= |slots| then None else slots[k]
    decreases |a|
  {
    if a != [] {
      match Slot(|slots|, a[0])
      case None =>
      case Some(i) =>
        var c := Clear(slots, i);
        ClearAllHits(c, a[1..]);
    }
  }

  /** Compacting a marked copy of the steps yields the survivors. */
  lemma {:induction false} CompactMarked(steps: seq<Step>, h: set<nat>, t: seq<Option<Step>>)
    requires |t| >= |steps|
    requires forall k :: 0 <= k < |t| ==> t[k] == if k in h || k >= |steps| then None else Some(steps[k])
    ensures Compact(t) == Survivors(steps, h)
    decreases |t|
  {
    if |t| > |steps| {
      var u := t[..|t| - 1];
      assert t[|t| - 1] == None;
      assert Compact(t) == Compact(u);
      CompactMarked(steps, h, u);
    } else if steps != [] {
      var n := |steps| - 1;
      var u := t[..n];
      var init := steps[..n];
      assert t[n] == if n in h then None else Some(steps[n]);
      assert Compact(t) == Compact(u) + (if n in h then [] else [steps[n]]);
      forall k | 0 <= k < |u|
        ensures u[k] == if k in h || k >= |init| then None else Some(init[k])
      {
      }
      CompactMarked(init, h, u);
      SurvivorsSnoc(steps, h);
    } else {
      assert t == [];
    }
  }

  /** The survivors of a list, one more step at its end. */
  lemma SurvivorsSnoc(steps: seq<Step>, h: set<nat>)
    requires steps != []
    ensures var n := |steps| - 1;
            Survivors(steps, h) == Survivors(steps[..n], h) + (if n in h then [] else [steps[n]])
  {
    var n := |steps| - 1;
    var s0 := Survivors(steps[..n], h);
    var s1 := Survivors(steps, h);
    assert Kept(|steps|, h) == Kept(n, h) + (if n in h then [] else [n]);
    assert |s1| == |s0| + (if n in h then 0 else 1);
    forall j | 0 <= j < |s0| ensures s1[j] == s0[j] {
    }
  }

  /** `remove_steps(a)` deletes exactly the original elements at the positions `a` hits,
      keeps the others in their original order and unchanged, and fails exactly when a
      position is an IndexError. */
  lemma RemoveStepsSurvivors(steps: seq<Step>, a: seq<int>)
    ensures RemoveSteps(steps, a).Some? <==> Hits(|steps|, a).Some?
    ensures RemoveSteps(steps, a).Some? ==> RemoveSteps(steps, a).value == Survivors(steps, Hits(|steps|, a).value.1)
  {
    ClearAllHits(Wrap(steps), a);
    if ClearAll(Wrap(steps), a).Some? {
      CompactMarked(steps, Hits(|steps|, a).value.1, ClearAll(Wrap(steps), a).value);
    }
  }

  /** The hit positions below `n`. */
  function HitsBelow(n: nat, h: set<nat>): (r: set<nat>)
    ensures forall i :: i in r <==> i < n && i in h
  {
    set i | 0 <= i < n && i in h
  }

  /** The result is shorter than the list by the number of distinct hit positions that
      were inside it. */
  lemma {:induction false} KeptCount(n: nat, h: set<nat>)
    ensures |Kept(n, h)| == n - |HitsBelow(n, h)|
  {
    if n > 0 {
      KeptCount(n - 1, h);
      KeptSnocLength(n, h);
      HitsBelowSnoc(n, h);
    } else {
      assert HitsBelow(0, h) == {};
    }
  }

  lemma KeptSnocLength(n: nat, h: set<nat>)
    requires n > 0
    ensures |Kept(n, h)| == |Kept(n - 1, h)| + (if n - 1 in h then 0 else 1)
  {
  }

  lemma HitsBelowSnoc(n: nat, h: set<nat>)
    requires n > 0
    ensures |HitsBelow(n, h)| == |HitsBelow(n - 1, h)| + (if n - 1 in h then 1 else 0)
  {
    assert n - 1 !in HitsBelow(n - 1, h);
    if n - 1 in h {
      assert HitsBelow(n, h) == HitsBelow(n - 1, h) + {n - 1};
    } else {
      assert HitsBelow(n, h) == HitsBelow(n - 1, h);
    }
  }

  /** Non-negative positions inside the list hit exactly themselves, so removing a set of
      distinct in-range positions removes that many steps. */
  lemma {:induction false} HitsInRange(len: nat, a: seq<int>)
    requires forall k :: 0 <= k < |a| ==> 0 <= a[k] < len
    ensures Hits(len, a).Some?
    ensures Hits(len, a).value.0 == len
    ensures forall i :: i in Hits(len, a).value.1 <==> i in a
    decreases |a|
  {
    if a != [] {
      HitsInRange(len, a[1..]);
      assert forall i :: i in a <==> i == a[0] || i in a[1..];
    }
  }
}
