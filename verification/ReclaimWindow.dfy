/**
 The memory-reclaim sampler of ConfigureMemoryReduction: a ring buffer of CPU
 times decides whether the machine is idle, and a flag decides whether to act.
 */
module ReclaimWindow {
  import opened Common

  datatype Mode = DropCache | Gradual

  const LLONG_MIN: int := -0x8000_0000_0000_0000
  const WINDOW_SLOTS := 20
  const MEMORY_LOW: real := 1073741824.0
  const MEMORY_HIGH: real := 1181116006.4
  const TARGET_SHARE: real := 0.97

  function WindowLength(mode: Mode): (n: nat)
    ensures 2 <= n <= WINDOW_SLOTS
  {
    if mode == Gradual then 6 else WINDOW_SLOTS
  }

  // ----- what counts as idle, without the ring buffer -----

  /** The CPU time read in iteration `n`, counted from 1; before the first, the initial zero. */
  function Sample(cpu: seq<int>, n: nat): int
    requires n <= |cpu|
  {
    if n == 0 then 0 else cpu[n - 1]
  }

  /** Little CPU time since the last sample and since the one a whole window ago. */
  predicate Idle(cpu: seq<int>, n: nat, window: nat, threshold: int)
    requires 1 <= n <= |cpu| && 1 <= window
  {
    && n >= window
    && Sample(cpu, n - window) > Sample(cpu, n) - threshold * (window + 1)
    && Sample(cpu, n - 1) > Sample(cpu, n) - threshold
  }

  /** Iteration `j` neither ends the idle stretch nor finds memory above the high mark. */
  ghost predicate Quiet(cpu: seq<int>, memory: seq<real>, j: nat, window: nat, threshold: int)
    requires 1 <= j <= |cpu| && j <= |memory| && 1 <= window
  {
    Idle(cpu, j, window, threshold) && memory[j - 1] <= MEMORY_HIGH
  }

  /** Iteration `k` took memory below the low mark, and all was quiet from then up to iteration `n`. */
  ghost predicate RestsSince(cpu: seq<int>, memory: seq<real>, acted: seq<bool>, n: nat, window: nat, threshold: int,
                             k: nat)
    requires n <= |cpu| && n <= |memory| && n <= |acted| && 1 <= window
  {
    && 1 <= k <= n && acted[k - 1] && memory[k - 1] * TARGET_SHARE < MEMORY_LOW
    && forall j :: k < j <= n ==> Quiet(cpu, memory, j, window, threshold)
  }

  ghost predicate Resting(cpu: seq<int>, memory: seq<real>, acted: seq<bool>, n: nat, window: nat, threshold: int)
    requires n <= |cpu| && n <= |memory| && n <= |acted| && 1 <= window
  {
    exists k :: RestsSince(cpu, memory, acted, n, window, threshold, k)
  }

  /** Whether iteration `n` acts. In drop-cache mode: at the first iteration of every idle stretch. In
      gradual mode: while idle and above the low mark, unless at rest and not above the high mark. */
  ghost predicate Acts(mode: Mode, cpu: seq<int>, memory: seq<real>, acted: seq<bool>, n: nat, threshold: int)
    requires 1 <= n <= |cpu| && n <= |memory| && n - 1 <= |acted|
  {
    var w := WindowLength(mode);
    && Idle(cpu, n, w, threshold)
    && match mode
       case DropCache => n == 1 || !Idle(cpu, n - 1, w, threshold)
       case Gradual =>
         && memory[n - 1] > MEMORY_LOW
         && (memory[n - 1] > MEMORY_HIGH || !Resting(cpu, memory, acted, n - 1, w, threshold))
  }

  // ----- the ring buffer -----

  /** The slot of sample `n`: its number modulo the length of the window. */
  ghost function Slot(n: nat, length: nat): (i: nat)
    requires 1 <= length
    ensures i < length
  {
    if n < length then n else Slot(n - length, length)
  }

  lemma {:induction false} SlotNext(n: nat, length: nat)
    requires 1 <= length
    ensures Slot(n + 1, length) == (Slot(n, length) + 1) % length
  {
    if n >= length {
      SlotNext(n - length, length);
    }
  }

  lemma {:induction false} SlotsApart(k: nat, n: nat, length: nat)
    requires 1 <= length && k < n < k + length
    ensures Slot(k, length) != Slot(n, length)
  {
    if k >= length {
      SlotsApart(k - length, n - length, length);
    }
  }

  /** After `n` iterations the window holds the last samples, each in its slot, and the slots not yet
      reached hold the marker. */
  ghost predicate Holds(window: seq<int>, cpu: seq<int>, n: nat, length: nat)
    requires n <= |cpu| && 2 <= length <= |window|
  {
    && (forall k :: 0 <= k <= n && n < k + length ==> window[Slot(k, length)] == Sample(cpu, k))
    && (forall i :: n < i < length ==> window[i] == LLONG_MIN)
  }

  /** The slot about to be overwritten holds the sample of a whole window ago, or the marker. */
  lemma OldestSlot(window: seq<int>, cpu: seq<int>, n: nat, length: nat)
    requires n < |cpu| && 2 <= length <= |window| && Holds(window, cpu, n, length)
    ensures window[Slot(n + 1, length)] ==
              if n + 1 >= length then Sample(cpu, n + 1 - length) else LLONG_MIN
    ensures window[Slot(n, length)] == Sample(cpu, n)
  {
  }

  lemma WindowAdvances(window: seq<int>, cpu: seq<int>, n: nat, length: nat)
    requires n < |cpu| && 2 <= length <= |window| && Holds(window, cpu, n, length)
    ensures Holds(window[Slot(n + 1, length) := Sample(cpu, n + 1)], cpu, n + 1, length)
  {
    var w := window[Slot(n + 1, length) := Sample(cpu, n + 1)];
    forall k | 0 <= k <= n + 1 && n + 1 < k + length
      ensures w[Slot(k, length)] == Sample(cpu, k)
    {
      if k <= n {
        SlotsApart(k, n + 1, length);
      }
    }
  }

  // ----- the loop -----

  /** How the flag relates to the run so far; None is a flag that has not been written. */
  ghost predicate FlagFits(flag: Option<bool>, mode: Mode, cpu: seq<int>, memory: seq<real>, acted: seq<bool>,
                           n: nat, threshold: int)
    requires n <= |cpu| && n <= |memory| && n == |acted|
  {
    var w := WindowLength(mode);
    if n == 0 then flag == None
    else
      && flag.Some?
      && match mode
         case DropCache => flag.value == Idle(cpu, n, w, threshold)
         case Gradual => flag.value == Resting(cpu, memory, acted, n, w, threshold)
  }

  lemma RestingStep(cpu: seq<int>, memory: seq<real>, acted: seq<bool>, n: nat, window: nat, threshold: int, act: bool)
    requires n < |cpu| && n < |memory| && n == |acted| && 1 <= window
    ensures Resting(cpu, memory, acted + [act], n + 1, window, threshold) <==>
              || (act && memory[n] * TARGET_SHARE < MEMORY_LOW)
              || (Resting(cpu, memory, acted, n, window, threshold) && Quiet(cpu, memory, n + 1, window, threshold))
  {
    var acted' := acted + [act];
    if act && memory[n] * TARGET_SHARE < MEMORY_LOW {
      assert RestsSince(cpu, memory, acted', n + 1, window, threshold, n + 1);
    }
    if Resting(cpu, memory, acted', n + 1, window, threshold) {
      var k: nat :| RestsSince(cpu, memory, acted', n + 1, window, threshold, k);
      if k <= n {
        assert RestsSince(cpu, memory, acted, n, window, threshold, k);
        assert Quiet(cpu, memory, n + 1, window, threshold);
      }
    }
    if Resting(cpu, memory, acted, n, window, threshold) && Quiet(cpu, memory, n + 1, window, threshold) {
      var k: nat :| RestsSince(cpu, memory, acted, n, window, threshold, k);
      assert RestsSince(cpu, memory, acted', n + 1, window, threshold, k);
    }
  }

  /** The decision of one iteration (lines 384-416), given whether the window says idle. */
  method Decide(mode: Mode, idle: bool, memory: real, flag: Option<bool>) returns (act: bool, flag': Option<bool>)
    requires idle ==> flag.Some?
    ensures flag'.Some?
    ensures !idle ==> !act && flag' == Some(false)
    ensures idle && mode == DropCache ==> act == !flag.value && flag' == Some(true)
    ensures idle && mode == Gradual ==>
              && act == (memory > 1073741824.0 && (memory > 1181116006.4 || !flag.value))
              && flag'.value ==
                   ((act && memory * 0.97 < 1073741824.0) || (flag.value && memory <= 1181116006.4))
  {
    act, flag' := false, flag;
    if idle {
      if mode == Gradual {
        if memory > MEMORY_HIGH {
          flag' := Some(false);
        }
        if !flag'.value && memory > MEMORY_LOW {
          var target := memory * TARGET_SHARE;
          act := true;
          if target < MEMORY_LOW {
            flag' := Some(true);
          }
        }
      } else if !flag'.value {
        flag' := Some(true);
        act := true;
      }
    } else {
      flag' := Some(false);
    }
  }

  /** What Decide does is what Acts asks for, and keeps the flag in step. */
  lemma DecisionFits(mode: Mode, cpu: seq<int>, memory: seq<real>, acted: seq<bool>, n: nat, threshold: int,
                     flag: Option<bool>, act: bool, flag': Option<bool>)
    requires n < |cpu| && n < |memory| && n == |acted|
    requires FlagFits(flag, mode, cpu, memory, acted, n, threshold) && flag'.Some?
    requires !Idle(cpu, n + 1, WindowLength(mode), threshold) ==> !act && flag' == Some(false)
    requires Idle(cpu, n + 1, WindowLength(mode), threshold) ==>
               && flag.Some?
               && (mode == DropCache ==> act == !flag.value && flag' == Some(true))
               && (mode == Gradual ==>
                     && act == (memory[n] > MEMORY_LOW && (memory[n] > MEMORY_HIGH || !flag.value))
                     && flag'.value == ((act && memory[n] * TARGET_SHARE < MEMORY_LOW)
                                        || (flag.value && memory[n] <= MEMORY_HIGH)))
    ensures act <==> Acts(mode, cpu, memory, acted, n + 1, threshold)
    ensures FlagFits(flag', mode, cpu, memory, acted + [act], n + 1, threshold)
  {
    if mode == Gradual {
      RestingStep(cpu, memory, acted, n, WindowLength(mode), threshold, act);
    }
  }

  /** The comparison of the two slots is the question whether the last samples are idle. */
  lemma WindowTellsIdle(window: seq<int>, cpu: seq<int>, n: nat, length: nat, threshold: int)
    requires n < |cpu| && 2 <= length <= |window| && Holds(window, cpu, n, length)
    requires cpu[n] - threshold * (length + 1) >= LLONG_MIN
    ensures Idle(cpu, n + 1, length, threshold) <==>
              && window[Slot(n + 1, length)] > cpu[n] - threshold * (length + 1)
              && window[Slot(n, length)] > cpu[n] - threshold
  {
    OldestSlot(window, cpu, n, length);
  }

  ghost predicate ActedAsAsked(mode: Mode, cpu: seq<int>, memory: seq<real>, acted: seq<bool>, threshold: int)
    requires |acted| <= |cpu| && |acted| <= |memory|
  {
    forall k :: 0 <= k < |acted| ==> (acted[k] <==> Acts(mode, cpu, memory, acted[..k], k + 1, threshold))
  }

  lemma ActedNext(mode: Mode, cpu: seq<int>, memory: seq<real>, acted: seq<bool>, threshold: int, act: bool)
    requires |acted| < |cpu| && |acted| < |memory| && ActedAsAsked(mode, cpu, memory, acted, threshold)
    requires act <==> Acts(mode, cpu, memory, acted, |acted| + 1, threshold)
    ensures ActedAsAsked(mode, cpu, memory, acted + [act], threshold)
  {
    var acted' := acted + [act];
    assert acted'[..|acted|] == acted;
    forall k | 0 <= k < |acted|
      ensures acted'[k] <==> Acts(mode, cpu, memory, acted'[..k], k + 1, threshold)
    {
      assert acted'[..k] == acted[..k];
    }
  }

  lemma NothingInFirstWindow(mode: Mode, cpu: seq<int>, memory: seq<real>, acted: seq<bool>, threshold: int)
    requires |acted| <= |cpu| && |acted| <= |memory| && ActedAsAsked(mode, cpu, memory, acted, threshold)
    ensures forall n :: 0 <= n < WindowLength(mode) - 1 && n < |acted| ==> !acted[n]
  {
  }

  /** On a machine that uses no CPU time at all: caches are dropped once, in iteration 20; memory is reclaimed
      first in iteration 6, if more than a gigabyte is in use then. */
  lemma FirstActs(cpu: seq<int>, memory: seq<real>, acted: seq<bool>, n: nat, threshold: int)
    requires 1 <= n <= |cpu| && n <= |memory| && |acted| == n - 1 && threshold > 0
    requires forall k :: 0 <= k < |cpu| ==> cpu[k] == 0
    requires forall k :: 0 <= k < |acted| ==> !acted[k]
    ensures Acts(DropCache, cpu, memory, acted, n, threshold) <==> n == 20
    ensures Acts(Gradual, cpu, memory, acted, n, threshold) <==> n >= 6 && memory[n - 1] > 1073741824.0
  {
    assert forall k :: 0 <= k <= n ==> Sample(cpu, k) == 0;
    assert threshold * (WindowLength(DropCache) + 1) > 0 && threshold * (WindowLength(Gradual) + 1) > 0;
    assert !Resting(cpu, memory, acted, n - 1, WindowLength(Gradual), threshold);
  }

  /** How little CPU time counts as idle: less than the threshold since the last sample, and less than one
      threshold more than the window has samples over the window. */
  lemma ActsOnlyIfIdle(mode: Mode, cpu: seq<int>, memory: seq<real>, acted: seq<bool>, n: nat, threshold: int)
    requires 1 <= n <= |cpu| && n <= |memory| && n - 1 <= |acted|
    requires Acts(mode, cpu, memory, acted, n, threshold)
    ensures var w := if mode == Gradual then 6 else 20;
            && n >= w && cpu[n - 1] - (if n == w then 0 else cpu[n - 1 - w]) < threshold * (w + 1)
            && cpu[n - 1] - cpu[n - 2] < threshold
  {
  }

  /** Every run of the sampler: iteration by iteration it acts exactly as Acts says, the slot it reads
      is the sample of a whole window ago, and the flag is never read before it is written. */
  method Run(mode: Mode, cpu: seq<int>, memory: seq<real>, threshold: int) returns (acted: seq<bool>)
    requires |memory| == |cpu|
    requires forall k :: 0 <= k < |cpu| ==> cpu[k] - threshold * (WindowLength(mode) + 1) >= LLONG_MIN
    ensures |acted| == |cpu|
    ensures forall n :: 0 <= n < |cpu| ==>
              (acted[n] <==> Acts(mode, cpu, memory, acted[..n], n + 1, threshold))
    ensures forall n :: 0 <= n < (if mode == Gradual then 5 else 19) && n < |cpu| ==> !acted[n]
  {
    var length := WindowLength(mode);
    var window := new int[WINDOW_SLOTS](i => if 1 <= i < WindowLength(mode) then LLONG_MIN else 0);
    var index, flag := 0, None;
    acted := [];
    var n := 0;
    while n < |cpu|
      invariant n <= |cpu| && |acted| == n && index == Slot(n, length)
      invariant Holds(window[..], cpu, n, length)
      invariant FlagFits(flag, mode, cpu, memory, acted, n, threshold)
      invariant ActedAsAsked(mode, cpu, memory, acted, threshold)
    {
      var start := cpu[n];
      var lastIndex := (index + 1) % length;
      SlotNext(n, length);
      WindowTellsIdle(window[..], cpu, n, length, threshold);
      var idle := window[lastIndex] > start - threshold * (length + 1) && window[index] > start - threshold;
      var act, flag' := Decide(mode, idle, memory[n], flag);
      DecisionFits(mode, cpu, memory, acted, n, threshold, flag, act, flag');
      WindowAdvances(window[..], cpu, n, length);
      flag := flag';
      index := lastIndex;
      window[index] := start;
      ActedNext(mode, cpu, memory, acted, threshold, act);
      acted := acted + [act];
      n := n + 1;
    }
    NothingInFirstWindow(mode, cpu, memory, acted, threshold);
  }
}
