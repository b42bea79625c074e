/** Consecutive passes of the main loop in src/main.rs: the generation period, the B ignore
    window, and the stagnation count that never comes back down. */
module Runs {
  import opened GameOfLife
  import opened Board
  import opened MainLoop

  /** What one pass reads from outside: the buttons, and the random source it draws from. */
  datatype Input = Input(buttons: Buttons, rand: nat -> u8)

  /** Pass k of the run reads `ins[k]` and takes the loop from `trace[k]` to `trace[k + 1]`. */
  ghost predicate Passes(trace: seq<State>, ins: seq<Input>, k: int)
    requires |trace| == |ins| + 1 && 0 <= k < |ins|
  {
    trace[k + 1] == Frame(trace[k], ins[k].buttons, ins[k].rand).state
  }

  /** `trace` is the sequence of states the loop goes through when its passes read `ins`:
      `trace[0]` before the first pass, and `trace[k + 1]` after pass k. */
  ghost predicate IsRun(trace: seq<State>, ins: seq<Input>) {
    && |trace| == |ins| + 1
    && forall k :: 0 <= k < |ins| ==> Passes(trace, ins, k)
  }

  /** A run over all inputs but the last, extended by the last pass, is a run. */
  lemma RunExtends(trace: seq<State>, ins: seq<Input>, after: State)
    requires ins != [] && IsRun(trace, ins[..|ins| - 1])
    requires after == Frame(trace[|ins| - 1], ins[|ins| - 1].buttons, ins[|ins| - 1].rand).state
    ensures IsRun(trace + [after], ins)
  {
    var t := trace + [after];
    forall k | 0 <= k < |ins|
      ensures Passes(t, ins, k)
    {
      if k < |ins| - 1 {
        assert Passes(trace, ins[..|ins| - 1], k);
      }
    }
  }

  /** From any state, any inputs give a run ... */
  ghost function Trace(s: State, ins: seq<Input>): (trace: seq<State>)
    ensures IsRun(trace, ins) && trace[0] == s
  {
    if ins == [] then [s]
    else
      var init, last := Trace(s, ins[..|ins| - 1]), ins[|ins| - 1];
      var after := Frame(init[|ins| - 1], last.buttons, last.rand).state;
      RunExtends(init, ins, after);
      init + [after]
  }

  /** ... and only one: two runs from the same state over the same inputs agree everywhere. */
  lemma {:induction false} RunUnique(t1: seq<State>, t2: seq<State>, ins: seq<Input>, n: nat)
    requires IsRun(t1, ins) && IsRun(t2, ins) && t1[0] == t2[0] && n <= |ins|
    ensures t1[n] == t2[n]
  {
    if n > 0 {
      RunUnique(t1, t2, ins, n - 1);
      assert Passes(t1, ins, n - 1) && Passes(t2, ins, n - 1);
    }
  }

  /** Every state of a run that starts in a state satisfying the invariant satisfies it too. */
  lemma {:induction false} RunKeepsInv(trace: seq<State>, ins: seq<Input>, n: nat)
    requires IsRun(trace, ins) && Inv(trace[0]) && n <= |ins|
    ensures Inv(trace[n])
  {
    if n > 0 {
      RunKeepsInv(trace, ins, n - 1);
      assert Passes(trace, ins, n - 1);
      FrameKeepsInv(trace[n - 1], ins[n - 1].buttons, ins[n - 1].rand);
    }
  }

  /** The tick count after n passes from t, one wrap-around step at a time. */
  function TickAfter(t: int, n: nat): (r: int)
    requires 0 <= t <= TickLimit
    ensures 0 <= r <= TickLimit
  {
    if n == 0 then t
    else
      var u := TickAfter(t, n - 1);
      if u == TickLimit then 0 else u + 1
  }

  /** Adding one modulo 11 wraps from 10 to 0. */
  lemma ModStep(x: int)
    ensures (x + 1) % 11 == if x % 11 == TickLimit then 0 else x % 11 + 1
  {
    var q, r := x / 11, x % 11;
    assert x == 11 * q + r && 0 <= r < 11;
    if r == 10 {
      assert x + 1 == 11 * (q + 1);
    } else {
      assert x + 1 == 11 * q + (r + 1);
    }
  }

  /** Counting one wrap-around step at a time is counting modulo 11. */
  lemma {:induction false} TickAfterMod(t: int, n: nat)
    requires 0 <= t <= TickLimit
    ensures TickAfter(t, n) == (t + n) % 11
  {
    if n > 0 {
      TickAfterMod(t, n - 1);
      ModStep(t + n - 1);
    }
  }

  lemma {:induction false} RunTickSteps(trace: seq<State>, ins: seq<Input>, n: nat)
    requires IsRun(trace, ins) && 0 <= trace[0].tickCount <= TickLimit && n <= |ins|
    ensures trace[n].tickCount == TickAfter(trace[0].tickCount, n)
  {
    if n > 0 {
      RunTickSteps(trace, ins, n - 1);
      assert Passes(trace, ins, n - 1);
      TickSchedule(trace[n - 1], ins[n - 1].buttons, ins[n - 1].rand);
    }
  }

  /** After n passes the tick count has advanced by n modulo 11. */
  lemma RunTicks(trace: seq<State>, ins: seq<Input>, n: nat)
    requires IsRun(trace, ins) && 0 <= trace[0].tickCount <= TickLimit && n <= |ins|
    ensures trace[n].tickCount == (trace[0].tickCount + n) % 11
  {
    RunTickSteps(trace, ins, n);
    TickAfterMod(trace[0].tickCount, n);
  }

  /** Pass n runs a generation exactly when it brings the tick count round to a multiple of 11. */
  lemma GenerationPeriod(trace: seq<State>, ins: seq<Input>, n: nat)
    requires IsRun(trace, ins) && 0 <= trace[0].tickCount <= TickLimit && n <= |ins|
    ensures IsGeneration(trace[n]) <==> (trace[0].tickCount + n + 1) % 11 == 0
  {
    RunTicks(trace, ins, n);
    ModStep(trace[0].tickCount + n);
  }

  /** From boot, generations run on passes 10, 21, 32, ... (counting from 0): one pass in 11. */
  lemma BootGenerations(trace: seq<State>, ins: seq<Input>, n: nat)
    requires IsRun(trace, ins) && trace[0] == Boot && n <= |ins|
    ensures IsGeneration(trace[n]) <==> n % 11 == TickLimit
  {
    RunTicks(trace, ins, n);
  }

  /** The stagnation count never decreases over a run. */
  lemma {:induction false} SameBoardNeverDecreases(trace: seq<State>, ins: seq<Input>, m: nat, n: nat)
    requires IsRun(trace, ins) && m <= n <= |ins|
    ensures trace[n].sameBoardCount >= trace[m].sameBoardCount
  {
    if m < n {
      SameBoardNeverDecreases(trace, ins, m, n - 1);
      assert Passes(trace, ins, n - 1);
      StagnationCheck(trace[n - 1], ins[n - 1].buttons, ins[n - 1].rand);
    }
  }

  /** Once the count has passed 50, every later generation boundary re-randomises the board,
      whatever the boards that follow look like. */
  lemma StagnationIsPermanent(trace: seq<State>, ins: seq<Input>, m: nat, n: nat)
    requires IsRun(trace, ins) && m <= n < |ins|
    requires trace[m].sameBoardCount > StagnationLimit && IsGeneration(trace[n])
    ensures Tick(trace[n], ins[n].rand).state.world == Reseed(ins[n].rand, 0)
    ensures Binary(Tick(trace[n], ins[n].rand).state.world)
  {
    SameBoardNeverDecreases(trace, ins, m, n);
    StagnationCheck(trace[n], ins[n].buttons, ins[n].rand);
    ReseedBinary(ins[n].rand, 0);
  }

  /** After a complement in pass m, pass m + k (1 <= k <= 100) starts with B ignored and the
      count at k. */
  lemma {:induction false} CooldownCount(trace: seq<State>, ins: seq<Input>, m: nat, k: nat)
    requires IsRun(trace, ins) && Inv(trace[0])
    requires m < |ins| && Complements(trace[m], ins[m].buttons, ins[m].rand)
    requires 1 <= k <= BIgnoreFrames && m + k <= |ins|
    ensures trace[m + k].bIgnore && trace[m + k].bIgnoreCount == k
  {
    var j := m + k - 1;
    RunKeepsInv(trace, ins, j);
    assert Passes(trace, ins, j);
    if k > 1 {
      CooldownCount(trace, ins, m, k - 1);
    }
    BCooldown(trace[j], ins[j].buttons, ins[j].rand);
  }

  /** The B ignore window: after a complement in pass m, none of passes m + 1 .. m + 100 can
      complement, whatever the buttons do; pass m + 101 starts with B accepted again. */
  lemma CooldownWindow(trace: seq<State>, ins: seq<Input>, m: nat)
    requires IsRun(trace, ins) && Inv(trace[0])
    requires m < |ins| && Complements(trace[m], ins[m].buttons, ins[m].rand)
    ensures forall j :: m < j <= m + BIgnoreFrames && j < |ins| ==>
      !Complements(trace[j], ins[j].buttons, ins[j].rand)
    ensures m + BIgnoreFrames < |ins| ==> !trace[m + BIgnoreFrames + 1].bIgnore
  {
    forall j | m < j <= m + BIgnoreFrames && j < |ins|
      ensures !Complements(trace[j], ins[j].buttons, ins[j].rand)
    {
      CooldownCount(trace, ins, m, j - m);
      BGuard(trace[j], ins[j].buttons, ins[j].rand);
    }
    if m + BIgnoreFrames < |ins| {
      var j := m + BIgnoreFrames;
      CooldownCount(trace, ins, m, BIgnoreFrames);
      RunKeepsInv(trace, ins, j);
      assert Passes(trace, ins, j);
      BCooldown(trace[j], ins[j].buttons, ins[j].rand);
    }
  }
}
