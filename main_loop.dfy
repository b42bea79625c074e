/** One pass of the `loop` in `init` (src/main.rs), stated as functions on the loop's state:
    the tick and generation boundary with its stagnation check, the A press and release, the
    B press and its cooldown, and the paint sweep's serial output. */
module MainLoop {
  import opened GameOfLife
  import opened Board

  /** A generation runs once `tick_count` passes this value. */
  const TickLimit := 10
  /** The board is re-randomised once `same_board_count` passes this value. */
  const StagnationLimit := 50
  /** `b_ignore_count` counts up to this value while B is ignored. */
  const BIgnoreFrames := 100
  /** Random bytes one re-randomisation draws. */
  const ReseedBytes := 25

  /** `ESC c`, the terminal reset written before each new board. */
  const ClearTerminal: seq<u8> := [0x1B, 0x63]

  /** The three button readings of one pass: A at the press check, A again at the release check
      (a separate read), and B. Each is true when the line reads low, i.e. the button is down. */
  datatype Buttons = Buttons(aLowAtPress: bool, aLowAtRelease: bool, bLow: bool)

  /** The loop's mutable locals. */
  datatype State = State(
    world: Grid,
    lastWorld: Grid,
    tickCount: int,
    sameBoardCount: int,
    aIgnore: bool,
    bIgnore: bool,
    bIgnoreCount: int,
    updateSerial: bool)

  /** A pass in progress: the state so far, the bytes written to the serial port so far and the
      number of random bytes drawn so far. */
  datatype Pass = Pass(state: State, out: seq<u8>, used: nat)

  /** The state on entry to the loop. The boot loop that looks like it randomises the world only
      rebinds its loop variable, so the world is still all zeros. */
  const Boot: State := State(Empty, Empty, 0, 0, false, false, 0, true)

  /** What holds between the B check and the B cooldown, where B may have just latched with
      its count still at 0. */
  predicate InvBeforeCooldown(s: State) {
    && Binary(s.world)
    && Binary(s.lastWorld)
    && 0 <= s.tickCount <= TickLimit
    && s.sameBoardCount >= 0
    && 0 <= s.bIgnoreCount <= BIgnoreFrames
    && (!s.bIgnore ==> s.bIgnoreCount == 0)
  }

  /** What every pass keeps true at its end (and the boot state satisfies): the latch, once the
      cooldown has run, always has a count of at least 1. */
  predicate Inv(s: State) {
    InvBeforeCooldown(s) && (s.bIgnore ==> 1 <= s.bIgnoreCount)
  }

  /** The pass starting in `s` runs a generation. */
  predicate IsGeneration(s: State) {
    s.tickCount + 1 > TickLimit
  }

  // ----- the stages of one pass, in program order -----

  /** Tick advance and, when the count passes the limit, the generation boundary: a `life` step,
      a terminal clear, the stagnation comparison (which never resets the count), the stagnation
      re-randomisation and the tick reset. */
  function Tick(s: State, rand: nat -> u8): Pass {
    var t := s.tickCount + 1;
    if t > TickLimit then
      var w := Successor(s.world);
      var same := if s.lastWorld == w then s.sameBoardCount + 1 else s.sameBoardCount;
      var reseed := same > StagnationLimit;
      Pass(
        s.(world := if reseed then Reseed(rand, 0) else w,
           lastWorld := w,
           sameBoardCount := same,
           updateSerial := true,
           tickCount := 0),
        ClearTerminal,
        if reseed then ReseedBytes else 0)
    else
      Pass(s.(tickCount := t), [], 0)
  }

  /** While A reads low: re-randomise from the next unused random bytes, latch `a_ignore`,
      request a serial repaint, clear the terminal. */
  function PressA(p: Pass, b: Buttons, rand: nat -> u8): Pass {
    if b.aLowAtPress then
      Pass(
        p.state.(world := Reseed(rand, p.used), aIgnore := true, updateSerial := true),
        p.out + ClearTerminal,
        p.used + ReseedBytes)
    else
      p
  }

  /** `a_ignore` is released when the second A read finds the button up. */
  function ReleaseA(p: Pass, b: Buttons): Pass {
    if p.state.aIgnore && !b.aLowAtRelease then p.(state := p.state.(aIgnore := false)) else p
  }

  /** The guard of the B branch. */
  predicate BFires(p: Pass, b: Buttons) {
    !p.state.aIgnore && !p.state.bIgnore && b.bLow
  }

  /** The B branch: complement, latch `b_ignore`, request a repaint, clear the terminal. */
  function PressB(p: Pass, b: Buttons): Pass {
    if BFires(p, b) then
      Pass(
        p.state.(world := Complement(p.state.world), bIgnore := true, updateSerial := true),
        p.out + ClearTerminal,
        p.used)
    else
      p
  }

  /** The B cooldown: count up while ignoring, otherwise reset both the count and the latch. */
  function Cooldown(p: Pass): Pass {
    var s := p.state;
    if s.bIgnore && s.bIgnoreCount < BIgnoreFrames then
      p.(state := s.(bIgnoreCount := s.bIgnoreCount + 1))
    else
      p.(state := s.(bIgnoreCount := 0, bIgnore := false))
  }

  /** The paint sweep: the rendering when a repaint was requested, then the request is cleared. */
  function PaintSerial(p: Pass): Pass {
    Pass(
      p.state.(updateSerial := false),
      p.out + (if p.state.updateSerial then Render(p.state.world) else []),
      p.used)
  }

  /** The button stages after the tick: A press, A release, B press, B cooldown, paint. */
  function Inputs(p: Pass, b: Buttons, rand: nat -> u8): Pass {
    PaintSerial(Cooldown(PressB(ReleaseA(PressA(p, b, rand), b), b)))
  }

  /** One whole pass of the loop. */
  function Frame(s: State, b: Buttons, rand: nat -> u8): Pass {
    Inputs(Tick(s, rand), b, rand)
  }

  /** The pass up to and including the A release check: what the B check sees. */
  function BeforeB(s: State, b: Buttons, rand: nat -> u8): Pass {
    ReleaseA(PressA(Tick(s, rand), b, rand), b)
  }

  /** The pass starting in `s` complements the board. */
  predicate Complements(s: State, b: Buttons, rand: nat -> u8) {
    BFires(BeforeB(s, b, rand), b)
  }

  // ----- properties of one pass -----

  lemma BootInv()
    ensures Inv(Boot) && Done(Boot.world) && Boot.updateSerial
  {
  }

  lemma TickKeepsInv(s: State, rand: nat -> u8)
    requires Inv(s)
    ensures Inv(Tick(s, rand).state) && Tick(s, rand).used <= ReseedBytes
  {
    SuccessorBinary(s.world);
    ReseedBinary(rand, 0);
  }

  lemma ButtonsKeepInv(p: Pass, b: Buttons, rand: nat -> u8)
    requires Inv(p.state)
    ensures Inv(Inputs(p, b, rand).state) && Inputs(p, b, rand).used <= p.used + ReseedBytes
    ensures !Inputs(p, b, rand).state.updateSerial
  {
    var a := PressA(p, b, rand);
    ReseedBinary(rand, p.used);
    assert Inv(a.state);
    var r := ReleaseA(a, b);
    var c := PressB(r, b);
    ComplementFlips(r.state.world);
    assert InvBeforeCooldown(c.state);
    var d := Cooldown(c);
    assert Inv(d.state);
  }

  /** Every pass keeps the invariant, ends with `update_serial` clear and draws at most two
      boards' worth of random bytes. */
  lemma FrameKeepsInv(s: State, b: Buttons, rand: nat -> u8)
    requires Inv(s)
    ensures var p := Frame(s, b, rand);
      Inv(p.state) && !p.state.updateSerial && p.used <= 2 * ReseedBytes
  {
    TickKeepsInv(s, rand);
    ButtonsKeepInv(Tick(s, rand), b, rand);
  }

  /** `tick_count` counts 0 .. 10 and wraps: the generation runs exactly on the pass that takes it
      from 10 to 11, which then resets it to 0. */
  lemma TickSchedule(s: State, b: Buttons, rand: nat -> u8)
    requires 0 <= s.tickCount <= TickLimit
    ensures IsGeneration(s) <==> s.tickCount == TickLimit
    ensures Frame(s, b, rand).state.tickCount == if s.tickCount == TickLimit then 0 else s.tickCount + 1
  {
    ButtonsKeepStagnation(Tick(s, rand), b, rand);
  }

  /** At a generation boundary the snapshot ends up equal to the stepped world; the count rises
      by one exactly when the step changed nothing against the snapshot, and otherwise stays; the
      board is re-randomised exactly when the new count exceeds 50. Between boundaries neither
      the snapshot nor the count changes. */
  lemma StagnationCheck(s: State, b: Buttons, rand: nat -> u8)
    ensures var p := Frame(s, b, rand);
      && p.state.sameBoardCount >= s.sameBoardCount
      && (IsGeneration(s) ==>
            && p.state.lastWorld == Successor(s.world)
            && p.state.sameBoardCount == s.sameBoardCount + (if s.lastWorld == Successor(s.world) then 1 else 0)
            && (p.state.sameBoardCount > StagnationLimit ==> Tick(s, rand).state.world == Reseed(rand, 0))
            && (p.state.sameBoardCount <= StagnationLimit ==> Tick(s, rand).state.world == Successor(s.world)))
      && (!IsGeneration(s) ==>
            p.state.lastWorld == s.lastWorld && p.state.sameBoardCount == s.sameBoardCount)
  {
    ButtonsKeepStagnation(Tick(s, rand), b, rand);
  }

  /** The button stages leave the snapshot, the stagnation count and the tick count alone. */
  lemma ButtonsKeepStagnation(p: Pass, b: Buttons, rand: nat -> u8)
    ensures var q := Inputs(p, b, rand).state;
      q.lastWorld == p.state.lastWorld && q.sameBoardCount == p.state.sameBoardCount
      && q.tickCount == p.state.tickCount
  {
    var a := PressA(p, b, rand);
    var r := ReleaseA(a, b);
    var c := PressB(r, b);
    var d := Cooldown(c);
    assert d.state.lastWorld == p.state.lastWorld;
  }

  /** When the pass B fires in: the A latch is clear at the B check, which happens exactly when
      A was not seen down at the release check or was never latched, B is not being ignored, and
      B reads low. In particular A held down through both reads blocks the complement. */
  lemma BGuard(s: State, b: Buttons, rand: nat -> u8)
    ensures Complements(s, b, rand) <==>
      !((s.aIgnore || b.aLowAtPress) && b.aLowAtRelease) && !s.bIgnore && b.bLow
    ensures b.aLowAtPress && b.aLowAtRelease ==>
      !Complements(s, b, rand) && Frame(s, b, rand).state.aIgnore
      && Frame(s, b, rand).state.world == Reseed(rand, Tick(s, rand).used)
  {
  }

  /** The B state machine. A complement starts the cooldown at 1; while the count is below 100
      it rises by one per pass and B is ignored; the pass that finds it at 100 resets it and the
      latch; with no latch and no complement it stays reset. */
  lemma BCooldown(s: State, b: Buttons, rand: nat -> u8)
    requires Inv(s)
    ensures var n := Frame(s, b, rand).state;
      && (Complements(s, b, rand) ==> !s.bIgnore && n.bIgnore && n.bIgnoreCount == 1)
      && (s.bIgnore && s.bIgnoreCount < BIgnoreFrames ==>
            !Complements(s, b, rand) && n.bIgnore && n.bIgnoreCount == s.bIgnoreCount + 1)
      && (s.bIgnore && s.bIgnoreCount == BIgnoreFrames ==> !n.bIgnore && n.bIgnoreCount == 0)
      && (!s.bIgnore && !Complements(s, b, rand) ==> !n.bIgnore && n.bIgnoreCount == 0)
  {
  }

  /** The world at the end of a pass: the board after the tick stage and the A press, complemented
      when B fired. */
  lemma FrameWorld(s: State, b: Buttons, rand: nat -> u8)
    ensures Frame(s, b, rand).state.world ==
      if Complements(s, b, rand) then Complement(BeforeB(s, b, rand).state.world)
      else BeforeB(s, b, rand).state.world
  {
  }

  /** n terminal clears in a row. */
  function Clears(n: nat): (out: seq<u8>)
    ensures |out| == 2 * n
    ensures forall k :: 0 <= k < n ==> out[2 * k..2 * k + 2] == ClearTerminal
  {
    if n == 0 then []
    else
      var init := Clears(n - 1);
      var out := init + ClearTerminal;
      assert forall k :: 0 <= k < n - 1 ==> out[2 * k..2 * k + 2] == init[2 * k..2 * k + 2];
      out
  }

  /** Before the paint sweep a pass has written one clear per replacement of the board, and a
      repaint is pending exactly when one was left over or the board was replaced. */
  lemma ClearsBeforePaint(s: State, b: Buttons, rand: nat -> u8)
    ensures var c := Cooldown(PressB(BeforeB(s, b, rand), b));
      var clears := (if IsGeneration(s) then 1 else 0) + (if b.aLowAtPress then 1 else 0)
        + (if Complements(s, b, rand) then 1 else 0);
      && c.out == Clears(clears)
      && (c.state.updateSerial <==> s.updateSerial || clears > 0)
  {
    var t := Tick(s, rand);
    var a := PressA(t, b, rand);
    var n0 := if IsGeneration(s) then 1 else 0;
    var n1 := n0 + (if b.aLowAtPress then 1 else 0);
    assert t.out == Clears(n0);
    assert a.out == Clears(n1);
  }

  /** A pass paints exactly when the previous pass left a repaint pending or the board was
      replaced in this pass (generation, A press or complement). Its serial output is one
      `ESC c` per replacement followed, when it paints, by the 35-byte rendering of the final
      board. */
  lemma SerialOutput(s: State, b: Buttons, rand: nat -> u8)
    ensures var p := Frame(s, b, rand);
      var clears := (if IsGeneration(s) then 1 else 0) + (if b.aLowAtPress then 1 else 0)
        + (if Complements(s, b, rand) then 1 else 0);
      var paints := s.updateSerial || clears > 0;
      && |p.out| == 2 * clears + (if paints then 35 else 0)
      && (forall k :: 0 <= k < clears ==> p.out[2 * k..2 * k + 2] == ClearTerminal)
      && (paints ==> p.out[2 * clears..] == Render(p.state.world))
  {
    var p := Frame(s, b, rand);
    var c := Cooldown(PressB(BeforeB(s, b, rand), b));
    var tail := if c.state.updateSerial then Render(p.state.world) else [];
    ClearsBeforePaint(s, b, rand);
    RenderLayout(p.state.world);
    assert p.out == c.out + tail;
    ClearsThenTail(|c.out| / 2, tail);
  }

  lemma ClearsThenTail(n: nat, tail: seq<u8>)
    ensures var out := Clears(n) + tail;
      && |out| == 2 * n + |tail|
      && (forall k :: 0 <= k < n ==> out[2 * k..2 * k + 2] == ClearTerminal)
      && out[2 * n..] == tail
  {
    var out := Clears(n) + tail;
    assert forall k :: 0 <= k < n ==> out[2 * k..2 * k + 2] == Clears(n)[2 * k..2 * k + 2];
  }
}
