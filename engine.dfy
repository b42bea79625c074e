/** The main loop of `init` in src/main.rs as an object: its locals become fields, the world is a
    5x5 array rewritten in place, and one call of Frame is one pass of the `loop`. */
module Engine {
  import opened GameOfLife
  import opened Board
  import opened MainLoop

  class Controller {
    /** `world`, rewritten cell by cell. */
    var world: array2<u8>
    /** `last_world`: only ever copied from `world` and compared with it as a whole, so it is
        held as a value. */
    var lastWorld: Grid
    var tickCount: int
    var sameBoardCount: int
    var aIgnore: bool
    var bIgnore: bool
    var bIgnoreCount: int
    var updateSerial: bool

    /** The world array has the board's shape. */
    ghost predicate Shaped()
      reads this
    {
      world.Length0 == Size && world.Length1 == Size
    }

    ghost predicate Valid()
      reads this, world
    {
      Shaped() && Inv(Model())
    }

    /** The fields read as a MainLoop.State. */
    ghost function Model(): State
      reads this, world
      requires Shaped()
    {
      State(Snapshot(world), lastWorld, tickCount, sameBoardCount, aIgnore, bIgnore, bIgnoreCount, updateSerial)
    }

    /** The locals as `init` sets them before the loop: an all-zero world and snapshot, all
        counters at 0, both latches clear, and a repaint pending. */
    constructor ()
      ensures Valid() && fresh(world) && Model() == Boot
    {
      world := new u8[Size, Size]((i, j) => 0);
      lastWorld := Empty;
      tickCount := 0;
      updateSerial := true;
      aIgnore := false;
      bIgnore := false;
      bIgnoreCount := 0;
      sameBoardCount := 0;
      new;
      GridsEqual(Snapshot(world), Empty);
    }

    /** One pass of the loop. `buttons` are the three readings the pass takes, `rand` the random
        bytes it may draw; `out` is every byte the pass writes to the serial port and `used` how
        many random bytes it drew. */
    method Frame(buttons: Buttons, rand: nat -> u8) returns (out: seq<u8>, used: nat)
      requires Valid()
      modifies this, world
      ensures Valid() && world == old(world)
      ensures Pass(Model(), out, used) == MainLoop.Frame(old(Model()), buttons, rand)
    {
      ghost var s0 := Model();
      out, used := AdvanceTick(rand);
      out, used := CheckA(buttons, rand, out, used);
      ReleaseA(buttons);
      out := CheckB(buttons, out);
      CountBCooldown();
      out := PaintSweep(out);
      FrameKeepsInv(s0, buttons, rand);
    }

    /** Tick advance and, every eleventh pass, the generation boundary. */
    method AdvanceTick(rand: nat -> u8) returns (out: seq<u8>, used: nat)
      requires Shaped()
      modifies this, world
      ensures Shaped() && world == old(world)
      ensures Pass(Model(), out, used) == Tick(old(Model()), rand)
    {
      tickCount := tickCount + 1;
      out, used := [], 0;
      if tickCount > TickLimit {
        Life(world);
        out := out + ClearTerminal;
        updateSerial := true;
        var current := Snapshot(world);
        if lastWorld == current {
          sameBoardCount := sameBoardCount + 1;
        } else {
          lastWorld := current;
        }
        if sameBoardCount > StagnationLimit {
          ReseedInPlace(world, rand, used);
          used := used + ReseedBytes;
        }
        tickCount := 0;
      }
    }

    /** The A press check. */
    method CheckA(buttons: Buttons, rand: nat -> u8, out0: seq<u8>, used0: nat) returns (out: seq<u8>, used: nat)
      requires Shaped()
      modifies this, world
      ensures Shaped() && world == old(world)
      ensures Pass(Model(), out, used) == PressA(Pass(old(Model()), out0, used0), buttons, rand)
    {
      out, used := out0, used0;
      if buttons.aLowAtPress {
        ReseedInPlace(world, rand, used);
        used := used + ReseedBytes;
        aIgnore := true;
        updateSerial := true;
        out := out + ClearTerminal;
      }
    }

    /** The A release check. */
    method ReleaseA(buttons: Buttons)
      requires Shaped()
      modifies this
      ensures Shaped() && world == old(world)
      ensures forall o, u :: Pass(Model(), o, u) == MainLoop.ReleaseA(Pass(old(Model()), o, u), buttons)
    {
      if aIgnore && !buttons.aLowAtRelease {
        aIgnore := false;
      }
    }

    /** The B press check. */
    method CheckB(buttons: Buttons, out0: seq<u8>) returns (out: seq<u8>)
      requires Shaped()
      modifies this, world
      ensures Shaped() && world == old(world)
      ensures forall u :: Pass(Model(), out, u) == PressB(Pass(old(Model()), out0, u), buttons)
    {
      out := out0;
      if !aIgnore && !bIgnore && buttons.bLow {
        ComplementInPlace(world);
        bIgnore := true;
        updateSerial := true;
        out := out + ClearTerminal;
      }
    }

    /** The B cooldown count. */
    method CountBCooldown()
      requires Shaped()
      modifies this
      ensures Shaped() && world == old(world)
      ensures forall o, u :: Pass(Model(), o, u) == Cooldown(Pass(old(Model()), o, u))
    {
      if bIgnore && bIgnoreCount < BIgnoreFrames {
        bIgnoreCount := bIgnoreCount + 1;
      } else {
        bIgnoreCount := 0;
        bIgnore := false;
      }
    }

    /** The paint sweep's serial output, and the repaint request cleared. */
    method PaintSweep(out0: seq<u8>) returns (out: seq<u8>)
      requires Shaped()
      modifies this
      ensures Shaped() && world == old(world)
      ensures forall u :: Pass(Model(), out, u) == PaintSerial(Pass(old(Model()), out0, u))
    {
      var serial := Paint(world, updateSerial);
      out := out0 + serial;
      updateSerial := false;
    }
  }
}
