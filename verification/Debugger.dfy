/** `McuDebug`: breakpoints, and running the machine until one of them. */
module Debugger {
  import opened Words
  import opened Machines
  import opened Precise
  import opened Mcus

  // ----- breakpoints -----

  datatype Edit = Add(address: u32) | Remove(address: u32)

  function Added(breakpoints: seq<u32>, address: u32): seq<u32> {
    if address in breakpoints then breakpoints else breakpoints + [address]
  }

  /** Without the first occurrence. */
  function Removed(breakpoints: seq<u32>, address: u32): seq<u32> {
    if breakpoints == [] then []
    else if breakpoints[0] == address then breakpoints[1..]
    else [breakpoints[0]] + Removed(breakpoints[1..], address)
  }

  predicate Distinct(breakpoints: seq<u32>) {
    forall j, k | 0 <= j < k < |breakpoints| :: breakpoints[j] != breakpoints[k]
  }

  function Edited(edits: seq<Edit>): seq<u32> {
    if edits == [] then []
    else
      var before := Edited(edits[..|edits| - 1]);
      match edits[|edits| - 1]
      case Add(address) => Added(before, address)
      case Remove(address) => Removed(before, address)
  }

  /** The last edit that mentions the address added it. */
  predicate LastAdded(edits: seq<Edit>, address: u32) {
    edits != [] &&
    var last := edits[|edits| - 1];
    if last.address == address then last.Add? else LastAdded(edits[..|edits| - 1], address)
  }

  lemma {:induction false} RemovedMembers(breakpoints: seq<u32>, address: u32)
    requires Distinct(breakpoints)
    ensures Distinct(Removed(breakpoints, address))
    ensures forall a :: a in Removed(breakpoints, address) <==> a in breakpoints && a != address
  {
    if breakpoints != [] {
      var rest := breakpoints[1..];
      assert breakpoints == [breakpoints[0]] + rest;
      assert Distinct(rest) && breakpoints[0] !in rest;
      RemovedMembers(rest, address);
    }
  }

  lemma {:induction false} RemovedAt(breakpoints: seq<u32>, address: u32, i: nat)
    requires i <= |breakpoints| && address !in breakpoints[..i]
    requires i < |breakpoints| ==> breakpoints[i] == address
    ensures Removed(breakpoints, address)
      == if i < |breakpoints| then breakpoints[..i] + breakpoints[i + 1..] else breakpoints
  {
    if i > 0 {
      var rest := breakpoints[1..];
      assert breakpoints[..i] == [breakpoints[0]] + rest[..i - 1];
      RemovedAt(rest, address, i - 1);
      if i < |breakpoints| {
        assert breakpoints[i + 1..] == rest[i..];
      }
    }
  }

  /**
   After any history of edits the list has no duplicates, and it holds exactly the addresses
   whose last edit added them; so one removal is enough.
   */
  lemma {:induction false} EditsExact(edits: seq<Edit>, address: u32)
    ensures Distinct(Edited(edits))
    ensures address in Edited(edits) <==> LastAdded(edits, address)
    decreases |edits|
  {
    if edits != [] {
      var earlier := edits[..|edits| - 1];
      EditsExact(earlier, address);
      RemovedMembers(Edited(earlier), edits[|edits| - 1].address);
    }
  }

  // ----- running -----

  /** `executeInstructions`; `None` when a step is undefined. */
  function Drive(m: Machine, breakpoints: seq<u32>, cycles: nat): (r: Option<Machine>)
    requires Valid(m)
    ensures r.Some? ==> Valid(r.value)
    decreases cycles
  {
    hide Step, Valid;
    if cycles == 0 || m.pc in breakpoints then Some(m)
    else match Step(m)
      case None => None
      case Some(next) => Drive(next, breakpoints, cycles - 1)
  }

  /** Running a cycles and then b more is running a + b. */
  lemma {:induction false} DriveComposes(m: Machine, breakpoints: seq<u32>, a: nat, b: nat)
    requires Valid(m)
    ensures Drive(m, breakpoints, a + b)
      == match Drive(m, breakpoints, a)
         case None => None
         case Some(between) => Drive(between, breakpoints, b)
    decreases a
  {
    hide Step, Valid;
    if a > 0 && m.pc !in breakpoints && Step(m).Some? {
      DriveComposes(Step(m).value, breakpoints, a - 1, b);
    } else if m.pc in breakpoints {
      assert Drive(m, breakpoints, b) == Some(m);
    }
  }

  /** The number of steps that were executed. */
  function Executed(m: Machine, breakpoints: seq<u32>, cycles: nat): (k: nat)
    requires Valid(m)
    ensures k <= cycles
    decreases cycles
  {
    hide Step, Valid;
    if cycles == 0 || m.pc in breakpoints then 0
    else match Step(m)
      case None => 0
      case Some(next) => 1 + Executed(next, breakpoints, cycles - 1)
  }

  /**
   On return the machine is the one that so many steps reach; they are all that were asked for,
   unless the pc is at a breakpoint; and no earlier state was at one.
   */
  lemma {:induction false} DriveStops(m: Machine, breakpoints: seq<u32>, cycles: nat)
    requires Valid(m) && Drive(m, breakpoints, cycles).Some?
    ensures var k, r := Executed(m, breakpoints, cycles), Drive(m, breakpoints, cycles).value;
      && Run(m, k) == Some(r)
      && (k == cycles || r.pc in breakpoints)
      && forall j | 0 <= j < k :: Run(m, j).Some? && Run(m, j).value.pc !in breakpoints
    decreases cycles
  {
    hide Step, Valid;
    if cycles > 0 && m.pc !in breakpoints {
      var next := Step(m).value;
      DriveStops(next, breakpoints, cycles - 1);
      var k := Executed(m, breakpoints, cycles);
      RunFirst(m, k - 1);
      forall j | 0 <= j < k ensures Run(m, j).Some? && Run(m, j).value.pc !in breakpoints {
        if j == 0 {
          assert Run(m, 0) == Some(m);
        } else {
          RunFirst(m, j - 1);
        }
      }
    } else {
      assert Run(m, 0) == Some(m);
    }
  }

  class McuDebug {
    const mcu: Mcu
    var breakpoints: seq<u32>

    ghost predicate Valid()
      reads this, mcu.Repr()
    {
      mcu.Valid() && this !in mcu.Repr() && Distinct(breakpoints)
    }

    constructor (mcu: Mcu)
      requires mcu.Valid()
      ensures this.mcu == mcu && Valid() && breakpoints == []
    {
      this.mcu := mcu;
      breakpoints := [];
    }

    predicate IsBreakpoint(address: u32)
      reads this
    {
      address in breakpoints
    }

    method AddBreakpoint(address: u32)
      requires Valid()
      modifies this
      ensures Valid() && breakpoints == Added(old(breakpoints), address) && IsBreakpoint(address)
    {
      if address !in breakpoints {
        breakpoints := breakpoints + [address];
      }
    }

    method RemoveBreakpoint(address: u32)
      requires Valid()
      modifies this
      ensures Valid() && breakpoints == Removed(old(breakpoints), address) && !IsBreakpoint(address)
    {
      RemovedMembers(breakpoints, address);
      hide Removed;
      var i := 0;
      while i < |breakpoints|
        invariant i <= |breakpoints| && breakpoints == old(breakpoints) && address !in breakpoints[..i]
      {
        if address == breakpoints[i] {
          RemovedAt(breakpoints, address, i);
          breakpoints := breakpoints[..i] + breakpoints[i + 1..];
          return;
        }
        i := i + 1;
      }
      RemovedAt(breakpoints, address, i);
    }

    /** `ok` is false when the behaviour is undefined. */
    method ExecuteInstructions(cycles: u32) returns (ok: bool)
      requires Valid()
      modifies mcu.Repr()
      ensures Valid() && breakpoints == old(breakpoints)
      ensures match Drive(old(mcu.State()), breakpoints, cycles)
        case Some(m) => ok && mcu.State() == m
        case None => !ok
    {
      hide Step, Machines.Valid, Mcu.State, Mcu.Valid;
      var remaining: nat := cycles;
      mcu.StateParts();
      while remaining > 0 && !IsBreakpoint(mcu.pc.pc)
        invariant Valid() && breakpoints == old(breakpoints) && mcu.State().pc == mcu.pc.pc
        invariant Drive(old(mcu.State()), breakpoints, cycles) == Drive(mcu.State(), breakpoints, remaining)
      {
        ok := mcu.NextInstruction();
        if !ok {
          return;
        }
        mcu.StateParts();
        remaining := remaining - 1;
      }
      return true;
    }
  }
}
