/** The round-robin scheduler: its two kinds of step on a value, and the class whose methods
  update the slot table in place. */
module Scheduler {
  import opened Bits

  const MAX_TASKS: uint32 := 32
  const NO_TASK: uint32 := 0xFFFF_FFFF

  /** 32-bit words of memory, by byte address */
  type Memory = map<uint32, uint32>

  /** The slot table (one saved stack pointer per slot) and the memory holding the stacks */
  datatype Table = Table(sp: seq<uint32>, current: uint32, total: uint32, memory: Memory) {
    predicate Valid() {
      && |sp| == MAX_TASKS && total <= MAX_TASKS
      && (current < total || (current == 0 && total == 0))
    }
  }

  datatype Step =
    | Create(f: uint32, arg: uint32, stack: uint32, size: uint32)
    | Schedule(frame: uint32)

  /** Rounding an address down to a multiple of 16, as the mask ~15 does */
  function AlignDown(address: uint32): (a: uint32)
    ensures a % 16 == 0 && a <= address < a + 16
  {
    AlignIsMask(address);
    And(address, 0xFFFF_FFF0)
  }

  lemma AlignIsMask(address: uint32)
    ensures And(address, 0xFFFF_FFF0) == address / 16 * 16
  {
    var high := address / 16;
    MaskShape();
    AndShifted(address, 0xFFF_FFFF, 4);
    ShiftByFour(address);
    AllOnes(high);
    ShiftByFour(high);
  }

  lemma MaskShape()
    ensures Shl(0xFFF_FFFF, 4) == 0xFFFF_FFF0
  {
    ShiftByFour(0xFFF_FFFF);
  }

  lemma ShiftByFour(x: nat)
    ensures Shl(x, 4) == 16 * x && Shr(x, 4) == x / 16
  {
    assert Pow2(4) == 16;
    ShlIsProduct(x, 4);
    ShrIsQuotient(x, 4);
  }

  lemma AllOnes(x: nat)
    requires x < 0x1000_0000
    ensures And(x, 0xFFF_FFFF) == x
  {
    Pow2Values();
    AndAllOnes(x, 28);
  }

  /** The aligned top of a task's stack; the frame built there is three words long */
  function Top(stack: uint32, size: uint32): uint32 {
    AlignDown(U32(stack + size))
  }

  function InitialSp(stack: uint32, size: uint32): uint32 {
    U32(Top(stack, size) - 12)
  }

  function BuildFrame(m: Memory, f: uint32, arg: uint32, top: uint32): Memory {
    m[U32(top - 4) := arg][U32(top - 8) := 0][U32(top - 12) := f]
  }

  /** With no task there is nothing to switch to: the source divides by `total` */
  predicate Enabled(s: Table, step: Step) {
    step.Schedule? ==> s.total > 0
  }

  function Next(s: Table, step: Step): (s': Table)
    requires s.Valid() && Enabled(s, step)
    ensures s'.Valid() && s.total <= s'.total
  {
    match step
    case Create(f, arg, stack, size) =>
      if s.total >= MAX_TASKS then s
      else s.(sp := s.sp[s.total := InitialSp(stack, size)], total := s.total + 1,
              memory := BuildFrame(s.memory, f, arg, Top(stack, size)))
    case Schedule(frame) =>
      s.(sp := s.sp[s.current := frame], current := Successor(s))
  }

  /** The slot after the current one, cyclically */
  function Successor(s: Table): (n: uint32)
    requires s.total > 0 && s.current < s.total <= MAX_TASKS
    ensures n < s.total
  {
    if s.current + 1 == s.total then 0 else s.current + 1
  }

  lemma RemainderIsSuccessor(current: uint32, total: uint32)
    requires current < total <= MAX_TASKS
    ensures U32(current + 1) % total == if current + 1 == total then 0 else current + 1
  {
    if current + 1 == total {
      DivModUnique(current + 1, total, 1, 0);
    } else {
      DivModUnique(current + 1, total, 0, current + 1);
    }
  }

  class Kernel {
    var tasks: array<uint32>
    var current: uint32
    var total: uint32
    var memory: Memory

    ghost predicate Valid()
      reads this
    {
      && tasks.Length == MAX_TASKS && total <= MAX_TASKS
      && (current < total || (current == 0 && total == 0))
    }

    ghost function View(): (s: Table)
      requires Valid()
      reads this, tasks
      ensures s.Valid()
    {
      Table(tasks[..], current, total, memory)
    }

    constructor (memory: Memory)
      ensures Valid() && fresh(tasks)
      ensures View() == Boot(memory)
    {
      tasks := new uint32[MAX_TASKS](_ => 0);
      current, total := 0, 0;
      this.memory := memory;
      new;
      assert tasks[..] == seq(MAX_TASKS, _ => 0);
    }

    /** Save the running context, advance, and return the stack pointer that is loaded */
    method Schedule(frame: uint32) returns (loaded: uint32)
      requires Valid() && total > 0
      modifies this`current, tasks
      ensures Valid() && View() == Next(old(View()), Step.Schedule(frame))
      ensures tasks[..] == old(tasks[..])[old(current) := frame]
      ensures current == if old(current) + 1 == total then 0 else old(current) + 1
      ensures loaded == tasks[current]
    {
      RemainderIsSuccessor(current, total);
      tasks[current] := frame;
      current := U32(current + 1) % total;
      loaded := tasks[current];
    }

    method CreateTask(f: uint32, arg: uint32, st: uint32, sz: uint32) returns (id: uint32)
      requires Valid()
      modifies this`total, this`memory, tasks
      ensures Valid() && View() == Next(old(View()), Create(f, arg, st, sz))
      ensures old(total) == 32 ==> id == 0xFFFF_FFFF && total == 32
      ensures old(total) == 32 ==> tasks[..] == old(tasks[..]) && memory == old(memory)
      ensures old(total) < 32 ==>
                var top := (st + sz) % 0x1_0000_0000 / 16 * 16;
                var (w1, w2, w3) := ((top - 4) % 0x1_0000_0000, (top - 8) % 0x1_0000_0000, (top - 12) % 0x1_0000_0000);
                && id == old(total) && total == old(total) + 1 && tasks[..] == old(tasks[..])[old(total) := w3]
                && {w1, w2, w3} <= memory.Keys && memory[w1] == arg && memory[w2] == 0 && memory[w3] == f
                && (forall a: uint32 | a !in {w1, w2, w3} ::
                      (a in memory <==> a in old(memory)) && (a in memory ==> memory[a] == old(memory)[a]))
    {
      if total >= MAX_TASKS {
        return NO_TASK;
      }
      var s: int := AlignDown(U32(st + sz));
      ghost var top := s;
      s := U32(s - 4);
      memory := memory[s := arg];
      s := U32(s - 4);
      memory := memory[s := 0];
      s := U32(s - 4);
      memory := memory[s := f];
      StepsDown(top);
      InNumbers(st + sz, top);
      tasks[total] := s;
      total := total + 1;
      return U32(total - 1);
    }
  }

  /** The table as it is at load time */
  function Boot(memory: Memory): (s: Table)
    ensures s.Valid()
  {
    Table(seq(MAX_TASKS, _ => 0), 0, 0, memory)
  }

  /** The aligned top and the three addresses below it, as remainders */
  lemma InNumbers(end: nat, top: uint32)
    requires top == AlignDown(U32(end))
    ensures top == end % 0x1_0000_0000 / 16 * 16
    ensures U32(top - 4) == (top - 4) % 0x1_0000_0000
    ensures U32(top - 8) == (top - 8) % 0x1_0000_0000
    ensures U32(top - 12) == (top - 12) % 0x1_0000_0000
  {
    U32IsRemainder(end);
    AlignIsMask(U32(end));
    U32IsRemainder(top - 4);
    U32IsRemainder(top - 8);
    U32IsRemainder(top - 12);
  }

  lemma StepsDown(top: uint32)
    ensures U32(U32(top - 4) - 4) == U32(top - 8)
    ensures U32(U32(U32(top - 4) - 4) - 4) == U32(top - 12)
  {
    WrapInside(-4, top - 4);
    WrapInside(-4, top - 8);
  }
}
