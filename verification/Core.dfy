/**
 The processor state (registers.c, arm_core.c): sixteen registers, CPSR and SPSR in one array
 of 18 cells, the mode, the memory and the cycle counter.

 State is the value of all of it at one moment. Every method of ArmCore is specified by what it
 does to that value.
 */
module Core {
  import opened Bits
  import opened MemoryArea

  const USR: Byte := 0x10
  const PC: nat := 15
  const CPSR: nat := 16

  // Bits of CPSR.
  const N: nat := 31
  const Z: nat := 30
  const C: nat := 29
  const V: nat := 28
  const T: nat := 5

  datatype Machine = Machine(cells: seq<Word>, mode: Byte, mem: seq<Byte>, bigEndian: bool, cycles: Word)

  ghost predicate WellFormed(m: Machine) {
    |m.cells| == 18 && |m.mem| % 4 == 0
  }

  type State = m: Machine | WellFormed(m) ghost witness Machine(seq(18, _ => 0), USR, [], false, 0)

  /** A processor as it is created on a memory: the reset CPSR, every other register 0. */
  function Created(mem: seq<Byte>, bigEndian: bool): State
    requires |mem| % 4 == 0
  {
    Machine(seq(18, _ => 0)[CPSR := 0x1D3], USR, mem, bigEndian, 0)
  }

  // ----- Registers -----

  function Cpsr(s: State): Word {
    s.cells[CPSR]
  }

  /** The value an instruction reads: its own address + 8 for the program counter, with bit 1 cleared. */
  function Reg(s: State, r: nat): Word {
    if r == 15 then ClrBit(Add(s.cells[15], 4), 1)
    else if r < 16 then s.cells[r]
    else 0
  }

  function WithReg(s: State, r: nat, v: Word): State {
    if r < 16 then s.(cells := s.cells[r := v]) else s
  }

  /** Writes of a user-bank register take effect in user mode only. */
  function WithUsr(s: State, r: nat, v: Word): State {
    if s.mode == USR then WithReg(s, r, v) else s
  }

  function WithCpsr(s: State, v: Word): State {
    s.(cells := s.cells[CPSR := v])
  }

  // ----- Memory -----

  function MemWord(s: State, a: Word, former: Word): Word {
    LoadWord(s.mem, s.bigEndian, a, former)
  }

  function MemHalf(s: State, a: Word, former: Half): Half {
    LoadHalf(s.mem, s.bigEndian, a, former)
  }

  function MemByte(s: State, a: Word, former: Byte): Byte {
    LoadByte(s.mem, a, former)
  }

  function PutWord(s: State, a: Word, v: Word): State {
    s.(mem := StoreWord(s.mem, s.bigEndian, a, v))
  }

  function PutHalf(s: State, a: Word, v: Half): State {
    s.(mem := StoreHalf(s.mem, s.bigEndian, a, v))
  }

  function PutByte(s: State, a: Word, v: Byte): State {
    s.(mem := StoreByte(s.mem, a, v))
  }

  /** arm_fetch: the word at the program counter, which moves on to the next instruction. */
  function FetchAddress(s: State): Word {
    Sub(Reg(s, PC), 4)
  }

  function AfterFetch(s: State): State {
    WithReg(s.(cycles := Add(s.cycles, 1)), PC, Add(FetchAddress(s), 4))
  }

  // ----- ConditionPassed (util.c) -----

  predicate Flag(cpsr: Word, i: nat) {
    GetBit(cpsr, i) == 1
  }

  predicate ConditionPassed(cpsr: Word, ins: Word) {
    var cond := GetBits(ins, 31, 28);
    var n, z, c, v := Flag(cpsr, N), Flag(cpsr, Z), Flag(cpsr, C), Flag(cpsr, V);
    match cond
    case 0 => z
    case 1 => !z
    case 2 => c
    case 3 => !c
    case 4 => n
    case 5 => !n
    case 6 => v
    case 7 => !v
    case 8 => c && !z
    case 9 => !c || z
    case 10 => n == v
    case 11 => n != v
    case 12 => !z && n == v
    case 13 => z || n != v
    case 14 => true
    case _ => false
  }

  // ----- The register file -----

  class Registers {
    const data: array<Word>
    var mode: Byte

    ghost predicate Valid() {
      data.Length == 18
    }

    constructor ()
      ensures Valid() && fresh(data) && mode == USR
      ensures data[..] == seq(18, _ => 0)
    {
      data := new Word[18](_ => 0);
      mode := USR;
    }

    method Read(reg: Byte) returns (value: Word)
      requires Valid()
      ensures value == if reg < 16 then data[reg] else 0
    {
      value := 0;
      if reg < 16 {
        value := data[reg];
      }
    }

    method Write(reg: Byte, value: Word)
      requires Valid()
      modifies data
      ensures data[..] == if reg < 16 then old(data[..])[reg := value] else old(data[..])
    {
      if reg < 16 {
        data[reg] := value;
      }
    }

    method WriteUsr(reg: Byte, value: Word)
      requires Valid()
      modifies data
      ensures data[..] == if reg < 16 && mode == USR then old(data[..])[reg := value] else old(data[..])
    {
      if reg < 16 && mode == USR {
        data[reg] := value;
      }
    }
  }

  // ----- The core -----

  class ArmCore {
    const host: Host
    const reg: Registers
    const mem: Memory
    var cycleCount: Word

    ghost predicate Valid() {
      reg.Valid() && mem.Valid() && reg.data as object != mem.data as object
    }

    ghost function Now(): State
      requires Valid()
      reads this, reg, reg.data, mem.data
    {
      Machine(reg.data[..], reg.mode, mem.data[..], mem.isBigEndian, cycleCount)
    }

    /** arm_create: reset with CPSR = 0x1D3 and the program counter at 0. */
    constructor (host: Host, mem: Memory)
      requires mem.Valid()
      ensures Valid() && this.mem == mem && this.host == host && fresh(reg) && fresh(reg.data)
      ensures Now() == Created(mem.data[..], mem.isBigEndian)
    {
      this.host := host;
      this.mem := mem;
      reg := new Registers();
      cycleCount := 0;
      new;
      WriteCpsr(0x1D3);
      WriteUsrRegister(15, 0);
      cycleCount := 0;
    }

    method ReadRegister(r: Byte) returns (value: Word)
      requires Valid()
      ensures value == Reg(Now(), r)
    {
      value := reg.Read(r);
      if r == 15 {
        value := Add(value, 4);
        value := ClrBit(value, 1);
      }
    }

    method ReadCpsr() returns (value: Word)
      requires Valid()
      ensures value == Cpsr(Now())
    {
      value := reg.data[16];
    }

    method WriteRegister(r: Byte, value: Word)
      requires Valid()
      modifies reg.data
      ensures Now() == WithReg(old(Now()), r, value)
    {
      reg.Write(r, value);
    }

    method WriteUsrRegister(r: Byte, value: Word)
      requires Valid()
      modifies reg.data
      ensures Now() == WithUsr(old(Now()), r, value)
    {
      reg.WriteUsr(r, value);
    }

    method WriteCpsr(value: Word)
      requires Valid()
      modifies reg.data
      ensures Now() == WithCpsr(old(Now()), value)
    {
      reg.data[16] := value;
    }

    method Fetch(former: Word) returns (status: int, value: Word)
      requires Valid()
      modifies this, reg.data
      ensures Now() == AfterFetch(old(Now()))
      ensures status == if WordOk(old(Now()).mem, FetchAddress(old(Now()))) then 0 else -1
      ensures value == MemWord(old(Now()), FetchAddress(old(Now())), former)
    {
      cycleCount := Add(cycleCount, 1);
      var pc := ReadRegister(15);
      var address := Sub(pc, 4);
      status, value := mem.ReadWord(host.bigEndian, address, former);
      WriteRegister(15, Add(address, 4));
    }

    method ReadByte(address: Word, former: Byte) returns (status: int, value: Byte)
      requires Valid()
      ensures value == MemByte(Now(), address, former)
      ensures status == if ByteOk(Now().mem, address) then 0 else -1
    {
      status, value := mem.ReadByte(address, former);
    }

    method ReadHalf(address: Word, former: Half) returns (status: int, value: Half)
      requires Valid()
      ensures value == MemHalf(Now(), address, former)
      ensures status == if HalfOk(Now().mem, address) then 0 else -1
    {
      status, value := mem.ReadHalf(host.bigEndian, address, former);
    }

    method ReadWord(address: Word, former: Word) returns (status: int, value: Word)
      requires Valid()
      ensures value == MemWord(Now(), address, former)
      ensures status == if WordOk(Now().mem, address) then 0 else -1
    {
      status, value := mem.ReadWord(host.bigEndian, address, former);
    }

    method WriteByte(address: Word, value: Byte) returns (status: int)
      requires Valid()
      modifies mem.data
      ensures Now() == PutByte(old(Now()), address, value)
      ensures status == if ByteOk(old(Now()).mem, address) then 0 else -1
    {
      status := mem.WriteByte(address, value);
    }

    method WriteHalf(address: Word, value: Half) returns (status: int)
      requires Valid()
      modifies mem.data
      ensures Now() == PutHalf(old(Now()), address, value)
      ensures status == if HalfOk(old(Now()).mem, address) then 0 else -1
    {
      status := mem.WriteHalf(host.bigEndian, address, value);
    }

    method WriteWord(address: Word, value: Word) returns (status: int)
      requires Valid()
      modifies mem.data
      ensures Now() == PutWord(old(Now()), address, value)
      ensures status == if WordOk(old(Now()).mem, address) then 0 else -1
    {
      status := mem.WriteWord(host.bigEndian, address, value);
    }
  }
}
