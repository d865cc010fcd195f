/** Classic BPF as seccomp runs it: the 8-byte encoding of an instruction, and a machine
    with one accumulator whose branches only ever go forward. */
module CbpfMachine {
  import opened Bytes
  import opened Wrappers

  type U32 = w: int | 0 <= w < 0x1_0000_0000
  type U64 = w: int | 0 <= w < 0x1_0000_0000_0000_0000

  datatype Instr = Instr(code: nat, k: nat, jt: nat, jf: nat)

  // ---------- encoding ----------

  function PackInstruction(code: nat, k: nat, jt: nat, jf: nat): (bytes: seq<Byte>)
    ensures |bytes| == 8
  {
    LittleEndian(code % 0x1_0000, 2) + [jt % 0x100, jf % 0x100] + LittleEndian(k % 0x1_0000_0000, 4)
  }

  function UnpackInstruction(bytes: seq<Byte>): Instr
    requires |bytes| == 8
  {
    Instr(FromLittleEndian(bytes[0..2]), FromLittleEndian(bytes[4..8]), bytes[2], bytes[3])
  }

  /** What an instruction keeps of each field once it is packed. */
  function Masked(i: Instr): Instr {
    Instr(i.code % 0x1_0000, i.k % 0x1_0000_0000, i.jt % 0x100, i.jf % 0x100)
  }

  function Pack(i: Instr): (bytes: seq<Byte>)
    ensures |bytes| == 8
  {
    PackInstruction(i.code, i.k, i.jt, i.jf)
  }

  /** Unpacking returns every field, truncated to its width in the encoding. */
  lemma UnpackPack(i: Instr)
    ensures UnpackInstruction(Pack(i)) == Masked(i)
  {
    var bytes := Pack(i);
    assert Pow256(2) == 0x1_0000 && Pow256(4) == 0x1_0000_0000 by {
      assert Pow256(1) == 0x100;
      assert Pow256(3) == 0x100_0000;
    }
    LittleEndianRoundTrip(i.code % 0x1_0000, 2);
    LittleEndianRoundTrip(i.k % 0x1_0000_0000, 4);
    assert bytes[0..2] == LittleEndian(i.code % 0x1_0000, 2);
    assert bytes[4..8] == LittleEndian(i.k % 0x1_0000_0000, 4);
  }

  function PackAll(program: seq<Instr>): seq<seq<Byte>> {
    seq(|program|, i requires 0 <= i < |program| => Pack(program[i]))
  }

  function MaskedAll(program: seq<Instr>): seq<Instr> {
    seq(|program|, i requires 0 <= i < |program| => Masked(program[i]))
  }

  function DecodeProgram(bytes: seq<Byte>): (program: seq<Instr>)
    requires |bytes| % 8 == 0
  {
    if bytes == [] then [] else [UnpackInstruction(bytes[..8])] + DecodeProgram(bytes[8..])
  }

  /** A packed program is 8 bytes an instruction and decodes to its own masked instructions. */
  lemma {:induction false} DecodeJoinedPack(program: seq<Instr>)
    ensures |Join(PackAll(program))| == 8 * |program|
    ensures DecodeProgram(Join(PackAll(program))) == MaskedAll(program)
  {
    if program == [] {
    } else {
      var rest := program[1..];
      DecodeJoinedPack(rest);
      assert PackAll(program)[1..] == PackAll(rest);
      var bytes := Join(PackAll(program));
      assert bytes == Pack(program[0]) + Join(PackAll(rest));
      assert bytes[..8] == Pack(program[0]) && bytes[8..] == Join(PackAll(rest));
      UnpackPack(program[0]);
      assert MaskedAll(program) == [Masked(program[0])] + MaskedAll(rest);
    }
  }

  // ---------- the machine ----------

  /** The data a filter inspects: one system call and its six 64-bit argument words. */
  datatype SeccompData = SeccompData(nr: U32, arch: U32, ip: U64, args: seq<U64>) {
    predicate Valid() {
      |args| == 6
    }
  }

  function LowWord(w: U64): U32 {
    w % 0x1_0000_0000
  }

  function HighWord(w: U64): U32 {
    w / 0x1_0000_0000
  }

  /** The 32-bit word at byte offset `k` of the 64-byte little-endian structure. */
  function Load(d: SeccompData, k: nat): Option<U32>
    requires d.Valid()
  {
    if k % 4 != 0 || k >= 64 then None
    else if k == 0 then Some(d.nr)
    else if k == 4 then Some(d.arch)
    else if k == 8 then Some(LowWord(d.ip))
    else if k == 12 then Some(HighWord(d.ip))
    else if k % 8 == 0 then Some(LowWord(d.args[(k - 16) / 8]))
    else Some(HighWord(d.args[(k - 20) / 8]))
  }

  /** The 64 bytes a filter is given: the number, the architecture, the instruction pointer and the six
      argument words, each little-endian. */
  function Record(d: SeccompData): seq<Byte>
    requires d.Valid()
  {
    LittleEndian(d.nr, 4) + LittleEndian(d.arch, 4) + LittleEndian(d.ip, 8) + Arguments(d.args)
  }

  function Arguments(args: seq<U64>): (bytes: seq<Byte>)
    ensures |bytes| == 8 * |args|
  {
    if args == [] then [] else LittleEndian(args[0], 8) + Arguments(args[1..])
  }

  lemma WordRoundTrip(w: U32)
    ensures FromLittleEndian(LittleEndian(w, 4)) == w
  {
    LittleEndianRoundTrip(w, 4);
    assert Pow256(4) == 0x1_0000_0000 by { assert Pow256(2) == 0x1_0000; }
  }

  lemma FourBytesLess(w: nat)
    ensures WithoutBytes(w, 4) == w / 0x1_0000_0000
  {
    var a := w / 0x100;
    var b := a / 0x100;
    var c := b / 0x100;
    assert WithoutBytes(w, 4) == WithoutBytes(a, 3) == WithoutBytes(b, 2) == WithoutBytes(c, 1) == c / 0x100;
  }

  /** The low 32 bits of a word come first. */
  lemma WordHalves(w: U64)
    ensures LittleEndian(w, 8) == LittleEndian(LowWord(w), 4) + LittleEndian(HighWord(w), 4)
  {
    LittleEndianSplit(w, 4, 4);
    FourBytesLess(w);
    assert Pow256(4) == 0x1_0000_0000 by { assert Pow256(2) == 0x1_0000; }
    LittleEndianTruncates(w, LowWord(w), 4);
  }

  lemma {:induction false} LittleEndianTruncates(v: nat, w: nat, n: nat)
    requires v % Pow256(n) == w % Pow256(n)
    ensures LittleEndian(v, n) == LittleEndian(w, n)
  {
    if n > 0 {
      ModByte(v, Pow256(n - 1));
      ModByte(w, Pow256(n - 1));
      LittleEndianTruncates(v / 0x100, w / 0x100, n - 1);
    }
  }

  lemma {:induction false} ArgumentAt(args: seq<U64>, i: nat)
    requires i < |args|
    ensures Arguments(args)[8 * i..8 * i + 8] == LittleEndian(args[i], 8)
  {
    if i > 0 {
      ArgumentAt(args[1..], i - 1);
      assert Arguments(args)[8 * i..8 * i + 8] == Arguments(args[1..])[8 * (i - 1)..8 * (i - 1) + 8];
    }
  }

  lemma ArgumentHalf(args: seq<U64>, i: nat, h: nat)
    requires i < |args| && (h == 0 || h == 4)
    ensures FromLittleEndian(Arguments(args)[8 * i + h..8 * i + h + 4])
              == if h == 0 then LowWord(args[i]) else HighWord(args[i])
  {
    hide LittleEndian, FromLittleEndian, Arguments;
    ArgumentAt(args, i);
    HalfOfWord(args[i], h);
    assert Arguments(args)[8 * i + h..8 * i + h + 4] == Arguments(args)[8 * i..8 * i + 8][h..h + 4];
  }

  lemma HeaderWords(d: SeccompData)
    requires d.Valid()
    ensures |Record(d)| == 64 && Record(d)[16..] == Arguments(d.args)
    ensures FromLittleEndian(Record(d)[0..4]) == d.nr && FromLittleEndian(Record(d)[4..8]) == d.arch
    ensures FromLittleEndian(Record(d)[8..12]) == LowWord(d.ip) && FromLittleEndian(Record(d)[12..16]) == HighWord(d.ip)
  {
    hide LittleEndian, FromLittleEndian, Arguments;
    var bytes := Record(d);
    WordRoundTrip(d.nr);
    WordRoundTrip(d.arch);
    HalfOfWord(d.ip, 0);
    HalfOfWord(d.ip, 4);
    assert bytes[0..4] == LittleEndian(d.nr, 4) && bytes[4..8] == LittleEndian(d.arch, 4);
    assert bytes[8..12] == LittleEndian(d.ip, 8)[0..4] && bytes[12..16] == LittleEndian(d.ip, 8)[4..8];
  }

  lemma LoadArgument(d: SeccompData, i: nat, h: nat)
    requires d.Valid() && i < 6 && (h == 0 || h == 4)
    ensures Load(d, 16 + 8 * i + h) == Some(if h == 0 then LowWord(d.args[i]) else HighWord(d.args[i]))
    ensures |Record(d)| == 64
    ensures FromLittleEndian(Record(d)[16 + 8 * i + h..20 + 8 * i + h])
              == if h == 0 then LowWord(d.args[i]) else HighWord(d.args[i])
  {
    HeaderWords(d);
    hide FromLittleEndian, Record;
    ArgumentHalf(d.args, i, h);
    assert Record(d)[16 + 8 * i + h..20 + 8 * i + h] == Record(d)[16..][8 * i + h..8 * i + h + 4];
  }

  lemma OffsetParts(k: nat) returns (i: nat, h: nat)
    requires 16 <= k < 64 && k % 4 == 0
    ensures i < 6 && (h == 0 || h == 4) && k == 16 + 8 * i + h
  {
    i, h := (k - 16) / 8, (k - 16) % 8;
  }

  /** Loading at an offset reads the four bytes that stand there in the record. */
  lemma LoadReadsRecord(d: SeccompData, k: nat)
    requires d.Valid() && k % 4 == 0 && k < 64
    ensures |Record(d)| == 64 && Load(d, k) == Some(FromLittleEndian(Record(d)[k..k + 4]))
  {
    if k >= 16 {
      hide FromLittleEndian, Record, Load, LowWord, HighWord;
      var i, h := OffsetParts(k);
      LoadArgument(d, i, h);
    } else {
      HeaderWords(d);
      hide FromLittleEndian, Record;
      assert k == 0 || k == 4 || k == 8 || k == 12;
    }
  }

  lemma HalfOfWord(w: U64, h: nat)
    requires h == 0 || h == 4
    ensures FromLittleEndian(LittleEndian(w, 8)[h..h + 4]) == if h == 0 then LowWord(w) else HighWord(w)
  {
    hide LittleEndian, FromLittleEndian;
    WordHalves(w);
    WordRoundTrip(LowWord(w));
    WordRoundTrip(HighWord(w));
    assert LittleEndian(w, 8)[h..h + 4] == LittleEndian(if h == 0 then LowWord(w) else HighWord(w), 4);
  }

  datatype Outcome = Return(value: nat) | Fault

  /** Runs `program` from `pc`: load a word (0x20), compare the accumulator for equality (0x15), at
      least (0x35) or more (0x25), jump (0x05), return (0x06).  Offsets are unsigned, so every jump is
      forward and the run ends within `|program| - pc` steps; leaving the program is a fault. */
  function Run(program: seq<Instr>, pc: nat, acc: U32, d: SeccompData): Outcome
    requires d.Valid()
    decreases |program| - pc
  {
    if pc >= |program| then Fault
    else
      var i := program[pc];
      if i.code == 0x20 then
        match Load(d, i.k)
        case None => Fault
        case Some(w) => Run(program, pc + 1, w, d)
      else if i.code == 0x15 then Run(program, pc + 1 + (if acc == i.k then i.jt else i.jf), acc, d)
      else if i.code == 0x35 then Run(program, pc + 1 + (if acc >= i.k then i.jt else i.jf), acc, d)
      else if i.code == 0x25 then Run(program, pc + 1 + (if acc > i.k then i.jt else i.jf), acc, d)
      else if i.code == 0x05 then Run(program, pc + 1 + i.k, acc, d)
      else if i.code == 0x06 then Return(i.k)
      else Fault
  }

  function RunBytes(bytes: seq<Byte>, d: SeccompData): Outcome
    requires |bytes| % 8 == 0 && d.Valid()
  {
    Run(DecodeProgram(bytes), 0, 0, d)
  }
}
