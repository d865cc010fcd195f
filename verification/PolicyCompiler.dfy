/** The compiler from a seccomp syscall inventory to classic BPF: symbolic emission with
    labels, then two assembly passes.  This file holds the compiler and its specification;
    CompilerCorrectness.dfy proves what the compiled program decides. */
module PolicyCompiler {
  import opened Wrappers
  import opened Bytes
  import opened CbpfMachine

  // ---------- the policy ----------

  datatype Category = Exact | Range | Pointer | Scalar | Zero

  datatype ArgSpec = ArgSpec(category: Category, low: nat, high: nat)

  const ARG_WORDS := 6

  type Rule = r: seq<ArgSpec> | |r| == ARG_WORDS witness seq(ARG_WORDS, _ => ArgSpec(Zero, 0, 0))

  datatype SyscallEntry = SyscallEntry(name: string, number: nat, reason: string, rules: seq<Rule>)

  type Inventory = seq<SyscallEntry>

  const LD_W_ABS := 0x20
  const JEQ_K := 0x15
  const JGE_K := 0x35
  const JGT_K := 0x25
  const JA := 0x05
  const RET_K := 0x06

  const RET_ALLOW := 0x7FFF_0000
  const RET_KILL_PROCESS := 0x8000_0000

  const AUDIT_ARCH_X86_64 := 0xC000_003E
  const X32_SYSCALL_BIT := 0x4000_0000
  const OFFSET_NR := 0
  const OFFSET_ARCH := 4

  function ArgLowOffset(index: nat): nat
    requires index < ARG_WORDS
  {
    16 + 8 * index
  }

  function ArgHighOffset(index: nat): nat
    requires index < ARG_WORDS
  {
    20 + 8 * index
  }

  // ---------- symbolic code ----------

  datatype Label = Kill | Entry(name: string) | RuleStart(name: string, position: nat)

  datatype Item = Op(instr: Instr) | Jump(target: Label) | Mark(mark: Label)

  /** How the assembler reads an item.  A two-element tuple whose first element is "JA" is a
      jump, so the label of a syscall called "JA" is read as a jump to no label at all. */
  datatype Reading = Operation(instr: Instr) | Branch(target: Option<Label>) | Definition(mark: Label)

  function Read(item: Item): Reading {
    match item
    case Op(i) => Operation(i)
    case Jump(t) => Branch(Some(t))
    case Mark(Kill) => Definition(Kill)
    case Mark(l) => if l.name == "JA" then Branch(None) else Definition(l)
  }

  // ---------- what is emitted ----------

  function ArgumentCheck(target: Label, index: nat, spec: ArgSpec): seq<Item>
    requires index < ARG_WORDS
  {
    if spec.category in {Pointer, Scalar} then []
    else
      [ Op(Instr(LD_W_ABS, ArgHighOffset(index), 0, 0)),
        Op(Instr(JEQ_K, 0, 1, 0)),
        Jump(target),
        Op(Instr(LD_W_ABS, ArgLowOffset(index), 0, 0)) ]
      + if spec.category == Range then
          [ Op(Instr(JGE_K, spec.low, 1, 0)),
            Jump(target),
            Op(Instr(JGT_K, spec.high, 0, 1)),
            Jump(target) ]
        else
          [ Op(Instr(JEQ_K, if spec.category == Zero then 0 else spec.low, 1, 0)),
            Jump(target) ]
  }

  function RuleBody(target: Label, rule: Rule, index: nat): seq<Item>
    requires index <= ARG_WORDS
    decreases ARG_WORDS - index
  {
    if index == ARG_WORDS then [] else ArgumentCheck(target, index, rule[index]) + RuleBody(target, rule, index + 1)
  }

  function FailTarget(name: string, rules: seq<Rule>, position: nat): Label
    requires position < |rules|
  {
    if position + 1 == |rules| then Kill else RuleStart(name, position + 1)
  }

  function OneRule(name: string, rules: seq<Rule>, position: nat): seq<Item>
    requires position < |rules|
  {
    [Mark(RuleStart(name, position))]
    + RuleBody(FailTarget(name, rules, position), rules[position], 0)
    + [Op(Instr(RET_K, RET_ALLOW, 0, 0))]
  }

  function RulesCode(name: string, rules: seq<Rule>, position: nat): seq<Item>
    requires position <= |rules|
    decreases |rules| - position
  {
    if position == |rules| then [] else OneRule(name, rules, position) + RulesCode(name, rules, position + 1)
  }

  function NextEntry(inventory: Inventory, position: nat): Label
    requires position < |inventory|
  {
    if position + 1 == |inventory| then Kill else Entry(inventory[position + 1].name)
  }

  function EntryHead(inventory: Inventory, position: nat): seq<Item>
    requires position < |inventory|
  {
    [ Mark(Entry(inventory[position].name)),
      Op(Instr(LD_W_ABS, OFFSET_NR, 0, 0)),
      Op(Instr(JEQ_K, inventory[position].number, 1, 0)),
      Jump(NextEntry(inventory, position)) ]
  }

  function EntryCode(inventory: Inventory, position: nat): seq<Item>
    requires position < |inventory|
  {
    EntryHead(inventory, position) + RulesCode(inventory[position].name, inventory[position].rules, 0)
  }

  function EntriesCode(inventory: Inventory, position: nat): seq<Item>
    requires position <= |inventory|
    decreases |inventory| - position
  {
    if position == |inventory| then [] else EntryCode(inventory, position) + EntriesCode(inventory, position + 1)
  }

  function Header(): seq<Item> {
    [ Op(Instr(LD_W_ABS, OFFSET_ARCH, 0, 0)),
      Op(Instr(JEQ_K, AUDIT_ARCH_X86_64, 1, 0)),
      Jump(Kill),
      Op(Instr(LD_W_ABS, OFFSET_NR, 0, 0)),
      Op(Instr(JGE_K, X32_SYSCALL_BIT, 0, 1)),
      Jump(Kill) ]
  }

  function Footer(): seq<Item> {
    [Mark(Kill), Op(Instr(RET_K, RET_KILL_PROCESS, 0, 0))]
  }

  function Emit(inventory: Inventory): seq<Item> {
    Header() + EntriesCode(inventory, 0) + Footer()
  }

  // ---------- what the two passes compute ----------

  datatype CompileError = KeyError | BackwardJump | InstructionCount

  /** Instructions an item list assembles to: everything that is not a label definition. */
  function Size(items: seq<Item>): nat {
    if items == [] then 0
    else
      var n := |items| - 1;
      Size(items[..n]) + if Read(items[n]).Definition? then 0 else 1
  }

  /** The label dictionary after the first pass; a later definition overwrites an earlier one. */
  function LabelTable(items: seq<Item>): map<Label, nat> {
    if items == [] then map[]
    else
      var n := |items| - 1;
      match Read(items[n])
      case Definition(l) => LabelTable(items[..n])[l := Size(items[..n])]
      case _ => LabelTable(items[..n])
  }

  function ResolveOne(item: Item, index: nat, labels: map<Label, nat>): Result<seq<Instr>, CompileError> {
    match Read(item)
    case Definition(_) => Success([])
    case Operation(i) => Success([i])
    case Branch(None) => Failure(KeyError)
    case Branch(Some(t)) =>
      if t !in labels then Failure(KeyError)
      else if labels[t] - index - 1 < 0 then Failure(BackwardJump)
      else Success([Instr(JA, labels[t] - index - 1, 0, 0)])
  }

  function Resolve(items: seq<Item>, labels: map<Label, nat>): Result<seq<Instr>, CompileError> {
    if items == [] then Success([])
    else
      var n := |items| - 1;
      var program :- Resolve(items[..n], labels);
      var code :- ResolveOne(items[n], |program|, labels);
      Success(program + code)
  }

  function Assemble(items: seq<Item>): Result<seq<Byte>, CompileError> {
    var program :- Resolve(items, LabelTable(items));
    Success(Join(PackAll(program)))
  }

  function Compile(inventory: Inventory): Result<seq<Byte>, CompileError> {
    Assemble(Emit(inventory))
  }

  lemma {:induction false} ResolvePrefixFailure(items: seq<Item>, n: nat, labels: map<Label, nat>)
    requires n <= |items| && Resolve(items[..n], labels).Failure?
    ensures Resolve(items, labels) == Resolve(items[..n], labels)
  {
    if n == |items| {
      assert items[..n] == items;
    } else {
      var m := |items| - 1;
      assert items[..m][..n] == items[..n];
      ResolvePrefixFailure(items[..m], n, labels);
    }
  }

  lemma {:induction false} ResolvedSize(items: seq<Item>, labels: map<Label, nat>)
    requires Resolve(items, labels).Success?
    ensures |Resolve(items, labels).value| == Size(items)
  {
    if items != [] {
      ResolvedSize(items[..|items| - 1], labels);
    }
  }

  lemma Associative<T>(a: seq<T>, b: seq<T>, c: seq<T>)
    ensures (a + b) + c == a + (b + c)
  {
  }

  lemma RuleAssembled(before: seq<Item>, first: Item, body: seq<Item>, last: Item)
    ensures ((before + [first]) + body) + [last] == before + ([first] + body + [last])
  {
  }

  // ---------- the compiler ----------

  /** The list of symbolic items, shared by the emitter and its helper and appended to in place. */
  class CodeBuffer {
    var out: seq<Item>

    constructor ()
      ensures out == []
    {
      out := [];
    }

    method Append(item: Item)
      modifies this
      ensures out == old(out) + [item]
    {
      out := out + [item];
    }

    /** One argument-word check.  The high word is always compared before the low word. */
    method EmitArgumentCheck(target: Label, index: nat, spec: ArgSpec)
      requires index < ARG_WORDS
      modifies this
      ensures out == old(out) + ArgumentCheck(target, index, spec)
    {
      if spec.category in {Pointer, Scalar} {
        return;
      }
      Append(Op(Instr(LD_W_ABS, ArgHighOffset(index), 0, 0)));
      Append(Op(Instr(JEQ_K, 0, 1, 0)));
      Append(Jump(target));
      Append(Op(Instr(LD_W_ABS, ArgLowOffset(index), 0, 0)));
      if spec.category == Range {
        Append(Op(Instr(JGE_K, spec.low, 1, 0)));
        Append(Jump(target));
        Append(Op(Instr(JGT_K, spec.high, 0, 1)));
        Append(Jump(target));
      } else {
        Append(Op(Instr(JEQ_K, if spec.category == Zero then 0 else spec.low, 1, 0)));
        Append(Jump(target));
      }
    }

    method EmitRule(name: string, rules: seq<Rule>, position: nat)
      requires position < |rules|
      modifies this
      ensures out == old(out) + OneRule(name, rules, position)
    {
      var target := FailTarget(name, rules, position);
      ghost var before := out;
      Append(Mark(RuleStart(name, position)));
      ghost var start := out;
      for index := 0 to ARG_WORDS
        invariant out + RuleBody(target, rules[position], index) == start + RuleBody(target, rules[position], 0)
      {
        ghost var sofar := out;
        EmitArgumentCheck(target, index, rules[position][index]);
        Associative(sofar, ArgumentCheck(target, index, rules[position][index]),
                    RuleBody(target, rules[position], index + 1));
      }
      ghost var body := RuleBody(target, rules[position], 0);
      assert out == start + body by { assert out + [] == out; }
      Append(Op(Instr(RET_K, RET_ALLOW, 0, 0)));
      RuleAssembled(before, Mark(RuleStart(name, position)), body, Op(Instr(RET_K, RET_ALLOW, 0, 0)));
    }

    method EmitEntryHead(inventory: Inventory, position: nat)
      requires position < |inventory|
      modifies this
      ensures out == old(out) + EntryHead(inventory, position)
    {
      Append(Mark(Entry(inventory[position].name)));
      Append(Op(Instr(LD_W_ABS, OFFSET_NR, 0, 0)));
      Append(Op(Instr(JEQ_K, inventory[position].number, 1, 0)));
      Append(Jump(NextEntry(inventory, position)));
    }

    method EmitRules(name: string, rules: seq<Rule>)
      modifies this
      ensures out == old(out) + RulesCode(name, rules, 0)
    {
      ghost var start := out;
      for position := 0 to |rules|
        invariant out + RulesCode(name, rules, position) == start + RulesCode(name, rules, 0)
      {
        ghost var sofar := out;
        EmitRule(name, rules, position);
        Associative(sofar, OneRule(name, rules, position), RulesCode(name, rules, position + 1));
      }
      assert out + [] == out;
    }

    method EmitEntry(inventory: Inventory, position: nat)
      requires position < |inventory|
      modifies this
      ensures out == old(out) + EntryCode(inventory, position)
    {
      var entry := inventory[position];
      EmitEntryHead(inventory, position);
      EmitRules(entry.name, entry.rules);
      Associative(old(out), EntryHead(inventory, position), RulesCode(entry.name, entry.rules, 0));
    }

    method EmitAll(inventory: Inventory)
      requires out == []
      modifies this
      ensures out == Emit(inventory)
    {
      Append(Op(Instr(LD_W_ABS, OFFSET_ARCH, 0, 0)));
      Append(Op(Instr(JEQ_K, AUDIT_ARCH_X86_64, 1, 0)));
      Append(Jump(Kill));
      Append(Op(Instr(LD_W_ABS, OFFSET_NR, 0, 0)));
      Append(Op(Instr(JGE_K, X32_SYSCALL_BIT, 0, 1)));
      Append(Jump(Kill));
      assert out == Header();
      for position := 0 to |inventory|
        invariant out + EntriesCode(inventory, position) == Header() + EntriesCode(inventory, 0)
      {
        ghost var sofar := out;
        EmitEntry(inventory, position);
        Associative(sofar, EntryCode(inventory, position), EntriesCode(inventory, position + 1));
      }
      assert out + [] == out;
      assert out == Header() + EntriesCode(inventory, 0);
      Append(Mark(Kill));
      Append(Op(Instr(RET_K, RET_KILL_PROCESS, 0, 0)));
    }
  }

  /** First pass: the label dictionary and the instruction count. */
  method IndexLabels(items: seq<Item>) returns (labels: map<Label, nat>, total: nat)
    ensures labels == LabelTable(items) && total == Size(items)
  {
    labels, total := map[], 0;
    for n := 0 to |items|
      invariant labels == LabelTable(items[..n]) && total == Size(items[..n])
    {
      assert items[..n + 1][..n] == items[..n];
      match Read(items[n])
      case Definition(l) => labels := labels[l := total];
      case _ => total := total + 1;
    }
    assert items[..|items|] == items;
  }

  lemma PackAllConcat(program: seq<Instr>, code: seq<Instr>)
    ensures PackAll(program + code) == PackAll(program) + PackAll(code)
  {
  }

  /** Second pass: pack every instruction, with each jump as a forward distance. */
  method PackProgram(items: seq<Item>, labels: map<Label, nat>) returns (r: Result<seq<seq<Byte>>, CompileError>)
    ensures Resolve(items, labels).Failure? ==> r == Failure(Resolve(items, labels).error)
    ensures Resolve(items, labels).Success? ==> r == Success(PackAll(Resolve(items, labels).value))
  {
    var program: seq<seq<Byte>> := [];
    ghost var code: seq<Instr> := [];
    var index := 0;
    for n := 0 to |items|
      invariant Resolve(items[..n], labels) == Success(code)
      invariant index == |code| && program == PackAll(code)
    {
      assert items[..n + 1][..n] == items[..n];
      ghost var one := ResolveOne(items[n], |code|, labels);
      assert one.Success? ==> Resolve(items[..n + 1], labels) == Success(code + one.value);
      if one.Failure? {
        assert Resolve(items[..n + 1], labels) == Failure(one.error);
        ResolvePrefixFailure(items, n + 1, labels);
      }
      match Read(items[n])
      case Operation(i) =>
        PackAllConcat(code, [i]);
        program := program + [PackInstruction(i.code, i.k, i.jt, i.jf)];
        code := code + [i];
        index := index + 1;
      case Branch(None) =>
        return Failure(KeyError);
      case Branch(Some(t)) =>
        if t !in labels {
          return Failure(KeyError);
        }
        var distance: int := labels[t] as int - index as int - 1;
        if distance < 0 {
          return Failure(BackwardJump);
        }
        PackAllConcat(code, [Instr(JA, distance, 0, 0)]);
        program := program + [PackInstruction(JA, distance, 0, 0)];
        code := code + [Instr(JA, distance, 0, 0)];
        index := index + 1;
      case Definition(_) =>
        assert one == Success([]);
        assert code + [] == code;
    }
    assert items[..|items|] == items;
    r := Success(program);
  }

  method DeriveProgram(inventory: Inventory) returns (r: Result<seq<Byte>, CompileError>)
    ensures r == Compile(inventory)
  {
    var buffer := new CodeBuffer();
    buffer.EmitAll(inventory);
    var labels, total := IndexLabels(buffer.out);
    var packed := PackProgram(buffer.out, labels);
    match packed
    case Failure(e) =>
      r := Failure(e);
    case Success(program) =>
      ResolvedSize(buffer.out, labels);
      r := if |program| != total then Failure(InstructionCount) else Success(Join(program));
  }
}
