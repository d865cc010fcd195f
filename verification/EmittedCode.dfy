/** What a static look at the emitted program finds, for every inventory: each jump lands inside,
    both ways of each branch land inside, and so no run faults. */
module EmittedCode {
  import opened Wrappers
  import opened Bytes
  import opened CbpfMachine
  import opened PolicyCompiler
  import opened CompilerCorrectness

  // ---------- what a static check of a filter asks ----------

  predicate Branches(i: Instr) {
    i.code in {JEQ_K, JGE_K, JGT_K}
  }

  /** The instruction at `pc` is known, reads inside the record, leads inside the program, and
      returns one of the two actions. */
  predicate InstructionSound(program: seq<Instr>, pc: nat)
    requires pc < |program|
  {
    var i := program[pc];
    if i.code == LD_W_ABS then i.k % 4 == 0 && i.k < 64 && pc + 1 < |program|
    else if Branches(i) then pc + 1 + i.jt < |program| && pc + 1 + i.jf < |program|
    else if i.code == JA then pc + 1 + i.k < |program|
    else i.code == RET_K && i.k in {RET_ALLOW, RET_KILL_PROCESS}
  }

  predicate ProgramSound(program: seq<Instr>) {
    program != [] && forall pc: nat | pc < |program| :: InstructionSound(program, pc)
  }

  /** How many instructions a run executes. */
  function Steps(program: seq<Instr>, pc: nat, acc: U32, d: SeccompData): nat
    requires d.Valid()
    decreases |program| - pc
  {
    if pc >= |program| then 0
    else
      var i := program[pc];
      if i.code == LD_W_ABS then
        match Load(d, i.k)
        case None => 1
        case Some(w) => 1 + Steps(program, pc + 1, w, d)
      else if i.code == JEQ_K then 1 + Steps(program, pc + 1 + (if acc == i.k then i.jt else i.jf), acc, d)
      else if i.code == JGE_K then 1 + Steps(program, pc + 1 + (if acc >= i.k then i.jt else i.jf), acc, d)
      else if i.code == JGT_K then 1 + Steps(program, pc + 1 + (if acc > i.k then i.jt else i.jf), acc, d)
      else if i.code == JA then 1 + Steps(program, pc + 1 + i.k, acc, d)
      else 1
  }

  /** A sound program returns one of its two actions on every record, executing no instruction twice. */
  lemma {:induction false} SoundProgramReturns(program: seq<Instr>, pc: nat, acc: U32, d: SeccompData)
    requires d.Valid() && ProgramSound(program) && pc < |program|
    ensures Run(program, pc, acc, d) in {Return(0x7FFF_0000), Return(0x8000_0000)}
    ensures Steps(program, pc, acc, d) <= |program| - pc
    decreases |program| - pc
  {
    var i := program[pc];
    assert InstructionSound(program, pc);
    if i.code == LD_W_ABS {
      SoundProgramReturns(program, pc + 1, Load(d, i.k).value, d);
    } else if i.code == JEQ_K {
      SoundProgramReturns(program, pc + 1 + (if acc == i.k then i.jt else i.jf), acc, d);
    } else if i.code == JGE_K {
      SoundProgramReturns(program, pc + 1 + (if acc >= i.k then i.jt else i.jf), acc, d);
    } else if i.code == JGT_K {
      SoundProgramReturns(program, pc + 1 + (if acc > i.k then i.jt else i.jf), acc, d);
    } else if i.code == JA {
      SoundProgramReturns(program, pc + 1 + i.k, acc, d);
    }
  }

  // ---------- the shape of emitted code ----------

  /** Loads read the record, returns give an action, and a branch skips at most the next instruction. */
  predicate Shape(i: Instr) {
    || (i.code == LD_W_ABS && i.k % 4 == 0 && i.k < 64)
    || (i.code == RET_K && i.k in {RET_ALLOW, RET_KILL_PROCESS})
    || (Branches(i) && i.jt <= 1 && i.jf <= 1)
  }

  /** Every branch stands right before a jump. */
  predicate Shaped(code: seq<Item>) {
    forall p {:trigger code[p]} | 0 <= p < |code| && code[p].Op? ::
      Shape(code[p].instr) && (Branches(code[p].instr) ==> p + 1 < |code| && code[p + 1].Jump?)
  }

  lemma ShapedConcat(a: seq<Item>, b: seq<Item>)
    requires Shaped(a) && Shaped(b)
    ensures Shaped(a + b)
  {
    hide Shape, Branches;
    var code := a + b;
    forall p {:trigger code[p]} | 0 <= p < |code| && code[p].Op?
      ensures Shape(code[p].instr) && (Branches(code[p].instr) ==> p + 1 < |code| && code[p + 1].Jump?)
    {
      if p < |a| {
        assert code[p] == a[p];
        assert p + 1 < |a| ==> code[p + 1] == a[p + 1];
      } else {
        assert code[p] == b[p - |a|];
        assert p + 1 < |code| ==> code[p + 1] == b[p + 1 - |a|];
      }
    }
  }

  lemma ArgumentCheckShaped(target: Label, index: nat, spec: ArgSpec)
    requires index < ARG_WORDS
    ensures Shaped(ArgumentCheck(target, index, spec))
  {
  }

  lemma {:induction false} RuleBodyShaped(target: Label, rule: Rule, index: nat)
    requires index <= ARG_WORDS
    ensures Shaped(RuleBody(target, rule, index))
    decreases ARG_WORDS - index
  {
    hide Shaped, ArgumentCheck;
    if index < ARG_WORDS {
      ArgumentCheckShaped(target, index, rule[index]);
      RuleBodyShaped(target, rule, index + 1);
      ShapedConcat(ArgumentCheck(target, index, rule[index]), RuleBody(target, rule, index + 1));
    } else {
      NothingShaped();
    }
  }

  lemma NothingShaped()
    ensures Shaped([])
  {
  }

  lemma PiecesShaped(l: Label)
    ensures Shaped([Mark(l)]) && Shaped([Op(Instr(RET_K, RET_ALLOW, 0, 0))]) && Shaped(Header()) && Shaped(Footer())
  {
  }

  lemma EntryHeadShaped(inventory: Inventory, position: nat)
    requires position < |inventory|
    ensures Shaped(EntryHead(inventory, position))
  {
  }

  lemma {:induction false} RulesShaped(name: string, rules: seq<Rule>, position: nat)
    requires position <= |rules|
    ensures Shaped(RulesCode(name, rules, position))
    decreases |rules| - position
  {
    hide Shaped, RuleBody;
    if position < |rules| {
      var mark, ret := [Mark(RuleStart(name, position))], [Op(Instr(RET_K, RET_ALLOW, 0, 0))];
      var body := RuleBody(FailTarget(name, rules, position), rules[position], 0);
      RulesShaped(name, rules, position + 1);
      PiecesShaped(RuleStart(name, position));
      RuleBodyShaped(FailTarget(name, rules, position), rules[position], 0);
      ShapedConcat(mark, body);
      ShapedConcat(mark + body, ret);
      ShapedConcat(OneRule(name, rules, position), RulesCode(name, rules, position + 1));
    } else {
      NothingShaped();
    }
  }

  lemma {:induction false} EntriesShaped(inventory: Inventory, position: nat)
    requires position <= |inventory|
    ensures Shaped(EntriesCode(inventory, position))
    decreases |inventory| - position
  {
    hide Shaped, EntryHead, RulesCode;
    if position < |inventory| {
      var e := inventory[position];
      EntriesShaped(inventory, position + 1);
      EntryHeadShaped(inventory, position);
      RulesShaped(e.name, e.rules, 0);
      ShapedConcat(EntryHead(inventory, position), RulesCode(e.name, e.rules, 0));
      ShapedConcat(EntryCode(inventory, position), EntriesCode(inventory, position + 1));
    } else {
      NothingShaped();
    }
  }

  lemma EmitShaped(inventory: Inventory)
    ensures Shaped(Emit(inventory))
  {
    hide Shaped, Header, Footer, EntriesCode;
    PiecesShaped(Kill);
    EntriesShaped(inventory, 0);
    ShapedConcat(Header(), EntriesCode(inventory, 0));
    ShapedConcat(Header() + EntriesCode(inventory, 0), Footer());
  }

  // ---------- where emitted jumps go ----------

  lemma EmitEnds(inventory: Inventory)
    ensures var items := Emit(inventory);
            items != [] && items[|items| - 1] == Op(Instr(RET_K, RET_KILL_PROCESS, 0, 0))
  {
  }

  lemma {:induction false} SizeMonotone(items: seq<Item>, p: nat, q: nat)
    requires p <= q <= |items|
    ensures Size(items[..p]) <= Size(items[..q]) <= Size(items)
    decreases |items|
  {
    if q < |items| {
      var m := |items| - 1;
      SizeMonotone(items[..m], p, q);
      assert items[..m][..p] == items[..p] && items[..m][..q] == items[..q];
    } else {
      assert items[..q] == items;
      if p < q {
        var m := |items| - 1;
        SizeMonotone(items[..m], p, m);
        assert items[..m][..p] == items[..p] && items[..m][..m] == items[..m];
      }
    }
  }

  lemma SizeStep(items: seq<Item>, p: nat)
    requires p < |items|
    ensures Size(items[..p + 1]) == Size(items[..p]) + if Read(items[p]).Definition? then 0 else 1
  {
    assert items[..p + 1][..p] == items[..p];
  }

  /** Behind every label stands at least the final instruction. */
  lemma LabelInside(items: seq<Item>, l: Label)
    requires items != [] && !Read(items[|items| - 1]).Definition? && l in LabelTable(items)
    ensures LabelTable(items)[l] < Size(items)
  {
    LabelTableDomain(items[..|items| - 1], l);
  }

  /** Every jump of every inventory without a system call called "JA" goes forward and lands inside
      the program. */
  lemma JumpsInBounds(inventory: Inventory, p: nat)
    requires forall e | e in inventory :: e.name != "JA"
    requires p < |Emit(inventory)| && Emit(inventory)[p].Jump?
    ensures var items := Emit(inventory);
            && items[p].target in LabelTable(items)
            && Size(items[..p]) < LabelTable(items)[items[p].target] < Size(items)
  {
    hide Emit, LabelTable, Forward, Size;
    var items := Emit(inventory);
    var t := items[p].target;
    EmitForward(inventory);
    EmitNames(inventory);
    EmitEnds(inventory);
    ForwardAt(items, p);
    assert items[..p + 1] + items[p + 1..] == items;
    assert Mark(t) in items;
    LabelAfter(items[..p + 1], items[p + 1..], t);
    SizeStep(items, p);
    LabelInside(items, t);
  }

  // ---------- the resolved program ----------

  /** Every instruction of the program is assembled from one item. */
  lemma {:induction false} ItemOf(items: seq<Item>, pc: nat) returns (p: nat)
    requires pc < Size(items) && NoneNamedJA(items)
    ensures p < |items| && !items[p].Mark? && Size(items[..p]) == pc
  {
    var n := |items| - 1;
    if pc < Size(items[..n]) {
      p := ItemOf(items[..n], pc);
      assert items[..n][..p] == items[..p];
    } else {
      p := n;
      assert items[n].Mark? ==> ReadsAs(items[n].mark);
    }
  }

  lemma InstructionIsSound(inventory: Inventory, program: seq<Instr>, pc: nat)
    requires forall e | e in inventory :: e.name != "JA"
    requires Linked(Emit(inventory), LabelTable(Emit(inventory)), program) && pc < |program|
    ensures InstructionSound(program, pc)
  {
    hide Emit, LabelTable, Forward, Resolve, Size, Shape, Shaped;
    var items := Emit(inventory);
    var labels := LabelTable(items);
    ResolvedSize(items, labels);
    var p := ItemOf(items, pc);
    FetchAt(items, labels, program, items[..p], items[p], items[p + 1..]);
    if items[p].Jump? {
      JumpsInBounds(inventory, p);
      JumpSound(program, pc, labels, items[p].target);
    } else {
      EmitShaped(inventory);
      ShapedAt(items, p);
      if items[p].instr.code != RET_K {
        NotLast(inventory, p);
      }
      if Branches(items[p].instr) {
        JumpsInBounds(inventory, p + 1);
        SizeStep(items, p);
      }
      OperationSound(program, pc, items[p].instr);
    }
  }

  lemma ShapedAt(items: seq<Item>, p: nat)
    requires Shaped(items) && p < |items| && items[p].Op?
    ensures Shape(items[p].instr)
    ensures Branches(items[p].instr) ==> p + 1 < |items| && items[p + 1].Jump?
  {
  }

  /** Only a return can be the last instruction. */
  lemma NotLast(inventory: Inventory, p: nat)
    requires p < |Emit(inventory)| && Emit(inventory)[p].Op? && Emit(inventory)[p].instr.code != RET_K
    ensures Size(Emit(inventory)[..p]) + 1 < Size(Emit(inventory))
  {
    hide Emit, Size;
    var items := Emit(inventory);
    var last := |items| - 1;
    EmitEnds(inventory);
    SizeStep(items, p);
    SizeStep(items, last);
    SizeMonotone(items, p + 1, last);
    assert items[..last + 1] == items;
  }

  lemma JumpSound(program: seq<Instr>, pc: nat, labels: map<Label, nat>, t: Label)
    requires pc < |program| <= 0x1_0000_0000 && t in labels && pc < labels[t] < |program|
    requires program[pc] == Masked(Encode(Jump(t), pc, labels))
    ensures InstructionSound(program, pc)
  {
  }

  lemma OperationSound(program: seq<Instr>, pc: nat, i: Instr)
    requires pc < |program| && program[pc] == Masked(i) && Shape(i)
    requires i.code != RET_K ==> pc + 1 < |program|
    requires Branches(i) ==> pc + 2 < |program|
    ensures InstructionSound(program, pc)
  {
  }

  /** The program of every inventory without a system call called "JA", repeated names, repeated
      numbers and oversized constants included, passes the static check. */
  lemma CompiledProgramSound(inventory: Inventory)
    requires (forall e | e in inventory :: e.name != "JA") && ProgramLength(inventory) <= 0x1_0000_0000
    ensures Compile(inventory).Success? && |Compile(inventory).value| % 8 == 0
    ensures |DecodeProgram(Compile(inventory).value)| == ProgramLength(inventory)
    ensures ProgramSound(DecodeProgram(Compile(inventory).value))
  {
    hide Emit, LabelTable, Compile, InstructionSound, Resolve, Size;
    CompiledProgram(inventory);
    EmitNames(inventory);
    EmitSize(inventory);
    var program := DecodeProgram(Compile(inventory).value);
    ResolvedSize(Emit(inventory), LabelTable(Emit(inventory)));
    forall pc: nat | pc < |program|
      ensures InstructionSound(program, pc)
    {
      InstructionIsSound(inventory, program, pc);
    }
  }

  /** Such a filter allows or kills on every record, and never faults; it executes at most as many
      instructions as it has. */
  lemma EveryRunReturns(inventory: Inventory, d: SeccompData)
    requires (forall e | e in inventory :: e.name != "JA") && ProgramLength(inventory) <= 0x1_0000_0000
    requires d.Valid()
    ensures Compile(inventory).Success? && |Compile(inventory).value| % 8 == 0
    ensures RunBytes(Compile(inventory).value, d) in {Return(0x7FFF_0000), Return(0x8000_0000)}
    ensures Steps(DecodeProgram(Compile(inventory).value), 0, 0, d) <= ProgramLength(inventory)
  {
    hide Compile, DecodeProgram, Run, Steps, ProgramLength;
    CompiledProgramSound(inventory);
    SoundProgramReturns(DecodeProgram(Compile(inventory).value), 0, 0, d);
  }
}
