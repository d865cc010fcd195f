/** What the compiled filter decides, for every inventory: compile-then-run is the policy. */
module CompilerCorrectness {
  import opened Wrappers
  import opened Bytes
  import opened CbpfMachine
  import opened PolicyCompiler

  // ---------- the meaning of a policy ----------

  predicate Matches(spec: ArgSpec, w: U64) {
    match spec.category
    case Exact => w == spec.low
    case Range => spec.low <= w <= spec.high
    case Zero => w == 0
    case Pointer => true
    case Scalar => true
  }

  predicate RuleMatches(rule: Rule, d: SeccompData)
    requires d.Valid()
  {
    forall i | 0 <= i < ARG_WORDS :: Matches(rule[i], d.args[i])
  }

  /** The decision an inventory stands for. */
  ghost predicate Permits(inventory: Inventory, d: SeccompData)
    requires d.Valid()
  {
    && d.arch == 0xC000_003E
    && d.nr < 0x4000_0000
    && exists e, r :: e in inventory && r in e.rules && e.number == d.nr && RuleMatches(r, d)
  }

  ghost predicate Named(inventory: Inventory) {
    && (forall e | e in inventory :: e.name != "JA")
    && (forall i, j | 0 <= i < j < |inventory| :: inventory[i].name != inventory[j].name)
  }

  ghost predicate Numbered(inventory: Inventory) {
    && (forall e | e in inventory :: e.number < 0x1_0000_0000)
    && (forall i, j | 0 <= i < j < |inventory| :: inventory[i].number != inventory[j].number)
  }

  /** The compiled check of a word tests the low word against the constant's low 32 bits. */
  predicate CheckPasses(spec: ArgSpec, w: U64) {
    match spec.category
    case Exact => HighWord(w) == 0 && LowWord(w) == spec.low % 0x1_0000_0000
    case Range => HighWord(w) == 0 && spec.low % 0x1_0000_0000 <= LowWord(w) <= spec.high % 0x1_0000_0000
    case Zero => HighWord(w) == 0 && LowWord(w) == 0
    case Pointer => true
    case Scalar => true
  }

  /** Which checks survive the truncation of their constants to 32 bits. */
  predicate Representable(spec: ArgSpec) {
    match spec.category
    case Exact => spec.low < 0x1_0000_0000
    case Range =>
      if spec.low <= spec.high && spec.low < 0x1_0000_0000_0000_0000 then spec.high < 0x1_0000_0000
      else spec.low % 0x1_0000_0000 > spec.high % 0x1_0000_0000
    case _ => true
  }

  lemma WordSplit(w: U64)
    ensures w == 0x1_0000_0000 * HighWord(w) + LowWord(w)
    ensures HighWord(w) == 0 <==> w < 0x1_0000_0000
    ensures w < 0x1_0000_0000 ==> LowWord(w) == w
  {
  }

  /** The compiled check means the 64-bit comparison exactly when its constants are representable. */
  lemma CheckFaithfulIffRepresentable(spec: ArgSpec)
    ensures (forall w: U64 :: CheckPasses(spec, w) == Matches(spec, w)) <==> Representable(spec)
  {
    if Representable(spec) {
      forall w: U64
        ensures CheckPasses(spec, w) == Matches(spec, w)
      {
        WordSplit(w);
      }
    } else {
      var w: U64 := UnfaithfulWord(spec);
      WordSplit(w);
      assert CheckPasses(spec, w) != Matches(spec, w);
    }
  }

  /** A word on which an unrepresentable check answers wrongly. */
  function UnfaithfulWord(spec: ArgSpec): U64 {
    if spec.category == Exact then
      if spec.low < 0x1_0000_0000_0000_0000 then spec.low else spec.low % 0x1_0000_0000
    else if spec.low <= spec.high && spec.low < 0x1_0000_0000 then 0x1_0000_0000
    else if spec.low < 0x1_0000_0000_0000_0000 && spec.low <= spec.high then spec.low
    else spec.low % 0x1_0000_0000
  }

  // ---------- the assembler keeps every jump forward ----------

  predicate Forward(items: seq<Item>) {
    items == [] || ((items[0].Jump? ==> Mark(items[0].target) in items[1..]) && Forward(items[1..]))
  }

  predicate JumpsInto(code: seq<Item>, rest: seq<Item>) {
    forall x | x in code && x.Jump? :: Mark(x.target) in rest
  }

  lemma {:induction false} ForwardAppend(code: seq<Item>, rest: seq<Item>)
    requires Forward(rest) && JumpsInto(code, rest)
    ensures Forward(code + rest)
  {
    if code == [] {
      assert code + rest == rest;
    } else {
      ForwardAppend(code[1..], rest);
      assert (code + rest)[1..] == code[1..] + rest;
    }
  }

  lemma {:induction false} ForwardAt(items: seq<Item>, p: nat)
    requires Forward(items) && p < |items| && items[p].Jump?
    ensures Mark(items[p].target) in items[p + 1..]
  {
    if p > 0 {
      ForwardAt(items[1..], p - 1);
      assert items[1..][p..] == items[p + 1..];
    }
  }

  lemma {:induction false} BodyItems(target: Label, rule: Rule, index: nat)
    requires index <= ARG_WORDS
    ensures forall x | x in RuleBody(target, rule, index) :: !x.Mark? && (x.Jump? ==> x.target == target)
    decreases ARG_WORDS - index
  {
    if index < ARG_WORDS {
      CheckItems(target, index, rule[index]);
      hide ArgumentCheck;
      BodyItems(target, rule, index + 1);
    }
  }

  lemma CheckItems(target: Label, index: nat, spec: ArgSpec)
    requires index < ARG_WORDS
    ensures forall x | x in ArgumentCheck(target, index, spec) :: !x.Mark? && (x.Jump? ==> x.target == target)
  {
  }

  lemma OneRuleJumps(name: string, rules: seq<Rule>, position: nat, rest: seq<Item>)
    requires position < |rules| && Mark(FailTarget(name, rules, position)) in rest
    ensures JumpsInto(OneRule(name, rules, position), rest)
    ensures OneRule(name, rules, position)[0] == Mark(RuleStart(name, position))
  {
    BodyItems(FailTarget(name, rules, position), rules[position], 0);
  }

  lemma RulesStartMark(name: string, rules: seq<Rule>, position: nat)
    requires position <= |rules|
    ensures position < |rules| ==> Mark(RuleStart(name, position)) in RulesCode(name, rules, position)
  {
    if position < |rules| {
      assert RulesCode(name, rules, position)[0] == Mark(RuleStart(name, position));
    }
  }

  lemma EntryMarkFirst(inventory: Inventory, position: nat)
    requires position < |inventory|
    ensures Mark(Entry(inventory[position].name)) in EntryCode(inventory, position)
  {
    hide RulesCode;
    assert EntryCode(inventory, position)[0] == Mark(Entry(inventory[position].name));
  }

  lemma {:induction false} EntryMarkPresent(inventory: Inventory, position: nat, i: nat)
    requires position <= i < |inventory|
    ensures Mark(Entry(inventory[i].name)) in EntriesCode(inventory, position)
    decreases i - position
  {
    assert EntriesCode(inventory, position) == EntryCode(inventory, position) + EntriesCode(inventory, position + 1);
    hide EntryCode, EntriesCode;
    if position < i {
      EntryMarkPresent(inventory, position + 1, i);
    } else {
      EntryMarkFirst(inventory, position);
    }
  }

  lemma {:induction false} RulesForward(name: string, rules: seq<Rule>, position: nat, rest: seq<Item>)
    requires position <= |rules|
    requires Forward(rest) && Mark(Kill) in rest
    ensures Forward(RulesCode(name, rules, position) + rest)
    decreases |rules| - position
  {
    hide OneRule, Forward;
    if position == |rules| {
      assert RulesCode(name, rules, position) + rest == rest;
    } else {
      RulesForward(name, rules, position + 1, rest);
      RulesStartMark(name, rules, position + 1);
      var tail := RulesCode(name, rules, position + 1) + rest;
      OneRuleJumps(name, rules, position, tail);
      ForwardAppend(OneRule(name, rules, position), tail);
      Associative(OneRule(name, rules, position), RulesCode(name, rules, position + 1), rest);
    }
  }

  lemma EntryHeadJumps(inventory: Inventory, position: nat, rest: seq<Item>)
    requires position < |inventory| && Mark(NextEntry(inventory, position)) in rest
    ensures JumpsInto(EntryHead(inventory, position), rest)
    ensures EntryHead(inventory, position)[0] == Mark(Entry(inventory[position].name))
  {
  }

  lemma FooterMarks(tail: seq<Item>)
    ensures Mark(Kill) in tail + Footer()
    ensures forall l | Mark(l) in tail + Footer() :: Mark(l) in tail || l.Kill?
    ensures Forward(Footer())
  {
    assert (tail + Footer())[|tail|] == Mark(Kill);
    assert Footer()[1..][1..] == [];
  }

  lemma {:induction false} EntriesForward(inventory: Inventory, position: nat)
    requires position <= |inventory|
    ensures Forward(EntriesCode(inventory, position) + Footer())
    decreases |inventory| - position
  {
    hide RulesCode, EntryHead, Footer, Forward, JumpsInto;
    if position == |inventory| {
      FooterMarks([]);
      assert EntriesCode(inventory, position) + Footer() == Footer();
    } else {
      EntriesForward(inventory, position + 1);
      FooterMarks(EntriesCode(inventory, position + 1));
      if position + 1 < |inventory| {
        EntryMarkPresent(inventory, position + 1, position + 1);
      }
      var rest := EntriesCode(inventory, position + 1) + Footer();
      var e := inventory[position];
      var head, rules := EntryHead(inventory, position), RulesCode(e.name, e.rules, 0);
      RulesForward(e.name, e.rules, 0, rest);
      EntryHeadJumps(inventory, position, rules + rest);
      ForwardAppend(head, rules + rest);
      assert EntriesCode(inventory, position) + Footer() == head + (rules + rest);
    }
  }

  lemma EmitForward(inventory: Inventory)
    ensures Forward(Emit(inventory))
  {
    hide EntriesCode, Forward;
    EntriesForward(inventory, 0);
    var rest := EntriesCode(inventory, 0) + Footer();
    FooterMarks(EntriesCode(inventory, 0));
    ForwardAppend(Header(), rest);
    assert Emit(inventory) == Header() + rest;
  }

  // ---------- label positions ----------

  lemma {:induction false} SizeConcat(a: seq<Item>, b: seq<Item>)
    ensures Size(a + b) == Size(a) + Size(b)
  {
    if b == [] {
      assert a + b == a;
    } else {
      var n := |b| - 1;
      SizeConcat(a, b[..n]);
      assert (a + b)[..|a + b| - 1] == a + b[..n];
    }
  }

  lemma {:induction false} LabelTableConcat(a: seq<Item>, b: seq<Item>, l: Label)
    ensures l in LabelTable(b) ==> l in LabelTable(a + b) && LabelTable(a + b)[l] == Size(a) + LabelTable(b)[l]
    ensures l !in LabelTable(b) ==> (l in LabelTable(a + b) <==> l in LabelTable(a))
    ensures l !in LabelTable(b) && l in LabelTable(a) ==> LabelTable(a + b)[l] == LabelTable(a)[l]
  {
    if b == [] {
      assert a + b == a;
    } else {
      var n := |b| - 1;
      LabelTableConcat(a, b[..n], l);
      SizeConcat(a, b[..n]);
      assert (a + b)[..|a + b| - 1] == a + b[..n];
    }
  }

  lemma {:induction false} LabelTableDomain(items: seq<Item>, l: Label)
    ensures l in LabelTable(items) <==> exists x :: x in items && Read(x) == Definition(l)
    ensures l in LabelTable(items) ==> LabelTable(items)[l] <= Size(items)
  {
    if items != [] {
      var n := |items| - 1;
      LabelTableDomain(items[..n], l);
      assert items == items[..n] + [items[n]];
    }
  }

  predicate ReadsAs(l: Label) {
    Read(Mark(l)) == Definition(l)
  }

  /** A label with no later definition resolves to where it stands. */
  lemma LabelAt(a: seq<Item>, l: Label, b: seq<Item>)
    requires ReadsAs(l) && Mark(l) !in b
    ensures l in LabelTable(a + [Mark(l)] + b) && LabelTable(a + [Mark(l)] + b)[l] == Size(a)
  {
    var items := a + [Mark(l)] + b;
    LabelTableDomain(b, l);
    LabelTableConcat(a + [Mark(l)], b, l);
    assert (a + [Mark(l)])[..|a|] == a;
  }

  /** A label defined after a position resolves to that position or later. */
  lemma LabelAfter(a: seq<Item>, b: seq<Item>, l: Label)
    requires ReadsAs(l) && Mark(l) in b
    ensures l in LabelTable(a + b) && LabelTable(a + b)[l] >= Size(a)
  {
    LabelTableDomain(b, l);
    LabelTableConcat(a, b, l);
  }

  // ---------- assembly ----------

  function Encode(item: Item, index: nat, labels: map<Label, nat>): Instr {
    match item
    case Op(i) => i
    case Jump(t) =>
      if t in labels && labels[t] > index then Instr(JA, labels[t] - index - 1, 0, 0) else Instr(0, 0, 0, 0)
    case Mark(_) => Instr(0, 0, 0, 0)
  }

  ghost predicate NoneNamedJA(items: seq<Item>) {
    forall l | Mark(l) in items :: ReadsAs(l)
  }

  lemma {:induction false} ResolveForward(items: seq<Item>, n: nat)
    requires n <= |items| && Forward(items) && NoneNamedJA(items)
    ensures Resolve(items[..n], LabelTable(items)).Success?
  {
    hide LabelTable;
    if n > 0 {
      var m := n - 1;
      ResolveForward(items, m);
      assert items[..n][..m] == items[..m];
      var labels := LabelTable(items);
      ResolvedSize(items[..m], labels);
      if items[m].Jump? {
        var t := items[m].target;
        ForwardAt(items, m);
        LabelAfter(items[..n], items[n..], t);
        assert items[..n] + items[n..] == items;
        assert items[..n] == items[..m] + [items[m]];
      }
    }
  }

  lemma {:induction false} ResolvedAt(items: seq<Item>, labels: map<Label, nat>, p: nat)
    requires Resolve(items, labels).Success? && p < |items| && !items[p].Mark?
    ensures Size(items[..p]) < |Resolve(items, labels).value|
    ensures Resolve(items, labels).value[Size(items[..p])] == Encode(items[p], Size(items[..p]), labels)
  {
    var n := |items| - 1;
    ResolvedSize(items[..n], labels);
    if p < n {
      ResolvedAt(items[..n], labels, p);
      assert items[..n][..p] == items[..p];
    }
  }

  // ---------- running a fragment ----------

  /** The assembled and packed program, and the fragment `code` lying in it at `pc`. */
  predicate Holds(program: seq<Instr>, labels: map<Label, nat>, pc: nat, code: seq<Item>) {
    && pc + |code| <= |program|
    && forall j {:trigger code[j]} | 0 <= j < |code| :: program[pc + j] == Masked(Encode(code[j], pc + j, labels))
  }

  /** Whatever the accumulator, running from `pc` ends in `o`. */
  ghost predicate Yields(program: seq<Instr>, pc: nat, d: SeccompData, o: Outcome)
    requires d.Valid()
  {
    forall a: U32 :: Run(program, pc, a, d) == o
  }

  ghost predicate JumpYields(program: seq<Instr>, labels: map<Label, nat>, target: Label, pc: nat, d: SeccompData,
                             o: Outcome)
    requires d.Valid()
  {
    && |program| <= 0x1_0000_0000
    && target in labels && pc < labels[target] < |program|
    && Yields(program, labels[target], d, o)
  }

  lemma JumpTaken(program: seq<Instr>, labels: map<Label, nat>, target: Label, pc: nat, last: nat, d: SeccompData,
                  o: Outcome)
    requires d.Valid() && pc <= last && JumpYields(program, labels, target, last, d, o)
    requires pc < |program| && program[pc] == Masked(Encode(Jump(target), pc, labels))
    ensures Yields(program, pc, d, o)
  {
    forall a: U32
      ensures Run(program, pc, a, d) == o
    {
      assert Run(program, pc, a, d) == Run(program, labels[target], a, d);
    }
  }

  /** A conditional branch over one jump, as every comparison is emitted. */
  predicate Guard(i: Instr) {
    || (i.code in {JEQ_K, JGE_K} && i.jt == 1 && i.jf == 0)
    || (i.code == JGT_K && i.jt == 0 && i.jf == 1)
  }

  predicate GuardPasses(i: Instr, a: U32) {
    var k := i.k % 0x1_0000_0000;
    if i.code == JEQ_K then a == k else if i.code == JGE_K then a >= k else a <= k
  }

  lemma GuardRuns(program: seq<Instr>, labels: map<Label, nat>, pc: nat, i: Instr, target: Label,
                  last: nat, d: SeccompData, a: U32, pass: Outcome, fail: Outcome)
    requires d.Valid() && Guard(i) && pc + 1 <= last
    requires Holds(program, labels, pc, [Op(i), Jump(target)])
    requires JumpYields(program, labels, target, last, d, fail)
    requires Run(program, pc + 2, a, d) == pass
    ensures Run(program, pc, a, d) == if GuardPasses(i, a) then pass else fail
  {
    var code := [Op(i), Jump(target)];
    assert code[0].Op? && code[1].Jump?;
    assert program[pc] == Masked(i);
    JumpTaken(program, labels, target, pc + 1, last, d, fail);
    assert Run(program, pc + 1, a, d) == fail;
  }

  lemma LoadRuns(program: seq<Instr>, labels: map<Label, nat>, pc: nat, k: nat, w: U32, d: SeccompData, o: Outcome)
    requires d.Valid() && Load(d, k) == Some(w)
    requires Holds(program, labels, pc, [Op(Instr(LD_W_ABS, k, 0, 0))])
    requires Run(program, pc + 1, w, d) == o
    ensures Yields(program, pc, d, o)
  {
    var code := [Op(Instr(LD_W_ABS, k, 0, 0))];
    assert code[0].Op?;
    assert program[pc] == Instr(LD_W_ABS, k, 0, 0);
    forall a: U32
      ensures Run(program, pc, a, d) == o
    {
    }
  }

  lemma HoldsSlice(program: seq<Instr>, labels: map<Label, nat>, pc: nat, code: seq<Item>, i: nat, j: nat)
    requires Holds(program, labels, pc, code) && i <= j <= |code|
    ensures Holds(program, labels, pc + i, code[i..j])
  {
    forall n {:trigger code[i..j][n]} | 0 <= n < j - i
      ensures program[pc + i + n] == Masked(Encode(code[i..j][n], pc + i + n, labels))
    {
      assert code[i..j][n] == code[i + n];
    }
  }

  lemma HoldsConcat(program: seq<Instr>, labels: map<Label, nat>, pc: nat, a: seq<Item>, b: seq<Item>)
    requires Holds(program, labels, pc, a + b)
    ensures Holds(program, labels, pc, a) && Holds(program, labels, pc + |a|, b)
  {
    HoldsSlice(program, labels, pc, a + b, 0, |a|);
    HoldsSlice(program, labels, pc, a + b, |a|, |a + b|);
    assert (a + b)[0..|a|] == a && (a + b)[|a|..] == b;
  }

  /** A load followed by one guarded comparison. */
  lemma LoadGuardRuns(program: seq<Instr>, labels: map<Label, nat>, pc: nat, k: nat, i: Instr, w: U32, target: Label,
                      last: nat, d: SeccompData, pass: Outcome, fail: Outcome)
    requires d.Valid() && Guard(i) && pc + 2 <= last && Load(d, k) == Some(w)
    requires Holds(program, labels, pc, [Op(Instr(LD_W_ABS, k, 0, 0)), Op(i), Jump(target)])
    requires JumpYields(program, labels, target, last, d, fail)
    requires Run(program, pc + 3, w, d) == pass
    ensures Yields(program, pc, d, if GuardPasses(i, w) then pass else fail)
  {
    var code := [Op(Instr(LD_W_ABS, k, 0, 0)), Op(i), Jump(target)];
    HoldsSlice(program, labels, pc, code, 0, 1);
    HoldsSlice(program, labels, pc, code, 1, 3);
    assert code[0..1] == [Op(Instr(LD_W_ABS, k, 0, 0))] && code[1..3] == [Op(i), Jump(target)];
    GuardRuns(program, labels, pc + 1, i, target, last, d, w, pass, fail);
    LoadRuns(program, labels, pc, k, w, d, if GuardPasses(i, w) then pass else fail);
  }

  lemma RangeRuns(program: seq<Instr>, labels: map<Label, nat>, pc: nat, target: Label, index: nat, spec: ArgSpec,
                  last: nat, d: SeccompData, pass: Outcome, fail: Outcome)
    requires d.Valid() && index < ARG_WORDS && spec.category == Range && pc + 5 <= last
    requires Holds(program, labels, pc,
                   [Op(Instr(LD_W_ABS, ArgLowOffset(index), 0, 0)), Op(Instr(JGE_K, spec.low, 1, 0)), Jump(target),
                    Op(Instr(JGT_K, spec.high, 0, 1)), Jump(target)])
    requires JumpYields(program, labels, target, last, d, fail)
    requires Run(program, pc + 5, LowWord(d.args[index]), d) == pass
    ensures Yields(program, pc, d,
                   if spec.low % 0x1_0000_0000 <= LowWord(d.args[index]) <= spec.high % 0x1_0000_0000
                   then pass else fail)
  {
    var lo := LowWord(d.args[index]);
    var load, below, above := Op(Instr(LD_W_ABS, ArgLowOffset(index), 0, 0)), Instr(JGE_K, spec.low, 1, 0),
        Instr(JGT_K, spec.high, 0, 1);
    var code := [load, Op(below), Jump(target), Op(above), Jump(target)];
    HoldsSlice(program, labels, pc, code, 0, 3);
    HoldsSlice(program, labels, pc, code, 3, 5);
    assert code[0..3] == [load, Op(below), Jump(target)] && code[3..5] == [Op(above), Jump(target)];
    GuardRuns(program, labels, pc + 3, above, target, last, d, lo, pass, fail);
    var inner := if GuardPasses(above, lo) then pass else fail;
    LoadGuardRuns(program, labels, pc, ArgLowOffset(index), below, lo, target, last, d, inner, fail);
  }

  lemma CheckRuns(program: seq<Instr>, labels: map<Label, nat>, pc: nat, target: Label, index: nat, spec: ArgSpec,
                  last: nat, d: SeccompData, pass: Outcome, fail: Outcome)
    requires d.Valid() && index < ARG_WORDS
    requires Holds(program, labels, pc, ArgumentCheck(target, index, spec))
    requires pc + |ArgumentCheck(target, index, spec)| <= last
    requires JumpYields(program, labels, target, last, d, fail)
    requires Yields(program, pc + |ArgumentCheck(target, index, spec)|, d, pass)
    ensures Yields(program, pc, d, if CheckPasses(spec, d.args[index]) then pass else fail)
  {
    var code := ArgumentCheck(target, index, spec);
    if code != [] {
      var hi, lo := HighWord(d.args[index]), LowWord(d.args[index]);
      var load := Op(Instr(LD_W_ABS, ArgLowOffset(index), 0, 0));
      HoldsSlice(program, labels, pc, code, 0, 3);
      HoldsSlice(program, labels, pc, code, 3, |code|);
      assert code[0..3] == [Op(Instr(LD_W_ABS, ArgHighOffset(index), 0, 0)), Op(Instr(JEQ_K, 0, 1, 0)), Jump(target)];
      assert Run(program, pc + |code|, lo, d) == pass;
      var lowPasses: bool;
      if spec.category == Range {
        assert code[3..] == [load, Op(Instr(JGE_K, spec.low, 1, 0)), Jump(target), Op(Instr(JGT_K, spec.high, 0, 1)),
                             Jump(target)];
        RangeRuns(program, labels, pc + 3, target, index, spec, last, d, pass, fail);
        lowPasses := spec.low % 0x1_0000_0000 <= lo <= spec.high % 0x1_0000_0000;
      } else {
        var equal := Instr(JEQ_K, if spec.category == Zero then 0 else spec.low, 1, 0);
        assert code[3..] == [load, Op(equal), Jump(target)];
        LoadGuardRuns(program, labels, pc + 3, ArgLowOffset(index), equal, lo, target, last, d, pass, fail);
        lowPasses := GuardPasses(equal, lo);
      }
      var inner := if lowPasses then pass else fail;
      assert Run(program, pc + 3, hi, d) == inner;
      LoadGuardRuns(program, labels, pc, ArgHighOffset(index), Instr(JEQ_K, 0, 1, 0), hi, target, last, d, inner, fail);
    }
  }

  /** The words from `index` on all pass their compiled checks. */
  predicate ChecksPass(rule: Rule, index: nat, d: SeccompData)
    requires d.Valid() && index <= ARG_WORDS
  {
    forall i | index <= i < ARG_WORDS :: CheckPasses(rule[i], d.args[i])
  }

  lemma ChecksPassStep(rule: Rule, index: nat, d: SeccompData)
    requires d.Valid() && index < ARG_WORDS
    ensures ChecksPass(rule, index, d) <==> CheckPasses(rule[index], d.args[index]) && ChecksPass(rule, index + 1, d)
  {
  }

  lemma BodyStep(program: seq<Instr>, labels: map<Label, nat>, pc: nat, target: Label, rule: Rule, index: nat,
                 last: nat, d: SeccompData, pass: Outcome, fail: Outcome)
    requires d.Valid() && index < ARG_WORDS
    requires Holds(program, labels, pc, ArgumentCheck(target, index, rule[index]))
    requires pc + |ArgumentCheck(target, index, rule[index])| <= last
    requires JumpYields(program, labels, target, last, d, fail)
    requires Yields(program, pc + |ArgumentCheck(target, index, rule[index])|, d,
                    if ChecksPass(rule, index + 1, d) then pass else fail)
    ensures Yields(program, pc, d, if ChecksPass(rule, index, d) then pass else fail)
  {
    hide Run, ArgumentCheck, Encode;
    ChecksPassStep(rule, index, d);
    CheckRuns(program, labels, pc, target, index, rule[index], last, d,
              if ChecksPass(rule, index + 1, d) then pass else fail, fail);
  }

  lemma {:induction false} BodyRuns(program: seq<Instr>, labels: map<Label, nat>, pc: nat, target: Label, rule: Rule,
                                    index: nat, last: nat, d: SeccompData, pass: Outcome, fail: Outcome)
    requires d.Valid() && index <= ARG_WORDS
    requires Holds(program, labels, pc, RuleBody(target, rule, index))
    requires pc + |RuleBody(target, rule, index)| <= last
    requires JumpYields(program, labels, target, last, d, fail)
    requires Yields(program, pc + |RuleBody(target, rule, index)|, d, pass)
    ensures Yields(program, pc, d, if ChecksPass(rule, index, d) then pass else fail)
    decreases ARG_WORDS - index
  {
    hide Run, ArgumentCheck, Encode;
    if index < ARG_WORDS {
      var check, rest := ArgumentCheck(target, index, rule[index]), RuleBody(target, rule, index + 1);
      HoldsConcat(program, labels, pc, check, rest);
      BodyRuns(program, labels, pc + |check|, target, rule, index + 1, last, d, pass, fail);
      BodyStep(program, labels, pc, target, rule, index, last, d, pass, fail);
    }
  }

  // ---------- lengths ----------

  /** How many instructions an inventory compiles to. */
  function CheckLength(spec: ArgSpec): nat {
    match spec.category
    case Exact => 6
    case Zero => 6
    case Range => 8
    case _ => 0
  }

  function ChecksLength(rule: Rule, index: nat): nat
    requires index <= ARG_WORDS
    decreases ARG_WORDS - index
  {
    if index == ARG_WORDS then 0 else CheckLength(rule[index]) + ChecksLength(rule, index + 1)
  }

  function RulesLength(rules: seq<Rule>, position: nat): nat
    requires position <= |rules|
    decreases |rules| - position
  {
    if position == |rules| then 0 else 1 + ChecksLength(rules[position], 0) + RulesLength(rules, position + 1)
  }

  function EntriesLength(inventory: Inventory, position: nat): nat
    requires position <= |inventory|
    decreases |inventory| - position
  {
    if position == |inventory| then 0
    else 3 + RulesLength(inventory[position].rules, 0) + EntriesLength(inventory, position + 1)
  }

  function ProgramLength(inventory: Inventory): nat {
    7 + EntriesLength(inventory, 0)
  }

  lemma CheckSize(target: Label, index: nat, spec: ArgSpec)
    requires index < ARG_WORDS
    ensures |ArgumentCheck(target, index, spec)| == CheckLength(spec)
  {
  }

  lemma {:induction false} BodySize(target: Label, rule: Rule, index: nat)
    requires index <= ARG_WORDS
    ensures |RuleBody(target, rule, index)| == ChecksLength(rule, index)
    decreases ARG_WORDS - index
  {
    if index < ARG_WORDS {
      BodySize(target, rule, index + 1);
      CheckSize(target, index, rule[index]);
    }
  }

  // ---------- positions in the assembled program ----------

  /** `suffix` is the rest of `items` from instruction `pc` on. */
  ghost predicate At(items: seq<Item>, pc: nat, suffix: seq<Item>) {
    exists pre :: items == pre + suffix && Size(pre) == pc
  }

  /** `program` is what the machine decodes from the assembled bytes of `items`. */
  ghost predicate Linked(items: seq<Item>, labels: map<Label, nat>, program: seq<Instr>) {
    && labels == LabelTable(items)
    && Forward(items) && NoneNamedJA(items) && Size(items) <= 0x1_0000_0000
    && Resolve(items, labels).Success?
    && program == MaskedAll(Resolve(items, labels).value)
  }

  lemma {:induction false} SizeOfInstructions(code: seq<Item>)
    requires forall x | x in code :: !x.Mark?
    ensures Size(code) == |code|
  {
    if code != [] {
      SizeOfInstructions(code[..|code| - 1]);
    }
  }

  lemma AtSkip(items: seq<Item>, pc: nat, code: seq<Item>, rest: seq<Item>)
    requires At(items, pc, code + rest) && forall x | x in code :: !x.Mark?
    ensures At(items, pc + |code|, rest)
  {
    var pre :| items == pre + (code + rest) && Size(pre) == pc;
    SizeConcat(pre, code);
    SizeOfInstructions(code);
    assert items == (pre + code) + rest;
  }

  /** Execution steps over a label for free; a label not defined again later resolves to its place. */
  lemma AtMark(items: seq<Item>, pc: nat, l: Label, rest: seq<Item>)
    requires At(items, pc, [Mark(l)] + rest) && ReadsAs(l)
    ensures At(items, pc, rest)
    ensures Mark(l) !in rest ==> l in LabelTable(items) && LabelTable(items)[l] == pc
  {
    var pre :| items == pre + ([Mark(l)] + rest) && Size(pre) == pc;
    assert items == pre + [Mark(l)] + rest;
    assert (pre + [Mark(l)])[..|pre|] == pre;
    assert Size(pre + [Mark(l)]) == pc;
    if Mark(l) !in rest {
      LabelAt(pre, l, rest);
    }
  }

  lemma FetchAt(items: seq<Item>, labels: map<Label, nat>, program: seq<Instr>, pre: seq<Item>, x: Item,
                post: seq<Item>)
    requires Linked(items, labels, program) && items == pre + [x] + post && !x.Mark?
    ensures Size(pre) < |program| && program[Size(pre)] == Masked(Encode(x, Size(pre), labels))
  {
    assert items[|pre|] == x && items[..|pre|] == pre;
    ResolvedAt(items, labels, |pre|);
  }

  lemma {:induction false} FragmentHolds(items: seq<Item>, labels: map<Label, nat>, program: seq<Instr>, pc: nat,
                                         code: seq<Item>, rest: seq<Item>)
    requires Linked(items, labels, program) && At(items, pc, code + rest)
    requires code != [] && forall x | x in code :: !x.Mark?
    ensures Holds(program, labels, pc, code)
  {
    hide LabelTable, Resolve, Size, NoneNamedJA, Forward;
    forall j {:trigger code[j]} | 0 <= j < |code|
      ensures pc + j < |program| && program[pc + j] == Masked(Encode(code[j], pc + j, labels))
    {
      assert code + rest == code[..j] + ([code[j]] + (code[j + 1..] + rest));
      AtSkip(items, pc, code[..j], [code[j]] + (code[j + 1..] + rest));
      var pre :| items == pre + ([code[j]] + (code[j + 1..] + rest)) && Size(pre) == pc + j;
      assert items == pre + [code[j]] + (code[j + 1..] + rest);
      FetchAt(items, labels, program, pre, code[j], code[j + 1..] + rest);
    }
    assert code[|code| - 1] in code;
  }

  lemma NamesRead(items: seq<Item>, pc: nat, rest: seq<Item>)
    requires NoneNamedJA(items) && At(items, pc, rest)
    ensures forall l | Mark(l) in rest :: ReadsAs(l)
  {
  }

  /** A jump to a label still to come ends as the code at that label does. */
  lemma JumpReady(items: seq<Item>, labels: map<Label, nat>, program: seq<Instr>, pc: nat, rest: seq<Item>,
                  target: Label, last: nat, d: SeccompData, o: Outcome)
    requires d.Valid() && Linked(items, labels, program) && At(items, pc, rest)
    requires Mark(target) in rest && last < pc && o.Return?
    requires target in labels ==> Yields(program, labels[target], d, o)
    ensures JumpYields(program, labels, target, last, d, o)
  {
    var pre :| items == pre + rest && Size(pre) == pc;
    LabelAfter(pre, rest, target);
    ResolvedSize(items, labels);
    assert Run(program, labels[target], 0, d) == o;
  }

  // ---------- running a rule ----------

  ghost predicate SomeRule(rules: seq<Rule>, position: nat, d: SeccompData)
    requires d.Valid()
  {
    exists j :: position <= j < |rules| && ChecksPass(rules[j], 0, d)
  }

  const ALLOWED := Return(RET_ALLOW)
  const KILLED := Return(RET_KILL_PROCESS)

  lemma RetRuns(items: seq<Item>, labels: map<Label, nat>, program: seq<Instr>, pc: nat, k: U32, rest: seq<Item>,
                d: SeccompData)
    requires d.Valid() && Linked(items, labels, program) && At(items, pc, [Op(Instr(RET_K, k, 0, 0))] + rest)
    ensures Yields(program, pc, d, Return(k))
  {
    hide LabelTable, Resolve, Size, NoneNamedJA, Forward, At;
    var ret := [Op(Instr(RET_K, k, 0, 0))];
    FragmentHolds(items, labels, program, pc, ret, rest);
    assert ret[0].Op?;
    assert program[pc] == Instr(RET_K, k, 0, 0);
  }

  /** Where the parts of one alternative lie. */
  lemma OneRuleAt(items: seq<Item>, pc: nat, name: string, rules: seq<Rule>,
                  position: nat, rest: seq<Item>)
    requires position < |rules| && NoneNamedJA(items) && At(items, pc, OneRule(name, rules, position) + rest)
    ensures var body := RuleBody(FailTarget(name, rules, position), rules[position], 0);
            var ret := Op(Instr(RET_K, RET_ALLOW, 0, 0));
            && At(items, pc, body + ([ret] + rest)) && At(items, pc + |body|, [ret] + rest)
            && At(items, pc + |body| + 1, rest)
    ensures Mark(RuleStart(name, position)) !in rest ==>
              RuleStart(name, position) in LabelTable(items) && LabelTable(items)[RuleStart(name, position)] == pc
  {
    hide RuleBody, At;
    var l := RuleStart(name, position);
    var body, ret := RuleBody(FailTarget(name, rules, position), rules[position], 0),
        [Op(Instr(RET_K, RET_ALLOW, 0, 0))];
    BodyItems(FailTarget(name, rules, position), rules[position], 0);
    assert OneRule(name, rules, position) + rest == [Mark(l)] + (body + (ret + rest));
    NamesRead(items, pc, [Mark(l)] + (body + (ret + rest)));
    assert ([Mark(l)] + (body + (ret + rest)))[0] == Mark(l);
    AtMark(items, pc, l, body + (ret + rest));
    AtSkip(items, pc, body, ret + rest);
    AtSkip(items, pc + |body|, ret, rest);
  }

  /** One alternative: allow if every word passes, otherwise what its fail target yields. */
  lemma OneRuleRuns(items: seq<Item>, labels: map<Label, nat>, program: seq<Instr>, pc: nat, name: string,
                    rules: seq<Rule>, position: nat, rest: seq<Item>, d: SeccompData, fail: Outcome)
    requires d.Valid() && position < |rules| && fail.Return?
    requires Linked(items, labels, program) && At(items, pc, OneRule(name, rules, position) + rest)
    requires Mark(FailTarget(name, rules, position)) in rest
    requires FailTarget(name, rules, position) in labels ==>
               Yields(program, labels[FailTarget(name, rules, position)], d, fail)
    ensures Yields(program, pc, d, if ChecksPass(rules[position], 0, d) then ALLOWED else fail)
  {
    hide LabelTable, Resolve, Size, NoneNamedJA, Forward, At, OneRule, RuleBody, Run;
    var target := FailTarget(name, rules, position);
    var body, ret := RuleBody(target, rules[position], 0), [Op(Instr(RET_K, RET_ALLOW, 0, 0))];
    BodyItems(target, rules[position], 0);
    OneRuleAt(items, pc, name, rules, position, rest);
    RetRuns(items, labels, program, pc + |body|, RET_ALLOW, rest, d);
    JumpReady(items, labels, program, pc + |body| + 1, rest, target, pc + |body|, d, fail);
    if body != [] {
      FragmentHolds(items, labels, program, pc, body, ret + rest);
    }
    HoldsNothing(program, labels, pc, body, d, ALLOWED);
    BodyRuns(program, labels, pc, target, rules[position], 0, pc + |body|, d, ALLOWED, fail);
  }

  /** A position that yields a return value is inside the program. */
  lemma HoldsNothing(program: seq<Instr>, labels: map<Label, nat>, pc: nat, code: seq<Item>, d: SeccompData, o: Outcome)
    requires d.Valid() && o.Return? && Yields(program, pc + |code|, d, o)
    ensures code == [] ==> Holds(program, labels, pc, code)
  {
    assert Run(program, pc + |code|, 0, d) == o;
  }

  lemma {:induction false} RulesMarks(name: string, rules: seq<Rule>, position: nat)
    requires position <= |rules|
    ensures forall l | Mark(l) in RulesCode(name, rules, position) ::
              l.RuleStart? && l.name == name && l.position >= position
    decreases |rules| - position
  {
    if position < |rules| {
      RulesMarks(name, rules, position + 1);
      BodyItems(FailTarget(name, rules, position), rules[position], 0);
    }
  }

  /** The ordered alternatives of one entry: where they end, and, if there are any, that they
      allow when one passes and kill otherwise. */
  lemma {:induction false} RulesRun(items: seq<Item>, labels: map<Label, nat>, program: seq<Instr>, pc: nat,
                                    name: string, rules: seq<Rule>, position: nat, rest: seq<Item>, d: SeccompData)
    requires d.Valid() && position <= |rules|
    requires Linked(items, labels, program) && At(items, pc, RulesCode(name, rules, position) + rest)
    requires Mark(Kill) in rest && (forall l | Mark(l) in rest :: l.Kill? || l.name != name)
    requires Kill in labels ==> Yields(program, labels[Kill], d, KILLED)
    ensures position < |rules| ==> Yields(program, pc, d, if SomeRule(rules, position, d) then ALLOWED else KILLED)
    ensures 0 < position < |rules| ==>
              RuleStart(name, position) in labels && labels[RuleStart(name, position)] == pc
    decreases |rules| - position
  {
    hide LabelTable, Resolve, Size, NoneNamedJA, Forward, At, OneRule, Yields, SomeRule, ChecksPass;
    if position < |rules| {
      var tail := RulesCode(name, rules, position + 1) + rest;
      var next := pc + |RuleBody(FailTarget(name, rules, position), rules[position], 0)| + 1;
      Associative(OneRule(name, rules, position), RulesCode(name, rules, position + 1), rest);
      OneRuleAt(items, pc, name, rules, position, tail);
      RulesMarks(name, rules, position + 1);
      SomeRuleStep(rules, position, d);
      RulesRun(items, labels, program, next, name, rules, position + 1, rest, d);
      RulesStartMark(name, rules, position + 1);
      var o := if SomeRule(rules, position + 1, d) then ALLOWED else KILLED;
      OneRuleRuns(items, labels, program, pc, name, rules, position, tail, d, o);
    }
  }

  lemma SomeRuleStep(rules: seq<Rule>, position: nat, d: SeccompData)
    requires d.Valid() && position < |rules|
    ensures SomeRule(rules, position, d) <==> ChecksPass(rules[position], 0, d) || SomeRule(rules, position + 1, d)
    ensures !SomeRule(rules, |rules|, d)
  {
  }

  lemma {:induction false} RulesAt(items: seq<Item>, pc: nat, name: string,
                                   rules: seq<Rule>, position: nat, rest: seq<Item>)
    requires position <= |rules|
    requires NoneNamedJA(items) && At(items, pc, RulesCode(name, rules, position) + rest)
    ensures At(items, pc + RulesLength(rules, position), rest)
    decreases |rules| - position
  {
    hide NoneNamedJA, LabelTable, At, OneRule;
    if position == |rules| {
      assert RulesCode(name, rules, position) + rest == rest;
    } else {
      var tail := RulesCode(name, rules, position + 1) + rest;
      Associative(OneRule(name, rules, position), RulesCode(name, rules, position + 1), rest);
      OneRuleAt(items, pc, name, rules, position, tail);
      BodySize(FailTarget(name, rules, position), rules[position], 0);
      RulesAt(items, pc + ChecksLength(rules[position], 0) + 1, name, rules, position + 1, rest);
    }
  }

  // ---------- running the entries ----------

  /** The first entry with the number of the call and at least one rule decides; none kills. */
  ghost predicate Decides(inventory: Inventory, position: nat, d: SeccompData)
    requires d.Valid() && position <= |inventory|
    decreases |inventory| - position
  {
    if position == |inventory| then false
    else if inventory[position].number % 0x1_0000_0000 == d.nr && inventory[position].rules != [] then
      SomeRule(inventory[position].rules, 0, d)
    else Decides(inventory, position + 1, d)
  }

  lemma {:induction false} EntriesMarks(inventory: Inventory, position: nat)
    requires position <= |inventory|
    ensures forall l | Mark(l) in EntriesCode(inventory, position) ::
              !l.Kill? && exists i :: position <= i < |inventory| && inventory[i].name == l.name
    decreases |inventory| - position
  {
    hide RulesCode;
    if position < |inventory| {
      EntriesMarks(inventory, position + 1);
      RulesMarks(inventory[position].name, inventory[position].rules, 0);
    }
  }

  /** Where the parts of one entry lie. */
  lemma EntryAt(items: seq<Item>, pc: nat, inventory: Inventory, position: nat,
                rest: seq<Item>)
    requires position < |inventory| && NoneNamedJA(items)
    requires At(items, pc, EntryCode(inventory, position) + rest)
    ensures var head := EntryHead(inventory, position)[1..];
            var rules := RulesCode(inventory[position].name, inventory[position].rules, 0);
            At(items, pc, head + (rules + rest)) && At(items, pc + 3, rules + rest)
    ensures Mark(Entry(inventory[position].name)) !in rest ==>
              && Entry(inventory[position].name) in LabelTable(items)
              && LabelTable(items)[Entry(inventory[position].name)] == pc
  {
    hide At, RulesCode;
    var l := Entry(inventory[position].name);
    var head := EntryHead(inventory, position)[1..];
    var rules := RulesCode(inventory[position].name, inventory[position].rules, 0);
    RulesMarks(inventory[position].name, inventory[position].rules, 0);
    assert EntryHead(inventory, position) == [Mark(l)] + head;
    assert EntryCode(inventory, position) + rest == [Mark(l)] + (head + (rules + rest));
    NamesRead(items, pc, [Mark(l)] + (head + (rules + rest)));
    assert ([Mark(l)] + (head + (rules + rest)))[0] == Mark(l);
    AtMark(items, pc, l, head + (rules + rest));
    AtSkip(items, pc, head, rules + rest);
  }

  /** One entry: its rules if the number is its own and it has any, otherwise what follows. */
  lemma EntryRuns(items: seq<Item>, labels: map<Label, nat>, program: seq<Instr>, pc: nat, inventory: Inventory,
                  position: nat, rest: seq<Item>, d: SeccompData, next: Outcome)
    requires d.Valid() && position < |inventory| && next.Return?
    requires Linked(items, labels, program) && At(items, pc, EntryCode(inventory, position) + rest)
    requires Mark(Kill) in rest && Mark(NextEntry(inventory, position)) in rest
    requires forall l | Mark(l) in rest :: l.Kill? || l.name != inventory[position].name
    requires Kill in labels && Yields(program, labels[Kill], d, KILLED)
    requires NextEntry(inventory, position) in labels
               && Yields(program, labels[NextEntry(inventory, position)], d, next)
    requires inventory[position].rules == [] ==> Yields(program, pc + 3, d, next)
    ensures Yields(program, pc, d,
                   if inventory[position].number % 0x1_0000_0000 == d.nr && inventory[position].rules != [] then
                     if SomeRule(inventory[position].rules, 0, d) then ALLOWED else KILLED
                   else next)
  {
    hide LabelTable, Resolve, Size, NoneNamedJA, Forward, At, EntryCode, RulesCode, SomeRule, Run;
    var e := inventory[position];
    var rules := RulesCode(e.name, e.rules, 0) + rest;
    var target := NextEntry(inventory, position);
    var equal := Instr(JEQ_K, e.number, 1, 0);
    var head := [Op(Instr(LD_W_ABS, OFFSET_NR, 0, 0)), Op(equal), Jump(target)];
    var pass := if e.rules == [] then next else if SomeRule(e.rules, 0, d) then ALLOWED else KILLED;
    EntryAt(items, pc, inventory, position, rest);
    assert EntryHead(inventory, position)[1..] == head;
    FragmentHolds(items, labels, program, pc, head, rules);
    RulesRun(items, labels, program, pc + 3, e.name, e.rules, 0, rest, d);
    JumpReady(items, labels, program, pc + 3, rules, target, pc + 2, d, next);
    assert Run(program, pc + 3, d.nr, d) == pass;
    LoadGuardRuns(program, labels, pc, OFFSET_NR, equal, d.nr, target, pc + 2, d, pass, next);
  }

  lemma FooterRuns(items: seq<Item>, labels: map<Label, nat>, program: seq<Instr>, pc: nat, d: SeccompData)
    requires d.Valid() && Linked(items, labels, program) && At(items, pc, Footer())
    ensures Kill in labels && labels[Kill] == pc && Yields(program, pc, d, KILLED)
  {
    hide At, Size;
    var ret := [Op(Instr(RET_K, RET_KILL_PROCESS, 0, 0))];
    assert Footer() == [Mark(Kill)] + ret && ret + [] == ret;
    AtMark(items, pc, Kill, ret);
    RetRuns(items, labels, program, pc, RET_KILL_PROCESS, [], d);
  }

  lemma EntriesCodeStep(inventory: Inventory, position: nat)
    requires position <= |inventory|
    ensures EntriesCode(inventory, position) ==
            if position == |inventory| then []
            else EntryCode(inventory, position) + EntriesCode(inventory, position + 1)
  {
  }

  lemma NoRulesNoLength(rules: seq<Rule>)
    requires rules == []
    ensures RulesLength(rules, 0) == 0
  {
  }

  /** What follows an entry lies behind its rules, and its label is where it starts. */
  lemma AfterEntry(items: seq<Item>, labels: map<Label, nat>, program: seq<Instr>, pc: nat, inventory: Inventory,
                   position: nat, rest: seq<Item>)
    requires position < |inventory| && Linked(items, labels, program)
    requires At(items, pc, EntryCode(inventory, position) + rest)
    ensures At(items, pc + 3 + RulesLength(inventory[position].rules, 0), rest)
    ensures Mark(Entry(inventory[position].name)) !in rest ==>
              Entry(inventory[position].name) in labels && labels[Entry(inventory[position].name)] == pc
  {
    hide LabelTable, Resolve, Size, NoneNamedJA, Forward, At, EntryCode, RulesCode, RulesLength;
    EntryAt(items, pc, inventory, position, rest);
    RulesAt(items, pc + 3, inventory[position].name, inventory[position].rules, 0, rest);
  }

  lemma {:induction false} EntriesRun(items: seq<Item>, labels: map<Label, nat>, program: seq<Instr>, pc: nat,
                                      inventory: Inventory, position: nat, d: SeccompData)
    requires d.Valid() && position <= |inventory| && Named(inventory)
    requires Linked(items, labels, program) && At(items, pc, EntriesCode(inventory, position) + Footer())
    ensures Kill in labels && Yields(program, labels[Kill], d, KILLED)
    ensures Yields(program, pc, d, if Decides(inventory, position, d) then ALLOWED else KILLED)
    ensures position < |inventory| ==>
              Entry(inventory[position].name) in labels && labels[Entry(inventory[position].name)] == pc
    decreases |inventory| - position
  {
    hide Linked, At, EntryCode, Footer, Yields, SomeRule, EntriesCode, SeccompData.Valid, RulesLength;
    EntriesCodeStep(inventory, position);
    if position == |inventory| {
      assert EntriesCode(inventory, position) + Footer() == Footer();
      FooterRuns(items, labels, program, pc, d);
    } else {
      var e := inventory[position];
      var rest := EntriesCode(inventory, position + 1) + Footer();
      var next := pc + 3 + RulesLength(e.rules, 0);
      Associative(EntryCode(inventory, position), EntriesCode(inventory, position + 1), Footer());
      AfterEntry(items, labels, program, pc, inventory, position, rest);
      EntriesRun(items, labels, program, next, inventory, position + 1, d);
      RestMarks(inventory, position);
      if e.rules == [] {
        NoRulesNoLength(e.rules);
      }
      EntryRuns(items, labels, program, pc, inventory, position, rest, d,
                if Decides(inventory, position + 1, d) then ALLOWED else KILLED);
    }
  }

  /** The labels defined after an entry: none of its own, and the one its failure goes to. */
  lemma RestMarks(inventory: Inventory, position: nat)
    requires position < |inventory| && Named(inventory)
    ensures var rest := EntriesCode(inventory, position + 1) + Footer();
            && Mark(Kill) in rest && Mark(NextEntry(inventory, position)) in rest
            && (forall l | Mark(l) in rest :: l.Kill? || l.name != inventory[position].name)
  {
    FooterMarks(EntriesCode(inventory, position + 1));
    EntriesMarks(inventory, position + 1);
    if position + 1 < |inventory| {
      EntryMarkPresent(inventory, position + 1, position + 1);
    }
  }

  lemma {:induction false} EntriesAt(items: seq<Item>, pc: nat, inventory: Inventory,
                                     position: nat, rest: seq<Item>)
    requires position <= |inventory|
    requires NoneNamedJA(items) && At(items, pc, EntriesCode(inventory, position) + rest)
    ensures At(items, pc + EntriesLength(inventory, position), rest)
    decreases |inventory| - position
  {
    hide NoneNamedJA, LabelTable, At, EntryCode;
    if position == |inventory| {
      assert EntriesCode(inventory, position) + rest == rest;
    } else {
      var e := inventory[position];
      var tail := EntriesCode(inventory, position + 1) + rest;
      Associative(EntryCode(inventory, position), EntriesCode(inventory, position + 1), rest);
      EntryAt(items, pc, inventory, position, tail);
      RulesAt(items, pc + 3, e.name, e.rules, 0, tail);
      EntriesAt(items, pc + 3 + RulesLength(e.rules, 0), inventory, position + 1, rest);
    }
  }

  // ---------- the theorems ----------

  lemma EmitNames(inventory: Inventory)
    requires forall e | e in inventory :: e.name != "JA"
    ensures NoneNamedJA(Emit(inventory))
  {
    EntriesMarks(inventory, 0);
  }

  lemma HeaderFacts()
    ensures |Header()| == 6 && forall x | x in Header() :: !x.Mark? && (x.Jump? ==> x.target == Kill)
  {
  }

  lemma HeaderAt(inventory: Inventory)
    ensures At(Emit(inventory), 0, Header() + (EntriesCode(inventory, 0) + Footer()))
    ensures At(Emit(inventory), 6, EntriesCode(inventory, 0) + Footer())
  {
    hide Header, Footer, EntriesCode;
    HeaderFacts();
    var rest := EntriesCode(inventory, 0) + Footer();
    assert Emit(inventory) == [] + (Header() + rest);
    assert Size([]) == 0;
    AtSkip(Emit(inventory), 0, Header(), rest);
  }

  lemma EmitSize(inventory: Inventory)
    requires NoneNamedJA(Emit(inventory))
    ensures Size(Emit(inventory)) == ProgramLength(inventory)
  {
    hide EntriesCode, NoneNamedJA, Header, LabelTable;
    var items := Emit(inventory);
    var pc := 6 + EntriesLength(inventory, 0);
    var ret := [Op(Instr(RET_K, RET_KILL_PROCESS, 0, 0))];
    HeaderAt(inventory);
    EntriesAt(items, 6, inventory, 0, Footer());
    assert Footer() == [Mark(Kill)] + (ret + []);
    AtMark(items, pc, Kill, ret + []);
    AtSkip(items, pc, ret, []);
    var pre :| items == pre + [] && Size(pre) == pc + 1;
    assert pre == items;
  }

  lemma Assembled(items: seq<Item>)
    requires Forward(items) && NoneNamedJA(items)
    ensures Resolve(items, LabelTable(items)).Success?
    ensures Assemble(items).Success? && |Assemble(items).value| == 8 * Size(items) && |Assemble(items).value| % 8 == 0
    ensures DecodeProgram(Assemble(items).value) == MaskedAll(Resolve(items, LabelTable(items)).value)
  {
    hide LabelTable, Size;
    ResolveForward(items, |items|);
    assert items[..|items|] == items;
    ResolvedSize(items, LabelTable(items));
    DecodeJoinedPack(Resolve(items, LabelTable(items)).value);
  }

  /** The packed program of an inventory with no syscall called "JA". */
  lemma CompiledProgram(inventory: Inventory)
    requires forall e | e in inventory :: e.name != "JA"
    ensures Compile(inventory).Success? && |Compile(inventory).value| == 8 * ProgramLength(inventory)
    ensures |Compile(inventory).value| % 8 == 0
    ensures ProgramLength(inventory) <= 0x1_0000_0000 ==>
              Linked(Emit(inventory), LabelTable(Emit(inventory)), DecodeProgram(Compile(inventory).value))
  {
    hide Emit, LabelTable, Resolve, Size;
    EmitForward(inventory);
    EmitNames(inventory);
    EmitSize(inventory);
    Assembled(Emit(inventory));
  }

  /** A compile succeeds unless a syscall is called "JA"; the backward-jump and count failures
      never happen, and the length is known in advance. */
  lemma CompileSucceedsIff(inventory: Inventory)
    ensures Compile(inventory).Success? <==> forall e | e in inventory :: e.name != "JA"
    ensures Compile(inventory).Failure? ==> Compile(inventory).error == KeyError
    ensures Compile(inventory).Success? ==> |Compile(inventory).value| == 8 * ProgramLength(inventory)
  {
    hide LabelTable, Resolve, Size, Forward, Pack, EntriesCode;
    var items := Emit(inventory);
    EmitForward(inventory);
    if forall e | e in inventory :: e.name != "JA" {
      CompiledProgram(inventory);
    } else {
      var i :| 0 <= i < |inventory| && inventory[i].name == "JA";
      EntryMarkPresent(inventory, 0, i);
      assert Mark(Entry("JA")) in items;
      var p :| 0 <= p < |items| && items[p] == Mark(Entry("JA"));
      ResolveFailsAt(items, LabelTable(items), p, |items|);
      assert items[..|items|] == items;
    }
  }

  /** A label read as a jump has no target: the pass stops with a missing key, there or before. */
  lemma {:induction false} ResolveFailsAt(items: seq<Item>, labels: map<Label, nat>, p: nat, n: nat)
    requires p < n <= |items| && Forward(items) && labels == LabelTable(items)
    requires Read(items[p]) == Branch(None)
    ensures Resolve(items[..n], labels) == Failure(KeyError)
  {
    var m := n - 1;
    assert items[..n][..m] == items[..m];
    OnlyKeyErrors(items, labels, m);
    if p < m {
      ResolveFailsAt(items, labels, p, m);
    }
  }

  lemma KnownJumpForward(items: seq<Item>, m: nat)
    requires m < |items| && Forward(items) && items[m].Jump? && items[m].target in LabelTable(items)
    ensures LabelTable(items)[items[m].target] > Size(items[..m])
  {
    ForwardAt(items, m);
    assert items[..m + 1] + items[m + 1..] == items && items[..m + 1] == items[..m] + [items[m]];
    if ReadsAs(items[m].target) {
      LabelAfter(items[..m + 1], items[m + 1..], items[m].target);
    } else {
      LabelTableDomain(items, items[m].target);
    }
  }

  lemma {:induction false} OnlyKeyErrors(items: seq<Item>, labels: map<Label, nat>, n: nat)
    requires n <= |items| && Forward(items) && labels == LabelTable(items)
    ensures Resolve(items[..n], labels).Failure? ==> Resolve(items[..n], labels).error == KeyError
  {
    hide LabelTable, Forward, Size, ReadsAs;
    if n > 0 {
      var m := n - 1;
      assert items[..n][..m] == items[..m];
      OnlyKeyErrors(items, labels, m);
      if Resolve(items[..m], labels).Success? && items[m].Jump? && items[m].target in labels {
        ResolvedSize(items[..m], labels);
        KnownJumpForward(items, m);
      }
    }
  }

  lemma ArchGuardRuns(program: seq<Instr>, labels: map<Label, nat>, d: SeccompData, rest: Outcome)
    requires d.Valid() && Holds(program, labels, 0, Header())
    requires JumpYields(program, labels, Kill, 5, d, KILLED)
    requires Yields(program, 6, d, rest)
    ensures Run(program, 0, 0, d) == if d.arch == AUDIT_ARCH_X86_64 && d.nr < X32_SYSCALL_BIT then rest else KILLED
  {
    HoldsSlice(program, labels, 0, Header(), 0, 3);
    HoldsSlice(program, labels, 0, Header(), 3, 6);
    X32GuardRuns(program, labels, d, rest);
    var inner := if d.nr < X32_SYSCALL_BIT then rest else KILLED;
    assert Run(program, 3, d.arch, d) == inner;
    assert Header()[0..3] == [Op(Instr(LD_W_ABS, OFFSET_ARCH, 0, 0)), Op(Instr(JEQ_K, AUDIT_ARCH_X86_64, 1, 0)),
                              Jump(Kill)];
    LoadGuardRuns(program, labels, 0, OFFSET_ARCH, Instr(JEQ_K, AUDIT_ARCH_X86_64, 1, 0), d.arch, Kill, 5, d, inner,
                  KILLED);
  }

  /** The x32 check falls into the kill jump when the marker bit makes the number large. */
  lemma X32GuardRuns(program: seq<Instr>, labels: map<Label, nat>, d: SeccompData, rest: Outcome)
    requires d.Valid() && Holds(program, labels, 3, Header()[3..6])
    requires JumpYields(program, labels, Kill, 5, d, KILLED)
    requires Yields(program, 6, d, rest)
    ensures Yields(program, 3, d, if d.nr < X32_SYSCALL_BIT then rest else KILLED)
  {
    var code := Header()[3..6];
    assert code[0].Op? && code[1].Op? && code[2].Jump?;
    assert program[3] == Instr(LD_W_ABS, OFFSET_NR, 0, 0) && program[4] == Instr(JGE_K, X32_SYSCALL_BIT, 0, 1);
    JumpTaken(program, labels, Kill, 5, 5, d, KILLED);
    var nr := d.nr;
    assert Run(program, 5, nr, d) == KILLED && Run(program, 6, nr, d) == rest;
    assert Run(program, 4, nr, d) == if nr >= X32_SYSCALL_BIT then KILLED else rest;
    forall a: U32
      ensures Run(program, 3, a, d) == Run(program, 4, nr, d)
    {
    }
  }

  /** The filter decides by the first entry with the number of the call that has a rule at all,
      for every inventory with distinct names, whatever its numbers and constants. */
  lemma CompiledDecision(inventory: Inventory, d: SeccompData)
    requires Named(inventory) && d.Valid() && ProgramLength(inventory) <= 0x1_0000_0000
    ensures Compile(inventory).Success? && |Compile(inventory).value| % 8 == 0
    ensures RunBytes(Compile(inventory).value, d) ==
            if d.arch == 0xC000_003E && d.nr < 0x4000_0000 && Decides(inventory, 0, d)
            then Return(0x7FFF_0000) else Return(0x8000_0000)
  {
    hide Header, Footer, Emit, EntriesCode, Compile, LabelTable, Resolve, Size, Forward, NoneNamedJA, At, Run, Decides;
    CompiledProgram(inventory);
    var items, program := Emit(inventory), DecodeProgram(Compile(inventory).value);
    var labels := LabelTable(items);
    var post := EntriesCode(inventory, 0) + Footer();
    HeaderAt(inventory);
    HeaderFacts();
    FragmentHolds(items, labels, program, 0, Header(), post);
    EntriesRun(items, labels, program, 6, inventory, 0, d);
    FooterMarks(EntriesCode(inventory, 0));
    JumpReady(items, labels, program, 6, post, Kill, 5, d, KILLED);
    ArchGuardRuns(program, labels, d, if Decides(inventory, 0, d) then ALLOWED else KILLED);
  }

  ghost predicate Faithful(inventory: Inventory) {
    forall e, r: Rule, i | e in inventory && r in e.rules && 0 <= i < ARG_WORDS :: Representable(r[i])
  }

  lemma {:induction false} DecidesIsPermits(inventory: Inventory, position: nat, d: SeccompData)
    requires d.Valid() && position <= |inventory| && Numbered(inventory) && Faithful(inventory)
    ensures Decides(inventory, position, d) <==>
            exists i, r ::
              position <= i < |inventory| && r in inventory[i].rules && inventory[i].number == d.nr && RuleMatches(r, d)
    decreases |inventory| - position
  {
    if position < |inventory| {
      DecidesIsPermits(inventory, position + 1, d);
      var e := inventory[position];
      assert e in inventory;
      forall r | r in e.rules
        ensures ChecksPass(r, 0, d) == RuleMatches(r, d)
      {
        forall i | 0 <= i < ARG_WORDS
          ensures CheckPasses(r[i], d.args[i]) == Matches(r[i], d.args[i])
        {
          CheckFaithfulIffRepresentable(r[i]);
        }
      }
    }
  }

  /** Compiler correctness: the compiled filter allows a call exactly when the policy permits it,
      and kills the process otherwise. */
  lemma CompilerCorrect(inventory: Inventory, d: SeccompData)
    requires Named(inventory) && Numbered(inventory) && Faithful(inventory)
    requires d.Valid() && ProgramLength(inventory) <= 0x1_0000_0000
    ensures Compile(inventory).Success? && |Compile(inventory).value| % 8 == 0
    ensures RunBytes(Compile(inventory).value, d)
              == if Permits(inventory, d) then Return(0x7FFF_0000) else Return(0x8000_0000)
  {
    CompiledDecision(inventory, d);
    DecidesIsPermits(inventory, 0, d);
  }
}
