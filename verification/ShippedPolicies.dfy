/** The two inventories the gate ships, and the digest preimage of a compiled program. */
module ShippedPolicies {
  import opened Bytes
  import opened CbpfMachine
  import opened PolicyCompiler
  import opened CompilerCorrectness
  import opened PolicyDocument
  import opened Sorting

  const ZERO := ArgSpec(Zero, 0, 0)
  const ADDRESS := ArgSpec(Pointer, 0, 0)
  const SCALAR := ArgSpec(Scalar, 0, 0)

  function Is(k: nat): ArgSpec {
    ArgSpec(Exact, k, 0)
  }

  function RuleOf(first: ArgSpec, second: ArgSpec, third: ArgSpec): Rule {
    [first, second, third, ZERO, ZERO, ZERO]
  }

  const READ := SyscallEntry("read", 0, "CANDIDATE_VERIFY", [RuleOf(Is(3), ADDRESS, ArgSpec(Range, 1, 184))])
  const WRITE := SyscallEntry("write", 1, "CANDIDATE_RESPONSE", [RuleOf(Is(4), ADDRESS, ArgSpec(Range, 1, 8))])
  const EXIT_GROUP := SyscallEntry("exit_group", 231, "PROCESS_EXIT", [RuleOf(SCALAR, ZERO, ZERO)])
  const CLOSE :=
    SyscallEntry("close", 3, "CANDIDATE_BOOTSTRAP",
                 [RuleOf(Is(0), ZERO, ZERO), RuleOf(Is(1), ZERO, ZERO), RuleOf(Is(2), ZERO, ZERO)])
  const EXECVE := SyscallEntry("execve", 59, "LAUNCH_TRANSITION", [RuleOf(ADDRESS, ADDRESS, ADDRESS)])
  const PRCTL :=
    SyscallEntry("prctl", 157, "CANDIDATE_BOOTSTRAP", [RuleOf(Is(4), Is(0), ZERO), RuleOf(Is(38), Is(1), ZERO)])
  const SECCOMP := SyscallEntry("seccomp", 317, "CANDIDATE_BOOTSTRAP", [RuleOf(Is(1), Is(0), ADDRESS)])
  const CLOSE_RANGE := SyscallEntry("close_range", 436, "CANDIDATE_BOOTSTRAP", [RuleOf(Is(5), Is(4294967295), Is(0))])

  const INTERNAL: Inventory := [READ, WRITE, EXIT_GROUP]
  const OUTER: Inventory := [READ, WRITE, CLOSE, EXECVE, PRCTL, EXIT_GROUP, SECCOMP, CLOSE_RANGE]

  lemma RuleOfLength(a: ArgSpec, b: ArgSpec, c: ArgSpec)
    ensures ChecksLength(RuleOf(a, b, c), 0) == CheckLength(a) + CheckLength(b) + CheckLength(c) + 18
  {
    var r := RuleOf(a, b, c);
    assert ChecksLength(r, 4) == 12 by { assert ChecksLength(r, 5) == 6; }
    assert ChecksLength(r, 2) == CheckLength(c) + 18 by { assert ChecksLength(r, 3) == 18; }
    assert ChecksLength(r, 1) == CheckLength(b) + CheckLength(c) + 18;
  }

  lemma OneRuleLength(a: ArgSpec, b: ArgSpec, c: ArgSpec)
    ensures RulesLength([RuleOf(a, b, c)], 0) == CheckLength(a) + CheckLength(b) + CheckLength(c) + 19
  {
    RuleOfLength(a, b, c);
    assert RulesLength([RuleOf(a, b, c)], 1) == 0;
  }

  lemma EntryLengths()
    ensures RulesLength(READ.rules, 0) == 33 && RulesLength(WRITE.rules, 0) == 33
              && RulesLength(EXIT_GROUP.rules, 0) == 31
    ensures RulesLength(EXECVE.rules, 0) == 19 && RulesLength(SECCOMP.rules, 0) == 31
              && RulesLength(CLOSE_RANGE.rules, 0) == 37
    ensures RulesLength(CLOSE.rules, 0) == 111 && RulesLength(PRCTL.rules, 0) == 74
  {
    OneRuleLength(Is(3), ADDRESS, ArgSpec(Range, 1, 184));
    OneRuleLength(Is(4), ADDRESS, ArgSpec(Range, 1, 8));
    OneRuleLength(SCALAR, ZERO, ZERO);
    OneRuleLength(ADDRESS, ADDRESS, ADDRESS);
    OneRuleLength(Is(1), Is(0), ADDRESS);
    OneRuleLength(Is(5), Is(4294967295), Is(0));
    SeveralRulesLength();
  }

  lemma SeveralRulesLength()
    ensures RulesLength(CLOSE.rules, 0) == 111 && RulesLength(PRCTL.rules, 0) == 74
  {
    RuleOfLength(Is(0), ZERO, ZERO);
    RuleOfLength(Is(1), ZERO, ZERO);
    RuleOfLength(Is(2), ZERO, ZERO);
    RuleOfLength(Is(4), Is(0), ZERO);
    RuleOfLength(Is(38), Is(1), ZERO);
    assert RulesLength(CLOSE.rules, 1) == 74 by { assert RulesLength(CLOSE.rules, 2) == 37; }
    assert RulesLength(PRCTL.rules, 1) == 37;
  }

  /** The instruction counts the gate freezes for its two policies. */
  lemma ShippedLengths()
    ensures ProgramLength(INTERNAL) == 113 && ProgramLength(OUTER) == 400
  {
    EntryLengths();
    assert EntriesLength(INTERNAL, 2) == 34 by { assert EntriesLength(INTERNAL, 3) == 0; }
    assert EntriesLength(INTERNAL, 1) == 70;
    assert EntriesLength(OUTER, 7) == 40 by { assert EntriesLength(OUTER, 8) == 0; }
    assert EntriesLength(OUTER, 6) == 74;
    assert EntriesLength(OUTER, 5) == 108;
    assert EntriesLength(OUTER, 4) == 185;
    assert EntriesLength(OUTER, 3) == 207;
    assert EntriesLength(OUTER, 2) == 321;
    assert EntriesLength(OUTER, 1) == 357;
  }

  lemma RuleOfFaithful(a: ArgSpec, b: ArgSpec, c: ArgSpec)
    requires Representable(a) && Representable(b) && Representable(c)
    ensures forall i | 0 <= i < ARG_WORDS :: Representable(RuleOf(a, b, c)[i])
  {
  }

  predicate FaithfulEntry(e: SyscallEntry) {
    forall j, i | 0 <= j < |e.rules| && 0 <= i < ARG_WORDS :: Representable(e.rules[j][i])
  }

  lemma ShippedFaithful(e: SyscallEntry)
    requires e in OUTER
    ensures FaithfulEntry(e)
  {
    hide RuleOf;
    RuleOfFaithful(Is(3), ADDRESS, ArgSpec(Range, 1, 184));
    RuleOfFaithful(Is(4), ADDRESS, ArgSpec(Range, 1, 8));
    RuleOfFaithful(SCALAR, ZERO, ZERO);
    RuleOfFaithful(Is(0), ZERO, ZERO);
    RuleOfFaithful(Is(1), ZERO, ZERO);
    RuleOfFaithful(Is(2), ZERO, ZERO);
    RuleOfFaithful(ADDRESS, ADDRESS, ADDRESS);
    RuleOfFaithful(Is(4), Is(0), ZERO);
    RuleOfFaithful(Is(38), Is(1), ZERO);
    RuleOfFaithful(Is(1), Is(0), ADDRESS);
    RuleOfFaithful(Is(5), Is(4294967295), Is(0));
  }

  lemma ShippedNamed()
    ensures Named(INTERNAL) && Named(OUTER)
  {
    hide RuleOf;
    assert |READ.name| == 4 && |WRITE.name| == 5 && |CLOSE.name| == 5 && |EXECVE.name| == 6 && |PRCTL.name| == 5;
    assert |EXIT_GROUP.name| == 10 && |SECCOMP.name| == 7 && |CLOSE_RANGE.name| == 11;
    assert WRITE.name[0] == 'w' && CLOSE.name[0] == 'c' && PRCTL.name[0] == 'p';
  }

  lemma ShippedNumbered()
    ensures Numbered(INTERNAL) && Numbered(OUTER)
  {
    hide RuleOf;
  }

  lemma ShippedWellFormed(inventory: Inventory)
    requires inventory == INTERNAL || inventory == OUTER
    ensures Named(inventory) && Numbered(inventory) && Faithful(inventory)
  {
    hide RuleOf, Named, Numbered, Representable;
    ShippedNamed();
    ShippedNumbered();
    forall e, r: Rule, i | e in inventory && r in e.rules && 0 <= i < ARG_WORDS
      ensures Representable(r[i])
    {
      assert e in OUTER;
      ShippedFaithful(e);
      var j :| 0 <= j < |e.rules| && e.rules[j] == r;
      assert Representable(e.rules[j][i]);
    }
  }

  /** Both shipped filters allow exactly the calls their policies permit. */
  lemma ShippedFiltersCorrect(inventory: Inventory, d: SeccompData)
    requires inventory == INTERNAL || inventory == OUTER
    requires d.Valid()
    ensures Compile(inventory).Success?
    ensures |Compile(inventory).value| == 8 * (if inventory == INTERNAL then 113 else 400)
    ensures RunBytes(Compile(inventory).value, d)
              == if Permits(inventory, d) then Return(0x7FFF_0000) else Return(0x8000_0000)
  {
    ShippedLengths();
    ShippedWellFormed(inventory);
    CompileSucceedsIff(inventory);
    CompilerCorrect(inventory, d);
  }

  // ---------- what the shipped filters allow, in numbers ----------

  /** A rule that leaves its last three words zero. */
  lemma RuleOfMatches(first: ArgSpec, second: ArgSpec, third: ArgSpec, d: SeccompData)
    requires d.Valid()
    ensures RuleMatches(RuleOf(first, second, third), d) <==>
            && Matches(first, d.args[0]) && Matches(second, d.args[1]) && Matches(third, d.args[2])
            && d.args[3] == 0 && d.args[4] == 0 && d.args[5] == 0
  {
    var r := RuleOf(first, second, third);
    if Matches(first, d.args[0]) && Matches(second, d.args[1]) && Matches(third, d.args[2])
       && d.args[3] == 0 && d.args[4] == 0 && d.args[5] == 0 {
      assert forall i | 0 <= i < ARG_WORDS :: Matches(r[i], d.args[i]);
    }
    if RuleMatches(r, d) {
      assert Matches(r[0], d.args[0]) && Matches(r[1], d.args[1]) && Matches(r[2], d.args[2]);
      assert Matches(r[3], d.args[3]) && Matches(r[4], d.args[4]) && Matches(r[5], d.args[5]);
    }
  }

  ghost predicate SomeRuleMatches(e: SyscallEntry, d: SeccompData)
    requires d.Valid()
  {
    exists r :: r in e.rules && RuleMatches(r, d)
  }

  predicate TailZero(d: SeccompData)
    requires d.Valid()
  {
    d.args[3] == 0 && d.args[4] == 0 && d.args[5] == 0
  }

  /** Reading the request, writing the response, and leaving. */
  lemma TransferRules(d: SeccompData)
    requires d.Valid()
    ensures SomeRuleMatches(READ, d) <==> d.args[0] == 3 && 1 <= d.args[2] <= 184 && TailZero(d)
    ensures SomeRuleMatches(WRITE, d) <==> d.args[0] == 4 && 1 <= d.args[2] <= 8 && TailZero(d)
    ensures SomeRuleMatches(EXIT_GROUP, d) <==> d.args[1] == 0 && d.args[2] == 0 && TailZero(d)
  {
    hide RuleOf, RuleMatches;
    RuleOfMatches(Is(3), ADDRESS, ArgSpec(Range, 1, 184), d);
    RuleOfMatches(Is(4), ADDRESS, ArgSpec(Range, 1, 8), d);
    RuleOfMatches(SCALAR, ZERO, ZERO, d);
    assert READ.rules[0] in READ.rules && WRITE.rules[0] in WRITE.rules && EXIT_GROUP.rules[0] in EXIT_GROUP.rules;
  }

  /** Closing descriptors and leaving the launcher. */
  lemma LaunchRules(d: SeccompData)
    requires d.Valid()
    ensures SomeRuleMatches(CLOSE, d) <==> d.args[0] <= 2 && d.args[1] == 0 && d.args[2] == 0 && TailZero(d)
    ensures SomeRuleMatches(CLOSE_RANGE, d) <==>
            d.args[0] == 5 && d.args[1] == 0xFFFF_FFFF && d.args[2] == 0 && TailZero(d)
    ensures SomeRuleMatches(EXECVE, d) <==> TailZero(d)
  {
    hide RuleOf, RuleMatches;
    RuleOfMatches(Is(0), ZERO, ZERO, d);
    RuleOfMatches(Is(1), ZERO, ZERO, d);
    RuleOfMatches(Is(2), ZERO, ZERO, d);
    RuleOfMatches(Is(5), Is(4294967295), Is(0), d);
    RuleOfMatches(ADDRESS, ADDRESS, ADDRESS, d);
    assert CLOSE.rules[0] in CLOSE.rules && CLOSE.rules[1] in CLOSE.rules && CLOSE.rules[2] in CLOSE.rules;
    assert CLOSE_RANGE.rules[0] in CLOSE_RANGE.rules && EXECVE.rules[0] in EXECVE.rules;
  }

  /** Giving up privileges. */
  lemma PrivilegeRules(d: SeccompData)
    requires d.Valid()
    ensures SomeRuleMatches(PRCTL, d) <==>
            ((d.args[0] == 4 && d.args[1] == 0) || (d.args[0] == 38 && d.args[1] == 1)) && d.args[2] == 0 && TailZero(d)
    ensures SomeRuleMatches(SECCOMP, d) <==> d.args[0] == 1 && d.args[1] == 0 && TailZero(d)
  {
    hide RuleOf, RuleMatches;
    RuleOfMatches(Is(4), Is(0), ZERO, d);
    RuleOfMatches(Is(38), Is(1), ZERO, d);
    RuleOfMatches(Is(1), Is(0), ADDRESS, d);
    assert PRCTL.rules[0] in PRCTL.rules && PRCTL.rules[1] in PRCTL.rules && SECCOMP.rules[0] in SECCOMP.rules;
  }

  lemma PermitsSome(inventory: Inventory, d: SeccompData)
    requires d.Valid()
    ensures Permits(inventory, d) <==>
            && d.arch == 0xC000_003E && d.nr < 0x4000_0000
            && exists i :: 0 <= i < |inventory| && inventory[i].number == d.nr && SomeRuleMatches(inventory[i], d)
  {
    hide RuleMatches;
    if Permits(inventory, d) {
      var e, r :| e in inventory && r in e.rules && e.number == d.nr && RuleMatches(r, d);
      var i :| 0 <= i < |inventory| && inventory[i] == e;
      assert SomeRuleMatches(inventory[i], d);
    }
    if i :| 0 <= i < |inventory| && inventory[i].number == d.nr && SomeRuleMatches(inventory[i], d) {
      assert inventory[i] in inventory;
    }
  }

  /** The internal filter, in numbers: read(0) of 1 to 184 bytes from descriptor 3, write(1) of 1 to 8
      bytes to descriptor 4, and exit_group(231). */
  lemma InternalFilterAllows(d: SeccompData)
    requires d.Valid()
    ensures Compile(INTERNAL).Success? && |Compile(INTERNAL).value| == 904
    ensures RunBytes(Compile(INTERNAL).value, d) == Return(
              if d.arch == 0xC000_003E && TailZero(d)
                 && (|| (d.nr == 0 && d.args[0] == 3 && 1 <= d.args[2] <= 184)
                     || (d.nr == 1 && d.args[0] == 4 && 1 <= d.args[2] <= 8)
                     || (d.nr == 231 && d.args[1] == 0 && d.args[2] == 0))
              then 0x7FFF_0000 else 0x8000_0000)
  {
    hide SomeRuleMatches, Permits, Compile, RunBytes;
    ShippedFiltersCorrect(INTERNAL, d);
    PermitsSome(INTERNAL, d);
    TransferRules(d);
    assert INTERNAL[0] == READ && INTERNAL[1] == WRITE && INTERNAL[2] == EXIT_GROUP;
  }

  /** The outer filter, in numbers: beside those, close(3) of 0 to 2, execve(59) with any pointers,
      prctl(157) of PR_SET_DUMPABLE to 0 or PR_SET_NO_NEW_PRIVS to 1, seccomp(317) to install a filter,
      and close_range(436) of everything from 5 up. */
  lemma OuterFilterAllows(d: SeccompData)
    requires d.Valid()
    ensures Compile(OUTER).Success? && |Compile(OUTER).value| == 3200
    ensures RunBytes(Compile(OUTER).value, d) == Return(
              if d.arch == 0xC000_003E && TailZero(d)
                 && (|| (d.nr == 0 && d.args[0] == 3 && 1 <= d.args[2] <= 184)
                     || (d.nr == 1 && d.args[0] == 4 && 1 <= d.args[2] <= 8)
                     || (d.nr == 3 && d.args[0] <= 2 && d.args[1] == 0 && d.args[2] == 0)
                     || d.nr == 59
                     || (d.nr == 157 && d.args[2] == 0
                         && ((d.args[0] == 4 && d.args[1] == 0) || (d.args[0] == 38 && d.args[1] == 1)))
                     || (d.nr == 231 && d.args[1] == 0 && d.args[2] == 0)
                     || (d.nr == 317 && d.args[0] == 1 && d.args[1] == 0)
                     || (d.nr == 436 && d.args[0] == 5 && d.args[1] == 0xFFFF_FFFF && d.args[2] == 0))
              then 0x7FFF_0000 else 0x8000_0000)
  {
    hide SomeRuleMatches, Permits, Compile, RunBytes;
    OuterLength();
    ShippedFiltersCorrect(OUTER, d);
    PermitsSome(OUTER, d);
    TransferRules(d);
    LaunchRules(d);
    PrivilegeRules(d);
    assert OUTER[0] == READ && OUTER[1] == WRITE && OUTER[2] == CLOSE && OUTER[3] == EXECVE;
    assert OUTER[4] == PRCTL && OUTER[5] == EXIT_GROUP && OUTER[6] == SECCOMP && OUTER[7] == CLOSE_RANGE;
  }

  lemma OuterLength()
    ensures OUTER != INTERNAL
  {
    assert |OUTER| == 8 && |INTERNAL| == 3;
  }

  // ---------- the digest preimage ----------

  const VERSION: seq<Byte> :=
    [109, 116, 52, 45, 115, 51, 99, 45, 99, 98, 112, 102, 45, 99, 97, 110, 111, 110, 105, 99, 97, 108, 46, 118, 49]

  /** The bytes hashed for a program of whole instructions whose count fits four bytes. */
  function DigestPreimage(bytes: seq<Byte>): seq<Byte>
    requires |bytes| % 8 == 0 && |bytes| / 8 < 0x1_0000_0000
  {
    VERSION + [0] + LittleEndian(|bytes| / 8, 4) + bytes
  }

  /** Equal preimages come from programs that decode to the same instructions. */
  lemma PreimageDeterminesProgram(p: seq<Instr>, q: seq<Instr>)
    requires |p| < 0x1_0000_0000 && |q| < 0x1_0000_0000
    ensures |Join(PackAll(p))| == 8 * |p| && |Join(PackAll(q))| == 8 * |q|
    ensures DigestPreimage(Join(PackAll(p))) == DigestPreimage(Join(PackAll(q))) <==> MaskedAll(p) == MaskedAll(q)
  {
    DecodeJoinedPack(p);
    DecodeJoinedPack(q);
    var n := |VERSION| + 5;
    assert DigestPreimage(Join(PackAll(p)))[n..] == Join(PackAll(p));
    assert DigestPreimage(Join(PackAll(q)))[n..] == Join(PackAll(q));
    if MaskedAll(p) == MaskedAll(q) {
      MaskedPackEqual(p, q);
    }
  }

  lemma MaskedPackEqual(p: seq<Instr>, q: seq<Instr>)
    requires MaskedAll(p) == MaskedAll(q)
    ensures PackAll(p) == PackAll(q)
  {
    forall i | 0 <= i < |p|
      ensures |q| == |p| && Pack(p[i]) == Pack(q[i])
    {
      assert |MaskedAll(p)| == |p| && |MaskedAll(q)| == |q|;
      assert MaskedAll(p)[i] == Masked(p[i]) && MaskedAll(q)[i] == Masked(q[i]);
    }
    assert |MaskedAll(p)| == |p| && |MaskedAll(q)| == |q|;
  }

  /** The hashed bytes are the version text, a zero, the instruction count in four bytes, and the program. */
  lemma PreimageLayout(bytes: seq<Byte>)
    requires |bytes| % 8 == 0 && |bytes| / 8 < 0x1_0000_0000
    ensures var version, preimage := "mt4-s3c-cbpf-canonical.v1", DigestPreimage(bytes);
            && |preimage| == 30 + |bytes|
            && (forall i | 0 <= i < |version| :: preimage[i] == version[i] as int)
            && |version| == 25 && preimage[25] == 0
            && FromLittleEndian(preimage[26..30]) * 8 == |bytes| && preimage[30..] == bytes
  {
    var preimage := DigestPreimage(bytes);
    WordRoundTrip(|bytes| / 8);
    assert preimage[26..30] == LittleEndian(|bytes| / 8, 4);
    VersionText();
  }

  lemma VersionText()
    ensures var version := "mt4-s3c-cbpf-canonical.v1";
            |version| == |VERSION| == 25 && forall i | 0 <= i < 25 :: VERSION[i] == version[i] as int
  {
  }

  // ---------- the shipped documents ----------

  const OUTER_NAMES: seq<string> :=
    ["read", "write", "close", "execve", "prctl", "exit_group", "seccomp", "close_range"]
  const OUTER_NUMBERS: seq<nat> := [0, 1, 3, 59, 157, 231, 317, 436]
  const REASONS: seq<string> :=
    ["CANDIDATE_BOOTSTRAP", "CANDIDATE_RESPONSE", "CANDIDATE_VERIFY", "LAUNCH_TRANSITION", "PROCESS_EXIT"]

  /** The reason recorded for each shipped entry, by its place among the ascending reasons. */
  const OUTER_REASONS: seq<nat> := [2, 1, 0, 3, 0, 4, 0, 0]

  lemma OuterEntry(i: nat)
    requires i < 8
    ensures |OUTER| == 8 && OUTER[i].name == OUTER_NAMES[i] && OUTER[i].number == OUTER_NUMBERS[i]
    ensures OUTER_REASONS[i] < 5 && OUTER[i].reason == REASONS[OUTER_REASONS[i]]
  {
    hide RuleOf;
  }

  lemma ReasonsAscend(i: nat, j: nat)
    requires i < j < 5
    ensures TextLe(REASONS[i], REASONS[j]) && REASONS[i] != REASONS[j]
    decreases j
  {
    var k := if j - 1 < 2 then 10 else 0;
    FirstDifference(REASONS[j - 1], REASONS[j], k);
    if i < j - 1 {
      ReasonsAscend(i, j - 1);
      TextLeTransitive(REASONS[i], REASONS[j - 1], REASONS[j]);
    }
  }

  /** The outer document lists the eight calls in the order they are dispatched, with these five reasons. */
  lemma OuterDocument()
    ensures Sorted(BY_NUMBER, Documents(OUTER)) && ReasonsOf(OUTER, REASONS)
    ensures |Documents(OUTER)| == 8
    ensures forall i | 0 <= i < 8 ::
              Documents(OUTER)[i].name == OUTER_NAMES[i] && Documents(OUTER)[i].number == OUTER_NUMBERS[i]
  {
    hide TextLe, OUTER, REASONS;
    assert |REASONS| == 5 && |OUTER| == 8 by { OuterSizes(); }
    forall i: nat | i < 8
      ensures OUTER[i].name == OUTER_NAMES[i] && OUTER[i].number == OUTER_NUMBERS[i]
      ensures OUTER_REASONS[i] < 5 && OUTER[i].reason == REASONS[OUTER_REASONS[i]]
    {
      OuterEntry(i);
    }
    forall i: nat, j: nat | i < j < 5
      ensures BY_TEXT(REASONS[i], REASONS[j]) && REASONS[i] != REASONS[j]
    {
      ReasonsAscend(i, j);
    }
    assert OUTER[0].reason == REASONS[2] && OUTER[1].reason == REASONS[1] && OUTER[2].reason == REASONS[0];
    assert OUTER[3].reason == REASONS[3] && OUTER[5].reason == REASONS[4];
  }

  lemma OuterSizes()
    ensures |REASONS| == 5 && |OUTER| == 8
  {
  }
}
