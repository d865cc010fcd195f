/** The canonical semantic document of a policy: nothing the decision depends on is lost in it. */
module PolicyDocument {
  import opened CbpfMachine
  import opened Sorting
  import opened PolicyCompiler
  import opened CompilerCorrectness

  datatype Bounds = Bounds(min: nat, max: nat)

  /** One rule as the document records it: each word index in exactly one of five fields. */
  datatype CanonicalRule = CanonicalRule(exact: map<nat, nat>, ranges: map<nat, Bounds>,
                                         pointers: seq<nat>, scalars: seq<nat>, zeros: seq<nat>, hasRanges: bool)

  datatype CanonicalEntry = CanonicalEntry(name: string, number: nat, reason: string, ruleCount: nat,
                                           rules: seq<CanonicalRule>)

  // ---------- the rule document ----------

  function AddWord(c: CanonicalRule, index: nat, spec: ArgSpec): CanonicalRule {
    match spec.category
    case Exact => c.(exact := c.exact[index := spec.low])
    case Range => c.(ranges := c.ranges[index := Bounds(spec.low, spec.high)])
    case Pointer => c.(pointers := c.pointers + [index])
    case Scalar => c.(scalars := c.scalars + [index])
    case Zero => c.(zeros := c.zeros + [index])
  }

  function Fields(rule: Rule, n: nat): CanonicalRule
    requires n <= ARG_WORDS
  {
    if n == 0 then CanonicalRule(map[], map[], [], [], [], false) else AddWord(Fields(rule, n - 1), n - 1, rule[n - 1])
  }

  function Canonical(rule: Rule): CanonicalRule {
    var c := Fields(rule, ARG_WORDS);
    c.(hasRanges := c.ranges != map[])
  }

  method ArgumentRuleToCanonical(rule: Rule) returns (c: CanonicalRule)
    ensures c == Canonical(rule)
  {
    var exact: map<nat, nat>, ranges: map<nat, Bounds> := map[], map[];
    var pointers: seq<nat>, scalars: seq<nat>, zeros: seq<nat> := [], [], [];
    for index := 0 to ARG_WORDS
      invariant Fields(rule, index) == CanonicalRule(exact, ranges, pointers, scalars, zeros, false)
    {
      var spec := rule[index];
      match spec.category
      case Exact => exact := exact[index := spec.low];
      case Range => ranges := ranges[index := Bounds(spec.low, spec.high)];
      case Pointer => pointers := pointers + [index];
      case Scalar => scalars := scalars + [index];
      case Zero => zeros := zeros + [index];
    }
    c := CanonicalRule(exact, ranges, pointers, scalars, zeros, ranges != map[]);
  }

  /** In how many fields of the document a word index appears. */
  function Occurrences(c: CanonicalRule, index: nat): nat {
    (if index in c.exact then 1 else 0) + (if index in c.ranges then 1 else 0)
    + multiset(c.pointers)[index] + multiset(c.scalars)[index] + multiset(c.zeros)[index]
  }

  lemma AddWordOccurrences(c: CanonicalRule, n: nat, spec: ArgSpec, index: nat)
    requires Occurrences(c, n) == 0
    ensures Occurrences(AddWord(c, n, spec), index) == Occurrences(c, index) + if index == n then 1 else 0
  {
    match spec.category
    case Exact =>
    case Range =>
    case Pointer => assert multiset(c.pointers + [n]) == multiset(c.pointers) + multiset{n};
    case Scalar => assert multiset(c.scalars + [n]) == multiset(c.scalars) + multiset{n};
    case Zero => assert multiset(c.zeros + [n]) == multiset(c.zeros) + multiset{n};
  }

  lemma {:induction false} FieldsPartition(rule: Rule, n: nat, index: nat)
    requires n <= ARG_WORDS
    ensures Occurrences(Fields(rule, n), index) == if index < n then 1 else 0
  {
    hide Occurrences, AddWord;
    if n > 0 {
      FieldsPartition(rule, n - 1, index);
      FieldsPartition(rule, n - 1, n - 1);
      AddWordOccurrences(Fields(rule, n - 1), n - 1, rule[n - 1], index);
    } else {
      NoOccurrences(index);
    }
  }

  lemma NoOccurrences(index: nat)
    ensures Occurrences(CanonicalRule(map[], map[], [], [], [], false), index) == 0
  {
  }

  /** The five fields partition the six word indices. */
  lemma CanonicalPartition(rule: Rule, index: nat)
    ensures Occurrences(Canonical(rule), index) == if index < ARG_WORDS then 1 else 0
  {
    FieldsPartition(rule, ARG_WORDS, index);
  }

  function DecodeWord(c: CanonicalRule, index: nat): ArgSpec {
    if index in c.exact then ArgSpec(Exact, c.exact[index], 0)
    else if index in c.ranges then ArgSpec(Range, c.ranges[index].min, c.ranges[index].max)
    else if index in c.pointers then ArgSpec(Pointer, 0, 0)
    else if index in c.scalars then ArgSpec(Scalar, 0, 0)
    else ArgSpec(Zero, 0, 0)
  }

  function DecodeRule(c: CanonicalRule): Rule {
    seq(ARG_WORDS, i requires 0 <= i < ARG_WORDS => DecodeWord(c, i))
  }

  /** The constants of a word check that its category reads. */
  function Relevant(spec: ArgSpec): ArgSpec {
    match spec.category
    case Exact => ArgSpec(Exact, spec.low, 0)
    case Range => spec
    case c => ArgSpec(c, 0, 0)
  }

  lemma AddWordDecode(c: CanonicalRule, n: nat, spec: ArgSpec, index: nat)
    requires Occurrences(c, n) == 0
    ensures DecodeWord(AddWord(c, n, spec), index) == if index == n then Relevant(spec) else DecodeWord(c, index)
  {
    match spec.category
    case Exact =>
    case Range =>
    case Pointer => assert index in c.pointers + [n] <==> index in c.pointers || index == n;
    case Scalar => assert index in c.scalars + [n] <==> index in c.scalars || index == n;
    case Zero =>
  }

  lemma {:induction false} FieldsDecode(rule: Rule, n: nat, index: nat)
    requires index < n <= ARG_WORDS
    ensures DecodeWord(Fields(rule, n), index) == Relevant(rule[index])
  {
    hide Occurrences, AddWord, DecodeWord;
    FieldsPartition(rule, n - 1, n - 1);
    AddWordDecode(Fields(rule, n - 1), n - 1, rule[n - 1], index);
    if index < n - 1 {
      FieldsDecode(rule, n - 1, index);
    }
  }

  /** Decoding the document of a rule gives a rule with the same meaning and the same code. */
  lemma CanonicalPreservesRule(rule: Rule, d: SeccompData)
    requires d.Valid()
    ensures DecodeRule(Canonical(rule)) == seq(ARG_WORDS, i requires 0 <= i < ARG_WORDS => Relevant(rule[i]))
    ensures RuleMatches(DecodeRule(Canonical(rule)), d) <==> RuleMatches(rule, d)
    ensures forall i | 0 <= i < ARG_WORDS :: Representable(rule[i]) <==> Representable(DecodeRule(Canonical(rule))[i])
  {
    var decoded := DecodeRule(Canonical(rule));
    forall i | 0 <= i < ARG_WORDS
      ensures decoded[i] == Relevant(rule[i])
    {
      FieldsDecode(rule, ARG_WORDS, i);
    }
    assert forall i | 0 <= i < ARG_WORDS :: Matches(decoded[i], d.args[i]) == Matches(rule[i], d.args[i]);
  }

  // ---------- the inventory document ----------

  function EntryDocument(e: SyscallEntry): CanonicalEntry {
    CanonicalEntry(e.name, e.number, e.reason, |e.rules|,
                   seq(|e.rules|, i requires 0 <= i < |e.rules| => Canonical(e.rules[i])))
  }

  function DecodeEntry(c: CanonicalEntry): SyscallEntry {
    SyscallEntry(c.name, c.number, c.reason, seq(|c.rules|, i requires 0 <= i < |c.rules| => DecodeRule(c.rules[i])))
  }

  const BY_NUMBER := (a: CanonicalEntry, b: CanonicalEntry) => a.number <= b.number

  function Documents(inventory: Inventory): seq<CanonicalEntry> {
    seq(|inventory|, i requires 0 <= i < |inventory| => EntryDocument(inventory[i]))
  }

  function Document(inventory: Inventory): seq<CanonicalEntry> {
    Sort(BY_NUMBER, Documents(inventory))
  }

  function DecodeDocument(entries: seq<CanonicalEntry>): Inventory {
    seq(|entries|, i requires 0 <= i < |entries| => DecodeEntry(entries[i]))
  }

  /** The document lists the entries in ascending number, and is a permutation of them. */
  lemma DocumentSorted(inventory: Inventory)
    ensures Sorted(BY_NUMBER, Document(inventory)) && multiset(Document(inventory)) == multiset(Documents(inventory))
  {
    SortSorts(BY_NUMBER, Documents(inventory));
  }

  lemma DocumentMembers(inventory: Inventory, e: CanonicalEntry)
    ensures e in Document(inventory) <==> exists i :: 0 <= i < |inventory| && EntryDocument(inventory[i]) == e
  {
    hide EntryDocument, Document;
    var docs := Documents(inventory);
    DocumentSorted(inventory);
    assert e in Document(inventory) <==> e in multiset(Document(inventory));
    assert e in docs <==> e in multiset(docs);
    if e in docs {
      var i :| 0 <= i < |docs| && docs[i] == e;
      assert EntryDocument(inventory[i]) == e;
    }
    forall i | 0 <= i < |inventory| && EntryDocument(inventory[i]) == e
      ensures e in docs
    {
      assert docs[i] == e;
    }
  }

  lemma DecodedMeaning(inventory: Inventory, d: SeccompData)
    requires d.Valid()
    ensures Permits(DecodeDocument(Document(inventory)), d) <==> Permits(inventory, d)
  {
    hide Document, Canonical, RuleMatches, DecodeRule, SeccompData.Valid;
    var doc := Document(inventory);
    var decoded := DecodeDocument(doc);
    if Permits(inventory, d) {
      var e, r :| e in inventory && r in e.rules && e.number == d.nr && RuleMatches(r, d);
      DocumentMembers(inventory, EntryDocument(e));
      var i :| 0 <= i < |doc| && doc[i] == EntryDocument(e);
      var j :| 0 <= j < |e.rules| && e.rules[j] == r;
      CanonicalPreservesRule(r, d);
      assert decoded[i].rules[j] == DecodeRule(Canonical(r));
      assert decoded[i] in decoded && decoded[i].rules[j] in decoded[i].rules;
    }
    if Permits(decoded, d) {
      var e', r' :| e' in decoded && r' in e'.rules && e'.number == d.nr && RuleMatches(r', d);
      var i :| 0 <= i < |doc| && decoded[i] == e';
      DocumentMembers(inventory, doc[i]);
      var k :| 0 <= k < |inventory| && EntryDocument(inventory[k]) == doc[i];
      var j :| 0 <= j < |e'.rules| && e'.rules[j] == r';
      CanonicalPreservesRule(inventory[k].rules[j], d);
      assert inventory[k] in inventory && inventory[k].rules[j] in inventory[k].rules;
    }
  }

  lemma DecodedNamed(inventory: Inventory)
    requires Named(inventory)
    ensures Named(DecodeDocument(Document(inventory)))
  {
    hide Document, Canonical, DecodeRule;
    var doc := Document(inventory);
    DocumentSorted(inventory);
    DistinctUnderPermutation(Documents(inventory), doc, (c: CanonicalEntry) => c.name);
    forall i | 0 <= i < |doc|
      ensures doc[i].name != "JA"
    {
      DocumentMembers(inventory, doc[i]);
      var k :| 0 <= k < |inventory| && EntryDocument(inventory[k]) == doc[i];
      assert inventory[k] in inventory;
    }
  }

  // ---------- the document keeps the decision ----------

  ghost predicate Words32(inventory: Inventory) {
    forall e | e in inventory :: e.number < 0x1_0000_0000
  }

  /** The decision of the first of some entries that has a rule at all. */
  ghost predicate Settles(entries: seq<SyscallEntry>, d: SeccompData)
    requires d.Valid()
  {
    if entries == [] then false
    else if entries[0].rules != [] then SomeRule(entries[0].rules, 0, d)
    else Settles(entries[1..], d)
  }

  function ForNumber(nr: U32): SyscallEntry -> bool {
    (e: SyscallEntry) => e.number == nr
  }

  function DocumentForNumber(nr: U32): CanonicalEntry -> bool {
    (c: CanonicalEntry) => c.number == nr
  }

  lemma SettlesFront(e: SyscallEntry, more: seq<SyscallEntry>, d: SeccompData)
    requires d.Valid()
    ensures Settles([e] + more, d) == if e.rules != [] then SomeRule(e.rules, 0, d) else Settles(more, d)
  {
    hide SomeRule;
    assert ([e] + more)[1..] == more;
  }

  lemma SettlesNone(nr: U32, d: SeccompData)
    requires d.Valid()
    ensures !Settles(Where([], ForNumber(nr)), d)
  {
  }

  lemma DecidesFront(inventory: Inventory, position: nat, d: SeccompData)
    requires d.Valid() && position < |inventory| && inventory[position].number < 0x1_0000_0000
    ensures var e := inventory[position];
            Decides(inventory, position, d) == if e.number == d.nr && e.rules != [] then SomeRule(e.rules, 0, d)
                                               else Decides(inventory, position + 1, d)
  {
    hide SomeRule;
  }

  /** Only the entries of the called number, in their order, decide. */
  lemma {:induction false} DecidesByNumber(inventory: Inventory, position: nat, d: SeccompData)
    requires d.Valid() && position <= |inventory| && Words32(inventory)
    ensures Decides(inventory, position, d) == Settles(Where(inventory[position..], ForNumber(d.nr)), d)
    decreases |inventory| - position
  {
    if position < |inventory| {
      hide SomeRule, Where, Settles, Decides;
      var rest, e := inventory[position..], inventory[position];
      assert e in inventory;
      DecidesFront(inventory, position, d);
      DecidesByNumber(inventory, position + 1, d);
      WhereFront(rest, ForNumber(d.nr));
      assert rest[1..] == inventory[position + 1..];
      var more := Where(rest[1..], ForNumber(d.nr));
      SettlesFront(e, more, d);
      assert Where(rest, ForNumber(d.nr)) == if e.number == d.nr then [e] + more else more;
    } else {
      SettlesNone(d.nr, d);
    }
  }

  lemma {:induction false} DecodedWhere(docs: seq<CanonicalEntry>, nr: U32)
    ensures Where(DecodeDocument(docs), ForNumber(nr)) == DecodeDocument(Where(docs, DocumentForNumber(nr)))
  {
    if docs != [] {
      var n := |docs| - 1;
      DecodedWhere(docs[..n], nr);
      assert DecodeDocument(docs)[..n] == DecodeDocument(docs[..n]);
    }
  }

  lemma {:induction false} DocumentsWhere(inventory: Inventory, nr: U32)
    ensures Where(Documents(inventory), DocumentForNumber(nr)) == Documents(Where(inventory, ForNumber(nr)))
  {
    if inventory != [] {
      var n := |inventory| - 1;
      DocumentsWhere(inventory[..n], nr);
      assert Documents(inventory)[..n] == Documents(inventory[..n]);
    }
  }

  /** The compiled checks of a rule are those of its decoded document. */
  lemma DecodedChecks(rule: Rule, d: SeccompData)
    requires d.Valid()
    ensures ChecksPass(DecodeRule(Canonical(rule)), 0, d) <==> ChecksPass(rule, 0, d)
  {
    CanonicalPreservesRule(rule, d);
    var decoded := DecodeRule(Canonical(rule));
    assert forall i | 0 <= i < ARG_WORDS :: CheckPasses(decoded[i], d.args[i]) == CheckPasses(rule[i], d.args[i]);
  }

  lemma DecodedSomeRule(e: SyscallEntry, d: SeccompData)
    requires d.Valid()
    ensures SomeRule(DecodeEntry(EntryDocument(e)).rules, 0, d) <==> SomeRule(e.rules, 0, d)
  {
    hide ChecksPass, DecodeRule, Canonical;
    var rules := DecodeEntry(EntryDocument(e)).rules;
    forall j | 0 <= j < |e.rules|
      ensures ChecksPass(rules[j], 0, d) <==> ChecksPass(e.rules[j], 0, d)
    {
      DecodedChecks(e.rules[j], d);
    }
  }

  lemma {:induction false} DecodedSettles(entries: seq<SyscallEntry>, d: SeccompData)
    requires d.Valid()
    ensures Settles(DecodeDocument(Documents(entries)), d) <==> Settles(entries, d)
  {
    hide SomeRule, DecodeRule, Canonical;
    if entries != [] {
      DecodedSomeRule(entries[0], d);
      DecodedSettles(entries[1..], d);
      assert DecodeDocument(Documents(entries))[1..] == DecodeDocument(Documents(entries[1..]));
      assert DecodeDocument(Documents(entries))[0] == DecodeEntry(EntryDocument(entries[0]));
    }
  }

  /** Sorting by number is stable, so the document decides as the inventory does, even where numbers
      repeat and whatever the constants. */
  lemma DecodedDecides(inventory: Inventory, d: SeccompData)
    requires d.Valid() && Words32(inventory)
    ensures Decides(DecodeDocument(Document(inventory)), 0, d) <==> Decides(inventory, 0, d)
  {
    hide Decides, Settles, EntryDocument, DecodeEntry, Where;
    var doc := Document(inventory);
    var decoded := DecodeDocument(doc);
    DecodedWords32(inventory);
    DecidesByNumber(inventory, 0, d);
    DecidesByNumber(decoded, 0, d);
    assert inventory[0..] == inventory && decoded[0..] == decoded;
    DecodedWhere(doc, d.nr);
    SortStable(BY_NUMBER, Documents(inventory), DocumentForNumber(d.nr));
    DocumentsWhere(inventory, d.nr);
    DecodedSettles(Where(inventory, ForNumber(d.nr)), d);
  }

  lemma DecodedWords32(inventory: Inventory)
    requires Words32(inventory)
    ensures Words32(DecodeDocument(Document(inventory)))
  {
    hide Document, Canonical, DecodeRule;
    var doc := Document(inventory);
    forall i | 0 <= i < |doc|
      ensures doc[i].number < 0x1_0000_0000
    {
      DocumentMembers(inventory, doc[i]);
      var k :| 0 <= k < |inventory| && EntryDocument(inventory[k]) == doc[i];
      assert inventory[k] in inventory;
    }
  }

  // ---------- the document keeps the program length ----------

  function EntryCost(c: CanonicalEntry): nat {
    3 + RulesLength(DecodeEntry(c).rules, 0)
  }

  function TotalCost(entries: seq<CanonicalEntry>): nat {
    if entries == [] then 0 else TotalCost(entries[..|entries| - 1]) + EntryCost(entries[|entries| - 1])
  }

  lemma {:induction false} SortKeepsCost(entries: seq<CanonicalEntry>)
    ensures TotalCost(Sort(BY_NUMBER, entries)) == TotalCost(entries)
  {
    if entries != [] {
      SortKeepsCost(entries[..|entries| - 1]);
      InsertAddsCost(Sort(BY_NUMBER, entries[..|entries| - 1]), entries[|entries| - 1]);
    }
  }

  lemma {:induction false} InsertAddsCost(entries: seq<CanonicalEntry>, e: CanonicalEntry)
    ensures TotalCost(Insert(BY_NUMBER, entries, e)) == TotalCost(entries) + EntryCost(e)
  {
    hide EntryCost;
    var n := |entries| - 1;
    if entries == [] || BY_NUMBER(entries[n], e) {
      assert (entries + [e])[..|entries|] == entries;
    } else {
      InsertAddsCost(entries[..n], e);
      var r := Insert(BY_NUMBER, entries[..n], e);
      assert (r + [entries[n]])[..|r|] == r;
    }
  }

  lemma {:induction false} RelevantLength(rule: Rule, index: nat)
    requires index <= ARG_WORDS
    ensures ChecksLength(DecodeRule(Canonical(rule)), index) == ChecksLength(rule, index)
    decreases ARG_WORDS - index
  {
    hide Canonical;
    if index < ARG_WORDS {
      RelevantLength(rule, index + 1);
      CanonicalPreservesRule(rule, SeccompData(0, 0, 0, [0, 0, 0, 0, 0, 0]));
    }
  }

  lemma {:induction false} DecodedRulesLength(e: SyscallEntry, position: nat)
    requires position <= |e.rules|
    ensures RulesLength(DecodeEntry(EntryDocument(e)).rules, position) == RulesLength(e.rules, position)
    decreases |e.rules| - position
  {
    hide Canonical, DecodeRule;
    if position < |e.rules| {
      DecodedRulesLength(e, position + 1);
      RelevantLength(e.rules[position], 0);
    }
  }

  /** The code length of the entries, summed from the front. */
  lemma {:induction false} EntriesCost(inventory: Inventory, docs: seq<CanonicalEntry>, position: nat)
    requires position <= |inventory| == |docs|
    requires forall i | 0 <= i < |docs| :: EntryCost(docs[i]) == 3 + RulesLength(inventory[i].rules, 0)
    ensures TotalCost(docs[..position]) + EntriesLength(inventory, position) == TotalCost(docs)
    decreases |inventory| - position
  {
    hide EntryCost;
    if position == |inventory| {
      assert docs[..position] == docs;
    } else {
      EntriesCost(inventory, docs, position + 1);
      assert docs[..position + 1][..position] == docs[..position];
    }
  }

  lemma DocumentKeepsLength(inventory: Inventory)
    ensures ProgramLength(DecodeDocument(Document(inventory))) == ProgramLength(inventory)
  {
    var docs := Documents(inventory);
    forall i | 0 <= i < |inventory|
      ensures EntryCost(docs[i]) == 3 + RulesLength(inventory[i].rules, 0)
    {
      DecodedRulesLength(inventory[i], 0);
    }
    EntriesCost(inventory, docs, 0);
    SortKeepsCost(docs);
    EntriesCost(DecodeDocument(Document(inventory)), Document(inventory), 0);
  }

  method DeriveEntryDocument(e: SyscallEntry) returns (c: CanonicalEntry)
    ensures c == EntryDocument(e)
  {
    var rules: seq<CanonicalRule> := [];
    for j := 0 to |e.rules|
      invariant rules == EntryDocument(e).rules[..j]
    {
      var rule := ArgumentRuleToCanonical(e.rules[j]);
      rules := rules + [rule];
    }
    assert rules == EntryDocument(e).rules;
    c := CanonicalEntry(e.name, e.number, e.reason, |e.rules|, rules);
  }

  /** The whole document of a policy. */
  datatype SemanticDocument = SemanticDocument(
    schema: string, domain: string, architectureName: string, architecture: U32, alternateAbi: string,
    x32Policy: string, x32Bit: U32, defaultAction: string, operation: string, flags: nat, flagNames: seq<string>,
    unusedArguments: string, reasonClasses: seq<string>, count: nat, entries: seq<CanonicalEntry>,
    representation: string)

  ghost predicate NoRepeat(texts: seq<string>) {
    forall i, j | 0 <= i < j < |texts| :: texts[i] != texts[j]
  }

  /** The reasons of some entries, each once, in ascending order. */
  ghost predicate ReasonsOf(entries: seq<SyscallEntry>, reasons: seq<string>) {
    && Sorted(BY_TEXT, reasons) && NoRepeat(reasons)
    && forall x :: x in reasons <==> exists i :: 0 <= i < |entries| && entries[i].reason == x
  }

  lemma {:induction false} TextLeAntisymmetric(a: string, b: string)
    requires TextLe(a, b) && TextLe(b, a)
    ensures a == b
  {
    if a != [] {
      TextLeAntisymmetric(a[1..], b[1..]);
      assert a == [a[0]] + a[1..] && b == [b[0]] + b[1..];
    }
  }

  /** Only one list is the reasons of given entries. */
  lemma ReasonsUnique(entries: seq<SyscallEntry>, a: seq<string>, b: seq<string>)
    requires ReasonsOf(entries, a) && ReasonsOf(entries, b)
    ensures a == b
  {
    hide TextLe;
    ByTextIsTotal();
    forall x
      ensures multiset(a)[x] == multiset(b)[x]
    {
      NoRepeats(a, (y: string) => y, x);
      NoRepeats(b, (y: string) => y, x);
      assert x in a <==> x in b;
      assert x in multiset(a) <==> x in a;
      assert x in multiset(b) <==> x in b;
    }
    assert multiset(a) == multiset(b);
    forall x, y | x in a && y in a && BY_TEXT(x, y) && BY_TEXT(y, x)
      ensures x == y
    {
      TextLeAntisymmetric(x, y);
    }
    SortedUnique(BY_TEXT, a, b);
  }

  method ReasonClasses(inventory: Inventory) returns (reasons: seq<string>)
    ensures ReasonsOf(inventory, reasons)
  {
    hide TextLe;
    var seen: seq<string> := [];
    for i := 0 to |inventory|
      invariant NoRepeat(seen)
      invariant forall x :: x in seen <==> exists j :: 0 <= j < i && inventory[j].reason == x
    {
      if inventory[i].reason !in seen {
        seen := seen + [inventory[i].reason];
      }
    }
    reasons := Sort(BY_TEXT, seen);
    ByTextIsTotal();
    SortSorts(BY_TEXT, seen);
    DistinctUnderPermutation(seen, reasons, (x: string) => x);
    forall x
      ensures x in reasons <==> x in seen
    {
      SameMembers(reasons, seen, x);
    }
  }

  /** The document of an inventory: one entry after the other, sorted by number, between the
      constants both policies share and the ascending list of reasons. */
  method DeriveSemanticPreimage(inventory: Inventory, schema: string, domain: string) returns (doc: SemanticDocument)
    ensures ReasonsOf(inventory, doc.reasonClasses)
    ensures doc == SemanticDocument(
              schema, domain, "AUDIT_ARCH_X86_64", AUDIT_ARCH_X86_64,
              "REJECT_ALL_NON_MATCHING_AUDIT_ARCH_KILL_PROCESS",
              "REJECT_X32_MARKER_UNMASKED_UNSTRIPPED_KILL_PROCESS", X32_SYSCALL_BIT, "SECCOMP_RET_KILL_PROCESS",
              "SECCOMP_SET_MODE_FILTER", 0, [], "UNUSED_ARGUMENT_WORDS_MUST_BE_ZERO", doc.reasonClasses,
              |inventory|, Document(inventory), "mt4-s3c-cbpf-canonical.v1")
  {
    var entries: seq<CanonicalEntry> := [];
    for i := 0 to |inventory|
      invariant entries == Documents(inventory)[..i]
    {
      var entry := DeriveEntryDocument(inventory[i]);
      entries := entries + [entry];
    }
    assert entries == Documents(inventory);
    entries := Sort(BY_NUMBER, entries);
    DocumentSorted(inventory);
    SameLength(entries, Documents(inventory));
    var reasons := ReasonClasses(inventory);
    doc := SemanticDocument(
      schema, domain, "AUDIT_ARCH_X86_64", AUDIT_ARCH_X86_64, "REJECT_ALL_NON_MATCHING_AUDIT_ARCH_KILL_PROCESS",
      "REJECT_X32_MARKER_UNMASKED_UNSTRIPPED_KILL_PROCESS", X32_SYSCALL_BIT, "SECCOMP_RET_KILL_PROCESS",
      "SECCOMP_SET_MODE_FILTER", 0, [], "UNUSED_ARGUMENT_WORDS_MUST_BE_ZERO", reasons, |entries|, entries,
      "mt4-s3c-cbpf-canonical.v1");
  }

  /** The document is enough: the filter compiled from the decoded, reordered document decides
      every call as the filter compiled from the inventory does. Names must be distinct, as for the
      labels; numbers must be 32-bit words, but may repeat, and constants may be anything. */
  lemma DocumentDeterminesFilter(inventory: Inventory, d: SeccompData)
    requires Named(inventory) && Words32(inventory) && d.Valid()
    requires ProgramLength(inventory) <= 0x1_0000_0000
    ensures Compile(inventory).Success? && |Compile(inventory).value| % 8 == 0
    ensures var again := Compile(DecodeDocument(Document(inventory)));
            again.Success? && |again.value| % 8 == 0 &&
            RunBytes(again.value, d) == RunBytes(Compile(inventory).value, d)
  {
    hide Compile, Decides, Document, DecodeDocument, ProgramLength, RunBytes, Named, Words32;
    DecodedNamed(inventory);
    DecodedDecides(inventory, d);
    DocumentKeepsLength(inventory);
    CompiledDecision(inventory, d);
    CompiledDecision(DecodeDocument(Document(inventory)), d);
  }

  // ---------- what the document says beside the decision ----------

  lemma {:induction false} RangedFields(rule: Rule, n: nat)
    requires n <= ARG_WORDS
    ensures Fields(rule, n).ranges != map[] <==> exists i :: 0 <= i < n && rule[i].category == Range
    ensures forall i | 0 <= i < n && rule[i].category == Range ::
              i in Fields(rule, n).ranges && Fields(rule, n).ranges[i] == Bounds(rule[i].low, rule[i].high)
  {
    if n > 0 {
      RangedFields(rule, n - 1);
      var before, after := Fields(rule, n - 1).ranges, Fields(rule, n).ranges;
      if rule[n - 1].category == Range {
        assert n - 1 in after;
      } else {
        assert after == before;
      }
    }
  }

  /** A rule is of the range kind exactly when it classifies some word as a range. */
  lemma CanonicalKind(rule: Rule)
    ensures Canonical(rule).hasRanges <==> exists i :: 0 <= i < 6 && rule[i].category == Range
  {
    RangedFields(rule, ARG_WORDS);
  }

  /** An entry lists its rules, counts them, and keeps its name, number and reason. */
  lemma EntryDocumentKeeps(e: SyscallEntry)
    ensures var c := EntryDocument(e);
            && c.name == e.name && c.number == e.number && c.reason == e.reason
            && c.ruleCount == |c.rules| == |e.rules|
            && (forall i | 0 <= i < |e.rules| :: c.rules[i] == Canonical(e.rules[i]))
            && DecodeEntry(c).name == e.name && DecodeEntry(c).number == e.number && DecodeEntry(c).reason == e.reason
  {
  }
}
