/** The union of the three job logs must be the governed build graph: producers and consumers are
    joined by job-scoped output identity, and a transform supersedes the producer it rewrites. */
module BuildGraph {
  import opened Sorting
  import opened Wrappers

  /** The identifiers the governed graph consists of, and any other. */
  datatype Operation =
    | AdjudicatePolicy | AdjudicateProbe | BlstAssembly | BlstServer | ObserveLauncher | ObservePolicy | ObserveProbe
    | ObserverLauncher | ObserverPolicy | ObserverProbe | WorkerBootstrap | WorkerCapability | WorkerPolicy
    | WorkerStart | WorkerVerify
    | AdjudicateProbeLink | ObserveObserverLink | ObserveProbeLink | ObserverLink | WorkerLink
    | BlstAssemblyStrip
    | Other(name: string)

  datatype Kind = Compile | Link | Transform

  datatype Job = BuildJob | ObserveJob | AdjudicateJob | OtherJob(name: string)

  /** An output identity is a job, a colon and a path; anything without a colon has no scope. */
  datatype Identity = Unscoped(text: string) | Scoped(job: Job, path: string)

  datatype Instance = Instance(id: Operation, kind: Kind, job: Job, inputs: seq<Identity>, output: Identity,
                               target: Identity, before: string, after: string)

  datatype GraphError =
    | Incomplete | JobMismatch | DigestInvalid | DuplicateInstance | TransformInert | TransformUnproduced
    | TransformArity | TransformMismatch | DuplicateProducer | LinkInputUnproduced | LinkInputsMismatch

  /** The governed identifiers of one kind. */
  function GovernedAs(kind: Kind): seq<Operation> {
    match kind
    case Compile => [AdjudicatePolicy, AdjudicateProbe, BlstAssembly, BlstServer, ObserveLauncher, ObservePolicy,
                     ObserveProbe, ObserverLauncher, ObserverPolicy, ObserverProbe, WorkerBootstrap, WorkerCapability,
                     WorkerPolicy, WorkerStart, WorkerVerify]
    case Link => [AdjudicateProbeLink, ObserveObserverLink, ObserveProbeLink, ObserverLink, WorkerLink]
    case Transform => [BlstAssemblyStrip]
  }

  function Governed(): (ids: seq<Operation>)
    ensures |ids| == 21
  {
    GovernedAs(Compile) + GovernedAs(Link) + GovernedAs(Transform)
  }

  /** What each link consumes, in order. */
  function Required(id: Operation): Option<seq<Operation>> {
    match id
    case WorkerLink => Some([WorkerStart, WorkerBootstrap, WorkerVerify, WorkerPolicy, WorkerCapability, BlstServer,
                             BlstAssemblyStrip])
    case ObserverLink => Some([ObserverLauncher, ObserverPolicy])
    case ObserveObserverLink => Some([ObserveLauncher, ObservePolicy])
    case ObserveProbeLink => Some([ObserveProbe, ObservePolicy])
    case AdjudicateProbeLink => Some([AdjudicateProbe, AdjudicatePolicy])
    case _ => None
  }

  predicate IsHex64(s: string) {
    |s| == 64 && forall i | 0 <= i < 64 :: '0' <= s[i] <= '9' || 'a' <= s[i] <= 'f'
  }

  // ---------- what an accepted union is ----------

  /** The part of the execution-instance contract the graph depends on. */
  predicate Sound(x: Instance, job: Job) {
    && x.job == job && x.inputs != [] && x.output.Scoped? && x.output.job == job
    && (x.kind == Transform ==> IsHex64(x.before) && IsHex64(x.after))
  }

  predicate LogSound(log: seq<Instance>, job: Job) {
    log != [] && forall i | 0 <= i < |log| :: Sound(log[i], job)
  }

  function Ids(log: seq<Instance>): (ids: seq<Operation>)
    ensures |ids| == |log|
  {
    if log == [] then [] else Ids(log[..|log| - 1]) + [log[|log| - 1].id]
  }

  /** The operation that wrote an identity last, in log order. */
  function LastWriter(log: seq<Instance>, identity: Identity): Option<Operation> {
    if log == [] then None
    else if log[|log| - 1].output == identity then Some(log[|log| - 1].id)
    else LastWriter(log[..|log| - 1], identity)
  }

  predicate Written(log: seq<Instance>, identity: Identity) {
    exists j | 0 <= j < |log| :: log[j].output == identity
  }

  /** A compile or a link writes a new identity; a transform rewrites, with effect, the one
      identity it consumes, which something earlier wrote. */
  predicate WritesProperly(log: seq<Instance>, i: nat)
    requires i < |log|
  {
    var x := log[i];
    if x.kind == Transform then
      x.before != x.after && Written(log[..i], x.output) && x.inputs == [x.output] && x.target == x.output
    else
      !Written(log[..i], x.output)
  }

  predicate ConsumesProperly(log: seq<Instance>, x: Instance) {
    x.kind == Link ==>
      Required(x.id).Some? && |x.inputs| == |Required(x.id).value|
      && forall k | 0 <= k < |x.inputs| :: LastWriter(log, x.inputs[k]) == Some(Required(x.id).value[k])
  }

  function Rank(id: Operation): int {
    match id
    case AdjudicatePolicy => 0 case AdjudicateProbe => 1 case BlstAssembly => 2 case BlstServer => 3
    case ObserveLauncher => 4 case ObservePolicy => 5 case ObserveProbe => 6 case ObserverLauncher => 7
    case ObserverPolicy => 8 case ObserverProbe => 9 case WorkerBootstrap => 10 case WorkerCapability => 11
    case WorkerPolicy => 12 case WorkerStart => 13 case WorkerVerify => 14
    case AdjudicateProbeLink => 15 case ObserveObserverLink => 16 case ObserveProbeLink => 17 case ObserverLink => 18
    case WorkerLink => 19 case BlstAssemblyStrip => 20 case Other(_) => 21
  }

  /** The kind the governed graph gives an identifier, if it governs it. */
  function KindOf(id: Operation): Option<Kind> {
    if Rank(id) < 15 then Some(Compile)
    else if Rank(id) < 20 then Some(Link)
    else if Rank(id) < 21 then Some(Transform)
    else None
  }

  predicate KindGoverned(x: Instance) {
    KindOf(x.id).Some? ==> x.kind == KindOf(x.id).value
  }

  ghost predicate Distinct(ids: seq<Operation>) {
    forall i, j | 0 <= i < j < |ids| :: ids[i] != ids[j]
  }

  /** Twenty-one different identifiers, all of them governed. */
  ghost predicate IdsGoverned(log: seq<Instance>) {
    |log| == 21 && Distinct(Ids(log)) && forall i | 0 <= i < |log| :: Rank(log[i].id) < 21
  }

  ghost predicate Graph(log: seq<Instance>) {
    && IdsGoverned(log)
    && (forall i | 0 <= i < |log| :: KindGoverned(log[i]))
    && (forall i: nat | i < |log| :: WritesProperly(log, i))
    && (forall i | 0 <= i < |log| :: ConsumesProperly(log, log[i]))
  }

  ghost predicate Complete(build: seq<Instance>, observe: seq<Instance>, adjudicate: seq<Instance>) {
    && LogSound(build, BuildJob) && LogSound(observe, ObserveJob) && LogSound(adjudicate, AdjudicateJob)
    && Graph(build + observe + adjudicate)
  }

  // ---------- the checks ----------

  method ValidateLog(log: seq<Instance>, job: Job) returns (failure: Option<GraphError>)
    ensures failure.None? <==> LogSound(log, job)
  {
    if log == [] {
      return Some(Incomplete);
    }
    for i := 0 to |log|
      invariant forall j | 0 <= j < i :: Sound(log[j], job)
    {
      var x := log[i];
      if x.job != job {
        return Some(JobMismatch);
      }
      if x.inputs == [] || !x.output.Scoped? || x.output.job != job {
        return Some(Incomplete);
      }
      if x.kind == Transform && (!IsHex64(x.before) || !IsHex64(x.after)) {
        return Some(DigestInvalid);
      }
    }
    return None;
  }

  /** How many recorded kinds there are of one kind. */
  function CountKind(log: seq<Instance>, kind: Kind): (n: nat)
  {
    if log == [] then 0 else CountKind(log[..|log| - 1], kind) + if log[|log| - 1].kind == kind then 1 else 0
  }

  lemma IdsAt(log: seq<Instance>, i: nat)
    requires i < |log|
    ensures Ids(log)[i] == log[i].id
  {
    if i < |log| - 1 {
      IdsAt(log[..|log| - 1], i);
    }
  }

  // ---------- the governed identifiers are distinct ----------

  function Base(kind: Kind): nat {
    match kind case Compile => 0 case Link => 15 case Transform => 20
  }

  function Amount(kind: Kind): nat {
    match kind case Compile => 15 case Link => 5 case Transform => 1
  }

  lemma Ranked(kind: Kind)
    ensures |GovernedAs(kind)| == Amount(kind)
    ensures forall i | 0 <= i < Amount(kind) :: Rank(GovernedAs(kind)[i]) == Base(kind) + i
  {
  }

  lemma RankBounds(id: Operation)
    ensures 0 <= Rank(id)
  {
  }

  lemma RankInjective(a: Operation, b: Operation)
    requires Rank(a) == Rank(b) < 21
    ensures a == b
  {
  }

  lemma ListedIffRanked(id: Operation, kind: Kind)
    ensures id in GovernedAs(kind) <==> Base(kind) <= Rank(id) < Base(kind) + Amount(kind)
  {
    Ranked(kind);
    hide GovernedAs;
    var i := Rank(id) - Base(kind);
    if 0 <= i < Amount(kind) {
      RankInjective(id, GovernedAs(kind)[i]);
    }
  }

  lemma GovernedRanked()
    ensures |Governed()| == 21 && forall i | 0 <= i < 21 :: Rank(Governed()[i]) == i
  {
    Ranked(Compile);
    Ranked(Link);
    Ranked(Transform);
    hide Rank, GovernedAs;
  }

  /** Occurrences of the members of `ids`. */
  function Occurrences(m: multiset<Operation>, ids: seq<Operation>): nat {
    if ids == [] then 0 else Occurrences(m, ids[..|ids| - 1]) + m[ids[|ids| - 1]]
  }

  lemma {:induction false} OccurrencesAdd(m: multiset<Operation>, x: Operation, ids: seq<Operation>)
    requires Distinct(ids)
    ensures Occurrences(m + multiset{x}, ids) == Occurrences(m, ids) + if x in ids then 1 else 0
  {
    if ids != [] {
      var n := |ids| - 1;
      OccurrencesAdd(m, x, ids[..n]);
      assert ids == ids[..n] + [ids[n]];
    }
  }

  lemma {:induction false} OccurrencesOnce(m: multiset<Operation>, ids: seq<Operation>)
    requires forall x | x in ids :: m[x] == 1
    ensures Occurrences(m, ids) == |ids|
  {
    if ids != [] {
      OccurrencesOnce(m, ids[..|ids| - 1]);
    }
  }

  lemma {:induction false} CountIsOccurrences(log: seq<Instance>, kind: Kind, ids: seq<Operation>)
    requires Distinct(ids) && forall i | 0 <= i < |log| :: log[i].kind == kind <==> log[i].id in ids
    ensures CountKind(log, kind) == Occurrences(multiset(Ids(log)), ids)
  {
    if log == [] {
      NoOccurrences(ids);
    } else {
      var n := |log| - 1;
      CountIsOccurrences(log[..n], kind, ids);
      OccurrencesAdd(multiset(Ids(log[..n])), log[n].id, ids);
    }
  }

  lemma {:induction false} NoOccurrences(ids: seq<Operation>)
    ensures Occurrences(multiset{}, ids) == 0
  {
    if ids != [] {
      NoOccurrences(ids[..|ids| - 1]);
    }
  }

  lemma GovernedOnce(x: Operation)
    requires x in Governed()
    ensures multiset(Governed())[x] == 1
  {
    GovernedRanked();
    hide Rank, Governed;
    NoRepeats(Governed(), (y: Operation) => Rank(y), x);
    assert x in multiset(Governed());
  }

  lemma ListFacts(kind: Kind)
    ensures |GovernedAs(kind)| == Amount(kind) && Distinct(GovernedAs(kind))
    ensures forall x | x in GovernedAs(kind) :: x in Governed()
  {
    Ranked(kind);
    hide Rank, GovernedAs;
  }

  lemma ListedIffKind(id: Operation, kind: Kind)
    ensures id in GovernedAs(kind) <==> KindOf(id) == Some(kind)
  {
    ListedIffRanked(id, kind);
    RankBounds(id);
    hide GovernedAs, Rank;
  }

  lemma MemberIffRanked(id: Operation)
    ensures id in Governed() <==> Rank(id) < 21
  {
    ListedIffKind(id, Compile);
    ListedIffKind(id, Link);
    ListedIffKind(id, Transform);
    RankBounds(id);
    hide GovernedAs, Rank;
  }

  lemma {:induction false} SameOnceEach(a: seq<Operation>, b: seq<Operation>)
    requires |a| == |b| && Distinct(a) && Distinct(b) && forall i | 0 <= i < |a| :: a[i] in b
    ensures multiset(a) == multiset(b)
  {
    if a != [] {
      var n := |a| - 1;
      var k :| 0 <= k < |b| && b[k] == a[n];
      var rest := Without(b, k);
      WithoutKeeps(b, k);
      assert forall i | 0 <= i < n :: a[i] in rest;
      SameOnceEach(a[..n], rest);
      assert a == a[..n] + [a[n]];
    }
  }

  /** The recorded identifiers are the governed ones, each once: the comparison of sorted lists. */
  lemma {:induction false} IdsGovernedIff(log: seq<Instance>)
    ensures IdsGoverned(log) <==> multiset(Ids(log)) == multiset(Governed())
  {
    hide Governed, Ids, Rank;
    GovernedRanked();
    forall i | 0 <= i < |log|
      ensures Ids(log)[i] == log[i].id && (Ids(log)[i] in Governed() <==> Rank(log[i].id) < 21)
    {
      IdsAt(log, i);
      MemberIffRanked(log[i].id);
    }
    if IdsGoverned(log) {
      SameOnceEach(Ids(log), Governed());
    }
    if multiset(Ids(log)) == multiset(Governed()) {
      SameLength(Ids(log), Governed());
      DistinctUnderPermutation(Governed(), Ids(log), (x: Operation) => Rank(x));
      forall i | 0 <= i < |log|
        ensures Ids(log)[i] in Governed()
      {
        SameMembers(Ids(log), Governed(), Ids(log)[i]);
      }
    }
  }

  lemma KindsMatch(log: seq<Instance>, kind: Kind)
    requires IdsGoverned(log) && forall i | 0 <= i < |log| :: KindGoverned(log[i])
    ensures forall i | 0 <= i < |log| :: log[i].kind == kind <==> KindOf(log[i].id) == Some(kind)
  {
    hide Rank;
  }

  /** There are fifteen compiles, five links and one transform among the governed identifiers. */
  lemma KindCounts(log: seq<Instance>, kind: Kind)
    requires IdsGoverned(log) && forall i | 0 <= i < |log| :: KindGoverned(log[i])
    ensures |log| == 21 && CountKind(log, kind) == if kind == Compile then 15 else if kind == Link then 5 else 1
  {
    hide CountKind, IdsGoverned, KindGoverned;
    KindAmounts(log, kind);
  }

  lemma {:induction false} KindAmounts(log: seq<Instance>, kind: Kind)
    requires IdsGoverned(log) && forall i | 0 <= i < |log| :: KindGoverned(log[i])
    ensures |log| == 21 && CountKind(log, kind) == Amount(kind)
  {
    KindsMatch(log, kind);
    IdsGovernedIff(log);
    ListFacts(kind);
    hide KindGoverned, Governed, GovernedAs, Rank, Ids, KindOf;
    forall i | 0 <= i < |log|
      ensures log[i].kind == kind <==> log[i].id in GovernedAs(kind)
    {
      ListedIffKind(log[i].id, kind);
    }
    CountIsOccurrences(log, kind, GovernedAs(kind));
    forall x | x in GovernedAs(kind)
      ensures multiset(Governed())[x] == 1
    {
      GovernedOnce(x);
    }
    OccurrencesOnce(multiset(Governed()), GovernedAs(kind));
  }

  // ---------- the union is checked ----------

  /** The recorded kinds, keyed by identifier; a repeated identifier is refused. */
  method CollectKinds(log: seq<Instance>) returns (r: Option<(seq<Operation>, map<Operation, Kind>)>)
    ensures r.Some? <==> Distinct(Ids(log))
    ensures r.Some? ==> r.value.0 == Ids(log) && KindsOf(log, r.value.1)
  {
    hide Distinct, KindsOf;
    var ids: seq<Operation> := [];
    var kinds: map<Operation, Kind> := map[];
    NothingRecorded();
    for i := 0 to |log|
      invariant ids == Ids(log[..i]) && Distinct(ids) && KindsOf(log[..i], kinds)
    {
      IdsExtend(log, i);
      if log[i].id in kinds {
        IdsPrefix(log, i);
        RepeatedId(log, i, kinds);
        return None;
      }
      FreshId(log, i, kinds);
      kinds := kinds[log[i].id := log[i].kind];
      ids := ids + [log[i].id];
    }
    assert log[..|log|] == log;
    return Some((ids, kinds));
  }

  ghost predicate KindsOf(log: seq<Instance>, kinds: map<Operation, Kind>) {
    && (forall i | 0 <= i < |log| :: log[i].id in kinds && kinds[log[i].id] == log[i].kind)
    && (forall id | id in kinds :: id in Ids(log))
  }

  lemma {:induction false} IdsPrefix(log: seq<Instance>, n: nat)
    requires n <= |log|
    ensures Ids(log)[..n] == Ids(log[..n])
    decreases |log|
  {
    if n < |log| {
      IdsPrefix(log[..|log| - 1], n);
      assert log[..|log| - 1][..n] == log[..n];
    } else {
      assert log[..n] == log;
    }
  }

  lemma NothingRecorded()
    ensures KindsOf([], map[]) && Distinct([])
  {
  }

  lemma IdsExtend(log: seq<Instance>, i: nat)
    requires i < |log|
    ensures Ids(log[..i + 1]) == Ids(log[..i]) + [log[i].id]
  {
    assert log[..i + 1][..i] == log[..i];
  }

  lemma RepeatedId(log: seq<Instance>, i: nat, kinds: map<Operation, Kind>)
    requires i < |log| && KindsOf(log[..i], kinds) && log[i].id in kinds && Ids(log)[..i] == Ids(log[..i])
    ensures !Distinct(Ids(log))
  {
    hide Ids;
    IdsAt(log, i);
    var j :| 0 <= j < i && Ids(log[..i])[j] == log[i].id;
    assert Ids(log)[..i][j] == Ids(log)[j];
  }

  lemma FreshId(log: seq<Instance>, i: nat, kinds: map<Operation, Kind>)
    requires i < |log| && KindsOf(log[..i], kinds) && log[i].id !in kinds && Distinct(Ids(log[..i]))
    ensures KindsOf(log[..i + 1], kinds[log[i].id := log[i].kind])
    ensures Distinct(Ids(log[..i]) + [log[i].id])
  {
    var before, ids := log[..i], Ids(log[..i]);
    assert log[..i + 1] == before + [log[i]];
    assert Ids(before + [log[i]]) == ids + [log[i].id] by {
      assert (before + [log[i]])[..i] == before;
    }
    hide Ids;
    forall j | 0 <= j < i
      ensures ids[j] != log[i].id
    {
      IdsAt(before, j);
    }
    assert forall j | 0 <= j < i :: (before + [log[i]])[j] == before[j];
  }

  /** Every required identifier of one kind was recorded with that kind. */
  method CheckKind(log: seq<Instance>, kinds: map<Operation, Kind>, kind: Kind) returns (ok: bool)
    requires KindsOf(log, kinds) && IdsGoverned(log)
    ensures ok <==> forall i | 0 <= i < |log| && KindOf(log[i].id) == Some(kind) :: log[i].kind == kind
  {
    hide GovernedAs, Ids, Rank, KindOf;
    var required := GovernedAs(kind);
    for n := 0 to |required|
      invariant forall m | 0 <= m < n :: required[m] in kinds && kinds[required[m]] == kind
    {
      if required[n] !in kinds || kinds[required[n]] != kind {
        Recorded(log, kind, required[n]);
        ListedIffKind(required[n], kind);
        return false;
      }
    }
    forall i | 0 <= i < |log| && KindOf(log[i].id) == Some(kind)
      ensures log[i].kind == kind
    {
      ListedIffKind(log[i].id, kind);
    }
    return true;
  }

  lemma Recorded(log: seq<Instance>, kind: Kind, id: Operation)
    requires IdsGoverned(log) && id in GovernedAs(kind)
    ensures exists i :: 0 <= i < |log| && log[i].id == id
  {
    ListFacts(kind);
    IdsGovernedIff(log);
    hide GovernedAs, Governed, Ids;
    SameMembers(Ids(log), Governed(), id);
    var i :| 0 <= i < |log| && Ids(log)[i] == id;
    IdsAt(log, i);
  }

  /** The map from an identity to the operation that wrote it last. */
  ghost predicate ProducersOf(log: seq<Instance>, producers: map<Identity, Operation>) {
    forall x: Identity ::
      LastWriter(log, x) == if x in producers then Some(producers[x]) else None
  }

  lemma {:induction false} WrittenIffLastWriter(log: seq<Instance>, x: Identity)
    ensures Written(log, x) <==> LastWriter(log, x).Some?
  {
    if log != [] {
      var n := |log| - 1;
      WrittenIffLastWriter(log[..n], x);
      if Written(log, x) && log[n].output != x {
        var j :| 0 <= j < |log| && log[j].output == x;
        assert log[..n][j].output == x;
      }
      if Written(log[..n], x) {
        var j :| 0 <= j < n && log[..n][j].output == x;
        assert log[j].output == x;
      }
    }
  }

  method CollectProducers(log: seq<Instance>) returns (r: Result<map<Identity, Operation>, GraphError>)
    requires forall i | 0 <= i < |log| ::
               log[i].output.Scoped? && log[i].output.job in {BuildJob, ObserveJob, AdjudicateJob}
    requires forall i | 0 <= i < |log| && log[i].kind == Transform :: IsHex64(log[i].before) && IsHex64(log[i].after)
    ensures r.Success? <==> forall i: nat | i < |log| :: WritesProperly(log, i)
    ensures r.Success? ==> ProducersOf(log, r.value)
    ensures r.Failure? ==> r.error != DigestInvalid && r.error != Incomplete
  {
    hide IsHex64;
    var producers: map<Identity, Operation> := map[];
    for i := 0 to |log|
      invariant ProducersOf(log[..i], producers)
      invariant forall j: nat | j < i :: WritesProperly(log, j)
    {
      var x := log[i];
      assert log[..i + 1][..i] == log[..i];
      WrittenIffLastWriter(log[..i], x.output);
      if !x.output.Scoped? || x.output.job !in {BuildJob, ObserveJob, AdjudicateJob} {
        return Failure(Incomplete);
      }
      if x.kind == Transform {
        if !IsHex64(x.before) || !IsHex64(x.after) {
          return Failure(DigestInvalid);
        }
        if x.before == x.after {
          assert !WritesProperly(log, i);
          return Failure(TransformInert);
        }
        if x.output !in producers {
          assert !WritesProperly(log, i);
          return Failure(TransformUnproduced);
        }
        if |x.inputs| != 1 {
          assert !WritesProperly(log, i);
          return Failure(TransformArity);
        }
        if x.inputs[0] != x.output || x.target != x.output {
          assert !WritesProperly(log, i);
          return Failure(TransformMismatch);
        }
        assert x.inputs == [x.output];
      } else if x.output in producers {
        assert !WritesProperly(log, i);
        return Failure(DuplicateProducer);
      }
      producers := producers[x.output := x.id];
    }
    assert log[..|log|] == log;
    return Success(producers);
  }

  method CheckLinks(log: seq<Instance>, producers: map<Identity, Operation>) returns (failure: Option<GraphError>)
    requires ProducersOf(log, producers)
    ensures failure.None? <==> forall i | 0 <= i < |log| :: ConsumesProperly(log, log[i])
  {
    hide LastWriter;
    for i := 0 to |log|
      invariant forall j | 0 <= j < i :: ConsumesProperly(log, log[j])
    {
      var x := log[i];
      if x.kind == Link {
        var expected := Required(x.id);
        if expected.None? {
          return Some(Incomplete);
        }
        var observed: seq<Operation> := [];
        for k := 0 to |x.inputs|
          invariant |observed| == k
          invariant forall n | 0 <= n < k :: LastWriter(log, x.inputs[n]) == Some(observed[n])
        {
          if x.inputs[k] !in producers {
            assert !ConsumesProperly(log, x);
            return Some(LinkInputUnproduced);
          }
          observed := observed + [producers[x.inputs[k]]];
        }
        if observed != expected.value {
          assert |observed| == |expected.value| ==> exists n :: 0 <= n < |observed| && observed[n] != expected.value[n];
          assert !ConsumesProperly(log, x);
          return Some(LinkInputsMismatch);
        }
      }
    }
    return None;
  }

  /** The union of the three logs is accepted exactly when it is the complete governed graph. */
  method RequireCompleteBuildGraph(build: seq<Instance>, observe: seq<Instance>, adjudicate: seq<Instance>)
    returns (r: Result<nat, GraphError>)
    ensures r.Success? <==> Complete(build, observe, adjudicate)
    ensures r.Success? ==> r.value == 21
  {
    hide LogSound, WritesProperly, ConsumesProperly, Governed, GovernedAs, Ids, CountKind, Distinct, KindsOf, Rank,
        KindOf, KindGoverned;
    var failure := ValidateLog(build, BuildJob);
    if failure.Some? {
      return Failure(failure.value);
    }
    failure := ValidateLog(observe, ObserveJob);
    if failure.Some? {
      return Failure(failure.value);
    }
    failure := ValidateLog(adjudicate, AdjudicateJob);
    if failure.Some? {
      return Failure(failure.value);
    }
    var log := build + observe + adjudicate;
    UnionSound(build, observe, adjudicate);
    var collected := CollectKinds(log);
    if collected.None? {
      return Failure(DuplicateInstance);
    }
    var (ids, kinds) := collected.value;
    IdsGovernedIff(log);
    if multiset(ids) != multiset(Governed()) {
      return Failure(Incomplete);
    }
    var compiles := CheckKind(log, kinds, Compile);
    var links := CheckKind(log, kinds, Link);
    var transforms := CheckKind(log, kinds, Transform);
    KindsChecked(log);
    if !compiles || !links || !transforms {
      return Failure(Incomplete);
    }
    KindCounts(log, Compile);
    KindCounts(log, Link);
    KindCounts(log, Transform);
    if CountKind(log, Compile) != 15 || CountKind(log, Link) != 5 || CountKind(log, Transform) != 1 || |ids| != 21 {
      return Failure(Incomplete);
    }
    var producers := CollectProducers(log);
    if producers.Failure? {
      return Failure(producers.error);
    }
    failure := CheckLinks(log, producers.value);
    if failure.Some? {
      return Failure(failure.value);
    }
    return Success(|ids|);
  }

  lemma UnionSound(build: seq<Instance>, observe: seq<Instance>, adjudicate: seq<Instance>)
    requires LogSound(build, BuildJob) && LogSound(observe, ObserveJob) && LogSound(adjudicate, AdjudicateJob)
    ensures var log := build + observe + adjudicate;
            forall i | 0 <= i < |log| ::
              && log[i].output.Scoped? && log[i].output.job in {BuildJob, ObserveJob, AdjudicateJob}
              && (log[i].kind == Transform ==> IsHex64(log[i].before) && IsHex64(log[i].after))
  {
    hide IsHex64;
  }

  lemma KindsChecked(log: seq<Instance>)
    ensures (forall i | 0 <= i < |log| :: KindGoverned(log[i]))
            <==> && (forall i | 0 <= i < |log| && KindOf(log[i].id) == Some(Compile) :: log[i].kind == Compile)
                 && (forall i | 0 <= i < |log| && KindOf(log[i].id) == Some(Link) :: log[i].kind == Link)
                 && (forall i | 0 <= i < |log| && KindOf(log[i].id) == Some(Transform) :: log[i].kind == Transform)
  {
    hide Rank;
  }

  // ---------- what an accepted graph guarantees ----------

  /** Only a transform writes an identity that something earlier wrote, so no two compiles or links
      share an output. */
  lemma OutputsDistinct(log: seq<Instance>, i: nat, j: nat)
    requires Graph(log) && i < j < |log| && log[i].output == log[j].output
    ensures log[j].kind == Transform
  {
    hide Governed, Ids, KindGoverned, ConsumesProperly;
    assert WritesProperly(log, j);
    assert log[..j][i].output == log[j].output;
  }

  lemma GraphKinds(log: seq<Instance>, kind: Kind)
    requires Graph(log)
    ensures |log| == 21 && CountKind(log, kind) == Amount(kind)
    ensures forall i | 0 <= i < |log| :: log[i].kind == kind <==> KindOf(log[i].id) == Some(kind)
  {
    hide KindGoverned, IdsGoverned, KindOf;
    KindAmounts(log, kind);
    KindsMatch(log, kind);
  }

  /** Each governed operation was recorded exactly once. */
  lemma GraphHasOne(log: seq<Instance>, id: Operation) returns (i: nat)
    requires Graph(log) && Rank(id) < 21
    ensures i < |log| && log[i].id == id && forall j | 0 <= j < |log| && log[j].id == id :: j == i
  {
    hide Governed, KindGoverned, WritesProperly, ConsumesProperly, Ids, Rank;
    IdsGovernedIff(log);
    MemberIffRanked(id);
    SameMembers(Ids(log), Governed(), id);
    i :| 0 <= i < |log| && Ids(log)[i] == id;
    IdsAt(log, i);
    forall j | 0 <= j < |log| && log[j].id == id
      ensures j == i
    {
      IdsAt(log, j);
    }
  }

  lemma {:induction false} LastWriterIs(log: seq<Instance>, x: Identity)
    ensures LastWriter(log, x).Some? ==>
              exists w: nat :: WritesLast(log, x, w) && w < |log| && log[w].id == LastWriter(log, x).value
  {
    if log != [] {
      var n := |log| - 1;
      LastWriterIs(log[..n], x);
      if log[n].output == x {
        assert WritesLast(log, x, n);
      } else if LastWriter(log[..n], x).Some? {
        var w: nat :| WritesLast(log[..n], x, w) && log[..n][w].id == LastWriter(log[..n], x).value;
        forall j | w < j < |log|
          ensures log[j].output != x
        {
          assert j < n ==> log[..n][j].output != x;
        }
        assert WritesLast(log, x, w);
      }
    }
  }

  /** Instance `w` wrote `x` and nothing later did. */
  predicate WritesLast(log: seq<Instance>, x: Identity, w: nat) {
    w < |log| && log[w].output == x && forall j | w < j < |log| :: log[j].output != x
  }

  /** The `k`-th input of a link is what the `k`-th operation it requires wrote, and that operation
      is the last in the whole union to write it. */
  lemma LinkInputsFromProducers(log: seq<Instance>, i: nat, k: nat) returns (w: nat)
    requires Graph(log) && i < |log| && log[i].kind == Link && k < |log[i].inputs|
    ensures Required(log[i].id).Some? && |Required(log[i].id).value| == |log[i].inputs|
    ensures w < |log| && log[w].id == Required(log[i].id).value[k]
    ensures log[w].output == log[i].inputs[k] && WritesLast(log, log[i].inputs[k], w)
  {
    hide Governed, Ids, KindGoverned, WritesProperly, LastWriter, WritesLast;
    assert ConsumesProperly(log, log[i]);
    var x := log[i].inputs[k];
    LastWriterIs(log, x);
    w :| WritesLast(log, x, w) && w < |log| && log[w].id == LastWriter(log, x).value;
    LastWrites(log, x, w);
  }

  lemma LastWrites(log: seq<Instance>, x: Identity, w: nat)
    requires WritesLast(log, x, w)
    ensures w < |log| && log[w].output == x
  {
  }

  /** A link that some operation feeds, and the place it feeds it at. */
  function Consumer(id: Operation): Option<(Operation, nat)> {
    match id
    case WorkerStart => Some((WorkerLink, 0)) case WorkerBootstrap => Some((WorkerLink, 1))
    case WorkerVerify => Some((WorkerLink, 2))
    case WorkerPolicy => Some((WorkerLink, 3)) case WorkerCapability => Some((WorkerLink, 4))
    case BlstServer => Some((WorkerLink, 5))
    case BlstAssemblyStrip => Some((WorkerLink, 6))
    case ObserverLauncher => Some((ObserverLink, 0)) case ObserverPolicy => Some((ObserverLink, 1))
    case ObserveLauncher => Some((ObserveObserverLink, 0)) case ObserveProbe => Some((ObserveProbeLink, 0))
    case ObservePolicy => Some((ObserveProbeLink, 1))
    case AdjudicateProbe => Some((AdjudicateProbeLink, 0)) case AdjudicatePolicy => Some((AdjudicateProbeLink, 1))
    case _ => None
  }

  /** What the operation wrote is consumed unchanged: nothing later rewrites it. */
  lemma ConsumedOutputsFinal(log: seq<Instance>, p: nat)
    requires Graph(log) && p < |log| && Consumer(log[p].id).Some?
    ensures WritesLast(log, log[p].output, p)
  {
    hide Governed, GovernedAs, Ids, KindGoverned, WritesProperly, LastWriter, WritesLast, Graph;
    var (link, k) := Consumer(log[p].id).value;
    ConsumerRequires(log[p].id);
    var i := GraphHasOne(log, link);
    GraphKinds(log, Link);
    GraphConsumes(log, i);
    var w := LinkInputsFromProducers(log, i, k);
    var only := GraphHasOne(log, log[p].id);
  }

  lemma GraphConsumes(log: seq<Instance>, i: nat)
    requires Graph(log) && i < |log| && log[i].kind == Link
    ensures Required(log[i].id).Some? && |Required(log[i].id).value| == |log[i].inputs|
  {
    assert ConsumesProperly(log, log[i]);
  }

  lemma ConsumerRequires(id: Operation)
    requires Consumer(id).Some?
    ensures var (link, k) := Consumer(id).value;
            && KindOf(link) == Some(Link) && Rank(link) < 21 && Rank(id) < 21
            && Required(link).Some? && k < |Required(link).value| && Required(link).value[k] == id
  {
  }

  /** The one transform rewrites the output of one operation, and that operation is blst-assembly,
      observer-probe or a link: the graph rule alone does not say which. */
  lemma StripRewritesOneOf(log: seq<Instance>, t: nat) returns (p: nat)
    requires Graph(log) && t < |log| && log[t].kind == Transform
    ensures log[t].id == BlstAssemblyStrip
    ensures p < t && log[p].output == log[t].output
    ensures forall j | 0 <= j < |log| && log[j].output == log[t].output :: j == p || j == t
    ensures log[p].id in {BlstAssembly, ObserverProbe} || log[p].kind == Link
  {
    hide Graph, WritesLast;
    OneTransform(log, t, t);
    p := RewrittenBefore(log, t);
    forall j | 0 <= j < |log| && log[j].output == log[t].output
      ensures j == p || j == t
    {
      OnlyTwoWrite(log, p, t, j);
    }
    RewrittenUnconsumed(log, p, t);
  }

  lemma OnlyTwoWrite(log: seq<Instance>, p: nat, t: nat, j: nat)
    requires Graph(log) && p < t < |log| && log[t].kind == Transform && log[p].output == log[t].output
    requires j < |log| && log[j].output == log[t].output
    ensures j == p || j == t
  {
    hide Graph;
    if p < j {
      OutputsDistinct(log, p, j);
      OneTransform(log, t, j);
    } else if j < p {
      OutputsDistinct(log, j, p);
      OneTransform(log, t, p);
    }
  }

  lemma RewrittenUnconsumed(log: seq<Instance>, p: nat, t: nat)
    requires Graph(log) && p < t < |log| && log[t].kind == Transform && log[p].output == log[t].output
    ensures log[p].id in {BlstAssembly, ObserverProbe} || log[p].kind == Link
  {
    hide Graph, GovernedAs, Consumer;
    if log[p].kind == Transform {
      OneTransform(log, t, p);
    } else if log[p].kind == Compile {
      GraphKinds(log, Compile);
      CompileWithoutConsumer(log[p].id);
      if Consumer(log[p].id).Some? {
        ConsumedOutputsFinal(log, p);
      }
    }
  }

  lemma RewrittenBefore(log: seq<Instance>, t: nat) returns (p: nat)
    requires Graph(log) && t < |log| && log[t].kind == Transform
    ensures p < t && log[p].output == log[t].output
  {
    hide Governed, Ids, KindGoverned, ConsumesProperly;
    assert WritesProperly(log, t);
    p :| 0 <= p < t && log[..t][p].output == log[t].output;
  }

  lemma OneTransform(log: seq<Instance>, t: nat, j: nat)
    requires Graph(log) && t < |log| && j < |log| && log[t].kind == log[j].kind == Transform
    ensures t == j && log[t].id == BlstAssemblyStrip
  {
    GraphKinds(log, Transform);
    hide Graph;
    assert forall id | KindOf(id) == Some(Transform) :: id == BlstAssemblyStrip;
    var only := GraphHasOne(log, BlstAssemblyStrip);
  }

  lemma CompileWithoutConsumer(id: Operation)
    requires KindOf(id) == Some(Compile)
    ensures Consumer(id).Some? || id in {BlstAssembly, ObserverProbe}
  {
  }

  // ---------- what every accepted record says ----------

  predicate LowerHex(s: string) {
    forall i | 0 <= i < |s| :: s[i] in "0123456789abcdef"
  }

  lemma HexIsLowerHex(s: string)
    ensures IsHex64(s) <==> |s| == 64 && LowerHex(s)
  {
    forall c: char
      ensures '0' <= c <= '9' || 'a' <= c <= 'f' <==> c in "0123456789abcdef"
    {
      HexCharacter(c);
    }
  }

  lemma HexCharacter(c: char)
    ensures '0' <= c <= '9' || 'a' <= c <= 'f' <==> c in "0123456789abcdef"
  {
    var digits := "0123456789abcdef";
    assert '0' <= c <= '9' ==> digits[c as int - 48] == c;
    assert 'a' <= c <= 'f' ==> digits[c as int - 87] == c;
  }

  /** Every record of an accepted union stands in the log of its own job, has inputs, and writes an
      identity of that job. The transform consumes and targets what it rewrites, and its two digests
      are 64 hexadecimal digits each, and differ. */
  lemma AcceptedRecord(build: seq<Instance>, observe: seq<Instance>, adjudicate: seq<Instance>, i: nat)
    requires Complete(build, observe, adjudicate) && i < |build + observe + adjudicate|
    ensures var x := (build + observe + adjudicate)[i];
            && x.job == (if i < |build| then BuildJob
                         else if i < |build| + |observe| then ObserveJob else AdjudicateJob)
            && build != [] && observe != [] && adjudicate != []
            && x.inputs != [] && x.output.Scoped? && x.output.job == x.job
            && (x.kind == Transform ==>
                  && x.inputs == [x.output] && x.target == x.output && x.before != x.after
                  && |x.before| == 64 && LowerHex(x.before) && |x.after| == 64 && LowerHex(x.after))
  {
    hide IdsGoverned, KindGoverned, ConsumesProperly, IsHex64, LowerHex;
    var log := build + observe + adjudicate;
    HexIsLowerHex(log[i].before);
    HexIsLowerHex(log[i].after);
    assert Sound(log[i], if i < |build| then BuildJob
                         else if i < |build| + |observe| then ObserveJob else AdjudicateJob);
    assert WritesProperly(log, i);
  }

  // ---------- what the recorded build inventory adds ----------

  function Name(id: Operation): string {
    match id
    case AdjudicatePolicy => "adjudicate-policy" case AdjudicateProbe => "adjudicate-probe"
    case BlstAssembly => "blst-assembly" case BlstServer => "blst-server"
    case ObserveLauncher => "observe-launcher" case ObservePolicy => "observe-policy"
    case ObserveProbe => "observe-probe"
    case ObserverLauncher => "observer-launcher" case ObserverPolicy => "observer-policy"
    case ObserverProbe => "observer-probe"
    case WorkerBootstrap => "worker-bootstrap" case WorkerCapability => "worker-capability"
    case WorkerPolicy => "worker-policy" case WorkerStart => "worker-start" case WorkerVerify => "worker-verify"
    case AdjudicateProbeLink => "adjudicate-probe-link" case ObserveObserverLink => "observe-observer-link"
    case ObserveProbeLink => "observe-probe-link" case ObserverLink => "observer-link" case WorkerLink => "worker-link"
    case BlstAssemblyStrip => "blst-assembly-strip"
    case Other(name) => name
  }

  /** What each link must be given, by the names on record. */
  function LinkedNames(link: string): seq<string> {
    if link == "worker-link" then
      ["worker-start", "worker-bootstrap", "worker-verify", "worker-policy", "worker-capability", "blst-server",
       "blst-assembly-strip"]
    else if link == "observer-link" then ["observer-launcher", "observer-policy"]
    else if link == "observe-observer-link" then ["observe-launcher", "observe-policy"]
    else if link == "observe-probe-link" then ["observe-probe", "observe-policy"]
    else if link == "adjudicate-probe-link" then ["adjudicate-probe", "adjudicate-policy"]
    else []
  }

  lemma RequiredNames(id: Operation)
    requires KindOf(id) == Some(Link)
    ensures Required(id).Some? && |LinkedNames(Name(id))| == |Required(id).value|
    ensures forall k | 0 <= k < |Required(id).value| :: Name(Required(id).value[k]) == LinkedNames(Name(id))[k]
  {
    if id == WorkerLink {
      WorkerNames();
      hide Name, LinkedNames, Required;
    }
  }

  lemma WorkerNames()
    ensures Required(WorkerLink).Some? && |LinkedNames(Name(WorkerLink))| == |Required(WorkerLink).value|
    ensures forall k | 0 <= k < |Required(WorkerLink).value| ::
              Name(Required(WorkerLink).value[k]) == LinkedNames(Name(WorkerLink))[k]
  {
  }

  /** In an accepted union the `k`-th input of a link was written last by the operation named there. */
  lemma LinkInputsByName(log: seq<Instance>, i: nat, k: nat) returns (w: nat)
    requires Graph(log) && i < |log| && log[i].kind == Link && k < |log[i].inputs|
    ensures |log[i].inputs| == |LinkedNames(Name(log[i].id))|
    ensures w < |log| && log[w].output == log[i].inputs[k] && Name(log[w].id) == LinkedNames(Name(log[i].id))[k]
    ensures forall j | w < j < |log| :: log[j].output != log[i].inputs[k]
  {
    hide Graph, Name, LinkedNames, Required;
    GraphKinds(log, Link);
    RequiredNames(log[i].id);
    w := LinkInputsFromProducers(log, i, k);
    assert WritesLast(log, log[i].inputs[k], w);
  }

  const COMPILE_NAMES: seq<string> :=
    ["adjudicate-policy", "adjudicate-probe", "blst-assembly", "blst-server", "observe-launcher", "observe-policy",
     "observe-probe", "observer-launcher", "observer-policy", "observer-probe", "worker-bootstrap",
     "worker-capability", "worker-policy", "worker-start", "worker-verify"]
  const LINK_NAMES: seq<string> :=
    ["adjudicate-probe-link", "observe-observer-link", "observe-probe-link", "observer-link", "worker-link"]

  /** The governed names of each kind. */
  lemma KindByName(id: Operation)
    requires KindOf(id).Some?
    ensures match KindOf(id).value
            case Compile => 0 <= Rank(id) < 15 && Name(id) == COMPILE_NAMES[Rank(id)]
            case Link => 15 <= Rank(id) < 20 && Name(id) == LINK_NAMES[Rank(id) - 15]
            case Transform => Name(id) == "blst-assembly-strip"
  {
  }

  /** The operations of the build job, as the governed set lists them. */
  function BuildJobInstances(): (ids: seq<Operation>)
    ensures |ids| == 13
  {
    [BlstAssembly, BlstAssemblyStrip, BlstServer, ObserverLauncher, ObserverLink, ObserverPolicy, ObserverProbe,
     WorkerBootstrap, WorkerCapability, WorkerLink, WorkerPolicy, WorkerStart, WorkerVerify]
  }

  lemma BuildJobNames(i: nat)
    requires i < 13
    ensures Name(BuildJobInstances()[i])
              == ["blst-assembly", "blst-assembly-strip", "blst-server", "observer-launcher", "observer-link",
                  "observer-policy", "observer-probe", "worker-bootstrap", "worker-capability", "worker-link",
                  "worker-policy", "worker-start", "worker-verify"][i]
  {
  }

  /** The checks on the build log that precede the union: no identifier twice, exactly the governed
      set of the build job, recorded in the order of the names. */
  ghost predicate BuildInventory(build: seq<Instance>) {
    && Distinct(Ids(build))
    && (forall id :: id in Ids(build) <==> id in BuildJobInstances())
    && forall i, j | 0 <= i < j < |build| :: TextLe(Name(build[i].id), Name(build[j].id))
  }

  /** Neighbours in the governed list first differ where this says. */
  function Differ(i: nat): (k: nat)
    requires i < 12
  {
    [13, 5, 0, 10, 9, 10, 0, 7, 7, 7, 7, 7][i]
  }

  lemma NeighboursAscend(i: nat)
    requires i < 12
    ensures TextLe(Name(BuildJobInstances()[i]), Name(BuildJobInstances()[i + 1]))
    ensures !TextLe(Name(BuildJobInstances()[i + 1]), Name(BuildJobInstances()[i]))
  {
    FirstDifference(Name(BuildJobInstances()[i]), Name(BuildJobInstances()[i + 1]), Differ(i));
  }

  lemma {:induction false} LaterAscend(i: nat, j: nat)
    requires i < j < 13
    ensures TextLe(Name(BuildJobInstances()[i]), Name(BuildJobInstances()[j]))
    ensures !TextLe(Name(BuildJobInstances()[j]), Name(BuildJobInstances()[i]))
    decreases j
  {
    hide Name, TextLe, BuildJobInstances;
    NeighboursAscend(j - 1);
    var a, b, c := Name(BuildJobInstances()[i]), Name(BuildJobInstances()[j - 1]), Name(BuildJobInstances()[j]);
    if i < j - 1 {
      LaterAscend(i, j - 1);
      TextLeTransitive(a, b, c);
      if TextLe(c, a) {
        TextLeTransitive(b, c, a);
      }
    }
  }

  ghost predicate Ascending(ids: seq<Operation>) {
    forall i, j | 0 <= i < j < |ids| :: TextLe(Name(ids[i]), Name(ids[j]))
  }

  lemma {:induction false} AscendingUnique(ids: seq<Operation>, k: nat)
    requires k <= 13 && Distinct(ids) && Ascending(ids)
    requires forall id :: id in ids <==> id in BuildJobInstances()[..k]
    ensures ids == BuildJobInstances()[..k]
    decreases k
  {
    hide Name, TextLe, BuildJobInstances;
    var governed, n := BuildJobInstances(), |ids| - 1;
    if k == 0 {
      NonemptyHasMember(ids);
    } else {
      assert governed[k - 1] in governed[..k];
      var p :| 0 <= p < |ids| && ids[p] == governed[k - 1];
      if p < n {
        assert ids[n] in governed[..k];
        var q :| 0 <= q < k && governed[q] == ids[n];
        LaterAscend(q, k - 1);
        assert false;
      }
      GovernedDiffer(k);
      assert ids == ids[..n] + [ids[n]];
      forall id
        ensures id in ids[..n] <==> id in governed[..k - 1]
      {
        PrefixMembers(ids, k, id);
      }
      AscendingUnique(ids[..n], k - 1);
    }
  }

  lemma PrefixMembers(ids: seq<Operation>, k: nat, id: Operation)
    requires 0 < k <= 13 && ids != [] && Distinct(ids) && ids[|ids| - 1] == BuildJobInstances()[k - 1]
    requires id in ids <==> id in BuildJobInstances()[..k]
    ensures id in ids[..|ids| - 1] <==> id in BuildJobInstances()[..k - 1]
  {
    hide BuildJobInstances;
    GovernedDiffer(k);
    var governed, n := BuildJobInstances(), |ids| - 1;
    assert governed[..k] == governed[..k - 1] + [governed[k - 1]];
    assert ids == ids[..n] + [ids[n]];
    assert ids[n] !in ids[..n];
  }

  lemma NonemptyHasMember(ids: seq<Operation>)
    ensures ids == [] || exists id :: id in ids
  {
    if ids != [] {
      assert ids[0] in ids;
    }
  }

  lemma GovernedDiffer(k: nat)
    requires 0 < k <= 13
    ensures BuildJobInstances()[k - 1] !in BuildJobInstances()[..k - 1]
  {
    hide BuildJobInstances, Name, TextLe;
    forall i: nat | i < k - 1
      ensures BuildJobInstances()[i] != BuildJobInstances()[k - 1]
    {
      LaterAscend(i, k - 1);
    }
  }

  /** The three checks fix the recorded sequence. */
  lemma InventoryIffRecorded(build: seq<Instance>)
    ensures BuildInventory(build) <==> Ids(build) == BuildJobInstances()
  {
    hide Name, TextLe, BuildJobInstances, Ids;
    var ids, governed := Ids(build), BuildJobInstances();
    forall i: nat | i < |build|
      ensures ids[i] == build[i].id
    {
      IdsAt(build, i);
    }
    if BuildInventory(build) {
      assert governed[..13] == governed;
      AscendingUnique(ids, 13);
    }
    if ids == governed {
      forall i: nat, j: nat | i < j < 13
        ensures governed[i] != governed[j] && TextLe(Name(governed[i]), Name(governed[j]))
      {
        LaterAscend(i, j);
      }
    }
  }

  /** Under those checks the transform always rewrites the object of blst-assembly: it is recorded
      second, and nothing but blst-assembly comes before it. */
  lemma StripRewritesBlstAssembly(build: seq<Instance>, observe: seq<Instance>, adjudicate: seq<Instance>)
    requires Complete(build, observe, adjudicate) && BuildInventory(build)
    ensures var log := build + observe + adjudicate;
            && log[0].id == BlstAssembly && log[1].id == BlstAssemblyStrip && log[1].kind == Transform
            && log[1].inputs == [log[0].output] && log[1].output == log[0].output
            && forall j | 2 <= j < |log| :: log[j].output != log[0].output && log[j].kind != Transform
  {
    hide Graph, Name, TextLe, Ids, LogSound;
    var log := build + observe + adjudicate;
    InventoryIffRecorded(build);
    IdsAt(build, 0);
    IdsAt(build, 1);
    StripIsTransform(log, 1);
    var p := RewrittenBefore(log, 1);
    TransformInputs(log, 1);
    forall j: nat | 2 <= j < |log|
      ensures log[j].output != log[0].output && log[j].kind != Transform
    {
      if log[j].output == log[0].output {
        OnlyTwoWrite(log, 0, 1, j);
      } else if log[j].kind == Transform {
        OneTransform(log, 1, j);
      }
    }
  }

  lemma StripIsTransform(log: seq<Instance>, t: nat)
    requires Graph(log) && t < |log| && log[t].id == BlstAssemblyStrip
    ensures log[t].kind == Transform
  {
    hide WritesProperly, ConsumesProperly, IdsGoverned;
    assert KindGoverned(log[t]);
  }

  lemma TransformInputs(log: seq<Instance>, t: nat)
    requires Graph(log) && t < |log| && log[t].kind == Transform
    ensures log[t].inputs == [log[t].output]
  {
    hide ConsumesProperly, IdsGoverned, KindGoverned;
    assert WritesProperly(log, t);
  }

  // ---------- what the function alone leaves open ----------

  /** A sample union: which rank is recorded at each position and where each rank stands, the job of
      each rank, and the rank whose output the transform rewrites. */
  datatype Layout = Layout(order: seq<nat>, place: seq<nat>, jobs: seq<Job>, p: nat)

  predicate Laid(l: Layout) {
    && |l.order| == |l.place| == |l.jobs| == 21
    && (forall i | 0 <= i < 21 :: l.order[i] < 21 && l.place[l.order[i]] == i)
    && (forall r | 0 <= r < 21 :: l.place[r] < 21 && l.order[l.place[r]] == r)
    && l.p < 20 && Consumer(Governed()[l.p]).None? && l.place[l.p] < l.place[20]
  }

  /** Every operation writes an identity of its own, except that the transform rewrites that of `p`. */
  function SampleOutput(l: Layout, r: nat): Identity
    requires Laid(l) && r < 21
  {
    var own := if r == 20 then l.p else r;
    Scoped(l.jobs[own], seq(own, _ => 'x'))
  }

  function SampleInputs(l: Layout, id: Operation): seq<Identity>
    requires Laid(l)
  {
    match Required(id)
    case None => [if id == BlstAssemblyStrip then SampleOutput(l, 20) else Unscoped("source")]
    case Some(required) =>
      seq(|required|, k requires 0 <= k < |required| =>
        if Rank(required[k]) < 21 then SampleOutput(l, Rank(required[k])) else Unscoped(""))
  }

  function SampleInstance(l: Layout, i: nat): Instance
    requires Laid(l) && i < 21
  {
    var r := l.order[i];
    var id, output := Governed()[r], SampleOutput(l, r);
    Instance(id, if r < 15 then Compile else if r < 20 then Link else Transform, output.job, SampleInputs(l, id),
             output, output, seq(64, _ => '0'), seq(64, _ => '1'))
  }

  function Sample(l: Layout): (log: seq<Instance>)
    requires Laid(l)
    ensures |log| == 21
  {
    seq(21, i requires 0 <= i < 21 => SampleInstance(l, i))
  }

  lemma {:induction false} WritesLastIsLastWriter(log: seq<Instance>, x: Identity, w: nat)
    requires WritesLast(log, x, w)
    ensures LastWriter(log, x) == Some(log[w].id)
  {
    var n := |log| - 1;
    if w < n {
      assert forall j | 0 <= j < n :: log[..n][j] == log[j];
      WritesLastIsLastWriter(log[..n], x, w);
    }
  }

  lemma SampleOutputsDiffer(l: Layout, r: nat, q: nat)
    requires Laid(l) && r < 21 && q < 21 && SampleOutput(l, r) == SampleOutput(l, q)
    ensures r == q || (r == 20 && q == l.p) || (r == l.p && q == 20)
  {
    var a, b := if r == 20 then l.p else r, if q == 20 then l.p else q;
    assert |seq(a, _ => 'x')| == |seq(b, _ => 'x')|;
  }

  lemma {:induction false} SampleWrites(l: Layout, i: nat)
    requires Laid(l) && i < 21
    ensures WritesProperly(Sample(l), i)
  {
    hide Governed, SampleOutput, Rank, Consumer;
    var log := Sample(l);
    if l.order[i] == 20 {
      SampleStrip(l);
      assert log[..i][l.place[l.p]].output == log[i].output;
      StripInputs(l, i);
      assert log[i].before[0] != log[i].after[0];
    } else {
      forall j | 0 <= j < i
        ensures log[..i][j].output != log[i].output
      {
        if log[j].output == log[i].output {
          SampleOutputsDiffer(l, l.order[j], l.order[i]);
        }
      }
    }
  }

  lemma SampleStrip(l: Layout)
    requires Laid(l)
    ensures SampleOutput(l, 20) == SampleOutput(l, l.p)
  {
  }

  lemma StripInputs(l: Layout, i: nat)
    requires Laid(l) && i < 21 && l.order[i] == 20
    ensures SampleInstance(l, i).inputs == [SampleInstance(l, i).output]
  {
    GovernedRanked();
    assert Governed()[20] == BlstAssemblyStrip;
  }

  /** Whatever has no consuming link can be what the transform rewrites. */
  lemma {:induction false} SampleConsumes(l: Layout, i: nat)
    requires Laid(l) && i < 21
    ensures ConsumesProperly(Sample(l), Sample(l)[i])
  {
    GovernedRanked();
    var log := Sample(l);
    var x := log[i];
    hide Governed, Rank, Required, LastWriter, GovernedAs, Consumer;
    if x.kind == Link {
      ListedIffRanked(x.id, Link);
      LinksRequire(x.id);
      var required := Required(x.id).value;
      forall k | 0 <= k < |x.inputs|
        ensures LastWriter(log, x.inputs[k]) == Some(required[k])
      {
        SampleProducer(l, required[k]);
      }
    }
  }

  lemma LinksRequire(id: Operation)
    requires 15 <= Rank(id) < 20
    ensures Required(id).Some?
    ensures forall k | 0 <= k < |Required(id).value| ::
              Rank(Required(id).value[k]) < 21 && Consumer(Required(id).value[k]).Some?
  {
  }

  lemma SampleProducer(l: Layout, id: Operation)
    requires Laid(l) && Rank(id) < 21 && Consumer(id).Some?
    ensures LastWriter(Sample(l), SampleOutput(l, Rank(id))) == Some(id)
  {
    GovernedRanked();
    hide Governed, Rank, LastWriter, SampleOutput, Consumer;
    var log, r := Sample(l), Rank(id);
    RankBounds(id);
    RankInjective(Governed()[r], id);
    var w := l.place[r];
    forall j | w < j < 21
      ensures log[j].output != SampleOutput(l, r)
    {
      if log[j].output == SampleOutput(l, r) {
        SampleOutputsDiffer(l, l.order[j], r);
      }
    }
    WritesLastIsLastWriter(log, SampleOutput(l, r), w);
  }

  lemma SampleIds(l: Layout)
    requires Laid(l)
    ensures IdsGoverned(Sample(l)) && forall i | 0 <= i < 21 :: Ids(Sample(l))[i] == Governed()[l.order[i]]
  {
    GovernedRanked();
    hide Governed, SampleOutput, SampleInputs, Ids, Rank, Consumer;
    var log := Sample(l);
    forall i | 0 <= i < 21
      ensures Ids(log)[i] == log[i].id && Rank(log[i].id) == l.order[i]
    {
      IdsAt(log, i);
    }
  }

  lemma {:induction false} SampleGraph(l: Layout)
    requires Laid(l)
    ensures Graph(Sample(l))
  {
    hide Governed, Consumer, Ids, Sample, Rank, GovernedAs, Laid;
    SampleIds(l);
    var log := Sample(l);
    forall i: nat | i < |log|
      ensures WritesProperly(log, i) && ConsumesProperly(log, log[i]) && KindGoverned(log[i])
    {
      SampleWrites(l, i);
      SampleConsumes(l, i);
      SampleKind(l, i);
    }
    hide WritesProperly, ConsumesProperly, KindGoverned;
  }

  lemma SampleKind(l: Layout, i: nat)
    requires Laid(l) && i < 21
    ensures KindGoverned(Sample(l)[i])
  {
    GovernedRanked();
    hide Governed, Rank, GovernedAs, Consumer;
  }

  lemma SampleSound(l: Layout, i: nat)
    requires Laid(l) && i < 21
    ensures Sound(Sample(l)[i], SampleOutput(l, l.order[i]).job)
  {
    hide Governed, Rank, Consumer, SampleInputs, SampleOutput;
    InputsPresent(l, Sample(l)[i].id);
    OutputScoped(l, l.order[i]);
  }

  lemma OutputScoped(l: Layout, r: nat)
    requires Laid(l) && r < 21
    ensures SampleOutput(l, r).Scoped? && SampleOutput(l, r).job == l.jobs[if r == 20 then l.p else r]
  {
  }

  lemma InputsPresent(l: Layout, id: Operation)
    requires Laid(l)
    ensures SampleInputs(l, id) != []
  {
    hide Rank, SampleOutput, Consumer, Governed;
  }

  /** The sample split into three logs after `a` and `b` records. */
  predicate Split(l: Layout, a: nat, b: nat)
    requires Laid(l)
  {
    && 0 < a < b < 21
    && forall i | 0 <= i < 21 :: l.jobs[if l.order[i] == 20 then l.p else l.order[i]]
         == if i < a then BuildJob else if i < b then ObserveJob else AdjudicateJob
  }

  lemma SampleComplete(l: Layout, a: nat, b: nat)
    requires Laid(l) && Split(l, a, b)
    ensures Complete(Sample(l)[..a], Sample(l)[a..b], Sample(l)[b..])
  {
    assert 0 < a < b < 21;
    hide Laid, Sample, Sound, Graph, Complete, LogSound, Split;
    SampleGraph(l);
    SampleLogs(l, a, b);
    CompleteUnion(Sample(l), a, b);
  }

  lemma CompleteUnion(log: seq<Instance>, a: nat, b: nat)
    requires a <= b <= |log| && Graph(log)
    requires LogSound(log[..a], BuildJob) && LogSound(log[a..b], ObserveJob) && LogSound(log[b..], AdjudicateJob)
    ensures Complete(log[..a], log[a..b], log[b..])
  {
    hide LogSound, Graph;
    assert log[..a] + log[a..b] + log[b..] == log;
  }

  lemma SampleLogs(l: Layout, a: nat, b: nat)
    requires Laid(l) && Split(l, a, b)
    ensures var log := Sample(l);
            LogSound(log[..a], BuildJob) && LogSound(log[a..b], ObserveJob) && LogSound(log[b..], AdjudicateJob)
  {
    hide Laid, Sample, Sound;
    var log := Sample(l);
    forall i: nat | i < 21
      ensures Sound(log[i], if i < a then BuildJob else if i < b then ObserveJob else AdjudicateJob)
    {
      SampleSound(l, i);
      SampleJob(l, a, b, i);
    }
    hide Split;
    assert log[..a] != [] && log[a..b] != [] && log[b..] != [];
  }

  lemma SampleJob(l: Layout, a: nat, b: nat, i: nat)
    requires Laid(l) && Split(l, a, b) && i < 21
    ensures SampleOutput(l, l.order[i]).job == if i < a then BuildJob else if i < b then ObserveJob else AdjudicateJob
  {
    OutputScoped(l, l.order[i]);
    hide SampleOutput, Consumer, Governed;
  }

  /** All but two operations in the build log, the transform after them, and one in each other log. */
  function Late(p: nat): Layout {
    Layout(seq(21, i => if 0 <= i < 19 then i + 2 else if i == 20 then 1 else 0),
           seq(21, r => if r < 2 then if r < 0 then 0 else r + 19 else r - 2),
           seq(21, r => if r == 0 then ObserveJob else if r == 1 then AdjudicateJob else BuildJob), p)
  }

  /** Taken without the inventory checks, the graph rule alone fixes no more than the seven alternatives:
      each operation that no link consumes has an accepted union in which the transform rewrites its output. */
  lemma {:induction false} EachCanBeRewritten(p: nat)
    requires 2 <= p < 20 && Consumer(Governed()[p]).None?
    ensures Laid(Late(p))
    ensures var log := Sample(Late(p));
            && Complete(log[..19], log[19..20], log[20..])
            && log[18].kind == Transform && log[p - 2].id == Governed()[p] && log[p - 2].output == log[18].output
  {
    LateLaid(p);
    SampleStrip(Late(p));
    SampleComplete(Late(p), 19, 20);
    hide Governed, Consumer, SampleInputs, SampleOutput, Complete, Laid;
  }

  lemma LateLaid(p: nat)
    requires 2 <= p < 20 && Consumer(Governed()[p]).None?
    ensures Laid(Late(p)) && Split(Late(p), 19, 20)
  {
    hide Governed, Consumer;
  }

  /** The logs in the order the governed jobs record them. */
  function RecordedLayout(): (l: Layout)
    ensures |l.order| == |l.place| == |l.jobs| == 21 && l.p == 2 && l.place[2] < l.place[20]
  {
    Layout([2, 20, 3, 7, 18, 8, 9, 10, 11, 19, 12, 13, 14, 4, 16, 5, 6, 17, 0, 15, 1],
           [18, 20, 0, 2, 13, 15, 16, 3, 5, 6, 7, 8, 10, 11, 12, 19, 14, 17, 4, 9, 1],
           [AdjudicateJob, AdjudicateJob, BuildJob, BuildJob, ObserveJob, ObserveJob, ObserveJob, BuildJob,
            BuildJob, BuildJob, BuildJob, BuildJob, BuildJob, BuildJob, BuildJob, AdjudicateJob, ObserveJob,
            ObserveJob, BuildJob, BuildJob, BuildJob], 2)
  }

  lemma RecordedLaid()
    ensures Laid(RecordedLayout()) && Split(RecordedLayout(), 13, 18)
  {
    assert Governed()[2] == BlstAssembly;
    assert Consumer(BlstAssembly).None?;
    var l := RecordedLayout();
    hide Governed, RecordedLayout, Consumer;
    forall i: nat | i < 21
      ensures l.order[i] < 21 && l.place[i] < 21 && l.place[l.order[i]] == i && l.order[l.place[i]] == i
      ensures l.jobs[if l.order[i] == 20 then l.p else l.order[i]]
                == if i < 13 then BuildJob else if i < 18 then ObserveJob else AdjudicateJob
    {
      RecordedPlaces(i);
      RecordedJobs(i);
    }
  }

  lemma RecordedPlaces(i: nat)
    requires i < 21
    ensures var l := RecordedLayout();
            l.order[i] < 21 && l.place[i] < 21 && l.place[l.order[i]] == i && l.order[l.place[i]] == i
  {
  }

  lemma RecordedJobs(i: nat)
    requires i < 21
    ensures var l := RecordedLayout();
            && l.order[i] < 21
            && l.jobs[if l.order[i] == 20 then l.p else l.order[i]]
                 == if i < 13 then BuildJob else if i < 18 then ObserveJob else AdjudicateJob
  {
    if i < 11 {
      EarlyJobs(i);
    } else {
      LateJobs(i);
    }
    hide RecordedLayout;
  }

  lemma EarlyJobs(i: nat)
    requires i < 11
    ensures var l := RecordedLayout();
            l.order[i] < 21 && l.jobs[if l.order[i] == 20 then l.p else l.order[i]] == BuildJob
  {
  }

  lemma LateJobs(i: nat)
    requires 11 <= i < 21
    ensures var l := RecordedLayout();
            && l.order[i] < 20
            && l.jobs[l.order[i]] == if i < 13 then BuildJob else if i < 18 then ObserveJob else AdjudicateJob
  {
  }

  /** The checks can be met together: the governed logs, in their recorded order, pass all of them. */
  lemma {:induction false} RecordedUnionAccepted()
    ensures Laid(RecordedLayout())
    ensures var log := Sample(RecordedLayout());
            Complete(log[..13], log[13..18], log[18..]) && BuildInventory(log[..13])
  {
    hide Laid, Complete, Sample, BuildInventory, Ids, RecordedLayout, Governed, BuildJobInstances, Split, IdsGoverned;
    RecordedLaid();
    var log := Sample(RecordedLayout());
    SampleComplete(RecordedLayout(), 13, 18);
    SampleIds(RecordedLayout());
    forall i: nat | i < 13
      ensures Ids(log[..13])[i] == BuildJobInstances()[i]
    {
      IdsAt(log[..13], i);
      IdsAt(log, i);
      RecordedOrder(i);
    }
    InventoryIffRecorded(log[..13]);
  }

  lemma RecordedOrder(i: nat)
    requires i < 13
    ensures RecordedLayout().order[i] < 21 && Governed()[RecordedLayout().order[i]] == BuildJobInstances()[i]
  {
  }
}
