/** The bounded streaming reader of one archive member: what is produced, what is consumed, and
    what a verdict says about the stream that earned it. */
module StreamReader {
  import opened Wrappers
  import opened Bytes

  const CHUNK_BYTES: nat := 65536
  const MAX_RATIO: nat := 100
  const MAX_MEMBER_COMPRESSED: nat := 16777216
  const MAX_AGGREGATE_UNCOMPRESSED: nat := 16777216

  datatype StreamError = MemberStreamOverrun | DeclaredSizeUnderstated | AggregateOverrun | RatioExceeded
                       | CompressedSize | StreamTruncated | AccountingInvalid | DeclaredSizeOverstated
                       | CompressedSizeMisdeclared | CrcInvalid | DeflateStreamInvalid

  /** What the central directory declares of a member, and where its compressed bytes start. */
  datatype Member = Member(fileSize: nat, compressSize: nat, crc: nat, dataStart: nat, cap: nat)

  // ---------- the decompressor ----------

  /** One answer of the decompressor: output, and the input it did not use; or a broken stream. */
  datatype Answer<S> = Answer(state: S, produced: seq<Byte>, tail: seq<Byte>, unused: seq<Byte>, eof: bool) | Broken

  function Leftover<S>(a: Answer<S>): nat
    requires a.Answer?
  {
    if a.eof && |a.unused| > |a.tail| then |a.unused| else |a.tail|
  }

  /** At the end of the stream the two buffers of unused input describe the same bytes, and these are
      counted once; before it only the tail comes back. */
  lemma LeftoverCountedOnce<S>(a: Answer<S>)
    requires a.Answer?
    ensures !a.eof ==> Leftover(a) == |a.tail|
    ensures a.eof && (a.tail == a.unused || a.tail == []) ==> Leftover(a) == |a.unused|
    ensures a.eof && a.unused == [] ==> Leftover(a) == |a.tail|
  {
  }

  /** No call that neither ends the stream nor fails comes back with nothing done. */
  ghost predicate Progresses<S(!new)>(dec: (S, seq<Byte>) -> Answer<S>) {
    forall s, input :: input != [] && dec(s, input).Answer? && !dec(s, input).eof ==>
                         dec(s, input).produced != [] || Leftover(dec(s, input)) != |input|
  }

  /** Unused input is always the end of what was offered. */
  ghost predicate SuffixTails<S(!new)>(dec: (S, seq<Byte>) -> Answer<S>) {
    forall s, input :: input != [] && dec(s, input).Answer? ==>
                         Leftover(dec(s, input)) <= |input| &&
                         (!dec(s, input).eof ==> dec(s, input).tail == input[|input| - |dec(s, input).tail|..])
  }

  lemma AnswerOf<S(!new)>(dec: (S, seq<Byte>) -> Answer<S>, s: S, input: seq<Byte>)
    requires input != [] && dec(s, input).Answer?
    ensures Progresses(dec) && !dec(s, input).eof ==> dec(s, input).produced != [] || Leftover(dec(s, input)) != |input|
    ensures SuffixTails(dec) ==> Leftover(dec(s, input)) <= |input|
    ensures SuffixTails(dec) && !dec(s, input).eof ==> dec(s, input).tail == input[|input| - Leftover(dec(s, input))..]
  {
  }

  // ---------- what happened ----------

  /** One step of reading: what was offered, what came out, and how much of the offer was used. */
  datatype Call = Call(offered: seq<Byte>, produced: seq<Byte>, used: nat)

  function Produced(calls: seq<Call>): nat {
    if calls == [] then 0 else Produced(calls[..|calls| - 1]) + |calls[|calls| - 1].produced|
  }

  function Consumed(calls: seq<Call>): nat {
    if calls == [] then 0 else Consumed(calls[..|calls| - 1]) + calls[|calls| - 1].used
  }

  function Output(calls: seq<Call>): seq<Byte> {
    if calls == [] then [] else Output(calls[..|calls| - 1]) + calls[|calls| - 1].produced
  }

  predicate UsesOffered(calls: seq<Call>) {
    forall i | 0 <= i < |calls| :: calls[i].used <= |calls[i].offered|
  }

  /** The bytes consumed, call after call. */
  function Input(calls: seq<Call>): seq<Byte>
    requires UsesOffered(calls)
  {
    if calls == [] then []
    else Input(calls[..|calls| - 1]) + calls[|calls| - 1].offered[..calls[|calls| - 1].used]
  }

  /** The decompressor's state after the given offers. */
  function StateAfter<S>(dec: (S, seq<Byte>) -> Answer<S>, start: S, calls: seq<Call>): S {
    if calls == [] then start
    else
      var before := StateAfter(dec, start, calls[..|calls| - 1]);
      match dec(before, calls[|calls| - 1].offered)
      case Answer(now, _, _, _, _) => now
      case Broken => before
  }

  predicate AnswersCall<S>(dec: (S, seq<Byte>) -> Answer<S>, s: S, c: Call, eof: bool) {
    var a := dec(s, c.offered);
    a.Answer? && a.eof == eof && a.produced == c.produced && Leftover(a) <= |c.offered|
        && c.used == |c.offered| - Leftover(a)
  }

  /** Each call is the decompressor's own answer, and only the last may end the stream. */
  predicate Answered<S>(dec: (S, seq<Byte>) -> Answer<S>, start: S, calls: seq<Call>, eof: bool) {
    if calls == [] then !eof
    else
      var before := calls[..|calls| - 1];
      Answered(dec, start, before, false) && AnswersCall(dec, StateAfter(dec, start, before), calls[|calls| - 1], eof)
  }

  // ---------- the running account ----------

  /** Output counted over all members of the archive. */
  class AggregateState {
    var streamed: nat

    constructor ()
      ensures streamed == 0
    {
      streamed := 0;
    }
  }

  /** The bounds every production step must keep, in the order they are checked. */
  function StepVerdict(m: Member, produced: nat, consumed: nat, aggregate: nat): (v: Option<StreamError>)
    ensures v.Some? ==> v.value in {MemberStreamOverrun, DeclaredSizeUnderstated, AggregateOverrun, RatioExceeded,
                                    CompressedSize}
    ensures v == Some(CompressedSize) ==> consumed > 16777216
  {
    if produced > m.cap then Some(MemberStreamOverrun)
    else if produced > m.fileSize then Some(DeclaredSizeUnderstated)
    else if aggregate > 16777216 then Some(AggregateOverrun)
    else if produced > 100 * consumed then Some(RatioExceeded)
    else if consumed > 16777216 then Some(CompressedSize)
    else None
  }

  /** A step is within the bounds exactly when the output stays within the member's cap, its declared
      size and 16 MiB in all, is at most a hundred times what was consumed, and that is at most 16 MiB;
      the first bound broken, in this order, is the one named. */
  lemma VerdictMeans(m: Member, produced: nat, consumed: nat, aggregate: nat)
    ensures var v := StepVerdict(m, produced, consumed, aggregate);
            && (v == None <==> && produced <= m.cap && produced <= m.fileSize && aggregate <= 16777216
                               && produced <= 100 * consumed && consumed <= 16777216)
            && (v == Some(MemberStreamOverrun) <==> produced > m.cap)
            && (v == Some(DeclaredSizeUnderstated) <==> m.fileSize < produced <= m.cap)
            && (v == Some(AggregateOverrun) <==> produced <= m.cap && produced <= m.fileSize && aggregate > 16777216)
            && (v == Some(RatioExceeded) ==> produced > 100 * consumed)
  {
  }

  class Account {
    const member: Member
    const aggregate: AggregateState
    ghost const base: nat
    var streamed: nat
    var consumed: nat
    var chunks: seq<seq<Byte>>
    ghost var calls: seq<Call>

    ghost predicate Valid()
      reads this, aggregate
    {
      && streamed == Produced(calls) == |Output(calls)|
      && consumed == Consumed(calls)
      && Join(chunks) == Output(calls)
      && aggregate.streamed == base + streamed
      && (calls != [] ==> Verdict() == None)
    }

    /** What the bounds say about everything counted so far. */
    ghost function Verdict(): Option<StreamError>
      reads this
    {
      StepVerdict(member, Produced(calls), Consumed(calls), base + Produced(calls))
    }

    constructor (member: Member, aggregate: AggregateState)
      ensures this.member == member && this.aggregate == aggregate && base == aggregate.streamed && Valid()
                && calls == []
    {
      this.member, this.aggregate, base := member, aggregate, aggregate.streamed;
      streamed, consumed, chunks, calls := 0, 0, [], [];
    }

    /** Counts one step; output is buffered only once every bound has been checked. */
    method Take(produced: seq<Byte>, used: nat, ghost offered: seq<Byte>) returns (verdict: Option<StreamError>)
      requires Valid()
      modifies this, aggregate
      ensures calls == old(calls) + [Call(offered, produced, used)]
      ensures verdict == Verdict()
      ensures verdict.None? ==> Valid()
      ensures |Join(chunks)| <= member.cap
    {
      hide Produced, Consumed, Output, Join;
      NoCalls(member, base);
      ghost var call := Call(offered, produced, used);
      calls := calls + [call];
      CountsAppend(old(calls), call);
      consumed := consumed + used;
      streamed := streamed + |produced|;
      if streamed > member.cap {
        return Some(MemberStreamOverrun);
      }
      if streamed > member.fileSize {
        return Some(DeclaredSizeUnderstated);
      }
      aggregate.streamed := aggregate.streamed + |produced|;
      if aggregate.streamed > MAX_AGGREGATE_UNCOMPRESSED {
        return Some(AggregateOverrun);
      }
      if consumed == 0 {
        if streamed != 0 {
          return Some(RatioExceeded);
        }
      } else if streamed > MAX_RATIO * consumed {
        return Some(RatioExceeded);
      }
      if consumed > MAX_MEMBER_COMPRESSED {
        return Some(CompressedSize);
      }
      JoinAppend(chunks, produced);
      chunks := chunks + [produced];
      verdict := None;
    }
  }

  lemma CountsAppend(calls: seq<Call>, c: Call)
    ensures Consumed(calls + [c]) == Consumed(calls) + c.used
    ensures Produced(calls + [c]) == Produced(calls) + |c.produced|
    ensures Output(calls + [c]) == Output(calls) + c.produced
  {
    assert (calls + [c])[..|calls|] == calls;
  }

  /** The compressed range is bounded on its own, so a call never trips the compressed-size bound. */
  function Limit(payload: seq<Byte>, m: Member): nat
    requires m.dataStart <= |payload|
  {
    if |payload| - m.dataStart < 16777216 then |payload| else m.dataStart + 16777216
  }

  // ---------- reading a stored member ----------

  ghost predicate Copied(payload: seq<Byte>, m: Member, calls: seq<Call>) {
    && m.dataStart + Consumed(calls) <= |payload|
    && Output(calls) == payload[m.dataStart..m.dataStart + Consumed(calls)]
    && Produced(calls) == Consumed(calls)
  }

  /** What a failure says of the slices copied. */
  predicate StoredExplains(payload: seq<Byte>, m: Member, base: nat, calls: seq<Call>, e: StreamError)
    requires m.dataStart <= |payload|
  {
    && Produced(calls) <= m.fileSize && m.dataStart + Consumed(calls) <= Limit(payload, m)
    && if e == StreamTruncated then
         m.dataStart + Consumed(calls) == Limit(payload, m) && Produced(calls) < m.fileSize
       else
         Some(e) == StepVerdict(m, Produced(calls), Consumed(calls), base + Produced(calls))
  }

  method StreamStored(payload: seq<Byte>, account: Account) returns (failure: Option<StreamError>)
    requires account.Valid() && account.calls == [] && account.member.dataStart <= |payload|
    modifies account, account.aggregate
    ensures Copied(payload, account.member, account.calls)
    ensures account.member.dataStart + Consumed(account.calls) <= Limit(payload, account.member)
    ensures failure.None? ==> account.Valid() && account.streamed == account.member.fileSize
    ensures failure.Some? ==>
              StoredExplains(payload, account.member, account.base, account.calls, failure.value)
  {
    hide Produced, Consumed, Output, StepVerdict;
    var m := account.member;
    var limit := Limit(payload, m);
    var position := m.dataStart;
    NothingCopied(payload, m);
    while account.streamed < m.fileSize
      invariant account.Valid() && Copied(payload, m, account.calls)
      invariant position == m.dataStart + account.consumed <= limit
      invariant account.streamed <= m.fileSize
      decreases m.fileSize - account.streamed
    {
      if position >= limit {
        return Some(StreamTruncated);
      }
      var take := CHUNK_BYTES;
      if m.fileSize - account.streamed < take {
        take := m.fileSize - account.streamed;
      }
      if limit - position < take {
        take := limit - position;
      }
      var produced := payload[position..position + take];
      ghost var before := account.calls;
      CountsAppend(before, Call(produced, produced, take));
      position := position + take;
      failure := account.Take(produced, take, produced);
      if failure.Some? {
        return;
      }
    }
    failure := None;
  }

  lemma NothingCopied(payload: seq<Byte>, m: Member)
    requires m.dataStart <= |payload|
    ensures Copied(payload, m, []) && Consumed([]) == 0 && Produced([]) == 0
  {
  }

  // ---------- reading a deflated member ----------

  /** The bounds say nothing against everything counted in these calls. */
  predicate Kept(m: Member, base: nat, calls: seq<Call>) {
    StepVerdict(m, Produced(calls), Consumed(calls), base + Produced(calls)) == None
  }

  /** What the last call left unused. */
  function Rest<S>(dec: (S, seq<Byte>) -> Answer<S>, start: S, calls: seq<Call>): seq<Byte> {
    if calls == [] then []
    else
      match dec(StateAfter(dec, start, calls[..|calls| - 1]), calls[|calls| - 1].offered)
      case Answer(_, _, tail, _, _) => tail
      case Broken => []
  }

  /** The next bytes of the compressed range; nothing when it is used up. */
  function Chunk(payload: seq<Byte>, m: Member, position: nat): seq<Byte>
    requires m.dataStart <= |payload|
  {
    var limit := Limit(payload, m);
    if position >= limit then []
    else payload[position..if limit - position < 65536 then limit else position + 65536]
  }

  /** What is offered after these calls: what was left unused, or else the next chunk. */
  function NextOffer<S>(payload: seq<Byte>, m: Member, dec: (S, seq<Byte>) -> Answer<S>, start: S,
                        calls: seq<Call>): seq<Byte>
    requires m.dataStart <= |payload|
  {
    var rest := Rest(dec, start, calls);
    if rest != [] then rest else Chunk(payload, m, m.dataStart + Consumed(calls))
  }

  /** Every call was made on what was to be offered, while all bounds were kept. */
  ghost predicate Steps<S>(payload: seq<Byte>, m: Member, base: nat, dec: (S, seq<Byte>) -> Answer<S>, start: S,
                           calls: seq<Call>)
    requires m.dataStart <= |payload|
  {
    calls == [] ||
    var before, last := calls[..|calls| - 1], calls[|calls| - 1];
    && Steps(payload, m, base, dec, start, before) && (before != [] ==> Kept(m, base, before))
    && last.offered != [] && last.offered == NextOffer(payload, m, dec, start, before)
  }

  /** Why nothing more is read after these calls. */
  ghost predicate Stops<S>(payload: seq<Byte>, m: Member, base: nat, dec: (S, seq<Byte>) -> Answer<S>, start: S,
                           calls: seq<Call>, ended: bool)
    requires m.dataStart <= |payload|
  {
    || ended || (calls != [] && !Kept(m, base, calls))
    || NextOffer(payload, m, dec, start, calls) == []
    || Refused(dec(StateAfter(dec, start, calls), NextOffer(payload, m, dec, start, calls)),
               NextOffer(payload, m, dec, start, calls))
  }

  /** An answer that cannot be accounted for. */
  predicate Refused<S>(a: Answer<S>, offered: seq<Byte>) {
    a.Broken? || Leftover(a) > |offered|
  }

  lemma {:induction false} AnsweredAt<S>(dec: (S, seq<Byte>) -> Answer<S>, start: S, calls: seq<Call>, eof: bool,
                                         i: nat)
    requires Answered(dec, start, calls, eof) && i < |calls|
    ensures Answered(dec, start, calls[..i], false)
    ensures AnswersCall(dec, StateAfter(dec, start, calls[..i]), calls[i], eof && i == |calls| - 1)
  {
    var n := |calls| - 1;
    if i < n {
      AnsweredAt(dec, start, calls[..n], false, i);
      assert calls[..n][..i] == calls[..i];
    }
  }

  lemma {:induction false} StepsAt<S>(payload: seq<Byte>, m: Member, base: nat, dec: (S, seq<Byte>) -> Answer<S>,
                                      start: S, calls: seq<Call>, i: nat)
    requires m.dataStart <= |payload| && Steps(payload, m, base, dec, start, calls) && i < |calls|
    ensures calls[i].offered != [] && calls[i].offered == NextOffer(payload, m, dec, start, calls[..i])
    ensures i > 0 ==> Kept(m, base, calls[..i])
  {
    hide Kept, NextOffer;
    var n := |calls| - 1;
    if i < n {
      StepsAt(payload, m, base, dec, start, calls[..n], i);
      assert calls[..n][..i] == calls[..i];
    }
  }

  /** Reading is deterministic: two runs agree as far as both go. */
  lemma {:induction false} StepsAgree<S>(payload: seq<Byte>, m: Member, base: nat, dec: (S, seq<Byte>) -> Answer<S>,
                                         start: S, a: seq<Call>, ended: bool, b: seq<Call>, over: bool, k: nat)
    requires m.dataStart <= |payload| && k <= |a| && k <= |b|
    requires Steps(payload, m, base, dec, start, a) && Answered(dec, start, a, ended)
    requires Steps(payload, m, base, dec, start, b) && Answered(dec, start, b, over)
    ensures a[..k] == b[..k]
  {
    hide Steps, Answered, NextOffer, StateAfter, Kept;
    if k > 0 {
      StepsAgree(payload, m, base, dec, start, a, ended, b, over, k - 1);
      StepsAt(payload, m, base, dec, start, a, k - 1);
      StepsAt(payload, m, base, dec, start, b, k - 1);
      AnsweredAt(dec, start, a, ended, k - 1);
      AnsweredAt(dec, start, b, over, k - 1);
      assert a[..k] == a[..k - 1] + [a[k - 1]] && b[..k] == b[..k - 1] + [b[k - 1]];
    }
  }

  /** So a run that reads the stream to its end within the bounds is the only one there is. */
  lemma {:induction false} OnlyRun<S>(payload: seq<Byte>, m: Member, base: nat, dec: (S, seq<Byte>) -> Answer<S>,
                                      start: S, calls: seq<Call>, ended: bool, whole: seq<Call>)
    requires m.dataStart <= |payload|
    requires Steps(payload, m, base, dec, start, calls) && Answered(dec, start, calls, ended)
    requires Stops(payload, m, base, dec, start, calls, ended)
    requires Steps(payload, m, base, dec, start, whole) && Answered(dec, start, whole, true) && Kept(m, base, whole)
    ensures ended && calls == whole
  {
    hide Steps, NextOffer, StateAfter, Kept;
    var k, n := |calls|, |whole|;
    if n <= k {
      StepsAgree(payload, m, base, dec, start, calls, ended, whole, true, n);
      AnsweredAt(dec, start, whole, true, n - 1);
      AnsweredAt(dec, start, calls, ended, n - 1);
      assert calls[..n - 1] == calls[..n][..n - 1] == whole[..n][..n - 1] == whole[..n - 1];
      assert calls[n - 1] == calls[..n][n - 1] == whole[..n][n - 1] == whole[n - 1];
    } else {
      StepsAgree(payload, m, base, dec, start, calls, ended, whole, true, k);
      assert calls == whole[..k] by { assert calls[..k] == calls; }
      StepsAt(payload, m, base, dec, start, whole, k);
      AnsweredAt(dec, start, whole, true, k);
    }
  }

  lemma {:induction false} InputLength(calls: seq<Call>)
    requires UsesOffered(calls)
    ensures |Input(calls)| == Consumed(calls)
  {
    if calls != [] {
      InputLength(calls[..|calls| - 1]);
    }
  }

  /** What one well-formed call adds to the record. */
  lemma CallAppend<S>(dec: (S, seq<Byte>) -> Answer<S>, start: S, calls: seq<Call>, c: Call, eof: bool)
    requires UsesOffered(calls) && Answered(dec, start, calls, false)
    requires AnswersCall(dec, StateAfter(dec, start, calls), c, eof)
    ensures UsesOffered(calls + [c]) && Input(calls + [c]) == Input(calls) + c.offered[..c.used]
    ensures Answered(dec, start, calls + [c], eof)
    ensures StateAfter(dec, start, calls + [c]) == dec(StateAfter(dec, start, calls), c.offered).state
  {
    assert (calls + [c])[..|calls|] == calls;
  }

  /** What is left of an offer after a call stands right behind what the calls have consumed. */
  lemma FedAfter(payload: seq<Byte>, from: nat, position: nat, input: seq<Byte>, offered: seq<Byte>, used: nat)
    requires from <= position <= |payload| && used <= |offered|
    requires input + offered == payload[from..position]
    ensures (input + offered[..used]) + offered[used..] == payload[from..position]
    ensures input + offered[..used] == payload[from..from + |input| + used]
  {
    assert (input + offered[..used]) + offered[used..] == input + offered;
    assert (input + offered)[..|input| + used] == input + offered[..used];
    assert payload[from..position][..|input| + used] == payload[from..from + |input| + used];
  }

  /** Everything one accepted answer does to the record and to what is held back. */
  lemma CallAccounted<S(!new)>(dec: (S, seq<Byte>) -> Answer<S>, start: S, calls: seq<Call>, payload: seq<Byte>,
                               from: nat, position: nat, offered: seq<Byte>)
      returns (call: Call)
    requires offered != [] && UsesOffered(calls) && Answered(dec, start, calls, false)
    requires from + Consumed(calls) + |offered| == position <= |payload|
    requires SuffixTails(dec) ==> Input(calls) + offered == payload[from..position]
    requires dec(StateAfter(dec, start, calls), offered).Answer?
    requires Leftover(dec(StateAfter(dec, start, calls), offered)) <= |offered|
    ensures var a := dec(StateAfter(dec, start, calls), offered);
            && call == Call(offered, a.produced, |offered| - Leftover(a))
            && UsesOffered(calls + [call]) && Answered(dec, start, calls + [call], a.eof)
            && StateAfter(dec, start, calls + [call]) == a.state
            && Consumed(calls + [call]) == Consumed(calls) + call.used
            && Produced(calls + [call]) == Produced(calls) + |call.produced|
            && (Progresses(dec) && !a.eof ==> call.used > 0 || call.produced != [])
            && (SuffixTails(dec) && !a.eof ==> Input(calls + [call]) + a.tail == payload[from..position])
            && (SuffixTails(dec) ==> Input(calls + [call]) == payload[from..from + Consumed(calls) + call.used])
  {
    hide Produced, Consumed, Output, Input, StateAfter, Answered, SuffixTails, Progresses;
    var s := StateAfter(dec, start, calls);
    var a := dec(s, offered);
    call := Call(offered, a.produced, |offered| - Leftover(a));
    AnswerOf(dec, s, offered);
    CallAppend(dec, start, calls, call, a.eof);
    CountsAppend(calls, call);
    InputLength(calls);
    if SuffixTails(dec) {
      FedAfter(payload, from, position, Input(calls), offered, call.used);
    }
  }

  /** The next answer cannot be used: the stream is broken, or more is said to be left than was offered. */
  ghost predicate Unusable<S>(payload: seq<Byte>, m: Member, dec: (S, seq<Byte>) -> Answer<S>, start: S,
                              calls: seq<Call>, e: StreamError)
    requires m.dataStart <= |payload|
  {
    && Answered(dec, start, calls, false) && NextOffer(payload, m, dec, start, calls) != []
    && var offered := NextOffer(payload, m, dec, start, calls);
       var a := dec(StateAfter(dec, start, calls), offered);
       if a.Broken? then e == DeflateStreamInvalid else Leftover(a) > |offered| && e == AccountingInvalid
  }

  /** The last call was answered and is what broke a bound. */
  ghost predicate Overstepped<S>(dec: (S, seq<Byte>) -> Answer<S>, start: S, calls: seq<Call>) {
    calls != [] && (Answered(dec, start, calls, false) || Answered(dec, start, calls, true))
  }

  lemma StepAppend<S>(payload: seq<Byte>, m: Member, base: nat, dec: (S, seq<Byte>) -> Answer<S>, start: S,
                      calls: seq<Call>, c: Call, eof: bool)
    requires m.dataStart <= |payload| && Steps(payload, m, base, dec, start, calls)
    requires calls != [] ==> Kept(m, base, calls)
    requires c.offered != [] && c.offered == NextOffer(payload, m, dec, start, calls)
    requires AnswersCall(dec, StateAfter(dec, start, calls), c, eof)
    ensures Steps(payload, m, base, dec, start, calls + [c])
    ensures Rest(dec, start, calls + [c]) == dec(StateAfter(dec, start, calls), c.offered).tail
    ensures Rest(dec, start, calls + [c]) != [] ==>
              NextOffer(payload, m, dec, start, calls + [c]) == Rest(dec, start, calls + [c])
  {
    hide Kept, StateAfter;
    assert (calls + [c])[..|calls|] == calls;
  }

  lemma NeverUnusable<S(!new)>(payload: seq<Byte>, m: Member, dec: (S, seq<Byte>) -> Answer<S>, start: S,
                               calls: seq<Call>)
    requires m.dataStart <= |payload| && SuffixTails(dec)
    ensures !Unusable(payload, m, dec, start, calls, AccountingInvalid)
  {
    hide NextOffer, StateAfter, Answered, SuffixTails;
    var offered, s := NextOffer(payload, m, dec, start, calls), StateAfter(dec, start, calls);
    if offered != [] && dec(s, offered).Answer? {
      AnswerOf(dec, s, offered);
    }
  }

  /** What the offers add up to: the compressed range from its start, each byte once. */
  lemma {:induction false} StepsInput<S(!new)>(payload: seq<Byte>, m: Member, base: nat,
                                               dec: (S, seq<Byte>) -> Answer<S>, start: S, calls: seq<Call>, eof: bool)
    requires m.dataStart <= |payload| && SuffixTails(dec)
    requires Steps(payload, m, base, dec, start, calls) && Answered(dec, start, calls, eof)
    ensures UsesOffered(calls) && |Output(calls)| == Produced(calls)
    ensures m.dataStart + Consumed(calls) <= |payload|
    ensures Input(calls) == payload[m.dataStart..m.dataStart + Consumed(calls)]
    ensures !eof ==> && m.dataStart + Consumed(calls) + |Rest(dec, start, calls)| <= |payload|
                     && Input(calls) + Rest(dec, start, calls)
                          == payload[m.dataStart..m.dataStart + Consumed(calls) + |Rest(dec, start, calls)|]
  {
    hide SuffixTails, Kept, Produced, Consumed, Output, Input, StateAfter, NextOffer, Rest, Steps, Answered,
      UsesOffered;
    if calls != [] {
      var before, last := calls[..|calls| - 1], calls[|calls| - 1];
      LastStep(payload, m, base, dec, start, calls, eof);
      StepsInput(payload, m, base, dec, start, before, false);
      var from, s := m.dataStart, StateAfter(dec, start, before);
      var position := from + Consumed(before) + |last.offered|;
      OfferFollows(payload, m, dec, start, before);
      AnswerOf(dec, s, last.offered);
      var call := CallAccounted(dec, start, before, payload, from, position, last.offered);
      assert call == last && before + [call] == calls;
      CountsAppend(before, last);
    } else {
      NothingRead(dec, start);
    }
  }

  lemma NothingRead<S>(dec: (S, seq<Byte>) -> Answer<S>, start: S)
    ensures UsesOffered([]) && Input([]) == [] && Output([]) == [] && Produced([]) == Consumed([]) == 0
    ensures Rest(dec, start, []) == [] && !Answered(dec, start, [], true)
  {
  }

  lemma LastStep<S>(payload: seq<Byte>, m: Member, base: nat, dec: (S, seq<Byte>) -> Answer<S>, start: S,
                    calls: seq<Call>, eof: bool)
    requires m.dataStart <= |payload| && calls != []
    requires Steps(payload, m, base, dec, start, calls) && Answered(dec, start, calls, eof)
    ensures var before, last := calls[..|calls| - 1], calls[|calls| - 1];
            && Steps(payload, m, base, dec, start, before) && Answered(dec, start, before, false)
            && last.offered != [] && last.offered == NextOffer(payload, m, dec, start, before)
            && AnswersCall(dec, StateAfter(dec, start, before), last, eof)
            && Rest(dec, start, calls) == dec(StateAfter(dec, start, before), last.offered).tail
  {
    hide NextOffer, Kept;
  }

  lemma OfferFollows<S>(payload: seq<Byte>, m: Member, dec: (S, seq<Byte>) -> Answer<S>, start: S, calls: seq<Call>)
    requires m.dataStart <= |payload| && UsesOffered(calls)
    requires m.dataStart + Consumed(calls) <= |payload|
    requires m.dataStart + Consumed(calls) + |Rest(dec, start, calls)| <= |payload|
    requires Input(calls) + Rest(dec, start, calls)
               == payload[m.dataStart..m.dataStart + Consumed(calls) + |Rest(dec, start, calls)|]
    ensures var offered := NextOffer(payload, m, dec, start, calls);
            var position := m.dataStart + Consumed(calls) + |offered|;
            position <= |payload| && Input(calls) + offered == payload[m.dataStart..position]
  {
    hide Consumed, Input, Rest;
    var offered := NextOffer(payload, m, dec, start, calls);
    if Rest(dec, start, calls) == [] {
      var at := m.dataStart + Consumed(calls);
      assert Input(calls) + [] == Input(calls);
      assert payload[m.dataStart..at + |offered|] == payload[m.dataStart..at] + payload[at..at + |offered|];
    }
  }

  /** What one call ends in. */
  datatype Progress = Running | Ended | Failed(error: StreamError)

  class DeflateReader<S(!new)> {
    const payload: seq<Byte>
    const account: Account
    const dec: (S, seq<Byte>) -> Answer<S>
    const start: S
    var position: nat
    var pending: seq<Byte>
    var state: S

    /** Every byte read from the payload was consumed or is held back; and if unused input is
        always the end of the offer, the decompressor has seen each byte once, in order. */
    ghost predicate Fed()
      reads this, account
    {
      && UsesOffered(account.calls)
      && account.member.dataStart + Consumed(account.calls) + |pending| == position <= |payload|
      && (SuffixTails(dec) ==> Input(account.calls) + pending == payload[account.member.dataStart..position])
    }

    ghost predicate Valid()
      reads this, account, account.aggregate
    {
      && account.Valid() && Fed()
      && position <= Limit(payload, account.member)
      && Answered(dec, start, account.calls, false)
      && state == StateAfter(dec, start, account.calls)
      && account.member.dataStart <= |payload|
      && Steps(payload, account.member, account.base, dec, start, account.calls)
      && Awaits()
    }

    /** What is held back is what is to be offered next; if nothing is, the next chunk is. */
    ghost predicate Awaits()
      reads this, account
      requires account.member.dataStart <= |payload|
    {
      if pending == [] then Rest(dec, start, account.calls) == []
      else pending == NextOffer(payload, account.member, dec, start, account.calls)
    }

    constructor (payload: seq<Byte>, account: Account, dec: (S, seq<Byte>) -> Answer<S>, start: S)
      requires account.Valid() && account.calls == [] && account.member.dataStart <= |payload|
      ensures this.payload == payload && this.account == account && this.dec == dec && this.start == start
      ensures Valid()
    {
      this.payload, this.account, this.dec, this.start := payload, account, dec, start;
      position, pending, state := account.member.dataStart, [], start;
    }

    /** The next chunk of the compressed range, when nothing is held back. */
    method Refill()
      requires Valid() && pending == [] && position < Limit(payload, account.member)
      modifies this
      ensures Valid() && pending != []
    {
      hide Consumed, Input, Answered, StateAfter, Steps, Rest;
      var limit := Limit(payload, account.member);
      var end := if limit - position < CHUNK_BYTES then limit else position + CHUNK_BYTES;
      assert payload[account.member.dataStart..end]
             == payload[account.member.dataStart..position] + payload[position..end];
      assert Input(account.calls) + [] == Input(account.calls);
      pending := payload[position..end];
      position := end;
    }

    /** One decompress call and its accounting. */
    method Feed() returns (progress: Progress)
      requires Valid() && pending != []
      modifies this, account, account.aggregate
      ensures position == old(position)
      ensures Steps(payload, account.member, account.base, dec, start, account.calls)
      ensures progress.Failed? ==>
                || (progress.error in {DeflateStreamInvalid, AccountingInvalid}
                    && Unusable(payload, account.member, dec, start, account.calls, progress.error))
                || (Overstepped(dec, start, account.calls)
                    && Some(progress.error) == account.Verdict() && Consumed(account.calls) <= MAX_MEMBER_COMPRESSED)
      ensures progress == Running ==> Valid()
      ensures progress == Running && Progresses(dec) ==>
                account.streamed + account.consumed > old(account.streamed + account.consumed)
      ensures progress == Ended ==>
                && account.Valid() && UsesOffered(account.calls) && Answered(dec, start, account.calls, true)
                && account.member.dataStart + account.consumed <= position
                && (SuffixTails(dec) ==>
                      Input(account.calls)
                        == payload[account.member.dataStart..account.member.dataStart + account.consumed])
    {
      hide Produced, Consumed, Output, Input, StateAfter, Answered, StepVerdict, SuffixTails, Progresses, Steps,
        NextOffer, Rest;
      var answer := dec(state, pending);
      if answer.Broken? {
        return Failed(DeflateStreamInvalid);
      }
      var leftover := Leftover(answer);
      if leftover > |pending| {
        return Failed(AccountingInvalid);
      }
      var used := |pending| - leftover;
      ghost var offered := pending;
      ghost var call := CallAccounted(dec, start, account.calls, payload, account.member.dataStart, position, offered);
      StepAppend(payload, account.member, account.base, dec, start, account.calls, call, answer.eof);
      pending := answer.tail;
      state := answer.state;
      var verdict := account.Take(answer.produced, used, offered);
      if verdict.Some? {
        return Failed(verdict.value);
      }
      progress := if answer.eof then Ended else Running;
    }
  }

  /** What a failure says of the calls that were answered. */
  ghost predicate DeflateExplains<S>(payload: seq<Byte>, m: Member, base: nat, dec: (S, seq<Byte>) -> Answer<S>,
                                     start: S, calls: seq<Call>, e: StreamError)
    requires m.dataStart <= |payload|
  {
    match e
    case StreamTruncated =>
      && Answered(dec, start, calls, false) && Produced(calls) <= m.fileSize
      && m.dataStart + Consumed(calls) == Limit(payload, m) && NextOffer(payload, m, dec, start, calls) == []
    case DeflateStreamInvalid => Unusable(payload, m, dec, start, calls, e)
    case AccountingInvalid => Unusable(payload, m, dec, start, calls, e)
    case _ =>
      && Overstepped(dec, start, calls) && Consumed(calls) <= MAX_MEMBER_COMPRESSED
      && Some(e) == StepVerdict(m, Produced(calls), Consumed(calls), base + Produced(calls))
  }

  method StreamDeflated<S(!new)>(payload: seq<Byte>, account: Account, dec: (S, seq<Byte>) -> Answer<S>, start: S)
      returns (failure: Option<StreamError>)
    requires account.Valid() && account.calls == [] && account.member.dataStart <= |payload|
    requires Progresses(dec)
    modifies account, account.aggregate
    ensures failure.None? ==>
              && account.Valid() && UsesOffered(account.calls) && Answered(dec, start, account.calls, true)
              && account.member.dataStart + account.consumed <= Limit(payload, account.member)
              && (SuffixTails(dec) ==>
                    Input(account.calls)
                      == payload[account.member.dataStart..account.member.dataStart + account.consumed])
    ensures Steps(payload, account.member, account.base, dec, start, account.calls)
    ensures failure.Some? ==>
              DeflateExplains(payload, account.member, account.base, dec, start, account.calls, failure.value)
  {
    hide Consumed, Produced, Output, Answered, StateAfter, Input, Steps, Rest, Unusable, Overstepped;
    var reader := new DeflateReader<S>(payload, account, dec, start);
    NoCalls(account.member, account.base);
    while true
      invariant reader.payload == payload && reader.account == account && reader.dec == dec && reader.start == start
      invariant reader.Valid()
      decreases (Limit(payload, account.member) - account.member.dataStart - account.consumed)
                  + (account.member.fileSize - account.streamed)
    {
      if reader.pending == [] {
        if reader.position >= Limit(payload, account.member) {
          return Some(StreamTruncated);
        }
        reader.Refill();
      }
      var progress := reader.Feed();
      match progress
      case Failed(e) => return Some(e);
      case Ended => return None;
      case Running =>
    }
  }

  // ---------- the whole member ----------

  ghost predicate StepError(e: StreamError) {
    e in {MemberStreamOverrun, DeclaredSizeUnderstated, AggregateOverrun, RatioExceeded, CompressedSize}
  }

  /** What a member's verdict says about the calls that read it. */
  ghost predicate Explains(r: Result<seq<Byte>, StreamError>, m: Member, calls: seq<Call>, base: nat,
                           crc: seq<Byte> -> nat) {
    match r
    case Success(body) =>
      && body == Output(calls) && |body| == m.fileSize <= m.cap
      && Consumed(calls) == m.compressSize && m.fileSize <= 100 * m.compressSize
      && base + m.fileSize <= 16777216
      && crc(body) == m.crc
    case Failure(e) =>
      && e != CompressedSize
      && (StepError(e) ==> Some(e) == StepVerdict(m, Produced(calls), Consumed(calls), base + Produced(calls)))
      && (e == StreamTruncated ==> Produced(calls) <= m.fileSize)
      && (e == DeclaredSizeOverstated ==> Produced(calls) < m.fileSize)
      && (e == CompressedSizeMisdeclared ==> Produced(calls) == m.fileSize && Consumed(calls) != m.compressSize)
      && (e == CrcInvalid ==>
            Produced(calls) == m.fileSize && Consumed(calls) == m.compressSize && crc(Output(calls)) != m.crc)
  }

  /** What only the closing checks can find. */
  const CLOSING := {DeclaredSizeOverstated, CompressedSizeMisdeclared, CrcInvalid}

  lemma NoCalls(m: Member, base: nat)
    ensures Produced([]) == 0 && Consumed([]) == 0 && Output([]) == []
  {
  }

  /** The closing checks of a member whose loop ended without a failure. */
  method CloseMember(account: Account, crc: seq<Byte> -> nat) returns (r: Result<seq<Byte>, StreamError>)
    requires account.Valid() && account.base <= MAX_AGGREGATE_UNCOMPRESSED
    requires account.consumed <= MAX_MEMBER_COMPRESSED
    ensures Explains(r, account.member, account.calls, account.base, crc)
    ensures r.Failure? ==> r.error in CLOSING
    ensures r.Success? <==>
            && Produced(account.calls) == account.member.fileSize
            && Consumed(account.calls) == account.member.compressSize
            && crc(Output(account.calls)) == account.member.crc
  {
    var m := account.member;
    NoCalls(m, account.base);
    if account.consumed == 0 {
      if account.streamed != 0 {
        return Failure(RatioExceeded);
      }
    } else if account.streamed > MAX_RATIO * account.consumed {
      return Failure(RatioExceeded);
    }
    if account.streamed != m.fileSize {
      return Failure(DeclaredSizeOverstated);
    }
    if account.consumed != m.compressSize {
      return Failure(CompressedSizeMisdeclared);
    }
    var body := Join(account.chunks);
    if crc(body) != m.crc {
      return Failure(CrcInvalid);
    }
    r := Success(body);
  }

  /** The stored bytes are what the member declares, within every bound. */
  predicate StoredAccepted(payload: seq<Byte>, m: Member, base: nat, crc: seq<Byte> -> nat)
    requires m.dataStart <= |payload|
  {
    && m.compressSize == m.fileSize <= m.cap && m.dataStart + m.fileSize <= Limit(payload, m)
    && base + m.fileSize <= 16777216
    && crc(payload[m.dataStart..m.dataStart + m.fileSize]) == m.crc
  }

  /** These calls read the stream to its end, within the bounds at every step, and yield what the
      member declares. */
  ghost predicate AcceptedBy<S>(payload: seq<Byte>, m: Member, base: nat, dec: (S, seq<Byte>) -> Answer<S>, start: S,
                                crc: seq<Byte> -> nat, calls: seq<Call>)
    requires m.dataStart <= |payload|
  {
    && Steps(payload, m, base, dec, start, calls) && Answered(dec, start, calls, true) && Kept(m, base, calls)
    && Produced(calls) == m.fileSize && Consumed(calls) == m.compressSize && crc(Output(calls)) == m.crc
  }

  /** What makes a member acceptable, said of the archive and the decompressor alone. */
  ghost predicate Accepted<S>(payload: seq<Byte>, m: Member, stored: bool, base: nat,
                              dec: (S, seq<Byte>) -> Answer<S>, start: S, crc: seq<Byte> -> nat)
    requires m.dataStart <= |payload|
  {
    if stored then StoredAccepted(payload, m, base, crc)
    else exists calls :: AcceptedBy(payload, m, base, dec, start, crc, calls)
  }

  lemma StoredStops(payload: seq<Byte>, m: Member, base: nat, crc: seq<Byte> -> nat, calls: seq<Call>, e: StreamError)
    requires m.dataStart <= |payload| && Copied(payload, m, calls) && StoredExplains(payload, m, base, calls, e)
    ensures !StoredAccepted(payload, m, base, crc) && e !in {DeflateStreamInvalid, AccountingInvalid}
  {
    hide Produced, Consumed, Output;
  }

  lemma DeflateStops<S>(payload: seq<Byte>, m: Member, base: nat, dec: (S, seq<Byte>) -> Answer<S>, start: S,
                        crc: seq<Byte> -> nat, calls: seq<Call>, e: StreamError)
    requires m.dataStart <= |payload| && Steps(payload, m, base, dec, start, calls)
    requires DeflateExplains(payload, m, base, dec, start, calls, e)
    ensures forall whole :: !AcceptedBy(payload, m, base, dec, start, crc, whole)
  {
    hide Produced, Consumed, Output, Answered, Steps, NextOffer, StateAfter;
    forall whole | AcceptedBy(payload, m, base, dec, start, crc, whole)
      ensures false
    {
      var ended := !Answered(dec, start, calls, false);
      OnlyRun(payload, m, base, dec, start, calls, ended, whole);
    }
  }

  /** A run that ended within the bounds is accepted on what it counted. */
  lemma DeflateCloses<S>(payload: seq<Byte>, m: Member, base: nat, dec: (S, seq<Byte>) -> Answer<S>, start: S,
                         crc: seq<Byte> -> nat, calls: seq<Call>)
    requires m.dataStart <= |payload| && Steps(payload, m, base, dec, start, calls)
    requires Answered(dec, start, calls, true) && Kept(m, base, calls)
    ensures (exists whole :: AcceptedBy(payload, m, base, dec, start, crc, whole)) <==>
            Produced(calls) == m.fileSize && Consumed(calls) == m.compressSize && crc(Output(calls)) == m.crc
  {
    hide Produced, Consumed, Output, Answered, Steps, NextOffer, StateAfter, Kept;
    forall whole | AcceptedBy(payload, m, base, dec, start, crc, whole)
      ensures whole == calls
    {
      OnlyRun(payload, m, base, dec, start, calls, true, whole);
    }
    assert Produced(calls) == m.fileSize && Consumed(calls) == m.compressSize && crc(Output(calls)) == m.crc ==>
        AcceptedBy(payload, m, base, dec, start, crc, calls);
  }

  /** Reads one member.  A success means the declared sizes, the ratio, the caps and the checksum
      all hold of what was really produced and consumed, and that the compressed bytes of the
      member were each fed once, in order; a failure names the bound that was really broken.  The
      closing ratio check can never fire: the last step has already applied it to the same counts. */
  method StreamMember<S(!new)>(payload: seq<Byte>, m: Member, stored: bool, aggregate: AggregateState,
                               dec: (S, seq<Byte>) -> Answer<S>, start: S, crc: seq<Byte> -> nat)
      returns (r: Result<seq<Byte>, StreamError>, ghost calls: seq<Call>)
    requires m.dataStart <= |payload| && Progresses(dec) && aggregate.streamed <= MAX_AGGREGATE_UNCOMPRESSED
    modifies aggregate
    ensures Explains(r, m, calls, old(aggregate.streamed), crc)
    ensures r.Success? ==> aggregate.streamed == old(aggregate.streamed) + m.fileSize
    ensures r.Success? && stored ==> m.compressSize == m.fileSize && m.dataStart + m.fileSize <= |payload|
                                     && r.value == payload[m.dataStart..m.dataStart + m.fileSize]
    ensures r.Success? && !stored ==> UsesOffered(calls) && Answered(dec, start, calls, true)
                                      && m.dataStart + m.compressSize <= |payload|
                                      && (SuffixTails(dec) ==>
                                          Input(calls) == payload[m.dataStart..m.dataStart + m.compressSize])
    ensures SuffixTails(dec) ==> r != Failure(AccountingInvalid)
    ensures r.Success? <==> Accepted(payload, m, stored, old(aggregate.streamed), dec, start, crc)
    ensures r.Failure? && r.error !in CLOSING ==>
              if stored then
                Copied(payload, m, calls) && StoredExplains(payload, m, old(aggregate.streamed), calls, r.error)
              else
                && Steps(payload, m, old(aggregate.streamed), dec, start, calls)
                && DeflateExplains(payload, m, old(aggregate.streamed), dec, start, calls, r.error)
  {
    hide Produced, Consumed, Output, Answered, Input, SuffixTails, Progresses, Steps, NextOffer, StateAfter, Unusable,
      Overstepped, StepVerdict;
    var account := new Account(m, aggregate);
    var failure: Option<StreamError>;
    if stored {
      failure := StreamStored(payload, account);
    } else {
      failure := StreamDeflated(payload, account, dec, start);
    }
    calls := account.calls;
    if failure.Some? {
      if stored {
        StoredStops(payload, m, account.base, crc, calls, failure.value);
      } else {
        DeflateStops(payload, m, account.base, dec, start, crc, calls, failure.value);
        if SuffixTails(dec) {
          NeverUnusable(payload, m, dec, start, calls);
        }
      }
      return Failure(failure.value), calls;
    }
    if !stored {
      EndedNotEmpty(dec, start, calls);
      DeflateCloses(payload, m, account.base, dec, start, crc, calls);
    }
    r := CloseMember(account, crc);
  }

  lemma EndedNotEmpty<S>(dec: (S, seq<Byte>) -> Answer<S>, start: S, calls: seq<Call>)
    requires Answered(dec, start, calls, true)
    ensures calls != []
  {
  }

  // ---------- a member within the ratio that is refused ----------

  /** A decompressor that turns the first of three bytes into 101 and the rest into nothing. */
  function Expanding(seen: nat, input: seq<Byte>): Answer<nat> {
    if seen == 0 && |input| == 3 then Answer(1, seq(101, _ => 0), input[1..], [], false)
    else Answer(seen, [], [], [], true)
  }

  function ExpandingCalls(): seq<Call> {
    [Call([7, 8, 9], seq(101, _ => 0), 1), Call([8, 9], [], 2)]
  }

  /** The ratio is judged at every step, so what counts is also how early a stream expands: here it
      reads to its end, with 101 bytes from 3, as declared, and is refused at its first step. */
  lemma EarlyExpansionRefused()
    ensures var m, payload, calls := Member(101, 3, 0, 0, 200), [7, 8, 9], ExpandingCalls();
            && Progresses(Expanding) && SuffixTails(Expanding)
            && m.fileSize <= MAX_RATIO * m.compressSize
            && UsesOffered(calls) && Answered(Expanding, 0, calls, true) && Input(calls) == payload
            && |Output(calls)| == m.fileSize && Consumed(calls) == m.compressSize
            && !Accepted(payload, m, false, 0, Expanding, 0, _ => 0)
  {
    var m, payload, calls, first := Member(101, 3, 0, 0, 200), [7, 8, 9], ExpandingCalls(), ExpandingCalls()[..1];
    var crc := (_: seq<Byte>) => 0;
    assert calls[..1] == first && first[..0] == [];
    assert payload[1..] == [8, 9];
    assert Input(first) == [7];
    forall whole | AcceptedBy(payload, m, 0, Expanding, 0, crc, whole)
      ensures false
    {
      OnlyRun(payload, m, 0, Expanding, 0, first, false, whole);
    }
  }
}
