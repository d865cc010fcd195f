/** Reading a whole artifact archive: the declarations are judged first, then every member is
    streamed under the bounds the declarations promised. */
module ArchiveReader {
  import opened Bytes
  import opened Sorting
  import opened StreamReader
  import opened Wrappers

  const MAX_ARCHIVE_BYTES: nat := 16777216
  const MAX_MEMBER_UNCOMPRESSED_JSON: nat := 4194304
  const MAX_MEMBER_UNCOMPRESSED_BINARY: nat := 8388608
  const WORKER_BINARY_MEMBER: string := "mt4_s3c_static_worker"
  const ZIP_STORED: nat := 0
  const ZIP_DEFLATED: nat := 8

  /** A central-directory entry. */
  datatype Info = Info(name: string, attributes: nat, flags: nat, compression: nat, fileSize: nat, compressSize: nat,
                       crc: nat, headerOffset: int)

  datatype ArchiveError =
    | ArchiveBytes | MemberCount | DuplicateMember | NameSet | DirectoryEntry | UnsafePath | ControlCharacter
    | NonRegular
    | Encrypted | CompressionMethod | DeclaredSize | DeclaredCompressedSize | DeclaredRatio | DeclaredAggregate
    | LocalHeaderInvalid | LocalNameMismatch | Streaming(error: StreamError)

  // ---------- what the declarations must satisfy ----------

  function MemberCap(name: string): nat {
    if name == WORKER_BINARY_MEMBER then MAX_MEMBER_UNCOMPRESSED_BINARY else MAX_MEMBER_UNCOMPRESSED_JSON
  }

  function Names(infos: seq<Info>): (names: seq<string>)
    ensures |names| == |infos| && forall i | 0 <= i < |infos| :: names[i] == infos[i].name
  {
    seq(|infos|, i requires 0 <= i < |infos| => infos[i].name)
  }

  predicate Directory(name: string) {
    name != "" && name[|name| - 1] == '/'
  }

  predicate Basename(name: string) {
    name !in {"", ".", ".."} && forall i | 0 <= i < |name| :: name[i] !in {'/', '\\', ':'}
  }

  predicate Printable(name: string) {
    forall i | 0 <= i < |name| :: name[i] as int >= 32 && name[i] as int != 127
  }

  /** The file type in the Unix mode bits, if there are any, is that of a regular file. */
  predicate Regular(attributes: nat) {
    attributes / 0x1_0000 / 0x1000 % 16 in {0, 8}
  }

  predicate DeclaredWithin(x: Info) {
    && x.fileSize <= MemberCap(x.name) && x.compressSize <= MAX_MEMBER_COMPRESSED
    && x.fileSize <= MAX_RATIO * x.compressSize
  }

  predicate EntryAccepted(x: Info) {
    && !Directory(x.name) && Basename(x.name) && Printable(x.name) && Regular(x.attributes)
    && x.flags % 2 == 0 && x.compression in {ZIP_STORED, ZIP_DEFLATED} && DeclaredWithin(x)
  }

  function DeclaredTotal(infos: seq<Info>): nat {
    if infos == [] then 0 else DeclaredTotal(infos[..|infos| - 1]) + infos[|infos| - 1].fileSize
  }

  predicate GateAccepts(infos: seq<Info>, length: nat, expected: seq<string>) {
    && length <= 16777216 && |infos| == |expected|
    && (forall i, j | 0 <= i < j < |infos| :: infos[i].name != infos[j].name)
    && multiset(Names(infos)) == multiset(expected)
    && (forall i | 0 <= i < |infos| :: EntryAccepted(infos[i]))
    && DeclaredTotal(infos) <= 16777216
  }

  /** What an accepted entry declares, in characters and numbers: a plain name, no file type or that of a
      regular file, no encryption, stored or deflated, and sizes within 8 MiB for the worker and 4 MiB
      for anything else, 16 MiB compressed, and a ratio of a hundred. */
  lemma EntryAcceptedMeans(x: Info)
    ensures EntryAccepted(x) <==>
            && x.name != "" && x.name != "." && x.name != ".."
            && (forall i | 0 <= i < |x.name| ::
                  && x.name[i] != '/' && x.name[i] != '\\' && x.name[i] != ':'
                  && x.name[i] as int >= 32 && x.name[i] as int != 127)
            && (x.attributes / 0x1000_0000 % 16 == 0 || x.attributes / 0x1000_0000 % 16 == 8)
            && x.flags % 2 == 0 && (x.compression == 0 || x.compression == 8)
            && x.fileSize <= (if x.name == "mt4_s3c_static_worker" then 8388608 else 4194304)
            && x.compressSize <= 16777216 && x.fileSize <= 100 * x.compressSize
  {
    TypeBits(x.attributes);
    hide Regular;
    assert Directory(x.name) ==> !Basename(x.name);
  }

  lemma TypeBits(attributes: nat)
    ensures Regular(attributes) <==> attributes / 0x1000_0000 % 16 == 0 || attributes / 0x1000_0000 % 16 == 8
  {
    assert attributes / 0x1_0000 / 0x1000 == attributes / 0x1000_0000;
  }

  lemma CountedTwice(names: seq<string>, i: nat, j: nat)
    requires i < j < |names|
    ensures names[i] == names[j] ==> multiset(names)[names[i]] >= 2
  {
    assert names == names[..i] + [names[i]] + names[i + 1..j] + [names[j]] + names[j + 1..];
  }

  /** What the gate accepts: at most 16 MiB of archive, every expected name once and no other, nothing but
      acceptable entries, and at most 16 MiB declared in all. */
  lemma GateAcceptsMeans(infos: seq<Info>, length: nat, expected: seq<string>)
    ensures GateAccepts(infos, length, expected) <==>
            && length <= 16777216
            && (forall n :: multiset(Names(infos))[n] == multiset(expected)[n] <= 1)
            && (forall x | x in infos :: EntryAccepted(x))
            && DeclaredTotal(infos) <= 16777216
  {
    hide EntryAccepted, DeclaredTotal;
    var names := Names(infos);
    if GateAccepts(infos, length, expected) {
      forall n
        ensures multiset(names)[n] <= 1
      {
        NoRepeats(names, (x: string) => x, n);
      }
    }
    if forall n :: multiset(names)[n] == multiset(expected)[n] <= 1 {
      assert multiset(names) == multiset(expected);
      SameLength(names, expected);
      forall i, j | 0 <= i < j < |infos|
        ensures infos[i].name != infos[j].name
      {
        CountedTwice(names, i, j);
      }
    }
  }

  /** The total is the sum of the declared sizes, in any order. */
  lemma {:induction false} TotalSplits(infos: seq<Info>, k: nat)
    requires k <= |infos|
    ensures DeclaredTotal(infos) == DeclaredTotal(infos[..k]) + DeclaredTotal(infos[k..])
    ensures |infos| == 1 ==> DeclaredTotal(infos) == infos[0].fileSize
  {
    var n := |infos| - 1;
    if infos != [] && k <= n {
      TotalSplits(infos[..n], k);
      assert infos[..n][..k] == infos[..k] && infos[..n][k..] == infos[k..][..n - k] && infos[k..][n - k] == infos[n];
    } else {
      assert infos[..k] == infos && infos[k..] == [];
    }
    if |infos| == 1 {
      assert infos[..0] == [];
    }
  }

  predicate SafeNames(expected: seq<string>) {
    forall i | 0 <= i < |expected| :: !Directory(expected[i]) && Basename(expected[i]) && Printable(expected[i])
  }

  method CheckDuplicates(infos: seq<Info>) returns (ok: bool)
    ensures ok <==> forall i, j | 0 <= i < j < |infos| :: infos[i].name != infos[j].name
  {
    var seen: set<string> := {};
    for i := 0 to |infos|
      invariant seen == set j | 0 <= j < i :: infos[j].name
      invariant forall j, k | 0 <= j < k < i :: infos[j].name != infos[k].name
    {
      if infos[i].name in seen {
        return false;
      }
      seen := seen + {infos[i].name};
    }
    return true;
  }

  method CheckEntry(x: Info) returns (failure: Option<ArchiveError>)
    ensures failure.None? <==> EntryAccepted(x)
    ensures failure.Some? ==> !failure.value.Streaming?
    ensures !Directory(x.name) && Basename(x.name) && Printable(x.name) ==>
              failure.Some? ==> failure.value !in {DirectoryEntry, UnsafePath, ControlCharacter}
  {
    if Directory(x.name) {
      return Some(DirectoryEntry);
    }
    if !Basename(x.name) {
      return Some(UnsafePath);
    }
    if !Printable(x.name) {
      return Some(ControlCharacter);
    }
    if !Regular(x.attributes) {
      return Some(NonRegular);
    }
    if x.flags % 2 == 1 {
      return Some(Encrypted);
    }
    if x.compression != ZIP_STORED && x.compression != ZIP_DEFLATED {
      return Some(CompressionMethod);
    }
    if x.fileSize > MemberCap(x.name) {
      return Some(DeclaredSize);
    }
    if x.compressSize > MAX_MEMBER_COMPRESSED {
      return Some(DeclaredCompressedSize);
    }
    if x.compressSize == 0 {
      if x.fileSize != 0 {
        return Some(DeclaredRatio);
      }
    } else if x.fileSize > MAX_RATIO * x.compressSize {
      return Some(DeclaredRatio);
    }
    return None;
  }

  /** Judges an archive from its central directory alone. With expected names that are plain
      basenames the three rules about names never fire: the name set has already been compared. */
  method PreDecompressionGate(infos: seq<Info>, length: nat, expected: seq<string>)
      returns (failure: Option<ArchiveError>)
    ensures failure.None? <==> GateAccepts(infos, length, expected)
    ensures SafeNames(expected) && failure.Some? ==> failure.value !in {DirectoryEntry, UnsafePath, ControlCharacter}
    ensures failure.Some? ==> !failure.value.Streaming?
  {
    hide EntryAccepted, Directory, Basename, Printable;
    if length > MAX_ARCHIVE_BYTES {
      return Some(ArchiveBytes);
    }
    if |infos| != |expected| {
      return Some(MemberCount);
    }
    var distinct := CheckDuplicates(infos);
    if !distinct {
      return Some(DuplicateMember);
    }
    if multiset(Names(infos)) != multiset(expected) {
      return Some(NameSet);
    }
    var aggregate := 0;
    for i := 0 to |infos|
      invariant forall j | 0 <= j < i :: EntryAccepted(infos[j])
      invariant aggregate == DeclaredTotal(infos[..i])
    {
      assert infos[..i + 1][..i] == infos[..i];
      ExpectedName(infos, expected, i);
      failure := CheckEntry(infos[i]);
      if failure.Some? {
        return failure;
      }
      aggregate := aggregate + infos[i].fileSize;
    }
    assert infos[..|infos|] == infos;
    if aggregate > MAX_AGGREGATE_UNCOMPRESSED {
      return Some(DeclaredAggregate);
    }
    return None;
  }

  lemma ExpectedName(infos: seq<Info>, expected: seq<string>, i: nat)
    requires i < |infos| && multiset(Names(infos)) == multiset(expected)
    ensures exists j :: 0 <= j < |expected| && expected[j] == infos[i].name
  {
    SameMembers(Names(infos), expected, Names(infos)[i]);
  }

  // ---------- where a member starts ----------

  /** The compressed bytes start behind the local header, whose name must be the declared one. */
  function MemberDataStart(payload: seq<Byte>, x: Info, utf8: seq<Byte> -> Option<string>)
      : (r: Result<nat, ArchiveError>)
    ensures r.Success? ==> r.value <= |payload|
    ensures r.Failure? ==> r.error in {LocalHeaderInvalid, LocalNameMismatch}
  {
    if x.headerOffset < 0 || x.headerOffset + 30 > |payload| then Failure(LocalHeaderInvalid) else
    var header := payload[x.headerOffset..x.headerOffset + 30];
    if header[..4] != [0x50, 0x4B, 0x03, 0x04] then Failure(LocalHeaderInvalid) else
    var nameLength, extraLength := FromLittleEndian(header[26..28]), FromLittleEndian(header[28..30]);
    var start := x.headerOffset + 30 + nameLength + extraLength;
    if start > |payload| then Failure(LocalHeaderInvalid) else
    match utf8(payload[x.headerOffset + 30..x.headerOffset + 30 + nameLength])
    case None => Failure(LocalHeaderInvalid)
    case Some(name) => if name != x.name then Failure(LocalNameMismatch) else Success(start)
  }

  /** A local header as an archiver writes it: signature, 22 bytes of fields the reader passes over, the
      two lengths, the name and the extra field. */
  function LocalHeader(fields: seq<Byte>, name: seq<Byte>, extra: seq<Byte>): seq<Byte> {
    [0x50, 0x4B, 0x03, 0x04] + fields + LittleEndian(|name|, 2) + LittleEndian(|extra|, 2) + name + extra
  }

  lemma LocalHeaderParts(before: seq<Byte>, fields: seq<Byte>, name: seq<Byte>, extra: seq<Byte>, rest: seq<Byte>)
    requires |fields| == 22 && |name| < 0x1_0000 && |extra| < 0x1_0000
    ensures var payload, at := before + LocalHeader(fields, name, extra) + rest, |before|;
            && |payload| == at + 30 + |name| + |extra| + |rest|
            && payload[at..at + 30][..4] == [0x50, 0x4B, 0x03, 0x04]
            && FromLittleEndian(payload[at..at + 30][26..28]) == |name|
            && FromLittleEndian(payload[at..at + 30][28..30]) == |extra|
            && payload[at + 30..at + 30 + |name|] == name
            && payload[at + 30 + |name| + |extra|..] == rest
  {
    hide LittleEndian, FromLittleEndian;
    var payload, at := before + LocalHeader(fields, name, extra) + rest, |before|;
    LittleEndianRoundTrip(|name|, 2);
    LittleEndianRoundTrip(|extra|, 2);
    assert Pow256(2) == 0x1_0000 by { assert Pow256(1) == 0x100; }
    var signature: seq<Byte> := [0x50, 0x4B, 0x03, 0x04];
    assert payload[at..at + 30] == signature + fields + LittleEndian(|name|, 2) + LittleEndian(|extra|, 2);
    assert payload[at..at + 30][26..28] == LittleEndian(|name|, 2);
    assert payload[at..at + 30][28..30] == LittleEndian(|extra|, 2);
  }

  /** Wherever a header stands in the archive, the member starts right behind it, extra field included,
      if the name is the declared one; any other name is a mismatch. */
  lemma LocalHeaderLocated(before: seq<Byte>, fields: seq<Byte>, name: seq<Byte>, extra: seq<Byte>, rest: seq<Byte>,
                           x: Info, utf8: seq<Byte> -> Option<string>)
    requires |fields| == 22 && |name| < 0x1_0000 && |extra| < 0x1_0000 && x.headerOffset == |before|
    ensures var payload := before + LocalHeader(fields, name, extra) + rest;
            MemberDataStart(payload, x, utf8)
              == match utf8(name)
                 case Some(n) =>
                   if n == x.name then Success(|before| + 30 + |name| + |extra|) else Failure(LocalNameMismatch)
                 case None => Failure(LocalHeaderInvalid)
  {
    hide FromLittleEndian, LocalHeader;
    LocalHeaderParts(before, fields, name, extra, rest);
  }

  // ---------- the whole archive ----------

  /** A body is what its member declares, produced by reading the member's compressed bytes once. */
  ghost predicate Extracted<S(!new)>(body: seq<Byte>, x: Info, payload: seq<Byte>, utf8: seq<Byte> -> Option<string>,
                                     dec: (S, seq<Byte>) -> Answer<S>, start: S, crc: seq<Byte> -> nat) {
    && |body| == x.fileSize && crc(body) == x.crc
    && var from := MemberDataStart(payload, x, utf8);
       && from.Success? && from.value + x.compressSize <= |payload|
       && if x.compression == ZIP_STORED then body == payload[from.value..from.value + x.compressSize]
          else exists calls: seq<Call> ::
                 && UsesOffered(calls) && Answered(dec, start, calls, true) && Output(calls) == body
                 && Consumed(calls) == x.compressSize
                 && (SuffixTails(dec) ==> Input(calls) == payload[from.value..from.value + x.compressSize])
  }

  lemma {:induction false} TotalOfPrefix(infos: seq<Info>, n: nat)
    requires n < |infos|
    ensures DeclaredTotal(infos[..n]) + infos[n].fileSize == DeclaredTotal(infos[..n + 1]) <= DeclaredTotal(infos)
    decreases |infos|
  {
    assert infos[..n + 1][..n] == infos[..n];
    var m := |infos| - 1;
    if n < m {
      TotalOfPrefix(infos[..m], n);
      assert infos[..m][..n] == infos[..n] && infos[..m][..n + 1] == infos[..n + 1];
    } else {
      assert infos[..n + 1] == infos;
    }
  }

  /** A member whose local header is right and whose stream is accepted, where `base` bytes have been
      produced before it. */
  ghost predicate Readable<S(!new)>(x: Info, payload: seq<Byte>, base: nat, utf8: seq<Byte> -> Option<string>,
                                    dec: (S, seq<Byte>) -> Answer<S>, start: S, crc: seq<Byte> -> nat) {
    var from := MemberDataStart(payload, x, utf8);
    && from.Success?
    && Accepted(payload, Declared(x, from.value), x.compression == ZIP_STORED, base, dec, start, crc)
  }

  function Declared(x: Info, from: nat): Member {
    Member(x.fileSize, x.compressSize, x.crc, from, MemberCap(x.name))
  }

  /** A member stored behind its printed header is readable exactly within the bounds, and what is
      extracted is exactly the data that was stored. */
  lemma StoredMemberRoundTrip<S(!new)>(before: seq<Byte>, fields: seq<Byte>, name: seq<Byte>, extra: seq<Byte>,
                                       data: seq<Byte>, rest: seq<Byte>, x: Info, base: nat,
                                       utf8: seq<Byte> -> Option<string>, dec: (S, seq<Byte>) -> Answer<S>, start: S,
                                       crc: seq<Byte> -> nat)
    requires |fields| == 22 && |name| < 0x1_0000 && |extra| < 0x1_0000 && x.headerOffset == |before|
    requires utf8(name) == Some(x.name) && x.compression == 0
    requires x.fileSize == x.compressSize == |data| && x.crc == crc(data)
    ensures var payload := before + LocalHeader(fields, name, extra) + (data + rest);
            && (Readable(x, payload, base, utf8, dec, start, crc) <==>
                |data| <= (if x.name == "mt4_s3c_static_worker" then 8388608 else 4194304) && base + |data| <= 16777216)
            && forall body :: Extracted(body, x, payload, utf8, dec, start, crc) <==> body == data
  {
    hide LocalHeader;
    var payload := before + LocalHeader(fields, name, extra) + (data + rest);
    var from := |before| + 30 + |name| + |extra|;
    LocalHeaderParts(before, fields, name, extra, data + rest);
    LocalHeaderLocated(before, fields, name, extra, data + rest, x, utf8);
    hide MemberDataStart;
    assert payload[from..from + |data|] == payload[from..][..|data|] == data;
  }

  /** A deflated member behind its printed header is extracted from its compressed bytes alone, each fed
      once and in order, and has the size and the checksum it declares. */
  lemma DeflatedMemberExtracted<S(!new)>(before: seq<Byte>, fields: seq<Byte>, name: seq<Byte>, extra: seq<Byte>,
                                         packed: seq<Byte>, rest: seq<Byte>, x: Info, body: seq<Byte>,
                                         utf8: seq<Byte> -> Option<string>, dec: (S, seq<Byte>) -> Answer<S>, start: S,
                                         crc: seq<Byte> -> nat)
    requires |fields| == 22 && |name| < 0x1_0000 && |extra| < 0x1_0000 && x.headerOffset == |before|
    requires utf8(name) == Some(x.name) && x.compression == 8 && x.compressSize == |packed| && SuffixTails(dec)
    ensures Extracted(body, x, before + LocalHeader(fields, name, extra) + (packed + rest), utf8, dec, start, crc) <==>
            && |body| == x.fileSize && crc(body) == x.crc
            && exists calls :: UsesOffered(calls) && Answered(dec, start, calls, true) && Output(calls) == body
                               && Input(calls) == packed
  {
    hide LocalHeader, Output, Answered, Input, SuffixTails;
    var payload := before + LocalHeader(fields, name, extra) + (packed + rest);
    var from := |before| + 30 + |name| + |extra|;
    LocalHeaderParts(before, fields, name, extra, packed + rest);
    LocalHeaderLocated(before, fields, name, extra, packed + rest, x, utf8);
    hide MemberDataStart;
    assert payload[from..from + |packed|] == payload[from..][..|packed|] == packed;
    forall calls | UsesOffered(calls) && Input(calls) == packed
      ensures Consumed(calls) == |packed|
    {
      InputLength(calls);
    }
  }

  /** What is readable can be extracted. */
  lemma ReadableExtracts<S(!new)>(x: Info, payload: seq<Byte>, base: nat, utf8: seq<Byte> -> Option<string>,
                                  dec: (S, seq<Byte>) -> Answer<S>, start: S, crc: seq<Byte> -> nat)
    requires Readable(x, payload, base, utf8, dec, start, crc) && SuffixTails(dec)
    ensures exists body :: Extracted(body, x, payload, utf8, dec, start, crc)
  {
    hide MemberDataStart, SuffixTails, AcceptedBy, Output, Answered, Input;
    var from := MemberDataStart(payload, x, utf8).value;
    if x.compression == 0 {
      assert Extracted(payload[from..from + x.compressSize], x, payload, utf8, dec, start, crc);
    } else {
      var calls :| AcceptedBy(payload, Declared(x, from), base, dec, start, crc, calls);
      AcceptedFacts(payload, Declared(x, from), base, dec, start, crc, calls);
      assert Extracted(Output(calls), x, payload, utf8, dec, start, crc);
    }
  }

  lemma AcceptedFacts<S(!new)>(payload: seq<Byte>, m: Member, base: nat, dec: (S, seq<Byte>) -> Answer<S>, start: S,
                               crc: seq<Byte> -> nat, calls: seq<Call>)
    requires m.dataStart <= |payload| && AcceptedBy(payload, m, base, dec, start, crc, calls) && SuffixTails(dec)
    ensures UsesOffered(calls) && Answered(dec, start, calls, true) && Consumed(calls) == m.compressSize
    ensures |Output(calls)| == m.fileSize && crc(Output(calls)) == m.crc
    ensures m.dataStart + m.compressSize <= |payload|
    ensures Input(calls) == payload[m.dataStart..m.dataStart + m.compressSize]
  {
    hide Output, Answered, Input, SuffixTails, Steps;
    StepsInput(payload, m, base, dec, start, calls, true);
  }

  /** The bodies of an archive and their digests, by name. */
  datatype Artifact = Artifact(contents: map<string, seq<Byte>>, digests: map<string, string>)

  /** Extracts every member. On success the names are the expected ones, each body is what its member
      declares and comes with its own digest, and all of them together stay within the aggregate
      bound. It succeeds exactly when the gate accepts and every member is readable. Whatever the
      decompressor answers, the aggregate bound is never what stops the streaming: the gate has bounded
      the sum of the declared sizes, and no member outgrows its own. */
  method ExtractArtifact<S(!new)>(payload: seq<Byte>, infos: seq<Info>, expected: seq<string>,
                                  utf8: seq<Byte> -> Option<string>, dec: (S, seq<Byte>) -> Answer<S>, start: S,
                                  crc: seq<Byte> -> nat, sha: seq<Byte> -> string)
      returns (r: Result<Artifact, ArchiveError>)
    requires Progresses(dec)
    ensures r.Success? ==>
              && GateAccepts(infos, |payload|, expected)
              && r.value.contents.Keys == (set n | n in expected)
              && r.value.digests.Keys == r.value.contents.Keys
              && forall i | 0 <= i < |infos| ::
                   && infos[i].name in r.value.contents
                   && Extracted(r.value.contents[infos[i].name], infos[i], payload, utf8, dec, start, crc)
                   && r.value.digests[infos[i].name] == sha(r.value.contents[infos[i].name])
    ensures r.Success? <==>
            && GateAccepts(infos, |payload|, expected)
            && forall i | 0 <= i < |infos| ::
                 Readable(infos[i], payload, DeclaredTotal(infos[..i]), utf8, dec, start, crc)
    ensures r != Failure(Streaming(AggregateOverrun))
    ensures SuffixTails(dec) ==> r != Failure(Streaming(AccountingInvalid))
  {
    hide EntryAccepted, MemberDataStart, Progresses, SuffixTails, Extracted, DeclaredTotal, Names, Readable, Collected;
    NothingDeclared();
    var failure := PreDecompressionGate(infos, |payload|, expected);
    if failure.Some? {
      return Failure(failure.value);
    }
    var aggregate := new AggregateState();
    var contents: map<string, seq<Byte>>, digests: map<string, string> := map[], map[];
    CollectedNone(infos, payload, utf8, dec, start, crc);
    for i := 0 to |infos|
      invariant aggregate.streamed == DeclaredTotal(infos[..i]) <= MAX_AGGREGATE_UNCOMPRESSED
      invariant forall j | 0 <= j < i ::
                  Readable(infos[j], payload, DeclaredTotal(infos[..j]), utf8, dec, start, crc)
      invariant digests.Keys == contents.Keys && forall n | n in contents :: digests[n] == sha(contents[n])
      invariant Collected(contents, infos, i, payload, utf8, dec, start, crc)
    {
      TotalOfPrefix(infos, i);
      var body := ExtractMember(payload, infos[i], aggregate, DeclaredTotal(infos), utf8, dec, start, crc);
      if body.Failure? {
        return Failure(body.error);
      }
      CollectNext(contents, body.value, infos, i, payload, utf8, dec, start, crc);
      contents := contents[infos[i].name := body.value];
      digests := digests[infos[i].name := sha(body.value)];
    }
    CollectedAll(contents, infos, payload, utf8, dec, start, crc);
    KeysExpected(infos, expected);
    return Success(Artifact(contents, digests));
  }

  /** The bodies of the first `n` members, and nothing else. */
  ghost predicate Collected<S(!new)>(contents: map<string, seq<Byte>>, infos: seq<Info>, n: nat, payload: seq<Byte>,
                                     utf8: seq<Byte> -> Option<string>, dec: (S, seq<Byte>) -> Answer<S>, start: S,
                                     crc: seq<Byte> -> nat)
    requires n <= |infos|
  {
    && contents.Keys == (set j | 0 <= j < n :: infos[j].name)
    && forall j | 0 <= j < n ::
         infos[j].name in contents && Extracted(contents[infos[j].name], infos[j], payload, utf8, dec, start, crc)
  }

  lemma CollectedNone<S(!new)>(infos: seq<Info>, payload: seq<Byte>, utf8: seq<Byte> -> Option<string>,
                               dec: (S, seq<Byte>) -> Answer<S>, start: S, crc: seq<Byte> -> nat)
    ensures Collected(map[], infos, 0, payload, utf8, dec, start, crc)
  {
  }

  lemma CollectedAll<S(!new)>(contents: map<string, seq<Byte>>, infos: seq<Info>, payload: seq<Byte>,
                              utf8: seq<Byte> -> Option<string>, dec: (S, seq<Byte>) -> Answer<S>, start: S,
                              crc: seq<Byte> -> nat)
    requires Collected(contents, infos, |infos|, payload, utf8, dec, start, crc)
    ensures contents.Keys == (set j | 0 <= j < |infos| :: infos[j].name)
    ensures forall i | 0 <= i < |infos| ::
              infos[i].name in contents && Extracted(contents[infos[i].name], infos[i], payload, utf8, dec, start, crc)
  {
    hide Extracted;
  }

  lemma CollectNext<S(!new)>(contents: map<string, seq<Byte>>, body: seq<Byte>, infos: seq<Info>, n: nat,
                             payload: seq<Byte>, utf8: seq<Byte> -> Option<string>,
                             dec: (S, seq<Byte>) -> Answer<S>, start: S, crc: seq<Byte> -> nat)
    requires n < |infos| && forall i, j | 0 <= i < j < |infos| :: infos[i].name != infos[j].name
    requires Collected(contents, infos, n, payload, utf8, dec, start, crc)
    requires Extracted(body, infos[n], payload, utf8, dec, start, crc)
    ensures Collected(contents[infos[n].name := body], infos, n + 1, payload, utf8, dec, start, crc)
  {
    hide Extracted;
  }

  lemma NothingDeclared()
    ensures DeclaredTotal([]) == 0
  {
  }

  lemma KeysExpected(infos: seq<Info>, expected: seq<string>)
    requires multiset(Names(infos)) == multiset(expected)
    ensures (set j | 0 <= j < |infos| :: infos[j].name) == (set n | n in expected)
  {
    forall n
      ensures n in (set j | 0 <= j < |infos| :: infos[j].name) <==> n in expected
    {
      SameMembers(Names(infos), expected, n);
      assert n in Names(infos) <==> exists j :: 0 <= j < |infos| && Names(infos)[j] == n;
    }
  }

  /** Streams one member while `total` bounds what all members declare. */
  method ExtractMember<S(!new)>(payload: seq<Byte>, x: Info, aggregate: AggregateState, ghost total: nat,
                                utf8: seq<Byte> -> Option<string>, dec: (S, seq<Byte>) -> Answer<S>, start: S,
                                crc: seq<Byte> -> nat)
      returns (r: Result<seq<Byte>, ArchiveError>)
    requires Progresses(dec) && EntryAccepted(x)
    requires aggregate.streamed + x.fileSize <= total <= MAX_AGGREGATE_UNCOMPRESSED
    modifies aggregate
    ensures r.Success? ==> aggregate.streamed == old(aggregate.streamed) + x.fileSize
    ensures r.Success? ==> Extracted(r.value, x, payload, utf8, dec, start, crc)
    ensures r.Success? <==> Readable(x, payload, old(aggregate.streamed), utf8, dec, start, crc)
    ensures r != Failure(Streaming(AggregateOverrun))
    ensures SuffixTails(dec) ==> r != Failure(Streaming(AccountingInvalid))
  {
    hide EntryAccepted, MemberDataStart, Progresses, SuffixTails, Produced, Consumed, Output, Answered, Input,
      UsesOffered, Accepted, Steps, DeflateExplains, StoredExplains;
    var from := MemberDataStart(payload, x, utf8);
    if from.Failure? {
      return Failure(from.error);
    }
    var m := Declared(x, from.value);
    var body;
    ghost var calls;
    body, calls := StreamMember(payload, m, x.compression == ZIP_STORED, aggregate, dec, start, crc);
    if body.Failure? {
      NeverAggregate(body, m, calls, old(aggregate.streamed), crc);
      return Failure(Streaming(body.error));
    }
    return Success(body.value);
  }

  lemma NeverAggregate(r: Result<seq<Byte>, StreamError>, m: Member, calls: seq<Call>, base: nat, crc: seq<Byte> -> nat)
    requires Explains(r, m, calls, base, crc) && r.Failure? && base + m.fileSize <= MAX_AGGREGATE_UNCOMPRESSED
    ensures r.error != AggregateOverrun
  {
  }
}
