/** The digest of the pinned upstream inventory: reading the tree listing, binding every entry to its
    content, and the framing of the digest preimage. */
module TreeDigest {
  import opened Bytes
  import opened GitStream
  import opened Sorting
  import opened Wrappers

  /** "commit" */
  const COMMIT: Text := [99, 111, 109, 109, 105, 116]
  /** "submodule:" */
  const SUBMODULE: Text := [115, 117, 98, 109, 111, 100, 117, 108, 101, 58]

  // ---------- the tree listing ----------

  datatype Entry = Entry(path: Text, mode: Text, kind: Text, oid: Text)

  function ByPath(): (Entry, Entry) -> bool {
    (a: Entry, b: Entry) => LexLe(a.path, b.path)
  }

  lemma PathOrder()
    ensures TotalPreorder(ByPath())
  {
    LexOrder();
    hide LexLe;
  }

  function ParseRecord(record: Text, lib: Library): Result<Entry, GitError> {
    var tab := Find(record, TAB, 0);
    var header := if tab == -1 then record else record[..tab];
    var path := if tab == -1 then [] else record[tab + 1..];
    if path == [] then Failure(MissingPathSeparator) else
    if !lib.utf8(header) then Failure(HeaderNotText) else
    var fields := Split(header, SPACE);
    if |fields| != 3 then Failure(MalformedHeader) else
    if fields[1] != BLOB && fields[1] != COMMIT then Failure(UnexpectedType) else
    Success(Entry(path, fields[0], fields[1], fields[2]))
  }

  /** Every record is read at its first tab: what stands before it must be three words, the second a kind
      there is, and what stands behind it is the path, whatever it holds. */
  lemma RecordRead(header: Text, path: Text, lib: Library)
    requires Free(header, 9)
    ensures ParseRecord(header, lib) == Failure(MissingPathSeparator)
    ensures var words := Split(header, 32);
            ParseRecord(header + [9] + path, lib)
              == if path == [] then Failure(MissingPathSeparator)
                 else if !lib.utf8(header) then Failure(HeaderNotText)
                 else if |words| != 3 then Failure(MalformedHeader)
                 else if words[1] == Spelled("blob") || words[1] == Spelled("commit") then
                   Success(Entry(path, words[0], words[1], words[2]))
                 else Failure(UnexpectedType)
  {
    hide Split;
    var record := header + [9] + path;
    FindFirst(header, 9, path);
    assert record[..|header|] == header && record[|header| + 1..] == path;
    RecordKinds();
  }

  lemma RecordKinds()
    ensures Spelled("blob") == BLOB && Spelled("commit") == COMMIT
  {
  }

  /** Empty records are skipped; the first bad one stops the reading. */
  function ParseRecords(records: seq<Text>, lib: Library): Result<seq<Entry>, GitError> {
    if records == [] then Success([])
    else
      match ParseRecords(records[..|records| - 1], lib)
      case Failure(e) => Failure(e)
      case Success(entries) =>
        if records[|records| - 1] == [] then Success(entries)
        else
          match ParseRecord(records[|records| - 1], lib)
          case Failure(e) => Failure(e)
          case Success(entry) => Success(entries + [entry])
  }

  function Printed(e: Entry): Text {
    e.mode + [32] + e.kind + [32] + e.oid + [9] + e.path
  }

  function Listing(entries: seq<Entry>): Text {
    if entries == [] then [] else Printed(entries[0]) + [0] + Listing(entries[1..])
  }

  /** What the version-control tool lists: fields without separators and a non-empty path without
      NUL; the path may hold tabs, spaces and newlines. */
  predicate Listed(e: Entry, lib: Library) {
    && Plain(e.mode) && Plain(e.oid) && e.kind in {BLOB, COMMIT} && e.path != [] && Free(e.path, NUL)
    && lib.utf8(e.mode + [SPACE] + e.kind + [SPACE] + e.oid)
  }

  lemma KindPlain(kind: Text)
    requires kind in {BLOB, COMMIT}
    ensures Plain(kind)
  {
  }

  lemma FreeConcat(a: Text, b: Text, x: Byte)
    ensures Free(a + b, x) <==> Free(a, x) && Free(b, x)
  {
    assert forall i | 0 <= i < |b| :: (a + b)[|a| + i] == b[i];
    assert forall i | 0 <= i < |a| :: (a + b)[i] == a[i];
  }

  /** The part of a record before its tab. */
  function Fields(e: Entry): Text {
    e.mode + [SPACE] + e.kind + [SPACE] + e.oid
  }

  lemma FieldsSplit(e: Entry)
    requires Plain(e.mode) && Plain(e.kind) && Plain(e.oid)
    ensures Split(Fields(e), SPACE) == [e.mode, e.kind, e.oid]
    ensures Free(Fields(e), TAB) && Free(Fields(e), NUL)
  {
    hide Split;
    var rest := e.kind + [SPACE] + e.oid;
    assert Fields(e) == e.mode + [SPACE] + rest;
    SplitFirst(e.mode, SPACE, rest);
    SplitFirst(e.kind, SPACE, e.oid);
    SplitLast(e.oid, SPACE);
    FieldsFree(e, TAB);
    FieldsFree(e, NUL);
  }

  lemma FieldsFree(e: Entry, x: Byte)
    requires Free(e.mode, x) && Free(e.kind, x) && Free(e.oid, x) && x != SPACE
    ensures Free(Fields(e), x)
  {
    hide Free;
    var a := e.mode + [SPACE];
    OneFree(x);
    FreeConcat(e.mode, [SPACE], x);
    FreeConcat(a, e.kind, x);
    FreeConcat(a + e.kind, [SPACE], x);
    FreeConcat(a + e.kind + [SPACE], e.oid, x);
  }

  lemma OneFree(x: Byte)
    requires x != SPACE
    ensures Free([SPACE], x)
  {
  }

  /** A printed record is read back. */
  lemma ParsePrinted(e: Entry, lib: Library)
    requires Listed(e, lib)
    ensures ParseRecord(Printed(e), lib) == Success(e) && Free(Printed(e), NUL) && Printed(e) != []
  {
    KindPlain(e.kind);
    FieldsSplit(e);
    var header := Fields(e);
    assert Printed(e) == header + [TAB] + e.path;
    FindFirst(header, TAB, e.path);
    TabFree();
    FreeConcat(header, [TAB], NUL);
    FreeConcat(header + [TAB], e.path, NUL);
    assert Printed(e)[..|header|] == header && Printed(e)[|header| + 1..] == e.path;
    hide Split, Find, Free, Plain;
  }

  lemma TabFree()
    ensures Free([TAB], NUL)
  {
  }

  function PrintedAll(entries: seq<Entry>): seq<Text> {
    if entries == [] then [[]] else [Printed(entries[0])] + PrintedAll(entries[1..])
  }

  lemma {:induction false} SplitListing(entries: seq<Entry>, lib: Library)
    requires forall i | 0 <= i < |entries| :: Listed(entries[i], lib)
    ensures Split(Listing(entries), NUL) == PrintedAll(entries)
  {
    hide Split, Listed;
    if entries == [] {
      SplitLast([], NUL);
    } else {
      ParsePrinted(entries[0], lib);
      SplitFirst(Printed(entries[0]), NUL, Listing(entries[1..]));
      SplitListing(entries[1..], lib);
    }
  }

  lemma {:induction false} PrintedAllEnds(entries: seq<Entry>)
    ensures PrintedAll(entries) == seq(|entries|, i requires 0 <= i < |entries| => Printed(entries[i])) + [[]]
  {
    hide Printed;
    if entries != [] {
      PrintedAllEnds(entries[1..]);
    }
  }

  lemma {:induction false} ParseRecordsPrinted(entries: seq<Entry>, records: seq<Text>, lib: Library)
    requires |records| == |entries|
    requires forall i | 0 <= i < |entries| :: records[i] == Printed(entries[i]) && Listed(entries[i], lib)
    ensures ParseRecords(records, lib) == Success(entries)
  {
    hide ParseRecord, Printed, Listed;
    if entries != [] {
      var n := |entries| - 1;
      ParseRecordsPrinted(entries[..n], records[..n], lib);
      ParsePrinted(entries[n], lib);
      assert entries == entries[..n] + [entries[n]];
    }
  }

  /** The listing is read back whatever its paths contain. */
  lemma ListingRoundTrip(entries: seq<Entry>, lib: Library)
    requires forall i | 0 <= i < |entries| :: Listed(entries[i], lib)
    ensures ParseRecords(Split(Listing(entries), NUL), lib) == Success(entries)
  {
    hide ParseRecord, Printed, Listed, Split, Listing, PrintedAll;
    SplitListing(entries, lib);
    PrintedAllEnds(entries);
    var records := seq(|entries|, i requires 0 <= i < |entries| => Printed(entries[i]));
    ParseRecordsPrinted(entries, records, lib);
    assert (records + [[]])[..|records|] == records;
  }

  // ---------- the digest preimage ----------

  /** An entry with the identity its digest binds. */
  datatype Bound = Bound(mode: Text, kind: Text, path: Text, identity: Text)

  function Frame(b: Bound): seq<Byte> {
    b.mode + [0] + b.kind + [0] + b.path + [0] + b.identity + [10]
  }

  function Framed(bs: seq<Bound>): seq<Byte> {
    if bs == [] then [] else Framed(bs[..|bs| - 1]) + Frame(bs[|bs| - 1])
  }

  /** Mode, type and path without NUL, identity without newline. */
  predicate Frameable(b: Bound) {
    Free(b.mode, NUL) && Free(b.kind, NUL) && Free(b.path, NUL) && Free(b.identity, NEWLINE)
  }

  lemma FrameHead(a: Bound, ra: seq<Byte>, b: Bound, rb: seq<Byte>)
    requires Frameable(a) && Frameable(b) && Frame(a) + ra == Frame(b) + rb
    ensures a == b && ra == rb
  {
    hide Free;
    var a3, b3 := a.identity + [NEWLINE] + ra, b.identity + [NEWLINE] + rb;
    var a2, b2 := a.path + [NUL] + a3, b.path + [NUL] + b3;
    var a1, b1 := a.kind + [NUL] + a2, b.kind + [NUL] + b2;
    FrameNested(a, ra);
    FrameNested(b, rb);
    hide Frame;
    SameHead(a.mode, a1, b.mode, b1, NUL);
    SameHead(a.kind, a2, b.kind, b2, NUL);
    SameHead(a.path, a3, b.path, b3, NUL);
    SameHead(a.identity, ra, b.identity, rb, NEWLINE);
  }

  lemma FrameNested(b: Bound, rest: seq<Byte>)
    ensures Frame(b) + rest == b.mode + [NUL] + (b.kind + [NUL] + (b.path + [NUL] + (b.identity + [NEWLINE] + rest)))
  {
  }

  lemma {:induction false} FramedFront(bs: seq<Bound>)
    requires bs != []
    ensures Framed(bs) == Frame(bs[0]) + Framed(bs[1..])
  {
    hide Frame;
    var n := |bs| - 1;
    if n == 0 {
      assert bs[..0] == [] && bs[1..] == [];
    } else {
      FramedFront(bs[..n]);
      assert bs[..n][1..] == bs[1..][..n - 1];
      assert bs[1..][n - 1] == bs[n];
    }
  }

  /** Equal preimages come from equal inventories: the framing is uniquely decodable. */
  lemma {:induction false} FramingUnique(a: seq<Bound>, b: seq<Bound>)
    requires forall i | 0 <= i < |a| :: Frameable(a[i])
    requires forall i | 0 <= i < |b| :: Frameable(b[i])
    requires Framed(a) == Framed(b)
    ensures a == b
  {
    hide Frameable, Frame, Framed;
    if a != [] && b != [] {
      FramedFront(a);
      FramedFront(b);
      FrameHead(a[0], Framed(a[1..]), b[0], Framed(b[1..]));
      FramingUnique(a[1..], b[1..]);
      assert a == [a[0]] + a[1..] && b == [b[0]] + b[1..];
    } else {
      OnlyEmptyIsEmpty(a);
      OnlyEmptyIsEmpty(b);
    }
  }

  lemma OnlyEmptyIsEmpty(bs: seq<Bound>)
    ensures Framed(bs) == [] <==> bs == []
  {
  }

  // ---------- the tree digest ----------

  function BlobOids(entries: seq<Entry>): seq<Text> {
    if entries == [] then []
    else
      var e := entries[|entries| - 1];
      BlobOids(entries[..|entries| - 1]) + if e.kind == BLOB then [e.oid] else []
  }

  lemma {:induction false} BlobOidsMembers(entries: seq<Entry>)
    ensures forall x :: x in BlobOids(entries) <==>
              exists i :: 0 <= i < |entries| && entries[i].kind == BLOB && entries[i].oid == x
  {
    if entries != [] {
      var n := |entries| - 1;
      var before := entries[..n];
      BlobOidsMembers(before);
      forall x
        ensures x in BlobOids(entries) <==>
                exists i :: 0 <= i < |entries| && entries[i].kind == BLOB && entries[i].oid == x
      {
        if x in BlobOids(before) {
          var i :| 0 <= i < n && before[i].kind == BLOB && before[i].oid == x;
          assert entries[i].oid == x;
        }
        if i :| 0 <= i < |entries| && entries[i].kind == BLOB && entries[i].oid == x {
          assert i < n ==> before[i].oid == x;
        }
      }
    }
  }

  /** Blobs bind the digest of their content, submodules their own identifier. */
  function Identity(e: Entry, digests: map<Text, Text>): Text
    requires e.kind == BLOB ==> e.oid in digests
  {
    if e.kind == BLOB then digests[e.oid] else SUBMODULE + e.oid
  }

  lemma KindsSpelled()
    ensures Spelled("blob") == BLOB && Spelled("commit") == COMMIT && Spelled("submodule:") == SUBMODULE
  {
  }

  /** A blob is bound to the digest of its content, a submodule to its identifier behind "submodule:". */
  lemma IdentityByKind(e: Entry, digests: map<Text, Text>)
    ensures e.kind == Spelled("blob") && e.oid in digests ==> Identity(e, digests) == digests[e.oid]
    ensures e.kind == Spelled("commit") ==> Identity(e, digests) == Spelled("submodule:") + e.oid
  {
    KindsSpelled();
    assert |BLOB| != |COMMIT|;
  }

  /** The inventory is bound in the order of the bytes of its paths. */
  lemma InventoryInPathOrder(entries: seq<Entry>)
    ensures var sorted := Sort(ByPath(), entries);
            && multiset(sorted) == multiset(entries)
            && forall i, j | 0 <= i < j < |sorted| :: Precedes(sorted[i].path, sorted[j].path)
  {
    hide Precedes, LexLe;
    PathOrder();
    SortSorts(ByPath(), entries);
    var sorted := Sort(ByPath(), entries);
    forall i, j | 0 <= i < j < |sorted|
      ensures Precedes(sorted[i].path, sorted[j].path)
    {
      assert ByPath()(sorted[i], sorted[j]);
      LexLePrecedes(sorted[i].path, sorted[j].path);
    }
  }

  /** An entry is fed exactly when its mode and its identity hold no byte from 128 up. */
  lemma EncodableIff(e: Entry, digests: map<Text, Text>)
    requires e.kind == BLOB ==> e.oid in digests
    ensures Encodable(e, digests) <==> forall b: Byte | b in e.mode + Identity(e, digests) :: b < 128
  {
    var all := e.mode + Identity(e, digests);
    assert forall i | 0 <= i < |e.mode| :: e.mode[i] in all;
    assert forall i | 0 <= i < |Identity(e, digests)| :: Identity(e, digests)[i] in all;
  }

  predicate Encodable(e: Entry, digests: map<Text, Text>)
    requires e.kind == BLOB ==> e.oid in digests
  {
    Ascii(e.mode) && Ascii(Identity(e, digests))
  }

  predicate Covered(entries: seq<Entry>, digests: map<Text, Text>) {
    forall i | 0 <= i < |entries| && entries[i].kind == BLOB :: entries[i].oid in digests
  }

  function BoundAll(entries: seq<Entry>, digests: map<Text, Text>): (bs: seq<Bound>)
    requires Covered(entries, digests)
    ensures |bs| == |entries|
    ensures forall i | 0 <= i < |bs| ::
              bs[i] == Bound(entries[i].mode, entries[i].kind, entries[i].path, Identity(entries[i], digests))
  {
    seq(|entries|, i requires 0 <= i < |entries| =>
        Bound(entries[i].mode, entries[i].kind, entries[i].path, Identity(entries[i], digests)))
  }

  predicate DistinctPaths(entries: seq<Entry>) {
    forall i, j | 0 <= i < j < |entries| :: entries[i].path != entries[j].path
  }

  lemma BatchCovers(entries: seq<Entry>, git: seq<Text> -> seq<Byte>, lib: Library)
    ensures Batch(BlobOids(entries), git, lib).Success? ==> Covered(entries, Batch(BlobOids(entries), git, lib).value)
  {
    var oids := BlobOids(entries);
    BlobOidsMembers(entries);
    UniqueSorted(oids);
    var unique := Unique(oids);
    hide Unique, Ascii, BlobOids, ReadBlobs, Digests;
    forall i | 0 <= i < |entries| && entries[i].kind == BLOB
      ensures entries[i].oid in unique
    {
      assert entries[i].oid in oids;
    }
    if Batch(oids, git, lib).Success? && unique != [] {
      var payloads := ReadBlobs(git(unique), 0, unique, lib).value;
      ReadBlobsLength(git(unique), 0, unique, lib);
      DigestsAt(unique, payloads, lib);
    }
  }

  function DigestOf(raw: Text, git: seq<Text> -> seq<Byte>, lib: Library): Result<Text, GitError> {
    match ParseRecords(Split(raw, NUL), lib)
    case Failure(e) => Failure(e)
    case Success(entries) =>
      if entries == [] then Failure(EmptyInventory)
      else if !DistinctPaths(entries) then Failure(DuplicatePath)
      else
        var sorted := Sort(ByPath(), entries);
        match Batch(BlobOids(sorted), git, lib)
        case Failure(e) => Failure(e)
        case Success(digests) =>
          assert Covered(sorted, digests) by { BatchCovers(sorted, git, lib); }
          if exists i | 0 <= i < |sorted| :: !Encodable(sorted[i], digests) then Failure(NotAscii)
          else Success(lib.sha(lib.domain + Framed(BoundAll(sorted, digests))))
  }

  method ParseListing(raw: Text, lib: Library) returns (r: Result<seq<Entry>, GitError>)
    ensures r == ParseRecords(Split(raw, NUL), lib)
  {
    hide Split, ParseRecord;
    var records := Split(raw, NUL);
    var entries: seq<Entry> := [];
    for i := 0 to |records|
      invariant ParseRecords(records[..i], lib) == Success(entries)
    {
      assert records[..i + 1][..i] == records[..i];
      if records[i] == [] {
        continue;
      }
      var entry := ParseRecord(records[i], lib);
      if entry.Failure? {
        ParseStops(records, i + 1, lib);
        return Failure(entry.error);
      }
      entries := entries + [entry.value];
    }
    assert records[..|records|] == records;
    return Success(entries);
  }

  lemma {:induction false} ParseStops(records: seq<Text>, n: nat, lib: Library)
    requires n <= |records| && ParseRecords(records[..n], lib).Failure?
    ensures ParseRecords(records, lib) == ParseRecords(records[..n], lib)
    decreases |records|
  {
    if n == |records| {
      assert records[..n] == records;
    } else {
      assert records[..|records| - 1][..n] == records[..n];
      ParseStops(records[..|records| - 1], n, lib);
    }
  }

  /** Paths of the inventory are checked for repetition through a set. */
  method PathsDistinct(entries: seq<Entry>) returns (ok: bool)
    ensures ok <==> DistinctPaths(entries)
  {
    var seen: set<Text> := {};
    for i := 0 to |entries|
      invariant seen == set j | 0 <= j < i :: entries[j].path
      invariant DistinctPaths(entries[..i])
    {
      if entries[i].path in seen {
        return false;
      }
      assert forall j | 0 <= j < i :: entries[..i + 1][j] == entries[..i][j];
      seen := seen + {entries[i].path};
    }
    assert entries[..|entries|] == entries;
    return true;
  }

  method CollectBlobOids(entries: seq<Entry>) returns (oids: seq<Text>)
    ensures oids == BlobOids(entries)
  {
    oids := [];
    for i := 0 to |entries|
      invariant oids == BlobOids(entries[..i])
    {
      assert entries[..i + 1][..i] == entries[..i];
      if entries[i].kind == BLOB {
        oids := oids + [entries[i].oid];
      }
    }
    assert entries[..|entries|] == entries;
  }

  /** The bytes fed to the digest, entry by entry; text that is not plain stops it. */
  method FeedDigest(entries: seq<Entry>, digests: map<Text, Text>, domain: Text)
      returns (r: Result<seq<Byte>, GitError>)
    requires Covered(entries, digests)
    ensures r.Failure? <==> exists i | 0 <= i < |entries| :: !Encodable(entries[i], digests)
    ensures r == if r.Failure? then Failure(NotAscii) else Success(domain + Framed(BoundAll(entries, digests)))
  {
    hide Ascii, Frame, Framed;
    ghost var bound := BoundAll(entries, digests);
    var preimage := domain;
    FramedNone();
    for i := 0 to |entries|
      invariant forall j | 0 <= j < i :: Encodable(entries[j], digests)
      invariant preimage == domain + Framed(bound[..i])
    {
      var e := entries[i];
      var identity := Identity(e, digests);
      if !Ascii(e.mode) || !Ascii(identity) {
        assert !Encodable(e, digests);
        return Failure(NotAscii);
      }
      FramedNext(domain, bound, i);
      FrameOf(bound[i]);
      preimage := preimage + (e.mode + [NUL] + e.kind + [NUL] + e.path + [NUL] + identity + [NEWLINE]);
    }
    assert bound[..|entries|] == bound;
    return Success(preimage);
  }

  method UpstreamSourceTreeDigest(raw: Text, git: seq<Text> -> seq<Byte>, lib: Library)
      returns (r: Result<Text, GitError>)
    ensures r == DigestOf(raw, git, lib)
  {
    hide Split, ParseRecords, DistinctPaths, Batch, Encodable, Sort, Framed, BlobOids, Covered, ByPath;
    var parsed := ParseListing(raw, lib);
    if parsed.Failure? {
      return Failure(parsed.error);
    }
    var entries := parsed.value;
    if entries == [] {
      return Failure(EmptyInventory);
    }
    var distinct := PathsDistinct(entries);
    if !distinct {
      return Failure(DuplicatePath);
    }
    entries := Sort(ByPath(), entries);
    var oids := CollectBlobOids(entries);
    var contents := BatchBlobDigests(oids, git, lib);
    if contents.Failure? {
      return Failure(contents.error);
    }
    BatchCovers(entries, git, lib);
    var preimage := FeedDigest(entries, contents.value, lib.domain);
    if preimage.Failure? {
      return Failure(preimage.error);
    }
    return Success(lib.sha(preimage.value));
  }

  lemma FramedNone()
    ensures Framed([]) == []
  {
  }

  lemma FramedNext(domain: seq<Byte>, bs: seq<Bound>, i: nat)
    requires i < |bs|
    ensures domain + Framed(bs[..i + 1]) == domain + Framed(bs[..i]) + Frame(bs[i])
  {
    assert bs[..i + 1][..i] == bs[..i];
  }

  lemma FrameOf(b: Bound)
    ensures Frame(b) == b.mode + [NUL] + b.kind + [NUL] + b.path + [NUL] + b.identity + [NEWLINE]
  {
  }

  // ---------- what the digest binds ----------

  /** The object store answers a batch with the objects asked for, in order. */
  ghost predicate Honest(git: seq<Text> -> seq<Byte>, content: Text -> seq<Byte>) {
    forall oids: seq<Text> | AllPlain(oids) :: git(oids) == Stream(oids, content)
  }

  /** Digests are plain text on one line. */
  ghost predicate HexDigests(lib: Library) {
    forall x: seq<Byte> :: Ascii(lib.sha(x)) && Free(lib.sha(x), NEWLINE)
  }

  function BoundOf(e: Entry, content: Text -> seq<Byte>, lib: Library): Bound {
    Bound(e.mode, e.kind, e.path, if e.kind == BLOB then lib.sha(content(e.oid)) else SUBMODULE + e.oid)
  }

  /** The inventory in path order, each entry with its content identity. */
  function Inventory(entries: seq<Entry>, content: Text -> seq<Byte>, lib: Library): (bs: seq<Bound>)
  {
    var sorted := Sort(ByPath(), entries);
    seq(|sorted|, i requires 0 <= i < |sorted| => BoundOf(sorted[i], content, lib))
  }

  ghost predicate AllListed(entries: seq<Entry>, lib: Library) {
    forall i | 0 <= i < |entries| :: Listed(entries[i], lib)
  }

  lemma {:induction false} ContentsAt(oids: seq<Text>, content: Text -> seq<Byte>)
    ensures |Contents(oids, content)| == |oids|
    ensures forall i | 0 <= i < |oids| :: Contents(oids, content)[i] == content(oids[i])
  {
    if oids != [] {
      ContentsAt(oids[1..], content);
    }
  }

  lemma SortedListed(entries: seq<Entry>, lib: Library)
    requires AllListed(entries, lib)
    ensures AllListed(Sort(ByPath(), entries), lib) && |Sort(ByPath(), entries)| == |entries|
  {
    hide Listed, Sort, ByPath;
    PathOrder();
    SortSorts(ByPath(), entries);
    var sorted := Sort(ByPath(), entries);
    forall i | 0 <= i < |sorted|
      ensures Listed(sorted[i], lib)
    {
      SameMembers(sorted, entries, sorted[i]);
    }
  }

  lemma UniquePlain(entries: seq<Entry>, lib: Library)
    requires AllListed(entries, lib)
    ensures AllPlain(Unique(BlobOids(entries)))
  {
    var oids := BlobOids(entries);
    BlobOidsMembers(entries);
    UniqueSorted(oids);
    hide Unique, BlobOids, Plain;
    forall i | 0 <= i < |Unique(oids)|
      ensures Plain(Unique(oids)[i])
    {
      assert Unique(oids)[i] in oids;
    }
  }

  lemma PlainAscii(oids: seq<Text>)
    requires AllPlain(oids)
    ensures forall i | 0 <= i < |oids| :: Ascii(oids[i])
  {
  }

  /** On an honest store every blob identifier gets the digest of its content. */
  lemma HonestBatch(entries: seq<Entry>, git: seq<Text> -> seq<Byte>, content: Text -> seq<Byte>, lib: Library)
    requires AllListed(entries, lib) && Honest(git, content) && ReadsDecimals(lib)
    ensures var batch := Batch(BlobOids(entries), git, lib);
            && batch.Success? && Covered(entries, batch.value)
            && forall i | 0 <= i < |entries| && entries[i].kind == BLOB ::
                batch.value[entries[i].oid] == lib.sha(content(entries[i].oid))
  {
    hide Unique, BlobOids, Ascii, ReadBlobs, Stream, Contents, AllPlain, AllListed, ReadsDecimals, Digests, Covered;
    var oids := BlobOids(entries);
    var unique := Unique(oids);
    UniquePlain(entries, lib);
    PlainAscii(unique);
    BlobOidsMembers(entries);
    UniqueSorted(oids);
    BatchCovers(entries, git, lib);
    ContentsAt(unique, content);
    forall i | 0 <= i < |entries| && entries[i].kind == BLOB
      ensures entries[i].oid in unique
    {
      assert entries[i].oid in oids;
    }
    if unique != [] {
      var stdout := git(unique);
      assert stdout == Stream(unique, content) && stdout[0..] == stdout;
      ReadBlobsPrefix(stdout, 0, unique, content, lib);
      DigestsAt(unique, Contents(unique, content), lib);
    }
  }

  /** A listing without entries is refused, and so is one in which a path stands twice. */
  lemma ListingRefused(entries: seq<Entry>, git: seq<Text> -> seq<Byte>, lib: Library)
    requires AllListed(entries, lib)
    ensures entries == [] ==> DigestOf(Listing(entries), git, lib) == Failure(EmptyInventory)
    ensures (exists i, j :: 0 <= i < j < |entries| && entries[i].path == entries[j].path) ==>
              DigestOf(Listing(entries), git, lib) == Failure(DuplicatePath)
  {
    hide Split, ParseRecords, Batch, Sort, Framed, Listing;
    ListingRoundTrip(entries, lib);
  }

  /** What the digest of an honest checkout is the digest of. */
  lemma HonestDigest(entries: seq<Entry>, git: seq<Text> -> seq<Byte>, content: Text -> seq<Byte>, lib: Library)
    requires entries != [] && AllListed(entries, lib)
    requires forall i, j | 0 <= i < j < |entries| :: entries[i].path != entries[j].path
    requires Honest(git, content) && ReadsDecimals(lib) && HexDigests(lib)
    ensures DigestOf(Listing(entries), git, lib)
              == Success(lib.sha(lib.domain + Framed(Inventory(entries, content, lib))))
  {
    hide Honest, ReadsDecimals, HexDigests, AllListed, DigestOf, Framed, Inventory, Listing;
    HonestListing(entries, git, content, lib);
  }

  lemma HonestListing(entries: seq<Entry>, git: seq<Text> -> seq<Byte>, content: Text -> seq<Byte>, lib: Library)
    requires entries != [] && AllListed(entries, lib) && DistinctPaths(entries)
    requires Honest(git, content) && ReadsDecimals(lib) && HexDigests(lib)
    ensures DigestOf(Listing(entries), git, lib)
              == Success(lib.sha(lib.domain + Framed(Inventory(entries, content, lib))))
  {
    ListingRoundTrip(entries, lib);
    SortedListed(entries, lib);
    var sorted := Sort(ByPath(), entries);
    HonestBatch(sorted, git, content, lib);
    hide Split, ParseRecords, Batch, BlobOids, Sort, ByPath, Framed, Honest, ReadsDecimals, DistinctPaths, Listing;
    var digests := Batch(BlobOids(sorted), git, lib).value;
    forall i | 0 <= i < |sorted|
      ensures Encodable(sorted[i], digests) && BoundAll(sorted, digests)[i] == BoundOf(sorted[i], content, lib)
    {
      ListedEncodable(sorted[i], digests, content, lib);
    }
    hide Listed, Encodable;
    assert BoundAll(sorted, digests) == Inventory(entries, content, lib);
  }

  lemma ListedEncodable(e: Entry, digests: map<Text, Text>, content: Text -> seq<Byte>, lib: Library)
    requires Listed(e, lib) && HexDigests(lib)
    requires e.kind == BLOB ==> e.oid in digests && digests[e.oid] == lib.sha(content(e.oid))
    ensures Encodable(e, digests) && Identity(e, digests) == BoundOf(e, content, lib).identity
  {
    assert Ascii(SUBMODULE + e.oid) by {
      AllConcat(SUBMODULE, e.oid);
    }
  }

  /** Two honest checkouts with the same preimage hold the same paths with the same modes, types and
      content identities. */
  lemma PreimageDeterminesInventory(a: seq<Entry>, b: seq<Entry>, content: Text -> seq<Byte>,
                                    other: Text -> seq<Byte>, lib: Library)
    requires AllListed(a, lib) && AllListed(b, lib) && HexDigests(lib)
    requires lib.domain + Framed(Inventory(a, content, lib)) == lib.domain + Framed(Inventory(b, other, lib))
    ensures Inventory(a, content, lib) == Inventory(b, other, lib)
  {
    InventoryFrameable(a, content, lib);
    InventoryFrameable(b, other, lib);
    hide Framed, Inventory, Frameable, HexDigests, AllListed;
    var x, y := Framed(Inventory(a, content, lib)), Framed(Inventory(b, other, lib));
    assert x == (lib.domain + x)[|lib.domain|..] && y == (lib.domain + y)[|lib.domain|..];
    FramingUnique(Inventory(a, content, lib), Inventory(b, other, lib));
  }

  lemma InventoryFrameable(entries: seq<Entry>, content: Text -> seq<Byte>, lib: Library)
    requires AllListed(entries, lib) && HexDigests(lib)
    ensures forall i | 0 <= i < |Inventory(entries, content, lib)| :: Frameable(Inventory(entries, content, lib)[i])
  {
    SortedListed(entries, lib);
    var sorted := Sort(ByPath(), entries);
    hide Sort, ByPath;
    forall i | 0 <= i < |sorted|
      ensures Frameable(BoundOf(sorted[i], content, lib))
    {
      KindPlain(sorted[i].kind);
      AllConcat(SUBMODULE, sorted[i].oid);
    }
  }

  lemma SortIgnoresOrder(a: seq<Entry>, b: seq<Entry>)
    requires DistinctPaths(a) && multiset(a) == multiset(b)
    ensures Sort(ByPath(), a) == Sort(ByPath(), b) && DistinctPaths(b) && |a| == |b|
  {
    SameLength(a, b);
    DistinctUnderPermutation(a, b, (e: Entry) => e.path);
    PathOrder();
    SortSorts(ByPath(), a);
    SortSorts(ByPath(), b);
    var s := Sort(ByPath(), a);
    hide Sort, LexLe;
    forall x, y | x in s && y in s && ByPath()(x, y) && ByPath()(y, x)
      ensures x == y
    {
      SameMembers(s, a, x);
      SameMembers(s, a, y);
      LexTotal(x.path, y.path);
    }
    hide DistinctPaths, ByPath;
    SortedUnique(ByPath(), s, Sort(ByPath(), b));
  }

  /** The order in which the tree is listed does not matter. */
  lemma DigestIgnoresOrder(a: seq<Entry>, b: seq<Entry>, git: seq<Text> -> seq<Byte>, lib: Library)
    requires AllListed(a, lib) && AllListed(b, lib) && DistinctPaths(a) && multiset(a) == multiset(b)
    ensures DigestOf(Listing(a), git, lib) == DigestOf(Listing(b), git, lib)
  {
    ListingRoundTrip(a, lib);
    ListingRoundTrip(b, lib);
    SortIgnoresOrder(a, b);
    hide Split, ParseRecords, Batch, BlobOids, Sort, ByPath, Framed, Listing, AllListed, DistinctPaths;
  }
}
