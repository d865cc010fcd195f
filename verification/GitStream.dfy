/** The batched object stream of the version-control tool: what it prints for a list of objects, and
    the parser that reads it back. */
module GitStream {
  import opened Bytes
  import opened Sorting
  import opened Wrappers

  type Text = seq<Byte>

  const NUL: Byte := 0
  const TAB: Byte := 9
  const NEWLINE: Byte := 10
  const SPACE: Byte := 32

  /** "blob" */
  const BLOB: Text := [98, 108, 111, 98]

  /** The bytes of a text of plain characters. */
  function Spelled(s: string): (bytes: Text)
    requires forall i | 0 <= i < |s| :: s[i] < 128 as char
    ensures |bytes| == |s|
  {
    seq(|s|, i requires 0 <= i < |s| => s[i] as int)
  }

  /** What is taken from outside: the number and text readers of the language, the digest, and the
      bytes that open the preimage. */
  datatype Library = Library(number: Text -> Option<int>, utf8: Text -> bool, sha: seq<Byte> -> Text, domain: Text)

  datatype GitError =
    | MissingPathSeparator | MalformedHeader | HeaderNotText | NotAscii | UnexpectedType | EmptyInventory
    | DuplicatePath
    | TruncatedStream | UnexpectedBlobHeader | NotANumber | TruncatedPayload | IncompleteBlobs

  // ---------- finding and splitting ----------

  function Find(s: seq<Byte>, x: Byte, from: nat): (k: int)
    ensures k == -1 || (from <= k < |s| && s[k] == x)
    ensures forall i | from <= i < (if k == -1 then |s| else k) :: s[i] != x
    decreases |s| - from
  {
    if from >= |s| then -1 else if s[from] == x then from else Find(s, x, from + 1)
  }

  predicate Free(s: seq<Byte>, x: Byte) {
    forall i | 0 <= i < |s| :: s[i] != x
  }

  /** The pieces between separators, empty ones included. */
  function Split(s: seq<Byte>, x: Byte): (pieces: seq<Text>)
    ensures pieces != []
    decreases |s|
  {
    var k := Find(s, x, 0);
    if k == -1 then [s] else [s[..k]] + Split(s[k + 1..], x)
  }

  lemma FindFirst(a: seq<Byte>, x: Byte, rest: seq<Byte>)
    requires Free(a, x)
    ensures Find(a + [x] + rest, x, 0) == |a|
  {
    var s := a + [x] + rest;
    assert s[|a|] == x;
    assert forall i | 0 <= i < |a| :: s[i] == a[i];
  }

  lemma SplitFirst(a: seq<Byte>, x: Byte, rest: seq<Byte>)
    requires Free(a, x)
    ensures Split(a + [x] + rest, x) == [a] + Split(rest, x)
  {
    var s := a + [x] + rest;
    FindFirst(a, x, rest);
    assert s[..|a|] == a && s[|a| + 1..] == rest;
  }

  lemma SplitLast(a: seq<Byte>, x: Byte)
    requires Free(a, x)
    ensures Split(a, x) == [a]
  {
  }

  /** A terminated piece is determined by what it starts. */
  lemma SameHead(a: seq<Byte>, ra: seq<Byte>, b: seq<Byte>, rb: seq<Byte>, x: Byte)
    requires Free(a, x) && Free(b, x) && a + [x] + ra == b + [x] + rb
    ensures a == b && ra == rb
  {
    FindFirst(a, x, ra);
    FindFirst(b, x, rb);
    var s := a + [x] + ra;
    assert a == s[..|a|] && b == s[..|b|];
    assert ra == s[|a| + 1..] && rb == s[|b| + 1..];
  }

  // ---------- decimal numbers ----------

  function Decimal(n: nat): (digits: Text)
    ensures digits != [] && forall i | 0 <= i < |digits| :: 48 <= digits[i] <= 57
  {
    if n < 10 then [48 + n] else Decimal(n / 10) + [48 + n % 10]
  }

  /** The library reads the decimal numerals that the object stream prints. */
  ghost predicate ReadsDecimals(lib: Library) {
    forall n: nat :: lib.number(Decimal(n)) == Some(n)
  }

  predicate Digits(s: Text) {
    forall i | 0 <= i < |s| :: 48 <= s[i] <= 57
  }

  function FromDecimal(s: Text): (n: nat)
    requires Digits(s)
  {
    if s == [] then 0 else 10 * FromDecimal(s[..|s| - 1]) + (s[|s| - 1] - 48)
  }

  /** A reader with that property exists: reading what was printed gives the number back. */
  lemma {:induction false} DecimalRoundTrip(n: nat)
    ensures FromDecimal(Decimal(n)) == n
  {
    if n >= 10 {
      DecimalRoundTrip(n / 10);
      assert Decimal(n)[..|Decimal(n)| - 1] == Decimal(n / 10);
    } else {
      assert Decimal(n)[..0] == [];
    }
  }

  // ---------- one object of the stream ----------

  /** An index as the language clamps it: negative ones count from the end. */
  function Clamp(i: int, n: nat): (r: nat)
    ensures r <= n
  {
    if i < 0 then (if i + n < 0 then 0 else i + n) else if i > n then n else i
  }

  function Slice(s: seq<Byte>, from: int, to: int): seq<Byte> {
    var a, b := Clamp(from, |s|), Clamp(to, |s|);
    if a <= b then s[a..b] else []
  }

  datatype Blob = Blob(payload: seq<Byte>, next: int)

  predicate Ascii(s: Text) {
    forall i | 0 <= i < |s| :: s[i] < 128
  }

  /** The object at `offset`, which must be the blob `oid`. */
  function ReadBlob(stdout: seq<Byte>, offset: int, oid: Text, lib: Library): Result<Blob, GitError> {
    var newline := if offset > |stdout| then -1 else Find(stdout, NEWLINE, Clamp(offset, |stdout|));
    if newline < 0 then Failure(TruncatedStream) else
    var header := Slice(stdout, offset, newline);
    if !Ascii(header) then Failure(HeaderNotText) else
    var fields := Split(header, SPACE);
    if |fields| != 3 || fields[0] != oid || fields[1] != BLOB then Failure(UnexpectedBlobHeader) else
    var size := lib.number(fields[2]);
    if size.None? then Failure(NotANumber) else
    var end := newline + 1 + size.value;
    if end > |stdout| then Failure(TruncatedPayload) else
    Success(Blob(Slice(stdout, newline + 1, end), end + 1))
  }

  /** How the object stream shows one blob. */
  function Header(oid: Text, size: nat): Text {
    oid + [32] + Spelled("blob") + [32] + Decimal(size)
  }

  function Shown(oid: Text, payload: seq<Byte>): seq<Byte> {
    Header(oid, |payload|) + [10] + payload + [10]
  }

  /** Object identifiers are plain text without separators. */
  predicate Plain(s: Text) {
    Ascii(s) && Free(s, SPACE) && Free(s, NEWLINE) && Free(s, NUL) && Free(s, TAB)
  }

  lemma HeaderPlain(oid: Text, size: nat)
    requires Plain(oid)
    ensures Ascii(Header(oid, size)) && Free(Header(oid, size), NEWLINE)
  {
    hide Decimal;
    var d := Decimal(size);
    AllConcat(oid, [SPACE] + BLOB + [SPACE]);
    AllConcat(oid + ([SPACE] + BLOB + [SPACE]), d);
    assert Header(oid, size) == oid + ([SPACE] + BLOB + [SPACE]) + d;
  }

  lemma AllConcat(a: Text, b: Text)
    ensures Ascii(a + b) <==> Ascii(a) && Ascii(b)
    ensures Free(a + b, NEWLINE) <==> Free(a, NEWLINE) && Free(b, NEWLINE)
  {
    assert forall i | 0 <= i < |b| :: (a + b)[|a| + i] == b[i];
    assert forall i | 0 <= i < |a| :: (a + b)[i] == a[i];
  }

  lemma HeaderFields(oid: Text, size: nat)
    requires Plain(oid)
    ensures Split(Header(oid, size), SPACE) == [oid, BLOB, Decimal(size)]
  {
    hide Split, Decimal;
    assert Header(oid, size) == oid + [SPACE] + (BLOB + [SPACE] + Decimal(size));
    SplitFirst(oid, SPACE, BLOB + [SPACE] + Decimal(size));
    SplitFirst(BLOB, SPACE, Decimal(size));
    SplitLast(Decimal(size), SPACE);
  }

  lemma {:induction false} FindShifted(before: seq<Byte>, s: seq<Byte>, x: Byte, from: nat)
    ensures Find(before + s, x, |before| + from) == if Find(s, x, from) == -1 then -1 else |before| + Find(s, x, from)
    decreases |s| - from
  {
    if from < |s| {
      assert (before + s)[|before| + from] == s[from];
      FindShifted(before, s, x, from + 1);
    }
  }

  lemma FindInSuffix(stdout: seq<Byte>, offset: nat, x: Byte)
    requires offset <= |stdout|
    ensures Find(stdout, x, offset)
              == if Find(stdout[offset..], x, 0) == -1 then -1 else offset + Find(stdout[offset..], x, 0)
  {
    FindShifted(stdout[..offset], stdout[offset..], x, 0);
    assert stdout[..offset] + stdout[offset..] == stdout;
  }

  lemma HeaderEnds(text: seq<Byte>, oid: Text, size: nat)
    requires Plain(oid) && Header(oid, size) + [NEWLINE] <= text
    ensures Find(text, NEWLINE, 0) == |Header(oid, size)|
  {
    HeaderPlain(oid, size);
    hide Header, Plain, Find;
    var h := Header(oid, size);
    FindFirst(h, NEWLINE, text[|h| + 1..]);
    assert text == h + [NEWLINE] + text[|h| + 1..];
  }

  lemma HeadOf(stdout: seq<Byte>, offset: nat, h: seq<Byte>, x: Byte)
    requires offset <= |stdout| && h + [x] <= stdout[offset..]
    ensures offset + |h| < |stdout| && stdout[offset..offset + |h|] == h
  {
    assert stdout[offset..offset + |h|] == stdout[offset..][..|h|] == (h + [x])[..|h|];
  }

  /** A complete header decides: the payload is there or it is not. */
  lemma ReadBlobAfterHeader(stdout: seq<Byte>, offset: nat, oid: Text, size: nat, lib: Library)
    requires Plain(oid) && ReadsDecimals(lib) && offset <= |stdout|
    requires Header(oid, size) + [NEWLINE] <= stdout[offset..]
    ensures var start := offset + |Header(oid, size)| + 1;
            ReadBlob(stdout, offset, oid, lib) ==
            if start + size > |stdout| then Failure(TruncatedPayload)
            else Success(Blob(stdout[start..start + size], start + size + 1))
  {
    hide Find, Split, Header, Ascii, Plain, Free;
    HeaderEnds(stdout[offset..], oid, size);
    FindInSuffix(stdout, offset, NEWLINE);
    HeaderFields(oid, size);
    HeaderPlain(oid, size);
    HeadOf(stdout, offset, Header(oid, size), NEWLINE);
    assert lib.number(Decimal(size)) == Some(size);
  }

  /** A complete object is read back, whatever its payload and whatever follows it. */
  lemma ReadBlobShown(stdout: seq<Byte>, offset: nat, oid: Text, payload: seq<Byte>, lib: Library)
    requires Plain(oid) && ReadsDecimals(lib) && offset <= |stdout|
    requires Header(oid, |payload|) + [NEWLINE] + payload <= stdout[offset..]
    ensures ReadBlob(stdout, offset, oid, lib) == Success(Blob(payload, offset + |Shown(oid, payload)|))
  {
    hide ReadBlob, Header, Plain, ReadsDecimals;
    var h, tail := Header(oid, |payload|), stdout[offset..];
    var start := offset + |h| + 1;
    assert h + [NEWLINE] == (h + [NEWLINE] + payload)[..|h| + 1] <= tail;
    ReadBlobAfterHeader(stdout, offset, oid, |payload|, lib);
    assert stdout[start..start + |payload|] == tail[|h| + 1..|h| + 1 + |payload|];
    assert tail[|h| + 1..|h| + 1 + |payload|] == (h + [NEWLINE] + payload)[|h| + 1..] == payload;
  }

  /** A cut object is refused. */
  lemma ReadBlobCut(stdout: seq<Byte>, offset: nat, oid: Text, payload: seq<Byte>, lib: Library)
    requires Plain(oid) && ReadsDecimals(lib) && offset <= |stdout|
    requires stdout[offset..] < Header(oid, |payload|) + [NEWLINE] + payload
    ensures ReadBlob(stdout, offset, oid, lib).Failure?
  {
    hide Header, Plain, ReadsDecimals, Split;
    var h, tail := Header(oid, |payload|), stdout[offset..];
    if |tail| <= |h| {
      HeaderPlain(oid, |payload|);
      FindInSuffix(stdout, offset, NEWLINE);
      assert forall i | 0 <= i < |tail| :: tail[i] == h[i];
    } else {
      hide ReadBlob;
      assert h + [NEWLINE] <= tail;
      ReadBlobAfterHeader(stdout, offset, oid, |payload|, lib);
    }
  }

  // ---------- the whole stream ----------

  /** The payloads of the objects asked for, in order. */
  function ReadBlobs(stdout: seq<Byte>, offset: int, oids: seq<Text>, lib: Library): Result<seq<seq<Byte>>, GitError>
    decreases |oids|
  {
    if oids == [] then Success([])
    else
      match ReadBlob(stdout, offset, oids[0], lib)
      case Failure(e) => Failure(e)
      case Success(blob) =>
        match ReadBlobs(stdout, blob.next, oids[1..], lib)
        case Failure(e) => Failure(e)
        case Success(rest) => Success([blob.payload] + rest)
  }

  function Stream(oids: seq<Text>, content: Text -> seq<Byte>): seq<Byte> {
    if oids == [] then [] else Shown(oids[0], content(oids[0])) + Stream(oids[1..], content)
  }

  function Contents(oids: seq<Text>, content: Text -> seq<Byte>): seq<seq<Byte>> {
    if oids == [] then [] else [content(oids[0])] + Contents(oids[1..], content)
  }

  predicate AllPlain(oids: seq<Text>) {
    forall i | 0 <= i < |oids| :: Plain(oids[i])
  }

  lemma FirstShown(tail: seq<Byte>, oid: Text, payload: seq<Byte>, rest: seq<Byte>)
    requires tail <= Shown(oid, payload) + rest || Shown(oid, payload) + rest <= tail
    ensures |tail| + 1 >= |Shown(oid, payload)| ==> Header(oid, |payload|) + [NEWLINE] + payload <= tail
    ensures |tail| + 1 < |Shown(oid, payload)| ==> tail < Header(oid, |payload|) + [NEWLINE] + payload
  {
    var whole, body := Shown(oid, payload) + rest, Header(oid, |payload|) + [NEWLINE] + payload;
    assert whole == body + ([NEWLINE] + rest);
  }

  lemma AfterShown(stdout: seq<Byte>, offset: nat, shown: seq<Byte>, rest: seq<Byte>)
    requires offset + |shown| <= |stdout|
    ensures stdout[offset..] <= shown + rest ==> stdout[offset + |shown|..] <= rest
    ensures shown + rest <= stdout[offset..] ==> rest <= stdout[offset + |shown|..]
  {
    assert stdout[offset + |shown|..] == stdout[offset..][|shown|..];
    assert (shown + rest)[|shown|..] == rest;
  }

  /** What a prefix or an extension of a printed stream reads as: everything when no more than the
      final newline is missing, and nothing otherwise. */
  lemma {:induction false} ReadBlobsPrefix(stdout: seq<Byte>, offset: nat, oids: seq<Text>,
                                           content: Text -> seq<Byte>, lib: Library)
    requires AllPlain(oids) && ReadsDecimals(lib) && offset <= |stdout|
    requires stdout[offset..] <= Stream(oids, content) || Stream(oids, content) <= stdout[offset..]
    ensures var r := ReadBlobs(stdout, offset, oids, lib);
            if |stdout| - offset + 1 >= |Stream(oids, content)| then r == Success(Contents(oids, content))
            else r.Failure?
    decreases |oids|
  {
    if oids != [] {
      var oid, payload := oids[0], content(oids[0]);
      var shown, rest := Shown(oid, payload), Stream(oids[1..], content);
      var tail := stdout[offset..];
      FirstShown(tail, oid, payload, rest);
      if |tail| + 1 < |shown| {
        ReadBlobCut(stdout, offset, oid, payload, lib);
      } else {
        ReadBlobShown(stdout, offset, oid, payload, lib);
        var next := offset + |shown|;
        if next <= |stdout| {
          AfterShown(stdout, offset, shown, rest);
          ReadBlobsPrefix(stdout, next, oids[1..], content, lib);
        } else {
          BeyondEnd(stdout, next, oids[1..], content, lib);
        }
      }
    }
  }

  lemma BeyondEnd(stdout: seq<Byte>, offset: nat, oids: seq<Text>, content: Text -> seq<Byte>, lib: Library)
    requires offset == |stdout| + 1
    ensures if oids == [] then ReadBlobs(stdout, offset, oids, lib) == Success(Contents(oids, content))
            else ReadBlobs(stdout, offset, oids, lib).Failure? && |Stream(oids, content)| >= 2
  {
  }

  // ---------- order and repetition ----------

  predicate LexLe(a: Text, b: Text) {
    a == [] || (b != [] && (a[0] < b[0] || (a[0] == b[0] && LexLe(a[1..], b[1..]))))
  }

  lemma {:induction false} LexTotal(a: Text, b: Text)
    ensures LexLe(a, b) || LexLe(b, a)
    ensures LexLe(a, b) && LexLe(b, a) ==> a == b
  {
    if a != [] && b != [] {
      LexTotal(a[1..], b[1..]);
      assert a == [a[0]] + a[1..] && b == [b[0]] + b[1..];
    }
  }

  lemma {:induction false} LexTransitive(a: Text, b: Text, c: Text)
    requires LexLe(a, b) && LexLe(b, c)
    ensures LexLe(a, c)
  {
    if a != [] && b != [] && c != [] && a[0] == b[0] == c[0] {
      LexTransitive(a[1..], b[1..], c[1..]);
    }
  }

  /** At the first byte where two texts differ the first has the smaller, or it ends there. */
  ghost predicate Precedes(a: Text, b: Text) {
    exists k: nat :: k <= |a| && k <= |b| && a[..k] == b[..k] && (k == |a| || (k < |b| && a[k] < b[k]))
  }

  lemma {:induction false} LexLePrecedes(a: Text, b: Text)
    requires LexLe(a, b)
    ensures Precedes(a, b)
  {
    if a == [] {
      assert a[..0] == b[..0];
    } else if a[0] < b[0] {
      assert a[..0] == b[..0];
    } else {
      LexLePrecedes(a[1..], b[1..]);
      var k: nat :| k <= |a| - 1 && k <= |b| - 1 && a[1..][..k] == b[1..][..k]
                    && (k == |a| - 1 || (k < |b| - 1 && a[1..][k] < b[1..][k]));
      assert a[..k + 1] == [a[0]] + a[1..][..k] && b[..k + 1] == [b[0]] + b[1..][..k];
    }
  }

  function ByText(): (Text, Text) -> bool {
    (a, b) => LexLe(a, b)
  }

  lemma TextOrder()
    ensures TotalPreorder(ByText())
  {
    LexOrder();
    hide LexLe;
  }

  lemma LexOrder()
    ensures forall a: Text, b: Text :: LexLe(a, b) || LexLe(b, a)
    ensures forall a: Text, b: Text, c: Text :: LexLe(a, b) && LexLe(b, c) ==> LexLe(a, c)
  {
    forall a: Text, b: Text
      ensures LexLe(a, b) || LexLe(b, a)
    {
      LexTotal(a, b);
    }
    forall a: Text, b: Text, c: Text | LexLe(a, b) && LexLe(b, c)
      ensures LexLe(a, c)
    {
      LexTransitive(a, b, c);
    }
  }

  function Dedup(s: seq<Text>): (r: seq<Text>)
    ensures forall x :: x in r <==> x in s
    ensures forall i, j | 0 <= i < j < |r| :: r[i] != r[j]
  {
    if s == [] then []
    else
      var rest := Dedup(s[..|s| - 1]);
      if s[|s| - 1] in rest then rest else rest + [s[|s| - 1]]
  }

  /** The distinct identifiers, in order. */
  function Unique(oids: seq<Text>): seq<Text> {
    Sort(ByText(), Dedup(oids))
  }

  lemma UniqueSorted(oids: seq<Text>)
    ensures forall x :: x in Unique(oids) <==> x in oids
    ensures forall i, j | 0 <= i < j < |Unique(oids)| :: Unique(oids)[i] != Unique(oids)[j]
    ensures Sorted(ByText(), Unique(oids))
  {
    TextOrder();
    var d := Dedup(oids);
    SortSorts(ByText(), d);
    DistinctUnderPermutation(d, Sort(ByText(), d), (x: Text) => x);
    forall x
      ensures x in Unique(oids) <==> x in oids
    {
      SameMembers(Sort(ByText(), d), d, x);
    }
  }

  // ---------- the batch ----------

  function Digests(oids: seq<Text>, payloads: seq<seq<Byte>>, lib: Library): map<Text, Text>
    requires |oids| == |payloads|
  {
    if oids == [] then map[]
    else Digests(oids[..|oids| - 1], payloads[..|oids| - 1], lib)[oids[|oids| - 1] := lib.sha(payloads[|oids| - 1])]
  }

  lemma {:induction false} ReadBlobsLength(stdout: seq<Byte>, offset: int, oids: seq<Text>, lib: Library)
    ensures ReadBlobs(stdout, offset, oids, lib).Success? ==> |ReadBlobs(stdout, offset, oids, lib).value| == |oids|
    decreases |oids|
  {
    if oids != [] {
      var blob := ReadBlob(stdout, offset, oids[0], lib);
      if blob.Success? {
        ReadBlobsLength(stdout, blob.value.next, oids[1..], lib);
      }
    }
  }

  function Batch(oids: seq<Text>, git: seq<Text> -> seq<Byte>, lib: Library): Result<map<Text, Text>, GitError> {
    var unique := Unique(oids);
    if unique == [] then Success(map[])
    else if !(forall i | 0 <= i < |unique| :: Ascii(unique[i])) then Failure(NotAscii)
    else
      match ReadBlobs(git(unique), 0, unique, lib)
      case Failure(e) => Failure(e)
      case Success(payloads) =>
        assert |payloads| == |unique| by { ReadBlobsLength(git(unique), 0, unique, lib); }
        Success(Digests(unique, payloads, lib))
  }

  lemma {:induction false} NeverNotAscii(stdout: seq<Byte>, offset: int, oids: seq<Text>, lib: Library)
    ensures ReadBlobs(stdout, offset, oids, lib) != Failure(NotAscii)
    decreases |oids|
  {
    if oids != [] {
      var blob := ReadBlob(stdout, offset, oids[0], lib);
      if blob.Success? {
        NeverNotAscii(stdout, blob.value.next, oids[1..], lib);
      }
    }
  }

  /** The request is refused exactly when some identifier holds a byte from 128 up, whatever is printed. */
  lemma BatchRefusesIff(oids: seq<Text>, git: seq<Text> -> seq<Byte>, lib: Library)
    ensures Batch(oids, git, lib) == Failure(NotAscii) <==> exists x, i :: x in oids && 0 <= i < |x| && x[i] >= 128
  {
    hide ReadBlobs, Unique;
    UniqueSorted(oids);
    var unique := Unique(oids);
    NeverNotAscii(git(unique), 0, unique, lib);
    if x, i :| x in oids && 0 <= i < |x| && x[i] >= 128 {
      var k :| 0 <= k < |unique| && unique[k] == x;
      assert !Ascii(unique[k]);
    }
  }

  /** The identifiers are asked for once each, in the order of their bytes. */
  lemma AskedInOrder(oids: seq<Text>)
    ensures forall x :: x in Unique(oids) <==> x in oids
    ensures forall i, j | 0 <= i < j < |Unique(oids)| ::
              Unique(oids)[i] != Unique(oids)[j] && Precedes(Unique(oids)[i], Unique(oids)[j])
  {
    hide Precedes, Unique, LexLe;
    UniqueSorted(oids);
    var unique := Unique(oids);
    forall i, j | 0 <= i < j < |unique|
      ensures Precedes(unique[i], unique[j])
    {
      assert ByText()(unique[i], unique[j]);
      LexLePrecedes(unique[i], unique[j]);
    }
  }

  lemma {:induction false} DigestsKeys(oids: seq<Text>, payloads: seq<seq<Byte>>, lib: Library)
    requires |oids| == |payloads|
    ensures Digests(oids, payloads, lib).Keys == set x | x in oids
  {
    if oids != [] {
      var n := |oids| - 1;
      DigestsKeys(oids[..n], payloads[..n], lib);
      assert oids == oids[..n] + [oids[n]];
    }
  }

  lemma {:induction false} DistinctCount(oids: seq<Text>)
    requires forall i, j | 0 <= i < j < |oids| :: oids[i] != oids[j]
    ensures |set x | x in oids| == |oids|
  {
    if oids != [] {
      var n := |oids| - 1;
      DistinctCount(oids[..n]);
      assert (set x | x in oids) == (set x | x in oids[..n]) + {oids[n]};
    }
  }

  lemma {:induction false} DigestAt(oids: seq<Text>, payloads: seq<seq<Byte>>, lib: Library, i: nat)
    requires |oids| == |payloads| && i < |oids| && forall j, k | 0 <= j < k < |oids| :: oids[j] != oids[k]
    ensures oids[i] in Digests(oids, payloads, lib) && Digests(oids, payloads, lib)[oids[i]] == lib.sha(payloads[i])
  {
    var n := |oids| - 1;
    if i < n {
      DigestAt(oids[..n], payloads[..n], lib, i);
    }
  }

  lemma DigestsAt(oids: seq<Text>, payloads: seq<seq<Byte>>, lib: Library)
    requires |oids| == |payloads| && forall i, j | 0 <= i < j < |oids| :: oids[i] != oids[j]
    ensures |Digests(oids, payloads, lib)| == |oids|
    ensures forall x :: x in Digests(oids, payloads, lib) <==> x in oids
    ensures forall i | 0 <= i < |oids| :: Digests(oids, payloads, lib)[oids[i]] == lib.sha(payloads[i])
  {
    hide Digests;
    DigestsKeys(oids, payloads, lib);
    DistinctCount(oids);
    assert |Digests(oids, payloads, lib)| == |Digests(oids, payloads, lib).Keys|;
    forall i | 0 <= i < |oids|
      ensures Digests(oids, payloads, lib)[oids[i]] == lib.sha(payloads[i])
    {
      DigestAt(oids, payloads, lib, i);
    }
  }

  /** Reads the objects one after another; the count check at the end never fails. */
  method BatchBlobDigests(oids: seq<Text>, git: seq<Text> -> seq<Byte>, lib: Library)
    returns (r: Result<map<Text, Text>, GitError>)
    ensures r == Batch(oids, git, lib)
  {
    hide ReadBlob, Unique, Ascii, Digests;
    var unique := Unique(oids);
    if unique == [] {
      return Success(map[]);
    }
    if !(forall i | 0 <= i < |unique| :: Ascii(unique[i])) {
      return Failure(NotAscii);
    }
    var stdout := git(unique);
    var digests: map<Text, Text> := map[];
    ghost var payloads: seq<seq<Byte>> := [];
    var offset := 0;
    NoDigests(lib);
    assert unique[0..] == unique;
    ContinueEnds([], ReadBlobs(stdout, 0, unique, lib));
    for i := 0 to |unique|
      invariant |payloads| == i && digests == Digests(unique[..i], payloads, lib)
      invariant ReadBlobs(stdout, 0, unique, lib) == Continue(payloads, ReadBlobs(stdout, offset, unique[i..], lib))
    {
      assert unique[i..][0] == unique[i] && unique[i..][1..] == unique[i + 1..];
      var blob := ReadBlob(stdout, offset, unique[i], lib);
      if blob.Failure? {
        return Failure(blob.error);
      }
      NextDigest(unique, payloads, blob.value.payload, i, lib);
      digests := digests[unique[i] := lib.sha(blob.value.payload)];
      ContinueNext(payloads, blob.value.payload, ReadBlobs(stdout, blob.value.next, unique[i + 1..], lib));
      payloads := payloads + [blob.value.payload];
      offset := blob.value.next;
    }
    assert unique[..|unique|] == unique && unique[|unique|..] == [];
    ContinueEnds(payloads, ReadBlobs(stdout, offset, [], lib));
    UniqueSorted(oids);
    DigestsAt(unique, payloads, lib);
    if |digests| != |unique| {
      return Failure(IncompleteBlobs);
    }
    return Success(digests);
  }

  ghost function Continue(done: seq<seq<Byte>>, rest: Result<seq<seq<Byte>>, GitError>)
      : Result<seq<seq<Byte>>, GitError>
  {
    match rest
    case Failure(e) => Failure(e)
    case Success(more) => Success(done + more)
  }

  lemma ContinueNext(done: seq<seq<Byte>>, payload: seq<Byte>, rest: Result<seq<seq<Byte>>, GitError>)
    ensures Continue(done, Continue([payload], rest)) == Continue(done + [payload], rest)
  {
    if rest.Success? {
      assert done + ([payload] + rest.value) == (done + [payload]) + rest.value;
    }
  }

  lemma ContinueEnds(done: seq<seq<Byte>>, rest: Result<seq<seq<Byte>>, GitError>)
    ensures done == [] ==> Continue(done, rest) == rest
    ensures rest == Success([]) ==> Continue(done, rest) == Success(done)
  {
    if rest.Success? {
      assert [] + rest.value == rest.value && done + [] == done;
    }
  }

  lemma NoDigests(lib: Library)
    ensures Digests([], [], lib) == map[]
  {
  }

  lemma NextDigest(oids: seq<Text>, payloads: seq<seq<Byte>>, payload: seq<Byte>, i: nat, lib: Library)
    requires i < |oids| && |payloads| == i
    ensures Digests(oids[..i + 1], payloads + [payload], lib)
              == Digests(oids[..i], payloads, lib)[oids[i] := lib.sha(payload)]
  {
    assert oids[..i + 1][..i] == oids[..i] && (payloads + [payload])[..i] == payloads;
  }
}
