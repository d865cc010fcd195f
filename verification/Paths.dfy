/** Recognition of canonical recorded paths, and what canonicality buys: resolving the path
    changes nothing, and a lexical root prefix is true containment. */
module Paths {

  predicate Occurs(s: string, part: string, i: nat) {
    i + |part| <= |s| && s[i..i + |part|] == part
  }

  predicate Contains(s: string, part: string) {
    exists i: nat | i <= |s| :: Occurs(s, part, i)
  }

  predicate EndsWith(s: string, part: string) {
    |part| <= |s| && s[|s| - |part|..] == part
  }

  /** A recorded absolute path must already be canonical. */
  predicate RecordedPathIsCanonical(path: string) {
    && path != "" && path[0] == '/' && !EndsWith(path, "/")
    && !Contains(path, "//") && !Contains(path, "/./") && !Contains(path, "/../")
    && !EndsWith(path, "/.") && !EndsWith(path, "/..")
  }

  // ---------- segments ----------

  predicate SlashFree(s: string) {
    forall i | 0 <= i < |s| :: s[i] != '/'
  }

  predicate Dotted(s: string) {
    s in {"", ".", ".."}
  }

  ghost predicate Proper(segments: seq<string>) {
    forall i | 0 <= i < |segments| :: SlashFree(segments[i]) && !Dotted(segments[i])
  }

  function Joined(segments: seq<string>): string {
    if segments == [] then "" else "/" + segments[0] + Joined(segments[1..])
  }

  /** The position of the first slash, or the length. */
  function FirstSlash(s: string): (k: nat)
    ensures k <= |s| && SlashFree(s[..k]) && (k < |s| ==> s[k] == '/')
  {
    if s == "" || s[0] == '/' then 0 else
      var k := 1 + FirstSlash(s[1..]);
      assert forall i | 0 < i < k :: s[i] == s[1..][i - 1];
      k
  }

  /** The segments of an absolute path, empty ones included. */
  function Segments(path: string): (segments: seq<string>)
    requires path != "" && path[0] == '/'
    ensures segments != [] && Joined(segments) == path
    ensures forall i | 0 <= i < |segments| :: SlashFree(segments[i])
  {
    var k := FirstSlash(path[1..]);
    var segment, rest := path[1..1 + k], path[1 + k..];
    assert path[1..][..k] == segment;
    if rest == "" then
      assert Joined([segment]) == "/" + segment + Joined([]);
      assert path == "/" + segment;
      [segment]
    else
      assert path[1..][k] == '/';
      assert path == "/" + segment + rest;
      [segment] + Segments(rest)
  }

  /** One step of the splitting. */
  lemma SegmentsStep(path: string, segment: string, rest: string)
    requires SlashFree(segment) && (rest == "" || rest[0] == '/') && path == "/" + segment + rest
    ensures FirstSlash(path[1..]) == |segment| && path[1..1 + |segment|] == segment && path[1 + |segment|..] == rest
    ensures Segments(path) == if rest == "" then [segment] else [segment] + Segments(rest)
  {
    hide SlashFree;
    assert path[1..] == segment + rest;
    SlashAt(segment, rest);
  }

  lemma SlashAt(segment: string, rest: string)
    requires SlashFree(segment) && (rest == "" || rest[0] == '/')
    ensures FirstSlash(segment + rest) == |segment|
    decreases |segment|
  {
    if segment == "" {
      assert segment + rest == rest;
    } else {
      assert (segment + rest)[1..] == segment[1..] + rest;
      SlashAt(segment[1..], rest);
    }
  }

  /** Slash-free segments are recovered from the path they join into. */
  lemma {:induction false} SegmentsOfJoined(segments: seq<string>)
    requires segments != [] && forall i | 0 <= i < |segments| :: SlashFree(segments[i])
    ensures Joined(segments) != "" && Joined(segments)[0] == '/'
    ensures Segments(Joined(segments)) == segments
  {
    hide Segments, FirstSlash;
    var segment, rest := segments[0], Joined(segments[1..]);
    if segments[1..] != [] {
      SegmentsOfJoined(segments[1..]);
    } else {
      assert rest == "";
    }
    SegmentsStep(Joined(segments), segment, rest);
    assert segments == [segment] + segments[1..];
  }

  // ---------- the recogniser is exact ----------

  /** At `i` stands a slash, then an empty or dotted segment. */
  predicate BadAt(path: string, i: nat)
    requires i < |path|
  {
    path[i] == '/' &&
    (|path| == i + 1 || path[i + 1] == '/'
     || (path[i + 1] == '.' && (|path| == i + 2 || path[i + 2] == '/'
                                || (path[i + 2] == '.' && (|path| == i + 3 || path[i + 3] == '/')))))
  }

  ghost predicate NowhereBad(path: string) {
    forall i: nat | i < |path| :: !BadAt(path, i)
  }

  /** The recogniser's substring and suffix tests look for exactly these places. */
  lemma CanonicalIffNowhereBad(path: string)
    ensures RecordedPathIsCanonical(path) <==> path != "" && path[0] == '/' && NowhereBad(path)
  {
    if path != "" && path[0] == '/' {
      if i: nat :| i < |path| && BadAt(path, i) {
        BadIsRefused(path, i);
      } else {
        NowhereBadIsCanonical(path);
      }
    }
  }

  lemma BadIsRefused(path: string, i: nat)
    requires i < |path| && BadAt(path, i)
    ensures !RecordedPathIsCanonical(path)
  {
    var n := |path|;
    if n == i + 1 {
      assert path[n - 1..] == "/";
    } else if path[i + 1] == '/' {
      OccursAt(path, "//", i);
    } else if n == i + 2 {
      assert path[n - 2..] == "/.";
    } else if path[i + 2] == '/' {
      OccursAt(path, "/./", i);
    } else if n == i + 3 {
      assert path[n - 3..] == "/..";
    } else {
      OccursAt(path, "/../", i);
    }
  }

  lemma OccursAt(s: string, part: string, i: nat)
    requires i + |part| <= |s| && forall j | 0 <= j < |part| :: s[i + j] == part[j]
    ensures Contains(s, part)
  {
    assert Occurs(s, part, i);
  }

  lemma NowhereBadIsCanonical(path: string)
    requires path != "" && path[0] == '/' && NowhereBad(path)
    ensures RecordedPathIsCanonical(path)
  {
    NoOccurrence(path, "//");
    NoOccurrence(path, "/./");
    NoOccurrence(path, "/../");
    NoEnding(path, "/");
    NoEnding(path, "/.");
    NoEnding(path, "/..");
  }

  lemma NoOccurrence(path: string, part: string)
    requires part in {"//", "/./", "/../"} && NowhereBad(path)
    ensures !Contains(path, part)
  {
    forall i: nat | i <= |path|
      ensures !Occurs(path, part, i)
    {
      if Occurs(path, part, i) {
        assert forall j | i <= j < i + |part| :: path[j] == part[j - i];
        assert BadAt(path, i);
      }
    }
  }

  lemma NoEnding(path: string, part: string)
    requires part in {"/", "/.", "/.."} && NowhereBad(path)
    ensures !EndsWith(path, part)
  {
    if |part| <= |path| {
      var i := |path| - |part|;
      assert !BadAt(path, i);
      var w := path[i..];
      assert w[0] == path[i];
      assert |part| > 1 ==> w[1] == path[i + 1];
      assert |part| > 2 ==> w[2] == path[i + 2];
    }
  }

  /** The places of a path are the first one and those of what follows the first segment. */
  lemma NowhereBadSplits(path: string, segment: string, rest: string)
    requires SlashFree(segment) && (rest == "" || rest[0] == '/') && path == "/" + segment + rest
    ensures NowhereBad(path) <==> !Dotted(segment) && NowhereBad(rest)
  {
    var k := |segment|;
    FirstPlace(path, segment, rest);
    forall i: nat | 0 < i <= k
      ensures !BadAt(path, i)
    {
      assert path[i] == segment[i - 1];
    }
    forall i: nat | i < |rest|
      ensures BadAt(rest, i) <==> BadAt(path, 1 + k + i)
    {
      SamePlace(path, "/" + segment, rest, i);
    }
    if NowhereBad(path) {
      forall i: nat | i < |rest|
        ensures !BadAt(rest, i)
      {
        assert !BadAt(path, 1 + k + i);
      }
    }
    if !Dotted(segment) && NowhereBad(rest) {
      forall i: nat | i < |path|
        ensures !BadAt(path, i)
      {
        if i > k {
          assert !BadAt(rest, i - 1 - k);
        }
      }
    }
  }

  lemma SamePlace(path: string, start: string, rest: string, i: nat)
    requires path == start + rest && i < |rest|
    ensures BadAt(rest, i) <==> BadAt(path, |start| + i)
  {
    assert forall j | 0 <= j < |rest| :: path[|start| + j] == rest[j];
    assert path[|start| + i] == rest[i];
    assert i + 1 < |rest| ==> path[|start| + i + 1] == rest[i + 1];
    assert i + 2 < |rest| ==> path[|start| + i + 2] == rest[i + 2];
    assert i + 3 < |rest| ==> path[|start| + i + 3] == rest[i + 3];
  }

  /** A bad place is where a dotted or empty segment starts. */
  lemma {:induction false} BadPlaces(path: string)
    requires path != "" && path[0] == '/'
    ensures NowhereBad(path) <==> Proper(Segments(path))
    decreases |path|
  {
    hide BadAt, NowhereBad, Dotted, SlashFree;
    var k := FirstSlash(path[1..]);
    var segment, rest := path[1..1 + k], path[1 + k..];
    assert segment == path[1..][..k];
    assert path == "/" + segment + rest;
    assert rest != "" ==> rest[0] == path[1..][k];
    SegmentsStep(path, segment, rest);
    NowhereBadSplits(path, segment, rest);
    if rest == "" {
      NowhereBadEmpty();
      ProperCons(segment, []);
    } else {
      BadPlaces(rest);
      ProperCons(segment, Segments(rest));
    }
  }

  lemma NowhereBadEmpty()
    ensures NowhereBad("") && Proper([])
  {
  }

  lemma ProperCons(segment: string, rest: seq<string>)
    requires SlashFree(segment)
    ensures Proper([segment] + rest) <==> !Dotted(segment) && Proper(rest)
  {
    hide SlashFree, Dotted;
    var all := [segment] + rest;
    assert all[0] == segment;
    assert forall i | 0 <= i < |rest| :: all[i + 1] == rest[i];
  }

  lemma FirstPlace(path: string, segment: string, rest: string)
    requires SlashFree(segment) && (rest == "" || rest[0] == '/') && path == "/" + segment + rest
    ensures BadAt(path, 0) <==> Dotted(segment)
  {
    assert forall i | 0 <= i < |segment| :: path[1 + i] == segment[i] && segment[i] != '/';
    assert rest != "" ==> path[1 + |segment|] == '/';
    if |segment| == 1 {
      assert segment == "." <==> segment[0] == '.';
    } else if |segment| == 2 {
      assert segment == ".." <==> segment[0] == '.' && segment[1] == '.';
    }
  }

  /** The recogniser accepts exactly the paths joined from at least one segment, none of them
      empty, "." or "..". */
  lemma CanonicalIffProperSegments(path: string)
    ensures RecordedPathIsCanonical(path) <==> exists segments ::
              segments != [] && Proper(segments) && path == Joined(segments)
  {
    CanonicalIffNowhereBad(path);
    if path != "" && path[0] == '/' {
      BadPlaces(path);
    }
    forall segments | segments != [] && Proper(segments) && path == Joined(segments)
      ensures RecordedPathIsCanonical(path)
    {
      SegmentsOfJoined(segments);
    }
  }

  // ---------- resolving dot segments ----------

  /** Drops empty and "." segments; ".." drops the one before it, and nothing at the root. */
  function Normalize(segments: seq<string>): seq<string> {
    if segments == [] then []
    else
      var done, s := Normalize(segments[..|segments| - 1]), segments[|segments| - 1];
      if s == "" || s == "." then done
      else if s == ".." then if done == [] then [] else done[..|done| - 1]
      else done + [s]
  }

  function Resolve(path: string): string
    requires path != "" && path[0] == '/'
  {
    var n := Normalize(Segments(path));
    if n == [] then "/" else Joined(n)
  }

  lemma {:induction false} NormalizeProper(segments: seq<string>)
    requires Proper(segments)
    ensures Normalize(segments) == segments
  {
    if segments != [] {
      var n := |segments| - 1;
      NormalizeProper(segments[..n]);
      assert segments == segments[..n] + [segments[n]];
      assert !Dotted(segments[n]);
    }
  }

  lemma {:induction false} NormalizedIsProper(segments: seq<string>)
    requires forall i | 0 <= i < |segments| :: SlashFree(segments[i])
    ensures Proper(Normalize(segments))
  {
    if segments != [] {
      NormalizedIsProper(segments[..|segments| - 1]);
    }
  }

  /** Canonical paths are exactly the ones, other than the root, that resolving leaves alone. */
  lemma CanonicalIffResolved(path: string)
    requires path != "" && path[0] == '/'
    ensures RecordedPathIsCanonical(path) <==> Resolve(path) == path && path != "/"
  {
    var segments := Segments(path);
    CanonicalIffProperSegments(path);
    CanonicalIffNowhereBad(path);
    BadPlaces(path);
    NormalizedIsProper(segments);
    if RecordedPathIsCanonical(path) {
      NormalizeProper(segments);
      assert BadAt("/", 0);
    }
    if Resolve(path) == path && path != "/" {
      assert Normalize(segments) != [];
    }
  }

  // ---------- containment ----------

  predicate Inside(segments: seq<string>, root: seq<string>) {
    |root| < |segments| && segments[..|root|] == root
  }

  lemma {:induction false} JoinedConcat(a: seq<string>, b: seq<string>)
    ensures Joined(a + b) == Joined(a) + Joined(b)
  {
    if a == [] {
      assert a + b == b;
    } else {
      JoinedConcat(a[1..], b);
      assert (a + b)[1..] == a[1..] + b;
    }
  }

  lemma FirstSegments(root: seq<string>, segments: seq<string>)
    requires Proper(root) && Proper(segments) && root != [] && segments != []
    requires Joined(root) + "/" <= Joined(segments)
    ensures root[0] == segments[0] && segments[1..] != []
    ensures Joined(root[1..]) + "/" <= Joined(segments[1..])
  {
    hide SlashFree, Dotted, Joined;
    var ra, rb := Joined(root[1..]) + "/", Joined(segments[1..]);
    JoinedStartsWithSlash(root[1..]);
    JoinedStartsWithSlash(segments[1..]);
    JoinedCons(root);
    JoinedCons(segments);
    Tails(Joined(root) + "/", Joined(segments), root[0] + ra, segments[0] + rb);
    SameFirst(root[0], ra, segments[0], rb);
  }

  lemma {:induction false} PrefixSegments(root: seq<string>, segments: seq<string>)
    requires Proper(root) && Proper(segments) && segments != []
    requires Joined(root) + "/" <= Joined(segments)
    ensures Inside(segments, root)
  {
    hide SlashFree, Dotted;
    if root != [] {
      FirstSegments(root, segments);
      PrefixSegments(root[1..], segments[1..]);
      assert segments[..|root|] == [segments[0]] + segments[1..][..|root| - 1];
      assert root == [root[0]] + root[1..];
    }
  }

  lemma JoinedStartsWithSlash(segments: seq<string>)
    ensures if segments == [] then Joined(segments) == "" else Joined(segments) != "" && Joined(segments)[0] == '/'
    ensures (Joined(segments) + "/")[0] == '/'
  {
  }

  lemma JoinedCons(segments: seq<string>)
    requires segments != []
    ensures Joined(segments) == "/" + (segments[0] + Joined(segments[1..]))
    ensures Joined(segments) + "/" == "/" + (segments[0] + (Joined(segments[1..]) + "/"))
  {
  }

  lemma Tails(p: string, q: string, x: string, y: string)
    requires p == "/" + x && q == "/" + y && p <= q
    ensures x <= y
  {
    assert x == p[1..] && y == q[1..] && p[1..] <= q[1..];
  }

  lemma SameFirst(a: string, ra: string, b: string, rb: string)
    requires SlashFree(a) && SlashFree(b) && ra != "" && ra[0] == '/' && (rb == "" || rb[0] == '/')
    requires a + ra <= b + rb
    ensures a == b && ra <= rb
  {
    hide FirstSlash, SlashFree;
    var y := b + rb;
    assert y[..|a + ra|] == a + ra;
    var more := y[|a|..];
    assert y[..|a|] == (a + ra)[..|a|] == a;
    assert y == a + more && more[0] == (a + ra)[|a|] == ra[0];
    SlashAt(a, more);
    SlashAt(b, rb);
    assert b == y[..|b|] && rb == y[|b|..];
    assert ra == (a + ra)[|a|..];
  }

  /** On canonical paths the lexical root test is containment: a path that starts with a root and
      a slash lies, segment by segment, below that root, and so does what it resolves to. */
  lemma RootPrefixIsContainment(path: string, root: seq<string>)
    requires RecordedPathIsCanonical(path) && Proper(root)
    ensures Joined(root) + "/" <= path <==> Inside(Segments(path), root)
    ensures Joined(root) + "/" <= path ==> Inside(Normalize(Segments(path)), root)
  {
    hide RecordedPathIsCanonical, NowhereBad, Segments, Normalize, SlashFree, Dotted, Joined;
    CanonicalIffNowhereBad(path);
    var segments := Segments(path);
    BadPlaces(path);
    NormalizeProper(segments);
    if Joined(root) + "/" <= path {
      PrefixSegments(root, segments);
    }
    if Inside(segments, root) {
      var rest := segments[|root|..];
      assert segments == root + rest;
      JoinedConcat(root, rest);
      JoinedStartsWithSlash(rest);
      assert path == Joined(root) + Joined(rest);
      assert Joined(rest)[..1] == "/";
    }
  }

  lemma NormalizeStep(segments: seq<string>, last: string)
    ensures Normalize(segments + [last]) ==
            if last == "" || last == "." then Normalize(segments)
            else if last != ".." then Normalize(segments) + [last]
            else if Normalize(segments) == [] then []
            else Normalize(segments)[..|Normalize(segments)| - 1]
  {
    assert (segments + [last])[..|segments|] == segments;
  }

  /** Without canonicality the root test proves nothing: below any root there are paths that pass
      it and resolve to wherever `target` points. */
  lemma {:induction false} RootPrefixAloneEscapes(root: seq<string>, target: seq<string>)
    requires Proper(root) && root != [] && Proper(target) && target != []
    ensures var path := Joined(root + Ups(|root|) + target);
            && Joined(root) + "/" <= path
            && Normalize(Segments(path)) == target
            && !RecordedPathIsCanonical(path)
  {
    hide RecordedPathIsCanonical, NowhereBad, Segments, Normalize, Joined, SlashFree;
    var n := |root|;
    var ups, tail := Ups(n), Ups(n) + target;
    var segments := root + ups + target;
    var path := Joined(segments);
    assert segments == root + tail;
    UpsSlashFree(n);
    JoinedConcat(root, tail);
    JoinedStartsWithSlash(tail);
    assert Joined(tail)[..1] == "/";
    SegmentsOfJoined(segments);
    NormalizeUps(root, n);
    NormalizeOnTop(root + ups, target);
    CanonicalIffNowhereBad(path);
    BadPlaces(path);
    assert segments[n] == "..";
  }

  function Ups(n: nat): seq<string> {
    seq(n, _ => "..")
  }

  lemma UpsSlashFree(n: nat)
    ensures forall i | 0 <= i < n :: SlashFree(Ups(n)[i]) && Ups(n)[i] == ".."
  {
  }

  lemma {:induction false} NormalizeUps(root: seq<string>, n: nat)
    requires Proper(root) && n <= |root|
    ensures Normalize(root + Ups(n)) == root[..|root| - n]
  {
    if n == 0 {
      NormalizeProper(root);
      assert root + Ups(0) == root;
    } else {
      NormalizeUps(root, n - 1);
      NormalizeStep(root + Ups(n - 1), "..");
      assert root + Ups(n) == root + Ups(n - 1) + [".."];
    }
  }

  lemma {:induction false} NormalizeOnTop(below: seq<string>, target: seq<string>)
    requires Proper(target) && Normalize(below) == []
    ensures Normalize(below + target) == target
  {
    hide SlashFree;
    if target == [] {
      assert below + target == below;
    } else {
      var n := |target| - 1;
      NormalizeOnTop(below, target[..n]);
      NormalizeStep(below + target[..n], target[n]);
      assert below + target == below + target[..n] + [target[n]];
      assert target == target[..n] + [target[n]];
      assert !Dotted(target[n]);
    }
  }
}
