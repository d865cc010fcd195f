/** The bounded structural scan that runs over a document's text before it is parsed, and what it
    says about documents in any of their spellings. */
module JsonDepth {

  const MAX_JSON_DEPTH := 32

  datatype Status = Sound | TooDeep | Unbalanced

  // ---------- the scan ----------

  function Scan(text: string, depth: int, insideString: bool, escaped: bool): Status {
    if text == "" then if insideString || depth != 0 then Unbalanced else Sound
    else
      var c, rest := text[0], text[1..];
      if insideString then
        if escaped then Scan(rest, depth, true, false)
        else if c == '\\' then Scan(rest, depth, true, true)
        else Scan(rest, depth, c != '"', false)
      else if c == '"' then Scan(rest, depth, true, escaped)
      else if c == '[' || c == '{' then
        if depth + 1 > MAX_JSON_DEPTH then TooDeep else Scan(rest, depth + 1, false, escaped)
      else if c == ']' || c == '}' then if depth - 1 < 0 then Unbalanced else Scan(rest, depth - 1, false, escaped)
      else Scan(rest, depth, false, escaped)
  }

  method JsonStructureStatus(decoded: string) returns (status: Status)
    ensures status == Scan(decoded, 0, false, false)
    ensures decoded == "" ==> status == Sound
  {
    var depth, insideString, escaped := 0, false, false;
    for i := 0 to |decoded|
      invariant Scan(decoded[i..], depth, insideString, escaped) == Scan(decoded, 0, false, false)
    {
      var c := decoded[i];
      assert decoded[i..][0] == c && decoded[i..][1..] == decoded[i + 1..];
      if insideString {
        if escaped {
          escaped := false;
        } else if c == '\\' {
          escaped := true;
        } else if c == '"' {
          insideString := false;
        }
        continue;
      }
      if c == '"' {
        insideString := true;
      } else if c == '[' || c == '{' {
        depth := depth + 1;
        if depth > MAX_JSON_DEPTH {
          return TooDeep;
        }
      } else if c == ']' || c == '}' {
        depth := depth - 1;
        if depth < 0 {
          return Unbalanced;
        }
      }
    }
    if insideString || depth != 0 {
      return Unbalanced;
    }
    status := Sound;
  }

  // ---------- documents as they may be spelled ----------

  predicate Plain(c: char) {
    c !in {'"', '\\', '[', ']', '{', '}'}
  }

  /** A literal or a number as it stands in the text; none of its characters is structural. */
  type Word = s: string | forall i | 0 <= i < |s| :: Plain(s[i]) witness "0"

  /** Insignificant white space. */
  type Pad = s: string | forall i | 0 <= i < |s| :: s[i] in {' ', '\t', '\n', '\r'} witness ""

  /** One unit between the quotes of a string: a character as it is, an escaped one, or four digits. */
  datatype Spelling = Raw(c: char) | Escaped(c: char) | Unicode(digits: string)

  predicate Legal(u: Spelling) {
    match u
    case Raw(c) => c >= ' ' && c != '"' && c != '\\'
    case Escaped(c) => c in {'"', '\\', '/', 'b', 'f', 'n', 'r', 't'}
    case Unicode(digits) =>
      |digits| == 4 && forall i | 0 <= i < 4 ::
        '0' <= digits[i] <= '9' || 'a' <= digits[i] <= 'f' || 'A' <= digits[i] <= 'F'
  }

  type Unit = u: Spelling | Legal(u) witness Raw('a')

  /** A value with every choice its spelling makes. */
  datatype Value = Scalar(word: Word) | Text(units: seq<Unit>)
                 | List(gap: Pad, items: seq<Padded>) | Record(gap: Pad, fields: seq<Field>)

  datatype Padded = Padded(before: Pad, value: Value, after: Pad)

  datatype Field = Field(before: Pad, key: seq<Unit>, colon: Pad, value: Padded)

  function SpellUnit(u: Unit): string {
    match u
    case Raw(c) => [c]
    case Escaped(c) => ['\\', c]
    case Unicode(digits) => ['\\', 'u'] + digits
  }

  function SpellUnits(units: seq<Unit>): string {
    if units == [] then "" else SpellUnit(units[0]) + SpellUnits(units[1..])
  }

  function Quote(units: seq<Unit>): string {
    ['"'] + SpellUnits(units) + ['"']
  }

  function Spell(p: Padded): string
    decreases p, 0
  {
    p.before + SpellValue(p.value) + p.after
  }

  function SpellValue(v: Value): string
    decreases v, 1
  {
    match v
    case Scalar(word) => word
    case Text(units) => Quote(units)
    case List(gap, items) => ['['] + (gap + SpellItems(items)) + [']']
    case Record(gap, fields) => ['{'] + (gap + SpellFields(fields)) + ['}']
  }

  function SpellItems(items: seq<Padded>): string
    decreases items, 0
  {
    if items == [] then ""
    else if |items| == 1 then Spell(items[0])
    else Spell(items[0]) + ("," + SpellItems(items[1..]))
  }

  function SpellKey(f: Field): string {
    f.before + (Quote(f.key) + (f.colon + ":"))
  }

  function SpellFields(fields: seq<Field>): string
    decreases fields, 0
  {
    if fields == [] then ""
    else
      var first := SpellKey(fields[0]) + Spell(fields[0].value);
      if |fields| == 1 then first else first + ("," + SpellFields(fields[1..]))
  }

  function Max(a: nat, b: nat): nat {
    if a >= b then a else b
  }

  /** How deeply containers nest. */
  function Nesting(v: Value): nat
    decreases v, 1
  {
    match v
    case List(_, items) => 1 + ItemsNesting(items)
    case Record(_, fields) => 1 + FieldsNesting(fields)
    case _ => 0
  }

  function ItemsNesting(items: seq<Padded>): nat
    decreases items, 0
  {
    if items == [] then 0 else Max(Nesting(items[0].value), ItemsNesting(items[1..]))
  }

  function FieldsNesting(fields: seq<Field>): nat
    decreases fields, 0
  {
    if fields == [] then 0 else Max(Nesting(fields[0].value.value), FieldsNesting(fields[1..]))
  }

  // ---------- scanning a piece of text ----------

  /** A piece of text `t`, `n` containers deep, as the scan sees it from depth `depth`. */
  ghost predicate Passes(t: string, n: nat, depth: nat) {
    forall rest ::
      Scan(t + rest, depth, false, false)
        == if depth + n <= MAX_JSON_DEPTH then Scan(rest, depth, false, false) else TooDeep
  }

  lemma Head(t: string, rest: string)
    requires t != ""
    ensures t + rest != "" && (t + rest)[0] == t[0] && (t + rest)[1..] == t[1..] + rest
  {
  }

  lemma {:induction false} PlainPasses(t: string, rest: string, depth: nat)
    requires forall i | 0 <= i < |t| :: Plain(t[i])
    ensures Scan(t + rest, depth, false, false) == Scan(rest, depth, false, false)
  {
    if t == "" {
      assert t + rest == rest;
    } else {
      Head(t, rest);
      PlainPasses(t[1..], rest, depth);
    }
  }

  lemma {:induction false} PlainInString(t: string, rest: string, depth: nat)
    requires forall i | 0 <= i < |t| :: t[i] != '"' && t[i] != '\\'
    ensures Scan(t + rest, depth, true, false) == Scan(rest, depth, true, false)
  {
    if t == "" {
      assert t + rest == rest;
    } else {
      Head(t, rest);
      PlainInString(t[1..], rest, depth);
    }
  }

  /** A backslash, whatever follows it, and unstructured text leave the scan inside the string. */
  lemma EscapeInString(c: char, t: string, rest: string, depth: nat)
    requires forall i | 0 <= i < |t| :: t[i] != '"' && t[i] != '\\'
    ensures Scan(['\\', c] + t + rest, depth, true, false) == Scan(rest, depth, true, false)
  {
    var all := ['\\', c] + t + rest;
    assert all[0] == '\\' && all[1..][0] == c && all[1..][1..] == t + rest;
    PlainInString(t, rest, depth);
  }

  lemma UnitInString(u: Unit, rest: string, depth: nat)
    ensures Scan(SpellUnit(u) + rest, depth, true, false) == Scan(rest, depth, true, false)
  {
    match u
    case Raw(c) => PlainInString([c], rest, depth);
    case Escaped(c) =>
      assert SpellUnit(u) == ['\\', c] + "";
      EscapeInString(c, "", rest, depth);
    case Unicode(digits) => EscapeInString('u', digits, rest, depth);
  }

  lemma {:induction false} UnitsInString(units: seq<Unit>, rest: string, depth: nat)
    ensures Scan(SpellUnits(units) + rest, depth, true, false) == Scan(rest, depth, true, false)
  {
    if units == [] {
      assert SpellUnits(units) + rest == rest;
    } else {
      var e, es := SpellUnit(units[0]), SpellUnits(units[1..]);
      assert (e + es) + rest == e + (es + rest);
      UnitInString(units[0], es + rest, depth);
      UnitsInString(units[1..], rest, depth);
    }
  }

  /** A string, whatever quotes, backslashes and brackets it spells, is one scalar. */
  lemma QuotePasses(units: seq<Unit>, rest: string, depth: nat)
    ensures Scan(Quote(units) + rest, depth, false, false) == Scan(rest, depth, false, false)
  {
    var text, tail := Quote(units) + rest, ['"'] + rest;
    assert text[0] == '"' && text[1..] == SpellUnits(units) + tail;
    UnitsInString(units, tail, depth);
    assert tail[0] == '"' && tail[1..] == rest;
  }

  lemma Sequenced(a: string, m: nat, b: string, n: nat, depth: nat)
    requires Passes(a, m, depth) && Passes(b, n, depth)
    ensures Passes(a + b, Max(m, n), depth)
  {
    forall rest
      ensures Scan((a + b) + rest, depth, false, false)
           == if depth + Max(m, n) <= MAX_JSON_DEPTH then Scan(rest, depth, false, false) else TooDeep
    {
      assert (a + b) + rest == a + (b + rest);
      assert Scan(a + (b + rest), depth, false, false)
          == if depth + m <= MAX_JSON_DEPTH then Scan(b + rest, depth, false, false) else TooDeep;
    }
  }

  /** Brackets around text one level down. */
  lemma Bracketed(open: char, body: string, close: char, n: nat, depth: nat)
    requires open in {'[', '{'} && close in {']', '}'} && depth <= MAX_JSON_DEPTH
    requires depth + 1 <= MAX_JSON_DEPTH ==> Passes(body, n, depth + 1)
    ensures Passes([open] + body + [close], n + 1, depth)
  {
    forall rest
      ensures Scan(([open] + body + [close]) + rest, depth, false, false)
           == if depth + (n + 1) <= MAX_JSON_DEPTH then Scan(rest, depth, false, false) else TooDeep
    {
      var text := ([open] + body + [close]) + rest;
      assert text[0] == open && text[1..] == body + ([close] + rest);
      var tail := [close] + rest;
      assert tail[0] == close && tail[1..] == rest;
      if depth + 1 <= MAX_JSON_DEPTH {
        assert Scan(body + tail, depth + 1, false, false)
            == if depth + 1 + n <= MAX_JSON_DEPTH then Scan(tail, depth + 1, false, false) else TooDeep;
      }
    }
  }

  // ---------- a piece of text cut short ----------

  /** However much of `t` is missing, a scan that started inside a container ends unbalanced. */
  ghost predicate Unfinished(t: string, depth: nat) {
    forall k | 0 <= k <= |t| :: Scan(t[..k], depth, false, false) == Unbalanced
  }

  lemma PlainUnfinished(t: string, depth: nat)
    requires depth > 0 && forall i | 0 <= i < |t| :: Plain(t[i])
    ensures Unfinished(t, depth)
  {
    forall k | 0 <= k <= |t|
      ensures Scan(t[..k], depth, false, false) == Unbalanced
    {
      PlainPasses(t[..k], "", depth);
      assert t[..k] + "" == t[..k];
    }
  }

  lemma CutShort(depth: nat)
    ensures forall escaped :: Scan("", depth, true, escaped) == Unbalanced
    ensures Scan("\\", depth, true, false) == Unbalanced
  {
    assert "\\"[1..] == "";
  }

  lemma CutUnit(u: Unit, k: nat, depth: nat)
    requires k <= |SpellUnit(u)|
    ensures Scan(SpellUnit(u)[..k], depth, true, false) == Unbalanced
  {
    var e := SpellUnit(u);
    CutShort(depth);
    if k == |e| {
      UnitInString(u, "", depth);
      assert e + "" == e[..k];
    } else if k >= 2 {
      assert e[..k] == ['\\', 'u'] + e[2..k] + "";
      EscapeInString('u', e[2..k], "", depth);
    } else {
      assert k == 1 ==> e[..k] == "\\";
    }
  }

  lemma {:induction false} CutUnits(units: seq<Unit>, k: nat, depth: nat)
    requires k <= |SpellUnits(units)|
    ensures Scan(SpellUnits(units)[..k], depth, true, false) == Unbalanced
  {
    if units != [] {
      var e, es := SpellUnit(units[0]), SpellUnits(units[1..]);
      if k <= |e| {
        assert (e + es)[..k] == e[..k];
        CutUnit(units[0], k, depth);
      } else {
        assert (e + es)[..k] == e + es[..k - |e|];
        UnitInString(units[0], es[..k - |e|], depth);
        CutUnits(units[1..], k - |e|, depth);
      }
    }
  }

  lemma QuoteUnfinished(units: seq<Unit>, depth: nat)
    requires depth > 0
    ensures Unfinished(Quote(units), depth)
  {
    var t := Quote(units);
    forall k | 0 <= k <= |t|
      ensures Scan(t[..k], depth, false, false) == Unbalanced
    {
      if k == |t| {
        QuotePasses(units, "", depth);
        assert t + "" == t[..k];
      } else if k > 0 {
        assert t[..k][0] == '"' && t[..k][1..] == SpellUnits(units)[..k - 1];
        CutUnits(units, k - 1, depth);
      }
    }
  }

  lemma SequencedUnfinished(a: string, m: nat, b: string, depth: nat)
    requires Passes(a, m, depth) && depth + m <= MAX_JSON_DEPTH
    requires Unfinished(a, depth) && Unfinished(b, depth)
    ensures Unfinished(a + b, depth)
  {
    forall k | 0 <= k <= |a + b|
      ensures Scan((a + b)[..k], depth, false, false) == Unbalanced
    {
      if k <= |a| {
        assert (a + b)[..k] == a[..k];
      } else {
        assert (a + b)[..k] == a + b[..k - |a|];
        assert Scan(a + b[..k - |a|], depth, false, false) == Scan(b[..k - |a|], depth, false, false);
      }
    }
  }

  /** Every proper prefix that reaches inside the brackets is unbalanced, and so is the whole when
      it stands inside another container. */
  lemma BracketedUnfinished(open: char, body: string, close: char, depth: nat, k: nat)
    requires open in {'[', '{'} && close in {']', '}'} && depth + 1 <= MAX_JSON_DEPTH
    requires Unfinished(body, depth + 1) && 0 < k <= |body| + 1
    ensures Scan(([open] + body + [close])[..k], depth, false, false) == Unbalanced
  {
    var t := ([open] + body + [close])[..k];
    assert t[0] == open && t[1..] == body[..k - 1];
  }

  lemma BracketsUnfinished(open: char, body: string, close: char, n: nat, depth: nat)
    requires open in {'[', '{'} && close in {']', '}'} && 0 < depth && depth + 1 + n <= MAX_JSON_DEPTH
    requires Unfinished(body, depth + 1) && Passes(body, n, depth + 1)
    ensures Unfinished([open] + body + [close], depth)
  {
    var t := [open] + body + [close];
    forall k | 0 <= k <= |t|
      ensures Scan(t[..k], depth, false, false) == Unbalanced
    {
      if k == |t| {
        Bracketed(open, body, close, n, depth);
        assert t + "" == t[..k];
        assert Scan(t + "", depth, false, false) == Scan("", depth, false, false);
      } else if k > 0 {
        BracketedUnfinished(open, body, close, depth, k);
      }
    }
  }

  // ---------- whole documents ----------

  /** A piece `n` containers deep passes where it fits, and cut short inside a container it does not. */
  ghost predicate Regular(t: string, n: nat, depth: nat) {
    && Passes(t, n, depth)
    && (0 < depth && depth + n <= MAX_JSON_DEPTH ==> Unfinished(t, depth))
  }

  lemma PlainRegular(t: string, depth: nat)
    requires depth <= MAX_JSON_DEPTH && forall i | 0 <= i < |t| :: Plain(t[i])
    ensures Regular(t, 0, depth)
  {
    forall rest
      ensures Scan(t + rest, depth, false, false) == Scan(rest, depth, false, false)
    {
      PlainPasses(t, rest, depth);
    }
    if depth > 0 {
      PlainUnfinished(t, depth);
    }
  }

  lemma QuoteRegular(units: seq<Unit>, depth: nat)
    requires depth <= MAX_JSON_DEPTH
    ensures Regular(Quote(units), 0, depth)
  {
    forall rest
      ensures Scan(Quote(units) + rest, depth, false, false) == Scan(rest, depth, false, false)
    {
      QuotePasses(units, rest, depth);
    }
    if depth > 0 {
      QuoteUnfinished(units, depth);
    }
  }

  lemma Joined(a: string, m: nat, b: string, n: nat, depth: nat)
    requires Regular(a, m, depth) && Regular(b, n, depth)
    ensures Regular(a + b, Max(m, n), depth)
  {
    hide Passes, Unfinished;
    Sequenced(a, m, b, n, depth);
    if 0 < depth && depth + Max(m, n) <= MAX_JSON_DEPTH {
      SequencedUnfinished(a, m, b, depth);
    }
  }

  lemma Enclosed(open: char, body: string, close: char, n: nat, depth: nat)
    requires open in {'[', '{'} && close in {']', '}'} && depth <= MAX_JSON_DEPTH
    requires depth + 1 <= MAX_JSON_DEPTH ==> Regular(body, n, depth + 1)
    ensures Regular([open] + body + [close], n + 1, depth)
  {
    hide Passes, Unfinished;
    Bracketed(open, body, close, n, depth);
    if 0 < depth && depth + n + 1 <= MAX_JSON_DEPTH {
      BracketsUnfinished(open, body, close, n, depth);
    }
  }

  lemma {:induction false} ValueRegular(v: Value, depth: nat)
    requires depth <= MAX_JSON_DEPTH
    ensures Regular(SpellValue(v), Nesting(v), depth)
    decreases v, 1
  {
    hide Regular;
    match v
    case Scalar(word) => PlainRegular(word, depth);
    case Text(units) => QuoteRegular(units, depth);
    case List(gap, items) =>
      if depth + 1 <= MAX_JSON_DEPTH {
        PlainRegular(gap, depth + 1);
        ItemsRegular(items, depth + 1);
        Joined(gap, 0, SpellItems(items), ItemsNesting(items), depth + 1);
      }
      Enclosed('[', gap + SpellItems(items), ']', ItemsNesting(items), depth);
    case Record(gap, fields) =>
      if depth + 1 <= MAX_JSON_DEPTH {
        PlainRegular(gap, depth + 1);
        FieldsRegular(fields, depth + 1);
        Joined(gap, 0, SpellFields(fields), FieldsNesting(fields), depth + 1);
      }
      Enclosed('{', gap + SpellFields(fields), '}', FieldsNesting(fields), depth);
  }

  lemma {:induction false} PaddedRegular(p: Padded, depth: nat)
    requires depth <= MAX_JSON_DEPTH
    ensures Regular(Spell(p), Nesting(p.value), depth)
    decreases p, 0
  {
    hide Regular, Nesting, SpellValue;
    PlainRegular(p.before, depth);
    ValueRegular(p.value, depth);
    PlainRegular(p.after, depth);
    Joined(p.before, 0, SpellValue(p.value), Nesting(p.value), depth);
    Joined(p.before + SpellValue(p.value), Nesting(p.value), p.after, 0, depth);
  }

  lemma {:induction false} ItemsRegular(items: seq<Padded>, depth: nat)
    requires depth <= MAX_JSON_DEPTH
    ensures Regular(SpellItems(items), ItemsNesting(items), depth)
    decreases items, 0
  {
    hide Regular, Nesting, Spell;
    PlainRegular("", depth);
    if items != [] {
      PaddedRegular(items[0], depth);
      ItemsRegular(items[1..], depth);
      PlainRegular(",", depth);
      Joined(",", 0, SpellItems(items[1..]), ItemsNesting(items[1..]), depth);
      Joined(Spell(items[0]), Nesting(items[0].value), "," + SpellItems(items[1..]), ItemsNesting(items[1..]), depth);
    }
  }

  lemma KeyRegular(f: Field, depth: nat)
    requires depth <= MAX_JSON_DEPTH
    ensures Regular(SpellKey(f), 0, depth)
  {
    hide Regular, Quote;
    PlainRegular(f.before, depth);
    QuoteRegular(f.key, depth);
    PlainRegular(f.colon + ":", depth);
    Joined(Quote(f.key), 0, f.colon + ":", 0, depth);
    Joined(f.before, 0, Quote(f.key) + (f.colon + ":"), 0, depth);
  }

  lemma {:induction false} FieldsRegular(fields: seq<Field>, depth: nat)
    requires depth <= MAX_JSON_DEPTH
    ensures Regular(SpellFields(fields), FieldsNesting(fields), depth)
    decreases fields, 0
  {
    hide Regular, Nesting, Spell, SpellKey;
    PlainRegular("", depth);
    if fields != [] {
      var key, value, n := SpellKey(fields[0]), fields[0].value, Nesting(fields[0].value.value);
      KeyRegular(fields[0], depth);
      PaddedRegular(value, depth);
      FieldsRegular(fields[1..], depth);
      PlainRegular(",", depth);
      Joined(key, 0, Spell(value), n, depth);
      Joined(",", 0, SpellFields(fields[1..]), FieldsNesting(fields[1..]), depth);
      Joined(key + Spell(value), n, "," + SpellFields(fields[1..]), FieldsNesting(fields[1..]), depth);
    }
  }

  /** The scan is exact on every legal spelling of every document, with any white space and any
      choice of escapes: it passes one exactly when its containers nest at most 32 deep, and names
      every other one as too deep. */
  lemma ScanExactOnSpelled(document: Padded)
    ensures Scan(Spell(document), 0, false, false)
              == if Nesting(document.value) <= 32 then Sound else TooDeep
  {
    PaddedRegular(document, 0);
    assert Spell(document) + "" == Spell(document);
    assert Scan(Spell(document) + "", 0, false, false)
           == if Nesting(document.value) <= MAX_JSON_DEPTH then Scan("", 0, false, false) else TooDeep;
  }

  /** A container cut anywhere before its end is reported as unbalanced, never as too deep and never
      as sound. */
  lemma TruncatedIsUnbalanced(v: Value, k: nat)
    requires (v.List? || v.Record?) && Nesting(v) <= 32 && 0 < k < |SpellValue(v)|
    ensures Scan(SpellValue(v)[..k], 0, false, false) == Unbalanced
  {
    hide Scan;
    match v
    case List(gap, items) =>
      PlainRegular(gap, 1);
      ItemsRegular(items, 1);
      Joined(gap, 0, SpellItems(items), ItemsNesting(items), 1);
      BracketedUnfinished('[', gap + SpellItems(items), ']', 0, k);
    case Record(gap, fields) =>
      PlainRegular(gap, 1);
      FieldsRegular(fields, 1);
      Joined(gap, 0, SpellFields(fields), FieldsNesting(fields), 1);
      BracketedUnfinished('{', gap + SpellFields(fields), '}', 0, k);
  }
}
