/** The hand-rolled reader for flat JSON objects that the token code uses on its own
    payloads. It is not a JSON parser: it trims, strips the braces, splits the body at
    every `,` and each piece at its first `:`, strips one pair of surrounding quotes from
    keys and values, and reads an unquoted value as a `long` when it parses as one. */
module FlatJson {
  import opened Results
  import opened JavaStrings

  /** The two kinds of value the reader stores: a `Long` or a `String`. */
  datatype JsonValue = JLong(n: int) | JText(s: string)

  type Fields = map<string, JsonValue>

  /** `s.startsWith("\"") && s.endsWith("\"")`; a lone `"` satisfies both. */
  predicate Quoted(s: string) {
    |s| >= 1 && s[0] == '"' && s[|s| - 1] == '"'
  }

  /** The key of one piece: the quotes come off a quoted key; `substring(1, 0)` on a lone
      `"` throws (`None`). */
  function ReadKey(k: string): (r: Option<string>)
    ensures r.None? <==> k == "\""
    ensures r.Some? && !Quoted(k) ==> r.value == k
    ensures r.Some? && Quoted(k) ==> k == "\"" + r.value + "\""
  {
    if Quoted(k) then (if |k| < 2 then None else Some(k[1..|k| - 1])) else Some(k)
  }

  /** The value of one piece: a quoted value is text without its quotes, otherwise a `long`
      if `Long.parseLong` accepts it and the raw text if it does not. */
  function ReadValue(v: string): (r: Option<JsonValue>)
    ensures r.None? <==> v == "\""
    ensures r.Some? && Quoted(v) ==> r.value.JText? && v == "\"" + r.value.s + "\""
    ensures r.Some? && !Quoted(v) && ParseLong(v).Some? ==> r.value == JLong(ParseLong(v).value)
    ensures r.Some? && !Quoted(v) && ParseLong(v).None? ==> r.value == JText(v)
  {
    if Quoted(v) then (if |v| < 2 then None else Some(JText(v[1..|v| - 1])))
    else match ParseLong(v)
      case Some(n) => Some(JLong(n))
      case None => Some(JText(v))
  }

  /** One `key:value` piece; a piece without `:` makes `kv[1]` throw (`None`). */
  function ReadEntry(part: string): Option<(string, JsonValue)> {
    var kv := SplitLimit2(part, ':');
    if |kv| < 2 then None
    else
      match ReadKey(Trim(kv[0]))
      case None => None
      case Some(k) =>
        match ReadValue(Trim(kv[1]))
        case None => None
        case Some(v) => Some((k, v))
  }

  /** `map.put` of every piece in order, so a later key overwrites an earlier one. */
  function PutAll(m: Fields, parts: seq<string>): Option<Fields>
    decreases |parts|
  {
    if parts == [] then Some(m)
    else
      match ReadEntry(parts[0])
      case None => None
      case Some(e) => PutAll(m[e.0 := e.1], parts[1..])
  }

  /** `Json.parse(json)`; `None` stands for the exception the reader throws. */
  function ParseJson(json: string): Option<Fields> {
    var body := Trim(json);
    if |body| >= 1 && body[0] == '{' && body[|body| - 1] == '}' then
      var inner := Trim(body[1..|body| - 1]);
      if inner == [] then Some(map[]) else PutAll(map[], Split(inner, ','))
    else Some(map[])
  }

  /** `Json.parse` as written: a loop that fills a map piece by piece. */
  method Parse(json: string) returns (r: Option<Fields>)
    ensures r == ParseJson(json)
  {
    var m: Fields := map[];
    var body := Trim(json);
    if |body| >= 1 && body[0] == '{' && body[|body| - 1] == '}' {
      body := Trim(body[1..|body| - 1]);
      if body == [] {
        return Some(m);
      }
      var parts := Split(body, ',');
      var i := 0;
      assert parts[i..] == parts;
      assert ParseJson(json) == PutAll(m, parts[i..]);
      while i < |parts|
        invariant 0 <= i <= |parts|
        invariant ParseJson(json) == PutAll(m, parts[i..])
      {
        var entry := ReadEntry(parts[i]);
        PutAllStep(m, parts, i);
        if entry.None? {
          return None;
        }
        m := m[entry.value.0 := entry.value.1];
        i := i + 1;
      }
      assert parts[i..] == [];
    }
    return Some(m);
  }

  lemma PutAllStep(m: Fields, parts: seq<string>, i: int)
    requires 0 <= i < |parts|
    ensures ReadEntry(parts[i]).None? ==> PutAll(m, parts[i..]).None?
    ensures ReadEntry(parts[i]).Some? ==>
              var e := ReadEntry(parts[i]).value;
              PutAll(m, parts[i..]) == PutAll(m[e.0 := e.1], parts[i + 1..])
  {
    assert parts[i..][1..] == parts[i + 1..];
  }

  // ---------------------------------------------------------------------------
  // Writing flat objects, and reading them back
  // ---------------------------------------------------------------------------

  /** A text value is written in quotes, a `long` in decimal with ASCII digits (what `%d`
      writes under a locale with ASCII digits). */
  function RenderValue(v: JsonValue): string {
    match v
    case JText(s) => "\"" + s + "\""
    case JLong(n) => LongToString(n)
  }

  function RenderEntry(e: (string, JsonValue)): string {
    "\"" + e.0 + "\":" + RenderValue(e.1)
  }

  function Join(parts: seq<string>, sep: char): (s: string)
    ensures parts == [] ==> s == []
    decreases |parts|
  {
    if parts == [] then []
    else if |parts| == 1 then parts[0]
    else parts[0] + [sep] + Join(parts[1..], sep)
  }

  function RenderEntries(entries: seq<(string, JsonValue)>): (parts: seq<string>)
    ensures |parts| == |entries|
    ensures forall i :: 0 <= i < |entries| ==> parts[i] == RenderEntry(entries[i])
    decreases |entries|
  {
    if entries == [] then [] else [RenderEntry(entries[0])] + RenderEntries(entries[1..])
  }

  /** A flat object written the way the token code writes its payloads. */
  function Render(entries: seq<(string, JsonValue)>): string {
    "{" + Join(RenderEntries(entries), ',') + "}"
  }

  /** The map the reader should build from `entries`: later keys overwrite earlier ones. */
  function ToMap(m: Fields, entries: seq<(string, JsonValue)>): Fields
    decreases |entries|
  {
    if entries == [] then m else ToMap(m[entries[0].0 := entries[0].1], entries[1..])
  }

  /** The entries the reader can carry: keys without `,` or `:`, text values without `,`,
      numbers within the `long` range. */
  predicate Readable(e: (string, JsonValue)) {
    && ',' !in e.0 && ':' !in e.0
    && (e.1.JText? ==> ',' !in e.1.s)
    && (e.1.JLong? ==> IsLong(e.1.n))
  }

  /** The reader is not fooled by a trimmed body or by a body that is not an object. */
  lemma ParseJsonNotAnObject(json: string)
    requires var body := Trim(json); !(|body| >= 1 && body[0] == '{' && body[|body| - 1] == '}')
    ensures ParseJson(json) == Some(map[])
  {
  }

  lemma ParseJsonEmptyObject(json: string)
    requires var body := Trim(json); |body| >= 2 && body[0] == '{' && body[|body| - 1] == '}'
    requires Trim(Trim(json)[1..|Trim(json)| - 1]) == []
    ensures ParseJson(json) == Some(map[])
  {
  }

  /** Splitting a joined list at the separator gives the list back, as long as no piece holds
      the separator (`SplitAll` keeps every piece, including empty ones). */
  lemma {:induction false} SplitAllJoin(parts: seq<string>, sep: char)
    requires |parts| >= 1
    requires forall i :: 0 <= i < |parts| ==> sep !in parts[i]
    ensures SplitAll(Join(parts, sep), sep) == parts
    decreases |parts|
  {
    if |parts| == 1 {
      assert IndexOf(parts[0], sep) < 0;
    } else {
      SplitAllJoin(parts[1..], sep);
      SplitAllAfter(parts[0], sep, Join(parts[1..], sep));
    }
  }

  lemma JoinContainsSep(parts: seq<string>, sep: char)
    requires |parts| >= 2
    ensures sep in Join(parts, sep)
  {
    assert Join(parts, sep)[|parts[0]|] == sep;
  }

  lemma {:induction false} JoinFreeOfSep(parts: seq<string>, sep: char)
    requires forall i :: 0 <= i < |parts| ==> sep !in parts[i]
    requires |parts| <= 1
    ensures sep !in Join(parts, sep)
  {
  }

  /** `split` undoes `Join` when the last piece is not empty. */
  lemma SplitJoin(parts: seq<string>, sep: char)
    requires |parts| >= 1 && parts[|parts| - 1] != []
    requires forall i :: 0 <= i < |parts| ==> sep !in parts[i]
    ensures Split(Join(parts, sep), sep) == parts
  {
    if |parts| == 1 {
      JoinFreeOfSep(parts, sep);
    } else {
      JoinContainsSep(parts, sep);
      SplitAllJoin(parts, sep);
    }
  }

  /** The first and last characters of a joined list are those of its first and last pieces. */
  lemma {:induction false} JoinEnds(parts: seq<string>, sep: char)
    requires |parts| >= 1 && forall i :: 0 <= i < |parts| ==> parts[i] != []
    ensures var s := Join(parts, sep); s != [] && s[0] == parts[0][0] && s[|s| - 1] == parts[|parts| - 1][|parts[|parts| - 1]| - 1]
    decreases |parts|
  {
    if |parts| > 1 {
      JoinEnds(parts[1..], sep);
    }
  }

  /** Reading a written value gives the value back. */
  lemma ReadRenderedValue(v: JsonValue)
    requires v.JLong? ==> IsLong(v.n)
    ensures Trim(RenderValue(v)) == RenderValue(v)
    ensures ReadValue(RenderValue(v)) == Some(v)
  {
    var r := RenderValue(v);
    match v
    case JText(s) =>
      assert r[0] == '"' && r[|r| - 1] == '"';
      TrimOfTrimmed(r);
      assert r[1..|r| - 1] == s;
    case JLong(n) =>
      assert !IsTrimmable(r[0]) && !IsTrimmable(r[|r| - 1]);
      TrimOfTrimmed(r);
      ParseLongOfLongToString(n);
  }

  /** Reading a quoted key gives the key back. */
  lemma ReadQuotedKey(k: string)
    ensures Trim("\"" + k + "\"") == "\"" + k + "\""
    ensures ReadKey("\"" + k + "\"") == Some(k)
  {
    var q := "\"" + k + "\"";
    assert q[1..|q| - 1] == k;
    assert q[0] == '"' && q[|q| - 1] == '"';
    TrimOfTrimmed(q);
  }

  /** Reading a written `"key":value` piece gives the entry back. */
  lemma ReadRenderedEntry(e: (string, JsonValue))
    requires Readable(e)
    ensures ReadEntry(RenderEntry(e)) == Some(e)
  {
    var key := "\"" + e.0 + "\"";
    var value := RenderValue(e.1);
    assert RenderEntry(e) == key + [':'] + value;
    SplitLimit2At(key, ':', value);
    ReadQuotedKey(e.0);
    ReadRenderedValue(e.1);
  }

  lemma {:induction false} PutAllRendered(m: Fields, entries: seq<(string, JsonValue)>)
    requires forall i :: 0 <= i < |entries| ==> Readable(entries[i])
    ensures PutAll(m, RenderEntries(entries)) == Some(ToMap(m, entries))
    decreases |entries|
  {
    if entries != [] {
      ReadRenderedEntry(entries[0]);
      assert RenderEntries(entries)[1..] == RenderEntries(entries[1..]);
      PutAllRendered(m[entries[0].0 := entries[0].1], entries[1..]);
    }
  }

  /** A rendered piece never holds `,` when its entry is readable. */
  lemma RenderedEntryFreeOfComma(e: (string, JsonValue))
    requires Readable(e)
    ensures ',' !in RenderEntry(e)
  {
    var r := RenderValue(e.1);
    if e.1.JLong? {
      assert forall i :: 0 <= i < |r| ==> r[i] != ',';
    }
    assert RenderEntry(e) == "\"" + e.0 + "\":" + r;
  }

  lemma Braced(inner: string)
    ensures var json := "{" + inner + "}";
            |json| >= 2 && json[0] == '{' && json[|json| - 1] == '}' && json[1..|json| - 1] == inner
    ensures Trim("{" + inner + "}") == "{" + inner + "}"
  {
    var json := "{" + inner + "}";
    assert json[0] == '{' && json[|json| - 1] == '}';
    assert json[1..|json| - 1] == inner;
    TrimOfTrimmed(json);
  }

  /** Starts with a quote and ends with a character that `trim` keeps. */
  predicate QuoteLed(p: string) {
    p != [] && p[0] == '"' && !IsTrimmable(p[|p| - 1])
  }

  /** A written piece starts with the key's opening quote and ends with a character that
      `trim` keeps. */
  lemma RenderedEntryEnds(e: (string, JsonValue))
    requires e.1.JLong? ==> IsLong(e.1.n)
    ensures QuoteLed(RenderEntry(e))
  {
    var v := RenderValue(e.1);
    assert v != [] && !IsTrimmable(v[|v| - 1]);
    var p := RenderEntry(e);
    assert p == "\"" + e.0 + "\":" + v;
    assert p[|p| - 1] == v[|v| - 1];
  }

  lemma RenderedPartsNonEmpty(entries: seq<(string, JsonValue)>)
    requires forall i :: 0 <= i < |entries| ==> Readable(entries[i])
    ensures forall p <- RenderEntries(entries) :: QuoteLed(p)
  {
    var parts := RenderEntries(entries);
    forall i | 0 <= i < |parts|
      ensures QuoteLed(parts[i])
    {
      RenderedEntryEnds(entries[i]);
    }
  }

  /** A non-empty body starts with the first key's quote and ends with the last value's last
      character. */
  lemma RenderedBodyEnds(entries: seq<(string, JsonValue)>)
    requires entries != []
    requires forall i :: 0 <= i < |entries| ==> Readable(entries[i])
    ensures var inner := Join(RenderEntries(entries), ',');
            inner != [] && !IsTrimmable(inner[0]) && !IsTrimmable(inner[|inner| - 1])
  {
    RenderedPartsNonEmpty(entries);
    JoinNonEmptyEnds(RenderEntries(entries), ',');
  }

  lemma JoinNonEmptyEnds(parts: seq<string>, sep: char)
    requires parts != []
    requires forall p <- parts :: QuoteLed(p)
    ensures var inner := Join(parts, sep); inner != [] && !IsTrimmable(inner[0]) && !IsTrimmable(inner[|inner| - 1])
  {
    var first, last := parts[0], parts[|parts| - 1];
    assert QuoteLed(first) && QuoteLed(last);
    forall i | 0 <= i < |parts|
      ensures parts[i] != []
    {
      assert QuoteLed(parts[i]);
    }
    JoinEnds(parts, sep);
  }

  /** So trimming leaves a non-empty body alone. */
  lemma RenderedBodyTrimmed(entries: seq<(string, JsonValue)>)
    requires entries != []
    requires forall i :: 0 <= i < |entries| ==> Readable(entries[i])
    ensures Trim(Join(RenderEntries(entries), ',')) == Join(RenderEntries(entries), ',')
  {
    RenderedBodyEnds(entries);
    TrimOfTrimmed(Join(RenderEntries(entries), ','));
  }

  /** Round trip: the reader recovers every readable flat object the writer produces. */
  lemma ParseRender(entries: seq<(string, JsonValue)>)
    requires forall i :: 0 <= i < |entries| ==> Readable(entries[i])
    ensures ParseJson(Render(entries)) == Some(ToMap(map[], entries))
  {
    var parts := RenderEntries(entries);
    var inner := Join(parts, ',');
    Braced(inner);
    if entries != [] {
      forall i | 0 <= i < |parts|
        ensures ',' !in parts[i]
      {
        RenderedEntryFreeOfComma(entries[i]);
      }
      RenderedBodyTrimmed(entries);
      assert parts[|parts| - 1] != [];
      SplitJoin(parts, ',');
      PutAllRendered(map[], entries);
    }
  }
}
