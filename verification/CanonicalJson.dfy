/** The canonical JSON printer of the Go launcher (cmd/deus-aws-bootstrap/main.go, canonicalJSON). */
module CanonicalJson {
  import opened Wrappers
  import Text

  /** A decoded document; numbers keep their literal, objects are unordered. */
  datatype Json =
    | JNull
    | JBool(value: bool)
    | JString(text: string)
    | JNumber(raw: string)
    | JArray(items: seq<Json>)
    | JObject(fields: map<string, Json>)

  const MAX_SAFE_INTEGER := 9007199254740991

  // ---------------------------------------------------------------- strings

  function HexDigit(d: nat): char
    requires d < 16
  {
    if d < 10 then ('0' as int + d) as char else ('a' as int + d - 10) as char
  }

  /** The escapes of Go's encoder without HTML escaping. */
  function EscapeChar(c: char): string {
    if c == '\"' || c == '\\' then ['\\', c]
    else if c == '\U{08}' then "\\b"
    else if c == '\U{0C}' then "\\f"
    else if c == '\n' then "\\n"
    else if c == '\r' then "\\r"
    else if c == '\t' then "\\t"
    else if c < ' ' then "\\u00" + [HexDigit(c as int / 16), HexDigit(c as int % 16)]
    else if c == '\U{2028}' then "\\u2028"
    else if c == '\U{2029}' then "\\u2029"
    else [c]
  }

  function Escape(s: string): string {
    if s == [] then [] else EscapeChar(s[0]) + Escape(s[1..])
  }

  function Quote(s: string): string {
    "\"" + Escape(s) + "\""
  }

  // ---------------------------------------------------------------- the printer as a function

  predicate AcceptsNumber(raw: string) {
    Text.IsMinimalNumeral(raw) && Text.NumeralValue(raw) <= MAX_SAFE_INTEGER
  }

  /** All numbers inside are minimal non-negative integers in the JavaScript safe range. */
  predicate Encodable(v: Json) {
    match v
    case JNumber(raw) => AcceptsNumber(raw)
    case JArray(items) => forall i :: 0 <= i < |items| ==> Encodable(items[i])
    case JObject(fields) => forall k :: k in fields ==> Encodable(fields[k])
    case _ => true
  }

  ghost predicate IsSortedListing(ks: seq<string>, keys: set<string>) {
    Text.StrictlySorted(ks) && forall k :: k in ks <==> k in keys
  }

  /** The keys in order. */
  ghost function SortedListing(keys: set<string>): (ks: seq<string>)
    ensures IsSortedListing(ks, keys)
  {
    SortedListingExists(keys);
    var ks :| IsSortedListing(ks, keys);
    ks
  }

  lemma {:induction false} SortedListingExists(keys: set<string>)
    ensures exists ks :: IsSortedListing(ks, keys)
  {
    var ks := AnyListing(keys);
    Text.SortedStrings(ks);
    assert IsSortedListing(Text.Sort(ks, x => x), keys);
  }

  /** Sorting the keys gives their one sorted listing, whatever order they came in. */
  lemma SortingGivesTheListing(listed: seq<string>, keys: set<string>)
    requires Distinct(listed) && forall k :: k in listed <==> k in keys
    ensures Text.Sort(listed, x => x) == SortedListing(keys)
  {
    Text.SortedStrings(listed);
    Text.SortedListingIsUnique(Text.Sort(listed, x => x), SortedListing(keys));
  }

  lemma {:induction false} AnyListing(keys: set<string>) returns (ks: seq<string>)
    ensures Distinct(ks) && forall k :: k in ks <==> k in keys
  {
    if keys == {} {
      ks := [];
    } else {
      var k :| k in keys;
      ks := AnyListing(keys - {k});
      ks := ks + [k];
    }
  }

  ghost function Encode(v: Json): string
    decreases v, 1
  {
    match v
    case JNull => "null"
    case JBool(value) => if value then "true" else "false"
    case JString(text) => Quote(text)
    case JNumber(raw) => raw
    case JArray(_) => "[" + ItemsFrom(v, 0) + "]"
    case JObject(fields) => "{" + FieldsFrom(v, SortedListing(fields.Keys), 0) + "}"
  }

  /** The items from position i on, each but the first of the array after a comma. */
  ghost function ItemsFrom(v: Json, i: nat): string
    requires v.JArray? && i <= |v.items|
    decreases v, 0, |v.items| - i
  {
    if i == |v.items| then
      ""
    else
      (if i > 0 then "," else "") + Encode(v.items[i]) + ItemsFrom(v, i + 1)
  }

  ghost function FieldsFrom(v: Json, ks: seq<string>, i: nat): string
    requires v.JObject? && i <= |ks| && forall k :: k in ks ==> k in v.fields
    decreases v, 0, |ks| - i
  {
    if i == |ks| then
      ""
    else
      (if i > 0 then "," else "") + Quote(ks[i]) + ":" + Encode(v.fields[ks[i]]) + FieldsFrom(v, ks, i + 1)
  }

  lemma ConcatAssociates(a: string, b: string, c: string, d: string, e: string, f: string)
    ensures a + (b + c + d + e + f) == a + b + c + d + e + f
  {}

  lemma FieldsStep(v: Json, ks: seq<string>, i: nat, before: string)
    requires v.JObject? && i < |ks| && forall k :: k in ks ==> k in v.fields
    ensures ks[i] in ks
    ensures before + FieldsFrom(v, ks, i) ==
            (if i > 0 then before + "," else before) + Quote(ks[i]) + ":" + Encode(v.fields[ks[i]])
              + FieldsFrom(v, ks, i + 1)
  {
    hide Quote, Encode;
    assert ks[i] in ks;
    var comma := if i > 0 then "," else "";
    ConcatAssociates(before, comma, Quote(ks[i]), ":", Encode(v.fields[ks[i]]), FieldsFrom(v, ks, i + 1));
    assert before + comma == if i > 0 then before + "," else before;
  }

  lemma NoFieldsLeft(v: Json, ks: seq<string>)
    requires v.JObject? && forall k :: k in ks ==> k in v.fields
    ensures FieldsFrom(v, ks, |ks|) == ""
  {}

  // ---------------------------------------------------------------- the printer as written

  class CanonicalWriter {
    var output: string

    constructor ()
      ensures output == ""
    {
      output := "";
    }

    method WriteString(text: string)
      modifies this
      ensures output == old(output) + Quote(text)
    {
      output := output + Quote(text);
    }

    /** Appends the canonical form of the value, or fails on an unacceptable number (with part of it written). */
    method WriteValue(current: Json) returns (ok: bool)
      modifies this
      ensures ok <==> Encodable(current)
      ensures ok ==> output == old(output) + Encode(current)
      decreases current, 1
    {
      hide ItemsFrom, FieldsFrom, Quote;
      match current
      case JNull =>
        output := output + "null";
        ok := true;
      case JBool(value) =>
        output := output + if value then "true" else "false";
        ok := true;
      case JString(text) =>
        WriteString(text);
        ok := true;
      case JNumber(raw) =>
        ok := AcceptsNumber(raw);
        if ok {
          output := output + raw;
        }
      case JArray(items) =>
        output := output + "[";
        ok := WriteItems(current);
        output := output + "]";
      case JObject(fields) =>
        output := output + "{";
        ok := WriteFields(current);
        output := output + "}";
    }

    /** The loop of the array case. */
    method WriteItems(current: Json) returns (ok: bool)
      requires current.JArray?
      modifies this
      ensures ok <==> Encodable(current)
      ensures ok ==> output == old(output) + ItemsFrom(current, 0)
      decreases current, 0
    {
      hide Encode;
      for index := 0 to |current.items|
        invariant forall i :: 0 <= i < index ==> Encodable(current.items[i])
        invariant output + ItemsFrom(current, index) == old(output) + ItemsFrom(current, 0)
      {
        ghost var before := output;
        if index > 0 {
          output := output + ",";
        }
        var written := WriteValue(current.items[index]);
        if !written {
          return false;
        }
        assert before + ItemsFrom(current, index) == output + ItemsFrom(current, index + 1);
      }
      ok := true;
    }

    /** The loop of the object case: the keys in any order, then sorted. */
    method WriteFields(current: Json) returns (ok: bool)
      requires current.JObject?
      modifies this
      ensures ok <==> Encodable(current)
      ensures ok ==> output == old(output) + FieldsFrom(current, SortedListing(current.fields.Keys), 0)
      decreases current, 0
    {
      hide Encode, Quote, FieldsFrom, SortedListing, Text.Sort, Distinct, Text.StrictlySorted;
      var listed := ListKeys(current.fields);
      var keys := Text.Sort(listed, x => x);
      SortingGivesTheListing(listed, current.fields.Keys);
      for index := 0 to |keys|
        invariant forall i :: 0 <= i < index ==> Encodable(current.fields[keys[i]])
        invariant output + FieldsFrom(current, keys, index) == old(output) + FieldsFrom(current, keys, 0)
      {
        assert keys[index] in keys;
        FieldsStep(current, keys, index, output);
        if index > 0 {
          output := output + ",";
        }
        WriteString(keys[index]);
        output := output + ":";
        var written := WriteValue(current.fields[keys[index]]);
        if !written {
          return false;
        }
      }
      NoFieldsLeft(current, keys);
      ok := true;
    }

    /** The keys in whatever order the map is iterated. */
    static method ListKeys(fields: map<string, Json>) returns (keys: seq<string>)
      ensures Distinct(keys) && forall k :: k in keys <==> k in fields
    {
      keys := [];
      var left := fields.Keys;
      while left != {}
        invariant Distinct(keys) && left <= fields.Keys
        invariant forall k :: k in keys <==> k in fields && k !in left
      {
        var key :| key in left;
        keys := keys + [key];
        left := left - {key};
      }
    }
  }

  /** The canonical bytes, or nothing for a value the printer rejects. */
  method Canonical(v: Json) returns (result: Option<string>)
    ensures result == if Encodable(v) then Some(Encode(v)) else None
  {
    var writer := new CanonicalWriter();
    var ok := writer.WriteValue(v);
    assert "" + Encode(v) == Encode(v);
    result := if ok then Some(writer.output) else None;
  }

  // ---------------------------------------------------------------- injectivity

  predicate StartsWithDigit(s: string) {
    s != [] && Text.IsDigit(s[0])
  }

  lemma HexDigitInjective(d: nat, e: nat)
    requires d < 16 && e < 16 && HexDigit(d) == HexDigit(e)
    ensures d == e
  {}

  predicate IsControlEscape(c: char) {
    c < ' ' && c !in {'\U{08}', '\U{0C}', '\n', '\r', '\t'}
  }

  lemma EscapeCharInjective(c: char, d: char)
    requires EscapeChar(c) == EscapeChar(d)
    ensures c == d
  {
    var u, w := EscapeChar(c), EscapeChar(d);
    assert u[0] == w[0];
    if |u| >= 2 {
      assert u[1] == w[1];
    }
    if |u| == 6 {
      assert u[2] == w[2] && u[4] == w[4] && u[5] == w[5];
      if IsControlEscape(c) {
        assert u[4] == HexDigit(c as int / 16) && u[5] == HexDigit(c as int % 16);
        assert w[4] == HexDigit(d as int / 16) && w[5] == HexDigit(d as int % 16);
        HexDigitInjective(c as int / 16, d as int / 16);
        HexDigitInjective(c as int % 16, d as int % 16);
        assert c as int == d as int;
      }
    }
  }

  /** The escape code is prefix-free and never starts with a quote. */
  lemma EscapeCharUnique(c: char, d: char, x: string, y: string)
    requires EscapeChar(c) + x == EscapeChar(d) + y
    ensures c == d && x == y
  {
    var u, w := EscapeChar(c), EscapeChar(d);
    assert (u + x)[0] == u[0] && (w + y)[0] == w[0];
    if u[0] == '\\' {
      assert (u + x)[1] == u[1] && (w + y)[1] == w[1];
      if u[1] == 'u' {
        assert forall i :: 2 <= i < 6 ==> (u + x)[i] == u[i] && (w + y)[i] == w[i];
      }
    }
    assert |u| == |w|;
    assert u == (u + x)[..|u|] && w == (w + y)[..|w|];
    SameHead(u, x, y);
    EscapeCharInjective(c, d);
  }

  /** Reading off the front: equal strings with equally long heads have equal tails. */
  lemma SameHead(h: string, r: string, s: string)
    requires h + r == h + s
    ensures r == s
  {
    assert r == (h + r)[|h|..] && s == (h + s)[|h|..];
  }

  lemma EscapeCharStart(c: char)
    ensures EscapeChar(c) != "" && EscapeChar(c)[0] != '\"'
  {}

  lemma EscapeHead(s: string, r: string)
    requires s != []
    ensures Escape(s) + r == EscapeChar(s[0]) + (Escape(s[1..]) + r)
    ensures (Escape(s) + r)[0] != '\"'
  {
    hide EscapeChar;
    EscapeCharStart(s[0]);
    var head, rest := EscapeChar(s[0]), Escape(s[1..]);
    assert Escape(s) == head + rest;
    assert (head + rest) + r == head + (rest + r);
    assert (head + (rest + r))[0] == head[0];
  }

  lemma {:induction false} EscapeUnique(s: string, t: string, x: string, y: string)
    requires Escape(s) + ("\"" + x) == Escape(t) + ("\"" + y)
    ensures s == t && x == y
  {
    hide EscapeChar;
    var endS, endT := "\"" + x, "\"" + y;
    if s != [] {
      EscapeHead(s, endS);
    }
    if t != [] {
      EscapeHead(t, endT);
    }
    assert Escape([]) + endS == endS && Escape([]) + endT == endT;
    if s == [] || t == [] {
      SameHead("\"", x, y);
    } else {
      EscapeCharUnique(s[0], t[0], Escape(s[1..]) + endS, Escape(t[1..]) + endT);
      EscapeUnique(s[1..], t[1..], x, y);
      assert s == [s[0]] + s[1..] && t == [t[0]] + t[1..];
    }
  }

  lemma QuoteHead(s: string, x: string)
    ensures Quote(s) + x == "\"" + (Escape(s) + ("\"" + x))
  {
    hide Escape;
  }

  lemma QuoteUnique(s: string, t: string, x: string, y: string)
    requires Quote(s) + x == Quote(t) + y
    ensures s == t && x == y
  {
    hide Escape;
    QuoteHead(s, x);
    QuoteHead(t, y);
    SameHead("\"", Escape(s) + ("\"" + x), Escape(t) + ("\"" + y));
    EscapeUnique(s, t, x, y);
  }

  function DigitSpan(s: string): nat {
    if s != "" && Text.IsDigit(s[0]) then DigitSpan(s[1..]) + 1 else 0
  }

  lemma {:induction false} SpanOfNumber(a: string, x: string)
    requires Text.AllDigits(a) && !StartsWithDigit(x)
    ensures DigitSpan(a + x) == |a|
  {
    if a == "" {
      assert a + x == x;
    } else {
      assert (a + x)[1..] == a[1..] + x;
      SpanOfNumber(a[1..], x);
    }
  }

  /** Digits end where no digit follows. */
  lemma NumberUnique(a: string, b: string, x: string, y: string)
    requires Text.AllDigits(a) && Text.AllDigits(b) && !StartsWithDigit(x) && !StartsWithDigit(y)
    requires a + x == b + y
    ensures a == b && x == y
  {
    SpanOfNumber(a, x);
    SpanOfNumber(b, y);
    assert a == (a + x)[..|a|] && b == (b + y)[..|b|];
    SameHead(a, x, y);
  }

  /** The first character tells the kind of a value, and is none of the closing or separating characters. */
  function KindOf(v: Json): char {
    match v
    case JNull => 'n'
    case JBool(value) => if value then 't' else 'f'
    case JString(_) => '\"'
    case JNumber(_) => '0'
    case JArray(_) => '['
    case JObject(_) => '{'
  }

  lemma FirstCharacter(v: Json)
    requires Encodable(v)
    ensures Encode(v) != ""
    ensures var c := Encode(v)[0]; if Text.IsDigit(c) then v.JNumber? else KindOf(v) == c
  {}

  /**
   The printer is uniquely decodable in context: what two canonical forms followed by non-digits have in common
   as strings they have in common as values.
   */
  lemma {:induction false} EncodeUnique(a: Json, b: Json, x: string, y: string)
    requires Encodable(a) && Encodable(b) && !StartsWithDigit(x) && !StartsWithDigit(y)
    requires Encode(a) + x == Encode(b) + y
    ensures a == b && x == y
    decreases a, 1
  {
    hide Quote, ItemsFrom, FieldsFrom;
    FirstCharacter(a);
    FirstCharacter(b);
    var u, w := Encode(a), Encode(b);
    assert (u + x)[0] == u[0] && (w + y)[0] == w[0];
    match a {
      case JString(text) => QuoteUnique(text, b.text, x, y);
      case JNumber(raw) => NumberUnique(raw, b.raw, x, y);
      case JArray(_) =>
        assert u + x == "[" + (ItemsFrom(a, 0) + ("]" + x)) && w + y == "[" + (ItemsFrom(b, 0) + ("]" + y));
        SameHead("[", ItemsFrom(a, 0) + ("]" + x), ItemsFrom(b, 0) + ("]" + y));
        ItemsUnique(a, b, 0, x, y);
      case JObject(_) =>
        var ka, kb := SortedListing(a.fields.Keys), SortedListing(b.fields.Keys);
        assert u + x == "{" + (FieldsFrom(a, ka, 0) + ("}" + x)) && w + y == "{" + (FieldsFrom(b, kb, 0) + ("}" + y));
        SameHead("{", FieldsFrom(a, ka, 0) + ("}" + x), FieldsFrom(b, kb, 0) + ("}" + y));
        FieldsUnique(a, b, ka, kb, 0, x, y);
      case _ =>
        assert u == w;
        SameHead(u, x, y);
    }
  }

  /** A comma before every element but the first. */
  function Separator(i: nat): string {
    if i > 0 then "," else ""
  }

  lemma ItemsHead(v: Json, i: nat, r: string)
    requires v.JArray? && Encodable(v) && i < |v.items| && r != "" && !StartsWithDigit(r)
    ensures ItemsFrom(v, i) + r == Separator(i) + (Encode(v.items[i]) + (ItemsFrom(v, i + 1) + r))
    ensures (ItemsFrom(v, i) + r)[0] != ']'
    ensures !StartsWithDigit(ItemsFrom(v, i + 1) + r)
  {
    hide Encode;
    FirstCharacter(v.items[i]);
    var head, rest := Encode(v.items[i]), ItemsFrom(v, i + 1);
    assert ItemsFrom(v, i) == Separator(i) + head + rest;
    assert Separator(i) + head + rest + r == Separator(i) + (head + (rest + r));
    assert i == 0 ==> (head + (rest + r))[0] == head[0];
    assert i + 1 < |v.items| ==> (rest + r)[0] == ',';
    assert i + 1 == |v.items| ==> rest + r == r;
  }

  lemma {:induction false} ItemsUnique(a: Json, b: Json, i: nat, x: string, y: string)
    requires a.JArray? && b.JArray? && Encodable(a) && Encodable(b)
    requires i <= |a.items| && i <= |b.items| && a.items[..i] == b.items[..i]
    requires ItemsFrom(a, i) + ("]" + x) == ItemsFrom(b, i) + ("]" + y)
    ensures a == b && x == y
    decreases a, 0, |a.items| - i
  {
    hide Encode;
    var endA, endB := "]" + x, "]" + y;
    if i < |a.items| {
      ItemsHead(a, i, endA);
    }
    if i < |b.items| {
      ItemsHead(b, i, endB);
    }
    if i == |a.items| || i == |b.items| {
      assert "" + endA == endA && "" + endB == endB;
      SameHead("]", x, y);
      assert a.items[..i] == a.items && b.items[..i] == b.items;
    } else {
      var restA, restB := ItemsFrom(a, i + 1) + endA, ItemsFrom(b, i + 1) + endB;
      SameHead(Separator(i), Encode(a.items[i]) + restA, Encode(b.items[i]) + restB);
      EncodeUnique(a.items[i], b.items[i], restA, restB);
      ItemsUnique(a, b, i + 1, x, y);
    }
  }

  lemma FieldsHead(v: Json, ks: seq<string>, i: nat, r: string)
    requires v.JObject? && i < |ks| && (forall k :: k in ks ==> k in v.fields) && r != "" && !StartsWithDigit(r)
    ensures ks[i] in v.fields
    ensures FieldsFrom(v, ks, i) + r ==
            Separator(i) + (Quote(ks[i]) + (":" + (Encode(v.fields[ks[i]]) + (FieldsFrom(v, ks, i + 1) + r))))
    ensures (FieldsFrom(v, ks, i) + r)[0] != '}'
    ensures !StartsWithDigit(FieldsFrom(v, ks, i + 1) + r)
  {
    hide Encode, Escape;
    assert ks[i] in ks;
    var key, value, rest := Quote(ks[i]), Encode(v.fields[ks[i]]), FieldsFrom(v, ks, i + 1);
    assert FieldsFrom(v, ks, i) == Separator(i) + key + ":" + value + rest;
    ConcatAssociatesRight(Separator(i), key, ":", value, rest, r);
    assert i + 1 < |ks| ==> (rest + r)[0] == ',';
    assert i + 1 == |ks| ==> rest + r == r;
  }

  lemma ConcatAssociatesRight(a: string, b: string, c: string, d: string, e: string, f: string)
    ensures a + b + c + d + e + f == a + (b + (c + (d + (e + f))))
  {}

  lemma {:induction false} FieldsUnique(a: Json, b: Json, ka: seq<string>, kb: seq<string>, i: nat, x: string,
                                        y: string)
    requires a.JObject? && b.JObject?
    requires forall k :: k in a.fields ==> Encodable(a.fields[k])
    requires forall k :: k in b.fields ==> Encodable(b.fields[k])
    requires IsSortedListing(ka, a.fields.Keys) && IsSortedListing(kb, b.fields.Keys)
    requires i <= |ka| && i <= |kb| && ka[..i] == kb[..i]
    requires forall j :: 0 <= j < i ==> ka[j] in a.fields && ka[j] in b.fields && a.fields[ka[j]] == b.fields[ka[j]]
    requires FieldsFrom(a, ka, i) + ("}" + x) == FieldsFrom(b, kb, i) + ("}" + y)
    ensures a == b && x == y
    decreases a, 0, |ka| - i
  {
    hide Encode, Quote, FieldsFrom, Encodable, Text.StrictlySorted;
    var endA, endB := "}" + x, "}" + y;
    NoFieldsLeft(a, ka);
    NoFieldsLeft(b, kb);
    if i < |ka| {
      FieldsHead(a, ka, i, endA);
    }
    if i < |kb| {
      FieldsHead(b, kb, i, endB);
    }
    if i == |ka| || i == |kb| {
      assert "" + endA == endA && "" + endB == endB;
      SameHead("}", x, y);
      assert ka[..i] == ka && kb[..i] == kb;
      SameFields(a.fields, b.fields, ka);
    } else {
      var restA, restB := FieldsFrom(a, ka, i + 1) + endA, FieldsFrom(b, kb, i + 1) + endB;
      var valueA, valueB := Encode(a.fields[ka[i]]) + restA, Encode(b.fields[kb[i]]) + restB;
      SameHead(Separator(i), Quote(ka[i]) + (":" + valueA), Quote(kb[i]) + (":" + valueB));
      QuoteUnique(ka[i], kb[i], ":" + valueA, ":" + valueB);
      SameHead(":", valueA, valueB);
      EncodeUnique(a.fields[ka[i]], b.fields[kb[i]], restA, restB);
      FieldsUnique(a, b, ka, kb, i + 1, x, y);
    }
  }

  lemma SameFields(f: map<string, Json>, g: map<string, Json>, ks: seq<string>)
    requires forall k :: k in ks <==> k in f.Keys
    requires forall k :: k in ks <==> k in g.Keys
    requires forall j :: 0 <= j < |ks| ==> f[ks[j]] == g[ks[j]]
    ensures f == g
  {
    forall k | k in f
      ensures k in g && f[k] == g[k]
    {
      assert k in ks;
    }
    assert f.Keys == g.Keys;
  }

  /** Two accepted documents with the same canonical bytes are the same value, objects being unordered. */
  lemma CanonicalIsInjective(a: Json, b: Json)
    requires Encodable(a) && Encodable(b) && Encode(a) == Encode(b)
    ensures a == b
  {
    assert Encode(a) + "" == Encode(b) + "";
    EncodeUnique(a, b, "", "");
  }

  /** Accepted numbers are equal exactly when their literals are: 0, 1, ... have one spelling each. */
  lemma NumbersHaveOneSpelling(a: string, b: string)
    requires AcceptsNumber(a) && AcceptsNumber(b)
    ensures Text.NumeralValue(a) == Text.NumeralValue(b) <==> a == b
  {
    Text.MinimalNumeralIsDecimal(a);
    Text.MinimalNumeralIsDecimal(b);
  }

  /** Why the trailing context matters: a number alone does not delimit itself. */
  lemma NumbersAreNotPrefixFree()
    ensures AcceptsNumber("1") && AcceptsNumber("12") && Encode(JNumber("1")) + "2" == Encode(JNumber("12")) + ""
  {
    assert Text.NumeralValue("1") == Text.NumeralValue("1"[..0]) * 10 + 1;
    assert "12"[..1] == "1";
    assert "1" + "2" == "12" + "";
  }

  // ---------------------------------------------------------------- the text of a value

  /** Texts with commas between them. */
  function Joined(texts: seq<string>): string {
    if texts == [] then ""
    else if |texts| == 1 then texts[0]
    else texts[0] + "," + Joined(texts[1..])
  }

  /** The canonical text by the form of the value; the members of an object stand in the order of their keys. */
  ghost predicate IsTextOf(v: Json, text: string) {
    match v
    case JNull => text == "null"
    case JBool(value) => text == if value then "true" else "false"
    case JString(s) => text == "\"" + Escape(s) + "\""
    case JNumber(raw) => text == raw
    case JArray(items) =>
      exists texts: seq<string> :: && |texts| == |items| && text == "[" + Joined(texts) + "]"
                                   && forall i :: 0 <= i < |items| ==> IsTextOf(items[i], texts[i])
    case JObject(fields) =>
      exists ks: seq<string>, texts: seq<string>, members: seq<string> ::
        && AreMembers(fields.Keys, ks, texts, members) && text == "{" + Joined(members) + "}"
        && forall i :: 0 <= i < |ks| ==> ks[i] in fields && IsTextOf(fields[ks[i]], texts[i])
  }

  /** The members of an object, in the order of its keys, with the texts of their values. */
  ghost predicate AreMembers(keys: set<string>, ks: seq<string>, texts: seq<string>, members: seq<string>) {
    && |members| == |texts| == |ks|
    && (forall i, j :: 0 <= i < j < |ks| ==> Text.IsBefore(ks[i], ks[j])) && (forall k :: k in ks <==> k in keys)
    && forall i :: 0 <= i < |ks| ==> members[i] == "\"" + Escape(ks[i]) + "\":" + texts[i]
  }

  /** What the printer writes is the text of the value. */
  lemma {:induction false} EncodeIsText(v: Json)
    ensures IsTextOf(v, Encode(v))
    decreases v
  {
    match v
    case JArray(items) =>
      forall i | 0 <= i < |items|
        ensures IsTextOf(items[i], Encode(items[i]))
      {
        EncodeIsText(items[i]);
      }
      ArrayText(v);
    case JObject(fields) =>
      forall k | k in fields
        ensures IsTextOf(fields[k], Encode(fields[k]))
      {
        EncodeIsText(fields[k]);
      }
      ObjectText(v);
    case JNull =>
    case JBool(_) =>
    case JString(_) =>
    case JNumber(_) =>
  }

  lemma ArrayText(v: Json)
    requires v.JArray? && forall i :: 0 <= i < |v.items| ==> IsTextOf(v.items[i], Encode(v.items[i]))
    ensures IsTextOf(v, Encode(v))
  {
    var texts := seq(|v.items|, i requires 0 <= i < |v.items| => Encode(v.items[i]));
    ItemsAreJoined(v, 0, texts);
    assert texts[0..] == texts;
    assert Encode(v) == "[" + Joined(texts) + "]";
  }

  lemma {:induction false} ItemsAreJoined(v: Json, i: nat, texts: seq<string>)
    requires v.JArray? && i <= |v.items| == |texts| && forall j :: 0 <= j < |texts| ==> texts[j] == Encode(v.items[j])
    ensures ItemsFrom(v, i) == if i == |texts| then "" else if i ==
              0 then Joined(texts[i..]) else "," + Joined(texts[i..])
    decreases |v.items| - i
  {
    if i < |texts| {
      ItemsAreJoined(v, i + 1, texts);
      assert texts[i..][0] == texts[i] && texts[i..][1..] == texts[i + 1..];
    }
  }

  lemma ObjectText(v: Json)
    requires v.JObject? && forall k :: k in v.fields ==> IsTextOf(v.fields[k], Encode(v.fields[k]))
    ensures IsTextOf(v, Encode(v))
  {
    hide Escape, Text.Less, AreMembers, Encode, SortedListing, Joined;
    var ks := SortedListing(v.fields.Keys);
    var texts := seq(|ks|, i requires 0 <= i < |ks| => MemberValue(v, ks[i]));
    var members := seq(|ks|, i requires 0 <= i < |ks| => Quote(ks[i]) + ":" + MemberValue(v, ks[i]));
    MembersInOrder(v, ks, texts, members);
    FieldsAreJoined(v, ks, 0, members);
    assert members[0..] == members;
    assert ks == [] ==> Joined(members) == "" by { NothingJoined(members); }
    ObjectInBraces(v);
    forall i | 0 <= i < |ks|
      ensures ks[i] in v.fields && IsTextOf(v.fields[ks[i]], texts[i])
    {
      assert ks[i] in ks;
    }
  }

  lemma NothingJoined(texts: seq<string>)
    ensures texts == [] ==> Joined(texts) == ""
  {}

  lemma ObjectInBraces(v: Json)
    requires v.JObject?
    ensures Encode(v) == "{" + FieldsFrom(v, SortedListing(v.fields.Keys), 0) + "}"
  {
    hide SortedListing;
  }

  lemma MembersInOrder(v: Json, ks: seq<string>, texts: seq<string>, members: seq<string>)
    requires v.JObject? && IsSortedListing(ks, v.fields.Keys) && |texts| == |members| == |ks|
    requires forall i :: 0 <= i < |ks| ==>
               texts[i] == MemberValue(v, ks[i]) && members[i] == Quote(ks[i]) + ":" + MemberValue(v, ks[i])
    ensures AreMembers(v.fields.Keys, ks, texts, members)
  {
    hide Escape, Text.Less, MemberValue, Text.IsBefore;
    forall i, j | 0 <= i < j < |ks|
      ensures Text.IsBefore(ks[i], ks[j])
    {
      Text.LessIsBefore(ks[i], ks[j]);
    }
    forall i | 0 <= i < |ks|
      ensures members[i] == "\"" + Escape(ks[i]) + "\":" + texts[i]
    {
      ColonAfterQuote(Escape(ks[i]), texts[i]);
    }
  }

  lemma ColonAfterQuote(escaped: string, text: string)
    ensures ("\"" + escaped + "\"") + ":" + text == "\"" + escaped + "\":" + text
  {}

  ghost function MemberValue(v: Json, key: string): string
    requires v.JObject?
  {
    if key in v.fields then Encode(v.fields[key]) else ""
  }

  lemma {:induction false} FieldsAreJoined(v: Json, ks: seq<string>, i: nat, members: seq<string>)
    requires v.JObject? && i <= |ks| == |members| && forall k :: k in ks ==> k in v.fields
    requires forall j :: 0 <= j < |ks| ==> members[j] == Quote(ks[j]) + ":" + MemberValue(v, ks[j])
    ensures FieldsFrom(v, ks, i) ==
            if i == |ks| then "" else if i == 0 then Joined(members[i..]) else "," + Joined(members[i..])
    decreases |ks| - i
  {
    hide Quote, Encode;
    if i < |ks| {
      FieldsAreJoined(v, ks, i + 1, members);
      assert ks[i] in ks;
      assert members[i..][0] == members[i] && members[i..][1..] == members[i + 1..];
    }
  }

  /** The numbers that are accepted are the numerals up to the largest safe integer. */
  lemma AcceptedNumbers(raw: string)
    ensures AcceptsNumber(raw) <==> exists n: nat :: n <= 9_007_199_254_740_991 && raw == Text.Decimal(n)
  {
    hide Text.Decimal, Text.NumeralValue;
    if AcceptsNumber(raw) {
      Text.MinimalNumeralIsDecimal(raw);
      assert raw == Text.Decimal(Text.NumeralValue(raw));
    }
    if n: nat :| n <= 9_007_199_254_740_991 && raw == Text.Decimal(n) {
      Text.DecimalRoundTrip(n);
    }
  }

  /** Strings are escaped character by character. */
  lemma {:induction false} EscapeParts(a: string, b: string)
    ensures Escape(a + b) == Escape(a) + Escape(b)
  {
    hide EscapeChar;
    if a == "" {
      assert a + b == b;
    } else {
      EscapeParts(a[1..], b);
      assert (a + b)[1..] == a[1..] + b && (a + b)[0] == a[0];
      Associates(EscapeChar(a[0]), Escape(a[1..]), Escape(b));
    }
  }

  lemma Associates(a: string, b: string, c: string)
    ensures a + (b + c) == (a + b) + c
  {}

  lemma OneCharacter(c: char)
    ensures Escape([c]) == EscapeChar(c)
  {
    assert [c][1..] == "" && Escape("") == "";
  }

  /** The escapes in use: the short ones, hexadecimal ones for other control characters, and the two line separators. */
  lemma Escapes()
    ensures Escape("\"") == "\\\"" && Escape("\\") == "\\\\" && Escape("\n") == "\\n" && Escape("\r") == "\\r"
    ensures Escape("\t") == "\\t" && Escape("\U{08}") == "\\b" && Escape("\U{0C}") == "\\f"
    ensures Escape("\U{00}") == "\\u0000" && Escape("\U{1F}") == "\\u001f"
    ensures Escape("\U{2028}") == "\\u2028" && Escape("\U{2029}") == "\\u2029"
    ensures forall c :: c >= ' ' && c !in "\"\\\U{2028}\U{2029}" ==> Escape([c]) == [c]
  {
    OneCharacter('\"'); OneCharacter('\\'); OneCharacter('\n'); OneCharacter('\r'); OneCharacter('\t');
    OneCharacter('\U{08}'); OneCharacter('\U{0C}'); OneCharacter('\U{00}'); OneCharacter('\U{1F}');
    OneCharacter('\U{2028}'); OneCharacter('\U{2029}');
    forall c | c >= ' ' && c !in "\"\\\U{2028}\U{2029}"
      ensures Escape([c]) == [c]
    {
      OneCharacter(c);
    }
  }
}
