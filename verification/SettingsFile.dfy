/** The settings file of src/utils/Config.cpp: reading it, writing it, and the round trip.

    The text of a file is a value; whether it can be opened, and whether the stream stays good
    while it is written, are parameters. */
module SettingsFile {
  import opened Wrappers

  predicate Blank(c: char) { c == ' ' || c == '\t' }

  predicate Comment(line: string) { line != "" && (line[0] == '#' || line[0] == ';') }

  function TrimLeft(s: string): string {
    if s != "" && Blank(s[0]) then TrimLeft(s[1..]) else s
  }

  function TrimRight(s: string): string {
    if s != "" && Blank(s[|s| - 1]) then TrimRight(s[..|s| - 1]) else s
  }

  function Trim(s: string): string { TrimRight(TrimLeft(s)) }

  /** The position of a character, or the length if it does not occur. */
  function Find(s: string, c: char): (pos: nat)
    ensures pos <= |s| && c !in s[..pos]
    ensures pos < |s| ==> s[pos] == c
  {
    if s == "" || s[0] == c then 0
    else
      var rest := Find(s[1..], c);
      assert s[..rest + 1] == [s[0]] + s[1..][..rest];
      rest + 1
  }

  /** Lines end at a newline; text behind the last one is a line too, unless it is empty. */
  function Lines(text: string): seq<string> {
    if text == "" then []
    else
      var pos := Find(text, '\n');
      [text[..pos]] + (if pos == |text| then [] else Lines(text[pos + 1..]))
  }

  function LineLoaded(m: map<string, string>, line: string): map<string, string> {
    var pos := Find(line, '=');
    if line == "" || Comment(line) || pos == |line| then m
    else
      var key, value := Trim(line[..pos]), Trim(line[pos + 1..]);
      if key == "" then m else m[key := value]
  }

  function AllLoaded(m: map<string, string>, lines: seq<string>): map<string, string>
    decreases |lines|
  {
    if lines == [] then m else AllLoaded(LineLoaded(m, lines[0]), lines[1..])
  }

  function Loaded(m: map<string, string>, text: string): map<string, string> {
    AllLoaded(m, Lines(text))
  }

  function Line(key: string, value: string): string { key + " = " + value }

  function Rendered(keys: seq<string>, m: map<string, string>): string
    requires forall k :: k in keys ==> k in m
  {
    if keys == [] then "" else Line(keys[0], m[keys[0]]) + "\n" + Rendered(keys[1..], m)
  }

  /** The order of the keys in the source's map: character by character, a prefix first. */
  predicate Before(a: string, b: string) {
    b != "" && (a == "" || a[0] < b[0] || (a[0] == b[0] && Before(a[1..], b[1..])))
  }

  ghost predicate Ascending(keys: seq<string>) {
    forall i, j :: 0 <= i < j < |keys| ==> Before(keys[i], keys[j])
  }

  lemma {:induction false} BeforeOrder(a: string, b: string, c: string)
    ensures Before(a, b) || a == b || Before(b, a)
    ensures !Before(a, a)
    ensures Before(a, b) && Before(b, c) ==> Before(a, c)
  {
    if a != "" {
      var b' := if b == "" then "" else b[1..];
      var c' := if c == "" then "" else c[1..];
      BeforeOrder(a[1..], b', c');
      assert a == [a[0]] + a[1..];
      if b != "" { assert b == [b[0]] + b[1..]; }
    }
  }

  lemma {:induction false} LeastKey(keys: set<string>) returns (least: string)
    requires keys != {}
    ensures least in keys && forall k :: k in keys ==> k == least || Before(least, k)
    decreases |keys|
  {
    least :| least in keys;
    var rest := keys - {least};
    if rest != {} {
      var other := LeastKey(rest);
      BeforeOrder(least, other, other);
      if Before(other, least) {
        least := other;
      } else {
        forall k | k in keys ensures k == least || Before(least, k) {
          BeforeOrder(least, other, k);
        }
      }
    }
  }

  /** An order in which the entries may be written; the source's is the ascending one. */
  ghost predicate Enumerates(keys: seq<string>, m: map<string, string>) {
    && (forall k :: k in keys <==> k in m)
    && (forall i, j :: 0 <= i < j < |keys| ==> keys[i] != keys[j])
  }

  // ---- The object ----

  /** The settings before any file is read. */
  const DEFAULTS: map<string, string> :=
    map["modbus.host" := "192.168.123.10", "modbus.port" := "8899", "modbus.slave_id" := "11",
        "web.port" := "8080", "dhw.target" := "45.0", "heating.target" := "40.0"]

  class Config {
    var values: map<string, string>

    constructor ()
      ensures values == DEFAULTS
    {
      values := map[];
      new;
      Set("modbus.host", "192.168.123.10");
      Set("modbus.port", "8899");
      Set("modbus.slave_id", "11");
      Set("web.port", "8080");
      Set("dhw.target", "45.0");
      Set("heating.target", "40.0");
    }

    method Set(key: string, value: string)
      modifies this
      ensures values == old(values)[key := value]
    {
      values := values[key := value];
    }

    method TrimText(s: string) returns (trimmed: string)
      ensures trimmed == Trim(s)
    {
      var first := 0;
      while first < |s| && Blank(s[first])
        invariant first <= |s| && TrimLeft(s[first..]) == TrimLeft(s)
      {
        assert s[first..][1..] == s[first + 1..];
        first := first + 1;
      }
      trimmed := s[first..];
      while |trimmed| > 0 && Blank(trimmed[|trimmed| - 1])
        invariant TrimRight(trimmed) == Trim(s)
      {
        trimmed := trimmed[..|trimmed| - 1];
      }
    }

    method LoadLine(line: string)
      modifies this
      ensures values == LineLoaded(old(values), line)
    {
      if line == "" || line[0] == '#' || line[0] == ';' {
        return;
      }
      var pos := Find(line, '=');
      if pos == |line| {
        return;
      }
      var key := TrimText(line[..pos]);
      var value := TrimText(line[pos + 1..]);
      if key != "" {
        Set(key, value);
      }
    }

    /** `None` is a file that cannot be opened. */
    method LoadFromFile(file: Option<string>) returns (ok: bool)
      modifies this
      ensures ok == file.Some?
      ensures values == if ok then Loaded(old(values), file.value) else old(values)
    {
      if file.None? {
        return false;
      }
      var rest := file.value;
      while rest != ""
        invariant Loaded(old(values), file.value) == Loaded(values, rest)
        decreases |rest|
      {
        var pos := Find(rest, '\n');
        ghost var line, tail := rest[..pos], if pos == |rest| then "" else rest[pos + 1..];
        assert Lines(rest) == [line] + Lines(tail);
        assert Lines(rest)[1..] == Lines(tail);
        LoadLine(rest[..pos]);
        rest := if pos == |rest| then "" else rest[pos + 1..];
      }
      ok := true;
    }

    /** One line for each entry, the keys in ascending order. `opens` says whether the file can be
        opened, `good` whether the stream is still good after the last line; `text` is what was
        handed to the stream. */
    method SaveToFile(opens: bool, good: bool) returns (ok: bool, text: Option<string>)
      ensures ok <==> opens && good
      ensures text.Some? <==> opens
      ensures opens ==> exists order ::
                Enumerates(order, values) && Ascending(order) && text == Some(Rendered(order, values))
    {
      if !opens {
        return false, None;
      }
      var lines := RenderAll();
      return good, Some(lines);
    }

    method RenderAll() returns (text: string)
      ensures exists order ::
                Enumerates(order, values) && Ascending(order) && text == Rendered(order, values)
    {
      text := "";
      ghost var order: seq<string> := [];
      var remaining := values.Keys;
      while remaining != {}
        invariant remaining <= values.Keys
        invariant forall k :: k in order <==> k in values && k !in remaining
        invariant forall k, r :: k in order && r in remaining ==> Before(k, r)
        invariant Ascending(order)
        invariant text == Rendered(order, values)
        decreases |remaining|
      {
        ghost var least := LeastKey(remaining);
        var key :| key in remaining && forall k :: k in remaining ==> k == key || Before(key, k);
        RenderedAppend(order, key, values);
        text := text + key + " = " + values[key] + "\n";
        order := order + [key];
        remaining := remaining - {key};
      }
      AscendingDistinct(order);
    }
  }

  lemma AscendingDistinct(keys: seq<string>)
    requires Ascending(keys)
    ensures forall i, j :: 0 <= i < j < |keys| ==> keys[i] != keys[j]
  {
    forall i, j | 0 <= i < j < |keys| ensures keys[i] != keys[j] {
      BeforeOrder(keys[i], keys[j], keys[j]);
    }
  }

  lemma {:induction false} RenderedAppend(keys: seq<string>, key: string, m: map<string, string>)
    requires key in m && forall k :: k in keys ==> k in m
    ensures Rendered(keys + [key], m) == Rendered(keys, m) + key + " = " + m[key] + "\n"
    decreases |keys|
  {
    var longer := keys + [key];
    if keys == [] {
      assert longer[1..] == [];
      assert Rendered(longer, m) == Line(key, m[key]) + "\n" + "";
    } else {
      assert longer[1..] == keys[1..] + [key];
      RenderedAppend(keys[1..], key, m);
    }
  }

  // ---- What loading produces ----

  predicate Trimmed(s: string) { s == "" || (!Blank(s[0]) && !Blank(s[|s| - 1])) }

  /** The entries that loading can produce. */
  predicate Clean(key: string, value: string) {
    key != "" && Trimmed(key) && '=' !in key && '\n' !in key && Trimmed(value) && '\n' !in value
  }

  predicate CleanMap(m: map<string, string>) { forall k :: k in m ==> Clean(k, m[k]) }

  lemma {:induction false} TrimLeftIs(s: string)
    ensures TrimLeft(s) == "" || !Blank(TrimLeft(s)[0])
    ensures forall c :: c in TrimLeft(s) ==> c in s
  {
    if s != "" && Blank(s[0]) { TrimLeftIs(s[1..]); }
  }

  lemma {:induction false} TrimRightIs(s: string)
    ensures TrimRight(s) == "" || !Blank(TrimRight(s)[|TrimRight(s)| - 1])
    ensures TrimRight(s) <= s
  {
    if s != "" && Blank(s[|s| - 1]) { TrimRightIs(s[..|s| - 1]); }
  }

  lemma TrimIs(s: string)
    ensures Trimmed(Trim(s)) && forall c :: c in Trim(s) ==> c in s
  {
    TrimLeftIs(s);
    TrimRightIs(TrimLeft(s));
  }

  lemma LineLoadedClean(m: map<string, string>, line: string)
    requires CleanMap(m) && '\n' !in line
    ensures CleanMap(LineLoaded(m, line))
  {
    var pos := Find(line, '=');
    TrimIs(line[..pos]);
    if pos < |line| { TrimIs(line[pos + 1..]); }
  }

  lemma {:induction false} LinesPlain(text: string)
    ensures forall i :: 0 <= i < |Lines(text)| ==> '\n' !in Lines(text)[i]
  {
    if text != "" {
      var pos := Find(text, '\n');
      if pos < |text| { LinesPlain(text[pos + 1..]); }
    }
  }

  lemma {:induction false} AllLoadedClean(m: map<string, string>, lines: seq<string>)
    requires CleanMap(m) && forall i :: 0 <= i < |lines| ==> '\n' !in lines[i]
    ensures CleanMap(AllLoaded(m, lines))
    decreases |lines|
  {
    hide LineLoaded, CleanMap;
    if lines != [] {
      LineLoadedClean(m, lines[0]);
      AllLoadedClean(LineLoaded(m, lines[0]), lines[1..]);
    }
  }

  lemma LoadedClean(m: map<string, string>, text: string)
    requires CleanMap(m)
    ensures CleanMap(Loaded(m, text))
  {
    LinesPlain(text);
    AllLoadedClean(m, Lines(text));
  }

  // ---- The round trip ----

  lemma {:induction false} FindAfter(a: string, c: char, b: string)
    requires c !in a
    ensures Find(a + [c] + b, c) == |a|
  {
    if a != "" {
      assert (a + [c] + b)[1..] == a[1..] + [c] + b;
      FindAfter(a[1..], c, b);
    }
  }

  lemma TrimSpaces(key: string, value: string)
    requires key != "" && Trimmed(key) && Trimmed(value)
    ensures Trim(key + " ") == key && Trim(" " + value) == value
  {
    var k := key + " ";
    assert k[..|k| - 1] == key;
    assert TrimRight(k) == TrimRight(key) == key;
    var v := " " + value;
    assert v[1..] == value;
    assert TrimLeft(v) == TrimLeft(value) == value;
  }

  lemma LineLoads(m: map<string, string>, key: string, value: string)
    requires Clean(key, value)
    ensures LineLoaded(m, Line(key, value)) == if Comment(key) then m else m[key := value]
  {
    var line := Line(key, value);
    assert line == (key + " ") + ['='] + (" " + value);
    FindAfter(key + " ", '=', " " + value);
    assert line[..|key| + 1] == key + " " && line[|key| + 2..] == " " + value;
    TrimSpaces(key, value);
    assert line[0] == key[0];
  }

  /** The entries that survive being saved: a line that starts with its key's comment mark is skipped. */
  function WithoutComments(m: map<string, string>): map<string, string> {
    map k | k in m && !Comment(k) :: m[k]
  }

  function Part(keys: seq<string>, m: map<string, string>): map<string, string>
    requires forall k :: k in keys ==> k in m
  {
    map k | k in keys && !Comment(k) :: m[k]
  }

  lemma LineThenRest(base: map<string, string>, line: string, rest: string)
    requires '\n' !in line
    ensures Loaded(base, line + "\n" + rest) == Loaded(LineLoaded(base, line), rest)
  {
    var text := line + "\n" + rest;
    FindAfter(line, '\n', rest);
    assert text[..|line|] == line && text[|line| + 1..] == rest;
    assert Lines(text) == [line] + Lines(rest);
    assert Lines(text)[1..] == Lines(rest);
  }

  lemma PartStep(base: map<string, string>, keys: seq<string>, m: map<string, string>)
    requires keys != [] && forall k :: k in keys ==> k in m
    ensures (if Comment(keys[0]) then base else base[keys[0] := m[keys[0]]]) + Part(keys[1..], m) == base + Part(keys, m)
  {}

  lemma {:induction false} RenderedLoads(base: map<string, string>, keys: seq<string>, m: map<string, string>)
    requires CleanMap(m) && forall k :: k in keys ==> k in m
    ensures Loaded(base, Rendered(keys, m)) == base + Part(keys, m)
    decreases |keys|
  {
    if keys == [] {
      assert Part(keys, m) == map[];
    } else {
      var key := keys[0];
      LineThenRest(base, Line(key, m[key]), Rendered(keys[1..], m));
      LineLoads(base, key, m[key]);
      RenderedLoads(LineLoaded(base, Line(key, m[key])), keys[1..], m);
      PartStep(base, keys, m);
    }
  }

  /** Saving and loading: into any settings, a clean map overrides with exactly its entries whose
      key does not look like a comment, whatever order they were written in. */
  lemma RoundTrip(base: map<string, string>, keys: seq<string>, m: map<string, string>)
    requires CleanMap(m) && Enumerates(keys, m)
    ensures Loaded(base, Rendered(keys, m)) == base + WithoutComments(m)
  {
    RenderedLoads(base, keys, m);
    assert Part(keys, m) == WithoutComments(m);
  }

  /** What was itself loaded comes back with exactly the comment-like keys missing. */
  lemma LoadedRoundTrip(text: string, keys: seq<string>)
    requires Enumerates(keys, Loaded(map[], text))
    ensures var m := Loaded(map[], text); Loaded(map[], Rendered(keys, m)) == WithoutComments(m)
  {
    LoadedClean(map[], text);
    RoundTrip(map[], keys, Loaded(map[], text));
  }

  // ---- Files written by hand ----

  predicate AllBlank(s: string) { forall c :: c in s ==> Blank(c) }

  lemma {:induction false} TrimLeftOf(a: string, t: string, b: string)
    requires AllBlank(a) && AllBlank(b) && Trimmed(t)
    ensures TrimLeft(a + t + b) == if t == "" then "" else t + b
    decreases |a| + |b|
  {
    var s := a + t + b;
    if a != "" {
      assert s[0] == a[0] && a[0] in a && s[1..] == a[1..] + t + b;
      TrimLeftOf(a[1..], t, b);
    } else if t == "" && b != "" {
      assert s[0] == b[0] && b[0] in b && s[1..] == "" + t + b[1..];
      TrimLeftOf("", t, b[1..]);
    } else {
      assert s == t + b;
    }
  }

  lemma {:induction false} TrimRightOf(t: string, b: string)
    requires AllBlank(b) && Trimmed(t)
    ensures TrimRight(t + b) == t
    decreases |b|
  {
    var s := t + b;
    if b == "" {
      assert s == t;
    } else {
      var n := |b| - 1;
      assert s[|s| - 1] == b[n] && b[n] in b && s[..|s| - 1] == t + b[..n];
      TrimRightOf(t, b[..n]);
    }
  }

  lemma TrimOf(a: string, t: string, b: string)
    requires AllBlank(a) && AllBlank(b) && Trimmed(t)
    ensures Trim(a + t + b) == t
  {
    TrimLeftOf(a, t, b);
    if t != "" { TrimRightOf(t, b); }
  }

  lemma {:induction false} LeftBlanks(s: string) returns (a: string)
    ensures AllBlank(a) && s == a + TrimLeft(s)
  {
    a := "";
    if s != "" && Blank(s[0]) {
      var rest := LeftBlanks(s[1..]);
      a := [s[0]] + rest;
      assert s == [s[0]] + s[1..];
    }
  }

  lemma {:induction false} RightBlanks(s: string) returns (b: string)
    ensures AllBlank(b) && s == TrimRight(s) + b
  {
    b := "";
    if s != "" && Blank(s[|s| - 1]) {
      var n := |s| - 1;
      var rest := RightBlanks(s[..n]);
      b := rest + [s[n]];
      assert s == s[..n] + [s[n]];
    }
  }

  ghost predicate Wraps(a: string, t: string, b: string, s: string) { AllBlank(a) && AllBlank(b) && s == a + t + b }

  /** Trimming takes off blanks and tabs at both ends, all of them and nothing else. */
  lemma TrimExactly(s: string, t: string)
    ensures t == Trim(s) <==> Trimmed(t) && exists a, b :: Wraps(a, t, b, s)
  {
    if t == Trim(s) {
      TrimIs(s);
      var a := LeftBlanks(s);
      var b := RightBlanks(TrimLeft(s));
      assert s == a + (t + b) == a + t + b;
      assert Wraps(a, t, b, s);
    } else if Trimmed(t) {
      forall a, b ensures !Wraps(a, t, b, s) {
        if Wraps(a, t, b, s) { TrimOf(a, t, b); }
      }
    }
  }

  /** A line that carries an entry: blanks around key and value do not matter, the first delimiter
      separates them, and only a comment mark in the first column makes a comment. */
  lemma EntryLoads(m: map<string, string>, a: string, key: string, b: string, c: string, value: string, d: string)
    requires AllBlank(a) && AllBlank(b) && AllBlank(c) && AllBlank(d)
    requires key != "" && Trimmed(key) && '=' !in key && Trimmed(value)
    requires !Comment(a + key)
    ensures LineLoaded(m, a + key + b + "=" + (c + value + d)) == m[key := value]
  {
    var left, right := a + key + b, c + value + d;
    var line := left + "=" + right;
    forall ch | ch in left ensures ch != '=' {
      if ch in a || ch in b { assert Blank(ch); }
    }
    FindAfter(left, '=', right);
    assert line == left + ['='] + right;
    assert line[..|left|] == left && line[|left| + 1..] == right;
    assert line[0] == (a + key)[0];
    TrimOf(a, key, b);
    TrimOf(c, value, d);
  }

  /** Every other line changes nothing, whatever is loaded already. */
  lemma LineIgnoredExactly(line: string)
    ensures (forall m :: LineLoaded(m, line) == m) <==>
              Comment(line) || '=' !in line || AllBlank(line[..Find(line, '=')])
  {
    var pos := Find(line, '=');
    if pos < |line| {
      assert line[pos] in line;
      TrimExactly(line[..pos], "");
      var key := Trim(line[..pos]);
      if AllBlank(line[..pos]) {
        assert Wraps(line[..pos], "", "", line[..pos]);
      } else if !Comment(line) {
        assert key in LineLoaded(map[], line);
      }
    } else {
      assert line[..pos] == line;
    }
  }

  /** Texts are loaded one after the other, later entries override earlier ones, and a last line
      counts whether or not a newline ends it. */
  lemma {:induction false} LoadConcat(m: map<string, string>, a: string, b: string)
    ensures Loaded(m, a + "\n" + b) == Loaded(Loaded(m, a), b)
    decreases |a|
  {
    hide LineLoaded;
    var pos := Find(a, '\n');
    if pos == |a| {
      assert a[..pos] == a;
      LineThenRest(m, a, b);
      UnendedLine(m, a);
    } else {
      var line, rest := a[..pos], a[pos + 1..];
      assert a == line + "\n" + rest;
      assert a + "\n" + b == line + "\n" + (rest + "\n" + b);
      LineThenRest(m, line, rest);
      LineThenRest(m, line, rest + "\n" + b);
      LoadConcat(LineLoaded(m, line), rest, b);
    }
  }

  /** A text of one line without its newline is that line. */
  lemma UnendedLine(m: map<string, string>, line: string)
    requires '\n' !in line
    ensures Loaded(m, line) == LineLoaded(m, line)
  {
    if line != "" {
      var pos := Find(line, '\n');
      assert line[..pos] == line;
      assert Lines(line) == [line] && [line][1..] == [];
      assert AllLoaded(LineLoaded(m, line), []) == LineLoaded(m, line);
    }
  }

  /** The shortest file: one entry, no blanks, no newline. */
  lemma BareEntryLoads(m: map<string, string>, key: string, value: string)
    requires Storable(key, value)
    ensures Loaded(m, key + "=" + value) == m[key := value]
  {
    var line := key + "=" + value;
    assert line == "" + key + "" + "=" + ("" + value + "");
    assert "" + key == key;
    EntryLoads(m, "", key, "", "", value, "");
    UnendedLine(m, line);
  }

  predicate Storable(key: string, value: string) { Clean(key, value) && !Comment(key) }

  /** A map comes back unchanged if and only if each of its entries is storable. */
  lemma RoundTripExactly(keys: seq<string>, m: map<string, string>)
    requires Enumerates(keys, m)
    ensures Loaded(map[], Rendered(keys, m)) == m <==> forall k :: k in m ==> Storable(k, m[k])
  {
    var back := Loaded(map[], Rendered(keys, m));
    LoadedClean(map[], Rendered(keys, m));
    if CleanMap(m) {
      RoundTrip(map[], keys, m);
      if back == m {
        forall k | k in m ensures Storable(k, m[k]) {
          assert k in WithoutComments(m);
        }
      }
    }
  }

  lemma DefaultsStorable(key: string)
    requires key in DEFAULTS
    ensures Storable(key, DEFAULTS[key])
  {}

  /** The text of a file with two entries, to the letter. */
  lemma TextOfTwo(a: string, b: string)
    requires a != b
    ensures Rendered([a, b], map[a := "1", b := ""]) == a + " = 1\n" + b + " = \n"
  {
    var m: map<string, string> := map[a := "1", b := ""];
    assert [a, b][1..] == [b] && [b][1..] == [];
    assert Rendered([b], m) == b + " = \n";
  }

  /** The settings of a new object, saved and read back, are themselves. */
  lemma DefaultsRoundTrip(keys: seq<string>)
    requires Enumerates(keys, DEFAULTS)
    ensures Loaded(map[], Rendered(keys, DEFAULTS)) == DEFAULTS
  {
    forall k | k in DEFAULTS ensures Storable(k, DEFAULTS[k]) { DefaultsStorable(k); }
    RoundTripExactly(keys, DEFAULTS);
  }
}
