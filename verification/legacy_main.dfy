/**
 * The stand-alone server program in main.go: its YAML pretty-printer, its
 * two loaders and the theme resolution done at start-up. Output is a list
 * of lines instead of text on stdout; Go's map iteration order is the
 * `iter` parameter, which lists the keys of a map in some order.
 */
module LegacyMain {
  import opened Paths
  import opened FileSystem
  import opened SiteConfig

  /** A string of `n` spaces. */
  function Spaces(n: nat): (s: string)
    ensures |s| == n && forall i | 0 <= i < |s| :: s[i] == ' '
  {
    if n == 0 then "" else Spaces(n - 1) + " "
  }

  function Digit(d: nat): char
    requires d < 10
  {
    "0123456789"[d]
  }

  /** fmt's %d of a natural number. */
  function Decimal(n: nat): (s: string)
    ensures |s| >= 1 && forall i | 0 <= i < |s| :: '0' <= s[i] <= '9'
    decreases n
  {
    if n < 10 then [Digit(n)] else Decimal(n / 10) + [Digit(n % 10)]
  }

  /** The key a list item is printed under: "[0]", "[1]", ... */
  function ItemKey(i: nat): string {
    "[" + Decimal(i) + "]"
  }

  /** The order in which a `range` over a map with keys `keys` meets them. */
  type KeyOrder = set<string> -> seq<string>

  /** `order` lists every key of `keys` exactly once. */
  predicate Enumerates(order: seq<string>, keys: set<string>) {
    && (forall i, j | 0 <= i < j < |order| :: order[i] != order[j])
    && (forall k | k in order :: k in keys)
    && (forall k | k in keys :: k in order)
  }

  /**
   * The strings printYAML(key, value, indent) prints, one per Printf call
   * (without its "\n"): the key's own line first, then the nested values.
   */
  function YamlLines(key: string, value: Yaml, indent: nat, iter: KeyOrder): (lines: seq<string>)
    ensures |lines| >= 1
    ensures value.Str? || value.Scalar? ==> |lines| == 1
    decreases value, 1
  {
    var pad := Spaces(2 * indent);
    match value
    case Mapping(fields) => [pad + key + ":"] + FieldLines(fields, iter(fields.Keys), indent + 1, iter)
    case StringMap(pairs) => [pad + key + ":"] + PairLines(pairs, iter(pairs.Keys), pad)
    case Sequence(items) => [pad + key + ":"] + ItemLines(items, |items|, indent + 1, iter)
    case Str(s) => [pad + key + ": " + s]
    case Scalar(text) => [pad + key + ": " + text]
  }

  /** The recursive calls for the entries of a map[string]interface{}, met in the order `keys`. */
  function FieldLines(fields: map<string, Yaml>, keys: seq<string>, indent: nat, iter: KeyOrder): seq<string>
    decreases Mapping(fields), 0, |keys|
  {
    if keys == [] then []
    else
      var k := keys[|keys| - 1];
      FieldLines(fields, keys[..|keys| - 1], indent, iter) +
      (if k in fields then YamlLines(k, fields[k], indent, iter) else [])
  }

  /** The entry lines of a map[string]string: no recursion, two more spaces than the key line. */
  function PairLines(pairs: map<string, string>, keys: seq<string>, pad: string): seq<string> {
    if keys == [] then []
    else
      var k := keys[|keys| - 1];
      PairLines(pairs, keys[..|keys| - 1], pad) + (if k in pairs then [pad + "  " + k + ": " + pairs[k]] else [])
  }

  /** The recursive calls for the first `n` items of a list. */
  function ItemLines(items: seq<Yaml>, n: nat, indent: nat, iter: KeyOrder): seq<string>
    requires n <= |items|
    decreases Sequence(items), 0, n
  {
    if n == 0 then []
    else ItemLines(items, n - 1, indent, iter) + YamlLines(ItemKey(n - 1), items[n - 1], indent, iter)
  }

  /** pad := ""; for i := 0; i < indent; i++ { pad += "  " } */
  method Pad(indent: nat) returns (pad: string)
    ensures |pad| == 2 * indent && forall i | 0 <= i < |pad| :: pad[i] == ' '
  {
    pad := "";
    var i := 0;
    while i < indent
      invariant 0 <= i <= indent
      invariant |pad| == 2 * i && forall j | 0 <= j < |pad| :: pad[j] == ' '
    {
      pad := pad + "  ";
      i := i + 1;
    }
  }

  /** printYAML, collecting the printed lines. */
  method PrintYaml(key: string, value: Yaml, indent: nat, iter: KeyOrder) returns (lines: seq<string>)
    ensures lines == YamlLines(key, value, indent, iter)
    ensures value.Str? ==> lines == [Spaces(2 * indent) + key + ": " + value.s]
    ensures value.Scalar? ==> lines == [Spaces(2 * indent) + key + ": " + value.text]
    decreases value, 1
  {
    var pad := Pad(indent);
    assert pad == Spaces(2 * indent);
    match value {
      case Mapping(fields) =>
        var nested := PrintFields(fields, indent + 1, iter);
        lines := [pad + key + ":"] + nested;
      case StringMap(pairs) =>
        var entries := PrintPairs(pairs, pad, iter);
        lines := [pad + key + ":"] + entries;
      case Sequence(items) =>
        var nested := PrintItems(items, indent + 1, iter);
        lines := [pad + key + ":"] + nested;
      case Str(s) =>
        lines := [pad + key + ": " + s];
      case Scalar(text) =>
        lines := [pad + key + ": " + text];
    }
  }

  /** The loop over a map[string]interface{}, recursing into each value. */
  method PrintFields(fields: map<string, Yaml>, indent: nat, iter: KeyOrder) returns (lines: seq<string>)
    ensures lines == FieldLines(fields, iter(fields.Keys), indent, iter)
    decreases Mapping(fields), 0
  {
    var keys := iter(fields.Keys);
    lines := [];
    var i := 0;
    while i < |keys|
      invariant 0 <= i <= |keys|
      invariant lines == FieldLines(fields, keys[..i], indent, iter)
    {
      var k := keys[i];
      assert keys[..i + 1][..i] == keys[..i];
      if k in fields {
        var nested := PrintYaml(k, fields[k], indent, iter);
        lines := lines + nested;
      }
      i := i + 1;
    }
    assert keys[..|keys|] == keys;
  }

  /** The loop over a map[string]string: one line per entry, no recursion. */
  method PrintPairs(pairs: map<string, string>, pad: string, iter: KeyOrder) returns (lines: seq<string>)
    ensures lines == PairLines(pairs, iter(pairs.Keys), pad)
  {
    var keys := iter(pairs.Keys);
    lines := [];
    var i := 0;
    while i < |keys|
      invariant 0 <= i <= |keys|
      invariant lines == PairLines(pairs, keys[..i], pad)
    {
      var k := keys[i];
      assert keys[..i + 1][..i] == keys[..i];
      if k in pairs {
        lines := lines + [pad + "  " + k + ": " + pairs[k]];
      }
      i := i + 1;
    }
    assert keys[..|keys|] == keys;
  }

  /** The loop over a list, printing item i under the key "[i]". */
  method PrintItems(items: seq<Yaml>, indent: nat, iter: KeyOrder) returns (lines: seq<string>)
    ensures lines == ItemLines(items, |items|, indent, iter)
    decreases Sequence(items), 0
  {
    lines := [];
    var i := 0;
    while i < |items|
      invariant 0 <= i <= |items|
      invariant lines == ItemLines(items, i, indent, iter)
    {
      var nested := PrintYaml(ItemKey(i), items[i], indent, iter);
      lines := lines + nested;
      i := i + 1;
    }
  }

  /** The number a string of decimal digits denotes. */
  function DigitsValue(s: string): nat
    requires forall i | 0 <= i < |s| :: '0' <= s[i] <= '9'
  {
    if s == [] then 0 else DigitsValue(s[..|s| - 1]) * 10 + (s[|s| - 1] as int - '0' as int)
  }

  /** %d prints the number itself, so list items get distinct keys. */
  lemma {:induction false} DecimalRoundTrip(n: nat)
    ensures DigitsValue(Decimal(n)) == n
    decreases n
  {
    var s := Decimal(n);
    if n >= 10 {
      DecimalRoundTrip(n / 10);
      assert s[..|s| - 1] == Decimal(n / 10);
    }
  }

  lemma ItemKeysDistinct(i: nat, j: nat)
    requires i != j
    ensures ItemKey(i) != ItemKey(j)
  {
    DecimalRoundTrip(i);
    DecimalRoundTrip(j);
    assert Decimal(i) == ItemKey(i)[1..|ItemKey(i)| - 1];
    assert Decimal(j) == ItemKey(j)[1..|ItemKey(j)| - 1];
  }

  lemma SpacesGrow(n: nat)
    ensures Spaces(n) + "  " == Spaces(n + 2)
    ensures Spaces(n) <= Spaces(n + 2)
  {
    assert Spaces(n + 2) == Spaces(n) + " " + " ";
  }

  /**
   * Every string after the key's own line belongs to a nested value and is
   * indented one level (two spaces) further.
   */
  lemma {:induction false} YamlIndented(key: string, value: Yaml, indent: nat, iter: KeyOrder)
    ensures Spaces(2 * indent) + key <= YamlLines(key, value, indent, iter)[0]
    ensures forall i | 1 <= i < |YamlLines(key, value, indent, iter)| :: Spaces(2 * indent + 2) <= YamlLines(key, value, indent, iter)[i]
    decreases value, 1
  {
    var pad := Spaces(2 * indent);
    var r := YamlLines(key, value, indent, iter);
    SpacesGrow(2 * indent);
    match value
    case Mapping(fields) =>
      FieldsIndented(fields, iter(fields.Keys), indent + 1, iter);
      assert r[1..] == FieldLines(fields, iter(fields.Keys), indent + 1, iter);
      assert 2 * (indent + 1) == 2 * indent + 2;
      forall i | 1 <= i < |r| ensures Spaces(2 * indent + 2) <= r[i] {
        assert r[i] in r[1..];
      }
    case StringMap(pairs) =>
      PairsIndented(pairs, iter(pairs.Keys), pad);
      assert r[1..] == PairLines(pairs, iter(pairs.Keys), pad);
      forall i | 1 <= i < |r| ensures Spaces(2 * indent + 2) <= r[i] {
        assert r[i] in r[1..];
      }
    case Sequence(items) =>
      ItemsIndented(items, |items|, indent + 1, iter);
      assert r[1..] == ItemLines(items, |items|, indent + 1, iter);
      assert 2 * (indent + 1) == 2 * indent + 2;
      forall i | 1 <= i < |r| ensures Spaces(2 * indent + 2) <= r[i] {
        assert r[i] in r[1..];
      }
    case Str(_) =>
    case Scalar(_) =>
  }

  lemma {:induction false} FieldsIndented(fields: map<string, Yaml>, keys: seq<string>, indent: nat, iter: KeyOrder)
    ensures forall l | l in FieldLines(fields, keys, indent, iter) :: Spaces(2 * indent) <= l
    decreases Mapping(fields), 0, |keys|
  {
    if keys != [] {
      var k := keys[|keys| - 1];
      FieldsIndented(fields, keys[..|keys| - 1], indent, iter);
      if k in fields {
        YamlIndented(k, fields[k], indent, iter);
        SpacesGrow(2 * indent);
        forall l | l in YamlLines(k, fields[k], indent, iter) ensures Spaces(2 * indent) <= l {
          var i :| 0 <= i < |YamlLines(k, fields[k], indent, iter)| && YamlLines(k, fields[k], indent, iter)[i] == l;
        }
      }
    }
  }

  lemma {:induction false} ItemsIndented(items: seq<Yaml>, n: nat, indent: nat, iter: KeyOrder)
    requires n <= |items|
    ensures forall l | l in ItemLines(items, n, indent, iter) :: Spaces(2 * indent) <= l
    decreases Sequence(items), 0, n
  {
    if n > 0 {
      ItemsIndented(items, n - 1, indent, iter);
      YamlIndented(ItemKey(n - 1), items[n - 1], indent, iter);
      SpacesGrow(2 * indent);
      var block := YamlLines(ItemKey(n - 1), items[n - 1], indent, iter);
      forall l | l in block ensures Spaces(2 * indent) <= l {
        var i :| 0 <= i < |block| && block[i] == l;
      }
    }
  }

  lemma {:induction false} PairsIndented(pairs: map<string, string>, keys: seq<string>, pad: string)
    ensures forall l | l in PairLines(pairs, keys, pad) :: pad + "  " <= l
    decreases |keys|
  {
    if keys != [] {
      PairsIndented(pairs, keys[..|keys| - 1], pad);
    }
  }

  /** A map[string]string prints its key line and then exactly one line per entry. */
  lemma StringMapLines(key: string, pairs: map<string, string>, indent: nat, iter: KeyOrder)
    requires Enumerates(iter(pairs.Keys), pairs.Keys)
    ensures |YamlLines(key, StringMap(pairs), indent, iter)| == 1 + |pairs|
    ensures forall k | k in pairs :: Spaces(2 * indent) + "  " + k + ": " + pairs[k] in YamlLines(key, StringMap(pairs), indent, iter)
  {
    var keys := iter(pairs.Keys);
    var pad := Spaces(2 * indent);
    PairsListed(pairs, keys, pad);
    DistinctCount(keys, pairs.Keys);
  }

  lemma {:induction false} PairsListed(pairs: map<string, string>, keys: seq<string>, pad: string)
    requires forall k | k in keys :: k in pairs
    ensures |PairLines(pairs, keys, pad)| == |keys|
    ensures forall k | k in keys :: pad + "  " + k + ": " + pairs[k] in PairLines(pairs, keys, pad)
    decreases |keys|
  {
    if keys != [] {
      var front := keys[..|keys| - 1];
      assert forall k | k in front :: k in keys;
      PairsListed(pairs, front, pad);
      assert forall k | k in keys :: k in front || k == keys[|keys| - 1];
    }
  }

  /** A list of distinct keys that covers a set is as long as the set is large. */
  lemma {:induction false} DistinctCount(order: seq<string>, keys: set<string>)
    requires Enumerates(order, keys)
    ensures |order| == |keys|
    decreases |order|
  {
    if order != [] {
      var k := order[|order| - 1];
      var front := order[..|order| - 1];
      forall i, j | 0 <= i < j < |front| ensures front[i] != front[j] {
        assert front[i] == order[i] && front[j] == order[j];
      }
      assert forall x | x in front :: x in keys - {k} by {
        forall x | x in front ensures x in keys - {k} {
          var i :| 0 <= i < |front| && front[i] == x;
          assert order[i] == x;
        }
      }
      assert forall x | x in keys - {k} :: x in front by {
        forall x | x in keys - {k} ensures x in front {
          assert x in order;
          var i :| 0 <= i < |order| && order[i] == x;
          assert i != |order| - 1;
        }
      }
      DistinctCount(front, keys - {k});
    }
  }

  lemma {:induction false} ItemLinesGrow(items: seq<Yaml>, m: nat, n: nat, indent: nat, iter: KeyOrder)
    requires m <= n <= |items|
    ensures ItemLines(items, m, indent, iter) <= ItemLines(items, n, indent, iter)
    decreases n
  {
    if m < n {
      ItemLinesGrow(items, m, n - 1, indent, iter);
    }
  }

  /**
   * A list prints its key line, then item i under key "[i]" one level
   * deeper, right after the lines of items 0 .. i-1.
   */
  lemma ListLinesInOrder(key: string, items: seq<Yaml>, indent: nat, iter: KeyOrder, i: nat)
    requires i < |items|
    ensures [Spaces(2 * indent) + key + ":"] + ItemLines(items, i, indent + 1, iter) + YamlLines(ItemKey(i), items[i], indent + 1, iter)
            <= YamlLines(key, Sequence(items), indent, iter)
    ensures Spaces(2 * indent + 2) + ItemKey(i) <= YamlLines(ItemKey(i), items[i], indent + 1, iter)[0]
  {
    var head := [Spaces(2 * indent) + key + ":"];
    var before := ItemLines(items, i, indent + 1, iter);
    var block := YamlLines(ItemKey(i), items[i], indent + 1, iter);
    ItemPrefix(items, i, indent + 1, iter);
    assert YamlLines(key, Sequence(items), indent, iter) == head + ItemLines(items, |items|, indent + 1, iter);
    PrefixAfterHead(head, before, block, ItemLines(items, |items|, indent + 1, iter));
    YamlIndented(ItemKey(i), items[i], indent + 1, iter);
    assert 2 * (indent + 1) == 2 * indent + 2;
  }

  lemma PrefixAfterHead(head: seq<string>, before: seq<string>, block: seq<string>, rest: seq<string>)
    requires before + block <= rest
    ensures head + before + block <= head + rest
  {
    assert head + before + block == head + (before + block);
  }

  lemma ItemPrefix(items: seq<Yaml>, i: nat, indent: nat, iter: KeyOrder)
    requires i < |items|
    ensures ItemLines(items, i, indent, iter) + YamlLines(ItemKey(i), items[i], indent, iter) <= ItemLines(items, |items|, indent, iter)
  {
    ItemLinesGrow(items, i + 1, |items|, indent, iter);
  }

  // ----- loading and theme resolution -----

  const ConfigFile: Path := ["src", "config", "config.yml"]
  const ThemesFile: Path := ["src", "themes", "themes.yml"]

  /** map[string]map[string]string: theme name to colour settings. */
  type ThemeTable = map<string, map<string, string>>

  /** loadConfig: the decoded map, or a nil map with the read or parse error. */
  function LoadConfigMap(fs: Entries, path: Path, readDenied: bool, unmarshal: Bytes -> Option<Document>): (r: Loaded<Document>)
    ensures r.err.Some? ==> r.value == map[]
    ensures r.err == Some(ReadError(path)) <==> ReadBytes(fs, path, readDenied).None?
    ensures r.err == Some(ParseError(path)) <==>
              ReadBytes(fs, path, readDenied).Some? && unmarshal(ReadBytes(fs, path, readDenied).value).None?
    ensures ReadBytes(fs, path, readDenied).Some? && unmarshal(ReadBytes(fs, path, readDenied).value).Some? ==>
              r == Loaded(unmarshal(ReadBytes(fs, path, readDenied).value).value, None)
    ensures r.err.None? ==> unmarshal(ReadBytes(fs, path, readDenied).value) == Some(r.value)
  {
    match ReadBytes(fs, path, readDenied)
    case None => Loaded(map[], Some(ReadError(path)))
    case Some(data) =>
      match unmarshal(data)
      case None => Loaded(map[], Some(ParseError(path)))
      case Some(config) => Loaded(config, None)
  }

  /** loadThemes: the decoded table, or a nil map with the read or parse error. */
  function LoadThemes(fs: Entries, path: Path, readDenied: bool, unmarshal: Bytes -> Option<ThemeTable>): (r: Loaded<ThemeTable>)
    ensures r.err.Some? ==> r.value == map[]
    ensures r.err == Some(ReadError(path)) <==> ReadBytes(fs, path, readDenied).None?
    ensures r.err == Some(ParseError(path)) <==>
              ReadBytes(fs, path, readDenied).Some? && unmarshal(ReadBytes(fs, path, readDenied).value).None?
    ensures ReadBytes(fs, path, readDenied).Some? && unmarshal(ReadBytes(fs, path, readDenied).value).Some? ==>
              r == Loaded(unmarshal(ReadBytes(fs, path, readDenied).value).value, None)
    ensures r.err.None? ==> unmarshal(ReadBytes(fs, path, readDenied).value) == Some(r.value)
  {
    match ReadBytes(fs, path, readDenied)
    case None => Loaded(map[], Some(ReadError(path)))
    case Some(data) =>
      match unmarshal(data)
      case None => Loaded(map[], Some(ParseError(path)))
      case Some(themes) => Loaded(themes, None)
  }

  /** Why start-up stops with log.Fatalf. */
  datatype StartupError =
    | ConfigUnreadable(err: LoadError)
    | ThemeNameMissing
    | ThemesUnreadable(err: LoadError)
    | ThemeUnknown(name: string)

  /** The outcome of main up to serving: a fatal exit, or the configuration the page is rendered with. */
  datatype Startup = Fatal(reason: StartupError) | Serving(config: Document)

  /** main.go's start-up: load the config, pick its theme by name, swap in the theme's colours. */
  function Start(fs: Entries, configDenied: bool, themesDenied: bool,
                 decodeConfig: Bytes -> Option<Document>, decodeThemes: Bytes -> Option<ThemeTable>): (r: Startup)
    ensures var c := LoadConfigMap(fs, ConfigFile, configDenied, decodeConfig);
            c.err.Some? ==> r == Fatal(ConfigUnreadable(c.err.value))
    ensures var c := LoadConfigMap(fs, ConfigFile, configDenied, decodeConfig);
            c.err.None? && !("theme" in c.value && c.value["theme"].Str?) ==> r == Fatal(ThemeNameMissing)
    ensures var c := LoadConfigMap(fs, ConfigFile, configDenied, decodeConfig);
            var t := LoadThemes(fs, ThemesFile, themesDenied, decodeThemes);
            c.err.None? && "theme" in c.value && c.value["theme"].Str? && t.err.Some? ==> r == Fatal(ThemesUnreadable(t.err.value))
    ensures var c := LoadConfigMap(fs, ConfigFile, configDenied, decodeConfig);
            var t := LoadThemes(fs, ThemesFile, themesDenied, decodeThemes);
            c.err.None? && "theme" in c.value && c.value["theme"].Str? && t.err.None? && c.value["theme"].s !in t.value ==>
              r == Fatal(ThemeUnknown(c.value["theme"].s))
    ensures var c := LoadConfigMap(fs, ConfigFile, configDenied, decodeConfig);
            var t := LoadThemes(fs, ThemesFile, themesDenied, decodeThemes);
            r.Serving? <==>
              c.err.None? && "theme" in c.value && c.value["theme"].Str? && t.err.None? && c.value["theme"].s in t.value
    ensures var c := LoadConfigMap(fs, ConfigFile, configDenied, decodeConfig);
            var t := LoadThemes(fs, ThemesFile, themesDenied, decodeThemes);
            r.Serving? ==>
              && "theme" in r.config
              && r.config["theme"] == StringMap(t.value[c.value["theme"].s])
              && (forall k | k != "theme" :: (k in r.config <==> k in c.value) && (k in c.value ==> r.config[k] == c.value[k]))
  {
    var c := LoadConfigMap(fs, ConfigFile, configDenied, decodeConfig);
    if c.err.Some? then Fatal(ConfigUnreadable(c.err.value))
    else if !("theme" in c.value && c.value["theme"].Str?) then Fatal(ThemeNameMissing)
    else
      var name := c.value["theme"].s;
      var t := LoadThemes(fs, ThemesFile, themesDenied, decodeThemes);
      if t.err.Some? then Fatal(ThemesUnreadable(t.err.value))
      else if name !in t.value then Fatal(ThemeUnknown(name))
      else Serving(c.value["theme" := StringMap(t.value[name])])
  }
}
