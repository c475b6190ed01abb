/** The unknown-key check of configuration sources (crates/common/src/config/validation/schema.rs), and why checking
    each source on its own covers the merged document. */
module ConfigSchema {
  import opened Options
  import opened Printing
  import opened ConfigValue
  import Layers = ConfigLayers

  datatype KeyRule = KeyRule(name: string, schema: Schema)

  datatype Schema =
    | Any
    | TableOf(rules: seq<KeyRule>)
    | ArrayOf(rules: seq<KeyRule>)

  /** One step of a structured path into a document. */
  datatype Step = Key(name: string) | Index(index: nat)

  /** The first rule of that name, as `rules.iter().find(..)` picks it. */
  function FindRule(rules: seq<KeyRule>, name: string): (found: Option<Schema>)
    ensures found.None? <==> forall rule <- rules :: rule.name != name
    ensures found.Some? ==> exists i :: 0 <= i < |rules| && rules[i] == KeyRule(name, found.value)
                                        && forall j | 0 <= j < i :: rules[j].name != name
  {
    if rules == [] then None
    else if rules[0].name == name then Some(rules[0].schema)
    else FindRule(rules[1..], name)
  }

  // ---- What an unknown key is

  /** `path` leads through known keys of `value` to a key the schema does not know.
      Nothing below such a key is looked at, so these are the topmost ones. */
  ghost predicate UnknownInTable(value: Value, rules: seq<KeyRule>, path: seq<Step>)
    decreases |path|, 0
  {
    && value.Table? && path != [] && path[0].Key? && path[0].name in value.entries
    && match FindRule(rules, path[0].name)
       case None => |path| == 1
       case Some(schema) => UnknownInSchema(value.entries[path[0].name], schema, path[1..])
  }

  ghost predicate UnknownInSchema(value: Value, schema: Schema, path: seq<Step>)
    decreases |path|, 1
  {
    match schema
    case Any => false
    case TableOf(rules) => UnknownInTable(value, rules, path)
    case ArrayOf(rules) =>
      && value.Arr? && path != [] && path[0].Index? && path[0].index < |value.items|
      && UnknownInTable(value.items[path[0].index], rules, path[1..])
  }

  // ---- Merging never invents an unknown key, and keeps those of the upper layer

  lemma {:induction false} MergedTableUnknowns(a: Value, b: Value, rules: seq<KeyRule>, path: seq<Step>)
    ensures UnknownInTable(Merge(a, b), rules, path)
            ==> UnknownInTable(a, rules, path) || UnknownInTable(b, rules, path)
    ensures UnknownInTable(b, rules, path) ==> UnknownInTable(Merge(a, b), rules, path)
    decreases |path|, 0
  {
    if a.Table? && b.Table? && path != [] && path[0].Key? {
      var name := path[0].name;
      if name in a.entries && name in b.entries && FindRule(rules, name).Some? {
        MergedSchemaUnknowns(a.entries[name], b.entries[name], FindRule(rules, name).value, path[1..]);
      }
    }
  }

  lemma {:induction false} MergedSchemaUnknowns(a: Value, b: Value, schema: Schema, path: seq<Step>)
    ensures UnknownInSchema(Merge(a, b), schema, path)
            ==> UnknownInSchema(a, schema, path) || UnknownInSchema(b, schema, path)
    ensures UnknownInSchema(b, schema, path) ==> UnknownInSchema(Merge(a, b), schema, path)
    decreases |path|, 1
  {
    if schema.TableOf? {
      MergedTableUnknowns(a, b, schema.rules, path);
    }
  }

  /** `small` is `big` with some keys removed, at any depth. */
  ghost predicate Prunes(small: Value, big: Value)
    decreases small
  {
    || small == big
    || (small.Table? && big.Table?
        && forall key <- small.entries.Keys :: key in big.entries && Prunes(small.entries[key], big.entries[key]))
  }

  lemma {:induction false} PrunedUnknowns(small: Value, big: Value, rules: seq<KeyRule>, path: seq<Step>)
    requires Prunes(small, big) && UnknownInTable(small, rules, path)
    ensures UnknownInTable(big, rules, path)
    decreases |path|
  {
    var name := path[0].name;
    match FindRule(rules, name) {
      case Some(TableOf(inner)) => PrunedUnknowns(small.entries[name], big.entries[name], inner, path[1..]);
      case _ =>
    }
  }

  lemma {:induction false} WithoutReplacedPrunes(visuals: map<string, Value>, over: map<string, Value>,
                                                 rows: seq<Layers.Row>)
    ensures Prunes(Table(Layers.WithoutReplaced(visuals, over, rows)), Table(visuals))
  {
    if rows != [] {
      WithoutReplacedPrunes(visuals, over, rows[..|rows| - 1]);
      PrunesTransitive(Table(Layers.WithoutReplaced(visuals, over, rows)),
                       Table(Layers.WithoutReplaced(visuals, over, rows[..|rows| - 1])), Table(visuals));
    }
  }

  lemma {:induction false} PrunesTransitive(a: Value, b: Value, c: Value)
    requires Prunes(a, b) && Prunes(b, c)
    ensures Prunes(a, c)
    decreases a
  {
    if a != b && b != c {
      forall key <- a.entries.Keys ensures Prunes(a.entries[key], c.entries[key]) {
        PrunesTransitive(a.entries[key], b.entries[key], c.entries[key]);
      }
    }
  }

  lemma PreparedPrunes(base: Value, over: Value, rows: seq<Layers.Row>)
    ensures Prunes(Layers.Prepared(base, over, rows), base)
  {
    match (Layers.Get(base, Layers.VISUALS), Layers.Get(over, Layers.VISUALS)) {
      case (Some(Table(visuals)), Some(Table(overVisuals))) => WithoutReplacedPrunes(visuals, overVisuals, rows);
      case _ =>
    }
  }

  ghost predicate Clean(value: Value, rules: seq<KeyRule>) {
    forall path :: !UnknownInTable(value, rules, path)
  }

  /** One layer: every unknown key of the result is one of its sources', and the layer's own all remain. */
  lemma LayerUnknowns(base: Value, over: Value, rows: seq<Layers.Row>, rules: seq<KeyRule>, path: seq<Step>)
    ensures UnknownInTable(Layers.MergedLayer(base, over, rows), rules, path)
        ==> UnknownInTable(base, rules, path) || UnknownInTable(over, rules, path)
    ensures UnknownInTable(over, rules, path) ==> UnknownInTable(Layers.MergedLayer(base, over, rows), rules, path)
  {
    var prepared := Layers.Prepared(base, over, rows);
    MergedTableUnknowns(prepared, over, rules, path);
    PreparedPrunes(base, over, rows);
    if UnknownInTable(prepared, rules, path) {
      PrunedUnknowns(prepared, base, rules, path);
    }
  }

  /** Sources that pass the check one by one merge to a document that passes it. */
  lemma {:induction false} CleanSourcesMergeClean(base: Value, layers: seq<Value>, rows: seq<Layers.Row>,
                                                  rules: seq<KeyRule>)
    requires Clean(base, rules) && forall layer <- layers :: Clean(layer, rules)
    ensures Clean(Layers.MergedLayers(base, layers, rows), rules)
  {
    if layers != [] {
      var init, top := layers[..|layers| - 1], layers[|layers| - 1];
      CleanSourcesMergeClean(base, init, rows, rules);
      forall path ensures !UnknownInTable(Layers.MergedLayers(base, layers, rows), rules, path) {
        assert Clean(top, rules);
        LayerUnknowns(Layers.MergedLayers(base, init, rows), top, rows, rules, path);
      }
    }
  }

  lemma WithoutMetadataPrunes(value: Value, rules: seq<KeyRule>)
    requires Clean(value, rules)
    ensures Clean(Layers.WithoutMetadata(value), rules)
  {
    forall path ensures !UnknownInTable(Layers.WithoutMetadata(value), rules, path) {
      if UnknownInTable(Layers.WithoutMetadata(value), rules, path) {
        PrunedUnknowns(Layers.WithoutMetadata(value), value, rules, path);
      }
    }
  }

  lemma {:induction false} PresentIsClean(includes: seq<Option<Value>>, rules: seq<KeyRule>)
    requires forall source <- includes :: source.Some? ==> Clean(source.value, rules)
    ensures forall layer <- Layers.Present(includes) :: Clean(layer, rules)
  {
    if includes != [] {
      var last := includes[|includes| - 1];
      PresentIsClean(includes[..|includes| - 1], rules);
      if last.Some? {
        assert last in includes;
        WithoutMetadataPrunes(last.value, rules);
      }
    }
  }

  /** The whole load: with clean defaults, a user file, theme and includes that pass the check leave no unknown key. */
  lemma LoadedConfigIsClean(hardcoded: Value, bundled: Option<Value>, theme: Option<Value>,
                            includes: seq<Option<Value>>, user: Value, rules: seq<KeyRule>)
    requires Clean(hardcoded, rules) && Clean(user, rules)
    requires forall source <- [bundled, theme] + includes :: source.Some? ==> Clean(source.value, rules)
    ensures Clean(Layers.Loaded(hardcoded, bundled, theme, includes, user), rules)
  {
    var sources := [bundled, theme] + includes;
    assert sources[0] == bundled && sources[1] == theme;
    assert forall source <- includes :: source in sources;
    PresentIsClean(includes, rules);
    WithoutMetadataPrunes(user, rules);
    var layers := Layers.LayerStack(bundled, theme, includes, user);
    CleanSourcesMergeClean(hardcoded, layers, Layers.LEGACY_VISUAL_MAPPINGS, rules);
    WithoutMetadataPrunes(Layers.MergedLayers(hardcoded, layers, Layers.LEGACY_VISUAL_MAPPINGS), rules);
  }

  // ---- The walk

  /** `child_path`. */
  function ChildPath(prefix: string, key: string): string {
    if prefix == "" then key else prefix + "." + key
  }

  /** How the walk prints a structured path below `prefix`. */
  function Printed(prefix: string, path: seq<Step>): string
    decreases |path|
  {
    if path == [] then prefix
    else match path[0]
      case Key(name) => Printed(ChildPath(prefix, name), path[1..])
      case Index(index) => Printed(prefix + "[" + Decimal(index) + "]", path[1..])
  }

  /** A key is set off by a dot, unless it is the first, and an index by brackets. */
  lemma {:induction false} PrintedPush(prefix: string, path: seq<Step>, step: Step)
    ensures var printed := Printed(prefix, path);
            Printed(prefix, path + [step])
            == match step
               case Key(name) => if printed == "" then name else printed + "." + name
               case Index(index) => printed + "[" + Decimal(index) + "]"
    decreases |path|
  {
    if path == [] {
      assert [step][1..] == [];
    } else {
      assert (path + [step])[1..] == path[1..] + [step];
      PrintedPush(match path[0]
                  case Key(name) => ChildPath(prefix, name)
                  case Index(index) => prefix + "[" + Decimal(index) + "]",
                  path[1..], step);
    }
  }

  /** A reported issue: the printed path, and the key its message names.  All issues of one walk
      share the source and its file. */
  datatype Issue = Issue(keyPath: string, key: string)

  ghost predicate Describes(issue: Issue, prefix: string, path: seq<Step>) {
    && path != [] && path[|path| - 1] == Key(issue.key)
    && issue.keyPath == Printed(prefix, path)
  }

  ghost predicate DescribesAll(issues: seq<Issue>, prefix: string, paths: seq<seq<Step>>) {
    |issues| == |paths| && forall i | 0 <= i < |paths| :: Describes(issues[i], prefix, paths[i])
  }

  ghost predicate Distinct<T>(items: seq<T>) {
    forall i, j | 0 <= i < j < |items| :: items[i] != items[j]
  }

  ghost function Below(step: Step, paths: seq<seq<Step>>): (below: seq<seq<Step>>)
    ensures |below| == |paths| && forall i | 0 <= i < |paths| :: below[i] == [step] + paths[i]
    ensures Distinct(paths) ==> Distinct(below)
    ensures forall path :: path in below <==> path != [] && path[0] == step && path[1..] in paths
  {
    var below := seq(|paths|, i requires 0 <= i < |paths| => [step] + paths[i]);
    assert forall i | 0 <= i < |paths| :: below[i][1..] == paths[i];
    assert forall path | path != [] && path[0] == step && path[1..] in paths :: path in below by {
      forall path | path != [] && path[0] == step && path[1..] in paths ensures path in below {
        var i :| 0 <= i < |paths| && paths[i] == path[1..];
        assert below[i] == path;
      }
    }
    below
  }

  lemma DescribesBelow(issues: seq<Issue>, prefix: string, step: Step, paths: seq<seq<Step>>)
    requires var inner := if step.Key? then ChildPath(prefix, step.name) else prefix + "[" + Decimal(step.index) + "]";
             DescribesAll(issues, inner, paths)
    ensures DescribesAll(issues, prefix, Below(step, paths))
  {
    var below := Below(step, paths);
    assert |below| == |paths|;
    forall i | 0 <= i < |paths| ensures Describes(issues[i], prefix, below[i]) {
      assert below[i] == [step] + paths[i];
      assert below[i][1..] == paths[i];
    }
  }

  lemma DescribesKey(prefix: string, key: string)
    ensures DescribesAll([Issue(ChildPath(prefix, key), key)], prefix, Below(Key(key), [[]]))
  {
    var path: seq<Step> := [Key(key)];
    assert path[1..] == [];
    assert Printed(prefix, path) == Printed(ChildPath(prefix, key), path[1..]);
    assert Below(Key(key), [[]]) == [path];
  }

  lemma DescribesBoth(all: seq<Issue>, first: seq<Issue>, second: seq<Issue>, prefix: string,
                      paths: seq<seq<Step>>, more: seq<seq<Step>>)
    requires all == first + second
    requires DescribesAll(first, prefix, paths) && DescribesAll(second, prefix, more)
    ensures DescribesAll(all, prefix, paths + more)
  {
  }

  /** Appends one issue for each topmost unknown key of `value`, and nothing else. */
  method ValidateTable(value: Value, rules: seq<KeyRule>, prefix: string, issues: seq<Issue>)
    returns (all: seq<Issue>, ghost paths: seq<seq<Step>>)
    ensures |issues| <= |all| && all[..|issues|] == issues
    ensures DescribesAll(all[|issues|..], prefix, paths) && Distinct(paths)
    ensures forall path :: path in paths <==> UnknownInTable(value, rules, path)
    decreases value, 1
  {
    all, paths := issues, [];
    if !value.Table? {
      return;
    }
    var pending := value.entries.Keys;
    while pending != {}
      invariant pending <= value.entries.Keys
      invariant |issues| <= |all| && all[..|issues|] == issues
      invariant DescribesAll(all[|issues|..], prefix, paths) && Distinct(paths)
      invariant forall path: seq<Step> ::
        path in paths <==> UnknownInTable(value, rules, path) && path[0].name !in pending
      decreases |pending|
    {
      var key :| key in pending;
      ghost var before, found := all, paths;
      all, found := ValidateEntry(value, key, rules, prefix, all);
      DescribesBoth(all[|issues|..], before[|issues|..], all[|before|..], prefix, paths, found);
      paths := paths + found;
      pending := pending - {key};
    }
  }

  /** The issues of one entry of a table. */
  method ValidateEntry(table: Value, key: string, rules: seq<KeyRule>, prefix: string, issues: seq<Issue>)
    returns (all: seq<Issue>, ghost paths: seq<seq<Step>>)
    requires table.Table? && key in table.entries
    ensures |issues| <= |all| && all[..|issues|] == issues
    ensures DescribesAll(all[|issues|..], prefix, paths) && Distinct(paths)
    ensures forall path :: path in paths <==> UnknownInTable(table, rules, path) && path[0] == Key(key)
    decreases table, 0
  {
    var keyPath := ChildPath(prefix, key);
    var rule := FindRule(rules, key);
    ghost var found: seq<seq<Step>> := [[]];
    if rule.None? {
      all := issues + [Issue(keyPath, key)];
      assert all[|issues|..] == [Issue(keyPath, key)];
      DescribesKey(prefix, key);
    } else {
      all, found := ValidateSchema(table.entries[key], rule.value, keyPath, issues);
      DescribesBelow(all[|issues|..], prefix, Key(key), found);
    }
    paths := Below(Key(key), found);
  }

  method ValidateSchema(value: Value, schema: Schema, keyPath: string, issues: seq<Issue>)
    returns (all: seq<Issue>, ghost paths: seq<seq<Step>>)
    ensures |issues| <= |all| && all[..|issues|] == issues
    ensures DescribesAll(all[|issues|..], keyPath, paths) && Distinct(paths)
    ensures forall path :: path in paths <==> UnknownInSchema(value, schema, path)
    decreases value, 2
  {
    all, paths := issues, [];
    match schema {
      case Any =>
      case TableOf(rules) =>
        all, paths := ValidateTable(value, rules, keyPath, issues);
      case ArrayOf(rules) =>
        if value.Arr? {
          all, paths := ValidateItems(value, rules, keyPath, issues);
        }
    }
  }

  method ValidateItems(values: Value, rules: seq<KeyRule>, keyPath: string, issues: seq<Issue>)
    returns (all: seq<Issue>, ghost paths: seq<seq<Step>>)
    requires values.Arr?
    ensures |issues| <= |all| && all[..|issues|] == issues
    ensures DescribesAll(all[|issues|..], keyPath, paths) && Distinct(paths)
    ensures forall path :: path in paths <==> UnknownInSchema(values, ArrayOf(rules), path)
    decreases values, 1
  {
    all, paths := issues, [];
    for i := 0 to |values.items|
      invariant |issues| <= |all| && all[..|issues|] == issues
      invariant DescribesAll(all[|issues|..], keyPath, paths) && Distinct(paths)
      invariant forall path: seq<Step> ::
        path in paths <==> UnknownInSchema(values, ArrayOf(rules), path) && path[0].index < i
    {
      ghost var before, found := all, paths;
      all, found := ValidateItem(values, i, rules, keyPath, all);
      DescribesBoth(all[|issues|..], before[|issues|..], all[|before|..], keyPath, paths, found);
      paths := paths + found;
    }
  }

  /** The issues of one item of an array. */
  method ValidateItem(values: Value, i: nat, rules: seq<KeyRule>, keyPath: string, issues: seq<Issue>)
    returns (all: seq<Issue>, ghost paths: seq<seq<Step>>)
    requires values.Arr? && i < |values.items|
    ensures |issues| <= |all| && all[..|issues|] == issues
    ensures DescribesAll(all[|issues|..], keyPath, paths) && Distinct(paths)
    ensures forall path :: path in paths <==> UnknownInSchema(values, ArrayOf(rules), path) && path[0] == Index(i)
    decreases values, 0
  {
    ghost var found;
    all, found := ValidateTable(values.items[i], rules, keyPath + "[" + Decimal(i) + "]", issues);
    DescribesBelow(all[|issues|..], keyPath, Index(i), found);
    paths := Below(Index(i), found);
  }

  /** Reports each topmost unknown key of a source once, and so nothing exactly when it has none. */
  method UnknownKeyIssues(value: Value, topLevel: seq<KeyRule>)
    returns (issues: seq<Issue>, ghost paths: seq<seq<Step>>)
    ensures DescribesAll(issues, "", paths) && Distinct(paths)
    ensures forall path :: path in paths <==> UnknownInTable(value, topLevel, path)
    ensures issues == [] <==> Clean(value, topLevel)
  {
    issues, paths := ValidateTable(value, topLevel, "", []);
    assert paths != [] ==> paths[0] in paths;
  }
}
