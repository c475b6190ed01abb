/** Configuration layers: the built-in defaults, a theme, included files and the user's file are merged in turn.
    Many visual settings have two spellings, a flat one (`visuals.clock_color`) and a nested one
    (`visuals.clock.color`).  Readers prefer the nested one, so before a layer is merged, the older nested
    settings that its flat ones should replace are removed (crates/common/src/config/mod.rs). */
module ConfigLayers {
  import opened Options
  import opened ConfigValue
  import opened ConfigOrder

  datatype Row = Row(flat: string, section: string, nested: string)

  /** The rows of one section: (flat spelling, nested key) pairs. */
  function Section(section: string, pairs: seq<(string, string)>): (rows: seq<Row>)
    ensures forall row <- rows :: row.section == section
  {
    seq(|pairs|, i requires 0 <= i < |pairs| => Row(pairs[i].0, section, pairs[i].1))
  }

  const INPUT_PAIRS: seq<(string, string)> := [
    ("input_font_family", "font_family"), ("input_font_weight", "font_weight"),
    ("input_font_style", "font_style"), ("input_font_size", "font_size"), ("input_border", "border_color"),
    ("input_width", "width"), ("input_height", "height"), ("input_radius", "radius"),
    ("input_border_width", "border_width"), ("input_mask_color", "mask_color")
  ]

  const AVATAR_PAIRS: seq<(string, string)> := [
    ("avatar_background_color", "background_color"), ("avatar_size", "size"),
    ("avatar_placeholder_padding", "placeholder_padding"), ("avatar_icon_color", "icon_color"),
    ("avatar_ring_color", "ring_color"), ("avatar_ring_width", "ring_width")
  ]

  const USERNAME_PAIRS: seq<(string, string)> := [
    ("username_color", "color"), ("username_font_size", "font_size")
  ]

  const CLOCK_PAIRS: seq<(string, string)> := [
    ("clock_font_family", "font_family"), ("clock_font_weight", "font_weight"),
    ("clock_font_style", "font_style"), ("clock_style", "style"), ("clock_format", "format"),
    ("clock_meridiem_font_size", "meridiem_font_size"), ("clock_meridiem_x", "meridiem_x"),
    ("clock_meridiem_y", "meridiem_y"), ("clock_color", "color"), ("clock_font_size", "font_size")
  ]

  const DATE_PAIRS: seq<(string, string)> := [
    ("date_color", "color"), ("date_font_size", "font_size")
  ]

  const KEYBOARD_PAIRS: seq<(string, string)> := [
    ("keyboard_color", "color"), ("keyboard_background_size", "background_size"), ("keyboard_size", "size")
  ]

  const BATTERY_PAIRS: seq<(string, string)> := [
    ("battery_color", "color"), ("battery_background_color", "background_color"),
    ("battery_background_size", "background_size"), ("battery_size", "size")
  ]

  const PALETTE_PAIRS: seq<(string, string)> := [
    ("foreground", "foreground"), ("muted", "muted"), ("pending", "pending"), ("rejected", "rejected")
  ]

  const LEGACY_VISUAL_MAPPINGS: seq<Row> :=
    Section("input", INPUT_PAIRS) +
    Section("avatar", AVATAR_PAIRS) +
    Section("username", USERNAME_PAIRS) +
    Section("clock", CLOCK_PAIRS) +
    Section("date", DATE_PAIRS) +
    Section("placeholder", [("placeholder_color", "color")]) +
    Section("eye", [("eye_icon_color", "color")]) +
    Section("keyboard", KEYBOARD_PAIRS) +
    Section("battery", BATTERY_PAIRS) +
    Section("status", [("status_color", "color")]) +
    Section("palette", PALETTE_PAIRS)

  const VISUALS := "visuals"

  /** `Value::get`: the entry under `key`, when the value is a table that has one. */
  function Get(value: Value, key: string): Option<Value> {
    if value.Table? && key in value.entries then Some(value.entries[key]) else None
  }

  function GetIn(value: Option<Value>, key: string): Option<Value> {
    if value.Some? then Get(value.value, key) else None
  }

  function Flat(value: Value, row: Row): Option<Value> {
    GetIn(Get(value, VISUALS), row.flat)
  }

  function Nested(value: Value, row: Row): Option<Value> {
    GetIn(GetIn(Get(value, VISUALS), row.section), row.nested)
  }

  /** What a document says of a setting: the nested spelling, else the flat one.  It is also what the accessors of
      crates/common/src/config/visuals read, except for the settings of `input` (see `ConfigReading`). */
  function Effective(value: Value, row: Row): Option<Value> {
    if Nested(value, row).Some? then Nested(value, row) else Flat(value, row)
  }

  // ---- The pre-pass and the merge of one layer

  function WithoutNested(visuals: map<string, Value>, section: string, nested: string): map<string, Value> {
    if section in visuals && visuals[section].Table? then
      visuals[section := Table(visuals[section].entries - {nested})]
    else
      visuals
  }

  function WithoutReplaced(visuals: map<string, Value>, over: map<string, Value>, rows: seq<Row>): map<string, Value> {
    if rows == [] then
      visuals
    else
      var rest := WithoutReplaced(visuals, over, rows[..|rows| - 1]);
      var row := rows[|rows| - 1];
      if row.flat in over then WithoutNested(rest, row.section, row.nested) else rest
  }

  function Prepared(base: Value, over: Value, rows: seq<Row>): Value {
    match (Get(base, VISUALS), Get(over, VISUALS))
    case (Some(Table(visuals)), Some(Table(overVisuals))) =>
      Table(base.entries[VISUALS := Table(WithoutReplaced(visuals, overVisuals, rows))])
    case _ => base
  }

  function MergedLayer(base: Value, over: Value, rows: seq<Row>): Value {
    Merge(Prepared(base, over, rows), over)
  }

  method ApplyLegacyVisualOverridePrecedence(base: Value, over: Value, rows: seq<Row>) returns (slot: Value)
    ensures slot == Prepared(base, over, rows)
  {
    slot := base;
    var overVisuals, baseVisuals := Get(over, VISUALS), Get(base, VISUALS);
    if overVisuals.None? || !overVisuals.value.Table? || baseVisuals.None? || !baseVisuals.value.Table? {
      return;
    }
    var visuals := baseVisuals.value.entries;
    for i := 0 to |rows|
      invariant visuals == WithoutReplaced(baseVisuals.value.entries, overVisuals.value.entries, rows[..i])
    {
      assert rows[..i + 1][..i] == rows[..i];
      if rows[i].flat in overVisuals.value.entries {
        var nested := Get(Table(visuals), rows[i].section);
        if nested.Some? && nested.value.Table? {
          visuals := visuals[rows[i].section := Table(nested.value.entries - {rows[i].nested})];
        }
      }
    }
    assert rows[..|rows|] == rows;
    slot := Table(base.entries[VISUALS := Table(visuals)]);
  }

  method MergeConfigLayer(base: Value, over: Value) returns (slot: Value)
    ensures slot == MergedLayer(base, over, LEGACY_VISUAL_MAPPINGS)
  {
    slot := ApplyLegacyVisualOverridePrecedence(base, over, LEGACY_VISUAL_MAPPINGS);
    slot := MergeTomlValues(slot, over);
  }

  // ---- What one layer does to one setting

  /** Settings are scalars or arrays, never tables. */
  ghost predicate Scalars(value: Value, row: Row) {
    && (Flat(value, row).Some? ==> !Flat(value, row).value.Table?)
    && (Nested(value, row).Some? ==> !Nested(value, row).value.Table?)
  }

  /** Some row of the mapping makes the layer remove the nested spelling of `row` from what lies below. */
  ghost predicate Replaces(over: Value, row: Row, rows: seq<Row>) {
    exists r <- rows :: r.section == row.section && r.nested == row.nested && Flat(over, r).Some?
  }

  lemma {:induction false} WithoutReplacedKeeps(visuals: map<string, Value>, over: map<string, Value>, rows: seq<Row>,
                                                key: string)
    ensures var after := WithoutReplaced(visuals, over, rows);
            after.Keys == visuals.Keys && (key in visuals && !visuals[key].Table? ==> after[key] == visuals[key])
  {
    if rows != [] {
      WithoutReplacedKeeps(visuals, over, rows[..|rows| - 1], key);
    }
  }

  lemma {:induction false} WithoutReplacedNested(visuals: map<string, Value>, over: map<string, Value>,
                                                 rows: seq<Row>, row: Row)
    ensures var after := Table(WithoutReplaced(visuals, over, rows));
            GetIn(Get(after, row.section), row.nested)
            == if exists r <- rows :: r.section == row.section && r.nested == row.nested && r.flat in over then None
               else GetIn(Get(Table(visuals), row.section), row.nested)
  {
    if rows != [] {
      var init, last := rows[..|rows| - 1], rows[|rows| - 1];
      assert rows == init + [last];
      WithoutReplacedNested(visuals, over, init, row);
    }
  }

  /** The layer overwrites the whole document, or all of `visuals`, with a non-table. */
  ghost predicate OverwritesVisuals(over: Value) {
    !over.Table? || (Get(over, VISUALS).Some? && !Get(over, VISUALS).value.Table?)
  }

  /** The layer overwrites the setting's section with a non-table, as `visuals.input = "#ffffff"` does. */
  ghost predicate OverwritesSection(over: Value, row: Row) {
    var section := GetIn(Get(over, VISUALS), row.section);
    section.Some? && !section.value.Table?
  }

  lemma GetAfterMerge(base: Value, over: Value, key: string)
    requires over.Table?
    ensures Get(Merge(base, over), key)
            == if Get(over, key).None? then Get(base, key)
               else if Get(base, key).None? then Get(over, key)
               else Some(Merge(Get(base, key).value, Get(over, key).value))
  {
  }

  /** Both spellings after a layer, when `visuals` is not overwritten whole. */
  lemma SpellingsAfterLayer(base: Value, over: Value, row: Row, rows: seq<Row>)
    requires Scalars(base, row) && Scalars(over, row)
    requires !OverwritesVisuals(over)
    ensures var merged := MergedLayer(base, over, rows);
            && Flat(merged, row) == (if Flat(over, row).Some? then Flat(over, row) else Flat(base, row))
            && Nested(merged, row)
               == if Nested(over, row).Some? then Nested(over, row)
                  else if OverwritesSection(over, row) || Replaces(over, row, rows) then None
                  else Nested(base, row)
  {
    var prepared := Prepared(base, over, rows);
    GetAfterMerge(prepared, over, VISUALS);
    match (Get(base, VISUALS), Get(over, VISUALS)) {
      case (Some(Table(visuals)), Some(Table(overVisuals))) =>
        WithoutReplacedKeeps(visuals, overVisuals, rows, row.flat);
        WithoutReplacedKeeps(visuals, overVisuals, rows, row.section);
        WithoutReplacedNested(visuals, overVisuals, rows, row);
        var kept := Table(WithoutReplaced(visuals, overVisuals, rows));
        assert Get(prepared, VISUALS) == Some(kept);
        GetAfterMerge(kept, Table(overVisuals), row.flat);
        GetAfterMerge(kept, Table(overVisuals), row.section);
        var sections := (Get(kept, row.section), Get(over.entries[VISUALS], row.section));
        if sections.0.Some? && sections.1.Some? && sections.1.value.Table? {
          GetAfterMerge(sections.0.value, sections.1.value, row.nested);
        }
        assert Replaces(over, row, rows)
          <==> exists r <- rows :: r.section == row.section && r.nested == row.nested && r.flat in overVisuals;
      case _ =>
    }
  }

  /** The value a layer should give the setting: its own if it sets either spelling, else the one below. */
  ghost function Layered(base: Value, over: Value, row: Row): Option<Value> {
    if Effective(over, row).Some? then Effective(over, row) else Effective(base, row)
  }

  /** Exactly when a layer loses a setting.  Either it is silent about it and drops what lies below,
      or it sets only the flat spelling while an older nested one that says otherwise stays in place. */
  ghost predicate Loses(base: Value, over: Value, row: Row, rows: seq<Row>) {
    var dropsNested := OverwritesSection(over, row) || Replaces(over, row, rows);
    if OverwritesVisuals(over) then
      Effective(base, row).Some?
    else if Effective(over, row).None? then
      dropsNested && Nested(base, row).Some? && Nested(base, row) != Flat(base, row)
    else
      !dropsNested && Nested(over, row).None? && Nested(base, row).Some? && Nested(base, row) != Flat(over, row)
  }

  /** For every document, layer, setting and mapping table. */
  lemma LayerWinsIff(base: Value, over: Value, row: Row, rows: seq<Row>)
    requires Scalars(base, row) && Scalars(over, row)
    ensures Effective(MergedLayer(base, over, rows), row) == Layered(base, over, row) <==> !Loses(base, over, row, rows)
  {
    if !OverwritesVisuals(over) {
      SpellingsAfterLayer(base, over, row, rows);
    } else {
      GetAfterOverwrite(base, over, rows);
    }
  }

  lemma GetAfterOverwrite(base: Value, over: Value, rows: seq<Row>)
    requires OverwritesVisuals(over)
    ensures var visuals := Get(MergedLayer(base, over, rows), VISUALS);
            visuals.None? || !visuals.value.Table?
  {
    if over.Table? {
      GetAfterMerge(Prepared(base, over, rows), over, VISUALS);
    }
  }

  // ---- Whole stacks of layers

  function MergedLayers(base: Value, layers: seq<Value>, rows: seq<Row>): Value {
    if layers == [] then base
    else MergedLayer(MergedLayers(base, layers[..|layers| - 1], rows), layers[|layers| - 1], rows)
  }

  /** Tables where tables belong, and scalars where settings belong. */
  ghost predicate WellShaped(layer: Value, row: Row) {
    !OverwritesVisuals(layer) && !OverwritesSection(layer, row) && Scalars(layer, row)
  }

  /** No two rows clear the same nested setting for different flat spellings. */
  ghost predicate NestedDetermineFlat(rows: seq<Row>) {
    forall r, s | r in rows && s in rows && r.section == s.section && r.nested == s.nested :: r.flat == s.flat
  }

  lemma ScalarsAfterLayer(base: Value, over: Value, row: Row, rows: seq<Row>)
    requires Scalars(base, row) && WellShaped(over, row)
    ensures Scalars(MergedLayer(base, over, rows), row)
  {
    SpellingsAfterLayer(base, over, row, rows);
  }

  lemma ScalarsAfterAnyLayer(base: Value, over: Value, row: Row, rows: seq<Row>)
    requires Scalars(base, row) && Scalars(over, row)
    ensures Scalars(MergedLayer(base, over, rows), row)
  {
    if OverwritesVisuals(over) {
      GetAfterOverwrite(base, over, rows);
    } else {
      SpellingsAfterLayer(base, over, row, rows);
    }
  }

  lemma {:induction false} ScalarsAfterLayers(base: Value, layers: seq<Value>, row: Row, rows: seq<Row>)
    requires Scalars(base, row) && forall layer <- layers :: Scalars(layer, row)
    ensures Scalars(MergedLayers(base, layers, rows), row)
  {
    if layers != [] {
      var init, top := layers[..|layers| - 1], layers[|layers| - 1];
      ScalarsAfterLayers(base, init, row, rows);
      ScalarsAfterAnyLayer(MergedLayers(base, init, rows), top, row, rows);
    }
  }

  /** `last` is the last layer that sets the setting, or -1 when none does. */
  ghost predicate IsLastSetter(layers: seq<Value>, row: Row, last: int) {
    && -1 <= last < |layers|
    && (last >= 0 ==> Effective(layers[last], row).Some?)
    && forall i | last < i < |layers| :: Effective(layers[i], row).None?
  }

  /** What the stack leaves of the flat spelling: the last one set since `visuals` was last overwritten whole. */
  ghost function LastFlat(base: Value, layers: seq<Value>, row: Row): Option<Value> {
    if layers == [] then Flat(base, row)
    else
      var top := layers[|layers| - 1];
      if OverwritesVisuals(top) then None
      else if Flat(top, row).Some? then Flat(top, row)
      else LastFlat(base, layers[..|layers| - 1], row)
  }

  /** The layer removes the nested spelling of `row` from what lies below. */
  ghost predicate DropsNested(over: Value, row: Row, rows: seq<Row>) {
    OverwritesVisuals(over) || OverwritesSection(over, row) || Replaces(over, row, rows)
  }

  /** And of the nested one: the last one set, unless dropped since. */
  ghost function LastNested(base: Value, layers: seq<Value>, row: Row, rows: seq<Row>): Option<Value> {
    if layers == [] then Nested(base, row)
    else
      var top := layers[|layers| - 1];
      if !OverwritesVisuals(top) && Nested(top, row).Some? then Nested(top, row)
      else if DropsNested(top, row, rows) then None
      else LastNested(base, layers[..|layers| - 1], row, rows)
  }

  /** Both spellings after a stack of any shape, from its layers alone. */
  lemma {:induction false} SpellingsAfterLayers(base: Value, layers: seq<Value>, row: Row, rows: seq<Row>)
    requires Scalars(base, row) && forall layer <- layers :: Scalars(layer, row)
    ensures Flat(MergedLayers(base, layers, rows), row) == LastFlat(base, layers, row)
    ensures Nested(MergedLayers(base, layers, rows), row) == LastNested(base, layers, row, rows)
  {
    if layers != [] {
      var init, top := layers[..|layers| - 1], layers[|layers| - 1];
      SpellingsAfterLayers(base, init, row, rows);
      ScalarsAfterLayers(base, init, row, rows);
      if OverwritesVisuals(top) {
        GetAfterOverwrite(MergedLayers(base, init, rows), top, rows);
      } else {
        SpellingsAfterLayer(MergedLayers(base, init, rows), top, row, rows);
      }
    }
  }

  /** Some layer after `last` overwrites all of `visuals`. */
  ghost predicate LosesVisualsAfter(layers: seq<Value>, last: int)
    requires -1 <= last < |layers|
  {
    exists i: nat :: last < i < |layers| && OverwritesVisuals(layers[i])
  }

  /** Some layer after `last` drops the nested spelling. */
  ghost predicate DropsNestedAfter(layers: seq<Value>, last: int, row: Row, rows: seq<Row>)
    requires -1 <= last < |layers|
  {
    exists i: nat :: last < i < |layers| && DropsNested(layers[i], row, rows)
  }

  /** Layers that are silent about the setting only lose it. */
  lemma {:induction false} SilentLayersFlat(base: Value, layers: seq<Value>, row: Row, last: int)
    requires IsLastSetter(layers, row, last)
    ensures LastFlat(base, layers, row)
            == if LosesVisualsAfter(layers, last) then None else LastFlat(base, layers[..last + 1], row)
    decreases |layers|
  {
    var n := |layers| - 1;
    if last == n {
      assert layers[..last + 1] == layers;
    } else {
      SilentLayersFlat(base, layers[..n], row, last);
      assert layers[..n][..last + 1] == layers[..last + 1];
      assert Effective(layers[n], row).None?;
      if LosesVisualsAfter(layers[..n], last) {
        var i: nat :| last < i < n && OverwritesVisuals(layers[..n][i]);
        assert OverwritesVisuals(layers[i]);
      }
    }
  }

  lemma {:induction false} SilentLayersNested(base: Value, layers: seq<Value>, row: Row, rows: seq<Row>, last: int)
    requires IsLastSetter(layers, row, last)
    ensures LastNested(base, layers, row, rows)
            == if DropsNestedAfter(layers, last, row, rows) then None
               else LastNested(base, layers[..last + 1], row, rows)
    decreases |layers|
  {
    var n := |layers| - 1;
    if last == n {
      assert layers[..last + 1] == layers;
    } else {
      SilentLayersNested(base, layers[..n], row, rows, last);
      assert layers[..n][..last + 1] == layers[..last + 1];
      assert Effective(layers[n], row).None?;
      if DropsNestedAfter(layers[..n], last, row, rows) {
        var i: nat :| last < i < n && DropsNested(layers[..n][i], row, rows);
        assert DropsNested(layers[i], row, rows);
      }
    }
  }

  /** What the last setter says: the layer `last`, or the base. */
  ghost function Setter(base: Value, layers: seq<Value>, last: int): Value
    requires -1 <= last < |layers|
  {
    if last >= 0 then layers[last] else base
  }

  /** Exactly when the last setter is what the merged document says, from the layers alone: `visuals` is not overwritten
      later, and the spelling it uses is not beaten.  A nested one must not be dropped later, unless it leaves the same
      value in the flat spelling; and a flat one must not meet an older nested one that says otherwise. */
  ghost predicate LastSetterStands(base: Value, layers: seq<Value>, row: Row, rows: seq<Row>, last: int)
    requires -1 <= last < |layers|
  {
    var setter, upTo := Setter(base, layers, last), layers[..last + 1];
    && !LosesVisualsAfter(layers, last)
    && if Nested(setter, row).Some? then
         !DropsNestedAfter(layers, last, row, rows) || LastFlat(base, upTo, row) == Nested(setter, row)
       else
         var older := LastNested(base, upTo, row, rows);
         older.None? || DropsNestedAfter(layers, last, row, rows) || older == Flat(setter, row)
  }

  /** The setter's own spellings are on top of what lies below it. */
  lemma SetterOnTop(base: Value, layers: seq<Value>, row: Row, rows: seq<Row>, last: int)
    requires IsLastSetter(layers, row, last)
    ensures var setter, upTo := Setter(base, layers, last), layers[..last + 1];
            && (last >= 0 ==> !OverwritesVisuals(setter))
            && (Nested(setter, row).Some? ==> LastNested(base, upTo, row, rows) == Nested(setter, row))
            && (Flat(setter, row).Some? ==> LastFlat(base, upTo, row) == Flat(setter, row))
  {
    var upTo := layers[..last + 1];
    if last >= 0 {
      assert upTo[|upTo| - 1] == layers[last];
    }
  }

  /** For any stack, setting and mapping table. */
  lemma LastWriterWinsIff(base: Value, layers: seq<Value>, row: Row, rows: seq<Row>, last: int)
    requires IsLastSetter(layers, row, last) && Effective(Setter(base, layers, last), row).Some?
    requires Scalars(base, row) && forall layer <- layers :: Scalars(layer, row)
    ensures Effective(MergedLayers(base, layers, rows), row) == Effective(Setter(base, layers, last), row)
       <==> LastSetterStands(base, layers, row, rows, last)
  {
    SpellingsAfterLayers(base, layers, row, rows);
    SilentLayersFlat(base, layers, row, last);
    SilentLayersNested(base, layers, row, rows, last);
    SetterOnTop(base, layers, row, rows, last);
    if LosesVisualsAfter(layers, last) {
      var i: nat :| last < i < |layers| && OverwritesVisuals(layers[i]);
      assert DropsNested(layers[i], row, rows);
    }
  }

  /** The last layer that sets a mapped setting, in either spelling, decides what is read;
      the base decides when none does. */
  lemma {:induction false} LastWriterWins(base: Value, layers: seq<Value>, row: Row, rows: seq<Row>, last: int)
    requires row in rows && NestedDetermineFlat(rows)
    requires Scalars(base, row) && forall layer <- layers :: WellShaped(layer, row)
    requires IsLastSetter(layers, row, last)
    ensures Effective(MergedLayers(base, layers, rows), row) == Effective(if last >= 0 then layers[last] else base, row)
    ensures Scalars(MergedLayers(base, layers, rows), row)
  {
    if layers != [] {
      var init, top := layers[..|layers| - 1], layers[|layers| - 1];
      var before := LastSetterBelow(init, row, last);
      LastWriterWins(base, init, row, rows, before);
      ScalarsAfterLayer(MergedLayers(base, init, rows), top, row, rows);
      LayerWinsIff(MergedLayers(base, init, rows), top, row, rows);
    }
  }

  lemma {:induction false} LastSetterBelow(layers: seq<Value>, row: Row, last: int) returns (before: int)
    requires -1 <= last <= |layers|
    requires forall i | last < i < |layers| :: Effective(layers[i], row).None?
    requires 0 <= last < |layers| ==> Effective(layers[last], row).Some?
    ensures last < |layers| ==> before == last
    ensures IsLastSetter(layers, row, before)
  {
    before := last;
    if last == |layers| {
      before := |layers| - 1;
      while before >= 0 && Effective(layers[before], row).None?
        invariant -1 <= before < |layers|
        invariant forall i | before < i < |layers| :: Effective(layers[i], row).None?
      {
        before := before - 1;
      }
    }
  }

  // ---- The program's own mapping table

  function PairsOf(section: string): seq<(string, string)> {
    if section == "input" then INPUT_PAIRS else
    if section == "avatar" then AVATAR_PAIRS else
    if section == "username" then USERNAME_PAIRS else
    if section == "clock" then CLOCK_PAIRS else
    if section == "date" then DATE_PAIRS else
    if section == "placeholder" then [("placeholder_color", "color")] else
    if section == "eye" then [("eye_icon_color", "color")] else
    if section == "keyboard" then KEYBOARD_PAIRS else
    if section == "battery" then BATTERY_PAIRS else
    if section == "status" then [("status_color", "color")] else
    if section == "palette" then PALETTE_PAIRS else []
  }

  lemma KeysDifferWithinSection(section: string, i: nat, j: nat)
    requires i < j < |PairsOf(section)|
    ensures PairsOf(section)[i].1 != PairsOf(section)[j].1
  {
  }

  lemma RowIsInItsSection(row: Row) returns (i: nat)
    requires row in LEGACY_VISUAL_MAPPINGS
    ensures i < |PairsOf(row.section)| && PairsOf(row.section)[i] == (row.flat, row.nested)
  {
    i :| 0 <= i < |PairsOf(row.section)| && PairsOf(row.section)[i] == (row.flat, row.nested);
  }

  lemma RowsAgree(r: Row, s: Row)
    requires r in LEGACY_VISUAL_MAPPINGS && s in LEGACY_VISUAL_MAPPINGS
    requires r.section == s.section && r.nested == s.nested
    ensures r.flat == s.flat
  {
    var i := RowIsInItsSection(r);
    var j := RowIsInItsSection(s);
    if i < j {
      KeysDifferWithinSection(r.section, i, j);
    } else if j < i {
      KeysDifferWithinSection(r.section, j, i);
    }
  }

  lemma MappingRowsAreDistinct()
    ensures NestedDetermineFlat(LEGACY_VISUAL_MAPPINGS)
  {
    forall r, s | r in LEGACY_VISUAL_MAPPINGS && s in LEGACY_VISUAL_MAPPINGS
                    && r.section == s.section && r.nested == s.nested
      ensures r.flat == s.flat
    {
      RowsAgree(r, s);
    }
  }

  /** `avatar_radius` has both spellings (crates/common/src/config/visuals/identity.rs:123-128) but no row. */
  const AVATAR_RADIUS := Row("avatar_radius", "avatar", "radius")

  lemma AvatarRadiusIsUnmapped()
    ensures forall r <- LEGACY_VISUAL_MAPPINGS :: r.section != AVATAR_RADIUS.section || r.nested != AVATAR_RADIUS.nested
  {
  }

  /** So a later layer's flat `avatar_radius` is ignored exactly when an older layer left another nested one. */
  lemma FlatAvatarRadiusIsIgnoredIff(base: Value, over: Value)
    requires Scalars(base, AVATAR_RADIUS) && WellShaped(over, AVATAR_RADIUS)
    ensures Effective(MergedLayer(base, over, LEGACY_VISUAL_MAPPINGS), AVATAR_RADIUS)
            != Layered(base, over, AVATAR_RADIUS)
       <==> && Flat(over, AVATAR_RADIUS).Some? && Nested(over, AVATAR_RADIUS).None?
            && Nested(base, AVATAR_RADIUS).Some? && Nested(base, AVATAR_RADIUS) != Flat(over, AVATAR_RADIUS)
  {
    AvatarRadiusIsUnmapped();
    LayerWinsIff(base, over, AVATAR_RADIUS, LEGACY_VISUAL_MAPPINGS);
  }

  /** As here: the user's `avatar_radius` is ignored under a theme that sets `avatar.radius`. */
  lemma AvatarRadiusIsLost()
    ensures var theme := Table(map[VISUALS := Table(map["avatar" := Table(map["radius" := Leaf("8")])])]);
            var user := Table(map[VISUALS := Table(map["avatar_radius" := Leaf("12")])]);
            && WellShaped(user, AVATAR_RADIUS) && Effective(user, AVATAR_RADIUS) == Some(Leaf("12"))
            && Effective(MergedLayer(theme, user, LEGACY_VISUAL_MAPPINGS), AVATAR_RADIUS) == Some(Leaf("8"))
  {
    var theme := Table(map[VISUALS := Table(map["avatar" := Table(map["radius" := Leaf("8")])])]);
    var user := Table(map[VISUALS := Table(map["avatar_radius" := Leaf("12")])]);
    AvatarRadiusIsUnmapped();
    SpellingsAfterLayer(theme, user, AVATAR_RADIUS, LEGACY_VISUAL_MAPPINGS);
  }

  /** And a section set to a colour, which the configuration accepts (crates/common/src/config/visuals/input.rs:5-10),
      drops the theme's settings of that section, of which it says nothing. */
  lemma SectionAsColorDropsSettings()
    ensures var theme := Table(map[VISUALS := Table(map["input" := Table(map["font_size" := Leaf("20")])])]);
            var user := Table(map[VISUALS := Table(map["input" := Leaf("#ffffff")])]);
            var row := Row("input_font_size", "input", "font_size");
            && row in LEGACY_VISUAL_MAPPINGS
            && Effective(theme, row) == Some(Leaf("20")) && Effective(user, row) == None
            && Effective(MergedLayer(theme, user, LEGACY_VISUAL_MAPPINGS), row) == None
  {
    var theme := Table(map[VISUALS := Table(map["input" := Table(map["font_size" := Leaf("20")])])]);
    var user := Table(map[VISUALS := Table(map["input" := Leaf("#ffffff")])]);
    var row := Row("input_font_size", "input", "font_size");
    assert LEGACY_VISUAL_MAPPINGS[3] == row;
    SpellingsAfterLayer(theme, user, row, LEGACY_VISUAL_MAPPINGS);
  }

  // ---- The loader's layer order

  /** `theme` and `include` steer the loader and are not settings. */
  function WithoutMetadata(value: Value): Value {
    if value.Table? then Table(value.entries - {"theme", "include"}) else value
  }

  /** The layers laid on the hardcoded defaults, bottom up.  The bundled default theme is read only when the user
      names no theme, and may be missing; so may included files. */
  function LayerStack(bundled: Option<Value>, theme: Option<Value>, includes: seq<Option<Value>>,
                      user: Value): seq<Value> {
    (if theme.Some? then [theme.value] else if bundled.Some? then [bundled.value] else [])
    + Present(includes) + [WithoutMetadata(user)]
  }

  /** The include files that exist, each without its own metadata. */
  function Present(includes: seq<Option<Value>>): seq<Value> {
    if includes == [] then []
    else
      var last := includes[|includes| - 1];
      Present(includes[..|includes| - 1]) + if last.Some? then [WithoutMetadata(last.value)] else []
  }

  lemma MergedLayersPush(base: Value, layers: seq<Value>, top: Value, rows: seq<Row>)
    ensures MergedLayers(base, layers + [top], rows) == MergedLayer(MergedLayers(base, layers, rows), top, rows)
  {
    assert (layers + [top])[..|layers|] == layers;
  }

  /** The loaded configuration. */
  function Loaded(hardcoded: Value, bundled: Option<Value>, theme: Option<Value>, includes: seq<Option<Value>>,
                  user: Value): Value
  {
    WithoutMetadata(MergedLayers(hardcoded, LayerStack(bundled, theme, includes, user), LEGACY_VISUAL_MAPPINGS))
  }

  method FromTomlStrWithThemeSupport(hardcoded: Value, bundled: Option<Value>, theme: Option<Value>,
                                     includes: seq<Option<Value>>, user: Value)
    returns (config: Value)
    ensures config == Loaded(hardcoded, bundled, theme, includes, user)
  {
    config := hardcoded;
    var first := if theme.Some? then theme else bundled;
    ghost var below: seq<Value> := [];
    if first.Some? {
      MergedLayersPush(hardcoded, [], first.value, LEGACY_VISUAL_MAPPINGS);
      config := MergeConfigLayer(config, first.value);
      below := [first.value];
      assert [] + [first.value] == below;
    }
    config := MergeIncludes(config, includes, hardcoded, below);
    MergedLayersPush(hardcoded, below + Present(includes), WithoutMetadata(user), LEGACY_VISUAL_MAPPINGS);
    config := MergeConfigLayer(config, WithoutMetadata(user));
    assert LayerStack(bundled, theme, includes, user) == below + Present(includes) + [WithoutMetadata(user)];
    config := WithoutMetadata(config);
  }

  /** Merges the includes that exist onto the layers merged so far. */
  method MergeIncludes(config: Value, includes: seq<Option<Value>>, ghost base: Value, ghost below: seq<Value>)
    returns (slot: Value)
    requires config == MergedLayers(base, below, LEGACY_VISUAL_MAPPINGS)
    ensures slot == MergedLayers(base, below + Present(includes), LEGACY_VISUAL_MAPPINGS)
  {
    slot := config;
    assert below + Present(includes[..0]) == below;
    for i := 0 to |includes|
      invariant slot == MergedLayers(base, below + Present(includes[..i]), LEGACY_VISUAL_MAPPINGS)
    {
      assert includes[..i + 1][..i] == includes[..i];
      if includes[i].Some? {
        var layer := WithoutMetadata(includes[i].value);
        MergedLayersPush(base, below + Present(includes[..i]), layer, LEGACY_VISUAL_MAPPINGS);
        assert below + Present(includes[..i]) + [layer] == below + Present(includes[..i + 1]);
        slot := MergeConfigLayer(slot, layer);
      } else {
        assert Present(includes[..i + 1]) == Present(includes[..i]);
      }
    }
    assert includes[..|includes|] == includes;
  }

  // ---- Which source a setting is read from

  /** A layer that says something of the setting decides it, and one that does not leaves it alone. */
  ghost predicate LayersDecide(setting: Value -> Option<Value>, below: Value -> bool, fits: Value -> bool) {
    && (forall base, over | below(base) && fits(over) ::
          && below(MergedLayer(base, over, LEGACY_VISUAL_MAPPINGS))
          && setting(MergedLayer(base, over, LEGACY_VISUAL_MAPPINGS))
             == if setting(over).Some? then setting(over) else setting(base))
    && forall value :: setting(WithoutMetadata(value)) == setting(value)
                       && (fits(value) ==> fits(WithoutMetadata(value)))
  }

  lemma {:induction false} TopDecides(setting: Value -> Option<Value>, below: Value -> bool, fits: Value -> bool,
                                      base: Value, layers: seq<Value>)
    requires LayersDecide(setting, below, fits) && below(base) && forall layer <- layers :: fits(layer)
    ensures var merged := MergedLayers(base, layers, LEGACY_VISUAL_MAPPINGS);
            below(merged) && setting(merged) == TopOf(setting, layers, setting(base))
  {
    if layers != [] {
      TopDecides(setting, below, fits, base, layers[..|layers| - 1]);
    }
  }

  lemma {:induction false} PresentFits(fits: Value -> bool, includes: seq<Option<Value>>)
    requires forall value | fits(value) :: fits(WithoutMetadata(value))
    requires forall file <- includes :: file.Some? ==> fits(file.value)
    ensures forall layer <- Present(includes) :: fits(layer)
  {
    if includes != [] {
      assert includes[|includes| - 1] in includes;
      PresentFits(fits, includes[..|includes| - 1]);
    }
  }

  lemma {:induction false} TopOfPresent(setting: Value -> Option<Value>, before: Option<Value>,
                                        includes: seq<Option<Value>>)
    requires forall value :: setting(WithoutMetadata(value)) == setting(value)
    ensures TopOf(setting, Present(includes), before) == TopOfIncludes(setting, includes, before)
  {
    if includes != [] {
      var init, last := includes[..|includes| - 1], includes[|includes| - 1];
      TopOfPresent(setting, before, init);
      if last.Some? {
        TopOfPush(setting, Present(init), WithoutMetadata(last.value), before);
      } else {
        assert Present(includes) == Present(init);
      }
    }
  }

  lemma LoadedInOrder(setting: Value -> Option<Value>, below: Value -> bool, fits: Value -> bool, hardcoded: Value,
                      bundled: Option<Value>, theme: Option<Value>, includes: seq<Option<Value>>, user: Value)
    requires LayersDecide(setting, below, fits) && below(hardcoded) && fits(user)
    requires forall source <- [bundled, theme] + includes :: source.Some? ==> fits(source.value)
    ensures ComesFrom(setting(Loaded(hardcoded, bundled, theme, includes, user)), setting,
                      hardcoded, bundled, theme, includes, user)
  {
    var sources := [bundled, theme] + includes;
    assert sources[0] == bundled && sources[1] == theme && forall file <- includes :: file in sources;
    var first := if theme.Some? then [theme.value] else if bundled.Some? then [bundled.value] else [];
    var before := TopOf(setting, first, setting(hardcoded));
    PresentFits(fits, includes);
    TopOfPresent(setting, before, includes);
    TopOfIncludesInOrder(setting, includes, before);
    TopDecides(setting, below, fits, hardcoded, LayerStack(bundled, theme, includes, user));
    TopOfPush(setting, first + Present(includes), WithoutMetadata(user), setting(hardcoded));
    TopOfAppend(setting, first, Present(includes), setting(hardcoded));
  }

  /** The loader's own keys are gone. */
  lemma LoadedHasNoMetadata(hardcoded: Value, bundled: Option<Value>, theme: Option<Value>,
                            includes: seq<Option<Value>>, user: Value)
    ensures var loaded := Loaded(hardcoded, bundled, theme, includes, user);
            Get(loaded, "theme") == None && Get(loaded, "include") == None
  {
  }

  /** Of a setting outside `visuals`, in a section that is a table wherever it is there. */
  lemma OtherSettingComesFrom(hardcoded: Value, bundled: Option<Value>, theme: Option<Value>,
                              includes: seq<Option<Value>>, user: Value, section: string, key: string)
    requires section != VISUALS && section != "theme" && section != "include"
    requires SectionFits(hardcoded, section, key) && SectionFits(user, section, key)
    requires forall source <- [bundled, theme] + includes :: source.Some? ==> SectionFits(source.value, section, key)
    ensures ComesFrom(GetIn(Get(Loaded(hardcoded, bundled, theme, includes, user), section), key),
                      value => GetIn(Get(value, section), key), hardcoded, bundled, theme, includes, user)
  {
    OtherLayersDecide(section, key);
    var fits := value => SectionFits(value, section, key);
    LoadedInOrder(value => GetIn(Get(value, section), key), fits, fits, hardcoded, bundled, theme, includes, user);
  }

  lemma OtherLayersDecide(section: string, key: string)
    requires section != VISUALS && section != "theme" && section != "include"
    ensures LayersDecide(value => GetIn(Get(value, section), key), value => SectionFits(value, section, key),
                         value => SectionFits(value, section, key))
  {
    forall base, over | SectionFits(base, section, key) && SectionFits(over, section, key)
      ensures var merged := MergedLayer(base, over, LEGACY_VISUAL_MAPPINGS);
              && SectionFits(merged, section, key)
              && GetIn(Get(merged, section), key)
                 == if GetIn(Get(over, section), key).Some? then GetIn(Get(over, section), key)
                    else GetIn(Get(base, section), key)
    {
      OtherSettingAfterLayer(base, over, section, key);
    }
  }

  predicate SectionFits(value: Value, section: string, key: string) {
    && value.Table? && (section in value.entries ==> value.entries[section].Table?)
    && (GetIn(Get(value, section), key).Some? ==> !GetIn(Get(value, section), key).value.Table?)
  }

  lemma OtherSettingAfterLayer(base: Value, over: Value, section: string, key: string)
    requires section != VISUALS && SectionFits(base, section, key) && SectionFits(over, section, key)
    ensures var merged := MergedLayer(base, over, LEGACY_VISUAL_MAPPINGS);
            && SectionFits(merged, section, key)
            && GetIn(Get(merged, section), key)
               == if GetIn(Get(over, section), key).Some? then GetIn(Get(over, section), key)
                  else GetIn(Get(base, section), key)
  {
    var prepared := Prepared(base, over, LEGACY_VISUAL_MAPPINGS);
    assert Get(prepared, section) == Get(base, section);
    GetAfterMerge(prepared, over, section);
    if Get(base, section).Some? && Get(over, section).Some? {
      GetAfterMerge(Get(base, section).value, Get(over, section).value, key);
    }
  }
}
