/** What the accessors read from the loaded configuration (crates/common/src/config/visuals).  Every section but one
    falls back on the flat spelling key by key.  The section `input` does not: as a table it is read with its own
    defaults for the keys it lacks (crates/common/src/config/visuals/input.rs:18-67), and only as a colour, which it
    also is when absent (:12-16), does it leave the flat spellings in force. */
module ConfigReading {
  import opened ConfigLayers
  import opened ConfigOrder
  import opened ConfigValue
  import opened Options

  const INPUT := "input"

  function Color(channels: seq<string>): Value {
    Arr(seq(|channels|, i requires 0 <= i < |channels| => Leaf(channels[i])))
  }

  /** The mapped keys of `InputVisualConfig::default`. */
  const INPUT_DEFAULTS: map<string, Value> := map[
    "font_family" := Leaf("Google Sans Flex"), "font_weight" := Leaf("400"), "font_style" := Leaf("normal"),
    "font_size" := Leaf("16"), "border_color" := Color(["255", "255", "255", "0"]), "width" := Leaf("310"),
    "height" := Leaf("54"), "radius" := Leaf("10"), "border_width" := Leaf("0"),
    "mask_color" := Color(["255", "255", "255"])
  ]

  ghost predicate SectionIsTable(value: Value, section: string) {
    var found := GetIn(Get(value, VISUALS), section);
    found.Some? && found.value.Table?
  }

  /** What the accessor of the setting returns; None is the type's own default. */
  ghost function Read(value: Value, row: Row): Option<Value> {
    if row.section == INPUT && SectionIsTable(value, INPUT) then
      if Nested(value, row).Some? then Nested(value, row)
      else if row.nested in INPUT_DEFAULTS then Some(INPUT_DEFAULTS[row.nested])
      else None
    else Effective(value, row)
  }

  /** The ten rows of `input`, each with a default. */
  ghost predicate IsInputRow(row: Row) {
    row in LEGACY_VISUAL_MAPPINGS && row.section == INPUT
  }

  lemma InputRowsHaveDefaults(row: Row)
    requires IsInputRow(row)
    ensures row.nested in INPUT_DEFAULTS
  {
    var i := RowIsInItsSection(row);
    assert INPUT_PAIRS[i] == (row.flat, row.nested);
  }

  // ---- The shape of a section after a stack

  /** The layer has something to say of the section's shape. */
  ghost predicate Mentions(layer: Value, section: string) {
    OverwritesVisuals(layer) || GetIn(Get(layer, VISUALS), section).Some?
  }

  /** The section ends up a table: so the last layer that mentions it has it. */
  ghost predicate EndsAsTable(base: Value, layers: seq<Value>, section: string) {
    if layers == [] then SectionIsTable(base, section)
    else
      var top := layers[|layers| - 1];
      if Mentions(top, section) then !OverwritesVisuals(top) && SectionIsTable(top, section)
      else EndsAsTable(base, layers[..|layers| - 1], section)
  }

  lemma SectionAfterLayer(base: Value, over: Value, section: string, rows: seq<Row>)
    ensures SectionIsTable(MergedLayer(base, over, rows), section)
       <==> if Mentions(over, section) then !OverwritesVisuals(over) && SectionIsTable(over, section)
            else SectionIsTable(base, section)
  {
    if OverwritesVisuals(over) {
      GetAfterOverwrite(base, over, rows);
    } else {
      GetAfterMerge(Prepared(base, over, rows), over, VISUALS);
      match (Get(base, VISUALS), Get(over, VISUALS)) {
        case (Some(Table(visuals)), Some(Table(overVisuals))) =>
          SectionsKeepTheirShape(visuals, overVisuals, rows, section);
          var kept := Table(WithoutReplaced(visuals, overVisuals, rows));
          assert Get(Prepared(base, over, rows), VISUALS) == Some(kept);
          GetAfterMerge(kept, Table(overVisuals), section);
        case _ =>
      }
    }
  }

  lemma {:induction false} SectionsKeepTheirShape(visuals: map<string, Value>, over: map<string, Value>,
                                                  rows: seq<Row>, section: string)
    ensures var after := WithoutReplaced(visuals, over, rows);
            (section in after <==> section in visuals)
            && (section in visuals ==> (after[section].Table? <==> visuals[section].Table?))
  {
    if rows != [] {
      SectionsKeepTheirShape(visuals, over, rows[..|rows| - 1], section);
    }
  }

  lemma {:induction false} SectionAfterLayers(base: Value, layers: seq<Value>, section: string, rows: seq<Row>)
    ensures SectionIsTable(MergedLayers(base, layers, rows), section) <==> EndsAsTable(base, layers, section)
  {
    if layers != [] {
      var init, top := layers[..|layers| - 1], layers[|layers| - 1];
      SectionAfterLayers(base, init, section, rows);
      SectionAfterLayer(MergedLayers(base, init, rows), top, section, rows);
    }
  }

  // ---- The settings of `input`

  /** Exactly when a setting of `input` reads as its last setter says, from the layers alone.  If the section ends up a
      table: the setter uses the nested spelling and no later layer drops it, or what it says is the default anyway.
      If it ends up a colour: the last setter stands with the flat spelling, as it would in any other section. */
  ghost predicate InputReadsAsSet(base: Value, layers: seq<Value>, row: Row, last: int)
    requires -1 <= last < |layers| && row.nested in INPUT_DEFAULTS
  {
    var setter := Setter(base, layers, last);
    if EndsAsTable(base, layers, INPUT) then
      || (Nested(setter, row).Some? && !DropsNestedAfter(layers, last, row, LEGACY_VISUAL_MAPPINGS))
      || Effective(setter, row) == Some(INPUT_DEFAULTS[row.nested])
    else
      LastSetterStands(base, layers, row, LEGACY_VISUAL_MAPPINGS, last)
  }

  /** A mapped setter clears the older nested spelling, or brings its own. */
  lemma MappedSetterClears(base: Value, layers: seq<Value>, row: Row, last: int)
    requires row in LEGACY_VISUAL_MAPPINGS && IsLastSetter(layers, row, last)
    ensures LastNested(base, layers[..last + 1], row, LEGACY_VISUAL_MAPPINGS) == Nested(Setter(base, layers, last), row)
  {
    SetterOnTop(base, layers, row, LEGACY_VISUAL_MAPPINGS, last);
    var upTo := layers[..last + 1];
    if last >= 0 && Nested(layers[last], row).None? {
      assert upTo[|upTo| - 1] == layers[last];
      assert Replaces(layers[last], row, LEGACY_VISUAL_MAPPINGS);
    }
  }

  lemma InputReadsAsSetIff(base: Value, layers: seq<Value>, row: Row, last: int)
    requires IsInputRow(row) && row.nested in INPUT_DEFAULTS
    requires IsLastSetter(layers, row, last) && Effective(Setter(base, layers, last), row).Some?
    requires Scalars(base, row) && forall layer <- layers :: Scalars(layer, row)
    ensures Read(MergedLayers(base, layers, LEGACY_VISUAL_MAPPINGS), row) == Effective(Setter(base, layers, last), row)
       <==> InputReadsAsSet(base, layers, row, last)
  {
    SectionAfterLayers(base, layers, INPUT, LEGACY_VISUAL_MAPPINGS);
    if EndsAsTable(base, layers, INPUT) {
      SpellingsAfterLayers(base, layers, row, LEGACY_VISUAL_MAPPINGS);
      SilentLayersFlat(base, layers, row, last);
      SilentLayersNested(base, layers, row, LEGACY_VISUAL_MAPPINGS, last);
      MappedSetterClears(base, layers, row, last);
    } else {
      LastWriterWinsIff(base, layers, row, LEGACY_VISUAL_MAPPINGS, last);
    }
  }

  // ---- The loaded configuration

  lemma WithoutMetadataReadsTheSame(value: Value, row: Row)
    ensures Read(WithoutMetadata(value), row) == Read(value, row)
  {
  }

  /** Exactly when the loaded configuration reads a mapped setting from the topmost layer that sets it: the user's file,
      then the includes from last to first, then the theme, then the defaults. */
  lemma LoadedSettingComesFromTheTopIff(hardcoded: Value, bundled: Option<Value>, theme: Option<Value>,
                                        includes: seq<Option<Value>>, user: Value, row: Row, last: int)
    requires row in LEGACY_VISUAL_MAPPINGS && Scalars(hardcoded, row)
    requires var layers := LayerStack(bundled, theme, includes, user);
             && (forall layer <- layers :: Scalars(layer, row)) && IsLastSetter(layers, row, last)
             && Effective(Setter(hardcoded, layers, last), row).Some?
    ensures row.section == INPUT ==> row.nested in INPUT_DEFAULTS
    ensures var layers := LayerStack(bundled, theme, includes, user);
            Read(Loaded(hardcoded, bundled, theme, includes, user), row)
              == Effective(Setter(hardcoded, layers, last), row)
            <==> if row.section == INPUT then InputReadsAsSet(hardcoded, layers, row, last)
                 else LastSetterStands(hardcoded, layers, row, LEGACY_VISUAL_MAPPINGS, last)
  {
    var layers := LayerStack(bundled, theme, includes, user);
    WithoutMetadataReadsTheSame(MergedLayers(hardcoded, layers, LEGACY_VISUAL_MAPPINGS), row);
    if row.section == INPUT {
      InputRowsHaveDefaults(row);
      InputReadsAsSetIff(hardcoded, layers, row, last);
    } else {
      LastWriterWinsIff(hardcoded, layers, row, LEGACY_VISUAL_MAPPINGS, last);
    }
  }

  /** In particular always, for the 34 settings of the other sections, as long as sections are tables. */
  lemma LoadedSettingComesFromTheTop(hardcoded: Value, bundled: Option<Value>, theme: Option<Value>,
                                     includes: seq<Option<Value>>, user: Value, row: Row, last: int)
    requires row in LEGACY_VISUAL_MAPPINGS && row.section != INPUT && Scalars(hardcoded, row)
    requires var layers := LayerStack(bundled, theme, includes, user);
             (forall layer <- layers :: WellShaped(layer, row)) && IsLastSetter(layers, row, last)
    ensures Read(Loaded(hardcoded, bundled, theme, includes, user), row)
            == Effective(Setter(hardcoded, LayerStack(bundled, theme, includes, user), last), row)
  {
    var layers := LayerStack(bundled, theme, includes, user);
    MappingRowsAreDistinct();
    LastWriterWins(hardcoded, layers, row, LEGACY_VISUAL_MAPPINGS, last);
    WithoutMetadataReadsTheSame(MergedLayers(hardcoded, layers, LEGACY_VISUAL_MAPPINGS), row);
  }

  /** The same with the order of the sources spelled out, for well-shaped ones: of every mapped setting in the merged
      document, and so of what is read outside `input`. */
  lemma MappedSettingComesFrom(hardcoded: Value, bundled: Option<Value>, theme: Option<Value>,
                               includes: seq<Option<Value>>, user: Value, row: Row)
    requires row in LEGACY_VISUAL_MAPPINGS && Scalars(hardcoded, row) && WellShaped(user, row)
    requires forall source <- [bundled, theme] + includes :: source.Some? ==> WellShaped(source.value, row)
    ensures var loaded := Loaded(hardcoded, bundled, theme, includes, user);
            && ComesFrom(Effective(loaded, row), value => Effective(value, row),
                         hardcoded, bundled, theme, includes, user)
            && (row.section != INPUT ==> Read(loaded, row) == Effective(loaded, row))
  {
    MappedLayersDecide(row);
    LoadedInOrder(value => Effective(value, row), value => Scalars(value, row), value => WellShaped(value, row),
                  hardcoded, bundled, theme, includes, user);
  }

  lemma MappedLayersDecide(row: Row)
    requires row in LEGACY_VISUAL_MAPPINGS
    ensures LayersDecide(value => Effective(value, row), value => Scalars(value, row), value => WellShaped(value, row))
  {
    forall base, over | Scalars(base, row) && WellShaped(over, row)
      ensures Scalars(MergedLayer(base, over, LEGACY_VISUAL_MAPPINGS), row)
      ensures Effective(MergedLayer(base, over, LEGACY_VISUAL_MAPPINGS), row) == Layered(base, over, row)
    {
      ScalarsAfterLayer(base, over, row, LEGACY_VISUAL_MAPPINGS);
      MappingRowsAreDistinct();
      LayerWinsIff(base, over, row, LEGACY_VISUAL_MAPPINGS);
    }
  }

  const INPUT_WIDTH := Row("input_width", "input", "width")

  function OnlyFlatWidth(width: string): Value {
    Table(map[VISUALS := Table(map["input_width" := Leaf(width)])])
  }

  function BothWidths(width: string): Value {
    Table(map[VISUALS := Table(map["input_width" := Leaf(width), "input" := Table(map["width" := Leaf(width)])])])
  }

  lemma WidthIsMapped()
    ensures INPUT_WIDTH in LEGACY_VISUAL_MAPPINGS
  {
    assert INPUT_WIDTH == LEGACY_VISUAL_MAPPINGS[5];
  }

  lemma OnlyFlatWidthSays(width: string)
    ensures var value := OnlyFlatWidth(width);
            && WellShaped(value, INPUT_WIDTH) && !Mentions(value, INPUT) && WithoutMetadata(value) == value
            && Flat(value, INPUT_WIDTH) == Some(Leaf(width)) && Nested(value, INPUT_WIDTH) == None
  {
  }

  lemma BothWidthsSay(width: string)
    ensures Scalars(BothWidths(width), INPUT_WIDTH) && SectionIsTable(BothWidths(width), INPUT)
  {
  }

  /** But not for the flat settings of `input`: over the hardcoded defaults, where the section is a table, a user file
      that only sets `input_width = 400` is read as 310. */
  lemma FlatInputWidthIsNotRead()
    ensures INPUT_WIDTH in LEGACY_VISUAL_MAPPINGS && WellShaped(OnlyFlatWidth("400"), INPUT_WIDTH)
    ensures Effective(OnlyFlatWidth("400"), INPUT_WIDTH) == Some(Leaf("400"))
    ensures Read(Loaded(BothWidths("310"), None, None, [], OnlyFlatWidth("400")), INPUT_WIDTH) == Some(Leaf("310"))
  {
    WidthIsMapped();
    OnlyFlatWidthSays("400");
    BothWidthsSay("310");
    FlatWidthGivesDefault(BothWidths("310"), OnlyFlatWidth("400"));
  }

  lemma FlatWidthGivesDefault(base: Value, user: Value)
    requires INPUT_WIDTH in LEGACY_VISUAL_MAPPINGS && Scalars(base, INPUT_WIDTH) && WellShaped(user, INPUT_WIDTH)
    requires Flat(user, INPUT_WIDTH).Some? && Nested(user, INPUT_WIDTH).None?
    requires SectionIsTable(base, INPUT) && !Mentions(user, INPUT) && WithoutMetadata(user) == user
    ensures Read(Loaded(base, None, None, [], user), INPUT_WIDTH) == Some(Leaf("310"))
  {
    assert LayerStack(None, None, [], user) == [] + [user];
    MergedLayersPush(base, [], user, LEGACY_VISUAL_MAPPINGS);
    SpellingsAfterLayer(base, user, INPUT_WIDTH, LEGACY_VISUAL_MAPPINGS);
    SectionAfterLayer(base, user, INPUT, LEGACY_VISUAL_MAPPINGS);
    assert Replaces(user, INPUT_WIDTH, LEGACY_VISUAL_MAPPINGS);
    WithoutMetadataReadsTheSame(MergedLayer(base, user, LEGACY_VISUAL_MAPPINGS), INPUT_WIDTH);
  }

  // ---- The mapping table and the accessors

  /** The accessors that fall back on a flat spelling, section by section: (flat spelling, nested key)
      (crates/common/src/config/visuals/clock.rs:148-275, identity.rs:107-207, indicators.rs:280-442, input.rs:127-227,
      layout.rs:62-89). */
  function Fallbacks(section: string): seq<(string, string)> {
    match section
    case "clock" => [
      ("clock_font_family", "font_family"), ("clock_font_weight", "font_weight"), ("clock_font_style", "font_style"),
      ("clock_style", "style"), ("clock_format", "format"), ("clock_meridiem_font_size", "meridiem_font_size"),
      ("clock_meridiem_x", "meridiem_x"), ("clock_meridiem_y", "meridiem_y"), ("clock_color", "color"),
      ("clock_font_size", "font_size")]
    case "date" => [("date_color", "color"), ("date_font_size", "font_size")]
    case "avatar" => [
      ("avatar_background_color", "background_color"), ("avatar_size", "size"), ("avatar_radius", "radius"),
      ("avatar_placeholder_padding", "placeholder_padding"), ("avatar_ring_color", "ring_color"),
      ("avatar_ring_width", "ring_width"), ("avatar_icon_color", "icon_color")]
    case "username" => [("username_color", "color"), ("username_font_size", "font_size")]
    case "placeholder" => [("placeholder_color", "color")]
    case "status" => [("status_color", "color")]
    case "eye" => [("eye_icon_color", "color")]
    case "keyboard" => [
      ("keyboard_color", "color"), ("keyboard_background_size", "background_size"), ("keyboard_size", "size")]
    case "battery" => [
      ("battery_color", "color"), ("battery_background_color", "background_color"),
      ("battery_background_size", "background_size"), ("battery_size", "size")]
    case "input" => [
      ("input_border", "border_color"), ("input_width", "width"), ("input_font_family", "font_family"),
      ("input_font_weight", "font_weight"), ("input_font_style", "font_style"), ("input_font_size", "font_size"),
      ("input_height", "height"), ("input_radius", "radius"), ("input_border_width", "border_width"),
      ("input_mask_color", "mask_color")]
    case "palette" => [
      ("foreground", "foreground"), ("muted", "muted"), ("pending", "pending"), ("rejected", "rejected")]
    case _ => []
  }

  /** Every one of them has its row in the mapping table, but for `avatar_radius`, and there are no other rows. */
  lemma MappedIffFallback(row: Row)
    ensures row in LEGACY_VISUAL_MAPPINGS
       <==> (row.flat, row.nested) in Fallbacks(row.section) && row != AVATAR_RADIUS
  {
    PairsAreFallbacks(row.section, (row.flat, row.nested));
    if row in LEGACY_VISUAL_MAPPINGS {
      var i := RowIsInItsSection(row);
    } else if (row.flat, row.nested) in PairsOf(row.section) {
      PairIsMapped(row);
    }
  }

  lemma PairsAreFallbacks(section: string, pair: (string, string))
    ensures pair in PairsOf(section) <==> pair in Fallbacks(section) && (section == "avatar" ==> pair.1 != "radius")
  {
  }

  lemma PairIsMapped(row: Row)
    requires (row.flat, row.nested) in PairsOf(row.section)
    ensures row in LEGACY_VISUAL_MAPPINGS
  {
    var i :| 0 <= i < |PairsOf(row.section)| && PairsOf(row.section)[i] == (row.flat, row.nested);
    assert Section(row.section, PairsOf(row.section))[i] == row;
    assert row in Section(row.section, PairsOf(row.section));
  }
}
