/** Which of several sources a setting comes from (crates/common/src/config/mod.rs:142-169).  A `setting` is any way to
    look one value up in a document. */
module ConfigOrder {
  import opened ConfigValue
  import opened Options

  /** The source is there and sets the setting. */
  ghost predicate Sets(source: Option<Value>, setting: Value -> Option<Value>) {
    source.Some? && setting(source.value).Some?
  }

  /** The last include that sets the setting decides it, else what was there before. */
  ghost predicate ComesFromIncludes(found: Option<Value>, setting: Value -> Option<Value>, before: Option<Value>,
                                    includes: seq<Option<Value>>)
  {
    && (forall k | 0 <= k < |includes| && Sets(includes[k], setting) ::
          (forall j | k < j < |includes| :: !Sets(includes[j], setting)) ==> found == setting(includes[k].value))
    && ((forall file <- includes :: !Sets(file, setting)) ==> found == before)
  }

  /** The user's file comes before the includes, and these before the theme, which the bundled one only stands in for;
      the defaults come last. */
  ghost predicate ComesFrom(found: Option<Value>, setting: Value -> Option<Value>, hardcoded: Value,
                            bundled: Option<Value>, theme: Option<Value>, includes: seq<Option<Value>>, user: Value)
  {
    if setting(user).Some? then found == setting(user)
    else
      ComesFromIncludes(found, setting,
                        if theme.Some? && Sets(theme, setting) then setting(theme.value)
                        else if theme.None? && Sets(bundled, setting) then setting(bundled.value)
                        else setting(hardcoded),
                        includes)
  }

  ghost function TopOfIncludes(setting: Value -> Option<Value>, includes: seq<Option<Value>>,
                               before: Option<Value>): Option<Value>
  {
    if includes == [] then before
    else
      var last := includes[|includes| - 1];
      if Sets(last, setting) then setting(last.value)
      else TopOfIncludes(setting, includes[..|includes| - 1], before)
  }

  lemma {:induction false} TopOfIncludesInOrder(setting: Value -> Option<Value>, includes: seq<Option<Value>>,
                                                before: Option<Value>)
    ensures ComesFromIncludes(TopOfIncludes(setting, includes, before), setting, before, includes)
  {
    if includes != [] {
      var init, last := includes[..|includes| - 1], includes[|includes| - 1];
      TopOfIncludesInOrder(setting, init, before);
      assert forall k | 0 <= k < |init| :: includes[k] == init[k];
      assert last in includes;
    }
  }

  /** What the last of the layers that sets the setting says, else what was there before. */
  ghost function TopOf(setting: Value -> Option<Value>, layers: seq<Value>, before: Option<Value>): Option<Value> {
    if layers == [] then before
    else
      var top := layers[|layers| - 1];
      if setting(top).Some? then setting(top) else TopOf(setting, layers[..|layers| - 1], before)
  }

  lemma TopOfPush(setting: Value -> Option<Value>, layers: seq<Value>, top: Value, before: Option<Value>)
    ensures TopOf(setting, layers + [top], before)
            == if setting(top).Some? then setting(top) else TopOf(setting, layers, before)
  {
    assert (layers + [top])[..|layers|] == layers;
  }

  lemma {:induction false} TopOfAppend(setting: Value -> Option<Value>, first: seq<Value>, layers: seq<Value>,
                                       before: Option<Value>)
    ensures TopOf(setting, first + layers, before) == TopOf(setting, layers, TopOf(setting, first, before))
  {
    if layers == [] {
      assert first + layers == first;
    } else {
      var n := |layers| - 1;
      TopOfAppend(setting, first, layers[..n], before);
      assert first + layers == first + layers[..n] + [layers[n]];
      TopOfPush(setting, first + layers[..n], layers[n], before);
    }
  }
}
