/** Parsed TOML documents and the recursive merge that lays one over another
    (crates/common/src/config/mod.rs). */
module ConfigValue {

  /** A TOML value.  Every scalar kind (string, integer, float, boolean, datetime) is a `Leaf`:
      the merge never looks inside one. */
  datatype Value =
    | Leaf(text: string)
    | Arr(items: seq<Value>)
    | Table(entries: map<string, Value>)

  /** The result of laying `over` on `base`: tables merge key by key, and anything else is replaced. */
  function Merge(base: Value, over: Value): Value
    decreases over
  {
    if base.Table? && over.Table? then
      Table(map key | key in base.entries.Keys + over.entries.Keys ::
              if key !in over.entries then base.entries[key]
              else if key !in base.entries then over.entries[key]
              else Merge(base.entries[key], over.entries[key]))
    else
      over
  }

  /** The program's merge.  Rust's `&mut Value` is an exclusive borrow, so the slot is passed in and handed back.
      The override's keys come in any order. */
  method MergeTomlValues(base: Value, over: Value) returns (slot: Value)
    ensures slot == Merge(base, over)
    decreases over
  {
    if !base.Table? || !over.Table? {
      return over;
    }
    ghost var merged := Merge(base, over).entries;
    var table, pending := base.entries, over.entries.Keys;
    while pending != {}
      invariant pending <= over.entries.Keys
      invariant forall key <- pending :: key in table <==> key in base.entries
      invariant forall key <- pending :: key in table ==> table[key] == base.entries[key]
      invariant forall key | key !in pending :: key in table <==> key in merged
      invariant forall key | key !in pending && key in table :: table[key] == merged[key]
      decreases |pending|
    {
      var key :| key in pending;
      var entry := over.entries[key];
      if key in table {
        entry := MergeTomlValues(table[key], entry);
      }
      assert entry == merged[key];
      table := table[key := entry];
      pending := pending - {key};
    }
    assert table == merged;
    slot := Table(table);
  }

  // ---- Merge algebra

  lemma {:induction false} MergeWithItself(a: Value)
    ensures Merge(a, a) == a
    decreases a
  {
    if a.Table? {
      forall key <- a.entries.Keys ensures Merge(a.entries[key], a.entries[key]) == a.entries[key] {
        MergeWithItself(a.entries[key]);
      }
      assert Merge(a, a).entries == a.entries;
    }
  }

  /** Laying the same document on twice changes nothing: an include repeated in the list is harmless. */
  lemma {:induction false} MergeAbsorbs(a: Value, b: Value)
    ensures Merge(Merge(a, b), b) == Merge(a, b)
    decreases b
  {
    if a.Table? && b.Table? {
      var once := Merge(a, b);
      forall key <- b.entries.Keys ensures Merge(once.entries[key], b.entries[key]) == once.entries[key] {
        if key in a.entries {
          MergeAbsorbs(a.entries[key], b.entries[key]);
        } else {
          MergeWithItself(b.entries[key]);
        }
      }
      assert Merge(once, b).entries == once.entries;
    } else {
      MergeWithItself(b);
    }
  }

  /** `over` already says everything `base` says: no key of `base` survives a merge that `over`
      does not bring itself. */
  ghost predicate Subsumes(over: Value, base: Value)
    decreases over
  {
    over.Table? && base.Table? ==>
      forall key <- base.entries.Keys ::
        key in over.entries && Subsumes(over.entries[key], base.entries[key])
  }

  lemma {:induction false} SubsumedIffMergeIsOver(base: Value, over: Value)
    ensures Merge(base, over) == over <==> Subsumes(over, base)
    decreases over
  {
    if base.Table? && over.Table? {
      forall key | key in base.entries && key in over.entries
        ensures Merge(base.entries[key], over.entries[key]) == over.entries[key]
           <==> Subsumes(over.entries[key], base.entries[key])
      {
        SubsumedIffMergeIsOver(base.entries[key], over.entries[key]);
      }
      var merged := Merge(base, over).entries;
      if Subsumes(over, base) {
        assert merged == over.entries;
      } else {
        var key :| key in base.entries && !(key in over.entries && Subsumes(over.entries[key], base.entries[key]));
        assert key in merged;
      }
    }
  }

  /** Where the three documents share a path, a non-table `b` between tables `a` and `c` hides `a`
      from the left-to-right merge only.  That is harmless exactly when `c` repeats all of `a`. */
  ghost predicate Regroups(a: Value, b: Value, c: Value)
    decreases c
  {
    if a.Table? && c.Table? && !b.Table? then
      Subsumes(c, a)
    else if a.Table? && b.Table? && c.Table? then
      forall key | key in a.entries && key in b.entries && key in c.entries ::
        Regroups(a.entries[key], b.entries[key], c.entries[key])
    else
      true
  }

  /** Merging layers left to right, as the loader does, agrees with merging the later two first exactly when every
      table of the first layer that a non-table of the second cuts off from a table of the third is repeated there. */
  lemma {:induction false} MergeAssociativeIff(a: Value, b: Value, c: Value)
    ensures Merge(Merge(a, b), c) == Merge(a, Merge(b, c)) <==> Regroups(a, b, c)
    decreases c
  {
    if a.Table? && c.Table? && !b.Table? {
      SubsumedIffMergeIsOver(a, c);
    } else if a.Table? && b.Table? && c.Table? {
      var left, right := Merge(Merge(a, b), c).entries, Merge(a, Merge(b, c)).entries;
      assert left.Keys == right.Keys;
      forall key | key in left
        ensures left[key] == right[key] <==>
                (key in a.entries && key in b.entries && key in c.entries
                 ==> Regroups(a.entries[key], b.entries[key], c.entries[key]))
      {
        if key in a.entries && key in b.entries && key in c.entries {
          MergeAssociativeIff(a.entries[key], b.entries[key], c.entries[key]);
        }
      }
      if Regroups(a, b, c) {
        assert left == right;
      } else {
        var key :| key in a.entries && key in b.entries && key in c.entries
                   && !Regroups(a.entries[key], b.entries[key], c.entries[key]);
        assert key in left;
      }
    }
  }

  /** The failing case exists: a scalar layer between two tables. */
  lemma MergeNotAssociative()
    ensures exists a, b, c :: Merge(Merge(a, b), c) != Merge(a, Merge(b, c))
  {
    var a, b, c := Table(map["k" := Leaf("1")]), Leaf("x"), Table(map[]);
    assert "k" in Merge(a, Merge(b, c)).entries;
    assert Merge(Merge(a, b), c) != Merge(a, Merge(b, c));
  }
}
