/** What a merge of two layers holds at a path of keys, empty tables included. */
module MergePaths {
  import opened Wrappers
  import opened TomlTree

  /** The value that a path of keys leads to. */
  function Reached(v: Value, keys: seq<string>): Option<Value> {
    if keys == [] then Some(v)
    else if v.Table? && keys[0] in v.entries then Reached(v.entries[keys[0]], keys[1..])
    else None
  }

  /** Somewhere on its way down, before the end, the path meets a value that is no table. */
  predicate MeetsValue(v: Value, keys: seq<string>) {
    exists n :: 0 <= n < |keys| && EndsInValue(v, keys[..n])
  }

  predicate EndsInValue(v: Value, keys: seq<string>) {
    Reached(v, keys).Some? && !Reached(v, keys).value.Table?
  }

  lemma {:induction false} MeetsDeeper(v: Value, keys: seq<string>)
    requires v.Table? && keys != [] && keys[0] in v.entries
    ensures MeetsValue(v, keys) <==> MeetsValue(v.entries[keys[0]], keys[1..])
  {
    forall n | 0 < n <= |keys|
      ensures Reached(v, keys[..n]) == Reached(v.entries[keys[0]], keys[1..][..n - 1])
    {
      assert keys[..n][1..] == keys[1..][..n - 1];
    }
    if n :| 0 <= n < |keys| && EndsInValue(v, keys[..n]) {
      assert keys[..0] == [];
      assert n > 0 && EndsInValue(v.entries[keys[0]], keys[1..][..n - 1]);
    }
    if n :| 0 <= n < |keys| - 1 && EndsInValue(v.entries[keys[0]], keys[1..][..n]) {
      assert EndsInValue(v, keys[..n + 1]);
    }
  }

  lemma {:induction false} MeetsHere(v: Value, keys: seq<string>)
    requires keys != [] && !(v.Table? && keys[0] in v.entries)
    ensures MeetsValue(v, keys) <==> !v.Table?
  {
    assert keys[..0] == [];
    if !v.Table? {
      assert EndsInValue(v, keys[..0]);
    }
    forall n | 0 < n < |keys|
      ensures !EndsInValue(v, keys[..n])
    {
    }
  }

  /** The merge holds a path that the upper layer holds, or that the lower one holds where
      the upper has no value in the way. What is no table comes from the upper layer where
      that holds the path; a table stays a table. */
  lemma {:induction false} MergeReaches(base: Value, over: Value, keys: seq<string>)
    ensures var merged, lower, upper := Reached(Merge(base, over), keys), Reached(base, keys), Reached(over, keys);
            && (upper.None? ==> merged == if MeetsValue(over, keys) then None else lower)
            && (upper.Some? && !upper.value.Table? ==> merged == upper)
            && (upper.Some? && upper.value.Table? ==> merged.Some? && merged.value.Table?)
            && (upper.Some? && (lower.None? || !lower.value.Table?) ==> merged == upper)
    decreases |keys|
  {
    if keys != [] {
      var k := keys[0];
      if over.Table? && k in over.entries {
        MeetsDeeper(over, keys);
        if base.Table? && k in base.entries {
          MergeReaches(base.entries[k], over.entries[k], keys[1..]);
        }
      } else {
        MeetsHere(over, keys);
      }
    }
  }
}
