/** The checkpoint state-dict key normaliser run when the renderer loads a
    trained model: a chain of dictionary comprehensions and one loop over the
    loaded key/value pairs, each rewriting key prefixes.

    Python dictionaries are modelled as association lists in insertion
    order. Storing an existing key overwrites its value in place, and storing
    a new key appends it. Lookups find the (unique) entry with that key, so
    the model keeps exactly what the source relies on: which keys survive,
    under what names, with which values, and which of two colliding keys wins.
    Tensor values are opaque. */
module CheckpointKeys {
  import opened Common

  /** A Python dict: its items in insertion order. */
  type Dict<V> = seq<(string, V)>

  const ModulePrefix: string := "module."
  const ModelPrefix: string := "_model."
  const DdpModelPrefix: string := "_model.module."
  const AppearanceTag: string := "embedding_appearance"

  predicate DistinctKeys<V>(d: Dict<V>)
  {
    forall i, j :: 0 <= i < j < |d| ==> d[i].0 != d[j].0
  }

  /** Position of the first entry with key `k`, or `|d|` when there is none. */
  function Find<V>(d: Dict<V>, k: string): (i: nat)
    ensures i <= |d|
    ensures i < |d| ==> d[i].0 == k
    ensures forall j :: 0 <= j < i ==> d[j].0 != k
  {
    if d == [] then 0
    else if d[0].0 == k then 0
    else 1 + Find(d[1..], k)
  }

  /** `d.get(k)`. */
  function Lookup<V>(d: Dict<V>, k: string): (r: Option<V>)
    ensures r.Some? <==> exists j :: 0 <= j < |d| && d[j].0 == k
    ensures r.Some? ==> r.value == d[Find(d, k)].1
  {
    var i := Find(d, k);
    if i < |d| then Some(d[i].1) else None
  }

  /** In a dict with distinct keys the entry at position `j` is what a lookup
      of its key finds. */
  lemma LookupAt<V>(d: Dict<V>, j: nat)
    requires DistinctKeys(d) && j < |d|
    ensures Lookup(d, d[j].0) == Some(d[j].1)
  {
    var i := Find(d, d[j].0);
    assert !(i < j) && !(j < i);
  }

  /** Appending an entry changes the lookup of its key only if the key was
      absent, and changes no other lookup. */
  lemma LookupSnoc<V>(d: Dict<V>, e: (string, V), k: string)
    ensures Lookup(d + [e], k) ==
      (if Lookup(d, k).Some? then Lookup(d, k) else if e.0 == k then Some(e.1) else None)
  {
    var a := Find(d + [e], k);
    var b := Find(d, k);
    if b < |d| {
      assert (d + [e])[b].0 == k;
    } else {
      if e.0 == k {
        assert (d + [e])[|d|].0 == k;
      }
    }
  }

  /** `d[k] = v`: overwrite in place when the key exists, append otherwise. */
  function Put<V>(d: Dict<V>, k: string, v: V): (r: Dict<V>)
    ensures Lookup(r, k) == Some(v)
    ensures forall k' :: k' != k ==> Lookup(r, k') == Lookup(d, k')
    ensures DistinctKeys(d) ==> DistinctKeys(r)
    ensures Lookup(d, k).Some? ==> |r| == |d|
    ensures Lookup(d, k).None? ==> |r| == |d| + 1
  {
    var i := Find(d, k);
    if i < |d| then
      var r := d[i := (k, v)];
      assert Find(r, k) == i by {
        assert r[i].0 == k;
      }
      assert forall k' :: k' != k ==> Find(r, k') == Find(d, k') by {
        forall k' | k' != k
          ensures Find(r, k') == Find(d, k')
        {
          assert forall j :: 0 <= j < |d| ==> (r[j].0 == k' <==> d[j].0 == k');
        }
      }
      r
    else
      var r := d + [(k, v)];
      LookupSnoc(d, (k, v), k);
      assert forall k' :: k' != k ==> Lookup(r, k') == Lookup(d, k') by {
        forall k' | k' != k
          ensures Lookup(r, k') == Lookup(d, k')
        {
          LookupSnoc(d, (k, v), k');
        }
      }
      r
  }

  /** `key[n:]` in Python: the empty string when `n` exceeds the length. */
  function SliceFrom(key: string, n: nat): string
  {
    if n <= |key| then key[n..] else []
  }

  /** `key[len(p):] if key.startswith(p) else key`. */
  function DropPrefix(key: string, p: string): (r: string)
    ensures StartsWith(key, p) ==> key == p + r
    ensures !StartsWith(key, p) ==> r == key
  {
    if StartsWith(key, p) then key[|p|..] else key
  }

  // ---------------------------------------------------------------------
  // Stage 1: strip a leading "module." from every loaded key

  /** `{ (key[len("module."):] if key.startswith("module.") else key): value
      for key, value in loaded_state.items() }`, item by item. */
  function StripModule<V>(loaded: Dict<V>): (state: Dict<V>)
    ensures DistinctKeys(state)
    decreases |loaded|
  {
    if loaded == [] then []
    else
      var last := loaded[|loaded| - 1];
      Put(StripModule(loaded[..|loaded| - 1]), DropPrefix(last.0, ModulePrefix), last.1)
  }

  /** Reference: the value of the LAST loaded item whose key, after the strip,
      is `k` (a dict comprehension keeps the later value on a collision). */
  function LastMatch<V>(loaded: Dict<V>, k: string): (r: Option<V>)
    ensures r.Some? <==> exists i :: 0 <= i < |loaded| && DropPrefix(loaded[i].0, ModulePrefix) == k
    decreases |loaded|
  {
    if loaded == [] then None
    else
      var last := loaded[|loaded| - 1];
      if DropPrefix(last.0, ModulePrefix) == k then Some(last.1)
      else
        var r := LastMatch(loaded[..|loaded| - 1], k);
        assert forall i :: 0 <= i < |loaded| - 1 ==> loaded[..|loaded| - 1][i] == loaded[i];
        r
  }

  /** When `"module.x"` and `"x"` both occur, the one loaded later supplies
      the value of `"x"`; every other key keeps its own value. */
  lemma {:induction false} LaterKeyWins<V>(loaded: Dict<V>, k: string)
    ensures Lookup(StripModule(loaded), k) == LastMatch(loaded, k)
    decreases |loaded|
  {
    if loaded != [] {
      LaterKeyWins(loaded[..|loaded| - 1], k);
    }
  }

  // ---------------------------------------------------------------------
  // Stage 2: the loop that keeps "_model." keys and decides the DDP flag

  /** The model-state dict the loop builds from the items `state`. */
  function ModelPart<V>(state: Dict<V>): Dict<V>
    decreases |state|
  {
    if state == [] then []
    else
      var last := state[|state| - 1];
      var rest := ModelPart(state[..|state| - 1]);
      if StartsWith(last.0, ModelPrefix) then Put(rest, last.0[|ModelPrefix|..], last.1) else rest
  }

  /** Every `"_model."` key continues with `"module."` (true when there are none). */
  predicate AllDdp<V>(state: Dict<V>)
  {
    forall j :: 0 <= j < |state| && StartsWith(state[j].0, ModelPrefix) ==> StartsWith(state[j].0, DdpModelPrefix)
  }

  /** The loop over `state.items()`: keep `"_model."` keys with that prefix
      removed, and clear the DDP flag at the first such key that does not go
      on with `"module."`. The result is a dict, and on a dict it maps `k` to
      what `"_model." + k` held. */
  method SplitModelState<V>(state: Dict<V>) returns (modelState: Dict<V>, isDdp: bool)
    ensures DistinctKeys(modelState)
    ensures DistinctKeys(state) ==> forall k :: Lookup(modelState, k) == Lookup(state, ModelPrefix + k)
    ensures isDdp <==> AllDdp(state)
    ensures isDdp <==> forall j :: 0 <= j < |state| && StartsWith(state[j].0, ModelPrefix) ==>
                         StartsWith(state[j].0[|ModelPrefix|..], ModulePrefix)
    ensures (forall j :: 0 <= j < |state| ==> !StartsWith(state[j].0, ModelPrefix)) ==> isDdp && modelState == []
  {
    modelState := [];
    isDdp := true;
    var i := 0;
    while i < |state|
      invariant 0 <= i <= |state|
      invariant modelState == ModelPart(state[..i])
      invariant isDdp <==> AllDdp(state[..i])
    {
      var key := state[i].0;
      var value := state[i].1;
      assert state[..i + 1][..i] == state[..i];
      if StartsWith(key, ModelPrefix) {
        modelState := Put(modelState, key[|ModelPrefix|..], value);
        if !StartsWith(key, DdpModelPrefix) {
          isDdp := false;
        }
      }
      i := i + 1;
    }
    assert state[..i] == state;
    forall j | 0 <= j < |state| && StartsWith(state[j].0, ModelPrefix)
      ensures StartsWith(state[j].0, DdpModelPrefix) <==> StartsWith(state[j].0[|ModelPrefix|..], ModulePrefix)
    {
      var key := state[j].0;
      assert key == ModelPrefix + key[|ModelPrefix|..];
      if StartsWith(key, DdpModelPrefix) {
        assert key[|ModelPrefix|..][..|ModulePrefix|] == key[..|DdpModelPrefix|][|ModelPrefix|..];
      }
      if StartsWith(key[|ModelPrefix|..], ModulePrefix) {
        assert key[..|DdpModelPrefix|] == ModelPrefix + key[|ModelPrefix|..][..|ModulePrefix|];
      }
    }
    if forall j :: 0 <= j < |state| ==> !StartsWith(state[j].0, ModelPrefix) {
      ModelPartEmpty(state);
    }
    ModelPartDistinct(state);
    if DistinctKeys(state) {
      forall k ensures Lookup(modelState, k) == Lookup(state, ModelPrefix + k) {
        ModelPartLookup(state, k);
      }
    }
  }

  lemma {:induction false} ModelPartEmpty<V>(state: Dict<V>)
    requires forall j :: 0 <= j < |state| ==> !StartsWith(state[j].0, ModelPrefix)
    ensures ModelPart(state) == []
    decreases |state|
  {
    if state != [] {
      ModelPartEmpty(state[..|state| - 1]);
    }
  }

  /** On a dict, the model part maps `k` to what `"_model." + k` held: the
      prefix is removed from exactly the keys that have it, nothing collides. */
  lemma {:induction false} ModelPartLookup<V>(state: Dict<V>, k: string)
    requires DistinctKeys(state)
    ensures Lookup(ModelPart(state), k) == Lookup(state, ModelPrefix + k)
    decreases |state|
  {
    if state != [] {
      var init := state[..|state| - 1];
      var last := state[|state| - 1];
      assert state == init + [last];
      ModelPartLookup(init, k);
      LookupSnoc(init, last, ModelPrefix + k);
      if StartsWith(last.0, ModelPrefix) {
        var k' := last.0[|ModelPrefix|..];
        assert last.0 == ModelPrefix + k';
        if k == k' {
          LookupAt(state, |state| - 1);
        } else {
          PrefixInjective(ModelPrefix, k, k');
        }
      } else {
        assert last.0 != ModelPrefix + k by {
          PrefixRoundTrip(ModelPrefix, k);
        }
      }
    }
  }

  lemma PrefixInjective(p: string, a: string, b: string)
    requires a != b
    ensures p + a != p + b
  {
    assert (p + a)[|p|..] == a;
    assert (p + b)[|p|..] == b;
  }

  // ---------------------------------------------------------------------
  // Stage 3: drop appearance-embedding keys

  /** `{ key: value for key, value in d.items()
      if 'embedding_appearance' not in key }`. */
  function DropAppearance<V>(d: Dict<V>): (r: Dict<V>)
    ensures forall j :: 0 <= j < |r| ==> !Contains(r[j].0, AppearanceTag)
    decreases |d|
  {
    if d == [] then []
    else
      var last := d[|d| - 1];
      var rest := DropAppearance(d[..|d| - 1]);
      if Contains(last.0, AppearanceTag) then rest else rest + [last]
  }

  /** Filtering keeps the lookup of every key without the tag and removes the
      others. */
  lemma {:induction false} DropAppearanceLookup<V>(d: Dict<V>, k: string)
    ensures Lookup(DropAppearance(d), k) == (if Contains(k, AppearanceTag) then None else Lookup(d, k))
    decreases |d|
  {
    if d != [] {
      var init := d[..|d| - 1];
      var last := d[|d| - 1];
      assert d == init + [last];
      DropAppearanceLookup(init, k);
      LookupSnoc(init, last, k);
      if !Contains(last.0, AppearanceTag) {
        LookupSnoc(DropAppearance(init), last, k);
      }
    }
  }

  // ---------------------------------------------------------------------
  // Stage 4: strip the "module." prefix DDP training added

  /** `{ key[len("module."):]: value for key, value in d.items() }`. */
  function StripDdp<V>(d: Dict<V>): Dict<V>
    decreases |d|
  {
    if d == [] then []
    else
      var last := d[|d| - 1];
      Put(StripDdp(d[..|d| - 1]), SliceFrom(last.0, |ModulePrefix|), last.1)
  }

  /** When every key starts with `"module."` the strip is a renaming: `k`
      maps to what `"module." + k` held. */
  lemma {:induction false} StripDdpLookup<V>(d: Dict<V>, k: string)
    requires DistinctKeys(d)
    requires forall j :: 0 <= j < |d| ==> StartsWith(d[j].0, ModulePrefix)
    ensures Lookup(StripDdp(d), k) == Lookup(d, ModulePrefix + k)
    decreases |d|
  {
    if d != [] {
      var init := d[..|d| - 1];
      var last := d[|d| - 1];
      assert d == init + [last];
      StripDdpLookup(init, k);
      LookupSnoc(init, last, ModulePrefix + k);
      var k' := SliceFrom(last.0, |ModulePrefix|);
      assert last.0 == ModulePrefix + k';
      if k == k' {
        LookupAt(d, |d| - 1);
      } else {
        PrefixInjective(ModulePrefix, k, k');
      }
    }
  }

  // ---------------------------------------------------------------------
  // The whole normaliser

  /** The state dict handed to `load_state_dict`. */
  function Normalise<V>(loaded: Dict<V>): Dict<V>
  {
    var state := StripModule(loaded);
    var kept := DropAppearance(ModelPart(state));
    if AllDdp(state) then StripDdp(kept) else kept
  }

  /** Reference for the DDP flag, stated on the loaded keys: every key that,
      after the optional `"module."`, starts with `"_model."` goes on with
      `"module."`. */
  predicate DdpCheckpoint<V>(loaded: Dict<V>)
  {
    forall i :: 0 <= i < |loaded| && StartsWith(DropPrefix(loaded[i].0, ModulePrefix), ModelPrefix) ==>
      StartsWith(DropPrefix(loaded[i].0, ModulePrefix), DdpModelPrefix)
  }

  /** Reference for the whole normaliser: the output maps `k` to the value of
      the last loaded item whose key is `["module."] "_model." [M] k`, where M
      is `"module."` for a DDP checkpoint and empty otherwise, provided the
      model-state key `M k` does not mention the appearance embedding. */
  function Expected<V>(loaded: Dict<V>, k: string): Option<V>
  {
    var inner := if DdpCheckpoint(loaded) then ModulePrefix + k else k;
    if Contains(inner, AppearanceTag) then None else LastMatch(loaded, ModelPrefix + inner)
  }

  /** The DDP flag computed on the stripped dict is the reference flag. */
  lemma DdpFlagMatches<V>(loaded: Dict<V>)
    ensures AllDdp(StripModule(loaded)) <==> DdpCheckpoint(loaded)
  {
    var state := StripModule(loaded);
    if AllDdp(state) {
      forall i | 0 <= i < |loaded| && StartsWith(DropPrefix(loaded[i].0, ModulePrefix), ModelPrefix)
        ensures StartsWith(DropPrefix(loaded[i].0, ModulePrefix), DdpModelPrefix)
      {
        var key := DropPrefix(loaded[i].0, ModulePrefix);
        LaterKeyWins(loaded, key);
        var j :| 0 <= j < |state| && state[j].0 == key;
      }
    }
    if DdpCheckpoint(loaded) {
      forall j | 0 <= j < |state| && StartsWith(state[j].0, ModelPrefix)
        ensures StartsWith(state[j].0, DdpModelPrefix)
      {
        LaterKeyWins(loaded, state[j].0);
        var i :| 0 <= i < |loaded| && DropPrefix(loaded[i].0, ModulePrefix) == state[j].0;
      }
    }
  }

  /** The model part keys all start with `"module."` when the flag is set, so
      the last stage may strip it. */
  lemma DdpKeysCarryModule<V>(state: Dict<V>)
    requires DistinctKeys(state) && AllDdp(state)
    ensures forall j :: 0 <= j < |ModelPart(state)| ==> StartsWith(ModelPart(state)[j].0, ModulePrefix)
  {
    var mp := ModelPart(state);
    forall j | 0 <= j < |mp|
      ensures StartsWith(mp[j].0, ModulePrefix)
    {
      var k := mp[j].0;
      ModelPartLookup(state, k);
      assert Lookup(mp, k).Some?;
      var i :| 0 <= i < |state| && state[i].0 == ModelPrefix + k;
      PrefixRoundTrip(ModelPrefix, k);
      assert StartsWith(ModelPrefix + k, DdpModelPrefix);
      assert DdpModelPrefix == ModelPrefix + ModulePrefix;
      StartsWithAfterPrefix(ModelPrefix, ModulePrefix, k);
    }
  }

  /** Filtering keeps a subset of the entries. */
  lemma {:induction false} DropAppearanceSubset<V>(d: Dict<V>)
    ensures forall j :: 0 <= j < |DropAppearance(d)| ==> DropAppearance(d)[j] in d
    ensures DistinctKeys(d) ==> DistinctKeys(DropAppearance(d))
    decreases |d|
  {
    if d != [] {
      var init := d[..|d| - 1];
      assert d == init + [d[|d| - 1]];
      DropAppearanceSubset(init);
      var rest := DropAppearance(init);
      if DistinctKeys(d) && DropAppearance(d) != rest {
        forall j | 0 <= j < |rest|
          ensures rest[j].0 != d[|d| - 1].0
        {
          var i :| 0 <= i < |init| && init[i] == rest[j];
          assert d[i] == init[i];
        }
      }
    }
  }

  /** The normaliser agrees with the reference on every key: values travel
      unchanged, the later of two colliding keys wins, only `"_model."` keys
      survive, appearance-embedding keys are dropped, and a DDP checkpoint
      loses its `"module."` prefix. */
  lemma NormaliseMatchesReference<V>(loaded: Dict<V>, k: string)
    ensures Lookup(Normalise(loaded), k) == Expected(loaded, k)
  {
    var state := StripModule(loaded);
    var mp := ModelPart(state);
    var kept := DropAppearance(mp);
    DdpFlagMatches(loaded);
    if AllDdp(state) {
      DdpKeysCarryModule(state);
      DropAppearanceSubset(mp);
      assert DistinctKeys(mp) by { ModelPartDistinct(state); }
      forall j | 0 <= j < |kept|
        ensures StartsWith(kept[j].0, ModulePrefix)
      {
        assert kept[j] in mp;
      }
      StripDdpLookup(kept, k);
      DropAppearanceLookup(mp, ModulePrefix + k);
      ModelPartLookup(state, ModulePrefix + k);
      LaterKeyWins(loaded, ModelPrefix + (ModulePrefix + k));
    } else {
      DropAppearanceLookup(mp, k);
      ModelPartLookup(state, k);
      LaterKeyWins(loaded, ModelPrefix + k);
    }
  }

  lemma {:induction false} ModelPartDistinct<V>(state: Dict<V>)
    ensures DistinctKeys(ModelPart(state))
    decreases |state|
  {
    if state != [] {
      ModelPartDistinct(state[..|state| - 1]);
    }
  }

  /** No key handed to `load_state_dict` mentions the appearance embedding,
      including after the DDP strip. */
  lemma NoAppearanceKeys<V>(loaded: Dict<V>, k: string)
    requires Lookup(Normalise(loaded), k).Some?
    ensures !Contains(k, AppearanceTag)
  {
    NormaliseMatchesReference(loaded, k);
    if DdpCheckpoint(loaded) && Contains(k, AppearanceTag) {
      PrefixRoundTrip(ModulePrefix, k);
      ContainsInSuffix(ModulePrefix + k, |ModulePrefix|, AppearanceTag);
    }
  }

  /** The output is a dict: its keys are distinct. */
  lemma NormaliseDistinct<V>(loaded: Dict<V>)
    ensures DistinctKeys(Normalise(loaded))
  {
    var state := StripModule(loaded);
    ModelPartDistinct(state);
    DropAppearanceSubset(ModelPart(state));
    if AllDdp(state) {
      StripDdpDistinct(DropAppearance(ModelPart(state)));
    }
  }

  lemma {:induction false} StripDdpDistinct<V>(d: Dict<V>)
    ensures DistinctKeys(StripDdp(d))
    decreases |d|
  {
    if d != [] {
      StripDdpDistinct(d[..|d| - 1]);
    }
  }
}
