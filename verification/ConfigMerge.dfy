/**
 * Inheritance of configuration tables: `merge_config_tables` of
 * `src/config.rs`, which lays a child's settings over its base.
 */
module ConfigMerge {
  import opened Common

  /** A TOML value: a string, some other scalar, an array, or a table. */
  datatype Value = Text(text: string) | Other(token: string) | Array(items: seq<Value>) | Table(config: Config)

  datatype Config = Config(entries: map<string, Value>)

  const EMPTY := Config(map[])

  /** The keys whose arrays add to the inherited ones instead of replacing them. */
  predicate Additive(key: string) {
    key == "extend-exclude" || key == "extend-select"
  }

  /** Whether a child value is put together with the inherited one, rather than replacing it. */
  predicate Combines(key: string, base: Value, child: Value) {
    (base.Table? && child.Table?) || (base.Array? && child.Array? && Additive(key))
  }

  function Combine(key: string, base: Value, child: Value): Value
    decreases child
  {
    if !Combines(key, base, child) then child
    else if child.Table? then Table(Merge(base.config, child.config))
    else Array(base.items + child.items)
  }

  /** Key by key: what only one side sets is kept, what both set is combined. */
  function Merge(base: Config, child: Config): Config
    decreases child
  {
    Config(map key | key in base.entries.Keys + child.entries.Keys ::
             if key !in child.entries then base.entries[key]
             else if key !in base.entries then child.entries[key]
             else Combine(key, base.entries[key], child.entries[key]))
  }

  /**
   * What each key of the result holds: tables are merged in turn, the arrays
   * under two keys are joined with the inherited items first, and anything else
   * the child sets stands.
   */
  lemma MergedAt(base: Config, child: Config, key: string)
    ensures key in Merge(base, child).entries <==> key in base.entries || key in child.entries
    ensures key in Merge(base, child).entries ==>
      Merge(base, child).entries[key] ==
        if key !in child.entries then base.entries[key]
        else if key !in base.entries then child.entries[key]
        else match (base.entries[key], child.entries[key])
          case (Table(inherited), Table(own)) => Table(Merge(inherited, own))
          case (Array(inherited), Array(own)) =>
            if key in ["extend-exclude", "extend-select"] then Array(inherited + own) else Array(own)
          case (_, own) => own
  {
  }

  /** The in-place loop over the child's keys, whatever order they come in. */
  method MergeInto(base: Config, child: Config) returns (merged: Config)
    ensures merged == Merge(base, child)
    decreases child
  {
    var entries := base.entries;
    var todo := child.entries.Keys;
    while todo != {}
      invariant todo <= child.entries.Keys
      invariant entries.Keys == base.entries.Keys + (child.entries.Keys - todo)
      invariant forall key :: key in entries ==>
        entries[key] == if key in todo then base.entries[key] else Merge(base, child).entries[key]
    {
      var key :| key in todo;
      var value := child.entries[key];
      if key in entries && entries[key].Table? && value.Table? {
        var nested := MergeInto(entries[key].config, value.config);
        entries := entries[key := Table(nested)];
      } else if key in entries && entries[key].Array? && value.Array? && Additive(key) {
        entries := entries[key := Array(entries[key].items + value.items)];
      } else {
        entries := entries[key := value];
      }
      todo := todo - {key};
    }
    merged := Config(entries);
  }

  // --- Grouping ------------------------------------------------------------------

  /** Whether laying `child` over `base` leaves a trace of `base`. */
  ghost predicate Contributes(base: Config, child: Config)
    decreases child
  {
    exists key :: key in base.entries && AddsAt(key, base, child)
  }

  ghost predicate AddsAt(key: string, base: Config, child: Config)
    requires key in base.entries
    decreases child, 0
  {
    key !in child.entries || Adds(key, base.entries[key], child.entries[key])
  }

  ghost predicate Adds(key: string, base: Value, child: Value)
    decreases child
  {
    && Combines(key, base, child)
    && (if child.Table? then Contributes(base.config, child.config) else base.items != [])
  }

  lemma {:induction false} MergeChangesIff(base: Config, child: Config)
    ensures Merge(base, child) != child <==> Contributes(base, child)
    decreases child
  {
    var merged := Merge(base, child);
    forall key | key in base.entries && key in child.entries
      ensures merged.entries[key] != child.entries[key] <==> AddsAt(key, base, child)
    {
      CombineChangesIff(key, base.entries[key], child.entries[key]);
    }
    if Contributes(base, child) {
      var key :| key in base.entries && AddsAt(key, base, child);
      assert key in merged.entries;
    } else {
      assert forall key :: key in base.entries ==> !AddsAt(key, base, child);
      assert merged.entries.Keys == child.entries.Keys;
      assert merged.entries == child.entries;
    }
  }

  lemma {:induction false} CombineChangesIff(key: string, base: Value, child: Value)
    ensures Combine(key, base, child) != child <==> Adds(key, base, child)
    decreases child
  {
    if Combines(key, base, child) {
      if child.Table? {
        MergeChangesIff(base.config, child.config);
      } else if base.items != [] {
        assert |base.items + child.items| > |child.items|;
      } else {
        assert base.items + child.items == child.items;
      }
    }
  }

  /**
   * The middle layer keeps the base from the child: at some key it replaces
   * the base's value and is itself replaced, while the base's value on its own
   * would have combined with the child's.
   */
  ghost predicate Shields(base: Config, middle: Config, child: Config)
    decreases child
  {
    exists key :: key in base.entries && ShieldsAt(key, base, middle, child)
  }

  ghost predicate ShieldsAt(key: string, base: Config, middle: Config, child: Config)
    requires key in base.entries
    decreases child, 0
  {
    && key in middle.entries && key in child.entries
    && ShieldsValue(key, base.entries[key], middle.entries[key], child.entries[key])
  }

  ghost predicate ShieldsValue(key: string, base: Value, middle: Value, child: Value)
    decreases child
  {
    if Combines(key, middle, child)
    then base.Table? && child.Table? && Shields(base.config, middle.config, child.config)
    else Adds(key, base, child)
  }

  /** Three layers may be grouped either way exactly when the middle one shields nothing. */
  lemma {:induction false} MergeAssociatesIff(base: Config, middle: Config, child: Config)
    ensures Merge(Merge(base, middle), child) == Merge(base, Merge(middle, child))
       <==> !Shields(base, middle, child)
    decreases child
  {
    var left := Merge(Merge(base, middle), child);
    var right := Merge(base, Merge(middle, child));
    assert left.entries.Keys == right.entries.Keys;
    forall key | key in base.entries
      ensures left.entries[key] != right.entries[key] <==> ShieldsAt(key, base, middle, child)
    {
      if key in middle.entries && key in child.entries {
        CombineAssociatesIff(key, base.entries[key], middle.entries[key], child.entries[key]);
      }
    }
    if Shields(base, middle, child) {
      var key :| key in base.entries && ShieldsAt(key, base, middle, child);
      assert left.entries[key] != right.entries[key];
    } else {
      assert forall key :: key in base.entries ==> !ShieldsAt(key, base, middle, child);
      assert left.entries == right.entries;
    }
  }

  function Only(key: string, value: Value): Config {
    Config(map[key := value])
  }

  /** A scalar between two additive arrays cuts the inherited items off, unless it is laid under the child first. */
  lemma ScalarShieldsArray(key: string, items: seq<Value>, scalar: string, more: seq<Value>)
    requires Additive(key) && items != []
    ensures var base, middle, child := Only(key, Array(items)), Only(key, Other(scalar)), Only(key, Array(more));
      && Merge(Merge(base, middle), child).entries[key] == Array(more)
      && Merge(base, Merge(middle, child)).entries[key] == Array(items + more)
      && Shields(base, middle, child)
  {
    var base, middle, child := Only(key, Array(items)), Only(key, Other(scalar)), Only(key, Array(more));
    assert ShieldsAt(key, base, middle, child);
  }

  lemma {:induction false} CombineAssociatesIff(key: string, base: Value, middle: Value, child: Value)
    ensures Combine(key, Combine(key, base, middle), child) == Combine(key, base, Combine(key, middle, child))
       <==> !ShieldsValue(key, base, middle, child)
    decreases child
  {
    if !Combines(key, middle, child) {
      CombineChangesIff(key, base, child);
    } else if base.Table? && child.Table? {
      MergeAssociatesIff(base.config, middle.config, child.config);
    } else if base.Array? && child.Array? {
      assert base.items + (middle.items + child.items) == (base.items + middle.items) + child.items;
    }
  }

  /** Both scalars, both arrays, or both tables. */
  predicate Alike(a: Value, b: Value) {
    a.Array? == b.Array? && a.Table? == b.Table?
  }

  /** Wherever both set a key they set the same kind of value, down through nested tables. */
  ghost predicate KindsAgree(a: Config, b: Config)
    decreases b
  {
    forall key :: key in a.entries && key in b.entries ==> SameKind(a.entries[key], b.entries[key])
  }

  ghost predicate SameKind(a: Value, b: Value)
    decreases b
  {
    && Alike(a, b)
    && (a.Table? && b.Table? ==> KindsAgree(a.config, b.config))
  }

  /** Where the middle layer agrees in kind with the child, it shields nothing. */
  lemma {:induction false} AgreeingKindsShieldNothing(base: Config, middle: Config, child: Config)
    requires KindsAgree(base, middle) && KindsAgree(middle, child)
    ensures !Shields(base, middle, child)
    decreases child
  {
    forall key | key in base.entries ensures !ShieldsAt(key, base, middle, child) {
      if key in middle.entries && key in child.entries {
        assert SameKind(base.entries[key], middle.entries[key]);
        assert SameKind(middle.entries[key], child.entries[key]);
        if child.entries[key].Table? && base.entries[key].Table? {
          AgreeingKindsShieldNothing(
            base.entries[key].config, middle.entries[key].config, child.entries[key].config);
        }
      }
    }
  }

  // --- A whole chain ---------------------------------------------------------------

  /** The settings of a chain of layers, base first, each laid over what the ones before it gave. */
  function Effective(layers: seq<Config>): Config {
    if |layers| == 0 then EMPTY
    else Merge(Effective(layers[..|layers| - 1]), layers[|layers| - 1])
  }

  ghost predicate AllAgree(layers: seq<Config>) {
    forall i, j :: 0 <= i < j < |layers| ==> KindsAgree(layers[i], layers[j])
  }

  lemma {:induction false} MergeKeepsAgreement(a: Config, b: Config, c: Config)
    requires KindsAgree(a, b) && KindsAgree(a, c) && KindsAgree(b, c)
    ensures KindsAgree(Merge(a, b), c)
    decreases c
  {
    var merged := Merge(a, b);
    forall key | key in merged.entries && key in c.entries
      ensures SameKind(merged.entries[key], c.entries[key])
    {
      if key !in b.entries {
        assert SameKind(a.entries[key], c.entries[key]);
      } else {
        assert SameKind(b.entries[key], c.entries[key]);
        if key in a.entries {
          CombineKeepsKind(key, a.entries[key], b.entries[key], c.entries[key]);
        }
      }
    }
  }

  lemma {:induction false} CombineKeepsKind(key: string, a: Value, b: Value, c: Value)
    requires SameKind(a, b) && SameKind(a, c) && SameKind(b, c)
    ensures SameKind(Combine(key, a, b), c)
    decreases c
  {
    if c.Table? {
      MergeKeepsAgreement(a.config, b.config, c.config);
    }
  }

  lemma {:induction false} EffectiveAgrees(layers: seq<Config>, c: Config)
    requires AllAgree(layers)
    requires forall i :: 0 <= i < |layers| ==> KindsAgree(layers[i], c)
    ensures KindsAgree(Effective(layers), c)
    decreases |layers|
  {
    if |layers| > 0 {
      var init := layers[..|layers| - 1];
      EffectiveAgrees(init, c);
      EffectiveAgrees(init, layers[|layers| - 1]);
      MergeKeepsAgreement(Effective(init), layers[|layers| - 1], c);
    }
  }

  /** A chain of layers that agree in kind may be merged in any two parts. */
  lemma {:induction false} ChainsRegroup(lower: seq<Config>, upper: seq<Config>)
    requires AllAgree(lower + upper)
    ensures Effective(lower + upper) == Merge(Effective(lower), Effective(upper))
    decreases |upper|
  {
    if |upper| == 0 {
      assert lower + upper == lower;
      assert Merge(Effective(lower), EMPTY).entries == Effective(lower).entries;
    } else {
      var init, last := upper[..|upper| - 1], upper[|upper| - 1];
      assert (lower + upper)[..|lower + upper| - 1] == lower + init;
      assert lower + upper == lower + init + [last];
      AgreementSplits(lower, init, last);
      ChainsRegroup(lower, init);
      PartsAgree(lower, init, last);
      AgreeingLayersAssociate(Effective(lower), Effective(init), last);
    }
  }

  /** The parts of a chain that agrees in kind agree in kind, and with each other. */
  lemma AgreementSplits(lower: seq<Config>, upper: seq<Config>, last: Config)
    requires AllAgree(lower + upper + [last])
    ensures AllAgree(lower + upper) && AllAgree(lower) && AllAgree(upper)
    ensures forall i, j :: 0 <= i < |lower| && 0 <= j < |upper| ==> KindsAgree(lower[i], upper[j])
    ensures forall j :: 0 <= j < |upper| ==> KindsAgree(upper[j], last)
  {
    var all := lower + upper + [last];
    assert forall i :: 0 <= i < |lower| ==> all[i] == lower[i] == (lower + upper)[i];
    assert forall j :: 0 <= j < |upper| ==> all[|lower| + j] == upper[j] == (lower + upper)[|lower| + j];
    assert all[|lower| + |upper|] == last;
  }

  lemma AgreeingLayersAssociate(a: Config, b: Config, c: Config)
    requires KindsAgree(a, b) && KindsAgree(b, c)
    ensures Merge(Merge(a, b), c) == Merge(a, Merge(b, c))
  {
    AgreeingKindsShieldNothing(a, b, c);
    MergeAssociatesIff(a, b, c);
  }

  lemma PartsAgree(lower: seq<Config>, upper: seq<Config>, last: Config)
    requires AllAgree(lower) && AllAgree(upper)
    requires forall i, j :: 0 <= i < |lower| && 0 <= j < |upper| ==> KindsAgree(lower[i], upper[j])
    requires forall j :: 0 <= j < |upper| ==> KindsAgree(upper[j], last)
    ensures KindsAgree(Effective(lower), Effective(upper)) && KindsAgree(Effective(upper), last)
  {
    EffectiveAgrees(upper, last);
    forall j | 0 <= j < |upper| ensures KindsAgree(Effective(lower), upper[j]) {
      EffectiveAgrees(lower, upper[j]);
    }
    AgreesWithEffective(Effective(lower), upper);
  }

  lemma {:induction false} AgreesWithEffective(a: Config, layers: seq<Config>)
    requires forall i :: 0 <= i < |layers| ==> KindsAgree(a, layers[i])
    requires AllAgree(layers)
    ensures KindsAgree(a, Effective(layers))
    decreases |layers|
  {
    if |layers| > 0 {
      var init, last := layers[..|layers| - 1], layers[|layers| - 1];
      AgreesWithEffective(a, init);
      EffectiveAgrees(init, last);
      AgreesWithMerge(a, Effective(init), last);
    }
  }

  lemma {:induction false} AgreesWithMerge(a: Config, b: Config, c: Config)
    requires KindsAgree(a, b) && KindsAgree(a, c) && KindsAgree(b, c)
    ensures KindsAgree(a, Merge(b, c))
    decreases c
  {
    var merged := Merge(b, c);
    forall key | key in a.entries && key in merged.entries
      ensures SameKind(a.entries[key], merged.entries[key])
    {
      if key !in c.entries {
        assert SameKind(a.entries[key], b.entries[key]);
      } else {
        assert SameKind(a.entries[key], c.entries[key]);
        if key in b.entries {
          AgreesWithCombine(key, a.entries[key], b.entries[key], c.entries[key]);
        }
      }
    }
  }

  lemma {:induction false} AgreesWithCombine(key: string, a: Value, b: Value, c: Value)
    requires SameKind(a, b) && SameKind(a, c) && SameKind(b, c)
    ensures SameKind(a, Combine(key, b, c))
    decreases c
  {
    if c.Table? {
      AgreesWithMerge(a.config, b.config, c.config);
    }
  }

  // --- What a setting ends up as ------------------------------------------------------

  /** The value a table gives to a dotted key. */
  function At(config: Config, path: seq<string>): Option<Value>
    requires |path| > 0
    decreases |path|
  {
    if path[0] !in config.entries then None
    else if |path| == 1 then Some(config.entries[path[0]])
    else match config.entries[path[0]]
      case Table(nested) => At(nested, path[1..])
      case _ => None
  }

  /** One key is looked up; of several each but the last has to name a table. */
  lemma DottedKey(config: Config, key: string, rest: seq<string>)
    ensures At(config, [key]) == if key in config.entries then Some(config.entries[key]) else None
    ensures |rest| > 0 ==>
      At(config, [key] + rest) ==
        if key in config.entries && config.entries[key].Table? then At(config.entries[key].config, rest) else None
  {
    assert ([key] + rest)[1..] == rest;
  }

  function Over(key: string, base: Option<Value>, child: Option<Value>): Option<Value> {
    if child.None? then base else if base.None? then child
    else Some(Combine(key, base.value, child.value))
  }

  lemma {:induction false} MergeAt(base: Config, child: Config, path: seq<string>)
    requires |path| > 0 && KindsAgree(base, child)
    ensures At(Merge(base, child), path) == Over(path[|path| - 1], At(base, path), At(child, path))
    decreases |path|
  {
    if |path| > 1 && path[0] in base.entries && path[0] in child.entries {
      assert SameKind(base.entries[path[0]], child.entries[path[0]]);
      if child.entries[path[0]].Table? {
        MergeAt(base.entries[path[0]].config, child.entries[path[0]].config, path[1..]);
      }
    }
  }

  /** The arrays the layers set at `path`, one after the other from the base up. */
  function Gathered(layers: seq<Config>, path: seq<string>): seq<Value>
    requires |path| > 0
  {
    if |layers| == 0 then []
    else
      Gathered(layers[..|layers| - 1], path)
      + match At(layers[|layers| - 1], path)
        case Some(Array(items)) => items
        case _ => []
  }

  /** The value a chain gives to a dotted key, from the values its layers give to it. */
  function Settled(layers: seq<Config>, path: seq<string>): Option<Value>
    requires |path| > 0
  {
    if |layers| == 0 then None
    else Over(path[|path| - 1], Settled(layers[..|layers| - 1], path), At(layers[|layers| - 1], path))
  }

  /** In a chain that agrees in kind, what a dotted key ends up as depends on that key alone. */
  lemma {:induction false} EffectiveAt(layers: seq<Config>, path: seq<string>)
    requires AllAgree(layers) && |path| > 0
    ensures At(Effective(layers), path) == Settled(layers, path)
    decreases |layers|
  {
    if |layers| > 0 {
      EffectiveAt(layers[..|layers| - 1], path);
      EffectiveAgrees(layers[..|layers| - 1], layers[|layers| - 1]);
      MergeAt(Effective(layers[..|layers| - 1]), layers[|layers| - 1], path);
    }
  }

  /** Every layer that sets `path` sets it to a value like `like`. */
  ghost predicate AllLike(layers: seq<Config>, path: seq<string>, like: Value)
    requires |path| > 0
  {
    forall i :: 0 <= i < |layers| && At(layers[i], path).Some? ==> Alike(At(layers[i], path).value, like)
  }

  /** With arrays everywhere an additive key gathers them all. */
  lemma {:induction false} ArraysGather(layers: seq<Config>, path: seq<string>, like: Value)
    requires |path| > 0 && Additive(path[|path| - 1]) && like.Array? && AllLike(layers, path, like)
    ensures match Settled(layers, path)
            case Some(v) => v == Array(Gathered(layers, path))
            case None => Gathered(layers, path) == []
    decreases |layers|
  {
    if |layers| > 0 {
      ArraysGather(layers[..|layers| - 1], path, like);
    }
  }

  /** Where values replace one another the last one set stays. */
  lemma {:induction false} LastReplaces(layers: seq<Config>, path: seq<string>, i: nat)
    requires |path| > 0 && i < |layers| && SetLast(layers, path, i)
    requires !At(layers[i], path).value.Table?
    requires !(At(layers[i], path).value.Array? && Additive(path[|path| - 1]))
    ensures Settled(layers, path) == At(layers[i], path)
    decreases |layers|
  {
    if i < |layers| - 1 {
      LastReplaces(layers[..|layers| - 1], path, i);
    }
  }

  lemma {:induction false} SetMeansSettled(layers: seq<Config>, path: seq<string>, i: nat)
    requires |path| > 0 && i < |layers| && At(layers[i], path).Some?
    ensures Settled(layers, path).Some?
    decreases |layers|
  {
    if i < |layers| - 1 {
      SetMeansSettled(layers[..|layers| - 1], path, i);
    }
  }

  /** Layer `k` is the most derived one that sets `path`. */
  ghost predicate SetLast(layers: seq<Config>, path: seq<string>, k: nat)
    requires |path| > 0 && k < |layers|
  {
    At(layers[k], path).Some? && forall j :: k < j < |layers| ==> At(layers[j], path).None?
  }

  /**
   * In a chain that agrees in kind the most derived layer setting a value
   * decides it, except that additive arrays gather every layer's items, base
   * first.
   */
  lemma MostDerivedWins(layers: seq<Config>, path: seq<string>, i: nat)
    requires AllAgree(layers) && |path| > 0 && i < |layers|
    requires SetLast(layers, path, i) && !At(layers[i], path).value.Table?
    ensures At(Effective(layers), path)
         == if At(layers[i], path).value.Array? && Additive(path[|path| - 1])
            then Some(Array(Gathered(layers, path)))
            else At(layers[i], path)
  {
    EffectiveAt(layers, path);
    var like := At(layers[i], path).value;
    if like.Array? && Additive(path[|path| - 1]) {
      forall j | 0 <= j < |layers| && At(layers[j], path).Some? ensures Alike(At(layers[j], path).value, like) {
        if j < i {
          KindsAgreeAt(layers[j], layers[i], path);
        }
      }
      ArraysGather(layers, path, like);
      SetMeansSettled(layers, path, i);
    } else {
      LastReplaces(layers, path, i);
    }
  }

  lemma {:induction false} KindsAgreeAt(a: Config, b: Config, path: seq<string>)
    requires |path| > 0 && KindsAgree(a, b)
    requires At(a, path).Some? && At(b, path).Some?
    ensures Alike(At(a, path).value, At(b, path).value)
    decreases |path|
  {
    assert SameKind(a.entries[path[0]], b.entries[path[0]]);
    if |path| > 1 {
      KindsAgreeAt(a.entries[path[0]].config, b.entries[path[0]].config, path[1..]);
    }
  }
}
