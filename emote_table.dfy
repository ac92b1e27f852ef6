/**
 The binding table of the plugin (the two dictionaries `EmoteBindings` and
 `EmoteData`) as a value, with the functions that specify how each source of
 emotes fills it and how a frame's key presses are dispatched, and the lemmas
 that state what the source promises about them.
 */
module EmoteTable {
  import opened EmoteTypes

  const BaseSection := "Base Game Emotes"
  const CustomSection := "Custom Emotes"

  /** `EmoteBindings` (name to configuration entry) and `EmoteData` (name to record). */
  datatype Table = Table(bindings: map<string, ConfigEntry>, data: map<string, EmoteWheelData>)

  function Min(a: int, b: int): int
  {
    if a <= b then a else b
  }

  /** What each entry of a well-formed table looks like. */
  predicate WellFormedEntry(t: Table, cfg: Config, n: string)
    requires n in t.bindings && n in t.data
  {
    var e := t.bindings[n];
    && n != ""
    && e == Bind(cfg, e.section, n, e.defaultValue)
    && ((e.section == BaseSection
         && (e.defaultValue == KeyCode.None || e.defaultValue in DefaultKeySequence))
        || (e.section == CustomSection
            && e.defaultValue == KeyCode.None
            && t.data[n].anim == Ref(n)))
  }

  /**
   The invariant of the binding table: both dictionaries have the same names,
   every record carries its own name, and every entry was bound either as a
   base-game emote (default from the default key sequence or none) or as a
   custom emote (default none, animation named after the emote).
   */
  predicate TableInvariant(t: Table, cfg: Config)
    ensures TableInvariant(t, cfg) ==>
              forall n :: n in t.bindings ==> n != "" && t.bindings[n].key == n && n in t.data
  {
    && t.bindings.Keys == t.data.Keys
    && (forall n :: n in t.data ==> t.data[n].emoteName == Ref(n))
    && (forall n :: n in t.bindings ==> WellFormedEntry(t, cfg, n))
  }

  lemma EmptyTableInvariant(cfg: Config)
    ensures TableInvariant(Table(map[], map[]), cfg)
  {
  }

  /** `RegisterBaseEmoteBinding`: bind `name` in `section` and record its animation. */
  function WithBinding(t: Table, cfg: Config, section: string, defaultKey: KeyCode,
                       name: string, anim: Nullable<string>): (r: Table)
    ensures r.bindings.Keys == t.bindings.Keys + {name} && r.data.Keys == t.data.Keys + {name}
    ensures r.bindings[name].section == section && r.bindings[name].defaultValue == defaultKey
    ensures r.data[name] == EmoteWheelData(Ref(name), anim)
    ensures forall n :: n in t.bindings && n != name ==> r.bindings[n] == t.bindings[n]
    ensures forall n :: n in t.data && n != name ==> r.data[n] == t.data[n]
  {
    Table(t.bindings[name := Bind(cfg, section, name, defaultKey)],
          t.data[name := EmoteWheelData(Ref(name), anim)])
  }

  // ---------------------------------------------------------------------------
  // Base-game emotes from the emote wheel
  // ---------------------------------------------------------------------------

  /** A wheel item that is neither null nor has a null or empty name. */
  predicate IsNamed(item: Nullable<EmoteWheelData>)
  {
    item.Ref? && !IsNullOrEmpty(item.value.emoteName)
  }

  function NameOf(item: Nullable<EmoteWheelData>): string
    requires IsNamed(item)
  {
    item.value.emoteName.value
  }

  /**
   One pass of the registration loop: the table and the next default-key index.
   A skipped or already bound item changes nothing; a new name is bound with the
   default key at the counter, and the counter advances only while keys remain.
   */
  function WheelStep(t: Table, next: nat, item: Nullable<EmoteWheelData>, cfg: Config): (r: (Table, nat))
    ensures !IsNamed(item) || NameOf(item) in t.bindings ==> r == (t, next)
    ensures IsNamed(item) && NameOf(item) !in t.bindings ==>
              && r.0.bindings.Keys == t.bindings.Keys + {NameOf(item)}
              && r.0.bindings[NameOf(item)] == Bind(cfg, BaseSection, NameOf(item), DefaultKey(next))
              && r.1 == (if next < |DefaultKeySequence| then next + 1 else next)
  {
    if !IsNamed(item) || NameOf(item) in t.bindings then (t, next)
    else if next < |DefaultKeySequence| then
      (WithBinding(t, cfg, BaseSection, DefaultKeySequence[next], NameOf(item), item.value.anim), next + 1)
    else
      (WithBinding(t, cfg, BaseSection, KeyCode.None, NameOf(item), item.value.anim), next)
  }

  /** The registration loop over the wheel's items, from the given state. */
  function WheelFold(t: Table, next: nat, items: seq<Nullable<EmoteWheelData>>, cfg: Config): (r: (Table, nat))
    ensures t.bindings.Keys <= r.0.bindings.Keys
    ensures next <= r.1
    ensures next <= |DefaultKeySequence| ==> r.1 <= |DefaultKeySequence|
    decreases |items|
  {
    if items == [] then (t, next)
    else
      var (t', next') := WheelStep(t, next, items[0], cfg);
      WheelFold(t', next', items[1..], cfg)
  }

  /**
   Reference definition: the (name, animation) pairs a wheel scan adds, in the
   order they are added. A name is added at its first named occurrence, and
   only if it was not known before.
   */
  function FreshEntries(known: set<string>, items: seq<Nullable<EmoteWheelData>>): seq<(string, Nullable<string>)>
    decreases |items|
  {
    if items == [] then []
    else if IsNamed(items[0]) && NameOf(items[0]) !in known then
      [(NameOf(items[0]), items[0].value.anim)] + FreshEntries(known + {NameOf(items[0])}, items[1..])
    else FreshEntries(known, items[1..])
  }

  function NamesOf(entries: seq<(string, Nullable<string>)>): set<string>
  {
    set e | e in entries :: e.0
  }

  /** The names of the named items. */
  function NamedIn(items: seq<Nullable<EmoteWheelData>>): set<string>
  {
    set i | 0 <= i < |items| && IsNamed(items[i]) :: NameOf(items[i])
  }

  /** The items that are not skipped. */
  function NamedOnly(items: seq<Nullable<EmoteWheelData>>): (r: seq<Nullable<EmoteWheelData>>)
    ensures forall i :: 0 <= i < |r| ==> IsNamed(r[i])
    ensures |r| <= |items|
  {
    if items == [] then []
    else if IsNamed(items[0]) then [items[0]] + NamedOnly(items[1..])
    else NamedOnly(items[1..])
  }

  lemma NamedInCons(items: seq<Nullable<EmoteWheelData>>)
    requires items != []
    ensures NamedIn(items) == (if IsNamed(items[0]) then {NameOf(items[0])} else {}) + NamedIn(items[1..])
  {
    var rest := items[1..];
    forall n | n in NamedIn(items)
      ensures n in (if IsNamed(items[0]) then {NameOf(items[0])} else {}) + NamedIn(rest)
    {
      var i :| 0 <= i < |items| && IsNamed(items[i]) && NameOf(items[i]) == n;
      if i > 0 {
        assert rest[i - 1] == items[i];
      }
    }
    forall n | n in NamedIn(rest) ensures n in NamedIn(items) {
      var i :| 0 <= i < |rest| && IsNamed(rest[i]) && NameOf(rest[i]) == n;
      assert items[i + 1] == rest[i];
    }
  }

  /** The added names were not known before. */
  lemma {:induction false} FreshEntriesAreNew(known: set<string>, items: seq<Nullable<EmoteWheelData>>)
    ensures NamesOf(FreshEntries(known, items)) !! known
    decreases |items|
  {
    if items != [] {
      if IsNamed(items[0]) && NameOf(items[0]) !in known {
        var n := NameOf(items[0]);
        FreshEntriesAreNew(known + {n}, items[1..]);
        NamesOfCons((n, items[0].value.anim), FreshEntries(known + {n}, items[1..]));
      } else {
        FreshEntriesAreNew(known, items[1..]);
      }
    }
  }

  /** A name is added at most once: repeated names on the wheel consume no key. */
  lemma {:induction false} FreshEntriesDistinct(known: set<string>, items: seq<Nullable<EmoteWheelData>>)
    ensures forall j, k :: 0 <= j < k < |FreshEntries(known, items)| ==>
              FreshEntries(known, items)[j].0 != FreshEntries(known, items)[k].0
    decreases |items|
  {
    if items != [] {
      if IsNamed(items[0]) && NameOf(items[0]) !in known {
        var n := NameOf(items[0]);
        var tail := FreshEntries(known + {n}, items[1..]);
        var added := [(n, items[0].value.anim)] + tail;
        assert FreshEntries(known, items) == added;
        FreshEntriesDistinct(known + {n}, items[1..]);
        FreshEntriesAreNew(known + {n}, items[1..]);
        forall j, k | 0 <= j < k < |added| ensures added[j].0 != added[k].0 {
          assert added[k] == tail[k - 1];
          if j == 0 {
            assert tail[k - 1] in tail;
          } else {
            assert added[j] == tail[j - 1];
          }
        }
      } else {
        FreshEntriesDistinct(known, items[1..]);
      }
    }
  }

  /**
   Together with the known names, the added names are exactly the known names
   plus the names on the wheel: every named item is either known or added.
   */
  lemma {:induction false} FreshEntriesCover(known: set<string>, items: seq<Nullable<EmoteWheelData>>)
    ensures known + NamesOf(FreshEntries(known, items)) == known + NamedIn(items)
    decreases |items|
  {
    if items != [] {
      NamedInCons(items);
      if IsNamed(items[0]) && NameOf(items[0]) !in known {
        var n := NameOf(items[0]);
        FreshEntriesCover(known + {n}, items[1..]);
        NamesOfCons((n, items[0].value.anim), FreshEntries(known + {n}, items[1..]));
      } else {
        FreshEntriesCover(known, items[1..]);
      }
    }
  }

  /** Existing entries survive a wheel scan: the first registration wins. */
  lemma {:induction false} WheelFoldKeepsExisting(t: Table, next: nat, items: seq<Nullable<EmoteWheelData>>,
                                                  cfg: Config, n: string)
    requires n in t.bindings
    ensures n in WheelFold(t, next, items, cfg).0.bindings
    ensures WheelFold(t, next, items, cfg).0.bindings[n] == t.bindings[n]
    ensures n in t.data ==> n in WheelFold(t, next, items, cfg).0.data
                            && WheelFold(t, next, items, cfg).0.data[n] == t.data[n]
    decreases |items|
  {
    if items != [] {
      var (t', next') := WheelStep(t, next, items[0], cfg);
      WheelFoldKeepsExisting(t', next', items[1..], cfg, n);
    }
  }

  lemma NamesOfCons(e: (string, Nullable<string>), tail: seq<(string, Nullable<string>)>)
    ensures NamesOf([e] + tail) == {e.0} + NamesOf(tail)
  {
    var s := [e] + tail;
    forall x | x in s ensures x == e || x in tail {
      var i :| 0 <= i < |s| && s[i] == x;
      if i > 0 { assert tail[i - 1] == x; }
    }
    assert forall x :: x in tail ==> x in s;
  }

  /** The wheel loop and the reference definition take their first step together. */
  lemma WheelFoldUnfold(t: Table, next: nat, items: seq<Nullable<EmoteWheelData>>, cfg: Config)
    requires items != []
    ensures var s := WheelStep(t, next, items[0], cfg);
            WheelFold(t, next, items, cfg) == WheelFold(s.0, s.1, items[1..], cfg)
    ensures FreshEntries(t.bindings.Keys, items)
            == if IsNamed(items[0]) && NameOf(items[0]) !in t.bindings
               then [(NameOf(items[0]), items[0].value.anim)]
                    + FreshEntries(WheelStep(t, next, items[0], cfg).0.bindings.Keys, items[1..])
               else FreshEntries(t.bindings.Keys, items[1..])
  {
    if IsNamed(items[0]) && NameOf(items[0]) !in t.bindings {
      assert WheelStep(t, next, items[0], cfg).0.bindings.Keys == t.bindings.Keys + {NameOf(items[0])};
    }
  }

  /** A wheel scan adds exactly the added names to both dictionaries. */
  lemma {:induction false} WheelFoldKeys(t: Table, next: nat, items: seq<Nullable<EmoteWheelData>>, cfg: Config)
    ensures WheelFold(t, next, items, cfg).0.bindings.Keys
            == t.bindings.Keys + NamesOf(FreshEntries(t.bindings.Keys, items))
    ensures WheelFold(t, next, items, cfg).0.data.Keys
            == t.data.Keys + NamesOf(FreshEntries(t.bindings.Keys, items))
    decreases |items|
  {
    if items != [] {
      var s := WheelStep(t, next, items[0], cfg);
      WheelFoldUnfold(t, next, items, cfg);
      WheelFoldKeys(s.0, s.1, items[1..], cfg);
      if IsNamed(items[0]) && NameOf(items[0]) !in t.bindings {
        var n := NameOf(items[0]);
        assert s.0.bindings.Keys == t.bindings.Keys + {n};
        assert s.0.data.Keys == t.data.Keys + {n};
        NamesOfCons((n, items[0].value.anim), FreshEntries(s.0.bindings.Keys, items[1..]));
      }
    }
  }

  lemma DefaultKeyShift(next: nat, k: nat)
    requires next <= |DefaultKeySequence|
    ensures DefaultKey(Min(next + 1, |DefaultKeySequence|) + k) == DefaultKey(next + (k + 1))
  {
  }

  /** What the scan promises about the names it adds, from a given state. */
  ghost predicate Allocated(t: Table, next: nat, r: Table, next': nat,
                            added: seq<(string, Nullable<string>)>, cfg: Config)
  {
    && next' == Min(next + |added|, |DefaultKeySequence|)
    && forall k :: 0 <= k < |added| ==>
         && added[k].0 in r.bindings && added[k].0 in r.data
         && r.bindings[added[k].0] == Bind(cfg, BaseSection, added[k].0, DefaultKey(next + k))
         && r.data[added[k].0] == EmoteWheelData(Ref(added[k].0), added[k].1)
  }

  /**
   Default keys are handed out in order: the k-th added name gets the key at
   position next + k of the default sequence (none past its end), records the
   animation of its first occurrence, and the counter ends at next plus the
   number of added names, capped at the sequence length.
   */
  lemma {:induction false} WheelFoldAllocates(t: Table, next: nat, items: seq<Nullable<EmoteWheelData>>, cfg: Config)
    requires next <= |DefaultKeySequence|
    ensures Allocated(t, next, WheelFold(t, next, items, cfg).0, WheelFold(t, next, items, cfg).1,
                      FreshEntries(t.bindings.Keys, items), cfg)
    decreases |items|
  {
    if items != [] {
      var s := WheelStep(t, next, items[0], cfg);
      var r := WheelFold(t, next, items, cfg);
      WheelFoldUnfold(t, next, items, cfg);
      WheelFoldAllocates(s.0, s.1, items[1..], cfg);
      if IsNamed(items[0]) && NameOf(items[0]) !in t.bindings {
        var n := NameOf(items[0]);
        var tail := FreshEntries(s.0.bindings.Keys, items[1..]);
        var added := [(n, items[0].value.anim)] + tail;
        assert s.1 == Min(next + 1, |DefaultKeySequence|);
        assert s.0.bindings[n] == Bind(cfg, BaseSection, n, DefaultKey(next));
        WheelFoldKeepsExisting(s.0, s.1, items[1..], cfg, n);
        forall k | 0 <= k < |added|
          ensures && added[k].0 in r.0.bindings && added[k].0 in r.0.data
                  && r.0.bindings[added[k].0] == Bind(cfg, BaseSection, added[k].0, DefaultKey(next + k))
                  && r.0.data[added[k].0] == EmoteWheelData(Ref(added[k].0), added[k].1)
        {
          if k > 0 {
            assert added[k] == tail[k - 1];
            DefaultKeyShift(next, k - 1);
          }
        }
      }
    }
  }

  /** Starting from index 0: the k-th newly added base emote gets `DefaultKey(k)`. */
  lemma WheelAllocatesInOrder(t: Table, items: seq<Nullable<EmoteWheelData>>, cfg: Config, k: nat)
    requires k < |FreshEntries(t.bindings.Keys, items)|
    ensures var n := FreshEntries(t.bindings.Keys, items)[k].0;
            var r := WheelFold(t, 0, items, cfg).0;
            n !in t.bindings && n in r.bindings
            && r.bindings[n].section == BaseSection
            && r.bindings[n].defaultValue == DefaultKey(k)
  {
    var added := FreshEntries(t.bindings.Keys, items);
    WheelFoldAllocates(t, 0, items, cfg);
    FreshEntriesAreNew(t.bindings.Keys, items);
    assert added[k] in added;
  }

  /** Skipped items consume nothing: dropping them does not change the outcome. */
  lemma {:induction false} WheelFoldIgnoresUnnamed(t: Table, next: nat, items: seq<Nullable<EmoteWheelData>>, cfg: Config)
    ensures WheelFold(t, next, items, cfg) == WheelFold(t, next, NamedOnly(items), cfg)
    decreases |items|
  {
    if items != [] {
      var (t', next') := WheelStep(t, next, items[0], cfg);
      WheelFoldIgnoresUnnamed(t', next', items[1..], cfg);
      if IsNamed(items[0]) {
        var r := [items[0]] + NamedOnly(items[1..]);
        assert r[0] == items[0] && r[1..] == NamedOnly(items[1..]);
      }
    }
  }

  /** A scan in which every named item is already bound changes nothing. */
  lemma {:induction false} WheelFoldAllKnown(t: Table, next: nat, items: seq<Nullable<EmoteWheelData>>, cfg: Config)
    requires NamedIn(items) <= t.bindings.Keys
    ensures WheelFold(t, next, items, cfg) == (t, next)
    decreases |items|
  {
    if items != [] {
      NamedInCons(items);
      WheelFoldAllKnown(t, next, items[1..], cfg);
    }
  }

  /** Scanning the same wheel a second time adds nothing and changes nothing. */
  lemma WheelFoldIdempotent(t: Table, items: seq<Nullable<EmoteWheelData>>, cfg: Config)
    ensures var r := WheelFold(t, 0, items, cfg).0;
            WheelFold(r, 0, items, cfg) == (r, 0)
  {
    WheelFoldKeys(t, 0, items, cfg);
    FreshEntriesCover(t.bindings.Keys, items);
    WheelFoldAllKnown(WheelFold(t, 0, items, cfg).0, 0, items, cfg);
  }

  lemma WheelStepPreservesInvariant(t: Table, next: nat, item: Nullable<EmoteWheelData>, cfg: Config)
    requires TableInvariant(t, cfg)
    ensures TableInvariant(WheelStep(t, next, item, cfg).0, cfg)
  {
    if IsNamed(item) && NameOf(item) !in t.bindings {
      var r := WheelStep(t, next, item, cfg).0;
      var n := NameOf(item);
      forall m | m in r.bindings ensures WellFormedEntry(r, cfg, m) {
        if m != n {
          assert WellFormedEntry(t, cfg, m);
        }
      }
    }
  }

  /** A wheel scan keeps the table well formed. */
  lemma {:induction false} WheelFoldPreservesInvariant(t: Table, next: nat, items: seq<Nullable<EmoteWheelData>>, cfg: Config)
    requires TableInvariant(t, cfg)
    ensures TableInvariant(WheelFold(t, next, items, cfg).0, cfg)
    decreases |items|
  {
    if items != [] {
      WheelStepPreservesInvariant(t, next, items[0], cfg);
      var (t', next') := WheelStep(t, next, items[0], cfg);
      WheelFoldPreservesInvariant(t', next', items[1..], cfg);
    }
  }

  // ---------------------------------------------------------------------------
  // Custom emotes from the custom-emote registry
  // ---------------------------------------------------------------------------

  /** A registry value that is neither null nor has a null or empty name. */
  predicate IsNamedEmote(e: Nullable<Emote>)
  {
    e.Ref? && !IsNullOrEmpty(e.value.name)
  }

  /** The names of the named emotes stored under the given registry keys. */
  function CustomNames(registry: map<string, Nullable<Emote>>, keys: set<string>): (names: set<string>)
    ensures "" !in names
  {
    set k | k in keys && k in registry && IsNamedEmote(registry[k]) :: registry[k].value.name.value
  }

  lemma CustomNamesAdd(registry: map<string, Nullable<Emote>>, keys: set<string>, k: string)
    requires k in registry
    ensures CustomNames(registry, keys + {k})
            == CustomNames(registry, keys)
               + (if IsNamedEmote(registry[k]) then {registry[k].value.name.value} else {})
  {
  }

  /** The entries a custom registration binds for the given new names. */
  function CustomBindings(cfg: Config, added: set<string>): map<string, ConfigEntry>
  {
    map n | n in added :: Bind(cfg, CustomSection, n, KeyCode.None)
  }

  /** The records a custom registration creates: the animation is named after the emote. */
  function CustomRecords(added: set<string>): map<string, EmoteWheelData>
  {
    map n | n in added :: EmoteWheelData(Ref(n), Ref(n))
  }

  /**
   Closed form of a custom registration: every name not yet bound is bound in
   the custom section with default none and an animation of the same name;
   names already bound keep their entries. No order of the registry enters.
   */
  function AddCustom(t: Table, cfg: Config, names: set<string>): (r: Table)
    ensures r.bindings.Keys == t.bindings.Keys + names
    ensures r.data.Keys == t.data.Keys + (names - t.bindings.Keys)
  {
    var added := names - t.bindings.Keys;
    Table(t.bindings + CustomBindings(cfg, added), t.data + CustomRecords(added))
  }

  /**
   A custom registration never overwrites: bound names keep their entries and
   records, and each new name gets the custom entry and a record whose
   animation is its own name.
   */
  lemma AddCustomSpec(t: Table, cfg: Config, names: set<string>)
    ensures var r := AddCustom(t, cfg, names);
            && (forall n :: n in t.bindings ==> r.bindings[n] == t.bindings[n])
            && (forall n :: n in t.data && n in t.bindings ==> r.data[n] == t.data[n])
            && (forall n :: n in names && n !in t.bindings ==>
                  r.bindings[n] == Bind(cfg, CustomSection, n, KeyCode.None)
                  && r.data[n] == EmoteWheelData(Ref(n), Ref(n)))
  {
  }

  /** Registering no names changes nothing. */
  lemma AddCustomNothing(t: Table, cfg: Config, registry: map<string, Nullable<Emote>>)
    ensures AddCustom(t, cfg, CustomNames(registry, {})) == t
  {
  }

  /** How the closed form grows by one name: unchanged if it is bound, one new entry if not. */
  lemma AddCustomStep(t: Table, cfg: Config, names: set<string>, n: string)
    requires t.data.Keys <= t.bindings.Keys
    ensures var r := AddCustom(t, cfg, names);
            AddCustom(t, cfg, names + {n})
            == if n in r.bindings then r
               else Table(r.bindings[n := Bind(cfg, CustomSection, n, KeyCode.None)],
                          r.data[n := EmoteWheelData(Ref(n), Ref(n))])
  {
    var added := names - t.bindings.Keys;
    var added' := (names + {n}) - t.bindings.Keys;
    if n in t.bindings.Keys || n in names {
      assert added' == added;
    } else {
      assert added' == added + {n};
      var b := CustomBindings(cfg, added);
      var d := CustomRecords(added);
      assert CustomBindings(cfg, added') == b[n := Bind(cfg, CustomSection, n, KeyCode.None)];
      assert CustomRecords(added') == d[n := EmoteWheelData(Ref(n), Ref(n))];
      assert t.bindings + b[n := Bind(cfg, CustomSection, n, KeyCode.None)]
             == (t.bindings + b)[n := Bind(cfg, CustomSection, n, KeyCode.None)];
      assert t.data + d[n := EmoteWheelData(Ref(n), Ref(n))]
             == (t.data + d)[n := EmoteWheelData(Ref(n), Ref(n))];
    }
  }

  /** One pass of the custom registration loop, over the registry entry stored under `key`. */
  lemma CustomLoopStep(t: Table, cfg: Config, registry: map<string, Nullable<Emote>>, done: set<string>, key: string)
    requires key in registry
    requires t.data.Keys <= t.bindings.Keys
    ensures var r := AddCustom(t, cfg, CustomNames(registry, done));
            var e := registry[key];
            AddCustom(t, cfg, CustomNames(registry, done + {key}))
            == if IsNamedEmote(e) && e.value.name.value !in r.bindings
               then Table(r.bindings[e.value.name.value := Bind(cfg, CustomSection, e.value.name.value, KeyCode.None)],
                          r.data[e.value.name.value := EmoteWheelData(Ref(e.value.name.value), Ref(e.value.name.value))])
               else r
  {
    var names := CustomNames(registry, done);
    var names' := CustomNames(registry, done + {key});
    CustomNamesAdd(registry, done, key);
    if IsNamedEmote(registry[key]) {
      var n := registry[key].value.name.value;
      assert names' == names + {n};
      AddCustomStep(t, cfg, names, n);
    } else {
      assert names' == names;
    }
  }

  /** Custom registration keeps the table well formed. */
  lemma AddCustomPreservesInvariant(t: Table, cfg: Config, names: set<string>)
    requires TableInvariant(t, cfg)
    requires "" !in names
    ensures TableInvariant(AddCustom(t, cfg, names), cfg)
  {
    var r := AddCustom(t, cfg, names);
    AddCustomSpec(t, cfg, names);
    forall m | m in r.bindings ensures WellFormedEntry(r, cfg, m) {
      if m in t.bindings {
        assert WellFormedEntry(t, cfg, m);
      }
    }
  }

  /** Registering the same custom names again changes nothing. */
  lemma AddCustomIdempotent(t: Table, cfg: Config, names: set<string>)
    requires t.data.Keys <= t.bindings.Keys
    ensures AddCustom(AddCustom(t, cfg, names), cfg, names) == AddCustom(t, cfg, names)
  {
    var r := AddCustom(t, cfg, names);
    var r' := AddCustom(r, cfg, names);
    assert r'.bindings == r.bindings;
    assert r'.data == r.data;
  }

  // ---------------------------------------------------------------------------
  // Dispatch
  // ---------------------------------------------------------------------------

  /** The bindings a frame triggers: bound to a key, the key pressed, and a record present. */
  function Triggered(t: Table, pressed: set<KeyCode>): (r: set<string>)
    ensures r <= t.bindings.Keys * t.data.Keys
    ensures forall n :: n in r ==> t.bindings[n].value != KeyCode.None && t.bindings[n].value in pressed
  {
    set n | n in t.bindings && t.bindings[n].value != KeyCode.None
                            && t.bindings[n].value in pressed && n in t.data
  }

  /**
   A custom emote whose key the user has not configured never fires, whatever
   is pressed: its default is no key.
   */
  lemma UnconfiguredCustomNeverFires(t: Table, cfg: Config, pressed: set<KeyCode>, n: string)
    requires TableInvariant(t, cfg)
    requires n in t.bindings && t.bindings[n].section == CustomSection
    requires (CustomSection, n) !in cfg
    ensures n !in Triggered(t, pressed)
  {
    assert WellFormedEntry(t, cfg, n);
  }

  /**
   A base-game emote past the eighth one that the user has not configured
   never fires either.
   */
  lemma UnconfiguredOverflowNeverFires(t: Table, cfg: Config, pressed: set<KeyCode>, n: string)
    requires TableInvariant(t, cfg)
    requires n in t.bindings && t.bindings[n].defaultValue == KeyCode.None
    requires (t.bindings[n].section, n) !in cfg
    ensures n !in Triggered(t, pressed)
  {
    assert WellFormedEntry(t, cfg, n);
  }
}
