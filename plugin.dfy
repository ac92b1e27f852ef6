/**
 The plugin object: the two process-wide dictionaries, the two one-shot
 registration flags, and the operations the host drives (plugin start-up, the
 wheel hook, the per-frame update). Host and reflection calls are inputs: the
 wheel object, the registry's answer, whether the local character's animations
 exist and the set of keys pressed this frame.
 */
module EmoteBinding {
  import opened EmoteTypes
  import opened EmoteTable

  /**
   `TryPlayEmote`: the animation names handed to `PlayEmote`, which is invoked
   only when the local character's animations and the reflected method exist.
   */
  function TryPlayEmote(animations: bool, playEmoteFound: bool, animName: Nullable<string>): (invoked: seq<Nullable<string>>)
    ensures |invoked| <= 1
    ensures invoked != [] <==> animations && playEmoteFound
    ensures invoked != [] ==> invoked[0] == animName
  {
    if animations && playEmoteFound then [animName] else []
  }

  class Plugin {
    /** `EmoteBindings`: emote name to its configuration entry. */
    var emoteBindings: map<string, ConfigEntry>
    /** `EmoteData`: emote name to the record holding its animation. */
    var emoteData: map<string, EmoteWheelData>
    var baseEmotesRegistered: bool
    var customEmotesRegistered: bool

    /** `getEmotesMethod != null`: the registry's `GetEmotes` was located. */
    const getEmotesFound: bool
    /** `playEmoteMethod != null`: `CharacterAnimations.PlayEmote` was located. */
    const playEmoteFound: bool
    /** What the user's configuration file holds. */
    const userConfig: Config

    function Tables(): Table
      reads this
    {
      Table(emoteBindings, emoteData)
    }

    predicate Valid()
      reads this
    {
      TableInvariant(Tables(), userConfig)
    }

    /**
     Field initialisers and `Awake`. When the custom-emote library is not
     loaded, the registry is never looked up and custom registration is
     marked as done.
     */
    constructor Awake(emoteLibLoaded: bool, getEmotesResolves: bool, playEmoteResolves: bool, userConfig: Config)
      ensures Valid()
      ensures emoteBindings == map[] && emoteData == map[]
      ensures !baseEmotesRegistered
      ensures customEmotesRegistered == !emoteLibLoaded
      ensures getEmotesFound == (emoteLibLoaded && getEmotesResolves)
      ensures playEmoteFound == playEmoteResolves && this.userConfig == userConfig
    {
      emoteBindings := map[];
      emoteData := map[];
      baseEmotesRegistered := false;
      getEmotesFound := emoteLibLoaded && getEmotesResolves;
      playEmoteFound := playEmoteResolves;
      this.userConfig := userConfig;
      customEmotesRegistered := !emoteLibLoaded;
      new;
      EmptyTableInvariant(userConfig);
    }

    /**
     Registers the base-game emotes listed by the emote wheel, once. A null wheel
     object is ignored (the flag stays false); a missing component or missing
     data takes the fallback, which only raises the flag.
     */
    method RegisterEmotesFromWheel(wheelObject: Nullable<GameObject>)
      requires Valid()
      modifies this
      ensures Valid()
      ensures customEmotesRegistered == old(customEmotesRegistered)
      ensures old(baseEmotesRegistered) || wheelObject.Null? ==>
                Tables() == old(Tables()) && baseEmotesRegistered == old(baseEmotesRegistered)
      ensures !old(baseEmotesRegistered) && wheelObject.Ref? ==>
                && baseEmotesRegistered
                && var wheel := wheelObject.value.emoteWheel;
                   if wheel.Null? || wheel.value.data.Null? then Tables() == old(Tables())
                   else Tables() == WheelFold(old(Tables()), 0, wheel.value.data.value, userConfig).0
    {
      if baseEmotesRegistered || wheelObject.Null? {
        return;
      }
      var wheel := wheelObject.value.emoteWheel;
      if wheel.Null? || wheel.value.data.Null? {
        RegisterDefaultEmotesFallback();
        return;
      }
      var items := wheel.value.data.value;
      var nextDefaultKeyIndex: nat := 0;
      var i := 0;
      while i < |items|
        invariant 0 <= i <= |items|
        invariant nextDefaultKeyIndex <= |DefaultKeySequence|
        invariant WheelFold(Tables(), nextDefaultKeyIndex, items[i..], userConfig)
                  == WheelFold(old(Tables()), 0, items, userConfig)
        invariant baseEmotesRegistered == old(baseEmotesRegistered)
        invariant customEmotesRegistered == old(customEmotesRegistered)
      {
        var emoteItem := items[i];
        WheelFoldUnfold(Tables(), nextDefaultKeyIndex, items[i..], userConfig);
        assert items[i..][1..] == items[i + 1..];
        if emoteItem.Ref? && !IsNullOrEmpty(emoteItem.value.emoteName) {
          var name := emoteItem.value.emoteName.value;
          if name !in emoteBindings {
            var defaultKey;
            if nextDefaultKeyIndex < |DefaultKeySequence| {
              defaultKey := DefaultKeySequence[nextDefaultKeyIndex];
              nextDefaultKeyIndex := nextDefaultKeyIndex + 1;
            } else {
              defaultKey := KeyCode.None;
            }
            RegisterBaseEmoteBinding(BaseSection, defaultKey, name, emoteItem.value.anim);
          }
        }
        i := i + 1;
      }
      baseEmotesRegistered := true;
      WheelFoldPreservesInvariant(old(Tables()), 0, items, userConfig);
    }

    /**
     Registers the custom emotes the registry reports, once. Without the
     registry's method nothing happens; a null answer leaves the flag down so
     that the next frame asks again.
     */
    method RegisterCustomEmotes(registry: Nullable<map<string, Nullable<Emote>>>)
      requires Valid()
      modifies this
      ensures Valid()
      ensures baseEmotesRegistered == old(baseEmotesRegistered)
      ensures !getEmotesFound || old(customEmotesRegistered) || registry.Null? ==>
                Tables() == old(Tables()) && customEmotesRegistered == old(customEmotesRegistered)
      ensures getEmotesFound && !old(customEmotesRegistered) && registry.Ref? ==>
                && customEmotesRegistered
                && Tables() == AddCustom(old(Tables()), userConfig,
                                         CustomNames(registry.value, registry.value.Keys))
    {
      if !getEmotesFound || customEmotesRegistered {
        return;
      }
      if registry.Null? {
        return;
      }
      var customEmotes := registry.value;
      ghost var t0 := Tables();
      assert t0.data.Keys <= t0.bindings.Keys;
      AddCustomNothing(t0, userConfig, customEmotes);
      var remaining := customEmotes.Keys;
      ghost var done: set<string> := {};
      while remaining != {}
        invariant remaining + done == customEmotes.Keys && remaining !! done
        invariant Tables() == AddCustom(t0, userConfig, CustomNames(customEmotes, done))
        invariant baseEmotesRegistered == old(baseEmotesRegistered)
        invariant customEmotesRegistered == old(customEmotesRegistered)
        decreases remaining
      {
        var key :| key in remaining;
        var emote := customEmotes[key];
        CustomLoopStep(t0, userConfig, customEmotes, done, key);
        if emote.Ref? && !IsNullOrEmpty(emote.value.name) && emote.value.name.value !in emoteBindings {
          var name := emote.value.name.value;
          emoteBindings := emoteBindings[name := Bind(userConfig, CustomSection, name, KeyCode.None)];
          emoteData := emoteData[name := EmoteWheelData(Ref(name), Ref(name))];
        }
        remaining := remaining - {key};
        done := done + {key};
      }
      AddCustomPreservesInvariant(t0, userConfig, CustomNames(customEmotes, done));
      assert Valid();
      customEmotesRegistered := true;
    }

    /** The fallback: marks the base emotes as registered and adds nothing. */
    method RegisterDefaultEmotesFallback()
      modifies this
      ensures baseEmotesRegistered
      ensures Tables() == old(Tables()) && customEmotesRegistered == old(customEmotesRegistered)
    {
      if baseEmotesRegistered {
        return;
      }
      baseEmotesRegistered := true;
    }

    /** Binds `emoteName` in `section` and records its animation, replacing any earlier entry. */
    method RegisterBaseEmoteBinding(section: string, defaultKeycode: KeyCode, emoteName: string, animName: Nullable<string>)
      modifies this
      ensures Tables() == WithBinding(old(Tables()), userConfig, section, defaultKeycode, emoteName, animName)
      ensures baseEmotesRegistered == old(baseEmotesRegistered)
      ensures customEmotesRegistered == old(customEmotesRegistered)
    {
      emoteBindings := emoteBindings[emoteName := Bind(userConfig, section, emoteName, defaultKeycode)];
      emoteData := emoteData[emoteName := EmoteWheelData(Ref(emoteName), animName)];
    }

    /**
     The dispatch loop of `Update`: for each binding whose key is set and
     pressed and that has a record, asks `TryPlayEmote` to play the record's
     animation. The result maps each binding that played to the animation name.
     */
    method DispatchPressed(pressed: set<KeyCode>, animations: bool) returns (played: map<string, Nullable<string>>)
      ensures played.Keys == if animations && playEmoteFound then Triggered(Tables(), pressed) else {}
      ensures forall n :: n in played ==> n in emoteData && played[n] == emoteData[n].anim
    {
      played := map[];
      var remaining := emoteBindings.Keys;
      ghost var done: set<string> := {};
      while remaining != {}
        invariant remaining + done == emoteBindings.Keys && remaining !! done
        invariant played.Keys == if animations && playEmoteFound then Triggered(Tables(), pressed) * done else {}
        invariant forall n :: n in played ==> n in emoteData && played[n] == emoteData[n].anim
        decreases remaining
      {
        var name :| name in remaining;
        var entry := emoteBindings[name];
        if entry.value != KeyCode.None && entry.value in pressed {
          if name in emoteData {
            var invoked := TryPlayEmote(animations, playEmoteFound, emoteData[name].anim);
            if invoked != [] {
              played := played[name := invoked[0]];
            }
          }
        }
        remaining := remaining - {name};
        done := done + {name};
      }
    }

    /**
     One frame: retries custom registration while it is pending, then, if the
     local character's animations exist, dispatches the pressed keys.
     */
    method Update(registry: Nullable<map<string, Nullable<Emote>>>, animations: bool, pressed: set<KeyCode>)
      returns (played: map<string, Nullable<string>>)
      requires Valid()
      modifies this
      ensures Valid()
      ensures baseEmotesRegistered == old(baseEmotesRegistered)
      ensures old(customEmotesRegistered) || !getEmotesFound || registry.Null? ==>
                Tables() == old(Tables()) && customEmotesRegistered == old(customEmotesRegistered)
      ensures !old(customEmotesRegistered) && getEmotesFound && registry.Ref? ==>
                && customEmotesRegistered
                && Tables() == AddCustom(old(Tables()), userConfig,
                                         CustomNames(registry.value, registry.value.Keys))
      ensures played.Keys == if animations && playEmoteFound then Triggered(Tables(), pressed) else {}
      ensures forall n :: n in played ==> n in emoteData && played[n] == emoteData[n].anim
    {
      if !customEmotesRegistered {
        RegisterCustomEmotes(registry);
      }
      if !animations {
        return map[];
      }
      played := DispatchPressed(pressed, animations);
    }
  }
}
