# Emote Binding — a Dafny model of the emote binding table

Emote Binding is a game mod that binds keyboard keys to emote animations. At
start-up it learns the game's built-in emotes from the emote wheel, and the
emotes of an optional custom-emote library from that library's registry. It
gives every emote a configurable key. Then, once per frame, it plays the
animation of every emote whose key was just pressed.

All of the mod's logic sits in `EmoteBinding/Plugin.cs`, in one object:

- two process-wide dictionaries: `EmoteBindings` (emote name to configuration
  entry) and `EmoteData` (emote name to a record with the name and the
  animation);
- two one-shot flags: `baseEmotesRegistered` and `customEmotesRegistered`.

This project models that object as the class `EmoteBinding.Plugin`. It has two
`map` fields, two `bool` fields and one method per operation. Each loop of the
source is a `while` loop here. The two registration methods and the dispatch
are proved against specification functions of the module `EmoteTable` (the
start-up constructor and the fallback state their whole effect directly), and
the lemmas in that module state what the mod promises:

- registration never overwrites, so the first registration of a name wins;
- default keys are handed out from the fixed eight-key sequence, in order of
  first registration;
- skipped items and repeated names use up no key;
- registering the wheel a second time changes nothing;
- the two dictionaries always have the same names, and every entry has the
  shape of one of the two sources;
- a frame plays exactly the bound, pressed keys that have a record.

Files:

- `emote_types.dfy` (module `EmoteTypes`): key codes, the default key sequence,
  the game's and the library's records, and `Config.Bind`. C# `null` is the
  `Null` case of `Nullable<T>`.
- `emote_table.dfy` (module `EmoteTable`): the table as a value, its invariant,
  the wheel scan (`WheelStep` and `WheelFold`) with the reference definition
  `FreshEntries`, the closed form `AddCustom` of a custom registration, the
  dispatch set `Triggered`, and the lemmas.
- `plugin.dfy` (module `EmoteBinding`): the class `Plugin` and `TryPlayEmote`.

Host calls are inputs and outputs of the methods:

- the wheel object handed over by the game's GUI start-up hook;
- the registry's answer to `GetEmotes` in this frame;
- whether the local character's animation component exists;
- the set of keys pressed this frame;
- whether the reflective lookups of `GetEmotes` and `PlayEmote` succeeded;
- the contents of the user's configuration file.

Each frame returns a map from every binding that played to the animation name
passed to `PlayEmote`. These inputs drive the model as follows:

- Dictionary enumeration order is unspecified in .NET. The loops over the
  registry and over `EmoteBindings` therefore pick the next key
  nondeterministically (`:|`).
- Their specifications do not depend on that order. Custom registration is the
  order-free closed form `AddCustom`. Dispatch is stated as a set of binding
  names.

Two behaviours of the code are easy to misread from the names:

- The fallback for a wheel object without the component or without data adds
  no emotes, despite its name and its "Using fallback emote list." log line. It
  only raises `baseEmotesRegistered` (`EmoteBinding/Plugin.cs:129-134`).
- Custom registration finishes as soon as the registry returns a non-null
  dictionary, even an empty one (`EmoteBinding/Plugin.cs:108-126`).

## Model

| member | source | states |
|---|---|---|
| `EmoteTypes.DefaultKey` | EmoteBinding/Plugin.cs:30-34 | Definition: the k-th default key is the k-th entry of the eight-key sequence for k < 8 and `None` from then on |
| `EmoteTypes.DefaultKeysDistinct` | EmoteBinding/Plugin.cs:30-34 | The first eight newly registered emotes receive eight different default keys |
| `EmoteTypes.Bind` | EmoteBinding/Plugin.cs:117 | Definition of the `Config.Bind` abstraction: the entry records its section, name and default, and its value is the user's stored key when the file has one and the default otherwise |
| `EmoteTypes.IsNullOrEmpty` | EmoteBinding/Plugin.cs:88 | `string.IsNullOrEmpty`: a name passes exactly when it is non-null and has at least one character |
| `EmoteTable.TableInvariant` | EmoteBinding/Plugin.cs:136-145 | The table invariant: both dictionaries have the same names, every record carries its own name, and every entry is a base entry (default from the sequence or `None`) or a custom entry (default `None`, animation named after the emote); every bound name is non-empty and is its entry's key |
| `EmoteTable.WithBinding` | EmoteBinding/Plugin.cs:136-145 | `RegisterBaseEmoteBinding` on values: the name is bound in both dictionaries with the given section, default and animation, replacing any earlier entry, and no other name changes |
| `EmoteTable.WheelStep` | EmoteBinding/Plugin.cs:88-96 | One loop pass: a null item, an item with a null or empty name, or a bound name changes nothing; a new name is bound in the base section with `DefaultKey(counter)`, and the counter advances only while default keys remain |
| `EmoteTable.WheelFold` | EmoteBinding/Plugin.cs:86-98 | The whole loop over the wheel's data from a given table and counter: it never removes a name, and the counter never decreases and never passes the length of the key sequence |
| `EmoteTable.EmptyTableInvariant` | EmoteBinding/Plugin.cs:19-20 | The empty dictionaries the plugin starts with satisfy the table invariant |
| `EmoteTable.FreshEntriesAreNew` | EmoteBinding/Plugin.cs:90 | A wheel scan adds only names that were not registered before |
| `EmoteTable.FreshEntriesDistinct` | EmoteBinding/Plugin.cs:86-96 | A wheel scan adds each name once, so a name repeated on the wheel takes no second key |
| `EmoteTable.FreshEntriesCover` | EmoteBinding/Plugin.cs:86-98 | After a scan, every named wheel item is registered: either it was registered before or it was added |
| `EmoteTable.WheelFoldKeepsExisting` | EmoteBinding/Plugin.cs:90 | A name already registered, by either source, keeps its entry and its record through a wheel scan: first registration wins |
| `EmoteTable.WheelFoldKeys` | EmoteBinding/Plugin.cs:86-98 | A wheel scan adds exactly the newly added names to both dictionaries and removes none |
| `EmoteTable.WheelFoldAllocates` | EmoteBinding/Plugin.cs:85-96 | The k-th added name is bound in the base section with the default key at position start + k (`None` past the eighth), its record carries the animation of its first occurrence, and the counter advances once per added name, up to 8 |
| `EmoteTable.WheelAllocatesInOrder` | EmoteBinding/Plugin.cs:85-96 | In a scan that starts at index 0, the k-th newly added base emote was not registered before, is now registered in the base section, and has default `DefaultKey(k)` |
| `EmoteTable.WheelFoldIgnoresUnnamed` | EmoteBinding/Plugin.cs:88 | Null items and items with a null or empty name change nothing: removing them from the wheel gives the same tables and the same counter |
| `EmoteTable.WheelFoldAllKnown` | EmoteBinding/Plugin.cs:90 | A scan in which every named item is already registered leaves the tables and the counter as they were |
| `EmoteTable.WheelFoldIdempotent` | EmoteBinding/Plugin.cs:86-98 | Scanning the same wheel again after a scan changes nothing |
| `EmoteTable.WheelStepPreservesInvariant` | EmoteBinding/Plugin.cs:136-145 | Registering one wheel item keeps the table invariant |
| `EmoteTable.WheelFoldPreservesInvariant` | EmoteBinding/Plugin.cs:86-98 | A whole wheel scan keeps the table invariant: same names in both dictionaries, records carry their own name, base entries have a default from the sequence or `None` |
| `EmoteTable.CustomNames` | EmoteBinding/Plugin.cs:114 | The names taken from the registry never include the empty name |
| `EmoteTable.AddCustom` | EmoteBinding/Plugin.cs:111-124 | A custom registration binds exactly the registry names that were not yet bound, and adds records only for those names |
| `EmoteTable.AddCustomSpec` | EmoteBinding/Plugin.cs:115-123 | Custom registration never overwrites a bound name. Each new name gets a custom-section entry with default `None` and a record whose animation is the emote's own name |
| `EmoteTable.AddCustomStep` | EmoteBinding/Plugin.cs:115-123 | Registering one more name changes nothing when that name is bound, and otherwise adds exactly that name's custom entry and record |
| `EmoteTable.CustomLoopStep` | EmoteBinding/Plugin.cs:111-124 | One pass of the registry loop performs exactly the update the closed form prescribes for that registry entry: skip when null, unnamed or bound, add otherwise |
| `EmoteTable.AddCustomPreservesInvariant` | EmoteBinding/Plugin.cs:117-123 | Custom registration keeps the table invariant |
| `EmoteTable.AddCustomIdempotent` | EmoteBinding/Plugin.cs:115 | Registering the same custom names twice gives the same tables as registering them once |
| `EmoteTable.Triggered` | EmoteBinding/Plugin.cs:155-157 | The dispatch set: the names that are bound and have a record, whose key is not `None` and is pressed this frame |
| `EmoteTable.UnconfiguredCustomNeverFires` | EmoteBinding/Plugin.cs:155 | A custom emote whose key the user has not configured is never dispatched, whatever keys are pressed |
| `EmoteTable.UnconfiguredOverflowNeverFires` | EmoteBinding/Plugin.cs:92-94 | An entry with default `None`, such as a base emote past the eighth, is never dispatched unless the user configured its key |
| `EmoteBinding.TryPlayEmote` | EmoteBinding/Plugin.cs:165-172 | Definition: the invocations of `PlayEmote`, one with the given animation name when the animation component and the reflected method both exist, none otherwise |
| `EmoteBinding.Plugin.Awake` | EmoteBinding/Plugin.cs:36-47 | The plugin starts with empty, well-formed tables and the base flag down. The custom flag starts up exactly when the custom-emote library is absent, and then the registry method counts as missing |
| `EmoteBinding.Plugin.RegisterEmotesFromWheel` | EmoteBinding/Plugin.cs:74-102 | After a first registration, or for a null wheel object, nothing changes. A missing component or missing data raises the flag and adds nothing. Otherwise the loop leaves exactly the wheel-scan result from counter 0 and raises the flag. The invariant is kept and the custom flag is untouched |
| `EmoteBinding.Plugin.RegisterCustomEmotes` | EmoteBinding/Plugin.cs:104-127 | Without the registry method, after a first registration, or for a null answer, nothing changes and the flag stays as it was, so the next frame retries. Otherwise the loop leaves exactly the order-free closed form and raises the flag. The invariant is kept |
| `EmoteBinding.Plugin.RegisterDefaultEmotesFallback` | EmoteBinding/Plugin.cs:129-134 | The fallback raises the base flag and leaves both dictionaries and the custom flag unchanged |
| `EmoteBinding.Plugin.RegisterBaseEmoteBinding` | EmoteBinding/Plugin.cs:136-145 | Binds the name in the given section with the given default and records its animation under its own name, replacing any earlier entry; the flags are unchanged |
| `EmoteBinding.Plugin.DispatchPressed` | EmoteBinding/Plugin.cs:153-162 | The bindings that play are exactly those whose key is not `None`, is pressed and has a record, when `PlayEmote` can be invoked, and none otherwise. Each one plays its record's animation |
| `EmoteBinding.Plugin.Update` | EmoteBinding/Plugin.cs:147-163 | A frame first retries a pending custom registration, with the effect stated for that operation. It plays nothing without the local character's animations or when `PlayEmote` was not found, and otherwise plays exactly the dispatch set of the updated tables, each binding its record's animation |

## Left out

- `Config.Bind` rejecting a name: BepInEx refuses keys with leading or trailing whitespace or containing `=`, a newline, a tab, `\`, `"`, `'`, `[` or `]`, by throwing. The model's `Bind` always succeeds, so it does not capture a wheel scan stopped part-way with `baseEmotesRegistered` still false (the next wheel call would restart the key counter at 0 over a partly filled table), nor a custom name that makes every `Update` throw again.
- Reflection setup (`SetupEmoteRegistryReflection`, the lookup of `PlayEmote`): the outcome of each lookup is a boolean given to `Awake`. Exceptions raised while looking up or invoking are not modelled.
- Harmony patching and the `GUIManager.Awake` postfix `Patches.RegEmoteWheel`: they only call `RegisterEmotesFromWheel` with the GUI's wheel object, which is that method's input here.
- The `Chainloader.PluginInfos` lookup: a boolean given to `Awake`.
- BepInEx configuration persistence: `Config.Bind` is a function of the configuration file contents, fixed when the plugin starts. Writing the file and editing values at run time are not modelled, and the model promises nothing about persistence.
- Unity and host objects (`GetComponent`, `ScriptableObject.CreateInstance`, `Input.GetKeyDown`, `Character.localCharacter`): they are plain records, the set of keys pressed this frame, and a boolean for the animation component. A `KeyCode` other than the ones the plugin names is `Other(code)`.
- The static fields `EmoteBindings`, `EmoteData` and `instance`: they are fields of the single plugin object, since only one is ever created.
- The order in which a frame plays animations: .NET leaves dictionary enumeration order unspecified, so the model states as a set which bindings play.
- Logging (`Logger.*`): it has no effect on behaviour.
