/**
 The values the emote-binding plugin works with: Unity key codes, the game's
 emote records, the custom-emote library's emote records and configuration
 entries. Engine objects are reduced to the fields the plugin reads.
 */
module EmoteTypes {

  /** A C# reference that may be null. */
  datatype Nullable<T> = Null | Ref(value: T)

  /** `string.IsNullOrEmpty`. */
  predicate IsNullOrEmpty(s: Nullable<string>)
    ensures !IsNullOrEmpty(s) <==> s.Ref? && |s.value| > 0
  {
    s.Null? || s.value == ""
  }

  /** The Unity key codes the plugin names; `Other` stands for every other key. */
  datatype KeyCode =
    | None
    | Alpha0 | Alpha5 | Alpha6 | Alpha7 | Alpha8 | Alpha9
    | Minus | Equals
    | Other(code: int)

  /** The keys handed out, in this order, to newly registered base-game emotes. */
  const DefaultKeySequence: seq<KeyCode> :=
    [KeyCode.Alpha5, KeyCode.Alpha6, KeyCode.Alpha7, KeyCode.Alpha8,
     KeyCode.Alpha9, KeyCode.Alpha0, KeyCode.Minus, KeyCode.Equals]

  /** The default key of the k-th newly registered base-game emote (counting from 0). */
  function DefaultKey(k: nat): (key: KeyCode)
    ensures key != KeyCode.None <==> k < |DefaultKeySequence|
    ensures key != KeyCode.None ==> key == DefaultKeySequence[k]
    ensures key == KeyCode.None || key in DefaultKeySequence
  {
    if k < |DefaultKeySequence| then DefaultKeySequence[k] else KeyCode.None
  }

  /** The first eight emotes receive eight different keys. */
  lemma DefaultKeysDistinct(j: nat, k: nat)
    requires j < k < |DefaultKeySequence|
    ensures DefaultKey(j) != DefaultKey(k)
  {
  }

  /** The game's `EmoteWheelData` record; both fields may be null. */
  datatype EmoteWheelData = EmoteWheelData(emoteName: Nullable<string>, anim: Nullable<string>)

  /** The game's `EmoteWheel` component; its `data` array may be null and may hold nulls. */
  datatype EmoteWheel = EmoteWheel(data: Nullable<seq<Nullable<EmoteWheelData>>>)

  /** A game object, reduced to what `GetComponent<EmoteWheel>()` returns on it. */
  datatype GameObject = GameObject(emoteWheel: Nullable<EmoteWheel>)

  /** An emote of the custom-emote library; its name may be null. */
  datatype Emote = Emote(name: Nullable<string>)

  /**
   The user's configuration file: the key stored for a (section, key) pair.
   A pair that is absent has never been written, so binding it yields its default.
   */
  type Config = map<(string, string), KeyCode>

  /** A bound configuration entry: where it lives, its default and its current value. */
  datatype ConfigEntry = ConfigEntry(section: string, key: string, defaultValue: KeyCode, value: KeyCode)

  /** `Config.Bind(section, key, defaultValue, ...)`. */
  function Bind(cfg: Config, section: string, key: string, defaultValue: KeyCode): (e: ConfigEntry)
    ensures e.section == section && e.key == key && e.defaultValue == defaultValue
    ensures (section, key) !in cfg ==> e.value == defaultValue
    ensures (section, key) in cfg ==> e.value == cfg[(section, key)]
  {
    ConfigEntry(section, key, defaultValue,
                if (section, key) in cfg then cfg[(section, key)] else defaultValue)
  }
}
