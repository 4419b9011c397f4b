/** SlimSnap_Settings: the eight-key settings array, its defaults, its
    sanitiser and the options field that init/update/get work on. The
    stored option (the 'slimsnap_settings' row of wp_options) is a field
    beside the in-memory copy. */
module SettingsStore {
  import opened Php

  type Options = map<string, PhpValue>

  const CompressionType: string := "compression_type"
  const CompressionQuality: string := "compression_quality"
  const AutoOptimize: string := "auto_optimize"
  const BackupOriginal: string := "backup_original"
  const MaxWidthKey: string := "max_width"
  const MaxHeightKey: string := "max_height"
  const CpuLimit: string := "cpu_limit"
  const BatchSize: string := "batch_size"

  /** get_defaults(). */
  function Defaults(): Options {
    map[CompressionType := PStr("lossy"), CompressionQuality := PInt(80),
        AutoOptimize := PBool(true), BackupOriginal := PBool(true),
        MaxWidthKey := PInt(2048), MaxHeightKey := PInt(2048),
        CpuLimit := PInt(50), BatchSize := PInt(5)]
  }

  function BoolKeys(): set<string> {
    {AutoOptimize, BackupOriginal}
  }

  /** One key of the sanitised array: the default when the key is not set,
      otherwise the input converted by sanitize_text_field, intval() or a
      (bool) cast according to the key. */
  function SanitizeKey(input: Options, k: string, sanitizeText: PhpValue -> string): PhpValue
    requires k in Defaults()
  {
    if !IsSet(input, k) then Defaults()[k]
    else if k == CompressionType then PStr(sanitizeText(input[k]))
    else if k in BoolKeys() then PBool(!Empty(input[k]))
    else PInt(IntVal(input[k]))
  }

  /** sanitize_settings($input); sanitize_text_field is the parameter
      sanitizeText. */
  function SanitizeSettings(input: Options, sanitizeText: PhpValue -> string): Options {
    map k | k in Defaults() :: SanitizeKey(input, k, sanitizeText)
  }

  /** Both a value and its default are strings, integers or booleans alike. */
  predicate SameKind(v: PhpValue, w: PhpValue) {
    (v.PStr? && w.PStr?) || (v.PInt? && w.PInt?) || (v.PBool? && w.PBool?)
  }

  /** The kind of each default: compression_type a string, the two flags
      booleans, the other five integers. */
  lemma DefaultKinds(k: string)
    requires k in Defaults()
    ensures k == CompressionType ==> Defaults()[k].PStr?
    ensures k in BoolKeys() ==> Defaults()[k].PBool?
    ensures k != CompressionType && k !in BoolKeys() ==> Defaults()[k].PInt?
  {
    if k == CompressionType || k in BoolKeys() {
    } else if k == CompressionQuality || k == MaxWidthKey || k == MaxHeightKey {
    } else {
      assert k == CpuLimit || k == BatchSize;
    }
  }

  /** The sanitised array always has exactly the keys of the defaults,
      each holding a value of its default's kind; a key that is not set
      gets its default; a set one is converted: the type by the text
      sanitiser, the two flags by a (bool) cast, the five numbers by
      intval(). */
  lemma SanitizeFillsDefaults(input: Options, sanitizeText: PhpValue -> string)
    ensures var out := SanitizeSettings(input, sanitizeText);
      && out.Keys == Defaults().Keys
      && (forall k :: k in Defaults() ==> SameKind(out[k], Defaults()[k]))
      && (forall k :: k in Defaults() && !IsSet(input, k) ==> out[k] == Defaults()[k])
      && (IsSet(input, CompressionType) ==> out[CompressionType] == PStr(sanitizeText(input[CompressionType])))
      && (forall k :: k in BoolKeys() && IsSet(input, k) ==> out[k] == PBool(!Empty(input[k])))
      && (forall k :: k in Defaults() && k != CompressionType && k !in BoolKeys() && IsSet(input, k) ==>
            out[k] == PInt(IntVal(input[k])))
  {
    var out := SanitizeSettings(input, sanitizeText);
    forall k | k in Defaults()
      ensures SameKind(out[k], Defaults()[k])
    {
      DefaultKinds(k);
    }
  }

  /** The eight keys of the defaults. */
  lemma DefaultsHaveEightKeys()
    ensures Defaults().Keys == {CompressionType, CompressionQuality, AutoOptimize, BackupOriginal,
                                MaxWidthKey, MaxHeightKey, CpuLimit, BatchSize}
    ensures |Defaults()| == 8
  {
    var keys := {CompressionType, CompressionQuality, AutoOptimize, BackupOriginal,
                 MaxWidthKey, MaxHeightKey, CpuLimit, BatchSize};
    assert Defaults().Keys == keys;
    assert |keys| == 8;
  }

  /** Sanitising an empty input gives exactly the defaults. */
  lemma SanitizeEmptyIsDefaults(sanitizeText: PhpValue -> string)
    ensures SanitizeSettings(map[], sanitizeText) == Defaults()
  {
    var out := SanitizeSettings(map[], sanitizeText);
    assert out.Keys == Defaults().Keys;
    forall k | k in out
      ensures out[k] == Defaults()[k]
    {
      assert !IsSet(map[], k);
    }
  }

  /** The quality is not clamped: 150 is kept as 150. */
  lemma QualityNotClamped(sanitizeText: PhpValue -> string)
    ensures SanitizeSettings(map[CompressionQuality := PInt(150)], sanitizeText)[CompressionQuality] == PInt(150)
  {
    assert IsSet(map[CompressionQuality := PInt(150)], CompressionQuality);
  }

  /** Sanitising a sanitised array changes nothing, given that
      sanitize_text_field leaves its own output, and 'lossy', alone. */
  lemma SanitizeIdempotent(input: Options, sanitizeText: PhpValue -> string)
    requires sanitizeText(PStr("lossy")) == "lossy"
    requires forall v :: sanitizeText(PStr(sanitizeText(v))) == sanitizeText(v)
    ensures SanitizeSettings(SanitizeSettings(input, sanitizeText), sanitizeText) == SanitizeSettings(input, sanitizeText)
  {
    var once := SanitizeSettings(input, sanitizeText);
    var twice := SanitizeSettings(once, sanitizeText);
    forall k | k in Defaults()
      ensures twice[k] == once[k]
    {
      DefaultKinds(k);
      assert IsSet(once, k);
    }
  }

  /** wp_parse_args($args, $defaults): the defaults overridden key by key. */
  function ParseArgs(args: Options, defaults: Options): Options {
    defaults + args
  }

  /** The merge keeps every key of either side; a key given in args takes
      its value from args, any other takes the default. */
  lemma ParseArgsSpec(args: Options, defaults: Options)
    ensures var merged := ParseArgs(args, defaults);
      && merged.Keys == defaults.Keys + args.Keys
      && (forall k :: k in args ==> merged[k] == args[k])
      && (forall k :: k in defaults && k !in args ==> merged[k] == defaults[k])
  {
  }

  /** get_option's truth value: a missing option and an empty array are
      both false. */
  predicate StoredIsFalsy(stored: Option<Options>) {
    stored.None? || stored.value == map[]
  }

  /** A SlimSnap_Settings instance: the in-memory options and the stored
      option row. */
  class Settings {
    var options: Options
    var stored: Option<Options>

    /** __construct: the stored option, or the defaults when there is none. */
    constructor (stored: Option<Options>)
      ensures this.stored == stored
      ensures options == (if stored.Some? then stored.value else Defaults())
    {
      this.stored := stored;
      options := if stored.Some? then stored.value else Defaults();
    }

    /** init_settings: stores the defaults only when no truthy option is
      stored; the in-memory options are not touched. */
    method InitSettings()
      modifies this`stored
      ensures StoredIsFalsy(old(stored)) ==> stored == Some(Defaults())
      ensures !StoredIsFalsy(old(stored)) ==> stored == old(stored)
    {
      if StoredIsFalsy(stored) {
        stored := Some(Defaults());
      }
    }

    /** get_settings. */
    method GetSettings() returns (r: Options)
      ensures r == options
    {
      return options;
    }

    /** update_settings: the options become the defaults overridden by the
      new settings (extra keys kept), and are stored. */
    method UpdateSettings(newSettings: Options)
      modifies this
      ensures options == ParseArgs(newSettings, Defaults())
      ensures stored == Some(options)
    {
      options := ParseArgs(newSettings, Defaults());
      stored := Some(options);
    }
  }

  /** update_settings then get_settings returns the merged settings,
      whatever was there before. */
  method UpdateThenGet(s: Settings, newSettings: Options) returns (r: Options)
    modifies s
    ensures r == ParseArgs(newSettings, Defaults())
    ensures forall k :: k in Defaults() ==> k in r
  {
    s.UpdateSettings(newSettings);
    r := s.GetSettings();
  }
}
