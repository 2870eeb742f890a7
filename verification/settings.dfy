/** The settings service: a read-through cache over the settings table, with
    built-in defaults. The table stores text; values that are not text are
    stored as JSON, and every stored text that parses as JSON is read back
    decoded. */
module Settings {
  import opened Wrappers
  import opened Values

  /** The keys of `DEFAULT_SETTINGS`, in their declared order. */
  const DefaultKeys: seq<string> := [
    "theme", "font_size", "view_mode", "cache_max_size_mb", "check_interval",
    "auto_check_updates", "show_thumbnails", "headless_scraping",
    "notifications_enabled", "sound_enabled", "minimize_to_tray", "start_minimized"
  ]

  /** The built-in default of each key of `DEFAULT_SETTINGS`. */
  function DefaultOf(key: string): Value {
    if key == "theme" then VStr("dark")
    else if key == "font_size" then VInt(12)
    else if key == "view_mode" then VStr("list")
    else if key == "cache_max_size_mb" then VInt(1000)
    else if key == "check_interval" then VInt(3600)
    else if key == "sound_enabled" || key == "minimize_to_tray" || key == "start_minimized" then VBool(false)
    else VBool(true)
  }

  /** `DEFAULT_SETTINGS`. */
  function Defaults(): (d: map<string, Value>)
    ensures forall k :: k in d <==> k in DefaultKeys
    ensures forall k :: k in d ==> d[k] == DefaultOf(k)
  {
    map k | k in DefaultKeys :: DefaultOf(k)
  }

  /** `json.dumps` and `json.loads`, each `None` where it raises. */
  datatype Json = Json(dumps: Value -> Option<string>, loads: string -> Option<Value>)

  /** The values other than text that JSON can write: `None`, booleans,
      numbers and lists of text. */
  predicate Serialisable(v: Value) {
    v.VNone? || v.VBool? || v.VInt? || v.VReal? || v.VList?
  }

  /** JSON writes every serialisable value so that it reads back as itself,
      and raises `TypeError` on a date. What it does with other objects is
      left open. */
  ghost predicate Faithful(json: Json) {
    (forall v: Value :: Serialisable(v) ==> json.dumps(v).Some? && json.loads(json.dumps(v).value) == Some(v))
    && (forall v: Value :: v.VDate? ==> json.dumps(v).None?)
  }

  /** The settings table: key to stored text. */
  type Table = map<string, string>

  /** `set_setting`: text is stored as it is, anything else as JSON; `None`
      when `json.dumps` raises, before the table is touched. */
  function SetSetting(t: Table, json: Json, key: string, v: Value): (r: Option<Table>)
    ensures r.Some? <==> v.VStr? || json.dumps(v).Some?
    ensures r.Some? ==> r.value.Keys == t.Keys + {key} && r.value[key] == Stored(json, v).value
    ensures r.Some? ==> forall k :: k in t && k != key ==> r.value[k] == t[k]
  {
    match Stored(json, v)
    case None => None
    case Some(text) => Some(t[key := text])
  }

  /** The text `set_setting` stores for a value, `None` where it raises. */
  function Stored(json: Json, v: Value): Option<string> {
    if v.VStr? then Some(v.s) else json.dumps(v)
  }

  /** `get_setting`: the stored text decoded as JSON, or the text itself
      when it does not parse; `default` when nothing is stored. */
  function GetSetting(t: Table, json: Json, key: string, default: Value): (r: Value)
    ensures key !in t ==> r == default
  {
    if key !in t then default
    else match json.loads(t[key])
      case Some(v) => v
      case None => VStr(t[key])
  }

  /** A serialisable value written is the value read back, and so is text
      unless it parses as JSON, which comes back decoded. A date cannot be
      written. */
  lemma SettingRoundTrip(t: Table, json: Json, key: string, v: Value, default: Value)
    requires Faithful(json)
    ensures v.VStr? || Serialisable(v) ==> SetSetting(t, json, key, v).Some?
    ensures Serialisable(v) ==> GetSetting(SetSetting(t, json, key, v).value, json, key, default) == v
    ensures v.VStr? && json.loads(v.s).None? ==>
      GetSetting(SetSetting(t, json, key, v).value, json, key, default) == v
    ensures v.VStr? && json.loads(v.s).Some? ==>
      GetSetting(SetSetting(t, json, key, v).value, json, key, default) == json.loads(v.s).value
    ensures v.VDate? ==> SetSetting(t, json, key, v).None?
  {
  }

  /** The service: the table and the values it has handed out. */
  datatype Service = Service(table: Table, cache: map<string, Value>)

  /** `get`: a cached key gives the cached value, whatever the default and
      the table say; otherwise the stored value or the default, the built-in
      default in place of `None`, which is then cached. */
  function Read(svc: Service, json: Json, key: string, default: Value): (r: (Service, Value))
    ensures key in svc.cache ==> r == (svc, svc.cache[key])
    ensures key !in svc.cache ==>
      var v := GetSetting(svc.table, json, key, default);
      r.1 == (if v == VNone && key in Defaults() then Defaults()[key] else v)
      && r.0 == svc.(cache := svc.cache[key := r.1])
  {
    if key in svc.cache then (svc, svc.cache[key])
    else
      var v := GetSetting(svc.table, json, key, default);
      var w := if v == VNone && key in Defaults() then Defaults()[key] else v;
      (svc.(cache := svc.cache[key := w]), w)
  }

  /** `set`: the value goes to the table and to the cache. The flag is
      false when `set_setting` raises, which leaves the cache as it was. */
  function Write(svc: Service, json: Json, key: string, v: Value): (r: (Service, bool))
    ensures r.1 <==> SetSetting(svc.table, json, key, v).Some?
    ensures !r.1 ==> r.0 == svc
    ensures r.1 ==> r.0.table == SetSetting(svc.table, json, key, v).value
    ensures r.1 ==> r.0.cache.Keys == svc.cache.Keys + {key} && r.0.cache[key] == v
    ensures r.1 ==> forall k :: k in svc.cache && k != key ==> r.0.cache[k] == svc.cache[k]
  {
    match SetSetting(svc.table, json, key, v)
    case None => (svc, false)
    case Some(t) => (Service(t, svc.cache[key := v]), true)
  }

  /** The next `get` after a `set` that succeeds returns exactly the value
      set, and changes nothing. */
  lemma WriteThenRead(svc: Service, json: Json, key: string, v: Value, default: Value)
    requires Write(svc, json, key, v).1
    ensures var svc1 := Write(svc, json, key, v).0; Read(svc1, json, key, default) == (svc1, v)
  {
  }

  /** Setting a date raises and changes nothing, whatever the key. */
  lemma WriteDateRaises(svc: Service, json: Json, key: string, v: Value)
    requires Faithful(json) && v.VDate?
    ensures Write(svc, json, key, v) == (svc, false)
  {
  }

  /** A read that finds nothing stored caches the caller's default, so a
      later read with another default still gives the first one. */
  lemma FirstDefaultSticks(svc: Service, json: Json, key: string, d1: Value, d2: Value)
    requires key !in svc.cache && key !in svc.table && key !in Defaults() && d1 != VNone
    ensures var (svc1, v1) := Read(svc, json, key, d1);
      v1 == d1 && Read(svc1, json, key, d2).1 == d1
  {
  }

  /** `get_all`: exactly the keys of the defaults, a stored value that is not
      `None` overriding the default. The cache is not consulted. */
  function All(svc: Service, json: Json): (r: map<string, Value>)
    ensures r.Keys == Defaults().Keys
    ensures forall k :: k in r && GetSetting(svc.table, json, k, VNone) != VNone ==>
      r[k] == GetSetting(svc.table, json, k, VNone)
    ensures forall k :: k in r && GetSetting(svc.table, json, k, VNone) == VNone ==> r[k] == Defaults()[k]
  {
    map k | k in Defaults() ::
      var stored := GetSetting(svc.table, json, k, VNone);
      if stored != VNone then stored else Defaults()[k]
  }

  /** Writes each key's built-in default in turn, stopping at the first
      write that raises. */
  function WriteAll(svc: Service, json: Json, keys: seq<string>): (r: (Service, bool))
    decreases |keys|
  {
    if keys == [] then (svc, true)
    else
      var (svc1, ok) := Write(svc, json, keys[0], DefaultOf(keys[0]));
      if !ok then (svc1, false) else WriteAll(svc1, json, keys[1..])
  }

  /** `reset_to_defaults`: every default written to the table, then the
      cache emptied; when a write raises, the writes before it stay and the
      cache is not emptied. */
  function Reset(svc: Service, json: Json): (r: (Service, bool))
    ensures r.1 ==> r.0.cache == map[]
    ensures r.1 == WriteAll(svc, json, DefaultKeys).1
  {
    var (svc1, ok) := WriteAll(svc, json, DefaultKeys);
    if ok then (svc1.(cache := map[]), true) else (svc1, false)
  }

  /** With faithful JSON every default can be written. */
  lemma {:induction false} WriteAllSucceeds(svc: Service, json: Json, keys: seq<string>)
    requires Faithful(json)
    ensures WriteAll(svc, json, keys).1
    decreases |keys|
  {
    if keys != [] {
      var svc1 := Write(svc, json, keys[0], DefaultOf(keys[0])).0;
      WriteAllSucceeds(svc1, json, keys[1..]);
    }
  }

  /** After writing the defaults of some keys, each of them holds its
      default as `set` stores it, and every other key is as it was. */
  lemma {:induction false} WriteAllStores(svc: Service, json: Json, keys: seq<string>)
    requires WriteAll(svc, json, keys).1
    ensures var t := WriteAll(svc, json, keys).0.table;
      (forall k :: k in keys ==> k in t && Some(t[k]) == Stored(json, DefaultOf(k)))
      && (forall k :: k in svc.table && k !in keys ==> k in t && t[k] == svc.table[k])
    decreases |keys|
  {
    if keys != [] {
      var k0 := keys[0];
      var (svc1, ok) := Write(svc, json, k0, DefaultOf(k0));
      assert ok && WriteAll(svc, json, keys) == WriteAll(svc1, json, keys[1..]);
      assert svc1.table == svc.table[k0 := Stored(json, DefaultOf(k0)).value];
      WriteAllStores(svc1, json, keys[1..]);
      var t := WriteAll(svc, json, keys).0.table;
      if k0 !in keys[1..] {
        WriteAllKeeps(svc1, json, keys[1..], k0);
      }
      forall k | k in keys ensures k in t && Some(t[k]) == Stored(json, DefaultOf(k)) {
        if k != k0 {
          assert k in keys[1..];
        }
      }
      forall k | k in svc.table && k !in keys ensures k in t && t[k] == svc.table[k] {
        assert k != k0 && k in svc1.table && k !in keys[1..];
      }
    }
  }

  /** A key none of the later writes touches keeps the text it has. */
  lemma {:induction false} WriteAllKeeps(svc: Service, json: Json, keys: seq<string>, key: string)
    requires key in svc.table && key !in keys
    ensures var t := WriteAll(svc, json, keys).0.table; key in t && t[key] == svc.table[key]
    decreases |keys|
  {
    if keys != [] {
      WriteAllKeeps(Write(svc, json, keys[0], DefaultOf(keys[0])).0, json, keys[1..], key);
    }
  }

  /** After a reset every setting reads as its built-in default: the table
      holds it and the cache is empty. The two text defaults, "dark" and
      "list", do not parse as JSON and so come back as themselves. */
  lemma ResetReadsDefaults(svc: Service, json: Json, key: string, default: Value)
    requires Faithful(json) && json.loads("dark").None? && json.loads("list").None?
    requires key in Defaults()
    ensures Reset(svc, json).1 && Read(Reset(svc, json).0, json, key, default).1 == Defaults()[key]
  {
    WriteAllSucceeds(svc, json, DefaultKeys);
    WriteAllStores(svc, json, DefaultKeys);
    var svc1 := Reset(svc, json).0;
    var t := svc1.table;
    var v := DefaultOf(key);
    assert key in DefaultKeys;
    assert key in t && Some(t[key]) == Stored(json, v);
    DefaultReadsBack(t, json, key, default);
    assert key !in svc1.cache;
  }

  /** A key holding its default as `set` stores it reads back as that
      default. */
  lemma DefaultReadsBack(t: Table, json: Json, key: string, default: Value)
    requires Faithful(json) && json.loads("dark").None? && json.loads("list").None?
    requires key in t && Some(t[key]) == Stored(json, DefaultOf(key))
    ensures GetSetting(t, json, key, default) == DefaultOf(key)
  {
    var v := DefaultOf(key);
    DefaultTexts(key);
    if v.VStr? {
      assert t[key] == v.s;
      assert json.loads(t[key]).None?;
    } else {
      assert Serialisable(v) && json.dumps(v) == Some(t[key]);
    }
  }

  /** The only text defaults are "dark" and "list". */
  lemma DefaultTexts(key: string)
    ensures DefaultOf(key).VStr? ==> DefaultOf(key).s == "dark" || DefaultOf(key).s == "list"
  {
  }
}
