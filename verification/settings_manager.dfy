/**
 * The bot's settings store: a JSON object kept in one file, read back with
 * the defaults filled in, and the channel-list and flag operations built on
 * it. The file is an input (what it held before the call); an operation that
 * saves returns the object it writes.
 */
module SettingsManager {
  import opened Optional
  import opened Text
  import opened Seqs

  /** One entry of the "channels" list: `{"username", "title", "required"}`. */
  datatype Channel = Channel(username: string, title: string, required: bool)

  /** The JSON values the settings object holds. */
  datatype Value =
    | Null
    | Flag(b: bool)
    | Number(n: int)
    | Words(s: string)
    | ChannelList(list: seq<Channel>)

  type Settings = map<string, Value>

  /** The settings file as the loader finds it. */
  datatype SettingsFile =
    | Missing                      // no file on disk
    | Undecodable                  // the file exists, is UTF-8, and is not valid JSON
    | Stored(settings: Settings)   // a decoded JSON object

  /** What an operation reports, and the object it saves (`None`: nothing is written). */
  datatype Reply = Reply(ok: bool, message: string, saved: Option<Settings>)

  const CHANNELS: string := "channels"
  const MAINTENANCE: string := "maintenance_mode"

  /** The keys of the defaults, in the order the loader visits them. */
  const DEFAULT_KEYS: seq<string> :=
    [CHANNELS, "bot_enabled", "max_zip_size_mb", "max_files_per_zip", "welcome_message", MAINTENANCE]

  const DEFAULT_SETTINGS: Settings := map[
    CHANNELS := ChannelList([Channel("BALAKXWEBS", "Main Channel", true)]),
    "bot_enabled" := Flag(true),
    "max_zip_size_mb" := Number(20),
    "max_files_per_zip" := Number(100),
    "welcome_message" := Words(""),
    MAINTENANCE := Flag(false)]

  /** Python's truth value of a JSON value, as `not` reads it. */
  predicate Truthy(v: Value)
  {
    match v
    case Null => false
    case Flag(b) => b
    case Number(n) => n != 0
    case Words(s) => s != []
    case ChannelList(l) => l != []
  }

  /** `d.get(key)`: the value, or nothing when the key is absent. */
  function Get(d: Settings, key: string): Option<Value>
  {
    if key in d then Some(d[key]) else None
  }

  // ---------------------------------------------------------------------------
  // Loading: the defaults merged into the stored object

  lemma DefaultKeysListed()
    ensures forall k :: k in DEFAULT_SETTINGS <==> k in DEFAULT_KEYS
  {
  }

  /** The stored object with the default value for every key of `keys` that it lacks. */
  function WithDefaults(stored: Settings, keys: seq<string>): Settings
    requires forall k :: k in keys ==> k in DEFAULT_SETTINGS
  {
    map k | k in stored.Keys + DEFAULT_SETTINGS.Keys && (k in stored || k in keys) ::
      if k in stored then stored[k] else DEFAULT_SETTINGS[k]
  }

  /** The object the loader returns for a file. */
  function Loaded(f: SettingsFile): (s: Settings)
    ensures s.Keys == DEFAULT_SETTINGS.Keys + (if f.Stored? then f.settings.Keys else {})
    ensures f.Stored? ==> forall k :: k in f.settings ==> s[k] == f.settings[k]
    ensures forall k :: k in s && (!f.Stored? || k !in f.settings) ==> s[k] == DEFAULT_SETTINGS[k]
  {
    DefaultKeysListed();
    if f.Stored? then WithDefaults(f.settings, DEFAULT_KEYS) else DEFAULT_SETTINGS
  }

  /** One more key of the defaults visited: it is added unless the object already has it. */
  lemma WithDefaultsStep(stored: Settings, i: nat)
    requires i < |DEFAULT_KEYS|
    ensures forall k :: k in DEFAULT_KEYS[..i] ==> k in DEFAULT_SETTINGS
    ensures var s, key := WithDefaults(stored, DEFAULT_KEYS[..i]), DEFAULT_KEYS[i];
      WithDefaults(stored, DEFAULT_KEYS[..i + 1]) ==
        if key in s then s else s[key := DEFAULT_SETTINGS[key]]
  {
    DefaultKeysListed();
    assert DEFAULT_KEYS[..i + 1] == DEFAULT_KEYS[..i] + [DEFAULT_KEYS[i]];
    assert forall k :: k in DEFAULT_KEYS[..i] ==> k in DEFAULT_KEYS;
  }

  /**
   * `load_settings`: a missing or undecodable file gives the defaults; a
   * decoded object gets each default key it lacks, visited in order.
   */
  method LoadSettings(f: SettingsFile) returns (s: Settings)
    ensures s == Loaded(f)
  {
    if f.Stored? {
      s := f.settings;
      assert s == WithDefaults(f.settings, DEFAULT_KEYS[..0]);
      for i := 0 to |DEFAULT_KEYS|
        invariant s == WithDefaults(f.settings, DEFAULT_KEYS[..i])
      {
        WithDefaultsStep(f.settings, i);
        var key := DEFAULT_KEYS[i];
        if key !in s {
          s := s[key := DEFAULT_SETTINGS[key]];
        }
      }
      assert DEFAULT_KEYS[..|DEFAULT_KEYS|] == DEFAULT_KEYS;
    } else {
      s := DEFAULT_SETTINGS;
    }
  }

  /** Saving what was loaded and loading it again gives the same object. */
  lemma LoadAfterSave(f: SettingsFile)
    ensures Loaded(Stored(Loaded(f))) == Loaded(f)
  {
  }

  /** An object holding every default key loads back as itself. */
  lemma LoadComplete(s: Settings)
    requires DEFAULT_SETTINGS.Keys <= s.Keys
    ensures Loaded(Stored(s)) == s
  {
    assert Loaded(Stored(s)).Keys == s.Keys;
  }

  /** Setting one key of a loaded object, saving it and loading it again gives the object that was saved. */
  lemma ReloadAfterSet(f: SettingsFile, key: string, v: Value)
    ensures Loaded(Stored(Loaded(f)[key := v])) == Loaded(f)[key := v]
  {
    LoadComplete(Loaded(f)[key := v]);
  }

  // ---------------------------------------------------------------------------
  // The channel list

  /** Overwriting a key and then putting its old value back restores the object. */
  lemma Restore(s: Settings, key: string, v: Value)
    requires key in s
    ensures s[key := v][key := s[key]] == s
  {
  }

  /** The list under "channels", or the empty list when the key is absent. */
  function ChannelsOf(s: Settings): seq<Channel>
  {
    if CHANNELS in s && s[CHANNELS].ChannelList? then s[CHANNELS].list else []
  }

  /** The channel operations iterate the "channels" value, so when present it must be a list of records. */
  predicate WellTyped(s: Settings)
  {
    CHANNELS in s ==> s[CHANNELS].ChannelList?
  }

  predicate ChannelsWellTyped(f: SettingsFile)
  {
    f.Stored? ==> WellTyped(f.settings)
  }

  /**
   * Removing and toggling only iterate the "channels" value, so the empty
   * string (which iterates as nothing) is accepted there as well as a list.
   */
  predicate Iterable(s: Settings)
  {
    CHANNELS in s ==> s[CHANNELS].ChannelList? || s[CHANNELS] == Words([])
  }

  predicate ChannelsIterable(f: SettingsFile)
  {
    f.Stored? ==> Iterable(f.settings)
  }

  /** The loaded object then holds its channel list under "channels". */
  lemma LoadedChannels(f: SettingsFile)
    requires ChannelsWellTyped(f)
    ensures WellTyped(Loaded(f))
    ensures CHANNELS in Loaded(f) && Loaded(f)[CHANNELS] == ChannelList(ChannelsOf(Loaded(f)))
  {
  }

  /** A file whose "channels" value is iterable loads as settings whose "channels" value is iterable. */
  lemma LoadedIterable(f: SettingsFile)
    requires ChannelsIterable(f)
    ensures Iterable(Loaded(f)) && CHANNELS in Loaded(f)
  {
  }

  /** Usernames are compared ignoring case. */
  predicate SameName(a: string, b: string)
  {
    Lower(a) == Lower(b)
  }

  predicate HasChannel(cs: seq<Channel>, name: string)
  {
    exists i :: 0 <= i < |cs| && SameName(cs[i].username, name)
  }

  /** No two channels of the list have the same username, ignoring case. */
  predicate DistinctNames(cs: seq<Channel>)
  {
    forall i, j :: 0 <= i < j < |cs| ==> !SameName(cs[i].username, cs[j].username)
  }

  /** How `add_channel` cleans its input: every '@' and every "https://t.me/" removed, then trimmed. */
  function AddName(username: string): (r: string)
    ensures '@' !in r
    ensures r == [] || (!IsSpace(r[0]) && !IsSpace(r[|r| - 1]))
  {
    RemoveAllChar(username, '@');
    Strip(RemoveAll(RemoveAll(username, "@"), LINK))
  }

  /** The channel link prefix that `add_channel` strips. */
  const LINK: string := "https://t.me/"

  /**
   * `add_channel` strips a leading channel link: a name given as its
   * "https://t.me/" link is cleaned to what the bare name is cleaned to.
   */
  lemma AddNameDropsLink(n: string)
    requires '@' !in n
    ensures AddName(LINK + n) == AddName(n)
  {
    assert '@' !in LINK + n;
    RemoveAbsent(LINK + n, '@');
    RemoveAbsent(n, '@');
    RemoveAllLead(LINK, n);
  }

  /** How `remove_channel` and `toggle_channel` clean theirs: every '@' removed, then trimmed. */
  function RefName(username: string): (r: string)
    ensures '@' !in r
    ensures r == [] || (!IsSpace(r[0]) && !IsSpace(r[|r| - 1]))
  {
    RemoveAllChar(username, '@');
    Strip(RemoveAll(username, "@"))
  }

  /** Removing a character the text does not contain changes nothing. */
  lemma {:induction false} RemoveAbsent(s: string, c: char)
    requires c !in s
    ensures RemoveAll(s, [c]) == s
    decreases |s|
  {
    if |s| >= 1 {
      assert s[0] != c;
      assert s[..1] != [c];
      RemoveAbsent(s[1..], c);
      assert s == [s[0]] + s[1..];
    }
  }

  /** Trimming text with no white space at either end changes nothing. */
  lemma StripTrimmed(s: string)
    requires s == [] || (!IsSpace(s[0]) && !IsSpace(s[|s| - 1]))
    ensures Strip(s) == s
  {
  }

  /**
   * The cleaning of `remove_channel` and `toggle_channel` leaves any trimmed
   * input without '@' as it is; unlike `add_channel`'s (`AddNameDropsLink`), it
   * keeps a "https://t.me/" prefix, so a channel added from its link is not found by that link.
   */
  lemma RefNameKeeps(username: string)
    requires '@' !in username
    requires username == [] || (!IsSpace(username[0]) && !IsSpace(username[|username| - 1]))
    ensures RefName(username) == username
  {
    RemoveAbsent(username, '@');
    StripTrimmed(username);
  }

  /** A name cleaned the `add_channel` way is left alone by the cleaning of the other two operations. */
  lemma RefNameOfAddName(username: string)
    ensures RefName(AddName(username)) == AddName(username)
  {
    RefNameKeeps(AddName(username));
  }

  /** The record `add_channel` appends: required, and titled by `title` or else by the name. */
  function NewChannel(name: string, title: string): Channel
  {
    Channel(name, if title == [] then name else title, true)
  }

  /**
   * `add_channel` applied to the settings `s` as loaded, once the input is
   * cleaned to `name`: the reply, and the object saved on success.
   */
  function AddOutcome(s: Settings, name: string, title: string): (r: Reply)
    requires WellTyped(s)
    ensures r.ok <==> name != [] && !HasChannel(ChannelsOf(s), name)
    ensures name == [] ==> r == Reply(false, "Invalid channel username", None)
    ensures name != [] && HasChannel(ChannelsOf(s), name) ==> r == Reply(false, "Channel already exists", None)
    ensures r.ok ==> r.message == "Channel @" + name + " added successfully" && r.saved.Some?
  {
    var cs := ChannelsOf(s);
    if name == [] then Reply(false, "Invalid channel username", None)
    else if HasChannel(cs, name) then Reply(false, "Channel already exists", None)
    else
      Reply(true, "Channel @" + name + " added successfully",
            Some(s[CHANNELS := ChannelList(cs + [NewChannel(name, title)])]))
  }

  /**
   * A successful add changes only "channels": the records already there, in
   * order, followed by one new record for the name.
   */
  lemma AddAppends(s: Settings, name: string, title: string)
    requires WellTyped(s) && AddOutcome(s, name, title).ok
    ensures var saved := AddOutcome(s, name, title).saved.value;
      && saved.Keys == s.Keys + {CHANNELS}
      && (forall k :: k in s && k != CHANNELS ==> saved[k] == s[k])
      && WellTyped(saved)
      && ChannelsOf(saved) == ChannelsOf(s) + [NewChannel(name, title)]
  {
  }

  /** Adding keeps usernames distinct. */
  lemma AddKeepsDistinct(s: Settings, name: string, title: string)
    requires WellTyped(s) && AddOutcome(s, name, title).ok
    requires DistinctNames(ChannelsOf(s))
    ensures DistinctNames(ChannelsOf(AddOutcome(s, name, title).saved.value))
  {
    var cs := ChannelsOf(s);
    var after := ChannelsOf(AddOutcome(s, name, title).saved.value);
    AddAppends(s, name, title);
    forall i, j | 0 <= i < j < |after| ensures !SameName(after[i].username, after[j].username) {
      if j == |cs| {
        assert after[i] == cs[i];
      } else {
        assert after[i] == cs[i] && after[j] == cs[j];
      }
    }
  }

  /** The search loop of `add_channel`: does some record carry `name`, ignoring case? */
  method Lookup(cs: seq<Channel>, name: string) returns (found: bool)
    ensures found <==> HasChannel(cs, name)
  {
    for i := 0 to |cs|
      invariant forall j :: 0 <= j < i ==> !SameName(cs[j].username, name)
    {
      if SameName(cs[i].username, name) {
        return true;
      }
    }
    return false;
  }

  /** `add_channel`: reject an empty or known name, otherwise append a record and save. */
  method AddChannel(f: SettingsFile, username: string, title: string) returns (r: Reply)
    requires AddName(username) != [] ==> ChannelsWellTyped(f)
    ensures AddName(username) == [] ==> r == Reply(false, "Invalid channel username", None)
    ensures AddName(username) != [] ==> WellTyped(Loaded(f)) && r == AddOutcome(Loaded(f), AddName(username), title)
  {
    var name := RemoveAll(RemoveAll(username, "@"), "https://t.me/");
    name := Strip(name);
    if name == [] {
      return Reply(false, "Invalid channel username", None);
    }
    LoadedChannels(f);
    var settings := LoadSettings(f);
    var channels := ChannelsOf(settings);
    var known := Lookup(channels, name);
    if known {
      return Reply(false, "Channel already exists", None);
    }
    channels := channels + [Channel(name, if title == [] then name else title, true)];
    settings := settings[CHANNELS := ChannelList(channels)];
    return Reply(true, "Channel @" + name + " added successfully", Some(settings));
  }

  /** Accepts the channels whose username differs from `name`, ignoring case. */
  function Other(name: string): Channel -> bool
  {
    (c: Channel) => !SameName(c.username, name)
  }

  /** The list comprehension of `remove_channel`: every match dropped, the rest in order. */
  function Without(cs: seq<Channel>, name: string): (r: seq<Channel>)
    ensures forall c :: c in r <==> c in cs && !SameName(c.username, name)
    ensures |r| == |cs| <==> !HasChannel(cs, name)
    ensures SelectedInOrder(r, cs, Other(name))
  {
    FilterInOrder(cs, Other(name));
    forall c ensures c in Filter(cs, Other(name)) <==> c in cs && Other(name)(c) {
      FilterMembers(cs, Other(name), c);
    }
    FilterLength(cs, Other(name));
    Filter(cs, Other(name))
  }

  /** `remove_channel` applied to the settings `s` as loaded, once the input is cleaned to `name`. */
  function RemoveOutcome(s: Settings, name: string): (r: Reply)
    requires Iterable(s)
    ensures r.ok <==> HasChannel(ChannelsOf(s), name)
    ensures !r.ok ==> r == Reply(false, "Channel not found", None)
    ensures r.ok ==> r.message == "Channel @" + name + " removed" && r.saved.Some?
  {
    var cs := ChannelsOf(s);
    var kept := Without(cs, name);
    if |kept| == |cs| then Reply(false, "Channel not found", None)
    else Reply(true, "Channel @" + name + " removed", Some(s[CHANNELS := ChannelList(kept)]))
  }

  /**
   * A successful remove changes only "channels": what is left holds no record
   * for the name, and every record of the old list that does not match it.
   */
  lemma RemoveDrops(s: Settings, name: string)
    requires WellTyped(s) && RemoveOutcome(s, name).ok
    ensures var saved := RemoveOutcome(s, name).saved.value;
      && saved.Keys == s.Keys + {CHANNELS}
      && (forall k :: k in s && k != CHANNELS ==> saved[k] == s[k])
      && WellTyped(saved)
      && |ChannelsOf(saved)| < |ChannelsOf(s)|
      && (forall c :: c in ChannelsOf(saved) <==> c in ChannelsOf(s) && !SameName(c.username, name))
      && SelectedInOrder(ChannelsOf(saved), ChannelsOf(s), Other(name))
  {
  }

  /** `remove_channel`: load the settings and drop every record matching the cleaned name. */
  function RemoveChannel(f: SettingsFile, username: string): (r: Reply)
    requires ChannelsIterable(f)
    ensures r.ok <==> HasChannel(ChannelsOf(Loaded(f)), RefName(username))
    ensures !r.ok ==> r == Reply(false, "Channel not found", None)
  {
    LoadedIterable(f);
    RemoveOutcome(Loaded(f), RefName(username))
  }

  /** Removing a name right after adding it gives back the settings as they were. */
  lemma AddThenRemove(s: Settings, name: string, title: string)
    requires WellTyped(s) && CHANNELS in s && AddOutcome(s, name, title).ok
    ensures var saved := AddOutcome(s, name, title).saved.value;
      && WellTyped(saved)
      && RemoveOutcome(saved, name).ok
      && RemoveOutcome(saved, name).saved == Some(s)
  {
    var cs := ChannelsOf(s);
    var entry := NewChannel(name, title);
    AddAppends(s, name, title);
    FilterAppend(cs, [entry], Other(name));
    assert Filter([entry], Other(name)) == [] by {
      assert [entry][..0] == [];
    }
    FilterAll(cs, Other(name));
    assert Without(cs + [entry], name) == cs;
    var saved := s[CHANNELS := ChannelList(cs + [entry])];
    assert AddOutcome(s, name, title).saved == Some(saved);
    assert RemoveOutcome(saved, name).saved == Some(saved[CHANNELS := ChannelList(cs)]);
    Restore(s, CHANNELS, ChannelList(cs + [entry]));
  }

  /**
   * The same round trip through the settings file: a channel added from any
   * input is removed again by its cleaned name.
   */
  lemma AddThenRemoveChannel(f: SettingsFile, username: string, title: string)
    requires ChannelsWellTyped(f)
    requires WellTyped(Loaded(f)) && AddOutcome(Loaded(f), AddName(username), title).ok
    ensures var after := Stored(AddOutcome(Loaded(f), AddName(username), title).saved.value);
      && ChannelsWellTyped(after)
      && RemoveChannel(after, AddName(username)).saved == Some(Loaded(f))
  {
    var s, name := Loaded(f), AddName(username);
    LoadedChannels(f);
    RefNameOfAddName(username);
    AddThenRemove(s, name, title);
    ReloadAfterSet(f, CHANNELS, ChannelList(ChannelsOf(s) + [NewChannel(name, title)]));
  }

  /** The position of the first record matching `name`, or -1. */
  function FirstMatch(cs: seq<Channel>, name: string): (r: int)
    ensures -1 <= r < |cs|
    ensures r >= 0 ==> SameName(cs[r].username, name)
    ensures forall j :: 0 <= j < |cs| && (r < 0 || j < r) ==> !SameName(cs[j].username, name)
    ensures r < 0 <==> !HasChannel(cs, name)
  {
    if cs == [] then -1
    else if SameName(cs[0].username, name) then 0
    else
      var r := FirstMatch(cs[1..], name);
      assert forall j :: 1 <= j < |cs| ==> cs[j] == cs[1..][j - 1];
      if r < 0 then -1 else r + 1
  }

  /** The list with `required` negated on record `i`. */
  function Flip(cs: seq<Channel>, i: nat): (r: seq<Channel>)
    requires i < |cs|
    ensures |r| == |cs|
    ensures r[i] == Channel(cs[i].username, cs[i].title, !cs[i].required)
    ensures forall j :: 0 <= j < |cs| && j != i ==> r[j] == cs[j]
  {
    cs[i := cs[i].(required := !cs[i].required)]
  }

  /** Flipping the same record twice gives the list back. */
  lemma FlipTwice(cs: seq<Channel>, i: nat)
    requires i < |cs|
    ensures Flip(Flip(cs, i), i) == cs
  {
    var once := Flip(cs, i);
    assert once[i].(required := !once[i].required) == cs[i];
    assert once[i := cs[i]] == cs;
  }

  /** The first match depends on the usernames only. */
  lemma {:induction false} FirstMatchSameNames(cs: seq<Channel>, ds: seq<Channel>, name: string)
    requires |cs| == |ds|
    requires forall j :: 0 <= j < |cs| ==> cs[j].username == ds[j].username
    ensures FirstMatch(cs, name) == FirstMatch(ds, name)
    decreases |cs|
  {
    if cs != [] {
      FirstMatchSameNames(cs[1..], ds[1..], name);
    }
  }

  /** `toggle_channel` applied to the settings `s` as loaded, once the input is cleaned to `name`. */
  function ToggleOutcome(s: Settings, name: string): (r: Reply)
    requires Iterable(s)
    ensures r.ok <==> HasChannel(ChannelsOf(s), name)
    ensures !r.ok ==> r == Reply(false, "Channel not found", None)
    ensures r.ok ==> r.saved.Some?
  {
    var cs := ChannelsOf(s);
    var i := FirstMatch(cs, name);
    if i < 0 then Reply(false, "Channel not found", None)
    else
      var status := if cs[i].required then "disabled" else "enabled";
      Reply(true, "Channel @" + name + " " + status, Some(s[CHANNELS := ChannelList(Flip(cs, i))]))
  }

  /**
   * A successful toggle changes only "channels", and there only the first
   * matching record, whose `required` it negates; the message reports the new state.
   */
  lemma ToggleFlipsFirst(s: Settings, name: string)
    requires WellTyped(s) && ToggleOutcome(s, name).ok
    ensures var cs := ChannelsOf(s);
      var r, i := ToggleOutcome(s, name), FirstMatch(cs, name);
      && 0 <= i < |cs| && SameName(cs[i].username, name)
      && (forall j :: 0 <= j < i ==> !SameName(cs[j].username, name))
      && r.saved.value.Keys == s.Keys + {CHANNELS}
      && (forall k :: k in s && k != CHANNELS ==> r.saved.value[k] == s[k])
      && WellTyped(r.saved.value)
      && ChannelsOf(r.saved.value) == Flip(cs, i)
      && r.message == "Channel @" + name + " " + (if Flip(cs, i)[i].required then "enabled" else "disabled")
  {
  }

  /** Toggling never changes a username or a title, so distinct usernames stay distinct. */
  lemma ToggleKeepsDistinct(s: Settings, name: string)
    requires WellTyped(s) && ToggleOutcome(s, name).ok
    requires DistinctNames(ChannelsOf(s))
    ensures DistinctNames(ChannelsOf(ToggleOutcome(s, name).saved.value))
  {
    ToggleFlipsFirst(s, name);
    var cs := ChannelsOf(s);
    var after := ChannelsOf(ToggleOutcome(s, name).saved.value);
    assert forall j :: 0 <= j < |cs| ==> after[j].username == cs[j].username;
  }

  /** Toggling the same name twice gives back the settings as they were. */
  lemma ToggleTwice(s: Settings, name: string)
    requires WellTyped(s) && CHANNELS in s && ToggleOutcome(s, name).ok
    ensures var saved := ToggleOutcome(s, name).saved.value;
      && WellTyped(saved)
      && ToggleOutcome(saved, name).ok
      && ToggleOutcome(saved, name).saved == Some(s)
  {
    var cs := ChannelsOf(s);
    var i := FirstMatch(cs, name);
    var once := Flip(cs, i);
    FirstMatchSameNames(cs, once, name);
    FlipTwice(cs, i);
    var saved := s[CHANNELS := ChannelList(once)];
    assert ToggleOutcome(s, name).saved == Some(saved);
    assert ToggleOutcome(saved, name).saved == Some(saved[CHANNELS := ChannelList(cs)]);
    Restore(s, CHANNELS, ChannelList(once));
  }

  /** The search loop of `toggle_channel`: the position of the first record carrying `name`, or -1. */
  method FindFirst(cs: seq<Channel>, name: string) returns (i: int)
    ensures i == FirstMatch(cs, name)
  {
    for k := 0 to |cs|
      invariant forall j :: 0 <= j < k ==> !SameName(cs[j].username, name)
    {
      if SameName(cs[k].username, name) {
        return k;
      }
    }
    return -1;
  }

  /** `toggle_channel`: flip `required` on the first matching record and save, or report that none matches. */
  method ToggleChannel(f: SettingsFile, username: string) returns (r: Reply)
    requires ChannelsIterable(f)
    ensures Iterable(Loaded(f)) && r == ToggleOutcome(Loaded(f), RefName(username))
  {
    LoadedIterable(f);
    var name := Strip(RemoveAll(username, "@"));
    var settings := LoadSettings(f);
    var channels := ChannelsOf(settings);
    var i := FindFirst(channels, name);
    if i < 0 {
      return Reply(false, "Channel not found", None);
    }
    var ch := channels[i].(required := !channels[i].required);
    channels := channels[i := ch];
    settings := settings[CHANNELS := ChannelList(channels)];
    var status := if ch.required then "enabled" else "disabled";
    return Reply(true, "Channel @" + name + " " + status, Some(settings));
  }

  // ---------------------------------------------------------------------------
  // Single settings

  /** `get_setting`: the loaded value, falling back to the default for the key. */
  function GetSetting(f: SettingsFile, key: string): (r: Option<Value>)
    ensures f.Stored? && key in f.settings ==> r == Some(f.settings[key])
    ensures (!f.Stored? || key !in f.settings) ==> r == Get(DEFAULT_SETTINGS, key)
  {
    match Get(Loaded(f), key)
    case Some(v) => Some(v)
    case None => Get(DEFAULT_SETTINGS, key)
  }

  /** `set_setting`: store the value under the key and save; always reports success. */
  method SetSetting(f: SettingsFile, key: string, value: Value) returns (ok: bool, saved: Settings)
    ensures ok
    ensures saved == Loaded(f)[key := value]
  {
    var settings := LoadSettings(f);
    settings := settings[key := value];
    return true, settings;
  }

  /** After `set_setting`, reading the key gives the new value and every other key reads as before. */
  lemma GetAfterSet(f: SettingsFile, key: string, value: Value, other: string)
    requires other != key
    ensures GetSetting(Stored(Loaded(f)[key := value]), key) == Some(value)
    ensures GetSetting(Stored(Loaded(f)[key := value]), other) == GetSetting(f, other)
  {
  }

  /** The object `toggle_maintenance` saves: the flag negated, an absent flag read as false. */
  function FlippedMaintenance(f: SettingsFile): (s: Settings)
    ensures s.Keys == Loaded(f).Keys
    ensures s[MAINTENANCE] == Flag(!Truthy(Loaded(f)[MAINTENANCE]))
    ensures forall k :: k in s && k != MAINTENANCE ==> s[k] == Loaded(f)[k]
  {
    var s := Loaded(f);
    var current := match Get(s, MAINTENANCE) case Some(v) => v case None => Flag(false);
    s[MAINTENANCE := Flag(!Truthy(current))]
  }

  /** `toggle_maintenance`: negate the maintenance flag, save, and return the new value. */
  method ToggleMaintenance(f: SettingsFile) returns (mode: bool, saved: Settings)
    ensures saved == FlippedMaintenance(f)
    ensures mode == !Truthy(Loaded(f)[MAINTENANCE])
  {
    var settings := LoadSettings(f);
    var current := if MAINTENANCE in settings then settings[MAINTENANCE] else Flag(false);
    settings := settings[MAINTENANCE := Flag(!Truthy(current))];
    return settings[MAINTENANCE].b, settings;
  }

  /**
   * Toggling maintenance twice leaves the flag's truth value as it was, and
   * restores the settings exactly when the flag was a boolean.
   */
  lemma ToggleMaintenanceTwice(f: SettingsFile)
    ensures var twice := FlippedMaintenance(Stored(FlippedMaintenance(f)));
      twice[MAINTENANCE] == Flag(Truthy(Loaded(f)[MAINTENANCE]))
    ensures Loaded(f)[MAINTENANCE].Flag? <==> FlippedMaintenance(Stored(FlippedMaintenance(f))) == Loaded(f)
  {
    LoadComplete(FlippedMaintenance(f));
  }

  /** `is_maintenance_mode`: the maintenance value, which the loader always supplies. */
  function IsMaintenanceMode(f: SettingsFile): (r: Option<Value>)
    ensures r == Some(Loaded(f)[MAINTENANCE])
    ensures !f.Stored? || MAINTENANCE !in f.settings ==> r == Some(Flag(false))
  {
    GetSetting(f, MAINTENANCE)
  }
}
