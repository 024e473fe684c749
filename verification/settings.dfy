/** atom/settings.py: the application settings, a read-only mapping whose lookups
    upper-case the key, and the OAuth credentials store hung off it. `ImmutableMapping` is
    taken to be a plain mapping that stores the keys it is given; `SETTING_ENV_PREFIX` is a
    parameter. */
module Settings {
  import opened Wrappers
  import Strings
  import Dicts

  /** A setting's value: `Union[str, int, bool]`. */
  datatype Value = Text(text: string) | Number(number: int) | Flag(flag: bool)

  /** `Crendentials` (sic): the three fields of one service's OAuth client. */
  datatype Credentials = Credentials(clientId: string, clientSecret: string, redirectUri: string)

  /** `Authentication`: credentials by service name, in the order services were first set. */
  datatype Authentication = Authentication(creds: Dicts.Dict<string, Credentials>)

  datatype Settings = Settings(store: Dicts.Dict<string, Value>, authentication: Authentication)

  datatype SettingsError =
    | KeyError(key: string)   // the upper-cased key is not stored
    | EmptySeparator          // ValueError from `str.split` with an empty separator
    | UnpackMismatch          // ValueError from unpacking a split into two names

  // ---------------------------------------------------------------------------
  // Authentication
  // ---------------------------------------------------------------------------

  /** `Authentication()`: no credentials yet. */
  function NewAuthentication(): (a: Authentication)
    ensures Dicts.Valid(a.creds) && Dicts.Len(a.creds) == 0
  {
    Authentication(Dicts.Empty())
  }

  /** `set_credentials_for(service, client_id=..., client_secret=..., redirect_uri=...)`:
      builds the record from the arguments, stores it under the service (replacing any
      earlier record for it) and returns it with the new store. */
  function SetCredentialsFor(a: Authentication, service: string, clientId: string, clientSecret: string,
                             redirectUri: string): (r: (Authentication, Credentials))
    ensures r.1.clientId == clientId && r.1.clientSecret == clientSecret && r.1.redirectUri == redirectUri
    ensures Dicts.Get(r.0.creds, service) == Some(r.1)
    ensures forall other :: other != service ==> Dicts.Get(r.0.creds, other) == Dicts.Get(a.creds, other)
    ensures Dicts.Valid(a.creds) ==> Dicts.Valid(r.0.creds)
    ensures Dicts.HasKey(a.creds, service) ==> Dicts.Keys(r.0.creds) == Dicts.Keys(a.creds)
    ensures !Dicts.HasKey(a.creds, service) ==> Dicts.Keys(r.0.creds) == Dicts.Keys(a.creds) + [service]
  {
    var credentials := Credentials(clientId, clientSecret, redirectUri);
    var creds := Dicts.Set(a.creds, service, credentials);
    Dicts.SetLookups(a.creds, service, credentials);
    assert Dicts.Valid(a.creds) ==> Dicts.Valid(creds) by {
      if Dicts.Valid(a.creds) {
        Dicts.SetSpec(a.creds, service, credentials);
      }
    }
    Dicts.SetKeepsOrder(a.creds, service, credentials);
    (Authentication(creds), credentials)
  }

  /** `get_credentials_for(service)`: the stored record, or `None` for an unknown service. */
  function GetCredentialsFor(a: Authentication, service: string): (r: Option<Credentials>)
    ensures r.Some? <==> service in Dicts.Keys(a.creds)
    ensures r.Some? ==> (service, r.value) in a.creds.entries
  {
    Dicts.InKeys(a.creds, service);
    Dicts.Get(a.creds, service)
  }

  /** `iter(authentication)`: the (service, credentials) pairs in store order. */
  function Items(a: Authentication): (items: seq<(string, Credentials)>)
    ensures |items| == Dicts.Len(a.creds)
  {
    a.creds.entries
  }

  /** Reading back after setting: the service just set yields the returned record, every
      other service what it yielded before. */
  lemma GetAfterSet(a: Authentication, service: string, clientId: string, clientSecret: string,
                    redirectUri: string, query: string)
    ensures var (a', creds) := SetCredentialsFor(a, service, clientId, clientSecret, redirectUri);
      GetCredentialsFor(a', query) ==
        if query == service then Some(Credentials(clientId, clientSecret, redirectUri))
        else GetCredentialsFor(a, query)
  {
  }

  /** Iteration and lookup agree on a store every service occurs in once: each pair
      iterated is what the lookup returns, and every service the lookup knows is iterated,
      exactly once. */
  lemma {:induction false} ItemsAreLookups(a: Authentication)
    requires Dicts.Valid(a.creds)
    ensures forall i :: 0 <= i < |Items(a)| ==> GetCredentialsFor(a, Items(a)[i].0) == Some(Items(a)[i].1)
    ensures forall service :: GetCredentialsFor(a, service).Some? ==>
      exists i :: 0 <= i < |Items(a)| && Items(a)[i] == (service, GetCredentialsFor(a, service).value)
    ensures forall i, j :: 0 <= i < j < |Items(a)| ==> Items(a)[i].0 != Items(a)[j].0
  {
    forall i | 0 <= i < |Items(a)|
      ensures GetCredentialsFor(a, Items(a)[i].0) == Some(Items(a)[i].1)
    {
      Dicts.GetEntry(a.creds, i);
    }
    forall service | GetCredentialsFor(a, service).Some?
      ensures exists i :: 0 <= i < |Items(a)| && Items(a)[i] == (service, GetCredentialsFor(a, service).value)
    {
      var i :| 0 <= i < |a.creds.entries| && a.creds.entries[i] == (service, GetCredentialsFor(a, service).value);
      assert Items(a)[i] == a.creds.entries[i];
    }
  }

  /** Whatever sequence of `set_credentials_for` calls is made on a fresh store, every
      service occurs once. */
  function SetAll(a: Authentication, calls: seq<(string, Credentials)>): (r: Authentication)
    ensures Dicts.Valid(a.creds) ==> Dicts.Valid(r.creds)
    decreases |calls|
  {
    if |calls| == 0 then a
    else
      var c := calls[0].1;
      SetAll(SetCredentialsFor(a, calls[0].0, c.clientId, c.clientSecret, c.redirectUri).0, calls[1..])
  }

  // ---------------------------------------------------------------------------
  // Settings
  // ---------------------------------------------------------------------------

  /** `Settings(defaults)`: falsy defaults (`None` or `{}`) give an empty mapping, others
      are stored as given; the credentials store starts empty. */
  function New(defaults: Option<Dicts.Dict<string, Value>>): (s: Settings)
    ensures defaults.None? || Dicts.Len(defaults.value) == 0 ==> Dicts.Len(s.store) == 0
    ensures defaults.Some? ==> s.store == defaults.value
    ensures s.authentication == NewAuthentication()
  {
    var store := if defaults.None? || Dicts.Len(defaults.value) == 0 then Dicts.Empty() else defaults.value;
    Settings(store, NewAuthentication())
  }

  /** `settings[k]`: the value stored under the upper-cased key; KeyError otherwise. */
  function GetItem(s: Settings, k: string): (r: Result<Value, SettingsError>)
    ensures r.Ok? <==> Strings.Upper(k) in Dicts.Keys(s.store)
    ensures r.Ok? ==> (Strings.Upper(k), r.value) in s.store.entries
    ensures r.Err? ==> r.error == KeyError(Strings.Upper(k))
  {
    var key := Strings.Upper(k);
    Dicts.InKeys(s.store, key);
    match Dicts.Get(s.store, key)
    case Some(v) => Ok(v)
    case None => Err(KeyError(key))
  }

  /** `s['host']`, `s['Host']` and `s['HOST']` agree: lookups ignore ASCII case. */
  lemma GetItemIgnoresCase(s: Settings, k1: string, k2: string)
    requires Strings.Upper(k1) == Strings.Upper(k2)
    ensures GetItem(s, k1) == GetItem(s, k2)
  {
  }

  /** A setting stored under a key with a lower-case letter can never be read back: no
      lookup key upper-cases to it. */
  lemma LowerCaseKeyUnreachable(s: Settings, stored: string, k: string)
    requires !Strings.IsUpperCase(stored)
    ensures Strings.Upper(k) != stored
  {
    Strings.UpperNormalises(k);
  }

  /** A stored upper-case key is found by itself and by its lower-case spelling. */
  lemma UpperCaseKeyFound(s: Settings, stored: string, v: Value)
    requires Dicts.Valid(s.store) && (stored, v) in s.store.entries && Strings.IsUpperCase(stored)
    ensures GetItem(s, stored) == Ok(v)
    ensures GetItem(s, Strings.Lower(stored)) == Ok(v)
  {
    var i :| 0 <= i < |s.store.entries| && s.store.entries[i] == (stored, v);
    Dicts.GetEntry(s.store, i);
    Strings.UpperNormalises(stored);
    Strings.UpperOfLower(stored);
  }

  /** The loop of `from_env_vars` over the environment's names: each name starting with the
      prefix is split once on it and unpacked into two. An empty prefix starts every name
      and is an empty separator for `split`; a non-empty prefix that starts a name always
      splits it in two. */
  function ScanEnv(names: seq<string>, prefix: string): (r: Option<SettingsError>)
    ensures r.None? <==> prefix != "" || |names| == 0
    ensures r.Some? ==> r.value == EmptySeparator
    decreases |names|
  {
    if |names| == 0 then None
    else if Strings.StartsWith(names[0], prefix) then
      if prefix == "" then Some(EmptySeparator)
      else
        assert Strings.OccursAt(names[0], prefix, 0);
        if |Strings.SplitOnce(names[0], prefix)| != 2 then Some(UnpackMismatch)
        else ScanEnv(names[1..], prefix)
    else ScanEnv(names[1..], prefix)
  }

  /** `Settings.from_env_vars()` over the environment's variable names: a fresh, empty
      settings object whatever the environment holds, unless the prefix is empty and the
      environment is not. */
  function FromEnvVars(names: seq<string>, prefix: string): (r: Result<Settings, SettingsError>)
    ensures r.Err? <==> prefix == "" && |names| > 0
    ensures r.Ok? ==> Dicts.Len(r.value.store) == 0 && Dicts.Len(r.value.authentication.creds) == 0
  {
    match ScanEnv(names, prefix)
    case Some(e) => Err(e)
    case None => Ok(New(None))
  }

  /** The environment's contents never reach the settings: two environments that both load
      give the same settings. */
  lemma FromEnvVarsIgnoresEnvironment(names1: seq<string>, names2: seq<string>, prefix: string)
    requires FromEnvVars(names1, prefix).Ok? && FromEnvVars(names2, prefix).Ok?
    ensures FromEnvVars(names1, prefix) == FromEnvVars(names2, prefix)
  {
  }
}
