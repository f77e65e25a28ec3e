/**
 * Provider selection: the persisted setting naming the selected provider,
 * the mapping from the names shown in the settings UI back to providers, and
 * the `JetbridgeProviderManager.provider` getter that caches one provider
 * object and replaces it only when the selected kind changes.
 *
 * Object identity is modelled by a serial number handed out on creation.
 */
module JetbridgeSettings {
  import opened Wrappers

  const OpenCodeName: string := "opencode"
  const GeminiCliName: string := "gemini-cli"

  /** The providers a user can select. */
  datatype AvailableProvider = OpenCode | GeminiCli {

    /** The name shown in the settings UI; `FromDisplayName` inverts it. */
    function DisplayName(): (name: string)
      ensures FromDisplayName(name) == this
    {
      match this
      case OpenCode => OpenCodeName
      case GeminiCli => GeminiCliName
    }
  }

  /** `AvailableProvider.fromDisplayName`: `gemini-cli` selects Gemini, every other name OpenCode. */
  function FromDisplayName(name: string): (p: AvailableProvider)
    ensures p == GeminiCli <==> name == "gemini-cli"
    ensures p == OpenCode <==> name != "gemini-cli"
  {
    if name == GeminiCliName then GeminiCli else OpenCode
  }

  /** Different providers are shown under different names. */
  lemma DisplayNamesDistinct(p: AvailableProvider, q: AvailableProvider)
    ensures p.DisplayName() == q.DisplayName() <==> p == q
  {
    if p.DisplayName() == q.DisplayName() {
      assert FromDisplayName(p.DisplayName()) == FromDisplayName(q.DisplayName());
    }
  }

  /** The persisted `JetbridgeSettings.State`. */
  datatype SettingsState = SettingsState(selectedProvider: AvailableProvider)

  /** A fresh `State()`, used until a stored one is loaded. */
  function DefaultSettings(): (s: SettingsState)
    ensures s.selectedProvider.DisplayName() == "opencode"
  {
    SettingsState(OpenCode)
  }

  // ------------------------------------------------------------ the getter

  /** A provider object: its class and, standing for its identity, a serial. */
  datatype ProviderInstance = ProviderInstance(kind: AvailableProvider, serial: nat)

  /** `JetbridgeProviderManager`: the cached `_provider` and how many were created so far. */
  datatype Manager = Manager(cached: Option<ProviderInstance>, created: nat)

  /** Serials are handed out in order, so a cached object's is below the counter. */
  predicate Valid(m: Manager) {
    m.cached.Some? ==> m.cached.value.serial < m.created
  }

  /** The kind of the cached object, if any. */
  function CachedKind(m: Manager): Option<AvailableProvider> {
    match m.cached
    case None => None
    case Some(p) => Some(p.kind)
  }

  /**
   * The `provider` getter for the selected setting: keeps the cached object
   * when it is of the selected kind, otherwise creates and caches a new one.
   */
  function GetProvider(m: Manager, selected: AvailableProvider): (r: (Manager, ProviderInstance))
    requires Valid(m)
    ensures Valid(r.0)
    ensures r.1.kind == selected
    ensures r.0.cached == Some(r.1)
    ensures CachedKind(m) == Some(selected) ==> r.0 == m
    ensures CachedKind(m) != Some(selected) ==>
      r.0.created == m.created + 1 && (m.cached.Some? ==> r.1.serial != m.cached.value.serial)
  {
    match m.cached
    case Some(p) =>
      if p.kind == selected then (m, p)
      else
        var q := ProviderInstance(selected, m.created);
        (Manager(Some(q), m.created + 1), q)
    case None =>
      var q := ProviderInstance(selected, m.created);
      (Manager(Some(q), m.created + 1), q)
  }

  /** Reading the getter twice under the same setting yields the same object. */
  lemma GetProviderIsStable(m: Manager, selected: AvailableProvider)
    requires Valid(m)
    ensures var (m1, p1) := GetProvider(m, selected);
            GetProvider(m1, selected) == (m1, p1)
  {
  }

  /** The manager after reading the getter once under each of `selections`, in order. */
  function ReadAll(m: Manager, selections: seq<AvailableProvider>): (r: Manager)
    requires Valid(m)
    ensures Valid(r)
    decreases |selections|
  {
    if |selections| == 0 then m
    else ReadAll(GetProvider(m, selections[0]).0, selections[1..])
  }

  /** How many of `selections` differ from the selection read before them (`prev` for the first). */
  function KindChanges(prev: Option<AvailableProvider>, selections: seq<AvailableProvider>): nat
    decreases |selections|
  {
    if |selections| == 0 then 0
    else (if prev == Some(selections[0]) then 0 else 1) + KindChanges(Some(selections[0]), selections[1..])
  }

  /** A new provider object is created exactly once per change of the selected kind. */
  lemma {:induction false} CreatedOncePerKindChange(m: Manager, selections: seq<AvailableProvider>)
    requires Valid(m)
    ensures ReadAll(m, selections).created == m.created + KindChanges(CachedKind(m), selections)
    ensures |selections| > 0 ==> CachedKind(ReadAll(m, selections)) == Some(selections[|selections| - 1])
    decreases |selections|
  {
    if |selections| > 0 {
      var m1 := GetProvider(m, selections[0]).0;
      assert CachedKind(m1) == Some(selections[0]);
      CreatedOncePerKindChange(m1, selections[1..]);
      if |selections| > 1 {
        assert selections[1..][|selections[1..]| - 1] == selections[|selections| - 1];
      }
    }
  }
}
