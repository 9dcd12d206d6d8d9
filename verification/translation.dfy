/**
 * `CombinedTranslationManager`: an ordered list of translation managers
 * consulted in turn, plus an optional delegate that receives resource
 * bundles and answers keys nobody has. The managers themselves are opaque:
 * they are identified by `ManagerId`, and their `getIfPresent`/`get`
 * answers are passed in as functions.
 */
module Translation {
  import opened Wrappers

  type ManagerId = nat

  datatype Translation = Provided(tag: nat) | FixedTranslation(key: string)

  datatype Combined = Combined(managers: seq<ManagerId>, delegate: Option<ManagerId>)

  datatype TranslationError = IllegalArgument(message: string)

  /** A resource bundle handed to one manager. */
  datatype Delivery = Delivery(manager: ManagerId, bundle: string, locale: string)

  const EMPTY: Combined := Combined([], None)

  /** The delegate, when set, is one of the added managers. */
  predicate Valid(c: Combined) {
    c.delegate.Some? ==> c.delegate.value in c.managers
  }

  /** `addManager`: appends. */
  function AddManager(c: Combined, m: ManagerId): (r: Combined)
    ensures |r.managers| == |c.managers| + 1 && r.managers[..|c.managers|] == c.managers && r.managers[|c.managers|] == m
    ensures r.delegate == c.delegate
    ensures Valid(c) ==> Valid(r)
  {
    Combined(c.managers + [m], c.delegate)
  }

  /** The position `addManagerAt` inserts at: `index` clamped into [0, size]. */
  function Clamp(index: int, size: nat): (k: nat)
    ensures k <= size
    ensures 0 <= index <= size ==> k == index
    ensures index < 0 ==> k == 0
    ensures index > size ==> k == size
  {
    if index < 0 then 0 else if index > size then size else index
  }

  /** `addManagerAt`: inserts at the clamped index; every other manager keeps its relative order. */
  function AddManagerAt(c: Combined, index: int, m: ManagerId): (r: Combined)
    ensures var k := Clamp(index, |c.managers|);
      && |r.managers| == |c.managers| + 1
      && r.managers[k] == m
      && r.managers[..k] == c.managers[..k]
      && r.managers[k + 1..] == c.managers[k..]
    ensures multiset(r.managers) == multiset(c.managers) + multiset{m}
    ensures r.delegate == c.delegate
    ensures Valid(c) ==> Valid(r)
  {
    var k := Clamp(index, |c.managers|);
    assert c.managers == c.managers[..k] + c.managers[k..];
    Combined(c.managers[..k] + [m] + c.managers[k..], c.delegate)
  }

  /** `setDelegateManager`: only a manager that was added can become the delegate. */
  function SetDelegateManager(c: Combined, m: ManagerId): (r: Result<Combined, TranslationError>)
    ensures r.Ok? <==> m in c.managers
    ensures r.Ok? ==> r.value.managers == c.managers && r.value.delegate == Some(m) && Valid(r.value)
    ensures r.Err? ==> r.error == IllegalArgument("manager must be added before using this method")
  {
    if m in c.managers then Ok(Combined(c.managers, Some(m)))
    else Err(IllegalArgument("manager must be added before using this method"))
  }

  /** `getDelegateManager`: the explicit delegate, else the first manager, else none. */
  function DelegateManager(c: Combined): (r: Option<ManagerId>)
    ensures Valid(c) ==> (r.Some? ==> r.value in c.managers)
    ensures Valid(c) ==> (r.None? <==> |c.managers| == 0)
    ensures c.delegate.None? && |c.managers| > 0 ==> r == Some(c.managers[0])
  {
    if c.delegate.Some? then c.delegate
    else if |c.managers| > 0 then Some(c.managers[0])
    else None
  }

  /** `getIfPresent` over a list of managers: the first manager that has the key answers. */
  function FirstPresent(ms: seq<ManagerId>, lookup: (ManagerId, string) -> Option<Translation>, key: string): (r: Option<Translation>)
    ensures r.None? <==> forall i :: 0 <= i < |ms| ==> lookup(ms[i], key).None?
    ensures r.Some? ==> exists i :: (0 <= i < |ms| && lookup(ms[i], key) == r
      && forall j :: 0 <= j < i ==> lookup(ms[j], key).None?)
  {
    if |ms| == 0 then None
    else
      var here := lookup(ms[0], key);
      if here.Some? then here
      else
        var r := FirstPresent(ms[1..], lookup, key);
        assert r.Some? ==> exists i :: (0 <= i < |ms[1..]| && lookup(ms[1..][i], key) == r
          && forall j :: 0 <= j < i ==> lookup(ms[1..][j], key).None?);
        assert forall i :: 0 <= i < |ms[1..]| ==> ms[1..][i] == ms[i + 1];
        r
  }

  function GetIfPresent(c: Combined, lookup: (ManagerId, string) -> Option<Translation>, key: string): Option<Translation> {
    FirstPresent(c.managers, lookup, key)
  }

  /**
   * `get`: the first present translation; failing that, the delegate's own
   * `get`; with no manager at all, a fixed translation of the key.
   */
  function Get(c: Combined, lookup: (ManagerId, string) -> Option<Translation>,
               getOf: (ManagerId, string) -> Translation, key: string): (r: Translation)
    ensures (exists i :: 0 <= i < |c.managers| && lookup(c.managers[i], key).Some?) ==>
      Some(r) == FirstPresent(c.managers, lookup, key)
    ensures (forall i :: 0 <= i < |c.managers| ==> lookup(c.managers[i], key).None?) ==>
      r == if DelegateManager(c).None? then FixedTranslation(key) else getOf(DelegateManager(c).value, key)
  {
    match GetIfPresent(c, lookup, key)
    case Some(t) => t
    case None =>
      match DelegateManager(c)
      case Some(m) => getOf(m, key)
      case None => FixedTranslation(key)
  }

  /** `addResourceBundle`: goes to the delegate only; dropped when there is no manager. */
  function AddResourceBundle(c: Combined, bundle: string, locale: string): (r: Option<Delivery>)
    ensures Valid(c) ==> (r.None? <==> |c.managers| == 0)
    ensures r.Some? ==> r.value == Delivery(DelegateManager(c).value, bundle, locale)
    ensures Valid(c) && r.Some? ==> r.value.manager in c.managers
  {
    match DelegateManager(c)
    case Some(m) => Some(Delivery(m, bundle, locale))
    case None => None
  }

  /** Adding a manager never moves an explicit delegate, and an unset one follows the first manager. */
  lemma AddKeepsDelegate(c: Combined, index: int, m: ManagerId)
    requires Valid(c)
    ensures c.delegate.Some? ==> DelegateManager(AddManagerAt(c, index, m)) == DelegateManager(c)
    ensures c.delegate.None? && Clamp(index, |c.managers|) == 0 ==> DelegateManager(AddManagerAt(c, index, m)) == Some(m)
    ensures |c.managers| > 0 ==> DelegateManager(AddManager(c, m)) == DelegateManager(c)
  {
    if c.delegate.None? && |c.managers| > 0 {
      assert AddManager(c, m).managers[0] == c.managers[0];
    }
  }
}
