/**
  The modifier layer (`base_trix`): two registries from alias to modifier,
  registration that drops malformed entries, instance-first lookup, and the
  application of one modifier to an expression.
*/
module Modifiers {
  import opened Wrappers
  import opened Text

  /** A PHP value offered for registration, as far as `mod_join_to` looks at it. */
  datatype Value = Str(s: string) | Arr(items: seq<Value>) | Other

  /** One `alias => value` pair of the array given to `add_modifiers`. */
  datatype Entry = Entry(alias: string, value: Value)

  /**
    A stored modifier: a wrapper `[prefix, suffix]` put around the
    expression, or the name of a function called on it.
  */
  datatype Modifier = Wrap(prefix: string, suffix: string) | Call(name: string)

  type Registry = map<string, Modifier>

  /** What registration keeps of a value: a string, or the first two of at least two strings. */
  function Stored(v: Value): Option<Modifier> {
    match v
    case Str(s) => Some(Call(s))
    case Arr(items) =>
      if |items| > 1 && items[0].Str? && items[1].Str? then Some(Wrap(items[0].s, items[1].s))
      else None
    case Other => None
  }

  /** The registry after one entry. */
  function Register(hive: Registry, e: Entry): Registry {
    match Stored(e.value)
    case Some(m) => hive[e.alias := m]
    case None => hive
  }

  /** The registry after all entries, in order. */
  function Joined(hive: Registry, entries: seq<Entry>): Registry
    decreases |entries|
  {
    if entries == [] then hive
    else Register(Joined(hive, entries[..|entries| - 1]), entries[|entries| - 1])
  }

  /** `mod_join_to`: writes every well-formed entry into the registry, later entries last. */
  method ModJoinTo(entries: seq<Entry>, hive: Registry) returns (r: Registry)
    ensures r == Joined(hive, entries)
  {
    r := hive;
    for i := 0 to |entries|
      invariant r == Joined(hive, entries[..i])
    {
      assert entries[..i + 1][..i] == entries[..i];
      var alias, expression := entries[i].alias, entries[i].value;
      match expression {
        case Str(s) =>
          r := r[alias := Call(s)];
        case Arr(items) =>
          if |items| > 1 {
            if items[0].Str? && items[1].Str? {
              r := r[alias := Wrap(items[0].s, items[1].s)];
            }
          }
        case Other =>
      }
    }
    assert entries[..|entries|] == entries;
  }

  /** An alias that no entry stores keeps whatever the registry had for it. */
  lemma {:induction false} JoinedKeepsOthers(hive: Registry, entries: seq<Entry>, alias: string)
    requires forall i :: 0 <= i < |entries| && entries[i].alias == alias ==> Stored(entries[i].value).None?
    ensures (alias in Joined(hive, entries)) == (alias in hive)
    ensures alias in hive ==> Joined(hive, entries)[alias] == hive[alias]
    decreases |entries|
  {
    if entries != [] {
      var n := |entries| - 1;
      var front := entries[..n];
      assert forall i :: 0 <= i < |front| ==> front[i] == entries[i];
      JoinedKeepsOthers(hive, front, alias);
    }
  }

  /** The last entry that stores something under an alias decides its modifier. */
  lemma {:induction false} JoinedLastWins(hive: Registry, entries: seq<Entry>, i: nat, alias: string)
    requires i < |entries| && entries[i].alias == alias && Stored(entries[i].value).Some?
    requires forall j :: i < j < |entries| && entries[j].alias == alias ==> Stored(entries[j].value).None?
    ensures alias in Joined(hive, entries)
    ensures Joined(hive, entries)[alias] == Stored(entries[i].value).value
    decreases |entries|
  {
    var n := |entries| - 1;
    var front := entries[..n];
    if i < n {
      assert forall j :: 0 <= j < |front| ==> front[j] == entries[j];
      JoinedLastWins(hive, front, i, alias);
    }
  }

  /** `modifier_find`: the instance entry, else the common entry, else nothing. */
  function Find(local: Registry, common: Registry, alias: string): Option<Modifier> {
    if alias in local then Some(local[alias])
    else if alias in common then Some(common[alias])
    else None
  }

  /** PHP's truthiness of a found modifier: a stored `""` or `"0"` counts as not found. */
  predicate Truthy(m: Modifier) {
    match m
    case Wrap(_, _) => true
    case Call(name) => PhpTruthy(name)
  }

  /** The `['sub']` key a call-style modifier puts after its name, exactly when a sub-key is present. */
  function SubKey(sub: Option<string>): string {
    match sub
    case Some(k) => "['" + k + "']"
    case None => ""
  }

  /** `modifier_apply`: wrap the expression, or call the named function on it. */
  function Apply(expression: string, m: Modifier, sub: Option<string>): string {
    match m
    case Wrap(prefix, suffix) => prefix + expression + suffix
    case Call(name) => name + SubKey(sub) + "( " + expression + " )"
  }

  /** The text `Apply` puts before the expression; it does not depend on the expression. */
  function ApplyPrefix(m: Modifier, sub: Option<string>): string {
    match m
    case Wrap(prefix, _) => prefix
    case Call(name) => name + SubKey(sub) + "( "
  }

  /** The text `Apply` puts after the expression. */
  function ApplySuffix(m: Modifier): string {
    match m
    case Wrap(_, suffix) => suffix
    case Call(_) => " )"
  }

  /** Applying a modifier copies the expression through verbatim, between a fixed prefix and suffix. */
  lemma ApplyFrames(expression: string, m: Modifier, sub: Option<string>)
    ensures Apply(expression, m, sub) == ApplyPrefix(m, sub) + expression + ApplySuffix(m)
    ensures m.Wrap? ==> Apply(expression, m, sub) == Apply(expression, m, None)
  {
  }

  /** Lookup after registering into the instance registry: the last stored entry shadows the common one. */
  lemma InstanceShadowsCommon(local: Registry, common: Registry, entries: seq<Entry>, i: nat, alias: string)
    requires i < |entries| && entries[i].alias == alias && Stored(entries[i].value).Some?
    requires forall j :: i < j < |entries| && entries[j].alias == alias ==> Stored(entries[j].value).None?
    ensures Find(Joined(local, entries), common, alias) == Stored(entries[i].value)
  {
    JoinedLastWins(local, entries, i, alias);
  }

  /**
    Lookup after registering into both registries: an alias the instance
    registry never held and did not receive is found in the shared one, as
    its last well-formed shared entry stored it.
  */
  lemma CommonIsFallback(local: Registry, le: seq<Entry>, common: Registry, ce: seq<Entry>, i: nat, alias: string)
    requires alias !in local
    requires forall j :: 0 <= j < |le| && le[j].alias == alias ==> Stored(le[j].value).None?
    requires i < |ce| && ce[i].alias == alias && Stored(ce[i].value).Some?
    requires forall j :: i < j < |ce| && ce[j].alias == alias ==> Stored(ce[j].value).None?
    ensures Find(Joined(local, le), Joined(common, ce), alias) == Stored(ce[i].value)
  {
    JoinedKeepsOthers(local, le, alias);
    JoinedLastWins(common, ce, i, alias);
  }

  /** An alias that neither registry held and no registration stored is not found. */
  lemma NeverRegistered(local: Registry, le: seq<Entry>, common: Registry, ce: seq<Entry>, alias: string)
    requires alias !in local && alias !in common
    requires forall j :: 0 <= j < |le| && le[j].alias == alias ==> Stored(le[j].value).None?
    requires forall j :: 0 <= j < |ce| && ce[j].alias == alias ==> Stored(ce[j].value).None?
    ensures Find(Joined(local, le), Joined(common, ce), alias).None?
  {
    JoinedKeepsOthers(local, le, alias);
    JoinedKeepsOthers(common, ce, alias);
  }

  /** The shared registry of `base_trix` (its static `$mod_map_common`). */
  class CommonModifiers {
    var modMap: Registry

    constructor ()
      ensures modMap == map[]
    {
      modMap := map[];
    }

    /** `add_common_modifiers` */
    method AddCommonModifiers(entries: seq<Entry>)
      modifies this
      ensures modMap == Joined(old(modMap), entries)
    {
      modMap := ModJoinTo(entries, modMap);
    }
  }
}
