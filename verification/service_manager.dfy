/** The service registry of internal/service/manager.go: a map from
    service key to service. Go's map iteration order is a parameter
    `order` listing every key once; a service's Start or Stop is a
    parameter answering its error, None for nil. */
module ServiceManager {
  import opened Wrappers

  type Key = string

  const Dhcp: Key := "dhcp"
  const Web: Key := "web"
  const Dns: Key := "dns"
  const Router: Key := "router"

  type Registry<S> = map<Key, S>

  /** Register */
  function Register<S>(reg: Registry<S>, s: S, key: Key): (r: Registry<S>)
    ensures key in r && r[key] == s
    ensures forall k | k != key :: (k in r <==> k in reg) && (k in reg ==> r[k] == reg[k])
  {
    reg[key := s]
  }

  /** IsRegistered */
  predicate IsRegistered<S>(reg: Registry<S>, key: Key) {
    key in reg
  }

  /** GetService[T]: the type assertion `instance[stype].(T)` panics, None
      here, when the key is missing (a nil interface) or the service is
      not a T. */
  function GetService<S>(reg: Registry<S>, key: Key, isT: S -> bool): (r: Option<S>)
    ensures r.Some? <==> IsRegistered(reg, key) && isT(reg[key])
    ensures r.Some? ==> r.value == reg[key]
  {
    if key in reg && isT(reg[key]) then Some(reg[key]) else None
  }

  /** After Register, the key is registered and looks up the new service. */
  lemma RegisterThenGet<S>(reg: Registry<S>, s: S, key: Key, isT: S -> bool)
    requires isT(s)
    ensures IsRegistered(Register(reg, s, key), key)
    ensures GetService(Register(reg, s, key), key, isT) == Some(s)
  {
  }

  /** Registering a key again replaces the earlier service. */
  lemma RegisterOverwrites<S>(reg: Registry<S>, s1: S, s2: S, key: Key)
    ensures Register(Register(reg, s1, key), s2, key) == Register(reg, s2, key)
  {
  }

  // ---------------------------------------------------------------------
  // Iteration
  // ---------------------------------------------------------------------

  predicate Distinct<T(==)>(s: seq<T>) {
    forall i, j | 0 <= i < j < |s| :: s[i] != s[j]
  }

  /** `order` is an iteration order of the registry: every key, once. */
  predicate MapOrder<S>(order: seq<Key>, reg: Registry<S>) {
    Distinct(order) && (forall k | k in reg :: k in order) && (forall i | 0 <= i < |order| :: order[i] in reg)
  }

  lemma {:induction false} DistinctCard<T>(s: seq<T>)
    requires Distinct(s)
    ensures |set x | x in s| == |s|
  {
    if |s| > 0 {
      var rest := s[..|s| - 1];
      assert Distinct(rest);
      DistinctCard(rest);
      assert (set x | x in s) == (set x | x in rest) + {s[|s| - 1]};
      assert s[|s| - 1] !in rest;
    }
  }

  lemma OrderCoversKeys<S>(order: seq<Key>, reg: Registry<S>)
    requires MapOrder(order, reg)
    ensures |order| == |reg|
  {
    DistinctCard(order);
    assert (set x | x in order) == reg.Keys;
  }

  /** GetActiveServices: the registered keys in iteration order. */
  method GetActiveServices<S>(reg: Registry<S>, order: seq<Key>) returns (services: seq<string>)
    requires MapOrder(order, reg)
    ensures |services| == |reg| && Distinct(services)
    ensures forall k :: k in services <==> IsRegistered(reg, k)
  {
    services := [];
    var i := 0;
    while i < |order|
      invariant 0 <= i <= |order|
      invariant services == order[..i]
    {
      services := services + [order[i]];
      i := i + 1;
    }
    assert services == order;
    OrderCoversKeys(order, reg);
  }

  // ---------------------------------------------------------------------
  // checkErrors, Start and Stop
  // ---------------------------------------------------------------------

  /** The error checkErrors returns and how many of the functions it
      called. */
  datatype Checked<E> = Checked(err: Option<E>, calls: nat)

  /** checkErrors, given what each function would return. */
  function CheckErrors<E>(results: seq<Option<E>>): (r: Checked<E>)
    ensures r.calls <= |results|
    ensures r.err.Some? ==> r.calls >= 1 && results[r.calls - 1] == r.err
    ensures r.err.None? ==> r.calls == |results|
  {
    if |results| == 0 then Checked(None, 0)
    else if results[0].Some? then Checked(results[0], 1)
    else
      var c := CheckErrors(results[1..]);
      Checked(c.err, c.calls + 1)
  }

  /** The functions are called in order up to and including the first
      that fails; the result is nil exactly when none fails. */
  lemma {:induction false} CheckErrorsFirst<E>(results: seq<Option<E>>)
    ensures CheckErrors(results).err.None? <==> forall i | 0 <= i < |results| :: results[i].None?
    ensures forall i | 0 <= i < CheckErrors(results).calls - 1 :: results[i].None?
  {
    if |results| > 0 && results[0].None? {
      CheckErrorsFirst(results[1..]);
      assert forall i | 1 <= i < |results| :: results[1..][i - 1] == results[i];
    }
  }

  /** Start and Stop: `op` of every service in iteration order, through
      checkErrors. */
  function RunAll<S, E>(reg: Registry<S>, order: seq<Key>, op: S -> Option<E>): (r: Checked<E>)
    requires MapOrder(order, reg)
    ensures r.calls <= |reg|
  {
    OrderCoversKeys(order, reg);
    CheckErrors(seq(|order|, i requires 0 <= i < |order| => op(reg[order[i]])))
  }

  /** The services invoked are a prefix of the iteration order, so none
      is invoked twice; the error is the first invoked service's error,
      and there is none exactly when every service succeeds. */
  lemma RunAllOnce<S, E>(reg: Registry<S>, order: seq<Key>, op: S -> Option<E>)
    requires MapOrder(order, reg)
    ensures var r := RunAll(reg, order, op);
            Distinct(order[..r.calls])
            && (r.err.None? <==> forall k | k in reg :: op(reg[k]).None?)
            && (r.err.Some? ==> r.err == op(reg[order[r.calls - 1]]))
  {
    var results := seq(|order|, i requires 0 <= i < |order| => op(reg[order[i]]));
    CheckErrorsFirst(results);
    var r := RunAll(reg, order, op);
    assert r == CheckErrors(results);
    if r.err.None? {
      forall k | k in reg ensures op(reg[k]).None? {
        var i :| 0 <= i < |order| && order[i] == k;
        assert results[i].None?;
      }
    }
  }
}
