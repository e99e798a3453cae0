/** The change chain every manager applies to a `name -> bytes` map: stage i
    offers every entry of stage i-1 to change i and collects what it returns
    into a fresh map. A stage visits the entries in the map's iteration order,
    which Java's hash maps leave unspecified; here that order is an explicit
    argument (`ks`, an enumeration of the map's keys), and every property below
    is proved for every such order. */
module Transform {
  import opened Wrappers

  /** What a change callback returns for one entry: null (the entry is
      dropped), an entry under a possibly new name, or an exception. */
  datatype ChangeResult<V> = Dropped | Produced(name: string, data: V) | Failed

  /** A caller-supplied change: `(name, bytes) -> entry-or-null`, opaque. */
  type Change<!V> = (string, V) -> ChangeResult<V>

  predicate Distinct(ks: seq<string>)
  {
    forall i, j :: 0 <= i < j < |ks| ==> ks[i] != ks[j]
  }

  /** `ks` lists every key of `m` exactly once: one possible iteration order. */
  predicate IsEnumeration<V>(ks: seq<string>, m: map<string, V>)
  {
    && Distinct(ks)
    && (forall k <- ks :: k in m)
    && (forall k <- m.Keys :: k in ks)
  }

  /** Entry `s` (with payload `d`) is turned by `change` into an entry named `k`. */
  predicate Yields<V>(change: Change<V>, s: string, d: V, k: string)
  {
    change(s, d).Produced? && change(s, d).name == k
  }

  /** Offer the entries `ks` of `m`, in that order, to `change`, putting each
      produced entry into `acc`; a later put under the same name overwrites
      an earlier one. An exception from the callback aborts the stage. */
  function Collect<V>(m: map<string, V>, ks: seq<string>, change: Change<V>, acc: map<string, V>): Result<map<string, V>>
    requires forall k <- ks :: k in m
    decreases |ks|
  {
    if ks == [] then Ok(acc)
    else match change(ks[0], m[ks[0]])
      case Dropped => Collect(m, ks[1..], change, acc)
      case Produced(n, d) => Collect(m, ks[1..], change, acc[n := d])
      case Failed => Err(ChangeThrew)
  }

  /** One stage of the chain, run in the iteration order `ks`. */
  function Stage<V>(m: map<string, V>, ks: seq<string>, change: Change<V>): Result<map<string, V>>
    requires forall k <- ks :: k in m
  {
    Collect(m, ks, change, map[])
  }

  /** `orders[i]` is an iteration order of the map that stage i reads. */
  predicate ValidOrders<V>(m: map<string, V>, changes: seq<Change<V>>, orders: seq<seq<string>>)
    decreases |changes|
  {
    && |orders| == |changes|
    && (changes != [] ==>
          && IsEnumeration(orders[0], m)
          && (Stage(m, orders[0], changes[0]).Ok? ==>
                ValidOrders(Stage(m, orders[0], changes[0]).value, changes[1..], orders[1..])))
  }

  /** The whole chain as a fold: stage i reads the map stage i-1 produced. */
  function Chain<V>(m: map<string, V>, changes: seq<Change<V>>, orders: seq<seq<string>>): Result<map<string, V>>
    requires ValidOrders(m, changes, orders)
    decreases |changes|
  {
    if changes == [] then Ok(m)
    else match Stage(m, orders[0], changes[0])
      case Err(e) => Err(e)
      case Ok(m1) => Chain(m1, changes[1..], orders[1..])
  }

  /** Whatever the changes and orders, an empty map stays empty: no stage
      has an entry to offer, so no callback runs and none can throw. */
  lemma {:induction false} ChainOfEmpty<V>(changes: seq<Change<V>>, orders: seq<seq<string>>)
    requires ValidOrders(map[], changes, orders)
    ensures Chain(map[], changes, orders) == Ok(map[])
    decreases |changes|
  {
    if changes != [] {
      var empty: map<string, V> := map[];
      assert orders[0] == [];
      assert Stage(empty, orders[0], changes[0]) == Ok(empty);
      ChainOfEmpty(changes[1..], orders[1..]);
    }
  }

  /** Reference definition of "the last put wins": the payload of the last
      entry in `ks` that `change` turns into an entry named `k`. */
  function LastYield<V>(m: map<string, V>, ks: seq<string>, change: Change<V>, k: string): Option<V>
    requires forall s <- ks :: s in m
    decreases |ks|
  {
    if ks == [] then None
    else
      var s := ks[|ks| - 1];
      if Yields(change, s, m[s], k) then Some(change(s, m[s]).data)
      else LastYield(m, ks[..|ks| - 1], change, k)
  }

  /** `LastYield` read from the front: a later yield hides the first entry's. */
  lemma {:induction false} LastYieldFront<V>(m: map<string, V>, ks: seq<string>, change: Change<V>, k: string)
    requires ks != [] && forall s <- ks :: s in m
    ensures LastYield(m, ks, change, k) ==
      if LastYield(m, ks[1..], change, k).Some? then LastYield(m, ks[1..], change, k)
      else if Yields(change, ks[0], m[ks[0]], k) then Some(change(ks[0], m[ks[0]]).data)
      else None
    decreases |ks|
  {
    if |ks| > 1 {
      var init := ks[..|ks| - 1];
      assert init[1..] == ks[1..][..|ks[1..]| - 1];
      assert ks[1..][|ks[1..]| - 1] == ks[|ks| - 1];
      LastYieldFront(m, init, change, k);
    } else {
      assert ks[1..] == [];
      assert ks[..|ks| - 1] == [];
    }
  }

  /** A payload found by `LastYield` is one that some entry of `ks` yields. */
  lemma {:induction false} LastYieldSource<V>(m: map<string, V>, ks: seq<string>, change: Change<V>, k: string)
    requires forall s <- ks :: s in m
    ensures LastYield(m, ks, change, k).Some? <==> exists s :: s in ks && Yields(change, s, m[s], k)
    ensures LastYield(m, ks, change, k).Some? ==>
      exists s :: s in ks && change(s, m[s]) == Produced(k, LastYield(m, ks, change, k).value)
    decreases |ks|
  {
    if ks != [] {
      var init := ks[..|ks| - 1];
      var last := ks[|ks| - 1];
      assert ks == init + [last];
      LastYieldSource(m, init, change, k);
    }
  }

  /** Collecting a stage, characterised both ways: a name is in the result
      exactly when it was already in `acc` or some visited entry yields it,
      and its payload is the one the LAST such entry yields. */
  lemma {:induction false} CollectResult<V>(m: map<string, V>, ks: seq<string>, change: Change<V>, acc: map<string, V>)
    requires forall s <- ks :: s in m
    requires Collect(m, ks, change, acc).Ok?
    ensures forall k :: k in Collect(m, ks, change, acc).value <==> (k in acc || LastYield(m, ks, change, k).Some?)
    ensures forall k :: k in Collect(m, ks, change, acc).value ==>
      Collect(m, ks, change, acc).value[k] ==
        (if LastYield(m, ks, change, k).Some? then LastYield(m, ks, change, k).value else acc[k])
    decreases |ks|
  {
    if ks != [] {
      var r := change(ks[0], m[ks[0]]);
      var acc' := if r.Produced? then acc[r.name := r.data] else acc;
      assert Collect(m, ks, change, acc) == Collect(m, ks[1..], change, acc');
      CollectResult(m, ks[1..], change, acc');
      forall k ensures LastYield(m, ks, change, k) ==
        (if LastYield(m, ks[1..], change, k).Some? then LastYield(m, ks[1..], change, k)
         else if Yields(change, ks[0], m[ks[0]], k) then Some(change(ks[0], m[ks[0]]).data)
         else None)
      {
        LastYieldFront(m, ks, change, k);
      }
    }
  }

  /** A stage fails exactly when the callback throws for some visited entry. */
  lemma {:induction false} CollectFails<V>(m: map<string, V>, ks: seq<string>, change: Change<V>, acc: map<string, V>)
    requires forall s <- ks :: s in m
    ensures Collect(m, ks, change, acc).Err? <==> exists s :: s in ks && change(s, m[s]).Failed?
    ensures Collect(m, ks, change, acc).Err? ==> Collect(m, ks, change, acc).error == ChangeThrew
    decreases |ks|
  {
    if ks != [] {
      var r := change(ks[0], m[ks[0]]);
      if !r.Failed? {
        var acc' := if r.Produced? then acc[r.name := r.data] else acc;
        CollectFails(m, ks[1..], change, acc');
        assert forall s :: s in ks <==> s == ks[0] || s in ks[1..];
      }
    }
  }

  /** The outcome of a stage does not depend on the iteration order as far as
      failure and the set of names go; a name's payload comes from an entry
      that yields it. */
  lemma StageKeys<V>(m: map<string, V>, ks: seq<string>, change: Change<V>)
    requires IsEnumeration(ks, m)
    ensures Stage(m, ks, change).Err? <==> exists s :: s in m && change(s, m[s]).Failed?
    ensures Stage(m, ks, change).Ok? ==>
      forall k :: k in Stage(m, ks, change).value <==> exists s :: s in m && Yields(change, s, m[s], k)
    ensures Stage(m, ks, change).Ok? ==>
      forall k :: k in Stage(m, ks, change).value ==>
        exists s :: s in m && change(s, m[s]) == Produced(k, Stage(m, ks, change).value[k])
  {
    CollectFails(m, ks, change, map[]);
    if Stage(m, ks, change).Ok? {
      CollectResult(m, ks, change, map[]);
      forall k {
        LastYieldSource(m, ks, change, k);
      }
    }
  }

  /** When no two entries are renamed to the same name, a stage has the same
      result in every iteration order. */
  ghost predicate NoCollisions<V>(m: map<string, V>, change: Change<V>)
  {
    forall s1, s2, k :: s1 in m && s2 in m && Yields(change, s1, m[s1], k) && Yields(change, s2, m[s2], k) ==> s1 == s2
  }

  lemma StageOrderIndependent<V>(m: map<string, V>, ks1: seq<string>, ks2: seq<string>, change: Change<V>)
    requires IsEnumeration(ks1, m) && IsEnumeration(ks2, m)
    requires NoCollisions(m, change)
    ensures Stage(m, ks1, change) == Stage(m, ks2, change)
  {
    StageKeys(m, ks1, change);
    StageKeys(m, ks2, change);
    CollectFails(m, ks1, change, map[]);
    CollectFails(m, ks2, change, map[]);
    if Stage(m, ks1, change).Ok? {
      var r1 := Stage(m, ks1, change).value;
      var r2 := Stage(m, ks2, change).value;
      assert r1.Keys == r2.Keys;
      forall k | k in r1 ensures r1[k] == r2[k] {
        var s1 :| s1 in m && change(s1, m[s1]) == Produced(k, r1[k]);
        var s2 :| s2 in m && change(s2, m[s2]) == Produced(k, r2[k]);
        assert Yields(change, s1, m[s1], k) && Yields(change, s2, m[s2], k);
      }
      assert r1 == r2;
    }
  }

  /** With two entries renamed to one name, the later one in the iteration
      order wins: the last put wins. */
  lemma StageLastPutWins<V>(m: map<string, V>, ks: seq<string>, change: Change<V>, i: nat, k: string, d: V)
    requires IsEnumeration(ks, m)
    requires i < |ks| && change(ks[i], m[ks[i]]) == Produced(k, d)
    requires forall j :: i < j < |ks| ==> !Yields(change, ks[j], m[ks[j]], k)
    requires Stage(m, ks, change).Ok?
    ensures k in Stage(m, ks, change).value && Stage(m, ks, change).value[k] == d
  {
    CollectResult(m, ks, change, map[]);
    LastYieldSuffix(m, ks, change, k, i);
  }

  lemma {:induction false} LastYieldSuffix<V>(m: map<string, V>, ks: seq<string>, change: Change<V>, k: string, i: nat)
    requires forall s <- ks :: s in m
    requires i < |ks| && Yields(change, ks[i], m[ks[i]], k)
    requires forall j :: i < j < |ks| ==> !Yields(change, ks[j], m[ks[j]], k)
    ensures LastYield(m, ks, change, k) == Some(change(ks[i], m[ks[i]]).data)
    decreases |ks|
  {
    if i < |ks| - 1 {
      LastYieldSuffix(m, ks[..|ks| - 1], change, k, i);
    }
  }

  /** A change that returns every entry unchanged leaves the map as it is. */
  lemma StageIdentity<V>(m: map<string, V>, ks: seq<string>, change: Change<V>)
    requires IsEnumeration(ks, m)
    requires forall s :: s in m ==> change(s, m[s]) == Produced(s, m[s])
    ensures Stage(m, ks, change) == Ok(m)
  {
    StageKeys(m, ks, change);
    var r := Stage(m, ks, change).value;
    forall k | k in r ensures k in m && r[k] == m[k] {
      var s :| s in m && change(s, m[s]) == Produced(k, r[k]);
    }
    forall k | k in m ensures k in r {
      assert Yields(change, k, m[k], k);
    }
    assert r == m;
  }

  /** The fold property: running `cs1 + cs2` is running `cs1` and then `cs2`
      on what it produced; an exception in `cs1` ends the chain there. */
  lemma {:induction false} ChainAppend<V>(m: map<string, V>, cs1: seq<Change<V>>, os1: seq<seq<string>>,
                                          cs2: seq<Change<V>>, os2: seq<seq<string>>)
    requires ValidOrders(m, cs1, os1)
    requires |os2| == |cs2|
    requires Chain(m, cs1, os1).Ok? ==> ValidOrders(Chain(m, cs1, os1).value, cs2, os2)
    ensures ValidOrders(m, cs1 + cs2, os1 + os2)
    ensures Chain(m, cs1 + cs2, os1 + os2) ==
      match Chain(m, cs1, os1)
      case Err(e) => Err(e)
      case Ok(m1) => Chain(m1, cs2, os2)
    decreases |cs1|
  {
    if cs1 == [] {
      assert cs1 + cs2 == cs2 && os1 + os2 == os2;
    } else {
      assert (cs1 + cs2)[0] == cs1[0] && (os1 + os2)[0] == os1[0];
      assert (cs1 + cs2)[1..] == cs1[1..] + cs2 && (os1 + os2)[1..] == os1[1..] + os2;
      match Stage(m, os1[0], cs1[0])
      case Err(e) =>
      case Ok(m1) => ChainAppend(m1, cs1[1..], os1[1..], cs2, os2);
    }
  }

  /** One possible iteration order of a map: its keys, each exactly once, in
      an order this model leaves open. */
  method KeysInSomeOrder<V>(m: map<string, V>) returns (ks: seq<string>)
    ensures IsEnumeration(ks, m)
  {
    ks := [];
    var rest := m.Keys;
    while rest != {}
      invariant rest <= m.Keys
      invariant forall k <- ks :: k in m && k !in rest
      invariant forall k <- m.Keys :: k in rest || k in ks
      invariant Distinct(ks)
      decreases rest
    {
      var k :| k in rest;
      ks := ks + [k];
      rest := rest - {k};
    }
  }

  /** The loop every manager runs: for each change in turn, build a fresh map
      from the current one, then continue from the fresh map. The orders the
      stages happened to use are returned as a ghost result. */
  method ApplyChain<V>(m: map<string, V>, changes: seq<Change<V>>) returns (r: Result<map<string, V>>, ghost orders: seq<seq<string>>)
    ensures ValidOrders(m, changes, orders) && r == Chain(m, changes, orders)
  {
    var current := m;
    orders := [];
    var j := 0;
    while j < |changes|
      invariant 0 <= j <= |changes| && |orders| == j
      invariant ValidOrders(m, changes[..j], orders) && Chain(m, changes[..j], orders) == Ok(current)
    {
      var change := changes[j];
      var ks := KeysInSomeOrder(current);
      var next := map[];
      var i := 0;
      while i < |ks|
        invariant 0 <= i <= |ks|
        invariant Stage(current, ks, change) == Collect(current, ks[i..], change, next)
        decreases |ks| - i
      {
        assert ks[i..][1..] == ks[i + 1..];
        match change(ks[i], current[ks[i]]) {
        case Dropped =>
        case Produced(n, d) =>
          next := next[n := d];
        case Failed =>
          ghost var rest: seq<seq<string>> := seq(|changes| - j - 1, _ => []);
          assert Stage(current, ks, change) == Err(ChangeThrew);
          ChainAppend(m, changes[..j], orders, changes[j..], [ks] + rest);
          assert changes[..j] + changes[j..] == changes;
          assert changes[j..][1..] == changes[j + 1..];
          orders := orders + ([ks] + rest);
          r := Err(ChangeThrew);
          return;
        }
        i := i + 1;
      }
      assert Stage(current, ks, change) == Ok(next);
      ChainAppend(m, changes[..j], orders, [change], [ks]);
      assert changes[..j] + [change] == changes[..j + 1];
      orders := orders + [ks];
      current := next;
      j := j + 1;
    }
    assert changes[..j] == changes;
    r := Ok(current);
  }
}
