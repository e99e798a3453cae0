/** `org.omnimc.asm.manager.multi.MultiClassManager`: a registry of archives.
    `fileNames` lists every ".jar" name read, in reading order and with
    repeats; `classes` and `resources` map an archive name to that archive's
    class map and resource map. Reading is parallel in the source; here each
    archive is read in archive order. */
module MultiManager {
  import opened Wrappers
  import opened Text
  import opened Archive
  import opened Transform
  import opened Lists

  /** The registry's three fields as one value. */
  datatype Registry = Registry(fileNames: seq<string>,
                               classes: map<string, map<string, Bytes>>,
                               resources: map<string, map<string, Bytes>>)

  /** The registry invariant: an archive has a class map exactly when it has
      a resource map, and only registered names have maps. */
  predicate Consistent(reg: Registry)
  {
    && reg.classes.Keys == reg.resources.Keys
    && forall n <- reg.classes.Keys :: n in reg.fileNames
  }

  /** A file `readJarFiles` stores maps for: a ".jar" name that opens. */
  predicate Stored(f: JarInput)
  {
    EndsWith(f.name, ".jar") && Opens(f)
  }

  /** One step of `readJarFiles`: a name not ending in ".jar" is reported and
      skipped; otherwise the name is registered first, and only if the jar
      opens are its two maps (first occurrence wins) put under that name,
      replacing any maps an earlier read stored there. */
  function Load(reg: Registry, f: JarInput): Registry
  {
    if !EndsWith(f.name, ".jar") then reg
    else
      var names := reg.fileNames + [f.name];
      if !Opens(f) then reg.(fileNames := names)
      else
        var st := Loaded(f.entries);
        Registry(names, reg.classes[f.name := st.classes], reg.resources[f.name := st.resources])
  }

  /** `readJarFiles` over a whole batch, in order. */
  function LoadAll(reg: Registry, files: seq<JarInput>): Registry
    decreases |files|
  {
    if files == [] then reg else LoadAll(Load(reg, files[0]), files[1..])
  }

  /** Reference definition of the names a batch registers: the ".jar" ones,
      in order, with repeats, whether or not they open. */
  function JarNames(files: seq<JarInput>): seq<string>
    decreases |files|
  {
    if files == [] then []
    else (if EndsWith(files[0].name, ".jar") then [files[0].name] else []) + JarNames(files[1..])
  }

  /** Reference definition of "reloading replaces": the last file of the
      batch called `n` whose maps were stored. */
  function LastStored(files: seq<JarInput>, n: string): Option<JarInput>
    decreases |files|
  {
    if files == [] then None
    else
      var f := files[|files| - 1];
      if f.name == n && Stored(f) then Some(f) else LastStored(files[..|files| - 1], n)
  }

  /** A batch registers exactly its ".jar" names, appended in order. */
  lemma {:induction false} LoadAllRegisters(reg: Registry, files: seq<JarInput>)
    ensures LoadAll(reg, files).fileNames == reg.fileNames + JarNames(files)
    decreases |files|
  {
    if files != [] {
      LoadAllRegisters(Load(reg, files[0]), files[1..]);
    }
  }

  /** Reading keeps the registry consistent. */
  lemma {:induction false} LoadAllConsistent(reg: Registry, files: seq<JarInput>)
    requires Consistent(reg)
    ensures Consistent(LoadAll(reg, files))
    decreases |files|
  {
    if files != [] {
      LoadAllConsistent(Load(reg, files[0]), files[1..]);
    }
  }

  lemma {:induction false} LoadAllSnoc(reg: Registry, files: seq<JarInput>, f: JarInput)
    ensures LoadAll(reg, files + [f]) == Load(LoadAll(reg, files), f)
    decreases |files|
  {
    if files == [] {
      assert files + [f] == [f];
    } else {
      assert (files + [f])[0] == files[0] && (files + [f])[1..] == files[1..] + [f];
      LoadAllSnoc(Load(reg, files[0]), files[1..], f);
    }
  }

  /** The maps after a batch, name by name: an archive name has maps exactly
      when it had them before or some file of that name was stored; the maps
      are those of the LAST such file, read on their own, else the old ones. */
  lemma {:induction false} LoadAllMaps(reg: Registry, files: seq<JarInput>)
    ensures var r := LoadAll(reg, files);
      forall n ::
        && (n in r.classes <==> n in reg.classes || LastStored(files, n).Some?)
        && (n in r.resources <==> n in reg.resources || LastStored(files, n).Some?)
        && (LastStored(files, n).Some? ==>
              r.classes[n] == Loaded(LastStored(files, n).value.entries).classes &&
              r.resources[n] == Loaded(LastStored(files, n).value.entries).resources)
        && (LastStored(files, n).None? && n in reg.classes ==> r.classes[n] == reg.classes[n])
        && (LastStored(files, n).None? && n in reg.resources ==> r.resources[n] == reg.resources[n])
    decreases |files|
  {
    if files != [] {
      var init := files[..|files| - 1];
      var last := files[|files| - 1];
      assert files == init + [last];
      LoadAllSnoc(reg, init, last);
      LoadAllMaps(reg, init);
    }
  }

  /** A ".jar" that fails to open stays registered without maps, so a later
      targeted change on it throws `NullPointerException`, even with zero
      changes. */
  lemma RegisteredWithoutMaps(reg: Registry, f: JarInput)
    requires EndsWith(f.name, ".jar") && !Opens(f) && f.name !in reg.classes
    ensures f.name in Load(reg, f).fileNames && f.name !in Load(reg, f).classes
    ensures Targeted(Load(reg, f).classes, Load(reg, f).fileNames, f.name, Some([]), []) == Err(NullPointer)
  {
    assert Load(reg, f).fileNames[|reg.fileNames|] == f.name;
  }

  /** `orders` is a valid run of the stages when the targeted fold gets as far
      as running them. */
  predicate TargetOrders(maps: map<string, map<string, Bytes>>, registered: seq<string>, name: string,
                         changes: Option<seq<Change<Bytes>>>, orders: seq<seq<string>>)
  {
    name in registered && name in maps && changes.Some? ==> ValidOrders(maps[name], changes.value, orders)
  }

  /** `applyTargetedChanges(name, changes...)` on one of the two registries:
      an unregistered name changes nothing; a registered name without maps,
      or a null change array, throws `NullPointerException`; otherwise the
      chain runs on that archive's map and its result replaces only that map.
      An exception in the chain leaves the registry as it was. */
  function Targeted(maps: map<string, map<string, Bytes>>, registered: seq<string>, name: string,
                    changes: Option<seq<Change<Bytes>>>, orders: seq<seq<string>>): (r: Result<map<string, map<string, Bytes>>>)
    requires TargetOrders(maps, registered, name, changes, orders)
    ensures name !in registered ==> r == Ok(maps)
    ensures name in registered && (name !in maps || changes.None?) ==> r == Err(NullPointer)
    ensures r.Ok? ==> r.value.Keys == maps.Keys && forall n <- maps.Keys :: n != name ==> r.value[n] == maps[n]
    ensures name in registered && name in maps && changes == Some([]) ==> r == Ok(maps)
  {
    if name !in registered then Ok(maps)
    else if name !in maps || changes.None? then Err(NullPointer)
    else
      var c := Chain(maps[name], changes.value, orders);
      if c.Err? then Err(c.error)
      else
        assert changes.value == [] ==> maps[name := c.value] == maps;
        Ok(maps[name := c.value])
  }

  /** `runs[i]` is the orders the targeted fold of `names[i]` used. */
  predicate RunOrders(maps: map<string, map<string, Bytes>>, registered: seq<string>, names: seq<string>,
                      changes: Option<seq<Change<Bytes>>>, runs: seq<seq<seq<string>>>)
    decreases |names|
  {
    && |runs| == |names|
    && (names != [] ==>
          && TargetOrders(maps, registered, names[0], changes, runs[0])
          && (Targeted(maps, registered, names[0], changes, runs[0]).Ok? ==>
                RunOrders(Targeted(maps, registered, names[0], changes, runs[0]).value, registered, names[1..], changes, runs[1..])))
  }

  /** `applyChanges(changes...)`: the targeted fold for each name in turn,
      stopping at the first exception. A successful run keeps the set of
      archives with maps, requires every registered name it visits to have
      maps, and leaves archives it does not visit alone. */
  function Run(maps: map<string, map<string, Bytes>>, registered: seq<string>, names: seq<string>,
               changes: Option<seq<Change<Bytes>>>, runs: seq<seq<seq<string>>>): (r: Result<map<string, map<string, Bytes>>>)
    requires RunOrders(maps, registered, names, changes, runs)
    ensures r.Ok? ==> r.value.Keys == maps.Keys
    ensures r.Ok? ==> forall n <- names :: n in registered ==> n in maps
    ensures r.Ok? ==> forall n <- maps.Keys :: n !in names ==> r.value[n] == maps[n]
    decreases |names|
  {
    if names == [] then Ok(maps)
    else match Targeted(maps, registered, names[0], changes, runs[0])
      case Err(e) => Err(e)
      case Ok(m) =>
        var r := Run(m, registered, names[1..], changes, runs[1..]);
        assert forall n <- names :: n == names[0] || n in names[1..];
        r
  }

  /** The fold property of `applyChanges`: visiting `a + b` is visiting `a`
      and then `b`; an exception while visiting `a` ends the run there. */
  lemma {:induction false} RunAppend(maps: map<string, map<string, Bytes>>, registered: seq<string>,
                                     a: seq<string>, ra: seq<seq<seq<string>>>, b: seq<string>, rb: seq<seq<seq<string>>>,
                                     changes: Option<seq<Change<Bytes>>>)
    requires RunOrders(maps, registered, a, changes, ra)
    requires |rb| == |b|
    requires Run(maps, registered, a, changes, ra).Ok? ==> RunOrders(Run(maps, registered, a, changes, ra).value, registered, b, changes, rb)
    ensures RunOrders(maps, registered, a + b, changes, ra + rb)
    ensures Run(maps, registered, a + b, changes, ra + rb) ==
      match Run(maps, registered, a, changes, ra)
      case Err(e) => Err(e)
      case Ok(m) => Run(m, registered, b, changes, rb)
    decreases |a|
  {
    if a == [] {
      assert a + b == b && ra + rb == rb;
    } else {
      assert (a + b)[0] == a[0] && (ra + rb)[0] == ra[0];
      assert (a + b)[1..] == a[1..] + b && (ra + rb)[1..] == ra[1..] + rb;
      match Targeted(maps, registered, a[0], changes, ra[0])
      case Err(e) =>
      case Ok(m) => RunAppend(m, registered, a[1..], ra[1..], b, rb, changes);
    }
  }

  /** One more name visited: the run over `names[..i + 1]` ends with the
      targeted fold of `names[i]` on what the run over `names[..i]` left. */
  lemma RunExtend(start: map<string, map<string, Bytes>>, registered: seq<string>, names: seq<string>, i: int,
                  runs: seq<seq<seq<string>>>, o: seq<seq<string>>, changes: Option<seq<Change<Bytes>>>,
                  cur: map<string, map<string, Bytes>>)
    requires 0 <= i < |names|
    requires RunOrders(start, registered, names[..i], changes, runs)
    requires Run(start, registered, names[..i], changes, runs) == Ok(cur)
    requires TargetOrders(cur, registered, names[i], changes, o)
    ensures RunOrders(start, registered, names[..i + 1], changes, runs + [o])
    ensures Run(start, registered, names[..i + 1], changes, runs + [o]) == Targeted(cur, registered, names[i], changes, o)
  {
    RunAppend(start, registered, names[..i], runs, [names[i]], [o], changes);
    assert names[..i] + [names[i]] == names[..i + 1];
    assert [names[i]][1..] == [] && [o][1..] == [];
  }

  /** A run that fails at `names[i]` fails as a whole, whatever orders the
      names it never reaches are given. */
  lemma RunStop(start: map<string, map<string, Bytes>>, registered: seq<string>, names: seq<string>, i: int,
                runs: seq<seq<seq<string>>>, changes: Option<seq<Change<Bytes>>>, e: Exception)
    requires 0 <= i < |names| && |runs| == i + 1
    requires RunOrders(start, registered, names[..i + 1], changes, runs)
    requires Run(start, registered, names[..i + 1], changes, runs) == Err(e)
    ensures var rest: seq<seq<seq<string>>> := seq(|names| - i - 1, _ => []);
      RunOrders(start, registered, names, changes, runs + rest) &&
      Run(start, registered, names, changes, runs + rest) == Err(e)
  {
    var rest: seq<seq<seq<string>>> := seq(|names| - i - 1, _ => []);
    RunAppend(start, registered, names[..i + 1], runs, names[i + 1..], rest, changes);
    assert names[..i + 1] + names[i + 1..] == names;
  }

  /** A null change array makes `applyChanges` throw as soon as it visits a
      registered name. */
  lemma {:induction false} RunNullChanges(maps: map<string, map<string, Bytes>>, registered: seq<string>, names: seq<string>,
                                          runs: seq<seq<seq<string>>>)
    requires RunOrders(maps, registered, names, None, runs)
    requires exists n <- names :: n in registered
    ensures Run(maps, registered, names, None, runs) == Err(NullPointer)
    decreases |names|
  {
    if names[0] !in registered {
      assert exists n <- names[1..] :: n in registered by {
        var n :| n in names && n in registered;
        var i :| 0 <= i < |names| && names[i] == n;
        assert names[1..][i - 1] == n;
      }
      RunNullChanges(maps, registered, names[1..], runs[1..]);
    }
  }

  /** A name listed twice is transformed twice: the chain runs on the result
      of the first pass. */
  lemma RunTwice(maps: map<string, map<string, Bytes>>, registered: seq<string>, n: string,
                 cs: seq<Change<Bytes>>, o1: seq<seq<string>>, o2: seq<seq<string>>)
    requires n in registered && n in maps
    requires RunOrders(maps, registered, [n, n], Some(cs), [o1, o2])
    ensures ValidOrders(maps[n], cs, o1)
    ensures Chain(maps[n], cs, o1).Ok? ==> ValidOrders(Chain(maps[n], cs, o1).value, cs, o2)
    ensures Run(maps, registered, [n, n], Some(cs), [o1, o2]) ==
      match Chain(maps[n], cs, o1)
      case Err(e) => Err(e)
      case Ok(m1) =>
        match Chain(m1, cs, o2)
        case Err(e) => Err(e)
        case Ok(m2) => Ok(maps[n := m2])
  {
    assert [n, n][1..] == [n] && [o1, o2][1..] == [o2];
    assert [n][1..] == [] && [o2][1..] == [];
    match Chain(maps[n], cs, o1)
    case Err(e) =>
    case Ok(m1) =>
      var maps1 := maps[n := m1];
      assert Targeted(maps, registered, n, Some(cs), o1) == Ok(maps1);
      assert maps1[n] == m1;
      match Chain(m1, cs, o2)
      case Err(e) =>
        assert Targeted(maps1, registered, n, Some(cs), o2) == Err(e);
      case Ok(m2) =>
        assert Targeted(maps1, registered, n, Some(cs), o2) == Ok(maps1[n := m2]);
        assert Run(maps, registered, [n, n], Some(cs), [o1, o2]) == Run(maps1, registered, [n], Some(cs), [o2]);
        assert Run(maps1, registered, [n], Some(cs), [o2]) == Run(maps1[n := m2], registered, [], Some(cs), []);
        assert maps1[n := m2] == maps[n := m2];
  }

  /** What `getFileInBytes(level)` of a targeted output produces from the two
      maps it fetches when it runs (None where the registry has no map):
      `setLevel` rejects a bad level, a missing map throws
      `NullPointerException`, and otherwise every class (under its ".class"
      name) and then every resource is written, a failing write being
      reported and skipped. */
  function TargetOutput(cm: Option<map<string, Bytes>>, rm: Option<map<string, Bytes>>,
                        ck: seq<string>, rk: seq<string>, level: int): Result<ZipOutput>
    requires cm.Some? ==> IsEnumeration(ck, cm.value)
    requires rm.Some? ==> IsEnumeration(rk, rm.value)
  {
    if !ValidLevel(level) then Err(IllegalArgument)
    else if cm.None? || rm.None? then Err(NullPointer)
    else Ok(ZipOutput(level, WriteSkipping([], ClassEntries(cm.value, ck) + ResourceEntries(rm.value, rk))))
  }

  /** No class other than `k` is written under `k`'s ".class" name. */
  predicate UniqueClassName(c: map<string, Bytes>, k: string)
  {
    forall j <- c.Keys :: j != k ==> ClassEntryName(j) != ClassEntryName(k)
  }

  /** No class is written under the name `n`. */
  predicate NoClassWrittenAs(c: map<string, Bytes>, n: string)
  {
    forall j <- c.Keys :: ClassEntryName(j) != n
  }

  /** `n` is the written name of a class or the name of a resource. */
  ghost predicate NameOfMaps(c: map<string, Bytes>, res: map<string, Bytes>, n: string)
  {
    (exists k :: k in c && ClassEntryName(k) == n) || n in res
  }

  /** `w` is a class under its written name, or a resource, with its bytes. */
  ghost predicate EntryOfMaps(c: map<string, Bytes>, res: map<string, Bytes>, w: Written)
  {
    (exists k :: k in c && w == Written(ClassEntryName(k), c[k])) || (w.name in res && res[w.name] == w.data)
  }

  /** The entries offered to the writer: classes, then resources. */
  function Offered(c: map<string, Bytes>, res: map<string, Bytes>, ck: seq<string>, rk: seq<string>): seq<Written>
    requires IsEnumeration(ck, c) && IsEnumeration(rk, res)
  {
    ClassEntries(c, ck) + ResourceEntries(res, rk)
  }

  lemma OfferedNameSource(c: map<string, Bytes>, res: map<string, Bytes>, ck: seq<string>, rk: seq<string>, i: int)
    requires IsEnumeration(ck, c) && IsEnumeration(rk, res)
    requires 0 <= i < |Offered(c, res, ck, rk)|
    ensures NameOfMaps(c, res, Offered(c, res, ck, rk)[i].name)
  {
    var cs := ClassEntries(c, ck);
    var rs := ResourceEntries(res, rk);
    var items := Offered(c, res, ck, rk);
    ClassEntriesFacts(c, ck);
    ResourceEntriesFacts(res, rk);
    if i < |cs| {
      assert items[i] == cs[i] && ck[i] in c;
    } else {
      assert items[i] == rs[i - |cs|] && rk[i - |cs|] in res;
    }
  }

  lemma OfferedNameTarget(c: map<string, Bytes>, res: map<string, Bytes>, ck: seq<string>, rk: seq<string>, n: string)
    returns (i: int)
    requires IsEnumeration(ck, c) && IsEnumeration(rk, res)
    requires NameOfMaps(c, res, n)
    ensures 0 <= i < |Offered(c, res, ck, rk)| && Offered(c, res, ck, rk)[i].name == n
  {
    var cs := ClassEntries(c, ck);
    var rs := ResourceEntries(res, rk);
    var items := Offered(c, res, ck, rk);
    ClassEntriesFacts(c, ck);
    ResourceEntriesFacts(res, rk);
    if exists k :: k in c && ClassEntryName(k) == n {
      var k :| k in c && ClassEntryName(k) == n;
      i :| 0 <= i < |ck| && ck[i] == k;
      assert items[i] == cs[i];
    } else {
      var j :| 0 <= j < |rk| && rk[j] == n;
      i := |cs| + j;
      assert items[i] == rs[j];
    }
  }

  /** The names offered to the writer are exactly the classes' written
      names and the resources' names. */
  lemma OfferedNames(c: map<string, Bytes>, res: map<string, Bytes>, ck: seq<string>, rk: seq<string>)
    requires IsEnumeration(ck, c) && IsEnumeration(rk, res)
    ensures forall n :: (exists i :: 0 <= i < |Offered(c, res, ck, rk)| && Offered(c, res, ck, rk)[i].name == n) <==> NameOfMaps(c, res, n)
  {
    var items := Offered(c, res, ck, rk);
    forall n ensures (exists i :: 0 <= i < |items| && items[i].name == n) <==> NameOfMaps(c, res, n) {
      if exists i :: 0 <= i < |items| && items[i].name == n {
        var i :| 0 <= i < |items| && items[i].name == n;
        OfferedNameSource(c, res, ck, rk, i);
      }
      if NameOfMaps(c, res, n) {
        var i := OfferedNameTarget(c, res, ck, rk, n);
      }
    }
  }

  lemma OfferedEntries(c: map<string, Bytes>, res: map<string, Bytes>, ck: seq<string>, rk: seq<string>)
    requires IsEnumeration(ck, c) && IsEnumeration(rk, res)
    ensures forall w <- Offered(c, res, ck, rk) :: EntryOfMaps(c, res, w)
  {
    ClassEntriesMembership(c, ck);
    ResourceEntriesMembership(res, rk);
    assert forall w :: w in Offered(c, res, ck, rk) <==> w in ClassEntries(c, ck) || w in ResourceEntries(res, rk);
  }

  /** A class no other class shares a written name with is the first
      offered entry of that name. */
  lemma ClassOfferedFirst(c: map<string, Bytes>, res: map<string, Bytes>, ck: seq<string>, rk: seq<string>, k: string)
    returns (i: int)
    requires IsEnumeration(ck, c) && IsEnumeration(rk, res)
    requires k in c && UniqueClassName(c, k)
    ensures 0 <= i < |Offered(c, res, ck, rk)| && Offered(c, res, ck, rk)[i] == Written(ClassEntryName(k), c[k])
    ensures FirstOfName([], Offered(c, res, ck, rk), i)
  {
    var cs := ClassEntries(c, ck);
    var items := Offered(c, res, ck, rk);
    ClassEntriesFacts(c, ck);
    i :| 0 <= i < |ck| && ck[i] == k;
    assert items[i] == cs[i];
    forall j | 0 <= j < i ensures items[j].name != items[i].name {
      assert items[j] == cs[j] && ck[j] != k && ck[j] in c;
    }
  }

  /** No class entry carries a name no class is written as. */
  lemma NoClassEntryNamed(c: map<string, Bytes>, ck: seq<string>, n: string)
    requires IsEnumeration(ck, c) && NoClassWrittenAs(c, n)
    ensures forall j :: 0 <= j < |ClassEntries(c, ck)| ==> ClassEntries(c, ck)[j].name != n
  {
    ClassEntriesFacts(c, ck);
    forall j | 0 <= j < |ClassEntries(c, ck)| ensures ClassEntries(c, ck)[j].name != n {
      assert ck[j] in c;
    }
  }

  /** The resource entry at `i` is the first of its name. */
  lemma ResourceEntryFirst(res: map<string, Bytes>, rk: seq<string>, i: int)
    requires IsEnumeration(rk, res) && 0 <= i < |rk|
    ensures i < |ResourceEntries(res, rk)| && ResourceEntries(res, rk)[i] == Written(rk[i], res[rk[i]])
    ensures forall q :: 0 <= q < i ==> ResourceEntries(res, rk)[q].name != rk[i]
  {
    ResourceEntriesFacts(res, rk);
  }

  /** A resource no class is written over is the first offered entry of
      its name. */
  lemma ResourceOfferedFirst(c: map<string, Bytes>, res: map<string, Bytes>, ck: seq<string>, rk: seq<string>, k: string)
    returns (p: int)
    requires IsEnumeration(ck, c) && IsEnumeration(rk, res)
    requires k in res && NoClassWrittenAs(c, k)
    ensures 0 <= p < |Offered(c, res, ck, rk)| && Offered(c, res, ck, rk)[p] == Written(k, res[k])
    ensures FirstOfName([], Offered(c, res, ck, rk), p)
  {
    var cs := ClassEntries(c, ck);
    var rs := ResourceEntries(res, rk);
    var items := cs + rs;
    assert items == Offered(c, res, ck, rk);
    var i :| 0 <= i < |rk| && rk[i] == k;
    NoClassEntryNamed(c, ck, k);
    ResourceEntryFirst(res, rk, i);
    p := |cs| + i;
    assert items[p] == rs[i];
    forall j | 0 <= j < p ensures items[j].name != k {
      if j < |cs| {
        assert items[j] == cs[j];
      } else {
        assert items[j] == rs[j - |cs|];
      }
    }
  }

  /** A targeted output never fails on a write: it succeeds exactly when the
      level is valid and both maps exist. Then no name is written twice; a
      name is written exactly when it is a class's ".class" name or a
      resource's name; every entry is a class or a resource with its bytes;
      and a class or resource is written unless another class is written
      under its name (classes go first). */
  lemma TargetOutputEntries(cm: Option<map<string, Bytes>>, rm: Option<map<string, Bytes>>,
                            ck: seq<string>, rk: seq<string>, level: int)
    requires cm.Some? ==> IsEnumeration(ck, cm.value)
    requires rm.Some? ==> IsEnumeration(rk, rm.value)
    ensures TargetOutput(cm, rm, ck, rk, level).Ok? <==> ValidLevel(level) && cm.Some? && rm.Some?
    ensures TargetOutput(cm, rm, ck, rk, level).Ok? ==>
      var out := TargetOutput(cm, rm, ck, rk, level).value.entries;
      && DistinctNames(out)
      && (forall n :: NameWritten(out, n) <==> NameOfMaps(cm.value, rm.value, n))
      && (forall w <- out :: EntryOfMaps(cm.value, rm.value, w))
      && (forall k <- cm.value.Keys :: UniqueClassName(cm.value, k) ==> Written(ClassEntryName(k), cm.value[k]) in out)
      && (forall k <- rm.value.Keys :: NoClassWrittenAs(cm.value, k) ==> Written(k, rm.value[k]) in out)
  {
    if ValidLevel(level) && cm.Some? && rm.Some? {
      var c := cm.value;
      var res := rm.value;
      var items := Offered(c, res, ck, rk);
      var out := WriteSkipping([], items);
      WriteSkippingResult([], items);
      assert forall n :: !NameWritten([], n);
      OfferedNames(c, res, ck, rk);
      OfferedEntries(c, res, ck, rk);
      forall k <- c.Keys | UniqueClassName(c, k) ensures Written(ClassEntryName(k), c[k]) in out {
        var i := ClassOfferedFirst(c, res, ck, rk, k);
      }
      forall k <- res.Keys | NoClassWrittenAs(c, k) ensures Written(k, res[k]) in out {
        var p := ResourceOfferedFirst(c, res, ck, rk, k);
      }
    }
  }

  /** Round trip: a fresh manager that reads one ".jar" that opens registers
      it with the maps of its first readable entries. */
  lemma ReadOne(f: JarInput)
    requires Stored(f)
    ensures var reg := LoadAll(Registry([], map[], map[]), [f]);
      && reg.fileNames == [f.name]
      && reg.classes == map[f.name := Loaded(f.entries).classes]
      && reg.resources == map[f.name := Loaded(f.entries).resources]
  {
    assert LoadAll(Registry([], map[], map[]), [f]) == Load(Registry([], map[], map[]), f);
  }

  /** Round trip: the targeted output of an archive read by a fresh
      manager succeeds whenever the level is valid, and holds exactly the
      first readable occurrence of each file of the archive, under its own
      name. */
  lemma ReadThenOutput(es: seq<JarEntry>, ck: seq<string>, rk: seq<string>, level: int)
    requires IsEnumeration(ck, Loaded(es).classes) && IsEnumeration(rk, Loaded(es).resources)
    ensures TargetOutput(Some(Loaded(es).classes), Some(Loaded(es).resources), ck, rk, level).Ok? <==> ValidLevel(level)
    ensures ValidLevel(level) ==>
      forall w :: w in TargetOutput(Some(Loaded(es).classes), Some(Loaded(es).resources), ck, rk, level).value.entries <==>
        FirstReadable(es, w.name) == Some(w.data)
  {
    var c := Loaded(es).classes;
    var res := Loaded(es).resources;
    IngestFirstWinsResult(Maps(map[], map[]), es, Same);
    TargetOutputEntries(Some(c), Some(res), ck, rk, level);
    if ValidLevel(level) {
      var out := TargetOutput(Some(c), Some(res), ck, rk, level).value.entries;
      assert forall k :: k in c ==> ClassEntryName(k) == k;
      forall w ensures w in out <==> FirstReadable(es, w.name) == Some(w.data) {
        if w in out {
          assert EntryOfMaps(c, res, w);
        }
        if FirstReadable(es, w.name) == Some(w.data) {
          if IsClassName(w.name) {
            assert UniqueClassName(c, w.name);
            assert w == Written(ClassEntryName(w.name), c[w.name]);
          } else {
            assert NoClassWrittenAs(c, w.name);
            assert w == Written(w.name, res[w.name]);
          }
        }
      }
    }
  }

  class MultiClassManager {
    var fileNames: seq<string>
    var classes: map<string, map<string, Bytes>>
    var resources: map<string, map<string, Bytes>>

    function State(): Registry
      reads this
    {
      Registry(fileNames, classes, resources)
    }

    predicate Valid()
      reads this
    {
      Consistent(State())
    }

    constructor()
      ensures Valid()
      ensures fileNames == [] && classes == map[] && resources == map[]
    {
      fileNames := [];
      classes := map[];
      resources := map[];
    }

    /** `readJarFiles(files...)`: a null array throws before anything
        changes; otherwise the files are read in order as `LoadAll` says,
        and nothing is thrown for a rejected or unopenable file. */
    method ReadJarFiles(inputs: Option<seq<JarInput>>) returns (s: Status)
      requires Valid()
      modifies this
      ensures Valid()
      ensures inputs.None? ==> s == Thrown(NullPointer) && unchanged(this)
      ensures inputs.Some? ==> s == Normal && State() == LoadAll(old(State()), inputs.value)
    {
      if inputs.None? {
        return Thrown(NullPointer);
      }
      var files := inputs.value;
      ghost var start := State();
      LoadAllConsistent(start, files);
      var i := 0;
      while i < |files|
        invariant 0 <= i <= |files|
        invariant LoadAll(start, files) == LoadAll(State(), files[i..])
      {
        var f := files[i];
        assert files[i..][0] == f && files[i..][1..] == files[i + 1..];
        if EndsWith(f.name, ".jar") {
          fileNames := fileNames + [f.name];
          if !f.isDirectory && f.opens {
            var st := ReadEntries(f.entries);
            classes := classes[f.name := st.classes];
            resources := resources[f.name := st.resources];
          }
        }
        i := i + 1;
      }
      s := Normal;
    }

    /** `applyTargetedChanges(name, IClassChange...)`, as `Targeted` says on
        the class registry; nothing else changes. */
    method ApplyTargetedClassChanges(name: string, changes: Option<seq<Change<Bytes>>>) returns (s: Status, ghost orders: seq<seq<string>>)
      requires Valid()
      modifies this
      ensures Valid()
      ensures fileNames == old(fileNames) && resources == old(resources)
      ensures TargetOrders(old(classes), fileNames, name, changes, orders)
      ensures match Targeted(old(classes), fileNames, name, changes, orders)
        case Ok(m) => s == Normal && classes == m
        case Err(e) => s == Thrown(e) && classes == old(classes)
    {
      orders := [];
      if name !in fileNames {
        return Normal, orders;
      }
      if name !in classes || changes.None? {
        return Thrown(NullPointer), orders;
      }
      var r;
      r, orders := ApplyChain(classes[name], changes.value);
      match r {
        case Ok(m) =>
          classes := classes[name := m];
          s := Normal;
        case Err(e) =>
          s := Thrown(e);
      }
    }

    /** `applyTargetedChanges(name, IResourceChange...)`: the same on the
        resource registry. */
    method ApplyTargetedResourceChanges(name: string, changes: Option<seq<Change<Bytes>>>) returns (s: Status, ghost orders: seq<seq<string>>)
      requires Valid()
      modifies this
      ensures Valid()
      ensures fileNames == old(fileNames) && classes == old(classes)
      ensures TargetOrders(old(resources), fileNames, name, changes, orders)
      ensures match Targeted(old(resources), fileNames, name, changes, orders)
        case Ok(m) => s == Normal && resources == m
        case Err(e) => s == Thrown(e) && resources == old(resources)
    {
      orders := [];
      if name !in fileNames {
        return Normal, orders;
      }
      if name !in resources || changes.None? {
        return Thrown(NullPointer), orders;
      }
      var r;
      r, orders := ApplyChain(resources[name], changes.value);
      match r {
        case Ok(m) =>
          resources := resources[name := m];
          s := Normal;
        case Err(e) =>
          s := Thrown(e);
      }
    }

    /** `applyChanges(IClassChange...)`: the targeted fold for every entry of
        `fileNames`, in order, as `Run` says; an exception at `fileNames[stop]`
        stops the loop with the archives visited before it already changed and
        that one and the rest untouched. */
    method ApplyClassChanges(changes: Option<seq<Change<Bytes>>>) returns (s: Status, ghost runs: seq<seq<seq<string>>>, ghost stop: int)
      requires Valid()
      modifies this
      ensures Valid()
      ensures fileNames == old(fileNames) && resources == old(resources)
      ensures RunOrders(old(classes), fileNames, fileNames, changes, runs)
      ensures Run(old(classes), fileNames, fileNames, changes, runs) == Ok(classes) <==> s == Normal
      ensures s.Thrown? ==> Run(old(classes), fileNames, fileNames, changes, runs) == Err(s.exception)
      ensures s.Thrown? ==>
                0 <= stop < |fileNames| && |runs| == |fileNames|
                && RunOrders(old(classes), fileNames, fileNames[..stop], changes, runs[..stop])
                && Run(old(classes), fileNames, fileNames[..stop], changes, runs[..stop]) == Ok(classes)
                && TargetOrders(classes, fileNames, fileNames[stop], changes, runs[stop])
                && Targeted(classes, fileNames, fileNames[stop], changes, runs[stop]) == Err(s.exception)
    {
      ghost var start := classes;
      var names := fileNames;
      runs := [];
      var i := 0;
      while i < |names|
        invariant 0 <= i <= |names| && |runs| == i
        invariant Valid() && fileNames == names && resources == old(resources)
        invariant RunOrders(start, names, names[..i], changes, runs)
        invariant Run(start, names, names[..i], changes, runs) == Ok(classes)
      {
        ghost var before := classes;
        ghost var visited := runs;
        var status, orders := ApplyTargetedClassChanges(names[i], changes);
        RunExtend(start, names, names, i, runs, orders, changes, before);
        runs := runs + [orders];
        if status.Thrown? {
          RunStop(start, names, names, i, runs, changes, status.exception);
          runs := runs + seq(|names| - i - 1, _ => []);
          assert runs[..i] == visited && runs[i] == orders;
          return status, runs, i;
        }
        i := i + 1;
      }
      assert names[..i] == names;
      s, stop := Normal, i;
    }

    /** `applyChanges(IResourceChange...)`: the same on the resource
        registry. */
    method ApplyResourceChanges(changes: Option<seq<Change<Bytes>>>) returns (s: Status, ghost runs: seq<seq<seq<string>>>, ghost stop: int)
      requires Valid()
      modifies this
      ensures Valid()
      ensures fileNames == old(fileNames) && classes == old(classes)
      ensures RunOrders(old(resources), fileNames, fileNames, changes, runs)
      ensures Run(old(resources), fileNames, fileNames, changes, runs) == Ok(resources) <==> s == Normal
      ensures s.Thrown? ==> Run(old(resources), fileNames, fileNames, changes, runs) == Err(s.exception)
      ensures s.Thrown? ==>
                0 <= stop < |fileNames| && |runs| == |fileNames|
                && RunOrders(old(resources), fileNames, fileNames[..stop], changes, runs[..stop])
                && Run(old(resources), fileNames, fileNames[..stop], changes, runs[..stop]) == Ok(resources)
                && TargetOrders(resources, fileNames, fileNames[stop], changes, runs[stop])
                && Targeted(resources, fileNames, fileNames[stop], changes, runs[stop]) == Err(s.exception)
    {
      ghost var start := resources;
      var names := fileNames;
      runs := [];
      var i := 0;
      while i < |names|
        invariant 0 <= i <= |names| && |runs| == i
        invariant Valid() && fileNames == names && classes == old(classes)
        invariant RunOrders(start, names, names[..i], changes, runs)
        invariant Run(start, names, names[..i], changes, runs) == Ok(resources)
      {
        ghost var before := resources;
        ghost var visited := runs;
        var status, orders := ApplyTargetedResourceChanges(names[i], changes);
        RunExtend(start, names, names, i, runs, orders, changes, before);
        runs := runs + [orders];
        if status.Thrown? {
          RunStop(start, names, names, i, runs, changes, status.exception);
          runs := runs + seq(|names| - i - 1, _ => []);
          assert runs[..i] == visited && runs[i] == orders;
          return status, runs, i;
        }
        i := i + 1;
      }
      assert names[..i] == names;
      s, stop := Normal, i;
    }

    /** `createTargetedOutputFile(name)`: null for an unregistered name,
        otherwise a view of this manager named `name`. */
    method CreateTargetedOutputFile(name: string) returns (o: MultiOutput?)
      ensures name !in fileNames ==> o == null
      ensures name in fileNames ==> o != null && fresh(o) && o.manager == this && o.name == name
    {
      if name !in fileNames {
        return null;
      }
      o := new MultiOutput(this, name);
    }

    /** `createOutputs()`: one view per entry of `fileNames`, in order, so a
        name read twice yields two views. */
    method CreateOutputs() returns (outs: seq<MultiOutput>)
      ensures |outs| == |fileNames|
      ensures forall i :: 0 <= i < |outs| ==> fresh(outs[i]) && outs[i].manager == this && outs[i].name == fileNames[i]
    {
      outs := [];
      var i := 0;
      while i < |fileNames|
        invariant 0 <= i <= |fileNames| && |outs| == i
        invariant forall j :: 0 <= j < i ==> fresh(outs[j]) && outs[j].manager == this && outs[j].name == fileNames[j]
      {
        var o := CreateTargetedOutputFile(fileNames[i]);
        outs := outs + [o];
        i := i + 1;
      }
    }

    /** `getClasses()`: the registry of class maps, as a value. */
    function GetClasses(): (r: map<string, map<string, Bytes>>)
      reads this
      ensures Valid() ==> forall n <- r.Keys :: n in fileNames
      ensures r == classes
    {
      classes
    }

    /** `getResources()`: the registry of resource maps, as a value. */
    function GetResources(): (r: map<string, map<string, Bytes>>)
      reads this
      ensures Valid() ==> forall n <- r.Keys :: n in fileNames
      ensures r == resources
    {
      resources
    }

    /** `removeEntry(name)`: a registered name loses its first occurrence in
        `fileNames` and both its maps; anything else is a no-op. A second
        occurrence stays registered, now without maps. */
    method RemoveEntry(name: string)
      requires Valid()
      modifies this
      ensures Valid()
      ensures name !in old(fileNames) ==> unchanged(this)
      ensures name in old(fileNames) ==>
        && fileNames == RemoveFirst(old(fileNames), name)
        && classes == old(classes) - {name}
        && resources == old(resources) - {name}
    {
      if name in fileNames {
        RemoveFirstContents(fileNames, name);
        fileNames := RemoveFirst(fileNames, name);
        classes := classes - {name};
        resources := resources - {name};
        assert forall n <- classes.Keys :: n in multiset(fileNames);
      }
    }

    /** `close()`: empty all three fields. */
    method Close()
      modifies this
      ensures Valid()
      ensures fileNames == [] && classes == map[] && resources == map[]
    {
      fileNames := [];
      classes := map[];
      resources := map[];
    }
  }

  /** The anonymous `IOutputFile` of `createTargetedOutputFile`: it keeps
      the archive name and fetches the maps when asked for bytes. */
  class MultiOutput {
    const manager: MultiClassManager
    const name: string

    constructor(m: MultiClassManager, n: string)
      ensures manager == m && name == n
    {
      manager := m;
      name := n;
    }

    /** `getFileName()` is the archive name, whatever the manager does later. */
    function GetFileName(): (r: string)
      ensures r == name
    {
      name
    }

    /** `getFileInBytes(level)`: as `TargetOutput` says on the maps the
        registry holds for `name` now, each visited in an order left open. */
    method GetFileInBytes(level: int) returns (r: Result<ZipOutput>, ghost ck: seq<string>, ghost rk: seq<string>)
      ensures name in manager.classes ==> IsEnumeration(ck, manager.classes[name])
      ensures name in manager.resources ==> IsEnumeration(rk, manager.resources[name])
      ensures r == TargetOutput(Lookup(manager.classes, name), Lookup(manager.resources, name), ck, rk, level)
    {
      var cm := Lookup(manager.classes, name);
      var rm := Lookup(manager.resources, name);
      var cks: seq<string> := [];
      var rks: seq<string> := [];
      if cm.Some? {
        cks := KeysInSomeOrder(cm.value);
      }
      if rm.Some? {
        rks := KeysInSomeOrder(rm.value);
      }
      ck, rk := cks, rks;
      if !ValidLevel(level) {
        r := Err(IllegalArgument);
        return;
      }
      if cm.None? {
        r := Err(NullPointer);
        return;
      }
      var ws := WriteClassesSkipping([], cm.value, cks);
      if rm.None? {
        r := Err(NullPointer);
        return;
      }
      var all := WriteResourcesSkipping(ws, rm.value, rks);
      WriteSkippingAppend([], ClassEntries(cm.value, cks), ResourceEntries(rm.value, rks));
      r := Ok(ZipOutput(level, all));
    }
  }

  /** `ConcurrentHashMap.get`: the value under `k`, or null. */
  function Lookup<V>(m: map<string, V>, k: string): (r: Option<V>)
    ensures r.Some? <==> k in m
    ensures r.Some? ==> r.value == m[k]
  {
    if k in m then Some(m[k]) else None
  }

  /** Skipping writes over `a + b` is skipping over `a`, then over `b`. */
  lemma {:induction false} WriteSkippingAppend(ws: seq<Written>, a: seq<Written>, b: seq<Written>)
    ensures WriteSkipping(ws, a + b) == WriteSkipping(WriteSkipping(ws, a), b)
    decreases |a|
  {
    if a == [] {
      assert a + b == b;
    } else {
      assert (a + b)[0] == a[0] && (a + b)[1..] == a[1..] + b;
      if NameWritten(ws, a[0].name) {
        WriteSkippingAppend(ws, a[1..], b);
      } else {
        WriteSkippingAppend(ws + [a[0]], a[1..], b);
      }
    }
  }

  /** The `parallelStream` over one archive's entries, run in archive order:
      folders are skipped, and the first readable entry of each name is put
      into the fresh class or resource map. */
  method ReadEntries(es: seq<JarEntry>) returns (st: Maps<Bytes>)
    ensures st == Loaded(es)
  {
    var classTemp: map<string, Bytes> := map[];
    var resourceTemp: map<string, Bytes> := map[];
    var i := 0;
    while i < |es|
      invariant 0 <= i <= |es|
      invariant Loaded(es) == IngestFirstWins(Maps(classTemp, resourceTemp), es[i..], Same)
    {
      var e := es[i];
      assert es[i..][0] == e && es[i..][1..] == es[i + 1..];
      if !EndsWith(e.name, "/") && e.bytes.Some? {
        if Contains(e.name, ".class") {
          if e.name !in classTemp {
            classTemp := classTemp[e.name := e.bytes.value];
          }
        } else if e.name !in resourceTemp {
          resourceTemp := resourceTemp[e.name := e.bytes.value];
        }
      }
      i := i + 1;
    }
    st := Maps(classTemp, resourceTemp);
  }

  /** The loop over one archive's classes: each is written under its
      ".class" name unless that name was already written, in which case the
      failure is reported and the loop goes on. */
  method WriteClassesSkipping(ws0: seq<Written>, m: map<string, Bytes>, ks: seq<string>) returns (ws: seq<Written>)
    requires forall k <- ks :: k in m
    ensures ws == WriteSkipping(ws0, ClassEntries(m, ks))
  {
    ws := ws0;
    var i := 0;
    while i < |ks|
      invariant 0 <= i <= |ks|
      invariant WriteSkipping(ws0, ClassEntries(m, ks)) == WriteSkipping(ws, ClassEntries(m, ks[i..]))
    {
      var k := ks[i];
      assert ks[i..][0] == k && ks[i..][1..] == ks[i + 1..];
      var entryName := if Contains(k, ".class") then k else k + ".class";
      assert entryName == ClassEntryName(k);
      if !(exists w <- ws :: w.name == entryName) {
        ws := ws + [Written(entryName, m[k])];
      }
      i := i + 1;
    }
  }

  /** The loop over one archive's resources, skipping a name already
      written. */
  method WriteResourcesSkipping(ws0: seq<Written>, m: map<string, Bytes>, ks: seq<string>) returns (ws: seq<Written>)
    requires forall k <- ks :: k in m
    ensures ws == WriteSkipping(ws0, ResourceEntries(m, ks))
  {
    ws := ws0;
    var i := 0;
    while i < |ks|
      invariant 0 <= i <= |ks|
      invariant WriteSkipping(ws0, ResourceEntries(m, ks)) == WriteSkipping(ws, ResourceEntries(m, ks[i..]))
    {
      var k := ks[i];
      assert ks[i..][0] == k && ks[i..][1..] == ks[i + 1..];
      if !(exists w <- ws :: w.name == k) {
        ws := ws + [Written(k, m[k])];
      }
      i := i + 1;
    }
  }
}
