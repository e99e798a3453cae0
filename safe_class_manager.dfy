/** `com.universal.asm.manager.thread.SafeClassManager`: the thread-safe
    variant. Its maps never hold null, reading keeps the first occurrence of
    every name instead of stopping, the input check is `contains(".jar")`,
    and output appends ".class" to class names that lack it. Reading is
    parallel in the source; here it runs in archive order. */
module SafeManager {
  import opened Wrappers
  import opened Text
  import opened Archive
  import opened Transform

  /** The file check of `readJarFile`: a name containing ".jar" that is not
      a directory. */
  predicate Accepted(f: JarInput)
  {
    Contains(f.name, ".jar") && !f.isDirectory
  }

  /** What `getFileInBytes(level)` produces from the two maps, visited in the
      orders `ck` and `rk`. */
  function Output(classes: map<string, Bytes>, resources: map<string, Bytes>,
                  ck: seq<string>, rk: seq<string>, level: int): Result<ZipOutput>
    requires IsEnumeration(ck, classes) && IsEnumeration(rk, resources)
  {
    if !ValidLevel(level) then Err(IllegalArgument)
    else match WriteAll([], Lift(ClassEntries(classes, ck) + ResourceEntries(resources, rk)))
      case Ok(ws) => Ok(ZipOutput(level, ws))
      case Err(e) => Err(e)
  }

  /** No two classes are written under one name, and no class is written
      under the name of a resource. */
  predicate Emittable(classes: map<string, Bytes>, resources: map<string, Bytes>)
  {
    && (forall a, b :: a in classes && b in classes && a != b ==> ClassEntryName(a) != ClassEntryName(b))
    && (forall a :: a in classes ==> ClassEntryName(a) !in resources)
  }

  /** The class entries are clash-free exactly when no two classes share a
      written name. */
  lemma ClassEntriesDistinct(classes: map<string, Bytes>, ck: seq<string>)
    requires IsEnumeration(ck, classes)
    ensures DistinctNames(ClassEntries(classes, ck)) <==>
      forall a, b :: a in classes && b in classes && a != b ==> ClassEntryName(a) != ClassEntryName(b)
  {
    if DistinctNames(ClassEntries(classes, ck)) {
      DistinctEntriesDistinctNames(classes, ck);
    } else {
      var cs := ClassEntries(classes, ck);
      ClassEntriesFacts(classes, ck);
      var i, j :| 0 <= i < j < |cs| && cs[i].name == cs[j].name;
      assert cs[i].name == ClassEntryName(ck[i]) && cs[j].name == ClassEntryName(ck[j]);
      assert ck[i] != ck[j];
    }
  }

  lemma DistinctEntriesDistinctNames(classes: map<string, Bytes>, ck: seq<string>)
    requires IsEnumeration(ck, classes)
    requires DistinctNames(ClassEntries(classes, ck))
    ensures forall a, b :: a in classes && b in classes && a != b ==> ClassEntryName(a) != ClassEntryName(b)
  {
    var cs := ClassEntries(classes, ck);
    ClassEntriesFacts(classes, ck);
    forall a, b | a in classes && b in classes && a != b ensures ClassEntryName(a) != ClassEntryName(b) {
      var i :| 0 <= i < |ck| && ck[i] == a;
      var j :| 0 <= j < |ck| && ck[j] == b;
      assert cs[i].name == ClassEntryName(a) && cs[j].name == ClassEntryName(b);
    }
  }

  /** No class entry shares a name with a resource entry exactly when no
      class is written under a resource's name. */
  lemma EntriesDisjoint(classes: map<string, Bytes>, resources: map<string, Bytes>, ck: seq<string>, rk: seq<string>)
    requires IsEnumeration(ck, classes) && IsEnumeration(rk, resources)
    ensures (forall i, j :: 0 <= i < |ClassEntries(classes, ck)| && 0 <= j < |ResourceEntries(resources, rk)| ==>
               ClassEntries(classes, ck)[i].name != ResourceEntries(resources, rk)[j].name) <==>
            (forall a :: a in classes ==> ClassEntryName(a) !in resources)
  {
    var cs := ClassEntries(classes, ck);
    var rs := ResourceEntries(resources, rk);
    ClassEntriesFacts(classes, ck);
    ResourceEntriesFacts(resources, rk);
    if forall a :: a in classes ==> ClassEntryName(a) !in resources {
      forall i, j | 0 <= i < |cs| && 0 <= j < |rs| ensures cs[i].name != rs[j].name {
        assert cs[i].name == ClassEntryName(ck[i]) && rs[j].name == rk[j];
      }
    } else {
      var a :| a in classes && ClassEntryName(a) in resources;
      var i :| 0 <= i < |ck| && ck[i] == a;
      var j :| 0 <= j < |rk| && rk[j] == ClassEntryName(a);
      assert cs[i].name == rs[j].name;
    }
  }

  /** Output succeeds exactly when the level is valid and the maps are
      emittable, whatever the iteration orders; then it writes every class
      (under its ".class" name) and then every resource, in those orders. */
  lemma OutputSucceeds(classes: map<string, Bytes>, resources: map<string, Bytes>,
                       ck: seq<string>, rk: seq<string>, level: int)
    requires IsEnumeration(ck, classes) && IsEnumeration(rk, resources)
    ensures Output(classes, resources, ck, rk, level).Ok? <==> ValidLevel(level) && Emittable(classes, resources)
    ensures !ValidLevel(level) ==> Output(classes, resources, ck, rk, level) == Err(IllegalArgument)
    ensures Output(classes, resources, ck, rk, level).Ok? ==>
      Output(classes, resources, ck, rk, level).value ==
        ZipOutput(level, ClassEntries(classes, ck) + ResourceEntries(resources, rk))
  {
    var cs := ClassEntries(classes, ck);
    var rs := ResourceEntries(resources, rk);
    WriteAllLifted(cs + rs);
    DistinctNamesConcat(cs, rs);
    ClassEntriesDistinct(classes, ck);
    ResourceEntriesMembership(resources, rk);
    EntriesDisjoint(classes, resources, ck, rk);
  }

  /** The entries of a successful output: each class under its ".class"
      name with its bytes, and each resource under its own name. */
  lemma OutputEntries(classes: map<string, Bytes>, resources: map<string, Bytes>,
                      ck: seq<string>, rk: seq<string>, level: int)
    requires IsEnumeration(ck, classes) && IsEnumeration(rk, resources)
    requires Output(classes, resources, ck, rk, level).Ok?
    ensures var out := Output(classes, resources, ck, rk, level).value;
      && out.level == level
      && DistinctNames(out.entries)
      && (forall w :: w in out.entries <==>
            (exists k :: k in classes && w == Written(ClassEntryName(k), classes[k])) ||
            (w.name in resources && resources[w.name] == w.data))
  {
    var cs := ClassEntries(classes, ck);
    var rs := ResourceEntries(resources, rk);
    OutputSucceeds(classes, resources, ck, rk, level);
    WriteAllLifted(cs + rs);
    ClassEntriesMembership(classes, ck);
    ResourceEntriesMembership(resources, rk);
    assert forall w :: w in cs + rs <==> w in cs || w in rs;
  }

  /** Round trip: whatever the archive, a fresh manager that reads it writes
      it back out whenever the level is valid, and the output holds exactly
      the first readable occurrence of each file, under its own name. */
  lemma ReadThenOutput(es: seq<JarEntry>, ck: seq<string>, rk: seq<string>, level: int)
    requires IsEnumeration(ck, Loaded(es).classes) && IsEnumeration(rk, Loaded(es).resources)
    ensures Output(Loaded(es).classes, Loaded(es).resources, ck, rk, level).Ok? <==> ValidLevel(level)
    ensures Output(Loaded(es).classes, Loaded(es).resources, ck, rk, level).Ok? ==>
      forall w :: w in Output(Loaded(es).classes, Loaded(es).resources, ck, rk, level).value.entries <==>
        FirstReadable(es, w.name) == Some(w.data)
  {
    var st := Loaded(es);
    IngestFirstWinsResult(Maps(map[], map[]), es, Same);
    assert forall k :: k in st.classes ==> ClassEntryName(k) == k;
    assert Emittable(st.classes, st.resources);
    OutputSucceeds(st.classes, st.resources, ck, rk, level);
    if ValidLevel(level) {
      OutputEntries(st.classes, st.resources, ck, rk, level);
    }
  }

  class SafeClassManager {
    var fileName: Option<string>
    var classes: map<string, Bytes>
    var resources: map<string, Bytes>

    constructor()
      ensures fileName == None && classes == map[] && resources == map[]
    {
      fileName := None;
      classes := map[];
      resources := map[];
    }

    /** `readJarFile`: null is rejected, then a file whose name lacks ".jar"
        or that is a directory, before anything changes. The name is then
        recorded; a failed open throws, and otherwise every entry is
        ingested, the first occurrence of each name winning. */
    method ReadJarFile(f: Option<JarInput>) returns (s: Status)
      modifies this
      ensures f.None? ==> s == Thrown(NullPointer) && unchanged(this)
      ensures f.Some? && !Accepted(f.value) ==> s == Thrown(Runtime) && unchanged(this)
      ensures f.Some? && Accepted(f.value) ==>
        && fileName == Some(f.value.name)
        && (!Opens(f.value) ==> s == Thrown(Runtime) && classes == old(classes) && resources == old(resources))
        && (Opens(f.value) ==>
              s == Normal && Maps(classes, resources) == IngestFirstWins(Maps(old(classes), old(resources)), f.value.entries, Same))
    {
      if f.None? {
        return Thrown(NullPointer);
      }
      var file := f.value;
      if !Contains(file.name, ".jar") || file.isDirectory {
        return Thrown(Runtime);
      }
      fileName := Some(file.name);
      if !file.opens {
        return Thrown(Runtime);
      }
      var es := file.entries;
      ghost var start := Maps(classes, resources);
      var i := 0;
      while i < |es|
        invariant 0 <= i <= |es|
        invariant fileName == Some(file.name)
        invariant IngestFirstWins(start, es, Same) == IngestFirstWins(Maps(classes, resources), es[i..], Same)
      {
        var e := es[i];
        assert es[i..][0] == e && es[i..][1..] == es[i + 1..];
        if !IsDirectoryEntry(e.name) && e.bytes.Some? {
          if IsClassName(e.name) {
            if e.name !in classes {
              classes := classes[e.name := e.bytes.value];
            }
          } else if e.name !in resources {
            resources := resources[e.name := e.bytes.value];
          }
        }
        i := i + 1;
      }
      s := Normal;
    }

    /** `applyChanges(IClassChange...)`: no changes, or no classes, changes
        nothing. Otherwise the chain runs on a copy and its final map is
        swapped in; an exception (including a null name or payload, which
        the concurrent map rejects) leaves every field as it was. */
    method ApplyClassChanges(changes: Option<seq<Change<Bytes>>>) returns (s: Status, ghost orders: seq<seq<string>>)
      modifies this
      ensures fileName == old(fileName) && resources == old(resources)
      ensures changes.None? || changes.value == [] || old(classes) == map[] ==> s == Normal && classes == old(classes)
      ensures changes.Some? && changes.value != [] && old(classes) != map[] ==>
        && ValidOrders(old(classes), changes.value, orders)
        && match Chain(old(classes), changes.value, orders)
           case Ok(m) => s == Normal && classes == m
           case Err(e) => s == Thrown(e) && classes == old(classes)
    {
      orders := [];
      if changes.None? || changes.value == [] || classes == map[] {
        s := Normal;
        return;
      }
      var r;
      r, orders := ApplyChain(classes, changes.value);
      match r {
        case Ok(m) =>
          classes := m;
          s := Normal;
        case Err(e) =>
          s := Thrown(e);
      }
    }

    /** `applyChanges(IResourceChange...)`: the same fold on `resources`. */
    method ApplyResourceChanges(changes: Option<seq<Change<Bytes>>>) returns (s: Status, ghost orders: seq<seq<string>>)
      modifies this
      ensures fileName == old(fileName) && classes == old(classes)
      ensures changes.None? || changes.value == [] || old(resources) == map[] ==> s == Normal && resources == old(resources)
      ensures changes.Some? && changes.value != [] && old(resources) != map[] ==>
        && ValidOrders(old(resources), changes.value, orders)
        && match Chain(old(resources), changes.value, orders)
           case Ok(m) => s == Normal && resources == m
           case Err(e) => s == Thrown(e) && resources == old(resources)
    {
      orders := [];
      if changes.None? || changes.value == [] || resources == map[] {
        s := Normal;
        return;
      }
      var r;
      r, orders := ApplyChain(resources, changes.value);
      match r {
        case Ok(m) =>
          resources := m;
          s := Normal;
        case Err(e) =>
          s := Thrown(e);
      }
    }

    /** `outputFile()`: a view that reads this manager when it is used. */
    method OutputFile() returns (o: SafeOutput)
      ensures fresh(o) && o.manager == this
    {
      o := new SafeOutput(this);
    }

    /** `close()`: empty both maps and forget the name. */
    method Close()
      modifies this
      ensures fileName == None && classes == map[] && resources == map[]
    {
      classes := map[];
      resources := map[];
      fileName := None;
    }
  }

  /** The anonymous `IOutputFile` of `outputFile()`: it reads the manager's
      fields when asked, so after `close` it reports no name and writes an
      empty archive. */
  class SafeOutput {
    const manager: SafeClassManager

    constructor(m: SafeClassManager)
      ensures manager == m
    {
      manager := m;
    }

    /** `getFileName()` reads the manager's current name. */
    function GetFileName(): (r: Option<string>)
      reads this, manager
      ensures r == manager.fileName
    {
      manager.fileName
    }

    /** `getFileInBytes(level)`: every class under its ".class" name, then
        every resource, each map visited in an order left open here. */
    method GetFileInBytes(level: int) returns (r: Result<ZipOutput>, ghost ck: seq<string>, ghost rk: seq<string>)
      ensures IsEnumeration(ck, manager.classes) && IsEnumeration(rk, manager.resources)
      ensures r == Output(manager.classes, manager.resources, ck, rk, level)
    {
      var classes := manager.classes;
      var resources := manager.resources;
      var cks := KeysInSomeOrder(classes);
      var rks := KeysInSomeOrder(resources);
      ck, rk := cks, rks;
      if !ValidLevel(level) {
        r := Err(IllegalArgument);
        return;
      }
      var cs := ClassEntries(classes, cks);
      var rs := ResourceEntries(resources, rks);
      assert Lift(cs + rs) == Lift(cs) + Lift(rs);
      WriteAllAppend([], Lift(cs), Lift(rs));
      var written := WriteClasses([], classes, cks);
      match written {
        case Err(e) =>
          r := Err(e);
        case Ok(ws) =>
          var all := WriteEntries(ws, resources, rks);
          r := match all
            case Ok(entries) => Ok(ZipOutput(level, entries))
            case Err(e) => Err(e);
      }
    }
  }

  /** The loop over `classes.entrySet()`: write each class under its
      ".class" name, stopping at the first exception. */
  method WriteClasses(ws0: seq<Written>, m: map<string, Bytes>, ks: seq<string>) returns (r: Result<seq<Written>>)
    requires forall k <- ks :: k in m
    ensures r == WriteAll(ws0, Lift(ClassEntries(m, ks)))
  {
    var ws := ws0;
    var i := 0;
    while i < |ks|
      invariant 0 <= i <= |ks|
      invariant WriteAll(ws0, Lift(ClassEntries(m, ks))) == WriteAll(ws, Lift(ClassEntries(m, ks[i..])))
    {
      var k := ks[i];
      assert ks[i..][0] == k && ks[i..][1..] == ks[i + 1..];
      var name := if Contains(k, ".class") then k else k + ".class";
      assert name == ClassEntryName(k);
      ghost var rest := ClassEntries(m, ks[i + 1..]);
      assert Lift(ClassEntries(m, ks[i..]))[0] == Item(name, Some(m[k]));
      assert Lift(ClassEntries(m, ks[i..]))[1..] == Lift(rest);
      if exists w <- ws :: w.name == name {
        return Err(Runtime);
      }
      ws := ws + [Written(name, m[k])];
      i := i + 1;
    }
    r := Ok(ws);
  }
}
