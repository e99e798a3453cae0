/** `com.universal.asm.manager.ClassManager`: one archive's classes and
    resources held as two maps whose values may be null (a change may store a
    null payload). Reading stops at the first duplicate name; output writes
    class names verbatim and skips null resources. */
module Manager {
  import opened Wrappers
  import opened Text
  import opened Archive
  import opened Transform

  /** How ingestion stores the bytes it read: as a non-null payload. */
  function SomeBytes(b: Bytes): Option<Bytes>
  {
    Some(b)
  }

  /** The items the output writes for the classes, in the iteration order
      `ks`: every class under its own name, null payloads included. */
  function ClassItems(m: map<string, Option<Bytes>>, ks: seq<string>): seq<Item>
    requires forall k <- ks :: k in m
    decreases |ks|
  {
    if ks == [] then [] else [Item(ks[0], m[ks[0]])] + ClassItems(m, ks[1..])
  }

  /** The items the output writes for the resources: those whose payload is
      not null. */
  function ResourceItems(m: map<string, Option<Bytes>>, ks: seq<string>): seq<Item>
    requires forall k <- ks :: k in m
    decreases |ks|
  {
    if ks == [] then []
    else (if m[ks[0]].Some? then [Item(ks[0], m[ks[0]])] else []) + ResourceItems(m, ks[1..])
  }

  /** What `getFileInBytes(level)` produces from the two maps, visited in the
      orders `ck` and `rk`. */
  function Output(classes: map<string, Option<Bytes>>, resources: map<string, Option<Bytes>>,
                  ck: seq<string>, rk: seq<string>, level: int): Result<ZipOutput>
    requires IsEnumeration(ck, classes) && IsEnumeration(rk, resources)
  {
    if !ValidLevel(level) then Err(IllegalArgument)
    else match WriteAll([], ClassItems(classes, ck) + ResourceItems(resources, rk))
      case Ok(ws) => Ok(ZipOutput(level, ws))
      case Err(e) => Err(e)
  }

  /** The class items list each class once, with its payload. */
  lemma {:induction false} ClassItemsFacts(m: map<string, Option<Bytes>>, ks: seq<string>)
    requires forall k <- ks :: k in m
    requires Distinct(ks)
    ensures |ClassItems(m, ks)| == |ks|
    ensures forall i :: 0 <= i < |ks| ==> ClassItems(m, ks)[i] == Item(ks[i], m[ks[i]])
    decreases |ks|
  {
    if ks != [] {
      ClassItemsFacts(m, ks[1..]);
    }
  }

  /** The resource items list each resource with a payload once. */
  lemma {:induction false} ResourceItemsFacts(m: map<string, Option<Bytes>>, ks: seq<string>)
    requires forall k <- ks :: k in m
    requires Distinct(ks)
    ensures forall it :: it in ResourceItems(m, ks) <==> it.name in ks && m[it.name].Some? && it.data == m[it.name]
    ensures forall i, j :: 0 <= i < j < |ResourceItems(m, ks)| ==> ResourceItems(m, ks)[i].name != ResourceItems(m, ks)[j].name
    decreases |ks|
  {
    if ks != [] {
      ResourceItemsFacts(m, ks[1..]);
      var head: seq<Item> := if m[ks[0]].Some? then [Item(ks[0], m[ks[0]])] else [];
      var rest := ResourceItems(m, ks[1..]);
      assert ResourceItems(m, ks) == head + rest;
      forall it ensures it in rest ==> it.name != ks[0] {
        if it in rest {
          assert it.name in ks[1..];
          var j :| 0 <= j < |ks[1..]| && ks[1..][j] == it.name;
          assert ks[j + 1] == it.name;
        }
      }
      forall i, j | 0 <= i < j < |head + rest| ensures (head + rest)[i].name != (head + rest)[j].name {
        if i < |head| {
          assert (head + rest)[j] in rest;
        } else {
          assert (head + rest)[i] == rest[i - |head|] && (head + rest)[j] == rest[j - |head|];
        }
      }
      assert forall x :: x in ks <==> x == ks[0] || x in ks[1..];
    }
  }

  /** No class has a null payload and no class shares its name with a
      resource that has one: the condition for the output to be written. */
  predicate Emittable(classes: map<string, Option<Bytes>>, resources: map<string, Option<Bytes>>)
  {
    && (forall k :: k in classes ==> classes[k].Some?)
    && (forall k :: k in classes && k in resources ==> resources[k].None?)
  }

  /** A class name that a resource with a payload also carries is written
      twice. */
  lemma SharedName(classes: map<string, Option<Bytes>>, resources: map<string, Option<Bytes>>,
                   ck: seq<string>, rk: seq<string>, k: string)
    requires IsEnumeration(ck, classes) && IsEnumeration(rk, resources)
    requires k in classes && k in resources && resources[k].Some?
    ensures !Writable([], ClassItems(classes, ck) + ResourceItems(resources, rk))
  {
    var cs := ClassItems(classes, ck);
    var rs := ResourceItems(resources, rk);
    var items := cs + rs;
    ClassItemsFacts(classes, ck);
    ResourceItemsFacts(resources, rk);
    var i :| 0 <= i < |ck| && ck[i] == k;
    var it := Item(k, resources[k]);
    assert it in rs;
    var j :| 0 <= j < |rs| && rs[j] == it;
    assert items[i] == cs[i] && items[|cs| + j] == rs[j];
    var b := |cs| + j;
    assert 0 <= i < b < |items| && items[i].name == items[b].name;
    assert !Writable([], items);
  }

  lemma WritableEmittable(classes: map<string, Option<Bytes>>, resources: map<string, Option<Bytes>>,
                          ck: seq<string>, rk: seq<string>)
    requires IsEnumeration(ck, classes) && IsEnumeration(rk, resources)
    requires Writable([], ClassItems(classes, ck) + ResourceItems(resources, rk))
    ensures Emittable(classes, resources)
  {
    var cs := ClassItems(classes, ck);
    var rs := ResourceItems(resources, rk);
    var items := cs + rs;
    ClassItemsFacts(classes, ck);
    ResourceItemsFacts(resources, rk);
    forall k | k in classes ensures classes[k].Some? {
      var i :| 0 <= i < |ck| && ck[i] == k;
      assert items[i] == cs[i];
    }
    forall k | k in classes && k in resources ensures resources[k].None? {
      if resources[k].Some? {
        SharedName(classes, resources, ck, rk, k);
      }
    }
  }

  lemma EmittableWritable(classes: map<string, Option<Bytes>>, resources: map<string, Option<Bytes>>,
                          ck: seq<string>, rk: seq<string>)
    requires IsEnumeration(ck, classes) && IsEnumeration(rk, resources)
    requires Emittable(classes, resources)
    ensures Writable([], ClassItems(classes, ck) + ResourceItems(resources, rk))
  {
    var cs := ClassItems(classes, ck);
    var rs := ResourceItems(resources, rk);
    ClassItemsFacts(classes, ck);
    ResourceItemsFacts(resources, rk);
    assert Writable([], cs) by {
      forall i | 0 <= i < |cs| ensures cs[i].data.Some? && !NameWritten([], cs[i].name) {
        assert cs[i] == Item(ck[i], classes[ck[i]]);
      }
    }
    assert Writable([], rs) by {
      forall i | 0 <= i < |rs| ensures rs[i].data.Some? && !NameWritten([], rs[i].name) {
        assert rs[i] in rs;
      }
    }
    forall i, j | 0 <= i < |cs| && 0 <= j < |rs| ensures cs[i].name != rs[j].name {
      assert cs[i].name == ck[i] && ck[i] in classes;
      assert rs[j] in rs;
    }
    WritableConcat([], cs, rs);
  }

  /** Output succeeds exactly when the level is one `Deflater` accepts and
      the maps are emittable, whatever the iteration orders. */
  lemma OutputSucceeds(classes: map<string, Option<Bytes>>, resources: map<string, Option<Bytes>>,
                       ck: seq<string>, rk: seq<string>, level: int)
    requires IsEnumeration(ck, classes) && IsEnumeration(rk, resources)
    ensures Output(classes, resources, ck, rk, level).Ok? <==> ValidLevel(level) && Emittable(classes, resources)
    ensures !ValidLevel(level) ==> Output(classes, resources, ck, rk, level) == Err(IllegalArgument)
  {
    WriteAllResult([], ClassItems(classes, ck) + ResourceItems(resources, rk));
    if Writable([], ClassItems(classes, ck) + ResourceItems(resources, rk)) {
      WritableEmittable(classes, resources, ck, rk);
    }
    if Emittable(classes, resources) {
      EmittableWritable(classes, resources, ck, rk);
    }
  }

  /** The entries written from emittable maps: classes then resources. */
  lemma EntriesOfItems(classes: map<string, Option<Bytes>>, resources: map<string, Option<Bytes>>,
                       ck: seq<string>, rk: seq<string>)
    requires IsEnumeration(ck, classes) && IsEnumeration(rk, resources)
    requires Emittable(classes, resources)
    ensures Writable([], ClassItems(classes, ck) + ResourceItems(resources, rk))
    ensures var es := Materialize(ClassItems(classes, ck) + ResourceItems(resources, rk));
      && (forall w :: w in es <==>
            (w.name in classes && classes[w.name] == Some(w.data)) ||
            (w.name in resources && resources[w.name] == Some(w.data)))
      && (forall i :: 0 <= i < |es| ==> (i < |ck| <==> es[i].name in classes))
  {
    EmittableWritable(classes, resources, ck, rk);
    EntriesOrder(classes, resources, ck, rk);
    EntriesSound(classes, resources, ck, rk);
    EntriesComplete(classes, resources, ck, rk);
  }

  lemma EntriesOrder(classes: map<string, Option<Bytes>>, resources: map<string, Option<Bytes>>,
                     ck: seq<string>, rk: seq<string>)
    requires IsEnumeration(ck, classes) && IsEnumeration(rk, resources)
    requires Emittable(classes, resources)
    ensures Writable([], ClassItems(classes, ck) + ResourceItems(resources, rk))
    ensures var es := Materialize(ClassItems(classes, ck) + ResourceItems(resources, rk));
      forall i :: 0 <= i < |es| ==> (i < |ck| <==> es[i].name in classes)
  {
    var cs := ClassItems(classes, ck);
    var rs := ResourceItems(resources, rk);
    var items := cs + rs;
    EmittableWritable(classes, resources, ck, rk);
    ClassItemsFacts(classes, ck);
    ResourceItemsFacts(resources, rk);
    var es := Materialize(items);
    forall i | 0 <= i < |es| ensures (i < |ck| <==> es[i].name in classes) {
      if i >= |cs| {
        assert items[i] == rs[i - |cs|] && items[i] in rs;
      } else {
        assert items[i] == cs[i];
      }
    }
  }

  lemma EntriesSound(classes: map<string, Option<Bytes>>, resources: map<string, Option<Bytes>>,
                     ck: seq<string>, rk: seq<string>)
    requires IsEnumeration(ck, classes) && IsEnumeration(rk, resources)
    requires Emittable(classes, resources)
    ensures Writable([], ClassItems(classes, ck) + ResourceItems(resources, rk))
    ensures var es := Materialize(ClassItems(classes, ck) + ResourceItems(resources, rk));
      forall w :: w in es ==>
        (w.name in classes && classes[w.name] == Some(w.data)) ||
        (w.name in resources && resources[w.name] == Some(w.data))
  {
    var cs := ClassItems(classes, ck);
    var rs := ResourceItems(resources, rk);
    var items := cs + rs;
    EmittableWritable(classes, resources, ck, rk);
    ClassItemsFacts(classes, ck);
    ResourceItemsFacts(resources, rk);
    var es := Materialize(items);
    forall w: Written | w in es ensures
          (w.name in classes && classes[w.name] == Some(w.data)) ||
          (w.name in resources && resources[w.name] == Some(w.data))
    {
      var i :| 0 <= i < |es| && es[i] == w;
      if i >= |cs| {
        assert items[i] == rs[i - |cs|] && items[i] in rs;
      } else {
        assert items[i] == cs[i];
      }
    }
  }

  lemma EntriesComplete(classes: map<string, Option<Bytes>>, resources: map<string, Option<Bytes>>,
                        ck: seq<string>, rk: seq<string>)
    requires IsEnumeration(ck, classes) && IsEnumeration(rk, resources)
    requires Emittable(classes, resources)
    ensures Writable([], ClassItems(classes, ck) + ResourceItems(resources, rk))
    ensures var es := Materialize(ClassItems(classes, ck) + ResourceItems(resources, rk));
      forall w: Written ::
        ((w.name in classes && classes[w.name] == Some(w.data)) ||
         (w.name in resources && resources[w.name] == Some(w.data))) ==> w in es
  {
    EmittableWritable(classes, resources, ck, rk);
    var items := ClassItems(classes, ck) + ResourceItems(resources, rk);
    assert Payloads(items);
    forall w: Written | w.name in classes && classes[w.name] == Some(w.data) ensures w in Materialize(items) {
      ClassCovered(classes, resources, ck, rk, w);
    }
    forall w: Written | w.name in resources && resources[w.name] == Some(w.data) ensures w in Materialize(items) {
      ResourceCovered(classes, resources, ck, rk, w);
    }
  }

  /** Every item carries a payload. */
  predicate Payloads(items: seq<Item>)
  {
    forall j :: 0 <= j < |items| ==> items[j].data.Some?
  }

  /** An item with a payload in a list of such items is among their entries. */
  lemma MaterializeHas(items: seq<Item>, i: nat)
    requires Payloads(items)
    requires i < |items|
    ensures Written(items[i].name, items[i].data.value) in Materialize(items)
  {
    assert Materialize(items)[i] == Written(items[i].name, items[i].data.value);
  }

  lemma ClassCovered(classes: map<string, Option<Bytes>>, resources: map<string, Option<Bytes>>,
                     ck: seq<string>, rk: seq<string>, w: Written)
    requires IsEnumeration(ck, classes) && IsEnumeration(rk, resources)
    requires Payloads(ClassItems(classes, ck) + ResourceItems(resources, rk))
    requires w.name in classes && classes[w.name] == Some(w.data)
    ensures w in Materialize(ClassItems(classes, ck) + ResourceItems(resources, rk))
  {
    var cs := ClassItems(classes, ck);
    var items := cs + ResourceItems(resources, rk);
    var i := ClassItemAt(classes, ck, w);
    assert items[i] == Item(w.name, Some(w.data));
    MaterializeHas(items, i);
  }

  /** Where a class sits among the class items. */
  lemma ClassItemAt(classes: map<string, Option<Bytes>>, ck: seq<string>, w: Written) returns (i: nat)
    requires IsEnumeration(ck, classes)
    requires w.name in classes && classes[w.name] == Some(w.data)
    ensures i < |ClassItems(classes, ck)| && ClassItems(classes, ck)[i] == Item(w.name, Some(w.data))
  {
    ClassItemsFacts(classes, ck);
    i :| 0 <= i < |ck| && ck[i] == w.name;
  }

  lemma ResourceCovered(classes: map<string, Option<Bytes>>, resources: map<string, Option<Bytes>>,
                        ck: seq<string>, rk: seq<string>, w: Written)
    requires IsEnumeration(ck, classes) && IsEnumeration(rk, resources)
    requires Payloads(ClassItems(classes, ck) + ResourceItems(resources, rk))
    requires w.name in resources && resources[w.name] == Some(w.data)
    ensures w in Materialize(ClassItems(classes, ck) + ResourceItems(resources, rk))
  {
    var cs := ClassItems(classes, ck);
    var rs := ResourceItems(resources, rk);
    var items := cs + rs;
    var j := ResourceItemAt(resources, rk, w);
    assert items[|cs| + j] == Item(w.name, Some(w.data));
    MaterializeHas(items, |cs| + j);
  }

  /** Where a resource with a payload sits among the resource items. */
  lemma ResourceItemAt(resources: map<string, Option<Bytes>>, rk: seq<string>, w: Written) returns (j: nat)
    requires IsEnumeration(rk, resources)
    requires w.name in resources && resources[w.name] == Some(w.data)
    ensures j < |ResourceItems(resources, rk)| && ResourceItems(resources, rk)[j] == Item(w.name, Some(w.data))
  {
    ResourceItemsFacts(resources, rk);
    var it := Item(w.name, Some(w.data));
    assert it in ResourceItems(resources, rk);
    j :| 0 <= j < |ResourceItems(resources, rk)| && ResourceItems(resources, rk)[j] == it;
  }

  /** A successful output holds exactly the classes, under their own names,
      and the resources with a payload, each once; classes come first; the
      level is passed through. */
  lemma OutputEntries(classes: map<string, Option<Bytes>>, resources: map<string, Option<Bytes>>,
                      ck: seq<string>, rk: seq<string>, level: int)
    requires IsEnumeration(ck, classes) && IsEnumeration(rk, resources)
    requires Output(classes, resources, ck, rk, level).Ok?
    ensures var out := Output(classes, resources, ck, rk, level).value;
      && out.level == level
      && DistinctNames(out.entries)
      && (forall w :: w in out.entries <==>
            (w.name in classes && classes[w.name] == Some(w.data)) ||
            (w.name in resources && resources[w.name] == Some(w.data)))
      && (forall i :: 0 <= i < |out.entries| ==> (i < |ck| <==> out.entries[i].name in classes))
  {
    var items := ClassItems(classes, ck) + ResourceItems(resources, rk);
    OutputSucceeds(classes, resources, ck, rk, level);
    EmittableWritable(classes, resources, ck, rk);
    WriteAllResult([], items);
    var es := Materialize(items);
    assert [] + es == es;
    assert Output(classes, resources, ck, rk, level).value.entries == es;
    EntriesOfItems(classes, resources, ck, rk);
  }

  /** The maps a fresh manager holds after reading the entries `es`. */
  function Loaded(es: seq<JarEntry>): Maps<Option<Bytes>>
  {
    IngestUntilDuplicate(Maps(map[], map[]), es, SomeBytes).maps
  }

  /** Round trip: a fresh manager that reads an archive without repeated
      names writes it back out whenever the level is valid, and the output
      holds exactly the archive's readable files, each with its bytes. */
  lemma ReadThenOutput(es: seq<JarEntry>, ck: seq<string>, rk: seq<string>, level: int)
    requires NoRepeats<Option<Bytes>>(Maps(map[], map[]), es)
    requires IsEnumeration(ck, Loaded(es).classes) && IsEnumeration(rk, Loaded(es).resources)
    ensures Output(Loaded(es).classes, Loaded(es).resources, ck, rk, level).Ok? <==> ValidLevel(level)
    ensures Output(Loaded(es).classes, Loaded(es).resources, ck, rk, level).Ok? ==>
      forall w :: w in Output(Loaded(es).classes, Loaded(es).resources, ck, rk, level).value.entries <==>
        FirstReadable(es, w.name) == Some(w.data)
  {
    var empty: Maps<Option<Bytes>> := Maps(map[], map[]);
    IngestUntilDuplicateAgrees(empty, es, SomeBytes);
    IngestFirstWinsResult(empty, es, SomeBytes);
    var st := Loaded(es);
    assert Emittable(st.classes, st.resources);
    OutputSucceeds(st.classes, st.resources, ck, rk, level);
    if ValidLevel(level) {
      OutputEntries(st.classes, st.resources, ck, rk, level);
    }
  }

  class ClassManager {
    var fileName: Option<string>
    var classes: map<string, Option<Bytes>>
    var resources: map<string, Option<Bytes>>

    constructor()
      ensures fileName == None && classes == map[] && resources == map[]
    {
      fileName := None;
      classes := map[];
      resources := map[];
    }

    /** `readJarFile`: null is rejected, then a name not ending in ".jar";
        both before anything changes. The name is recorded before the archive
        is opened, so a failed open leaves the new name behind. Otherwise the
        entries are ingested in archive order until the first duplicate. */
    method ReadJarFile(f: Option<JarInput>) returns (s: Status)
      modifies this
      ensures f.None? ==> s == Thrown(NullPointer) && unchanged(this)
      ensures f.Some? && !EndsWith(f.value.name, ".jar") ==> s == Thrown(Runtime) && unchanged(this)
      ensures f.Some? && EndsWith(f.value.name, ".jar") ==>
        && fileName == Some(f.value.name)
        && (!Opens(f.value) ==> s == Thrown(Runtime) && classes == old(classes) && resources == old(resources))
        && (Opens(f.value) ==>
              && s == Normal
              && Maps(classes, resources) ==
                 IngestUntilDuplicate(Maps(old(classes), old(resources)), f.value.entries, SomeBytes).maps)
    {
      if f.None? {
        return Thrown(NullPointer);
      }
      var file := f.value;
      if !EndsWith(file.name, ".jar") {
        return Thrown(Runtime);
      }
      fileName := Some(file.name);
      if !Opens(file) {
        return Thrown(Runtime);
      }
      var es := file.entries;
      ghost var start := Maps(classes, resources);
      var i := 0;
      while i < |es|
        invariant 0 <= i <= |es|
        invariant fileName == Some(file.name)
        invariant IngestUntilDuplicate(start, es, SomeBytes) == IngestUntilDuplicate(Maps(classes, resources), es[i..], SomeBytes)
      {
        var e := es[i];
        assert es[i..][0] == e && es[i..][1..] == es[i + 1..];
        if !IsDirectoryEntry(e.name) && e.bytes.Some? {
          if IsClassName(e.name) {
            if e.name in classes {
              return Normal;
            }
            classes := classes[e.name := Some(e.bytes.value)];
          } else {
            if e.name in resources {
              return Normal;
            }
            resources := resources[e.name := Some(e.bytes.value)];
          }
        }
        i := i + 1;
      }
      s := Normal;
    }

    /** `applyChanges(IClassChange...)`: no changes, or no classes, changes
        nothing. Otherwise the chain runs on a copy and only its final map
        replaces `classes`; an exception leaves every field as it was. */
    method ApplyClassChanges(changes: Option<seq<Change<Option<Bytes>>>>) returns (s: Status, ghost orders: seq<seq<string>>)
      modifies this
      ensures fileName == old(fileName) && resources == old(resources)
      ensures changes.None? || changes.value == [] || old(classes) == map[] ==> s == Normal && classes == old(classes)
      ensures changes.Some? && changes.value != [] && old(classes) != map[] ==>
        && ValidOrders(old(classes), changes.value, orders)
        && match Chain(old(classes), changes.value, orders)
           case Ok(m) => s == Normal && classes == m
           case Err(e) => s == Thrown(e) && classes == old(classes)
    {
      orders := [];
      if changes.None? || changes.value == [] || classes == map[] {
        s := Normal;
        return;
      }
      var r;
      r, orders := ApplyChain(classes, changes.value);
      match r {
        case Ok(m) =>
          classes := m;
          s := Normal;
        case Err(e) =>
          s := Thrown(e);
      }
    }

    /** `applyChanges(IResourceChange...)`: the same fold on `resources`. */
    method ApplyResourceChanges(changes: Option<seq<Change<Option<Bytes>>>>) returns (s: Status, ghost orders: seq<seq<string>>)
      modifies this
      ensures fileName == old(fileName) && classes == old(classes)
      ensures changes.None? || changes.value == [] || old(resources) == map[] ==> s == Normal && resources == old(resources)
      ensures changes.Some? && changes.value != [] && old(resources) != map[] ==>
        && ValidOrders(old(resources), changes.value, orders)
        && match Chain(old(resources), changes.value, orders)
           case Ok(m) => s == Normal && resources == m
           case Err(e) => s == Thrown(e) && resources == old(resources)
    {
      orders := [];
      if changes.None? || changes.value == [] || resources == map[] {
        s := Normal;
        return;
      }
      var r;
      r, orders := ApplyChain(resources, changes.value);
      match r {
        case Ok(m) =>
          resources := m;
          s := Normal;
        case Err(e) =>
          s := Thrown(e);
      }
    }

    /** `outputFile()`: a view that reads this manager when it is used. */
    method OutputFile() returns (o: ClassManagerOutput)
      ensures fresh(o) && o.manager == this
    {
      o := new ClassManagerOutput(this);
    }

    /** `close()`: forget the name and empty both maps. */
    method Close()
      modifies this
      ensures fileName == None && classes == map[] && resources == map[]
    {
      fileName := None;
      classes := map[];
      resources := map[];
    }

    /** `getFileName()`: the name of the last file that passed the ".jar"
        check, or null before any read and after `close`. */
    function GetFileName(): (r: Option<string>)
      reads this
      ensures r == fileName
    {
      fileName
    }
  }

  /** The anonymous `IOutputFile` that `outputFile()` returns. It keeps a
      reference to its manager and reads the manager's fields only when
      asked, so it reflects every change made after it was created. */
  class ClassManagerOutput {
    const manager: ClassManager

    constructor(m: ClassManager)
      ensures manager == m
    {
      manager := m;
    }

    /** `getFileName()` delegates to the manager. */
    function GetFileName(): (r: Option<string>)
      reads this, manager
      ensures r == manager.fileName
    {
      manager.GetFileName()
    }

    /** `getFileInBytes(level)`: every class, then every resource with a
        payload, each visited in an iteration order left open here. */
    method GetFileInBytes(level: int) returns (r: Result<ZipOutput>, ghost ck: seq<string>, ghost rk: seq<string>)
      ensures IsEnumeration(ck, manager.classes) && IsEnumeration(rk, manager.resources)
      ensures r == Output(manager.classes, manager.resources, ck, rk, level)
    {
      var classes := manager.classes;
      var resources := manager.resources;
      var cks := KeysInSomeOrder(classes);
      var rks := KeysInSomeOrder(resources);
      ck, rk := cks, rks;
      if !ValidLevel(level) {
        r := Err(IllegalArgument);
        return;
      }
      WriteAllAppend([], ClassItems(classes, cks), ResourceItems(resources, rks));
      var written := WriteClasses(classes, cks);
      match written {
        case Err(e) =>
          r := Err(e);
        case Ok(ws) =>
          var all := WriteResources(ws, resources, rks);
          r := match all
            case Ok(entries) => Ok(ZipOutput(level, entries))
            case Err(e) => Err(e);
      }
    }
  }

  /** The loop over `classes.entrySet()`: write each class in turn, stopping
      at the first exception. */
  method WriteClasses(classes: map<string, Option<Bytes>>, ks: seq<string>) returns (r: Result<seq<Written>>)
    requires forall k <- ks :: k in classes
    ensures r == WriteAll([], ClassItems(classes, ks))
  {
    var ws: seq<Written> := [];
    var i := 0;
    while i < |ks|
      invariant 0 <= i <= |ks|
      invariant WriteAll([], ClassItems(classes, ks)) == WriteAll(ws, ClassItems(classes, ks[i..]))
    {
      var k := ks[i];
      assert ks[i..][0] == k && ks[i..][1..] == ks[i + 1..];
      if exists w <- ws :: w.name == k {
        return Err(Runtime);
      }
      if classes[k].None? {
        return Err(NullPointer);
      }
      ws := ws + [Written(k, classes[k].value)];
      i := i + 1;
    }
    r := Ok(ws);
  }

  /** The loop over `resources.entrySet()`: skip null payloads, write the
      others in turn, stopping at the first exception. */
  method WriteResources(ws0: seq<Written>, resources: map<string, Option<Bytes>>, ks: seq<string>) returns (r: Result<seq<Written>>)
    requires forall k <- ks :: k in resources
    ensures r == WriteAll(ws0, ResourceItems(resources, ks))
  {
    var ws := ws0;
    var i := 0;
    while i < |ks|
      invariant 0 <= i <= |ks|
      invariant WriteAll(ws0, ResourceItems(resources, ks)) == WriteAll(ws, ResourceItems(resources, ks[i..]))
    {
      var k := ks[i];
      assert ks[i..][0] == k && ks[i..][1..] == ks[i + 1..];
      if resources[k].Some? {
        ghost var rest := ResourceItems(resources, ks[i + 1..]);
        assert ResourceItems(resources, ks[i..]) == [Item(k, resources[k])] + rest;
        assert ([Item(k, resources[k])] + rest)[0] == Item(k, resources[k]);
        assert ([Item(k, resources[k])] + rest)[1..] == rest;
        if exists w <- ws :: w.name == k {
          return Err(Runtime);
        }
        assert WriteAll(ws, ResourceItems(resources, ks[i..])) == WriteAll(ws + [Written(k, resources[k].value)], rest);
        ws := ws + [Written(k, resources[k].value)];
      } else {
        assert ResourceItems(resources, ks[i..]) == [] + ResourceItems(resources, ks[i + 1..]);
        assert ResourceItems(resources, ks[i..]) == ResourceItems(resources, ks[i + 1..]);
      }
      i := i + 1;
    }
    r := Ok(ws);
  }
}
