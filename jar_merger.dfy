/** `org.omnimc.asm.merger.JarMerger`: folds several archives, in order, into
    one `name -> bytes` map where the first archive to supply a name keeps
    it, and picks the main attributes of the first archive that names a
    Main-Class (the `Main-Class` main attribute of the JAR File
    Specification). Later archives' in-memory manifests lose their
    Main-Class. Reading is parallel in the source; here each archive's
    entries are read in archive order. */
module Merger {
  import opened Wrappers
  import opened Text
  import opened Archive
  import opened Transform

  /** The key `Attributes.Name.MAIN_CLASS` stands for. */
  const MainClass: string := "Main-Class"

  /** The main attributes of a manifest (`java.util.jar.Attributes`), which
      `checkManifest` edits in place. */
  class Attributes {
    var values: map<string, string>

    constructor(vs: map<string, string>)
      ensures values == vs
    {
      values := vs;
    }
  }

  /** A `JarFile` handed to `mergeJars`: its entries in archive order and
      the main attributes of its manifest, null when it has none. */
  datatype JarSource = JarSource(entries: seq<JarEntry>, manifest: Attributes?)

  /** What the merger holds, with the contents of every main-attributes
      object involved (shared objects appear once). */
  datatype MergeState = MergeState(inputs: map<string, Bytes>, chosen: Attributes?,
                                   attrs: map<Attributes, map<string, string>>)

  /** Every source's main attributes are known to `attrs`. */
  predicate Covers(attrs: map<Attributes, map<string, string>>, srcs: seq<JarSource>)
  {
    forall i :: 0 <= i < |srcs| && srcs[i].manifest != null ==> srcs[i].manifest in attrs
  }

  /** `checkManifest(manifest)` on the main attributes `m`: none (no
      manifest) throws `NullPointerException`; without a Main-Class nothing
      changes; the first Main-Class seen is chosen, and every later one is
      removed from its attributes. */
  function Checked(st: MergeState, m: Attributes?): (r: Result<MergeState>)
    requires m != null ==> m in st.attrs
    ensures r.Err? <==> m == null
    ensures r.Err? ==> r.error == NullPointer
    ensures r.Ok? ==> r.value.inputs == st.inputs && r.value.attrs.Keys == st.attrs.Keys
    ensures r.Ok? ==> forall a <- st.attrs.Keys :: r.value.attrs[a].Keys <= st.attrs[a].Keys
    ensures r.Ok? ==> forall a <- st.attrs.Keys :: forall k <- r.value.attrs[a].Keys :: r.value.attrs[a][k] == st.attrs[a][k]
    ensures r.Ok? ==> forall a <- st.attrs.Keys :: forall k <- st.attrs[a].Keys :: k != MainClass ==> k in r.value.attrs[a]
    ensures r.Ok? && st.chosen != null ==> r.value.chosen == st.chosen
    ensures r.Ok? ==> (r.value.chosen != st.chosen <==> st.chosen == null && MainClass in st.attrs[m])
    ensures r.Ok? && MainClass in st.attrs[m] ==> r.value.chosen == m || MainClass !in r.value.attrs[m]
  {
    if m == null then Err(NullPointer)
    else if MainClass !in st.attrs[m] then Ok(st)
    else if st.chosen == null then Ok(st.(chosen := m))
    else Ok(st.(attrs := st.attrs[m := st.attrs[m] - {MainClass}]))
  }

  /** The outcome of reading one archive's entries into the map. */
  datatype Absorbed = Absorbed(inputs: map<string, Bytes>, status: Status)

  /** The entry loop of `mergeJars`: folders are skipped, a name already
      held is left alone (`putIfAbsent`), and an unreadable entry throws
      `RuntimeException`, keeping what was put before it. */
  function Absorb(inputs: map<string, Bytes>, es: seq<JarEntry>): (r: Absorbed)
    ensures r.status == Normal || r.status == Thrown(Runtime)
    ensures forall k <- inputs.Keys :: k in r.inputs && r.inputs[k] == inputs[k]
    decreases |es|
  {
    if es == [] then Absorbed(inputs, Normal)
    else
      var e := es[0];
      if IsDirectoryEntry(e.name) then Absorb(inputs, es[1..])
      else if e.bytes.None? then Absorbed(inputs, Thrown(Runtime))
      else Absorb(if e.name in inputs then inputs else inputs[e.name := e.bytes.value], es[1..])
  }

  /** Every non-folder entry can be read. */
  predicate Readable(es: seq<JarEntry>)
  {
    forall i :: 0 <= i < |es| && !IsDirectoryEntry(es[i].name) ==> es[i].bytes.Some?
  }

  /** Reading an archive throws exactly when one of its non-folder entries
      cannot be read; otherwise a name is held afterwards exactly when it
      was held before or the archive has it, and an old value is kept while
      a new one is the archive's first entry of that name. */
  lemma {:induction false} AbsorbResult(inputs: map<string, Bytes>, es: seq<JarEntry>)
    ensures Absorb(inputs, es).status == Normal <==> Readable(es)
    ensures Readable(es) ==> forall k ::
      && (k in Absorb(inputs, es).inputs <==> k in inputs || FirstReadable(es, k).Some?)
      && (k in Absorb(inputs, es).inputs ==>
            Absorb(inputs, es).inputs[k] == if k in inputs then inputs[k] else FirstReadable(es, k).value)
    decreases |es|
  {
    if es != [] {
      var e := es[0];
      var rest := es[1..];
      assert forall i :: 0 < i < |es| ==> es[i] == rest[i - 1];
      if IsDirectoryEntry(e.name) {
        AbsorbResult(inputs, rest);
      } else if e.bytes.Some? {
        AbsorbResult(if e.name in inputs then inputs else inputs[e.name := e.bytes.value], rest);
      }
    }
  }

  /** The outcome of `mergeJars`. */
  datatype MergeOutcome = MergeOutcome(state: MergeState, status: Status)

  /** The loop of `mergeJars` over the sources, in order: check the
      manifest, then read the entries; the first exception ends the merge
      and nothing done before it is undone. The map never loses or changes
      an entry, and a chosen Main-Class is never replaced. */
  function MergeAll(st: MergeState, srcs: seq<JarSource>): (r: MergeOutcome)
    requires Covers(st.attrs, srcs)
    ensures r.status == Normal || r.status == Thrown(NullPointer) || r.status == Thrown(Runtime)
    ensures forall k <- st.inputs.Keys :: k in r.state.inputs && r.state.inputs[k] == st.inputs[k]
    ensures st.chosen != null ==> r.state.chosen == st.chosen
    ensures r.state.attrs.Keys == st.attrs.Keys
    decreases |srcs|
  {
    if srcs == [] then MergeOutcome(st, Normal)
    else match Checked(st, srcs[0].manifest)
      case Err(e) => MergeOutcome(st, Thrown(e))
      case Ok(st1) =>
        var a := Absorb(st1.inputs, srcs[0].entries);
        var st2 := st1.(inputs := a.inputs);
        if a.status.Thrown? then MergeOutcome(st2, a.status)
        else
          assert Covers(st2.attrs, srcs[1..]) by {
            forall i | 0 <= i < |srcs[1..]| && srcs[1..][i].manifest != null ensures srcs[1..][i].manifest in st2.attrs {
              assert srcs[1..][i] == srcs[i + 1];
            }
          }
          MergeAll(st2, srcs[1..])
  }

  /** `mergeJars(sources...)`: a null array throws `NullPointerException`
      and an empty one `IllegalStateException`; one source or more are
      merged. */
  function Merge(st: MergeState, inputs: Option<seq<JarSource>>): (r: MergeOutcome)
    requires inputs.Some? ==> Covers(st.attrs, inputs.value)
    ensures inputs == Some([]) <==> r.status == Thrown(IllegalState)
    ensures inputs.None? ==> r == MergeOutcome(st, Thrown(NullPointer))
    ensures r.status.Thrown? && r.status.exception == IllegalState ==> r.state == st
  {
    if inputs.None? then MergeOutcome(st, Thrown(NullPointer))
    else if |inputs.value| < 1 then MergeOutcome(st, Thrown(IllegalState))
    else MergeAll(st, inputs.value)
  }

  /** Every source's entries, one archive after the other. */
  function AllEntries(srcs: seq<JarSource>): seq<JarEntry>
    decreases |srcs|
  {
    if srcs == [] then [] else srcs[0].entries + AllEntries(srcs[1..])
  }

  /** The sources' main attributes, in order. */
  function ManifestSeq(srcs: seq<JarSource>): (r: seq<Attributes?>)
    ensures |r| == |srcs| && forall i :: 0 <= i < |srcs| ==> r[i] == srcs[i].manifest
  {
    seq(|srcs|, i requires 0 <= i < |srcs| => srcs[i].manifest)
  }

  /** Sources processed in two calls are merged as in one: calling
      `mergeJars` again without `close` accumulates. */
  lemma {:induction false} MergeAllAppend(st: MergeState, a: seq<JarSource>, b: seq<JarSource>)
    requires Covers(st.attrs, a + b)
    ensures Covers(st.attrs, a) && Covers(MergeAll(st, a).state.attrs, b)
    ensures MergeAll(st, a + b) ==
      if MergeAll(st, a).status.Thrown? then MergeAll(st, a) else MergeAll(MergeAll(st, a).state, b)
    decreases |a|
  {
    assert Covers(st.attrs, a) && Covers(st.attrs, b) by {
      forall i | 0 <= i < |a| ensures a[i] == (a + b)[i] {}
      forall i | 0 <= i < |b| ensures b[i] == (a + b)[|a| + i] {}
    }
    if a == [] {
      assert a + b == b;
    } else {
      assert (a + b)[0] == a[0] && (a + b)[1..] == a[1..] + b;
      match Checked(st, a[0].manifest)
      case Err(e) =>
      case Ok(st1) =>
        var ab := Absorb(st1.inputs, a[0].entries);
        if ab.status == Normal {
          MergeAllAppend(st1.(inputs := ab.inputs), a[1..], b);
        }
    }
  }

  /** First wins across sources: after a merge without exception, a name
      is held exactly when it was held before or some source has it, and a
      new name holds the bytes of its first occurrence across the sources,
      in order. */
  lemma {:induction false} MergeAllFirstWins(st: MergeState, srcs: seq<JarSource>)
    requires Covers(st.attrs, srcs)
    requires MergeAll(st, srcs).status == Normal
    ensures var r := MergeAll(st, srcs).state.inputs;
      forall k ::
        && (k in r <==> k in st.inputs || FirstReadable(AllEntries(srcs), k).Some?)
        && (k in r ==> r[k] == if k in st.inputs then st.inputs[k] else FirstReadable(AllEntries(srcs), k).value)
    decreases |srcs|
  {
    if srcs != [] {
      var st1 := Checked(st, srcs[0].manifest).value;
      var a := Absorb(st1.inputs, srcs[0].entries);
      var st2 := st1.(inputs := a.inputs);
      AbsorbResult(st1.inputs, srcs[0].entries);
      MergeAllFirstWins(st2, srcs[1..]);
      forall k {
        FirstReadableAppend(srcs[0].entries, AllEntries(srcs[1..]), k);
      }
    }
  }

  /** Reference definition of the Main-Class choice: the main attributes of
      the first source whose manifest names a Main-Class, or null. */
  function FirstWithMain(attrs: map<Attributes, map<string, string>>, srcs: seq<JarSource>): Attributes?
    requires Covers(attrs, srcs)
    decreases |srcs|
  {
    if srcs == [] then null
    else if srcs[0].manifest != null && MainClass in attrs[srcs[0].manifest] then srcs[0].manifest
    else
      assert Covers(attrs, srcs[1..]) by {
        forall i | 0 <= i < |srcs[1..]| && srcs[1..][i].manifest != null ensures srcs[1..][i].manifest in attrs {
          assert srcs[1..][i] == srcs[i + 1];
        }
      }
      FirstWithMain(attrs, srcs[1..])
  }

  /** With nothing chosen yet, a merge without exception chooses the main
      attributes of the first source naming a Main-Class. */
  lemma {:induction false} MergeAllChoosesFirst(st: MergeState, srcs: seq<JarSource>)
    requires Covers(st.attrs, srcs) && st.chosen == null
    requires MergeAll(st, srcs).status == Normal
    ensures MergeAll(st, srcs).state.chosen == FirstWithMain(st.attrs, srcs)
    decreases |srcs|
  {
    if srcs != [] {
      var m := srcs[0].manifest;
      var st1 := Checked(st, m).value;
      var st2 := st1.(inputs := Absorb(st1.inputs, srcs[0].entries).inputs);
      if MainClass !in st.attrs[m] {
        assert st2.attrs == st.attrs;
        MergeAllChoosesFirst(st2, srcs[1..]);
      }
    }
  }

  /** Every listed main-attributes object other than the chosen one lacks
      a Main-Class. */
  predicate Stripped(attrs: map<Attributes, map<string, string>>, chosen: Attributes?, ms: seq<Attributes?>)
  {
    forall i :: 0 <= i < |ms| && ms[i] != null && ms[i] in attrs && ms[i] != chosen ==> MainClass !in attrs[ms[i]]
  }

  /** After a merge without exception, only the chosen main attributes may
      still name a Main-Class: every other source has lost its own. */
  lemma {:induction false} MergeAllStrips(st: MergeState, srcs: seq<JarSource>, prior: seq<Attributes?>)
    requires Covers(st.attrs, srcs)
    requires Stripped(st.attrs, st.chosen, prior)
    requires MergeAll(st, srcs).status == Normal
    ensures Stripped(MergeAll(st, srcs).state.attrs, MergeAll(st, srcs).state.chosen, prior + ManifestSeq(srcs))
    decreases |srcs|
  {
    if srcs == [] {
      assert prior + ManifestSeq(srcs) == prior;
    } else {
      var m := srcs[0].manifest;
      var st1 := Checked(st, m).value;
      var st2 := st1.(inputs := Absorb(st1.inputs, srcs[0].entries).inputs);
      var prior' := prior + [m];
      assert Stripped(st2.attrs, st2.chosen, prior') by {
        forall i | 0 <= i < |prior'| && prior'[i] != null && prior'[i] in st2.attrs && prior'[i] != st2.chosen
          ensures MainClass !in st2.attrs[prior'[i]]
        {
          if i < |prior| {
            assert prior'[i] == prior[i];
            if st1.chosen != st.chosen {
              assert st.chosen == null;
            }
          }
        }
      }
      MergeAllStrips(st2, srcs[1..], prior');
      assert prior' + ManifestSeq(srcs[1..]) == prior + ManifestSeq(srcs);
    }
  }

  /** The same archive passed twice: its main attributes are chosen by the
      first pass and lose their Main-Class in the second, since the object
      is shared. */
  lemma SameSourceTwice(st: MergeState, src: JarSource)
    requires st.chosen == null && src.manifest != null && src.manifest in st.attrs
    requires MainClass in st.attrs[src.manifest] && Readable(src.entries)
    ensures Covers(st.attrs, [src, src])
    ensures MergeAll(st, [src, src]).status == Normal
    ensures MergeAll(st, [src, src]).state.chosen == src.manifest
    ensures MainClass !in MergeAll(st, [src, src]).state.attrs[src.manifest]
  {
    var m := src.manifest;
    assert Covers(st.attrs, [src, src]);
    var st1 := st.(chosen := m);
    assert Checked(st, m) == Ok(st1);
    var a1 := Absorb(st1.inputs, src.entries);
    AbsorbResult(st1.inputs, src.entries);
    assert a1.status == Normal;
    var st2 := st1.(inputs := a1.inputs);
    var st3 := st2.(attrs := st2.attrs[m := st2.attrs[m] - {MainClass}]);
    assert Checked(st2, m) == Ok(st3);
    var a2 := Absorb(st3.inputs, src.entries);
    AbsorbResult(st3.inputs, src.entries);
    assert a2.status == Normal;
    var st4 := st3.(inputs := a2.inputs);
    assert [src][1..] == [];
    assert MergeAll(st2, [src]) == MergeOutcome(st4, Normal);
    assert [src, src][1..] == [src];
    assert MergeAll(st, [src, src]) == MergeAll(st2, [src]);
  }

  /** What `getFileInBytes(level)` of the merged output produces, visiting
      the map in the order `ks`: every held entry, under its name and with
      its bytes. The chosen Main-Class plays no part. */
  function MergedOutput(inputs: map<string, Bytes>, ks: seq<string>, level: int): Result<ZipOutput>
    requires IsEnumeration(ks, inputs)
  {
    if !ValidLevel(level) then Err(IllegalArgument)
    else match WriteAll([], Lift(ResourceEntries(inputs, ks)))
      case Ok(ws) => Ok(ZipOutput(level, ws))
      case Err(e) => Err(e)
  }

  /** The merged output never fails on a write: it succeeds exactly when
      the level is valid, and then writes each held entry exactly once. */
  lemma MergedOutputEntries(inputs: map<string, Bytes>, ks: seq<string>, level: int)
    requires IsEnumeration(ks, inputs)
    ensures MergedOutput(inputs, ks, level).Ok? <==> ValidLevel(level)
    ensures MergedOutput(inputs, ks, level).Ok? ==>
      && DistinctNames(MergedOutput(inputs, ks, level).value.entries)
      && forall w :: w in MergedOutput(inputs, ks, level).value.entries <==> w.name in inputs && inputs[w.name] == w.data
  {
    ResourceEntriesMembership(inputs, ks);
    WriteAllLifted(ResourceEntries(inputs, ks));
  }

  /** Merge-then-output: merging readable sources into an empty merger and
      writing the result produces exactly the first occurrence of every
      name across the sources. */
  lemma MergeThenOutput(st: MergeState, srcs: seq<JarSource>, ks: seq<string>, level: int)
    requires st.inputs == map[] && Covers(st.attrs, srcs)
    requires MergeAll(st, srcs).status == Normal
    requires IsEnumeration(ks, MergeAll(st, srcs).state.inputs)
    requires ValidLevel(level)
    ensures MergedOutput(MergeAll(st, srcs).state.inputs, ks, level).Ok?
    ensures forall w :: w in MergedOutput(MergeAll(st, srcs).state.inputs, ks, level).value.entries <==>
      FirstReadable(AllEntries(srcs), w.name) == Some(w.data)
  {
    MergeAllFirstWins(st, srcs);
    MergedOutputEntries(MergeAll(st, srcs).state.inputs, ks, level);
  }

  /** The main attributes of the sources. */
  function Manifests(srcs: seq<JarSource>): set<Attributes>
  {
    set i | 0 <= i < |srcs| && srcs[i].manifest != null :: srcs[i].manifest
  }

  /** The current contents of the main-attributes objects `ms`. */
  function AttrValues(ms: set<Attributes>): (r: map<Attributes, map<string, string>>)
    reads ms
    ensures r.Keys == ms
  {
    map a | a in ms :: a.values
  }

  /** `new JarMerger(name)`: null throws `NullPointerException`, a name not
      ending in ".jar" throws `IllegalArgumentException`; otherwise an
      empty merger with that name. */
  method NewJarMerger(name: Option<string>) returns (r: Result<JarMerger>)
    ensures name.None? ==> r == Err(NullPointer)
    ensures name.Some? && !EndsWith(name.value, ".jar") ==> r == Err(IllegalArgument)
    ensures name.Some? && EndsWith(name.value, ".jar") ==>
      r.Ok? && fresh(r.value) && r.value.mergedJarName == name.value &&
      r.value.fileInputs == map[] && r.value.chosenManifestAttr == null
  {
    if name.None? {
      return Err(NullPointer);
    }
    if !EndsWith(name.value, ".jar") {
      return Err(IllegalArgument);
    }
    var m := new JarMerger(name.value);
    r := Ok(m);
  }

  class JarMerger {
    var fileInputs: map<string, Bytes>
    const mergedJarName: string
    var chosenManifestAttr: Attributes?

    /** The constructor past its two checks, which `NewJarMerger` makes. */
    constructor(name: string)
      requires EndsWith(name, ".jar")
      ensures mergedJarName == name && fileInputs == map[] && chosenManifestAttr == null
    {
      mergedJarName := name;
      fileInputs := map[];
      chosenManifestAttr := null;
    }

    /** The merger's state, with the contents of the objects `ms`. */
    function Snapshot(ms: set<Attributes>): MergeState
      reads this, ms
    {
      MergeState(fileInputs, chosenManifestAttr, AttrValues(ms))
    }

    /** `mergeJars(sources...)`: as `Merge` says, the main attributes of the
        sources being edited in place. */
    method MergeJars(inputs: Option<seq<JarSource>>) returns (s: Status)
      modifies this, if inputs.Some? then Manifests(inputs.value) else {}
      ensures inputs.Some? ==> Covers(AttrValues(Manifests(inputs.value)), inputs.value)
      ensures inputs.None? ==> s == Thrown(NullPointer) && unchanged(this)
      ensures inputs.Some? ==>
        Merge(old(Snapshot(Manifests(inputs.value))), inputs) == MergeOutcome(Snapshot(Manifests(inputs.value)), s)
    {
      if inputs.None? {
        return Thrown(NullPointer);
      }
      var srcs := inputs.value;
      ghost var ms := Manifests(srcs);
      assert Covers(AttrValues(ms), srcs) by {
        forall i | 0 <= i < |srcs| && srcs[i].manifest != null ensures srcs[i].manifest in ms {}
      }
      if |srcs| < 1 {
        return Thrown(IllegalState);
      }
      ghost var start := Snapshot(ms);
      var i := 0;
      while i < |srcs|
        invariant 0 <= i <= |srcs|
        invariant Covers(AttrValues(ms), srcs[i..])
        invariant MergeAll(start, srcs) == MergeAll(Snapshot(ms), srcs[i..])
      {
        var src := srcs[i];
        assert srcs[i..][0] == src && srcs[i..][1..] == srcs[i + 1..];
        assert src.manifest != null ==> src.manifest in ms;
        ghost var before := Snapshot(ms);
        var checked := CheckManifest(src.manifest, ms);
        if checked.Thrown? {
          return checked;
        }
        var read := MergeEntries(src.entries);
        ghost var rest := srcs[i + 1..];
        assert Covers(AttrValues(ms), rest) by {
          forall j | 0 <= j < |rest| && rest[j].manifest != null ensures rest[j].manifest in ms {
            assert rest[j] == srcs[i + 1 + j];
          }
        }
        if read.Thrown? {
          return read;
        }
        i := i + 1;
      }
      s := Normal;
    }

    /** `checkManifest(manifest)` on the main attributes `manifest` (null
        when the archive has no manifest), as `Checked` says. */
    method CheckManifest(manifest: Attributes?, ghost ms: set<Attributes>) returns (s: Status)
      requires manifest != null ==> manifest in ms
      modifies this, manifest
      ensures match Checked(old(Snapshot(ms)), manifest)
        case Err(e) => s == Thrown(e) && Snapshot(ms) == old(Snapshot(ms))
        case Ok(st) => s == Normal && Snapshot(ms) == st
    {
      if manifest == null {
        return Thrown(NullPointer);
      }
      if MainClass !in manifest.values {
        return Normal;
      }
      if chosenManifestAttr == null {
        chosenManifestAttr := manifest;
      } else {
        manifest.values := manifest.values - {MainClass};
        assert AttrValues(ms) == old(AttrValues(ms))[manifest := old(manifest.values) - {MainClass}];
      }
      s := Normal;
    }

    /** The entry loop for one archive, as `Absorb` says. */
    method MergeEntries(es: seq<JarEntry>) returns (s: Status)
      modifies this
      ensures chosenManifestAttr == old(chosenManifestAttr)
      ensures Absorb(old(fileInputs), es) == Absorbed(fileInputs, s)
    {
      var i := 0;
      while i < |es|
        invariant 0 <= i <= |es|
        invariant chosenManifestAttr == old(chosenManifestAttr)
        invariant Absorb(old(fileInputs), es) == Absorb(fileInputs, es[i..])
      {
        var e := es[i];
        assert es[i..][0] == e && es[i..][1..] == es[i + 1..];
        if !EndsWith(e.name, "/") {
          if e.bytes.None? {
            return Thrown(Runtime);
          }
          if e.name !in fileInputs {
            fileInputs := fileInputs[e.name := e.bytes.value];
          }
        }
        i := i + 1;
      }
      s := Normal;
    }

    /** `outputFile()`: a view of this merger. */
    method OutputFile() returns (o: MergedJar)
      ensures fresh(o) && o.merger == this
    {
      o := new MergedJar(this);
    }

    /** `close()`: drop every entry and the chosen Main-Class. */
    method Close()
      modifies this
      ensures fileInputs == map[] && chosenManifestAttr == null
    {
      fileInputs := map[];
      chosenManifestAttr := null;
    }
  }

  /** The anonymous `IOutputFile` of `outputFile()`. */
  class MergedJar {
    const merger: JarMerger

    constructor(m: JarMerger)
      ensures merger == m
    {
      merger := m;
    }

    /** `getFileName()` is the merged name given to the constructor. */
    function GetFileName(): (r: string)
      ensures r == merger.mergedJarName
    {
      merger.mergedJarName
    }

    /** `getFileInBytes(level)`: as `MergedOutput` says on the entries held
        now, visited in an order left open here. */
    method GetFileInBytes(level: int) returns (r: Result<ZipOutput>, ghost ks: seq<string>)
      ensures IsEnumeration(ks, merger.fileInputs)
      ensures r == MergedOutput(merger.fileInputs, ks, level)
    {
      var inputs := merger.fileInputs;
      var order := KeysInSomeOrder(inputs);
      ks := order;
      if !ValidLevel(level) {
        return Err(IllegalArgument), ks;
      }
      var written := WriteEntries([], inputs, order);
      r := match written
        case Ok(ws) => Ok(ZipOutput(level, ws))
        case Err(e) => Err(e);
    }
  }
}
