/** JAR archives as the managers see them: an input archive is its entries in
    archive order, ingestion files each entry into a class map or a resource
    map, and an output archive is the sequence of entries a `ZipOutputStream`
    was given. ZIP bytes and compression are not modelled. */
module Archive {
  import opened Wrappers
  import opened Text
  import opened Transform

  type Bytes = seq<bv8>

  /** One entry of an input archive. `bytes` is None when reading the entry
      fails with an `IOException`. */
  datatype JarEntry = JarEntry(name: string, bytes: Option<Bytes>)

  /** A `java.io.File` handed to a manager: its name, whether it is a
      directory, whether `new JarFile(file)` succeeds on it, and its entries. */
  datatype JarInput = JarInput(name: string, isDirectory: bool, opens: bool, entries: seq<JarEntry>)

  /** `new JarFile(file)` succeeds: never for a directory. */
  predicate Opens(f: JarInput)
  {
    !f.isDirectory && f.opens
  }

  /** Entry names ending in "/" are folders and are never read. */
  predicate IsDirectoryEntry(name: string)
  {
    EndsWith(name, "/")
  }

  /** An entry is filed as a class when its name contains ".class" anywhere. */
  predicate IsClassName(name: string)
  {
    Contains(name, ".class")
  }

  /** An entry that ingestion files somewhere: not a folder, and readable. */
  predicate Ingestible(e: JarEntry)
  {
    !IsDirectoryEntry(e.name) && e.bytes.Some?
  }

  /** Reference definition of "first occurrence": the bytes of the first
      ingestible entry called `name`, if there is one. */
  function FirstReadable(es: seq<JarEntry>, name: string): (r: Option<Bytes>)
    ensures r.Some? <==> exists i :: 0 <= i < |es| && Ingestible(es[i]) && es[i].name == name
    ensures r.Some? ==> exists i :: 0 <= i < |es| && Ingestible(es[i]) && es[i].name == name && es[i].bytes == r
    decreases |es|
  {
    if es == [] then None
    else if Ingestible(es[0]) && es[0].name == name then es[0].bytes
    else
      var r := FirstReadable(es[1..], name);
      assert forall i :: 0 < i < |es| ==> es[i] == es[1..][i - 1];
      r
  }

  /** A manager's two maps. */
  datatype Maps<V> = Maps(classes: map<string, V>, resources: map<string, V>)

  /** The map an entry called `name` belongs to already holds that name. */
  predicate Holds<V>(st: Maps<V>, name: string)
  {
    if IsClassName(name) then name in st.classes else name in st.resources
  }

  /** File `v` under `name` in the map its name selects. */
  function Put<V>(st: Maps<V>, name: string, v: V): Maps<V>
  {
    if IsClassName(name) then st.(classes := st.classes[name := v])
    else st.(resources := st.resources[name := v])
  }

  lemma HoldsPut<V>(st: Maps<V>, name: string, v: V, k: string)
    ensures Holds(Put(st, name, v), k) <==> Holds(st, k) || k == name
  {
  }

  /** First-wins ingestion (`putIfAbsent`), in archive order: folders and
      unreadable entries are skipped, and a name already held is left alone.
      `wrap` turns the bytes into the stored value. */
  function IngestFirstWins<V>(st: Maps<V>, es: seq<JarEntry>, wrap: Bytes -> V): Maps<V>
    decreases |es|
  {
    if es == [] then st
    else
      var e := es[0];
      if !Ingestible(e) || Holds(st, e.name) then IngestFirstWins(st, es[1..], wrap)
      else IngestFirstWins(Put(st, e.name, wrap(e.bytes.value)), es[1..], wrap)
  }

  /** Ingestion that stores the bytes read as they are. */
  function Same(b: Bytes): Bytes
  {
    b
  }

  /** The maps a fresh first-wins reader holds after reading the entries `es`. */
  function Loaded(es: seq<JarEntry>): Maps<Bytes>
  {
    IngestFirstWins(Maps(map[], map[]), es, Same)
  }

  /** The outcome of ingestion that may stop early. */
  datatype Ingest<V> = Ingest(maps: Maps<V>, stopped: bool)

  /** Ingestion that returns from the whole read at the first ingestible entry
      whose name its map already holds: that entry and all later ones are
      not ingested. */
  function IngestUntilDuplicate<V>(st: Maps<V>, es: seq<JarEntry>, wrap: Bytes -> V): Ingest<V>
    decreases |es|
  {
    if es == [] then Ingest(st, false)
    else
      var e := es[0];
      if !Ingestible(e) then IngestUntilDuplicate(st, es[1..], wrap)
      else if Holds(st, e.name) then Ingest(st, true)
      else IngestUntilDuplicate(Put(st, e.name, wrap(e.bytes.value)), es[1..], wrap)
  }

  /** First-wins ingestion, characterised entry by entry: a name is in the
      class map afterwards exactly when it was there before, or it contains
      ".class" and the archive has an ingestible entry of that name; an old
      value is never replaced, and a new one is the first such entry's bytes.
      Likewise for resources and names without ".class". */
  lemma {:induction false} IngestFirstWinsResult<V>(st: Maps<V>, es: seq<JarEntry>, wrap: Bytes -> V)
    ensures var r := IngestFirstWins(st, es, wrap);
      forall k ::
        && (k in r.classes <==> k in st.classes || (IsClassName(k) && FirstReadable(es, k).Some?))
        && (k in r.classes ==>
              r.classes[k] == if k in st.classes then st.classes[k] else wrap(FirstReadable(es, k).value))
        && (k in r.resources <==> k in st.resources || (!IsClassName(k) && FirstReadable(es, k).Some?))
        && (k in r.resources ==>
              r.resources[k] == if k in st.resources then st.resources[k] else wrap(FirstReadable(es, k).value))
    decreases |es|
  {
    if es != [] {
      var e := es[0];
      if !Ingestible(e) || Holds(st, e.name) {
        IngestFirstWinsResult(st, es[1..], wrap);
      } else {
        IngestFirstWinsResult(Put(st, e.name, wrap(e.bytes.value)), es[1..], wrap);
      }
    }
  }

  /** Every ingestible entry is new to its map and to every later entry. */
  predicate NoRepeats<V>(st: Maps<V>, es: seq<JarEntry>)
  {
    && (forall i :: 0 <= i < |es| && Ingestible(es[i]) ==> !Holds(st, es[i].name))
    && (forall i, j :: 0 <= i < j < |es| && Ingestible(es[i]) && Ingestible(es[j]) ==> es[i].name != es[j].name)
  }

  lemma NoRepeatsStep<V>(st: Maps<V>, es: seq<JarEntry>, v: V)
    requires es != []
    ensures !Ingestible(es[0]) ==> (NoRepeats(st, es) <==> NoRepeats(st, es[1..]))
    ensures Ingestible(es[0]) && !Holds(st, es[0].name) ==>
      (NoRepeats(st, es) <==> NoRepeats(Put(st, es[0].name, v), es[1..]))
  {
    var rest := es[1..];
    assert forall i :: 0 < i < |es| ==> es[i] == rest[i - 1];
    if Ingestible(es[0]) && !Holds(st, es[0].name) {
      var st' := Put(st, es[0].name, v);
      forall k ensures Holds(st', k) <==> Holds(st, k) || k == es[0].name {
        HoldsPut(st, es[0].name, v, k);
      }
      if NoRepeats(st', rest) {
        forall i, j | 0 <= i < j < |es| && Ingestible(es[i]) && Ingestible(es[j])
          ensures es[i].name != es[j].name
        {
          if i > 0 {
            assert rest[i - 1] == es[i] && rest[j - 1] == es[j];
          } else {
            assert rest[j - 1] == es[j];
          }
        }
      }
      if NoRepeats(st, es) {
        forall i | 0 <= i < |rest| && Ingestible(rest[i]) ensures !Holds(st', rest[i].name) {
          assert es[i + 1] == rest[i];
          assert es[0].name != es[i + 1].name;
        }
        forall i, j | 0 <= i < j < |rest| && Ingestible(rest[i]) && Ingestible(rest[j])
          ensures rest[i].name != rest[j].name
        {
          assert es[i + 1] == rest[i] && es[j + 1] == rest[j];
        }
      }
    }
  }

  /** Ingestion that stops at a duplicate stops exactly when the archive
      repeats a name, or brings a name its map already holds. */
  lemma {:induction false} IngestUntilDuplicateStops<V>(st: Maps<V>, es: seq<JarEntry>, wrap: Bytes -> V)
    ensures IngestUntilDuplicate(st, es, wrap).stopped <==> !NoRepeats(st, es)
    decreases |es|
  {
    if es != [] {
      var e := es[0];
      if !Ingestible(e) {
        NoRepeatsStep(st, es, wrap([]));
        IngestUntilDuplicateStops(st, es[1..], wrap);
      } else if !Holds(st, e.name) {
        var v := wrap(e.bytes.value);
        NoRepeatsStep(st, es, v);
        IngestUntilDuplicateStops(Put(st, e.name, v), es[1..], wrap);
      }
    }
  }

  /** Ingestion that stops at a duplicate never removes or replaces what the
      maps held, and each name it adds lands in the map its name selects,
      with the bytes of the first ingestible entry of that name. */
  lemma {:induction false} IngestUntilDuplicateGrows<V>(st: Maps<V>, es: seq<JarEntry>, wrap: Bytes -> V)
    ensures var r := IngestUntilDuplicate(st, es, wrap).maps;
      && (forall k :: k in st.classes ==> k in r.classes && r.classes[k] == st.classes[k])
      && (forall k :: k in st.resources ==> k in r.resources && r.resources[k] == st.resources[k])
      && (forall k :: k in r.classes && k !in st.classes ==>
            IsClassName(k) && FirstReadable(es, k).Some? && r.classes[k] == wrap(FirstReadable(es, k).value))
      && (forall k :: k in r.resources && k !in st.resources ==>
            !IsClassName(k) && FirstReadable(es, k).Some? && r.resources[k] == wrap(FirstReadable(es, k).value))
    decreases |es|
  {
    if es != [] {
      var e := es[0];
      if !Ingestible(e) {
        IngestUntilDuplicateGrows(st, es[1..], wrap);
      } else if !Holds(st, e.name) {
        IngestUntilDuplicateGrows(Put(st, e.name, wrap(e.bytes.value)), es[1..], wrap);
      }
    }
  }

  /** On an archive without repeats, stopping at duplicates never triggers
      and ingestion is the first-wins one. */
  lemma {:induction false} IngestUntilDuplicateAgrees<V>(st: Maps<V>, es: seq<JarEntry>, wrap: Bytes -> V)
    requires NoRepeats(st, es)
    ensures IngestUntilDuplicate(st, es, wrap) == Ingest(IngestFirstWins(st, es, wrap), false)
    decreases |es|
  {
    if es != [] {
      var e := es[0];
      if !Ingestible(e) {
        NoRepeatsStep(st, es, wrap([]));
        IngestUntilDuplicateAgrees(st, es[1..], wrap);
      } else {
        var v := wrap(e.bytes.value);
        NoRepeatsStep(st, es, v);
        IngestUntilDuplicateAgrees(Put(st, e.name, v), es[1..], wrap);
      }
    }
  }

  /** Reading `a + b` is reading `a` and, unless that stopped, then `b`: once
      ingestion stops, no later entry is ingested. */
  lemma {:induction false} IngestUntilDuplicateAppend<V>(st: Maps<V>, a: seq<JarEntry>, b: seq<JarEntry>, wrap: Bytes -> V)
    ensures IngestUntilDuplicate(st, a + b, wrap) ==
      var r := IngestUntilDuplicate(st, a, wrap);
      if r.stopped then r else IngestUntilDuplicate(r.maps, b, wrap)
    decreases |a|
  {
    if a == [] {
      assert a + b == b;
    } else {
      assert (a + b)[0] == a[0] && (a + b)[1..] == a[1..] + b;
      var e := a[0];
      if !Ingestible(e) {
        IngestUntilDuplicateAppend(st, a[1..], b, wrap);
      } else if !Holds(st, e.name) {
        IngestUntilDuplicateAppend(Put(st, e.name, wrap(e.bytes.value)), a[1..], b, wrap);
      }
    }
  }

  /** First-wins ingestion of `a + b` is ingestion of `a`, then of `b`. */
  lemma {:induction false} IngestFirstWinsAppend<V>(st: Maps<V>, a: seq<JarEntry>, b: seq<JarEntry>, wrap: Bytes -> V)
    ensures IngestFirstWins(st, a + b, wrap) == IngestFirstWins(IngestFirstWins(st, a, wrap), b, wrap)
    decreases |a|
  {
    if a == [] {
      assert a + b == b;
    } else {
      assert (a + b)[0] == a[0] && (a + b)[1..] == a[1..] + b;
      var e := a[0];
      if !Ingestible(e) || Holds(st, e.name) {
        IngestFirstWinsAppend(st, a[1..], b, wrap);
      } else {
        IngestFirstWinsAppend(Put(st, e.name, wrap(e.bytes.value)), a[1..], b, wrap);
      }
    }
  }

  /** An entry to be written: a name and a payload that may be null. */
  datatype Item = Item(name: string, data: Option<Bytes>)

  /** An entry a `ZipOutputStream` accepted: its name and its bytes. */
  datatype Written = Written(name: string, data: Bytes)

  /** An output archive: the compression level handed to `setLevel` and the
      entries written, in order. */
  datatype ZipOutput = ZipOutput(level: int, entries: seq<Written>)

  /** `java.util.zip.Deflater` accepts levels 0 to 9 and -1 (the default);
      `setLevel` throws `IllegalArgumentException` for any other. */
  predicate ValidLevel(level: int)
  {
    -1 <= level <= 9
  }

  predicate NameWritten(ws: seq<Written>, name: string)
  {
    exists w <- ws :: w.name == name
  }

  /** No two written entries share a name. */
  predicate DistinctNames(ws: seq<Written>)
  {
    forall i, j :: 0 <= i < j < |ws| ==> ws[i].name != ws[j].name
  }

  /** Write the items in order, aborting on the first failure: a name already
      written makes `putNextEntry` throw a `ZipException` (an `IOException`,
      rethrown as `RuntimeException`), and a null payload makes `write` throw
      `NullPointerException`. */
  function WriteAll(ws: seq<Written>, items: seq<Item>): Result<seq<Written>>
    decreases |items|
  {
    if items == [] then Ok(ws)
    else if NameWritten(ws, items[0].name) then Err(Runtime)
    else if items[0].data.None? then Err(NullPointer)
    else WriteAll(ws + [Written(items[0].name, items[0].data.value)], items[1..])
  }

  /** Every item has a payload and a name new to `ws` and to the other items. */
  predicate Writable(ws: seq<Written>, items: seq<Item>)
  {
    && (forall i :: 0 <= i < |items| ==> items[i].data.Some? && !NameWritten(ws, items[i].name))
    && (forall i, j :: 0 <= i < j < |items| ==> items[i].name != items[j].name)
  }

  /** Two writable lists whose names are disjoint are writable one after
      the other. */
  lemma WritableConcat(ws: seq<Written>, a: seq<Item>, b: seq<Item>)
    requires Writable(ws, a) && Writable(ws, b)
    requires forall i, j :: 0 <= i < |a| && 0 <= j < |b| ==> a[i].name != b[j].name
    ensures Writable(ws, a + b)
  {
    var items := a + b;
    forall i | 0 <= i < |items| ensures items[i].data.Some? && !NameWritten(ws, items[i].name) {
      if i < |a| { assert items[i] == a[i]; } else { assert items[i] == b[i - |a|]; }
    }
    forall i, j | 0 <= i < j < |items| ensures items[i].name != items[j].name {
      if j < |a| {
        assert items[i] == a[i] && items[j] == a[j];
      } else if i < |a| {
        assert items[i] == a[i] && items[j] == b[j - |a|];
      } else {
        assert items[i] == b[i - |a|] && items[j] == b[j - |a|];
      }
    }
  }

  /** The entries that writing every item would produce. */
  function Materialize(items: seq<Item>): (r: seq<Written>)
    requires forall i :: 0 <= i < |items| ==> items[i].data.Some?
    ensures |r| == |items|
    ensures forall i :: 0 <= i < |items| ==> r[i] == Written(items[i].name, items[i].data.value)
  {
    seq(|items|, i requires 0 <= i < |items| => Written(items[i].name, items[i].data.value))
  }

  /** Writing one more entry adds exactly its name to those written. */
  lemma NameWrittenAppend(ws: seq<Written>, w: Written, n: string)
    ensures NameWritten(ws + [w], n) <==> NameWritten(ws, n) || n == w.name
  {
    var ws' := ws + [w];
    if n == w.name { assert ws'[|ws|] in ws'; }
    if NameWritten(ws, n) { var v :| v in ws && v.name == n; assert v in ws'; }
  }

  /** The items are writable exactly when the first is, and the rest are
      writable after it. */
  lemma WritableStep(ws: seq<Written>, items: seq<Item>)
    requires items != [] && items[0].data.Some? && !NameWritten(ws, items[0].name)
    ensures Writable(ws, items) <==>
      Writable(ws + [Written(items[0].name, items[0].data.value)], items[1..])
  {
    var it := items[0];
    var rest := items[1..];
    var ws' := ws + [Written(it.name, it.data.value)];
    forall n ensures NameWritten(ws', n) <==> NameWritten(ws, n) || n == it.name {
      NameWrittenAppend(ws, Written(it.name, it.data.value), n);
    }
    if Writable(ws, items) {
      forall i | 0 <= i < |rest| ensures rest[i].data.Some? && !NameWritten(ws', rest[i].name) {
        assert rest[i] == items[i + 1];
      }
      forall i, j | 0 <= i < j < |rest| ensures rest[i].name != rest[j].name {
        assert rest[i] == items[i + 1] && rest[j] == items[j + 1];
      }
    }
    if Writable(ws', rest) {
      forall i | 0 <= i < |items| ensures items[i].data.Some? && !NameWritten(ws, items[i].name) {
        if i > 0 { assert rest[i - 1] == items[i]; }
      }
      forall i, j | 0 <= i < j < |items| ensures items[i].name != items[j].name {
        if i > 0 { assert rest[i - 1] == items[i]; }
        assert rest[j - 1] == items[j];
      }
    }
  }

  /** The entries of the items are the first one's followed by the rest's. */
  lemma MaterializeStep(ws: seq<Written>, items: seq<Item>)
    requires items != [] && forall i :: 0 <= i < |items| ==> items[i].data.Some?
    ensures ws + [Written(items[0].name, items[0].data.value)] + Materialize(items[1..])
      == ws + Materialize(items)
  {
    var rest := items[1..];
    assert forall i :: 0 <= i < |rest| ==> rest[i] == items[i + 1];
  }

  /** Writing succeeds exactly when the items are writable, and then the
      output is the entries so far followed by every item, in order. */
  lemma {:induction false} WriteAllResult(ws: seq<Written>, items: seq<Item>)
    ensures WriteAll(ws, items).Ok? <==> Writable(ws, items)
    ensures Writable(ws, items) ==> WriteAll(ws, items).value == ws + Materialize(items)
    decreases |items|
  {
    if items != [] {
      var it := items[0];
      if !NameWritten(ws, it.name) && it.data.Some? {
        var ws' := ws + [Written(it.name, it.data.value)];
        assert WriteAll(ws, items) == WriteAll(ws', items[1..]);
        WriteAllResult(ws', items[1..]);
        WritableStep(ws, items);
        if Writable(ws, items) {
          MaterializeStep(ws, items);
        }
      } else {
        assert !Writable(ws, items) by { assert items[0] == it; }
      }
    }
  }

  /** Writing `a + b` is writing `a` and then `b` after it. */
  lemma {:induction false} WriteAllAppend(ws: seq<Written>, a: seq<Item>, b: seq<Item>)
    ensures WriteAll(ws, a + b) ==
      match WriteAll(ws, a)
      case Err(e) => Err(e)
      case Ok(ws1) => WriteAll(ws1, b)
    decreases |a|
  {
    if a == [] {
      assert a + b == b;
    } else {
      assert (a + b)[0] == a[0] && (a + b)[1..] == a[1..] + b;
      if !NameWritten(ws, a[0].name) && a[0].data.Some? {
        WriteAllAppend(ws + [Written(a[0].name, a[0].data.value)], a[1..], b);
      }
    }
  }

  /** Write the entries in order; an entry whose write fails (its name was
      already written) is reported and skipped, and writing goes on. */
  function WriteSkipping(ws: seq<Written>, items: seq<Written>): seq<Written>
    decreases |items|
  {
    if items == [] then ws
    else if NameWritten(ws, items[0].name) then WriteSkipping(ws, items[1..])
    else WriteSkipping(ws + [items[0]], items[1..])
  }

  /** `items[i]` is the first item under a name `ws` does not hold. */
  predicate FirstOfName(ws: seq<Written>, items: seq<Written>, i: int)
    requires 0 <= i < |items|
  {
    !NameWritten(ws, items[i].name) && forall j :: 0 <= j < i ==> items[j].name != items[i].name
  }

  /** Skipping failed writes keeps what was written, never writes a name
      twice, and every item's name ends up written; the entry under a new
      name is the first item carrying it. */
  lemma {:induction false} WriteSkippingResult(ws: seq<Written>, items: seq<Written>)
    requires DistinctNames(ws)
    ensures var r := WriteSkipping(ws, items);
      && ws <= r
      && DistinctNames(r)
      && (forall n :: NameWritten(r, n) <==> NameWritten(ws, n) || exists i :: 0 <= i < |items| && items[i].name == n)
      && (forall i :: 0 <= i < |items| && FirstOfName(ws, items, i) ==> items[i] in r)
      && (forall w :: w in r ==> w in ws || w in items)
    decreases |items|
  {
    if items != [] {
      var it := items[0];
      var rest := items[1..];
      assert forall i :: 0 < i < |items| ==> items[i] == rest[i - 1];
      if NameWritten(ws, it.name) {
        WriteSkippingResult(ws, rest);
      } else {
        var ws' := ws + [it];
        assert forall n :: NameWritten(ws', n) <==> NameWritten(ws, n) || n == it.name by {
          forall n ensures NameWritten(ws', n) <==> NameWritten(ws, n) || n == it.name {
            if n == it.name { assert ws'[|ws|] in ws'; }
            if NameWritten(ws, n) { var w :| w in ws && w.name == n; assert w in ws'; }
          }
        }
        forall i, j | 0 <= i < j < |ws'| ensures ws'[i].name != ws'[j].name {
          if j == |ws| { assert ws'[i] in ws; }
        }
        WriteSkippingResult(ws', rest);
        assert it in ws';
      }
    }
  }

  /** Skipping is the same as aborting when no write fails. */
  lemma {:induction false} WriteSkippingAgrees(ws: seq<Written>, items: seq<Written>)
    requires WriteAll(ws, Lift(items)).Ok?
    ensures WriteAll(ws, Lift(items)) == Ok(WriteSkipping(ws, items))
    decreases |items|
  {
    if items != [] {
      assert Lift(items)[1..] == Lift(items[1..]);
      WriteSkippingAgrees(ws + [items[0]], items[1..]);
    }
  }

  /** The name a class is written under by the newer managers: unchanged if
      it contains ".class", otherwise with ".class" appended. Either way the
      written name contains ".class". */
  function ClassEntryName(name: string): (r: string)
    ensures IsClassName(r)
    ensures IsClassName(name) ==> r == name
    ensures !IsClassName(name) ==> r == name + ".class"
  {
    if IsClassName(name) then name
    else
      ContainsAppended(name, ".class");
      name + ".class"
  }

  /** The classes of a non-null map as written entries, in the order `ks`. */
  function ClassEntries(m: map<string, Bytes>, ks: seq<string>): seq<Written>
    requires forall k <- ks :: k in m
    decreases |ks|
  {
    if ks == [] then [] else [Written(ClassEntryName(ks[0]), m[ks[0]])] + ClassEntries(m, ks[1..])
  }

  /** The resources of a non-null map as written entries, in the order `ks`. */
  function ResourceEntries(m: map<string, Bytes>, ks: seq<string>): seq<Written>
    requires forall k <- ks :: k in m
    decreases |ks|
  {
    if ks == [] then [] else [Written(ks[0], m[ks[0]])] + ResourceEntries(m, ks[1..])
  }

  lemma {:induction false} ClassEntriesFacts(m: map<string, Bytes>, ks: seq<string>)
    requires forall k <- ks :: k in m
    ensures |ClassEntries(m, ks)| == |ks|
    ensures forall i :: 0 <= i < |ks| ==> ClassEntries(m, ks)[i] == Written(ClassEntryName(ks[i]), m[ks[i]])
    decreases |ks|
  {
    if ks != [] {
      ClassEntriesFacts(m, ks[1..]);
    }
  }

  lemma {:induction false} ResourceEntriesFacts(m: map<string, Bytes>, ks: seq<string>)
    requires forall k <- ks :: k in m
    ensures |ResourceEntries(m, ks)| == |ks|
    ensures forall i :: 0 <= i < |ks| ==> ResourceEntries(m, ks)[i] == Written(ks[i], m[ks[i]])
    decreases |ks|
  {
    if ks != [] {
      ResourceEntriesFacts(m, ks[1..]);
    }
  }

  /** Entries with non-null payloads, as items to write. */
  function Lift(ws: seq<Written>): (r: seq<Item>)
    ensures |r| == |ws|
    ensures forall i :: 0 <= i < |ws| ==> r[i] == Item(ws[i].name, Some(ws[i].data))
  {
    seq(|ws|, i requires 0 <= i < |ws| => Item(ws[i].name, Some(ws[i].data)))
  }

  /** Writing non-null entries succeeds exactly when their names are
      distinct, and then writes them all, in order. */
  lemma WriteAllLifted(ws: seq<Written>)
    ensures WriteAll([], Lift(ws)).Ok? <==> DistinctNames(ws)
    ensures DistinctNames(ws) ==> WriteAll([], Lift(ws)) == Ok(ws)
  {
    WriteAllResult([], Lift(ws));
    assert forall n :: !NameWritten([], n);
    if DistinctNames(ws) {
      assert Writable([], Lift(ws));
      assert [] + Materialize(Lift(ws)) == ws;
    }
  }

  /** Two entry lists can be written one after the other without a name
      clash exactly when each is clash-free and they share no name. */
  lemma DistinctNamesConcat(a: seq<Written>, b: seq<Written>)
    ensures DistinctNames(a + b) <==>
      DistinctNames(a) && DistinctNames(b) && forall i, j :: 0 <= i < |a| && 0 <= j < |b| ==> a[i].name != b[j].name
  {
    var ab := a + b;
    if DistinctNames(ab) {
      forall i, j | 0 <= i < |a| && 0 <= j < |b| ensures a[i].name != b[j].name {
        assert ab[i] == a[i] && ab[|a| + j] == b[j];
      }
      forall i, j | 0 <= i < j < |b| ensures b[i].name != b[j].name {
        assert ab[|a| + i] == b[i] && ab[|a| + j] == b[j];
      }
      forall i, j | 0 <= i < j < |a| ensures a[i].name != a[j].name {
        assert ab[i] == a[i] && ab[j] == a[j];
      }
    }
  }

  /** The class entries of a map hold each class once, under its written
      name. */
  lemma ClassEntriesMembership(m: map<string, Bytes>, ks: seq<string>)
    requires IsEnumeration(ks, m)
    ensures forall w :: w in ClassEntries(m, ks) <==> exists k :: k in m && w == Written(ClassEntryName(k), m[k])
  {
    ClassEntriesFacts(m, ks);
    var cs := ClassEntries(m, ks);
    forall w | w in cs ensures exists k :: k in m && w == Written(ClassEntryName(k), m[k]) {
      var i :| 0 <= i < |cs| && cs[i] == w;
      assert ks[i] in m;
    }
    forall k | k in m ensures Written(ClassEntryName(k), m[k]) in cs {
      var i :| 0 <= i < |ks| && ks[i] == k;
      assert cs[i] == Written(ClassEntryName(k), m[k]);
    }
  }

  /** The resource entries of a map are exactly its pairs. */
  lemma ResourceEntriesMembership(m: map<string, Bytes>, ks: seq<string>)
    requires IsEnumeration(ks, m)
    ensures forall w :: w in ResourceEntries(m, ks) <==> w.name in m && m[w.name] == w.data
    ensures DistinctNames(ResourceEntries(m, ks))
  {
    ResourceEntriesFacts(m, ks);
    var rs := ResourceEntries(m, ks);
    forall w: Written | w.name in m && m[w.name] == w.data ensures w in rs {
      var i :| 0 <= i < |ks| && ks[i] == w.name;
      assert rs[i] == w;
    }
  }

  /** The first readable entry of `a + b` called `name` is the first in
      `a`, or else the first in `b`. */
  lemma {:induction false} FirstReadableAppend(a: seq<JarEntry>, b: seq<JarEntry>, name: string)
    ensures FirstReadable(a + b, name) == if FirstReadable(a, name).Some? then FirstReadable(a, name) else FirstReadable(b, name)
    decreases |a|
  {
    if a == [] {
      assert a + b == b;
    } else {
      assert (a + b)[0] == a[0] && (a + b)[1..] == a[1..] + b;
      FirstReadableAppend(a[1..], b, name);
    }
  }

  /** Write each pair of a map under its own name, in the order `ks`,
      stopping at the first exception. */
  method WriteEntries(ws0: seq<Written>, m: map<string, Bytes>, ks: seq<string>) returns (r: Result<seq<Written>>)
    requires forall k <- ks :: k in m
    ensures r == WriteAll(ws0, Lift(ResourceEntries(m, ks)))
  {
    var ws := ws0;
    var i := 0;
    while i < |ks|
      invariant 0 <= i <= |ks|
      invariant WriteAll(ws0, Lift(ResourceEntries(m, ks))) == WriteAll(ws, Lift(ResourceEntries(m, ks[i..])))
    {
      var k := ks[i];
      assert ks[i..][0] == k && ks[i..][1..] == ks[i + 1..];
      ghost var rest := ResourceEntries(m, ks[i + 1..]);
      assert Lift(ResourceEntries(m, ks[i..]))[0] == Item(k, Some(m[k]));
      assert Lift(ResourceEntries(m, ks[i..]))[1..] == Lift(rest);
      if exists w <- ws :: w.name == k {
        return Err(Runtime);
      }
      ws := ws + [Written(k, m[k])];
      i := i + 1;
    }
    r := Ok(ws);
  }
}
