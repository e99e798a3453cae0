# ASMHelper JAR managers, merger and creators in Dafny

This project models the parts of ASMHelper (OmniModLoader's bytecode helper
library) that hold and rewrite the entries of JAR archives, plus the small
helpers next to them:

- the three entry stores: `ClassManager` and its thread-safe sibling
  `SafeClassManager` (one archive, split into a class map and a resource
  map), and `MultiClassManager` (several archives, one pair of maps per
  archive name). Each one reads an archive, applies chains of
  caller-supplied class or resource changes, and writes the maps back out
  as ZIP entries;
- `JarMerger`, which folds several archives into one entry map (first
  archive to supply a name wins) and keeps the first `Main-Class` manifest;
- the `ClassFile` and `ResourceFile` holders of both packages
  (`org.omnimc.asm.file` and `com.universal.asm.file`);
- `AccessFlagChecker` (one bit test per JVM access flag) and
  `AccessFlagCombiner` (OR the flags, but drop a later visibility modifier
  once one is set);
- `ExceptionHandler.LineWrapper.wrapText`, the 80-column word wrapper;
- `DescriptorCreator` and `SignatureCreator`, which build field, method
  and generic class signatures (section 4.3 and section 4.7.9.1 of the Java
  Virtual Machine Specification).

Modules:

- `Wrappers`: null references as `Option`, and results and `void` calls as
  `Result` and `Status` over the thrown exception.
- `Text` and `Lists`: the `String` and `List` operations the code relies on.
- `Archive`: an input archive (entries in archive order, each one readable
  or not), the two ingestion policies, and the ZIP writer as the sequence
  of entries it is given.
- `Transform`: the change chain all managers share. The iteration order of
  a hash map is an explicit argument, and the properties hold for every
  order.
- One module for each core Java file:
  - `Manager`, `SafeManager`, `MultiManager`: the entry stores;
  - `Merger`: the JAR merger;
  - `OmniFile`, `UniversalFile`: the file holders;
  - `AccessFlags`, `AccessCombiner`: the access-flag checker and combiner;
  - `LineWrapper`: the word wrapper;
  - `Descriptors`, `Signatures`: the descriptor and signature creators.

Classes whose fields the Java code updates are Dafny classes with
`modifies` clauses:

- the managers;
- `JarMerger` and the manifest `Attributes` it edits;
- the file holders.

Loops over entries, flags, words and generic arguments are methods with
loop invariants. Each one is proved equal to a specification function, and
the properties are proved about that function as lemmas.

Where the Java documentation and the code disagree, the model follows the
code:

- `SignatureCreator`'s documentation says that missing generic arguments
  default to `java.lang.Object`. In the code, a nested generic argument can
  consume the arguments after it, and the next lookup then fails with
  `IndexOutOfBoundsException` (`Signatures.NestedArgumentLeavesTooFew`).
- `AccessFlagCombiner`'s documentation mentions an
  `IllegalArgumentException`. The code never throws it; a clashing
  visibility is silently dropped.
- `DescriptorCreator.methodDescriptor` is annotated as accepting a null
  array. Iterating over a null array throws `NullPointerException`.
- The `com.universal.asm.changes` interfaces declare `applyChanges(ClassNode)`
  and `applyResourceChange(name, data)`. The universal managers call
  `applyChange(name, data)` and use its `ClassFile`/`ResourceFile` result.
  The model follows the call sites, with the same callback shape as
  `org.omnimc.asm.changes`.
- `JarMerger.mergeJars` is documented to throw `IllegalStateException` for
  fewer than two archives. The code tests for fewer than one, so a single
  archive is merged without complaint (`Merger.Merge`).
- `MultiClassManager.readJarFiles` is documented to throw
  `RuntimeException` for a file that is not a JAR or fails to read. The
  code reports the problem and goes on with the next file
  (`MultiManager.Load`, `MultiManager.RegisteredWithoutMaps`).
- `wrapText` is documented to return lines of at most 80 characters. A word
  longer than a line is never split: an 81-character word comes back whole
  (`LineWrapper.LongWordStaysWhole`). The bound holds when every word has at
  most 77 characters (`LineWrapper.WrappedLinesAtMost80`).

## Model

| member | source | states |
|---|---|---|
| Text.ContainsAt | src/main/java/com/universal/asm/manager/ClassManager.java:107 | `contains` holds exactly when the substring occurs at some index of the name. |
| Text.EndsWithContains | src/main/java/com/universal/asm/manager/ClassManager.java:84 | A name that ends with ".jar" also contains ".jar": the `SafeClassManager` name test is weaker than `ClassManager`'s. |
| Text.RemoveChar | src/main/java/org/omnimc/asm/creator/signature/SignatureCreator.java:80 | `replace(";", "")` leaves no ';' and keeps every other character that was there. It never lengthens the string. |
| Text.RemoveCharAbsent | src/main/java/org/omnimc/asm/creator/signature/SignatureCreator.java:111 | Removing ';' from a descriptor body without ';' followed by its closing ';' gives back the body. |
| Lists.IndexOf | src/main/java/org/omnimc/asm/creator/signature/SignatureCreator.java:113 | The index found holds the element, and the element does not occur before it. |
| Lists.RemoveFirst | src/main/java/org/omnimc/asm/creator/signature/SignatureCreator.java:113 | `List.remove(Object)` leaves the list unchanged when the element is absent and shortens it by one otherwise. |
| Lists.RemoveFirstContents | src/main/java/org/omnimc/asm/creator/signature/SignatureCreator.java:113 | `List.remove(Object)` takes out exactly one occurrence of the element. |
| Lists.RemoveFirstOrder | src/main/java/org/omnimc/asm/creator/signature/SignatureCreator.java:113 | The elements before the first occurrence stay where they were, and the ones after it shift down by one. |
| Lists.RemoveHead | src/main/java/org/omnimc/asm/creator/signature/SignatureCreator.java:113 | Removing the list's first element drops the head. |
| Archive.FirstReadable | src/main/java/com/universal/asm/manager/ClassManager.java:93-129 | A name has readable bytes exactly when some entry that is readable and not a folder carries it, and the bytes are that entry's. |
| Archive.HoldsPut | src/main/java/com/universal/asm/manager/ClassManager.java:113-120 | After a put, a name is held exactly when it was held before or is the name put. |
| Archive.IngestFirstWins | src/main/java/com/universal/asm/manager/thread/SafeClassManager.java:134-166 | `putIfAbsent` reading: folders and unreadable entries are skipped, and a held name is left alone. Its properties are stated by `IngestFirstWinsResult` and `IngestFirstWinsAppend`. |
| Archive.IngestUntilDuplicate | src/main/java/com/universal/asm/manager/ClassManager.java:107-121 | The `ClassManager` reader: it returns from the whole read at the first readable entry whose name is already held. Its properties are stated by `IngestUntilDuplicateStops`, `IngestUntilDuplicateGrows` and `IngestUntilDuplicateAgrees`. |
| Archive.IngestFirstWinsResult | src/main/java/com/universal/asm/manager/thread/SafeClassManager.java:134-166 | Reading that skips repeats (`putIfAbsent`) keeps every old key and its bytes. It adds exactly the class names (or, for resources, the other names) that have a readable entry, each with its first readable bytes. |
| Archive.IngestUntilDuplicateStops | src/main/java/com/universal/asm/manager/ClassManager.java:107-121 | The `ClassManager` reader stops exactly when a readable entry repeats a name already held in its own map. |
| Archive.IngestUntilDuplicateGrows | src/main/java/com/universal/asm/manager/ClassManager.java:93-129 | The stopping reader overwrites nothing. Every key it adds is a class name (or a resource name) whose first readable entry supplies its bytes. |
| Archive.IngestUntilDuplicateAgrees | src/main/java/com/universal/asm/manager/ClassManager.java:109-120 | With no repeated name, the stopping reader and the first-wins reader produce the same maps. |
| Archive.IngestUntilDuplicateAppend | src/main/java/com/universal/asm/manager/ClassManager.java:93-129 | Reading `a + b` reads `a` and then, unless it stopped, reads `b` from the result. |
| Archive.IngestFirstWinsAppend | src/main/java/com/universal/asm/manager/thread/SafeClassManager.java:134-166 | First-wins reading of `a + b` equals reading `a` and then `b`. |
| Archive.WriteAll | src/main/java/com/universal/asm/manager/ClassManager.java:245-263 | Writing entries in order, aborting on a repeated name or a null payload. Its properties are stated by `WriteAllResult` and `WriteAllAppend`. |
| Archive.WriteAllResult | src/main/java/com/universal/asm/manager/ClassManager.java:245-263 | Writing ZIP entries succeeds exactly when no payload is null and no name repeats, neither among the new entries nor against those already written. The result is the earlier entries followed by the new ones in order. |
| Archive.WriteAllAppend | src/main/java/com/universal/asm/manager/ClassManager.java:245-263 | Writing `a + b` writes `a` then `b`. The first failure ends the output. |
| Archive.WriteSkipping | src/main/java/org/omnimc/asm/manager/multi/MultiClassManager.java:293-316 | Writing entries in order, skipping one whose name was already written. Its properties are stated by `WriteSkippingResult` and `WriteSkippingAgrees`. |
| Archive.WriteSkippingResult | src/main/java/org/omnimc/asm/manager/multi/MultiClassManager.java:293-316 | The writer that logs and skips a failing entry keeps what was written and keeps names distinct. It writes every offered name, writes the first entry offered under each name, and writes nothing that was not offered. |
| Archive.WriteSkippingAgrees | src/main/java/org/omnimc/asm/manager/multi/MultiClassManager.java:299-305 | When no entry fails, the skipping writer produces the same entries as the strict one. |
| Archive.ClassEntryName | src/main/java/com/universal/asm/manager/thread/SafeClassManager.java:318-321 | The written class name always contains ".class". A name that already contains it is kept, and any other name gets ".class" appended. |
| Archive.ClassEntriesFacts | src/main/java/com/universal/asm/manager/thread/SafeClassManager.java:317-328 | One class entry per key, in iteration order, under its written name and with the key's bytes. |
| Archive.ResourceEntriesFacts | src/main/java/com/universal/asm/manager/thread/SafeClassManager.java:331-339 | One resource entry per key, in iteration order, under its own name and with its bytes. |
| Archive.WriteAllLifted | src/main/java/org/omnimc/asm/merger/JarMerger.java:163-170 | Writing entries that hold no null succeeds exactly when their names are distinct, and it then yields them unchanged. |
| Archive.ClassEntriesMembership | src/main/java/com/universal/asm/manager/thread/SafeClassManager.java:317-328 | The class entries are exactly the pairs (written name of k, bytes of k) for the keys k of the class map. |
| Archive.ResourceEntriesMembership | src/main/java/com/universal/asm/manager/thread/SafeClassManager.java:331-339 | The resource entries are exactly the map's pairs, under distinct names. |
| Archive.FirstReadableAppend | src/main/java/org/omnimc/asm/merger/JarMerger.java:112-134 | The first readable bytes of a name over `a + b` come from `a` if `a` has some, and from `b` otherwise. |
| Archive.WriteEntries | src/main/java/org/omnimc/asm/merger/JarMerger.java:163-170 | The entry-writing loop produces what the strict writer specifies. |
| Transform.Chain | src/main/java/com/universal/asm/manager/ClassManager.java:155-173 | The change chain as a fold: stage i reads the map stage i-1 produced, and the first throwing change aborts. Its properties are stated by `ChainAppend`, `StageKeys`, `CollectResult` and `ChainOfEmpty`. |
| Transform.ChainOfEmpty | src/main/java/com/universal/asm/manager/ClassManager.java:151-173 | Every chain of changes, in every iteration order, maps an empty map to an empty map, so the early return for an empty class map changes nothing. |
| Transform.Collect | src/main/java/com/universal/asm/manager/ClassManager.java:161-169 | Offering the entries in a given order and putting each produced entry, later puts overwriting earlier ones; a throwing change aborts. Its properties are stated by `CollectResult` and `CollectFails`. |
| Transform.Stage | src/main/java/com/universal/asm/manager/ClassManager.java:158-172 | One change applied to a whole map into a fresh map. Its properties are stated by `StageKeys`, `StageOrderIndependent`, `StageLastPutWins` and `StageIdentity`. |
| Transform.LastYieldSource | src/main/java/com/universal/asm/manager/ClassManager.java:161-169 | Some entry's change produces a name exactly when the last producer exists, and the value is one some change returned for that name. |
| Transform.CollectResult | src/main/java/com/universal/asm/manager/ClassManager.java:161-169 | After one stage, a name is present exactly when it was there before or some change produced it. Its data is that of the last change in iteration order to produce it, because the later `put` wins. |
| Transform.CollectFails | src/main/java/com/universal/asm/manager/ClassManager.java:163 | A stage fails exactly when some entry's change throws, and it then rethrows that change's exception. |
| Transform.StageKeys | src/main/java/com/universal/asm/manager/ClassManager.java:158-172 | A stage fails exactly when a change throws on some entry. Otherwise its keys are exactly the names the changes produced, each with data a change produced for it. |
| Transform.StageOrderIndependent | src/main/java/com/universal/asm/manager/ClassManager.java:161-169 | When no two entries are renamed to the same name, a stage's result does not depend on the map's iteration order. |
| Transform.StageLastPutWins | src/main/java/com/universal/asm/manager/ClassManager.java:167 | The last entry in iteration order whose change produces a name decides that name's data. |
| Transform.StageIdentity | src/main/java/com/universal/asm/manager/ClassManager.java:161-169 | A change that returns every entry unchanged leaves the map as it was. |
| Transform.ChainAppend | src/main/java/com/universal/asm/manager/ClassManager.java:157-173 | Chaining `cs1 + cs2` chains `cs1` and then `cs2` on its result. A failure stops the chain. |
| Transform.KeysInSomeOrder | src/main/java/com/universal/asm/manager/ClassManager.java:161 | Returns each key of the map exactly once, in some order. |
| Transform.ApplyChain | src/main/java/com/universal/asm/manager/ClassManager.java:155-173 | The staging loop computes the chain, for the iteration orders it used. |
| Manager.ClassItemsFacts | src/main/java/com/universal/asm/manager/ClassManager.java:245-252 | One item per class key, in iteration order, with the key's payload (null included). |
| Manager.ResourceItemsFacts | src/main/java/com/universal/asm/manager/ClassManager.java:255-263 | The resource items are exactly the resources whose payload is not null, under distinct names. |
| Manager.SharedName | src/main/java/com/universal/asm/manager/ClassManager.java:245-263 | A class and a non-null resource with the same name make the output fail on a duplicate ZIP entry. |
| Manager.WritableEmittable | src/main/java/com/universal/asm/manager/ClassManager.java:245-263 | If the output can be written, no class payload is null and no class name is also the name of a non-null resource. |
| Manager.EmittableWritable | src/main/java/com/universal/asm/manager/ClassManager.java:245-263 | Conversely, under those two conditions the output can be written. |
| Manager.Output | src/main/java/com/universal/asm/manager/ClassManager.java:239-269 | `getFileInBytes`: an invalid level is rejected, then classes and resources are written strictly. Its properties are stated by `OutputSucceeds` and `OutputEntries`. |
| Manager.OutputSucceeds | src/main/java/com/universal/asm/manager/ClassManager.java:239-269 | `getFileInBytes` succeeds exactly when the compression level is valid (-1 to 9) and both conditions above hold. An invalid level throws `IllegalArgumentException`. |
| Manager.EntriesOfItems | src/main/java/com/universal/asm/manager/ClassManager.java:245-263 | The written entries are exactly the class pairs and the non-null resource pairs, with all classes first. |
| Manager.EntriesOrder | src/main/java/com/universal/asm/manager/ClassManager.java:245-263 | The first entries, one per class, are the classes, and the rest are resources. |
| Manager.EntriesSound | src/main/java/com/universal/asm/manager/ClassManager.java:245-263 | Every written entry is a class pair or a non-null resource pair. |
| Manager.EntriesComplete | src/main/java/com/universal/asm/manager/ClassManager.java:245-263 | Every class pair and every non-null resource pair is written. |
| Manager.OutputEntries | src/main/java/com/universal/asm/manager/ClassManager.java:239-269 | A successful output records the level. Its names are distinct, its entries are exactly the stored non-null pairs, and the classes come first. |
| Manager.ReadThenOutput | src/main/java/com/universal/asm/manager/ClassManager.java:93-263 | Reading an archive with no repeated name into an empty manager and writing it out succeeds exactly for a valid level. The archive written holds each name with its first readable bytes. |
| Manager.ClassManager.constructor | src/main/java/com/universal/asm/manager/ClassManager.java:60-68 | A new manager has no file name and empty maps. |
| Manager.ClassManager.ReadJarFile | src/main/java/com/universal/asm/manager/ClassManager.java:81-135 | A null file throws `NullPointerException` and a name not ending in ".jar" throws `RuntimeException`, both with nothing changed. Otherwise the file name is set. An archive that does not open throws `RuntimeException` with the maps unchanged. Otherwise the maps become the result of the reader that stops at the first repeat. |
| Manager.ClassManager.ApplyClassChanges | src/main/java/com/universal/asm/manager/ClassManager.java:145-179 | A null or empty change array, or an empty class map, changes nothing. Otherwise the class map becomes the chain's result. A throwing change leaves the map as it was. Resources and the file name are untouched. |
| Manager.ClassManager.ApplyResourceChanges | src/main/java/com/universal/asm/manager/ClassManager.java:188-221 | The same for the resource map. |
| Manager.ClassManager.OutputFile | src/main/java/com/universal/asm/manager/ClassManager.java:231-271 | Returns a new output that reads this manager's current state. |
| Manager.ClassManager.Close | src/main/java/com/universal/asm/manager/ClassManager.java:279-283 | Clears the file name and both maps. |
| Manager.ClassManager.GetFileName | src/main/java/com/universal/asm/manager/ClassManager.java:300-302 | Returns the file name set by the last accepted read. |
| Manager.ClassManagerOutput.constructor | src/main/java/com/universal/asm/manager/ClassManager.java:232 | The output is bound to its manager. |
| Manager.ClassManagerOutput.GetFileName | src/main/java/com/universal/asm/manager/ClassManager.java:234-236 | Returns the manager's current file name. |
| Manager.ClassManagerOutput.GetFileInBytes | src/main/java/com/universal/asm/manager/ClassManager.java:239-269 | Produces the specified output of the manager's current maps, for the iteration orders used. |
| Manager.WriteClasses | src/main/java/com/universal/asm/manager/ClassManager.java:245-252 | The class-writing loop produces what the strict writer specifies. |
| Manager.WriteResources | src/main/java/com/universal/asm/manager/ClassManager.java:255-263 | The resource-writing loop produces what the strict writer specifies for the resource items. |
| SafeManager.ClassEntriesDistinct | src/main/java/com/universal/asm/manager/thread/SafeClassManager.java:317-328 | The class entries have distinct names exactly when no two classes get the same written name ("A" and "A.class" do). |
| SafeManager.EntriesDisjoint | src/main/java/com/universal/asm/manager/thread/SafeClassManager.java:317-339 | No class entry shares a name with a resource entry exactly when no class's written name is a resource key. |
| SafeManager.Output | src/main/java/com/universal/asm/manager/thread/SafeClassManager.java:308-348 | `getFileInBytes`: an invalid level is rejected, then classes under their ".class" names and resources are written strictly. Its properties are stated by `OutputSucceeds` and `OutputEntries`. |
| SafeManager.OutputSucceeds | src/main/java/com/universal/asm/manager/thread/SafeClassManager.java:308-348 | The output succeeds exactly for a valid level with no clash of written names, and it is the class entries followed by the resource entries. |
| SafeManager.OutputEntries | src/main/java/com/universal/asm/manager/thread/SafeClassManager.java:308-348 | A successful output records the level, has distinct names, and holds exactly each class under its written name and each resource under its own. |
| SafeManager.ReadThenOutput | src/main/java/com/universal/asm/manager/thread/SafeClassManager.java:134-339 | Reading an archive into an empty manager and writing it out succeeds exactly for a valid level. It yields each name with its first readable bytes. |
| SafeManager.SafeClassManager.constructor | src/main/java/com/universal/asm/manager/thread/SafeClassManager.java:91-100 | A new manager has no file name and empty maps. |
| SafeManager.SafeClassManager.ReadJarFile | src/main/java/com/universal/asm/manager/thread/SafeClassManager.java:119-171 | A null file throws `NullPointerException`. A name without ".jar", or a directory, throws `RuntimeException` with nothing changed. Otherwise the file name is set. An archive that does not open throws `RuntimeException` with the maps unchanged. Otherwise the maps become the first-wins reading. |
| SafeManager.SafeClassManager.ApplyClassChanges | src/main/java/com/universal/asm/manager/thread/SafeClassManager.java:190-226 | A null or empty change array, or an empty class map, changes nothing. Otherwise the class map becomes the chain's result, and a failure leaves it as it was. |
| SafeManager.SafeClassManager.ApplyResourceChanges | src/main/java/com/universal/asm/manager/thread/SafeClassManager.java:246-283 | The same for the resource map. |
| SafeManager.SafeClassManager.OutputFile | src/main/java/com/universal/asm/manager/thread/SafeClassManager.java:300-350 | Returns a new output that reads this manager's current state. |
| SafeManager.SafeClassManager.Close | src/main/java/com/universal/asm/manager/thread/SafeClassManager.java:362-371 | Clears both maps and the file name. |
| SafeManager.SafeOutput.constructor | src/main/java/com/universal/asm/manager/thread/SafeClassManager.java:301 | The output is bound to its manager. |
| SafeManager.SafeOutput.GetFileName | src/main/java/com/universal/asm/manager/thread/SafeClassManager.java:303-305 | Returns the manager's current file name. |
| SafeManager.SafeOutput.GetFileInBytes | src/main/java/com/universal/asm/manager/thread/SafeClassManager.java:308-348 | Produces the specified output of the current maps, for the iteration orders used. |
| SafeManager.WriteClasses | src/main/java/com/universal/asm/manager/thread/SafeClassManager.java:317-328 | The class-writing loop produces what the strict writer specifies for the renamed class entries. |
| MultiManager.Load | src/main/java/org/omnimc/asm/manager/multi/MultiClassManager.java:133-175 | One file of `readJarFiles`: a non-".jar" name is skipped, a ".jar" name is registered, and its maps are stored only if it opens. Its properties are stated by `LoadAllRegisters`, `LoadAllMaps` and `RegisteredWithoutMaps`. |
| MultiManager.LoadAll | src/main/java/org/omnimc/asm/manager/multi/MultiClassManager.java:130-177 | `readJarFiles` over the whole array, in order. Its properties are stated by `LoadAllRegisters`, `LoadAllConsistent` and `LoadAllMaps`. |
| MultiManager.LoadAllRegisters | src/main/java/org/omnimc/asm/manager/multi/MultiClassManager.java:133-139 | The list of file names grows by the name of each ".jar" input, in order, even when that archive fails to open. |
| MultiManager.LoadAllConsistent | src/main/java/org/omnimc/asm/manager/multi/MultiClassManager.java:130-177 | Every name that has maps is a registered name. |
| MultiManager.LoadAllMaps | src/main/java/org/omnimc/asm/manager/multi/MultiClassManager.java:141-171 | A name's maps are the reading of the last archive under that name that opened. Names that no archive replaced keep their maps. |
| MultiManager.RegisteredWithoutMaps | src/main/java/org/omnimc/asm/manager/multi/MultiClassManager.java:139-175 | A ".jar" that fails to open is registered but gets no maps, and a targeted change on it then throws `NullPointerException`. |
| MultiManager.Targeted | src/main/java/org/omnimc/asm/manager/multi/MultiClassManager.java:186-208 | An unregistered name changes nothing. A registered name without maps, or a null change array, throws `NullPointerException`. A success replaces only that name's map, and an empty change array leaves it as it was. |
| MultiManager.Run | src/main/java/org/omnimc/asm/manager/multi/MultiClassManager.java:216-220 | Applying to every registered name keeps the set of names. On success every visited registered name had maps, and names not visited are unchanged. |
| MultiManager.RunAppend | src/main/java/org/omnimc/asm/manager/multi/MultiClassManager.java:217-219 | Running over `a + b` runs over `a` and then over `b`. A failure stops the run. |
| MultiManager.RunNullChanges | src/main/java/org/omnimc/asm/manager/multi/MultiClassManager.java:216-220 | A null change array throws `NullPointerException` as soon as one name is registered. |
| MultiManager.RunTwice | src/main/java/org/omnimc/asm/manager/multi/MultiClassManager.java:216-220 | A name registered twice gets the whole change chain applied twice. |
| MultiManager.OfferedNameSource | src/main/java/org/omnimc/asm/manager/multi/MultiClassManager.java:293-316 | Every entry offered to the writer is named after a class (written name) or a resource of that archive. |
| MultiManager.OfferedNameTarget | src/main/java/org/omnimc/asm/manager/multi/MultiClassManager.java:293-316 | Every such name is offered. |
| MultiManager.OfferedNames | src/main/java/org/omnimc/asm/manager/multi/MultiClassManager.java:293-316 | The offered names are exactly the classes' written names and the resource names. |
| MultiManager.OfferedEntries | src/main/java/org/omnimc/asm/manager/multi/MultiClassManager.java:293-316 | Every offered entry carries the bytes stored under its source key. |
| MultiManager.ClassOfferedFirst | src/main/java/org/omnimc/asm/manager/multi/MultiClassManager.java:293-306 | A class whose written name no other class shares is the first entry offered under that name. |
| MultiManager.ResourceOfferedFirst | src/main/java/org/omnimc/asm/manager/multi/MultiClassManager.java:308-316 | A resource whose name no class is written as is the first entry offered under that name. |
| MultiManager.TargetOutput | src/main/java/org/omnimc/asm/manager/multi/MultiClassManager.java:284-324 | A targeted output: an invalid level is rejected, a missing map throws, and otherwise every entry is written with failing writes skipped. Its properties are stated by `TargetOutputEntries`. |
| MultiManager.TargetOutputEntries | src/main/java/org/omnimc/asm/manager/multi/MultiClassManager.java:284-324 | The output succeeds exactly for a valid level when the archive has both maps, and throws `NullPointerException` otherwise. It has distinct names, exactly the offered names and only stored bytes. It contains every class whose written name is unique and every resource that no class shadows. |
| MultiManager.ReadOne | src/main/java/org/omnimc/asm/manager/multi/MultiClassManager.java:139-171 | Reading one archive that opens into an empty manager registers it and stores its two maps. |
| MultiManager.ReadThenOutput | src/main/java/org/omnimc/asm/manager/multi/MultiClassManager.java:141-316 | Reading an archive and writing it out succeeds exactly for a valid level. It yields each name with its first readable bytes. |
| MultiManager.MultiClassManager.constructor | src/main/java/org/omnimc/asm/manager/multi/MultiClassManager.java:113-115 | A new manager has no names and no maps. |
| MultiManager.MultiClassManager.ReadJarFiles | src/main/java/org/omnimc/asm/manager/multi/MultiClassManager.java:130-177 | A null array throws `NullPointerException` with nothing changed. Otherwise the state becomes the fold of every input, and every map key stays a registered name. |
| MultiManager.MultiClassManager.ApplyTargetedClassChanges | src/main/java/org/omnimc/asm/manager/multi/MultiClassManager.java:186-208 | The class maps become the targeted result, or stay as they were when it throws. Names and resources are untouched. |
| MultiManager.MultiClassManager.ApplyTargetedResourceChanges | src/main/java/org/omnimc/asm/manager/multi/MultiClassManager.java:229-251 | The same for the resource maps. |
| MultiManager.MultiClassManager.ApplyClassChanges | src/main/java/org/omnimc/asm/manager/multi/MultiClassManager.java:216-220 | Returns normally exactly when the run over every registered name succeeds, and the class maps are then its result. Otherwise it rethrows the run's exception. It stops at the first failing name: the archives before it keep their new class maps, and the failing one and all later ones keep their old ones. |
| MultiManager.MultiClassManager.ApplyResourceChanges | src/main/java/org/omnimc/asm/manager/multi/MultiClassManager.java:259-263 | The same for the resource maps, including the archives changed before a failure. |
| MultiManager.MultiClassManager.CreateTargetedOutputFile | src/main/java/org/omnimc/asm/manager/multi/MultiClassManager.java:272-326 | An unregistered name gives null. A registered name gives a new output bound to the manager and that name. |
| MultiManager.MultiClassManager.CreateOutputs | src/main/java/org/omnimc/asm/manager/multi/MultiClassManager.java:334-344 | One new output per registered name, in the order the names were registered. |
| MultiManager.MultiClassManager.GetClasses | src/main/java/org/omnimc/asm/manager/multi/MultiClassManager.java:346-348 | Returns the class maps, whose keys are all registered names. |
| MultiManager.MultiClassManager.GetResources | src/main/java/org/omnimc/asm/manager/multi/MultiClassManager.java:350-352 | Returns the resource maps, whose keys are all registered names. |
| MultiManager.MultiClassManager.RemoveEntry | src/main/java/org/omnimc/asm/manager/multi/MultiClassManager.java:359-365 | An unregistered name changes nothing. Otherwise the first occurrence of the name leaves the list, and both of its maps are removed. |
| MultiManager.MultiClassManager.Close | src/main/java/org/omnimc/asm/manager/multi/MultiClassManager.java:367-371 | Clears the names and both maps. |
| MultiManager.MultiOutput.constructor | src/main/java/org/omnimc/asm/manager/multi/MultiClassManager.java:277 | The output is bound to its manager and name. |
| MultiManager.MultiOutput.GetFileName | src/main/java/org/omnimc/asm/manager/multi/MultiClassManager.java:279-281 | Returns the archive name it was created for. |
| MultiManager.MultiOutput.GetFileInBytes | src/main/java/org/omnimc/asm/manager/multi/MultiClassManager.java:284-324 | Produces the specified output of that name's current maps, for the iteration orders used. |
| MultiManager.Lookup | src/main/java/org/omnimc/asm/manager/multi/MultiClassManager.java:287-288 | `get` returns a map exactly when the key is present, and it is the one stored. |
| MultiManager.WriteSkippingAppend | src/main/java/org/omnimc/asm/manager/multi/MultiClassManager.java:293-316 | The skipping writer over `a + b` writes `a` and then `b`. |
| MultiManager.ReadEntries | src/main/java/org/omnimc/asm/manager/multi/MultiClassManager.java:147-168 | The per-archive reading loop yields the first-wins maps of the archive's entries. |
| MultiManager.WriteClassesSkipping | src/main/java/org/omnimc/asm/manager/multi/MultiClassManager.java:293-306 | The class-writing loop produces what the skipping writer specifies. |
| MultiManager.WriteResourcesSkipping | src/main/java/org/omnimc/asm/manager/multi/MultiClassManager.java:308-316 | The resource-writing loop produces what the skipping writer specifies. |
| Merger.Checked | src/main/java/org/omnimc/asm/merger/JarMerger.java:196-209 | A null manifest throws `NullPointerException`. Otherwise entries are unchanged. The first manifest with a Main-Class is chosen and stays chosen. A later manifest loses its Main-Class, every other attribute is kept, and no value changes. |
| Merger.Absorb | src/main/java/org/omnimc/asm/merger/JarMerger.java:117-133 | Adding one archive's entries never changes a name already stored, and it ends normally or with `RuntimeException`. |
| Merger.AbsorbResult | src/main/java/org/omnimc/asm/merger/JarMerger.java:117-133 | It ends normally exactly when every non-folder entry is readable. It then adds each new name with its first readable bytes. |
| Merger.MergeAll | src/main/java/org/omnimc/asm/merger/JarMerger.java:112-134 | Merging ends normally or with `NullPointerException` or `RuntimeException`. It never overwrites a stored entry and never changes a chosen manifest. |
| Merger.Merge | src/main/java/org/omnimc/asm/merger/JarMerger.java:104-139 | A null array throws `NullPointerException`. An empty array, and only an empty one, throws `IllegalStateException`, and in both cases nothing changes. |
| Merger.MergeAllAppend | src/main/java/org/omnimc/asm/merger/JarMerger.java:112-134 | Merging `a + b` merges `a` and then, unless it threw, merges `b`. |
| Merger.MergeAllFirstWins | src/main/java/org/omnimc/asm/merger/JarMerger.java:112-134 | After a successful merge, a name is present exactly when it was before or some archive supplies it readably. A new name holds the first archive's bytes. |
| Merger.MergeAllChoosesFirst | src/main/java/org/omnimc/asm/merger/JarMerger.java:204-205 | With nothing chosen yet, the chosen manifest is the first one that names a Main-Class. |
| Merger.MergeAllStrips | src/main/java/org/omnimc/asm/merger/JarMerger.java:196-209 | After a merge, every manifest seen with a Main-Class other than the chosen one has lost it. |
| Merger.SameSourceTwice | src/main/java/org/omnimc/asm/merger/JarMerger.java:204-208 | Merging one archive twice chooses its manifest and then strips its Main-Class, because the manifest object is shared. |
| Merger.MergedOutput | src/main/java/org/omnimc/asm/merger/JarMerger.java:157-177 | The merged output: an invalid level is rejected, then every held entry is written. Its properties are stated by `MergedOutputEntries`. |
| Merger.MergedOutputEntries | src/main/java/org/omnimc/asm/merger/JarMerger.java:157-177 | The merged output succeeds exactly for a valid level, has distinct names, and holds exactly the stored entries. |
| Merger.MergeThenOutput | src/main/java/org/omnimc/asm/merger/JarMerger.java:104-177 | Merging into an empty merger and writing out yields each name with the first readable bytes across the archives, in order. |
| Merger.NewJarMerger | src/main/java/org/omnimc/asm/merger/JarMerger.java:86-94 | A null name throws `NullPointerException` and a name not ending in ".jar" throws `IllegalArgumentException`. Otherwise the result is a new merger with that name, no entries and no chosen manifest. |
| Merger.JarMerger.constructor | src/main/java/org/omnimc/asm/merger/JarMerger.java:86-94 | Sets the name and starts with no entries and no chosen manifest. |
| Merger.JarMerger.MergeJars | src/main/java/org/omnimc/asm/merger/JarMerger.java:104-139 | The merger's entries and chosen manifest, and the manifests it edits, move exactly as the merge specifies. |
| Merger.JarMerger.CheckManifest | src/main/java/org/omnimc/asm/merger/JarMerger.java:196-209 | Updates the chosen manifest and the manifest attributes as the manifest check specifies, or throws with nothing changed. |
| Merger.JarMerger.MergeEntries | src/main/java/org/omnimc/asm/merger/JarMerger.java:115-133 | The entry loop stores what adding the archive's entries specifies and keeps the chosen manifest. |
| Merger.JarMerger.OutputFile | src/main/java/org/omnimc/asm/merger/JarMerger.java:149-179 | Returns a new output bound to this merger. |
| Merger.JarMerger.Close | src/main/java/org/omnimc/asm/merger/JarMerger.java:184-187 | Clears the entries and the chosen manifest. |
| Merger.MergedJar.constructor | src/main/java/org/omnimc/asm/merger/JarMerger.java:150 | The output is bound to its merger. |
| Merger.MergedJar.GetFileName | src/main/java/org/omnimc/asm/merger/JarMerger.java:152-154 | Returns the merged archive's name. |
| Merger.MergedJar.GetFileInBytes | src/main/java/org/omnimc/asm/merger/JarMerger.java:157-177 | Produces the specified output of the merger's current entries. |
| OmniFile.SignExtend | src/main/java/org/omnimc/asm/file/ClassFile.java:109 | A byte widens to a Java `int` with its sign: values from 0x80 up get the upper 24 bits set. |
| OmniFile.ClassFile.constructor | src/main/java/org/omnimc/asm/file/ClassFile.java:54-57 | Stores the name and the data. |
| OmniFile.ClassFile.GetKey | src/main/java/org/omnimc/asm/file/ClassFile.java:64-67 | Returns the name. |
| OmniFile.ClassFile.GetValue | src/main/java/org/omnimc/asm/file/ClassFile.java:74-77 | Returns the current data. |
| OmniFile.ClassFile.SetValue | src/main/java/org/omnimc/asm/file/ClassFile.java:85-89 | Replaces the data and returns the new value (not the old one, unlike `Map.Entry`). |
| OmniFile.ClassFile.Equals | src/main/java/org/omnimc/asm/file/ClassFile.java:99-105 | `equals`: the same object, or a non-null `ClassFile` with an equal name and equal bytes. Its properties are stated by `EqualsMeansSameContents` and `EqualsIsEquivalence`. |
| OmniFile.ClassFile.HashCode | src/main/java/org/omnimc/asm/file/ClassFile.java:107-110 | `hashCode`: `Objects.hash` of the name's and the bytes' hash codes. Its property is stated by `EqualsHashCode`. |
| OmniFile.EqualsMeansSameContents | src/main/java/org/omnimc/asm/file/ClassFile.java:99-105 | Two class files are equal exactly when the other is not null and has the same name and the same bytes. |
| OmniFile.EqualsIsEquivalence | src/main/java/org/omnimc/asm/file/ClassFile.java:99-105 | Equality is reflexive, symmetric and transitive. |
| OmniFile.EqualsHashCode | src/main/java/org/omnimc/asm/file/ClassFile.java:107-110 | Equal class files have equal hash codes. |
| OmniFile.Utf16 | src/main/java/org/omnimc/asm/file/ClassFile.java:109 | A character is one UTF-16 code unit below U+10000 and otherwise a high surrogate followed by a low surrogate. |
| OmniFile.Utf16Decodes | src/main/java/org/omnimc/asm/file/ClassFile.java:109 | A surrogate pair decodes back to the character it encodes, so the code units `String.hashCode` folds are the character's UTF-16 encoding. |
| OmniFile.StringHash | src/main/java/org/omnimc/asm/file/ClassFile.java:109 | `String.hashCode`: the fold `31 * h + u` over the UTF-16 code units, wrapping at 32 bits. Its properties are stated by `StringHashAppend`, `StringHashSnoc` and `SupplementaryHash`. |
| OmniFile.BytesHash | src/main/java/org/omnimc/asm/file/ClassFile.java:109 | `Arrays.hashCode(byte[])`: 0 for null, else the fold from 1 over the sign-extended bytes (see `SignExtend`). |
| OmniFile.StringHashAppend | src/main/java/org/omnimc/asm/file/ClassFile.java:109 | The `String.hashCode` fold of a concatenation continues the fold of its prefix. |
| OmniFile.StringHashSnoc | src/main/java/org/omnimc/asm/file/ClassFile.java:109 | Appending a character below U+10000 applies one `31 * h + c` step with 32-bit wrap-around; appending one above applies two steps, one per surrogate. |
| OmniFile.SupplementaryHash | src/main/java/org/omnimc/asm/file/ClassFile.java:109 | The character U+1F600 is the surrogate pair 0xD83D, 0xDE00, and the one-character string hashes to 0x1B0D63, as Java's `String.hashCode` does over the pair. |
| OmniFile.ResourceFile.constructor | src/main/java/org/omnimc/asm/file/ResourceFile.java:58-61 | Stores the key and the value. |
| OmniFile.ResourceFile.GetKey | src/main/java/org/omnimc/asm/file/ResourceFile.java:68-71 | Returns the key. |
| OmniFile.ResourceFile.GetValue | src/main/java/org/omnimc/asm/file/ResourceFile.java:78-81 | Returns the current value. |
| OmniFile.ResourceFile.SetValue | src/main/java/org/omnimc/asm/file/ResourceFile.java:89-93 | Replaces the value and returns the new one. |
| UniversalFile.ClassFile.constructor | src/main/java/com/universal/asm/file/ClassFile.java:28-31 | Stores the name and the data. |
| UniversalFile.ClassFile.GetKey | src/main/java/com/universal/asm/file/ClassFile.java:38-41 | Returns the name. |
| UniversalFile.ClassFile.GetValue | src/main/java/com/universal/asm/file/ClassFile.java:48-51 | Returns the current data. |
| UniversalFile.ClassFile.SetValue | src/main/java/com/universal/asm/file/ClassFile.java:59-63 | Replaces the data and returns the new value. |
| UniversalFile.ResourceFile.constructor | src/main/java/com/universal/asm/file/ResourceFile.java:33-36 | Stores the key and the value. |
| UniversalFile.ResourceFile.GetKey | src/main/java/com/universal/asm/file/ResourceFile.java:43-46 | Returns the key. |
| UniversalFile.ResourceFile.GetValue | src/main/java/com/universal/asm/file/ResourceFile.java:53-56 | Returns the current value. |
| UniversalFile.ResourceFile.SetValue | src/main/java/com/universal/asm/file/ResourceFile.java:64-68 | Replaces the value and returns the new one. |
| AccessFlags.IsFlagFound | src/main/java/org/omnimc/asm/access/AccessFlagChecker.java:467-469 | The shared test: some bit of the flag is set in the access word. Its properties are stated by `PresentIsBitTest` and `PresentDependsOnOwnBit`. |
| AccessFlags.IsPrivatePresent | src/main/java/org/omnimc/asm/access/AccessFlagChecker.java:59-61 | Holds exactly when every bit of ACC_PRIVATE (0x0002) is set in the access word. |
| AccessFlags.IsPublicPresent | src/main/java/org/omnimc/asm/access/AccessFlagChecker.java:80-82 | Holds exactly when every bit of ACC_PUBLIC (0x0001) is set in the access word. |
| AccessFlags.IsProtectedPresent | src/main/java/org/omnimc/asm/access/AccessFlagChecker.java:101-103 | Holds exactly when every bit of ACC_PROTECTED (0x0004) is set in the access word. |
| AccessFlags.IsFinalPresent | src/main/java/org/omnimc/asm/access/AccessFlagChecker.java:122-124 | Holds exactly when every bit of ACC_FINAL (0x0010) is set in the access word. |
| AccessFlags.IsStaticPresent | src/main/java/org/omnimc/asm/access/AccessFlagChecker.java:141-143 | Holds exactly when every bit of ACC_STATIC (0x0008) is set in the access word. |
| AccessFlags.IsVolatilePresent | src/main/java/org/omnimc/asm/access/AccessFlagChecker.java:157-159 | Holds exactly when every bit of ACC_VOLATILE (0x0040) is set in the access word. |
| AccessFlags.IsDeprecatedPresent | src/main/java/org/omnimc/asm/access/AccessFlagChecker.java:186-188 | Holds exactly when every bit of ACC_DEPRECATED (0x20000) is set in the access word. |
| AccessFlags.IsNativePresent | src/main/java/org/omnimc/asm/access/AccessFlagChecker.java:203-205 | Holds exactly when every bit of ACC_NATIVE (0x0100) is set in the access word. |
| AccessFlags.IsSynchronizedPresent | src/main/java/org/omnimc/asm/access/AccessFlagChecker.java:220-222 | Holds exactly when every bit of ACC_SYNCHRONIZED (0x0020) is set in the access word. |
| AccessFlags.IsTransientPresent | src/main/java/org/omnimc/asm/access/AccessFlagChecker.java:237-239 | Holds exactly when every bit of ACC_TRANSIENT (0x0080) is set in the access word. |
| AccessFlags.IsVarargsPresent | src/main/java/org/omnimc/asm/access/AccessFlagChecker.java:254-256 | Holds exactly when every bit of ACC_VARARGS (0x0080) is set in the access word. |
| AccessFlags.IsTransitivePresent | src/main/java/org/omnimc/asm/access/AccessFlagChecker.java:271-273 | Holds exactly when every bit of ACC_TRANSITIVE (0x0020) is set in the access word. |
| AccessFlags.IsSyntheticPresent | src/main/java/org/omnimc/asm/access/AccessFlagChecker.java:286-288 | Holds exactly when every bit of ACC_SYNTHETIC (0x1000) is set in the access word. |
| AccessFlags.IsSuperPresent | src/main/java/org/omnimc/asm/access/AccessFlagChecker.java:301-303 | Holds exactly when every bit of ACC_SUPER (0x0020) is set in the access word. |
| AccessFlags.IsStrictPresent | src/main/java/org/omnimc/asm/access/AccessFlagChecker.java:320-322 | Holds exactly when every bit of ACC_STRICT (0x0800) is set in the access word. |
| AccessFlags.IsStaticPhasePresent | src/main/java/org/omnimc/asm/access/AccessFlagChecker.java:335-337 | Holds exactly when every bit of ACC_STATIC_PHASE (0x0040) is set in the access word. |
| AccessFlags.IsMandatedPresent | src/main/java/org/omnimc/asm/access/AccessFlagChecker.java:350-352 | Holds exactly when every bit of ACC_MANDATED (0x8000) is set in the access word. |
| AccessFlags.IsOpenPresent | src/main/java/org/omnimc/asm/access/AccessFlagChecker.java:365-367 | Holds exactly when every bit of ACC_OPEN (0x0020) is set in the access word. |
| AccessFlags.IsRecordPresent | src/main/java/org/omnimc/asm/access/AccessFlagChecker.java:381-383 | Holds exactly when every bit of ACC_RECORD (0x10000) is set in the access word. |
| AccessFlags.IsEnumPresent | src/main/java/org/omnimc/asm/access/AccessFlagChecker.java:397-399 | Holds exactly when every bit of ACC_ENUM (0x4000) is set in the access word. |
| AccessFlags.IsBridgePresent | src/main/java/org/omnimc/asm/access/AccessFlagChecker.java:412-414 | Holds exactly when every bit of ACC_BRIDGE (0x0040) is set in the access word. |
| AccessFlags.IsAbstractPresent | src/main/java/org/omnimc/asm/access/AccessFlagChecker.java:431-433 | Holds exactly when every bit of ACC_ABSTRACT (0x0400) is set in the access word. |
| AccessFlags.IsInterfacePresent | src/main/java/org/omnimc/asm/access/AccessFlagChecker.java:447-449 | Holds exactly when every bit of ACC_INTERFACE (0x0200) is set in the access word. |
| AccessFlags.IsAnnotationPresent | src/main/java/org/omnimc/asm/access/AccessFlagChecker.java:463-465 | Holds exactly when every bit of ACC_ANNOTATION (0x2000) is set in the access word. |
| AccessFlags.PresentUnfolds | src/main/java/org/omnimc/asm/access/AccessFlagChecker.java:59-464 | Each `isXPresent` is `isFlagFound` with its own flag. |
| AccessFlags.PresentIsBitTest | src/main/java/org/omnimc/asm/access/AccessFlagChecker.java:467-469 | Each flag is a single bit, so a check holds exactly when the access word and the flag share a bit, exactly when all of the flag is set; no check holds of 0 and each holds of its own flag. |
| AccessFlags.PresentDependsOnOwnBit | src/main/java/org/omnimc/asm/access/AccessFlagChecker.java:467-469 | Presence depends only on the flag's own bit, and adding bits never removes a flag. |
| AccessFlags.SharedBitsAgree | src/main/java/org/omnimc/asm/access/AccessFlagChecker.java:157-413 | Checks that share a bit value always agree: super, synchronized, open and transitive; volatile, bridge and static-phase; transient and varargs. |
| AccessFlags.DistinctFlagsIndependent | src/main/java/org/omnimc/asm/access/AccessFlagChecker.java:467-469 | A flag's own bit does not report any flag with a different bit. |
| AccessCombiner.Absorb | src/main/java/org/omnimc/asm/access/AccessFlagCombiner.java:72-77 | One step of the outer loop: an argument whose visibility clashes with the accumulated one is zeroed, and anything else is OR-ed in. Its properties are stated by `ClearIfClashing` and `OrCleared`. |
| AccessCombiner.Combine | src/main/java/org/omnimc/asm/access/AccessFlagCombiner.java:69-80 | The loop as a left fold of `Absorb`. Its properties are stated by `CombineIsOrOfKept`, `FirstVisibilityWins` and `CombinedVisibilityIsSingle`. |
| AccessCombiner.PairsCoverVisibility | src/main/java/org/omnimc/asm/access/AccessFlagCombiner.java:50-54 | The three invalid pairs both meet two access words exactly when each word has some visibility bit. |
| AccessCombiner.ClashesIffBothVisible | src/main/java/org/omnimc/asm/access/AccessFlagCombiner.java:72-76 | An argument clashes with what was combined so far exactly when both carry a visibility bit. |
| AccessCombiner.CombineAccessFlags | src/main/java/org/omnimc/asm/access/AccessFlagCombiner.java:69-80 | A null array throws `NullPointerException`. Otherwise the loop computes the combination of the arguments from 0. |
| AccessCombiner.ClearIfClashing | src/main/java/org/omnimc/asm/access/AccessFlagCombiner.java:72-76 | The inner loop clears the argument exactly when it and the accumulator both carry a visibility bit. |
| AccessCombiner.OrCleared | src/main/java/org/omnimc/asm/access/AccessFlagCombiner.java:74-77 | OR-ing the possibly cleared argument is the combination step. |
| AccessCombiner.CombineIsOrOfKept | src/main/java/org/omnimc/asm/access/AccessFlagCombiner.java:69-80 | The result is the OR of the arguments that were kept. |
| AccessCombiner.KeptIsSubsequence | src/main/java/org/omnimc/asm/access/AccessFlagCombiner.java:69-80 | The kept arguments are a subsequence of the arguments. |
| AccessCombiner.AccumulatorGrows | src/main/java/org/omnimc/asm/access/AccessFlagCombiner.java:77 | Bits once combined are never removed. |
| AccessCombiner.FirstArgumentKept | src/main/java/org/omnimc/asm/access/AccessFlagCombiner.java:69-80 | Every bit of the first argument is in the result. |
| AccessCombiner.NonVisibleKept | src/main/java/org/omnimc/asm/access/AccessFlagCombiner.java:69-80 | Every bit of an argument without a visibility bit is in the result. |
| AccessCombiner.VisibleDroppedOnceVisible | src/main/java/org/omnimc/asm/access/AccessFlagCombiner.java:72-76 | Once a visibility is set, a later argument with a visibility bit is dropped entirely, its other flags included. |
| AccessCombiner.VisibilityFrozen | src/main/java/org/omnimc/asm/access/AccessFlagCombiner.java:69-80 | Once a visibility is set, the result's visibility bits are those. |
| AccessCombiner.FirstVisibilityWins | src/main/java/org/omnimc/asm/access/AccessFlagCombiner.java:69-80 | The result's visibility bits are those of the first argument that has any, or none. |
| AccessCombiner.CombinedVisibilityIsSingle | src/main/java/org/omnimc/asm/access/AccessFlagCombiner.java:69-80 | If every argument has at most one visibility modifier, so does the result. |
| LineWrapper.Split | src/main/java/org/omnimc/asm/common/exception/ExceptionHandler.java:143 | `String.split(" ")`: a string without a space is its own only piece; otherwise the pieces between spaces, trailing empty ones dropped (stated by `SplitWords`). |
| LineWrapper.Trim | src/main/java/org/omnimc/asm/common/exception/ExceptionHandler.java:156 | `String.trim()`: every character at or below the space removed from both ends. Its properties are stated by `TrimShape`. |
| LineWrapper.Fill | src/main/java/org/omnimc/asm/common/exception/ExceptionHandler.java:146-154 | The loop over the words: a break and the indent before a word that would run past 80 columns. Its properties are stated by `FillRenders`, `BreakExactlyWhenTooLong` and `FillKeepsLinesShort`. |
| LineWrapper.Wrapped | src/main/java/org/omnimc/asm/common/exception/ExceptionHandler.java:137-157 | `wrapText`: the empty text unchanged, otherwise the filled words trimmed. Its properties are stated by `WrappedLinesAtMost80` and `LongWordStaysWhole`. |
| LineWrapper.SplitAll | src/main/java/org/omnimc/asm/common/exception/ExceptionHandler.java:143 | Splitting on spaces yields at least one piece, and no piece holds a space. |
| LineWrapper.JoinSplitAll | src/main/java/org/omnimc/asm/common/exception/ExceptionHandler.java:143 | Joining the pieces with single spaces gives back the text. |
| LineWrapper.DropTrailingEmpty | src/main/java/org/omnimc/asm/common/exception/ExceptionHandler.java:143 | `String.split` drops only trailing empty pieces, and the last piece kept is not empty. |
| LineWrapper.SplitWords | src/main/java/org/omnimc/asm/common/exception/ExceptionHandler.java:143 | The words are the pieces up to the trailing empty ones, and none holds a space. |
| LineWrapper.SplitAllWithoutSpace | src/main/java/org/omnimc/asm/common/exception/ExceptionHandler.java:143 | A text without spaces is one piece. |
| LineWrapper.TrimShape | src/main/java/org/omnimc/asm/common/exception/ExceptionHandler.java:156 | `trim` removes exactly the leading and trailing characters at or below ' ', and what is left starts and ends with neither. |
| LineWrapper.WrapText | src/main/java/org/omnimc/asm/common/exception/ExceptionHandler.java:137-157 | The wrapping loop computes the wrapped text. An empty text is returned as is, and the result neither starts nor ends with a blank. |
| LineWrapper.FillRenders | src/main/java/org/omnimc/asm/common/exception/ExceptionHandler.java:146-154 | The loop output is the words, each followed by a space, with a break and indent before each word where the loop breaks. |
| LineWrapper.RenderWithoutBreaks | src/main/java/org/omnimc/asm/common/exception/ExceptionHandler.java:146-154 | Without breaks, the output is the words joined by spaces plus a trailing space. |
| LineWrapper.BreakExactlyWhenTooLong | src/main/java/org/omnimc/asm/common/exception/ExceptionHandler.java:147-150 | The loop breaks before a word exactly when the column plus the word's length plus one would pass 80. |
| LineWrapper.LongWordStaysWhole | src/main/java/org/omnimc/asm/common/exception/ExceptionHandler.java:134-157 | A single 81-character word without blanks is returned unchanged, so its only line is longer than the 80 columns the documentation promises. |
| LineWrapper.FillKeepsLinesShort | src/main/java/org/omnimc/asm/common/exception/ExceptionHandler.java:146-154 | When every word fits an indented line, no line of the output is longer than 80, even when words carry their own line breaks. |
| LineWrapper.TrimKeepsLinesShort | src/main/java/org/omnimc/asm/common/exception/ExceptionHandler.java:156 | Trimming never lengthens a line. |
| LineWrapper.WrappedLinesAtMost80 | src/main/java/org/omnimc/asm/common/exception/ExceptionHandler.java:124-157 | For any text whose words are at most 77 characters, every wrapped line is at most 80 characters. Line breaks carried in the text itself only shorten lines. |
| Descriptors.FieldDescriptor | src/main/java/org/omnimc/asm/creator/descriptor/DescriptorCreator.java:37-39 | A field descriptor is the class's own descriptor string. |
| Descriptors.MethodDescriptor | src/main/java/org/omnimc/asm/creator/descriptor/DescriptorCreator.java:42-58 | A null argument array throws `NullPointerException`. Otherwise the loop builds "(" + parameter descriptors + ")" + return descriptor. |
| Descriptors.MethodDescriptorOf | src/main/java/org/omnimc/asm/creator/descriptor/DescriptorCreator.java:42-58 | The descriptor built from a non-null array: "(", the present parameters in order, ")", then the return descriptor. Its properties are stated by `MethodDescriptor`, `ParametersArePresentOnes` and `NullParameterSkipped`. |
| Descriptors.EmptyMethodDescriptor | src/main/java/org/omnimc/asm/creator/descriptor/DescriptorCreator.java:60-62 | Gives "()" followed by the return descriptor. |
| Descriptors.ParametersArePresentOnes | src/main/java/org/omnimc/asm/creator/descriptor/DescriptorCreator.java:47-53 | The parameter part is the concatenation of the descriptors of the non-null parameters. |
| Descriptors.NullParameterSkipped | src/main/java/org/omnimc/asm/creator/descriptor/DescriptorCreator.java:48-50 | A null parameter anywhere leaves the descriptor as if it were absent. |
| Descriptors.AllPresent | src/main/java/org/omnimc/asm/creator/descriptor/DescriptorCreator.java:42-58 | With no nulls, the descriptor is "(" + every parameter's descriptor in order + ")" + return descriptor. |
| Signatures.Fragments | src/main/java/org/omnimc/asm/creator/signature/SignatureCreator.java:99-123 | One fragment per type parameter: the next supplied argument, its own lookup when it is generic, or `Ljava/lang/Object;` once the array runs out. Its properties are stated by `FragmentsShape` and `LookUpFailsOnlyOnIndex`. |
| Signatures.LookUp | src/main/java/org/omnimc/asm/creator/signature/SignatureCreator.java:94-125 | `genericLookUp`: "<", the fragments, then ">;". Its properties are stated by `GenericLookUp`, `PlainArguments` and `NullArguments`. |
| Signatures.SignatureOf | src/main/java/org/omnimc/asm/creator/signature/SignatureCreator.java:72-81 | `createSignature`: a null base fails, a base without type parameters is its descriptor, and otherwise the descriptor without ";" followed by the lookup. Its properties are stated by `CreateSignature` and `GenericSignature`. |
| Signatures.Pick | src/main/java/org/omnimc/asm/creator/signature/SignatureCreator.java:100-109 | The chosen argument is always in the remaining list. The choice throws `IndexOutOfBoundsException` exactly when the argument was already consumed and the fallback index max(i-1,0) is past the end of the list. |
| Signatures.Skip | src/main/java/org/omnimc/asm/creator/signature/SignatureCreator.java:116-118 | After a nested generic argument, its own count of arguments is cleared from the front of the list, or nothing when too few remain. |
| Signatures.GenericLookUp | src/main/java/org/omnimc/asm/creator/signature/SignatureCreator.java:94-125 | The lookup loop computes the specified argument list "<...>;" or throws as it specifies. |
| Signatures.NextFragment | src/main/java/org/omnimc/asm/creator/signature/SignatureCreator.java:100-122 | One loop iteration produces the next fragment and the rest of the list as specified, recursing for nested generics. |
| Signatures.CreateSignature | src/main/java/org/omnimc/asm/creator/signature/SignatureCreator.java:72-81 | A null class throws `NullPointerException` and a non-generic class gives its descriptor. Otherwise the result is the descriptor without ';' followed by the lookup. |
| Signatures.FragmentsShape | src/main/java/org/omnimc/asm/creator/signature/SignatureCreator.java:99-123 | A successful lookup has one fragment per type parameter, and every position at or past the argument count is `Ljava/lang/Object;`. |
| Signatures.LookUpFailsOnlyOnIndex | src/main/java/org/omnimc/asm/creator/signature/SignatureCreator.java:94-125 | The only exception a lookup throws is `IndexOutOfBoundsException`. |
| Signatures.PlainArguments | src/main/java/org/omnimc/asm/creator/signature/SignatureCreator.java:94-125 | With only non-generic arguments, position i holds argument i's descriptor when supplied, and Object otherwise. |
| Signatures.NullArguments | src/main/java/org/omnimc/asm/creator/signature/SignatureCreator.java:120-122 | A null argument array gives Object at every position. |
| Signatures.GenericSignature | src/main/java/org/omnimc/asm/creator/signature/SignatureCreator.java:80 | A generic class's signature is its descriptor without ';' followed by the lookup. |
| Signatures.TwoPlainArguments | src/main/java/org/omnimc/asm/creator/signature/SignatureCreator.java:41-42 | HashMap with String and Integer gives "Ljava/util/HashMap<Ljava/lang/String;Ljava/lang/Integer;>;", for every two-parameter base and two plain arguments. |
| Signatures.TwoParametersWithoutArguments | src/main/java/org/omnimc/asm/creator/signature/SignatureCreator.java:60-62 | A two-parameter base without arguments gives "<Ljava/lang/Object;Ljava/lang/Object;>;". |
| Signatures.OneParameterLookUp | src/main/java/org/omnimc/asm/creator/signature/SignatureCreator.java:94-125 | A class with one type parameter given plain arguments uses the first: "<" + its descriptor + ">;". |
| Signatures.NestedArgument | src/main/java/org/omnimc/asm/creator/signature/SignatureCreator.java:111-118 | Nested generics are written in prefix order: HashMap, List, String, Integer gives HashMap<List<String>, Integer>. |
| Signatures.NestedArgumentLeavesTooFew | src/main/java/org/omnimc/asm/creator/signature/SignatureCreator.java:105-118 | HashMap with List and String throws `IndexOutOfBoundsException`, because List consumes String, unlike the documented Object default. |

## Left out

- Concurrency is not modelled. This covers parallel streams, `synchronized` blocks and concurrent map updates. `SafeClassManager`, `MultiClassManager` and `JarMerger` read entries in archive order. When one archive holds a name twice, the model keeps the first in archive order, while the parallel reader may keep either. When an entry fails in `JarMerger`, the model keeps exactly the entries before it; the parallel reader may have stored others too.
- ZIP bytes are not modelled: compression, entry metadata and `toByteArray` buffering. An output is the compression level plus the sequence of (name, bytes) entries given to `ZipOutputStream`. Three output failures are modelled:
  - a repeated entry name (`ZipException`);
  - an invalid level (`IllegalArgumentException` from `setLevel`);
  - a null payload (`NullPointerException` from `write`).
- Reading an entry is modelled as its bytes or as an `IOException`. The stream plumbing is left out.
- `ExceptionHandler.handleException` is left out: the message formatting, the stack trace and the print to standard error. Where the source logs an exception and continues, the model continues and records nothing.
- Hash-map iteration order is unspecified in Java, so the model does not fix it. The order is an argument of the specification functions, and the methods return it as a ghost value. Every property is proved for every order.
- Null references are modelled only where the source checks for them or throws on them: a null file, a null array, a null change result, a null payload, a missing map, a null manifest, and a null base class for signatures. Several other nulls are not modelled and are assumed non-null:
  - entry names, file names and map keys;
  - the elements of the `File...` array given to `readJarFiles`;
  - the elements of a signature's generic-argument array;
  - the return class of `methodDescriptor`.
- A change that throws is modelled by one exception value, `ChangeThrew`. In the concurrent-map managers this value also stands for the `NullPointerException` of a change that returns a null name or null bytes. The concrete exception class is not distinguished.
- `SafeClassManager`'s output skips null resources, but a `ConcurrentHashMap` never holds null, so that check never fires. The model's maps hold no null, and the check is not modelled.
- Manifest attribute names are compared case-sensitively here, while `java.util.jar.Attributes.Name` is case-insensitive. An `IOException` from `getManifest` is not modelled.
- Stored byte arrays are values. The model does not capture a caller mutating an array after handing it to a manager or a file holder, or the aliasing that would cause. `MultiManager.MultiClassManager.GetClasses` and `MultiManager.MultiClassManager.GetResources` return the registry as a value, while the Java methods copy only the outer map: the per-archive maps they hand out are the manager's own, and a caller that changes one changes the manager.
- A Java class is modelled by its descriptor string and its number of type parameters. Two classes with equal descriptors are treated as the same class. `descriptorString()` is taken as given.
- Strings are sequences of characters. `wrapText` counts characters, which matches `String.length()` only for text without surrogate pairs.
- `MultiClassManager.equals`, `hashCode`, `toString` and `ClassFile.toString` are left out: the first two compare and hash the byte arrays inside the maps by reference, and the last two only render text. The `getClass()` test in `ClassFile.equals` is not modelled: the model has no subclasses.
- `genericLookUp`'s loop body is its own method, `Signatures.NextFragment`, which the loop calls once per type parameter. It keeps the same steps and the same recursion.
