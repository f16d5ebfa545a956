/** readFile_pthread.c: `compressDirectoryPthread` collects the regular
    files of a directory, lets a pool of worker threads compress them, each
    worker taking the next file index from a counter guarded by a mutex,
    and merges the temporary files in index order;
    `decompressDirectoryPthread` splits an archive into temporary files and
    lets a pool of workers hand each one to `decompressFile`.

    Threads are not modelled as running at the same time. The mutex makes
    the claims of the counter happen one after another, and the pool is run
    on the schedule where the workers also run one after another: the first
    one takes every index, and the workers started after it find the
    counter exhausted. Only the claim is guarded: `compressFile` runs
    outside the mutex and fills the process-wide `alphabet` and
    `alphabetresults` (readFile.c:17-18), so two compressions that overlap
    in time corrupt each other's counts. What is proved here about the
    pool's artifacts holds for schedules where no two `compressFile` calls
    overlap, and only for those. */
module PthreadStrategy {
  import opened Bytes
  import opened Archive
  import opened Codec
  import opened ReferenceDecoder

  /** `sysconf(_SC_NPROCESSORS_ONLN)`, replaced by 2 when the detection
      fails: the pool always has a worker. */
  function ThreadCount(detected: int): (n: int)
    ensures n > 0
    ensures detected > 0 ==> n == detected
    ensures detected <= 0 ==> n == 2
  {
    if detected <= 0 then 2 else detected
  }

  /** The `next_file_index` shared by the workers, with its mutex and
      `total_files`. */
  class WorkCounter {
    var nextFileIndex: int
    const totalFiles: int

    /** The counter never goes past the total, and stays at 0 when there
        is nothing to do (a count read from an archive may be negative). */
    ghost predicate Valid()
      reads this
    {
      0 <= nextFileIndex && (nextFileIndex <= totalFiles || nextFileIndex == 0)
    }

    constructor(totalFiles: int)
      ensures Valid() && this.totalFiles == totalFiles && nextFileIndex == 0
    {
      this.totalFiles := totalFiles;
      nextFileIndex := 0;
    }

    /** The critical section of a worker: the index to process and the
        counter moved past it, or None once every index is taken. */
    method Claim() returns (index: Option<int>)
      requires Valid()
      modifies this
      ensures Valid()
      ensures old(nextFileIndex) < totalFiles ==>
        index == Some(old(nextFileIndex)) && nextFileIndex == old(nextFileIndex) + 1
      ensures old(nextFileIndex) >= totalFiles ==>
        index == None && nextFileIndex == old(nextFileIndex)
    {
      var currentFileIndex := nextFileIndex;
      if currentFileIndex >= totalFiles {
        return None;
      }
      nextFileIndex := currentFileIndex + 1;
      return Some(currentFileIndex);
    }
  }

  /** The number of indices a counter for `total` hands out. */
  function Jobs(total: int): nat
  {
    if total > 0 then total else 0
  }

  /** Claiming from a fresh counter until it is exhausted hands out
      0, 1, ..., total - 1, each exactly once and in that order. */
  method ClaimAll(total: int) returns (claims: seq<int>)
    ensures claims == seq(Jobs(total), i => i)
  {
    var counter := new WorkCounter(total);
    claims := [];
    while true
      invariant counter.Valid() && counter.totalFiles == total
      invariant counter.nextFileIndex <= Jobs(total)
      invariant claims == seq(counter.nextFileIndex, i => i)
      decreases Jobs(total) - counter.nextFileIndex
    {
      var index := counter.Claim();
      if index.None? {
        break;
      }
      claims := claims + [index.value];
    }
  }

  // ---------------------------------------------------------------------
  // Compression

  /** `compress_worker`: claim indices until none is left and compress
      file `i` into temporary file `i` with `compressFile`. `temps` holds
      the temporary files by index; the ones claimed before are left
      alone. */
  method CompressWorker(counter: WorkCounter, fileNames: seq<Name>, files: Name -> Option<seq<byte>>,
                        tempOk: int -> bool, junk: byte, temps: array<Option<seq<byte>>>)
    requires counter.Valid() && counter.totalFiles == |fileNames| == temps.Length
    modifies counter, temps
    ensures counter.Valid() && counter.nextFileIndex == |fileNames|
    ensures forall k :: 0 <= k < temps.Length ==>
      temps[k] == if k < old(counter.nextFileIndex) then old(temps[k]) else ChildTemp(files(fileNames[k]), tempOk(k))
  {
    while true
      invariant counter.Valid() && old(counter.nextFileIndex) <= counter.nextFileIndex <= |fileNames|
      invariant forall k :: 0 <= k < temps.Length ==>
        temps[k] == if k < old(counter.nextFileIndex) || k >= counter.nextFileIndex then old(temps[k])
                    else ChildTemp(files(fileNames[k]), tempOk(k))
      decreases |fileNames| - counter.nextFileIndex
    {
      var currentFileIndex := counter.Claim();
      if currentFileIndex.None? {
        break;
      }
      var i := currentFileIndex.value;
      var temp := CompressFile(files(fileNames[i]), tempOk(i), junk);
      temps[i] := temp;
    }
  }

  /** Launching `numThreads` workers and joining them: every file is
      compressed into its own temporary file, whatever the thread count. */
  method CompressPool(fileNames: seq<Name>, files: Name -> Option<seq<byte>>, tempOk: int -> bool,
                      numThreads: int, junk: byte) returns (temps: seq<Option<seq<byte>>>)
    requires numThreads > 0
    ensures temps == ChildTemps(fileNames, files, tempOk)
  {
    var counter := new WorkCounter(|fileNames|);
    var slots := new Option<seq<byte>>[|fileNames|](_ => None);
    for t := 0 to numThreads
      invariant counter.Valid() && counter.totalFiles == |fileNames|
      invariant t == 0 ==> counter.nextFileIndex == 0
      invariant t > 0 ==> counter.nextFileIndex == |fileNames|
      invariant t > 0 ==> forall k :: 0 <= k < slots.Length ==> slots[k] == ChildTemp(files(fileNames[k]), tempOk(k))
    {
      CompressWorker(counter, fileNames, files, tempOk, junk, slots);
    }
    temps := slots[..];
    assert temps == ChildTemps(fileNames, files, tempOk);
  }

  /** The counting pass: the `DT_REG` entries of the listing. */
  method CountRegularFiles(entries: seq<DirEntry>) returns (fileCount: int)
    ensures fileCount == |RegularFiles(entries)|
  {
    fileCount := 0;
    for k := 0 to |entries|
      invariant fileCount == |RegularFiles(entries[..k])|
    {
      assert entries[..k + 1][..k] == entries[..k];
      if entries[k].regular {
        fileCount := fileCount + 1;
      }
    }
    assert entries[..|entries|] == entries;
  }

  /** The second pass after `rewinddir`: the names of the regular files,
      in listing order, and their temporary files named after the process
      id and the index. */
  method CollectRegularFiles(listing: seq<DirEntry>, fileCount: int, pid: nat)
    returns (fileNames: seq<Name>, tempFiles: seq<string>)
    requires fileCount == |RegularFiles(listing)|
    ensures fileNames == RegularFiles(listing)
    ensures tempFiles == TempNames(PthreadCompressPrefix, pid, |fileNames|)
  {
    fileNames, tempFiles := [], [];
    var index := 0;
    var k := 0;
    while k < |listing| && index < fileCount
      invariant k <= |listing|
      invariant fileNames == RegularFiles(listing[..k]) && index == |fileNames|
      invariant tempFiles == TempNames(PthreadCompressPrefix, pid, index)
    {
      assert listing[..k + 1][..k] == listing[..k];
      var entry := listing[k];
      k := k + 1;
      if entry.regular {
        fileNames := fileNames + [entry.name];
        tempFiles := tempFiles + [TempName(PthreadCompressPrefix, pid, index)];
        index := index + 1;
      }
    }
    RegularFilesPrefix(listing, k);
    if k == |listing| {
      assert listing[..k] == listing;
    }
  }

  /** One pass of the merge loop: nothing when the temporary file does not
      open, otherwise the name length, name, payload length and payload. */
  method WritePthreadEntry(name: Name, tempFile: Option<seq<byte>>) returns (entry: seq<byte>)
    ensures entry == PthreadEntry(name, tempFile)
  {
    entry := [];
    if tempFile.Some? {
      var nameLength := |name|;
      var compressedSize := |tempFile.value|;
      entry := Int32LE(nameLength) + name + Int64LE(compressedSize) + tempFile.value;
    }
  }

  lemma PthreadEntriesUpTo(names: seq<Name>, temps: seq<Option<seq<byte>>>, i: nat)
    requires |names| == |temps| && i < |names|
    ensures PthreadEntries(names[..i + 1], temps[..i + 1]) ==
      PthreadEntries(names[..i], temps[..i]) + PthreadEntry(names[i], temps[i])
  {
    assert names[..i + 1] == names[..i] + [names[i]];
    assert temps[..i + 1] == temps[..i] + [temps[i]];
    PthreadEntriesSnoc(names[..i], temps[..i], names[i], temps[i]);
  }

  method WritePthreadEntries(fileNames: seq<Name>, temps: seq<Option<seq<byte>>>) returns (out: seq<byte>)
    requires |fileNames| == |temps|
    ensures out == PthreadEntries(fileNames, temps)
  {
    out := [];
    for i := 0 to |fileNames|
      invariant out == PthreadEntries(fileNames[..i], temps[..i])
    {
      var entry := WritePthreadEntry(fileNames[i], temps[i]);
      PthreadEntriesUpTo(fileNames, temps, i);
      out := out + entry;
    }
    assert fileNames[..|fileNames|] == fileNames && temps[..|temps|] == temps;
  }

  /** The merge: the number of collected files, then an entry per
      temporary file that opens. */
  method MergePthread(fileNames: seq<Name>, temps: seq<Option<seq<byte>>>) returns (output: seq<byte>)
    requires |fileNames| == |temps|
    ensures output == PthreadArchive(fileNames, temps)
  {
    var fileCount := |fileNames|;
    var entries := WritePthreadEntries(fileNames, temps);
    output := Int32LE(fileCount) + entries;
  }

  /** `compressDirectoryPthread(inputDir, outputFile)`: false when the
      directory cannot be opened or holds no regular file; otherwise the
      archive of the regular files in listing order, each compressed by
      `compressFile`. `detected` is what `sysconf` reports, `files` gives
      each file's contents (None: cannot be opened) and `tempOk(i)` whether
      temporary file `i` can be created. */
  method CompressDirectoryPthread(listing: Option<seq<DirEntry>>, files: Name -> Option<seq<byte>>,
                                  tempOk: int -> bool, detected: int, pid: nat, junk: byte)
    returns (ok: bool, archive: Option<seq<byte>>)
    ensures ok <==> listing.Some? && RegularFiles(listing.value) != []
    ensures ok ==> archive == Some(PthreadArchive(RegularFiles(listing.value),
                                                  ChildTemps(RegularFiles(listing.value), files, tempOk)))
    ensures !ok ==> archive == None
  {
    var numThreads := ThreadCount(detected);
    if listing.None? {
      return false, None;
    }
    var fileCount := CountRegularFiles(listing.value);
    if fileCount == 0 {
      return false, None;
    }
    var fileNames, tempFiles := CollectRegularFiles(listing.value, fileCount, pid);
    var temps := CompressPool(fileNames, files, tempOk, numThreads, junk);
    var output := MergePthread(fileNames, temps);
    return true, Some(output);
  }

  // ---------------------------------------------------------------------
  // Decompression

  /** `decompress_worker`: claim indices until none is left and hand
      temporary file `i` to `decompressFile`; `calls[i]` counts how often
      that happened. */
  method DecompressWorker(counter: WorkCounter, calls: array<nat>)
    requires counter.Valid() && calls.Length == Jobs(counter.totalFiles)
    modifies counter, calls
    ensures counter.Valid() && counter.nextFileIndex == calls.Length
    ensures forall k :: 0 <= k < calls.Length ==>
      calls[k] == if k < old(counter.nextFileIndex) then old(calls[k]) else old(calls[k]) + 1
  {
    while true
      invariant counter.Valid() && old(counter.nextFileIndex) <= counter.nextFileIndex <= calls.Length
      invariant forall k :: 0 <= k < calls.Length ==>
        calls[k] == if k < old(counter.nextFileIndex) || k >= counter.nextFileIndex then old(calls[k])
                    else old(calls[k]) + 1
      decreases calls.Length - counter.nextFileIndex
    {
      var currentFileIndex := counter.Claim();
      if currentFileIndex.None? {
        break;
      }
      var i := currentFileIndex.value;
      calls[i] := calls[i] + 1;
    }
  }

  /** Launching `numThreads` decompression workers and joining them: each
      of the `fileCount` temporary files is decompressed exactly once. */
  method DecompressPool(fileCount: int, numThreads: int) returns (calls: seq<nat>)
    requires numThreads > 0
    ensures calls == seq(Jobs(fileCount), _ => 1)
  {
    var counter := new WorkCounter(fileCount);
    var slots := new nat[Jobs(fileCount)](_ => 0);
    for t := 0 to numThreads
      invariant counter.Valid() && counter.totalFiles == fileCount
      invariant t == 0 ==> counter.nextFileIndex == 0
      invariant t == 0 ==> forall k :: 0 <= k < slots.Length ==> slots[k] == 0
      invariant t > 0 ==> counter.nextFileIndex == slots.Length
      invariant t > 0 ==> forall k :: 0 <= k < slots.Length ==> slots[k] == 1
    {
      DecompressWorker(counter, slots);
    }
    calls := slots[..];
    assert calls == seq(Jobs(fileCount), _ => 1);
  }

  /** `decompressDirectoryPthread(compressedFile, outputDir)`: false only
      when the archive cannot be opened. The count is read without a
      check, so an archive too short for it reads as `Truncated`. Every
      temporary file is assumed to be created (the result of `fopen` is not
      checked). When extraction does not hang, the workers decompress each
      of the counted temporary files once; `calls` says how often each was
      handed to `decompressFile`. */
  method DecompressDirectoryPthread(input: Option<seq<byte>>, detected: int)
    returns (ok: bool, result: Extraction, calls: seq<nat>)
    ensures ok <==> input.Some?
    ensures ok && |input.value| < 4 ==> result == Extraction([], Truncated) && calls == []
    ensures ok && |input.value| >= 4 ==>
      result == ExtractEntries(input.value[4..], 0, ReadInt32(input.value[..4]), AlwaysCreate)
    ensures ok && |input.value| >= 4 ==>
      calls == if result.status == Stuck then [] else seq(Jobs(ReadInt32(input.value[..4])), _ => 1)
  {
    var numThreads := ThreadCount(detected);
    if input.None? {
      return false, Extraction([], Done), [];
    }
    var data := input.value;
    if |data| < 4 {
      return true, Extraction([], Truncated), [];
    }
    var fileCount := ReadInt32(data[..4]);
    var entries: seq<Extracted> := [];
    var pos := 4;
    var i := 0;
    while i < fileCount
      invariant 4 <= pos <= |data| && 0 <= i
      invariant ExtractEntries(data[4..], 0, fileCount, AlwaysCreate) ==
        Prepend(entries, ExtractEntries(data[pos..], i, fileCount, AlwaysCreate))
      decreases fileCount - i
    {
      var stop, e, next := ExtractEntry(data, pos, i, fileCount, AlwaysCreate);
      if stop.Some? {
        result := Extraction(entries, stop.value);
        if stop.value == Stuck {
          return true, result, [];
        }
        calls := DecompressPool(fileCount, numThreads);
        return true, result, calls;
      }
      PrependCons(entries, e, ExtractEntries(data[next..], i + 1, fileCount, AlwaysCreate));
      entries := entries + [e];
      pos, i := next, i + 1;
    }
    result := Extraction(entries, Done);
    calls := DecompressPool(fileCount, numThreads);
    ok := true;
  }

  // ---------------------------------------------------------------------
  // The two strategies side by side

  /** When every temporary file can be created and no "." or ".." entry
      is marked regular, both strategies collect the same files and write
      the same archive. */
  lemma SameOutput(listing: seq<DirEntry>, files: Name -> Option<seq<byte>>, tempOk: int -> bool)
    requires forall i :: 0 <= i < |listing| && listing[i].regular ==>
      listing[i].name != Dot && listing[i].name != DotDot
    requires forall i :: 0 <= i < |listing| ==> tempOk(i)
    ensures var names := RegularFiles(listing);
      && ForkFiles(listing) == names
      && ForkArchive(names, ChildTemps(names, files, tempOk)) == PthreadArchive(names, ChildTemps(names, files, tempOk))
  {
    SameCollection(listing);
    var names := RegularFiles(listing);
    AllCreated(names, files, tempOk);
    SameArchive(names, ChildTemps(names, files, tempOk));
  }

  /** When every temporary file can be created, every one is there. */
  lemma AllCreated(names: seq<Name>, files: Name -> Option<seq<byte>>, tempOk: int -> bool)
    requires forall i :: 0 <= i < |names| ==> tempOk(i)
    ensures AllPresent(ChildTemps(names, files, tempOk))
  {
    var temps := ChildTemps(names, files, tempOk);
    forall i | 0 <= i < |temps|
      ensures temps[i].Some?
    {
      assert temps[i] == ChildTemp(files(names[i]), tempOk(i));
    }
  }

  /** The directory round trip: when every file opens, its temporary file
      can be created, its name fits the name buffer and has no NUL, and the
      sizes fit their fields, extracting the archive gives back every
      collected name in order, with a payload that the reference decoder
      turns back into the file's contents. */
  lemma DirectoryRoundTrip(listing: seq<DirEntry>, files: Name -> Option<seq<byte>>, tempOk: int -> bool)
    requires |RegularFiles(listing)| < Two31 && FitNames(RegularFiles(listing))
    requires forall i :: 0 <= i < |RegularFiles(listing)| ==>
      && tempOk(i)
      && files(RegularFiles(listing)[i]).Some?
      && |files(RegularFiles(listing)[i]).value| < Two63
      && |CompressedImage(files(RegularFiles(listing)[i]).value)| < Two63
    ensures var names := RegularFiles(listing);
      var archive := PthreadArchive(names, ChildTemps(names, files, tempOk));
      var x := ExtractEntries(archive[4..], 0, ReadInt32(archive[..4]), AlwaysCreate);
      && x.status == Done
      && |x.entries| == |names|
      && forall i :: 0 <= i < |names| ==>
           && x.entries[i].name == names[i]
           && x.entries[i].payload.Some?
           && Decompress(x.entries[i].payload.value) == files(names[i])
  {
    var names := RegularFiles(listing);
    var temps := ChildTemps(names, files, tempOk);
    AllCreated(names, files, tempOk);
    ArchiveRoundTrip(names, temps, AlwaysCreate);
    forall i | 0 <= i < |names|
      ensures Entries(names, temps)[i] == Extracted(names[i], temps[i])
      ensures temps[i].Some? && Decompress(temps[i].value) == files(names[i])
    {
      EntriesAt(names, temps, i);
      CompressRoundTrip(files(names[i]).value);
    }
  }

  /** A file whose temporary file is missing leaves the thread archive
      without its entry while the count still includes it: extraction
      recovers the entries that are there and then runs out of input. */
  lemma MissingTruncates(names: seq<Name>, temps: seq<Option<seq<byte>>>)
    requires |names| == |temps| < Two31 && FitNames(names) && FitPayloads(temps)
    requires exists i :: 0 <= i < |temps| && temps[i].None?
    ensures var archive := PthreadArchive(names, temps);
      ExtractEntries(archive[4..], 0, ReadInt32(archive[..4]), AlwaysCreate) ==
        Extraction(PresentEntries(names, temps), Truncated)
  {
    var archive := PthreadArchive(names, temps);
    Int32RoundTrip(|names|);
    assert archive[..4] == Int32LE(|names|);
    assert archive[4..] == PthreadEntries(names, temps);
    var i :| 0 <= i < |temps| && temps[i].None?;
    FewerPresent(names, temps, i);
    ExtractPthreadEntries(names, temps, 0, |names|, AlwaysCreate);
  }

  lemma {:induction false} FewerPresent(names: seq<Name>, temps: seq<Option<seq<byte>>>, i: nat)
    requires |names| == |temps| && i < |temps| && temps[i].None?
    ensures |PresentEntries(names, temps)| < |names|
  {
    if i > 0 {
      FewerPresent(names[1..], temps[1..], i - 1);
    } else {
      assert |PresentEntries(names[1..], temps[1..])| <= |names| - 1;
    }
  }
}
