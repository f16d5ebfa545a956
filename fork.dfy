/** readFile_fork.c: `compressDirectoryFork` collects the regular files of a
    directory, has one child process compress each file into its own
    temporary file, waits for all of them and merges the temporary files in
    index order; `decompressDirectoryFork` splits an archive back into
    per-entry temporary files. Processes are not modelled: the children's
    `compressFile` runs are taken one after the other, which gives the same
    temporary files since each child writes only its own. The directory is
    a listing, the file system a function from names to contents. */
module ForkStrategy {
  import opened Bytes
  import opened Archive
  import opened Codec

  /** `countFilesInDirectory`: -1 when the directory cannot be opened,
      otherwise the number of regular files other than "." and "..". */
  method CountFilesInDirectory(listing: Option<seq<DirEntry>>) returns (count: int)
    ensures count == if listing.None? then -1 else |ForkFiles(listing.value)|
  {
    if listing.None? {
      return -1;
    }
    var entries := listing.value;
    count := 0;
    for k := 0 to |entries|
      invariant count == |ForkFiles(entries[..k])|
    {
      assert entries[..k + 1][..k] == entries[..k];
      var entry := entries[k];
      if entry.name == Dot || entry.name == DotDot {
        continue;
      }
      if entry.regular {
        count := count + 1;
      }
    }
    assert entries[..|entries|] == entries;
  }

  /** The first pass of `compressDirectoryFork` after `rewinddir`: the
      `readdir` loop that stops at the end of the listing or once
      `fileCount` files are collected, naming each file's temporary file
      after the process id and the index. */
  method CollectFiles(listing: seq<DirEntry>, fileCount: int, pid: nat) returns (fileNames: seq<Name>, tempFiles: seq<string>)
    requires fileCount == |ForkFiles(listing)|
    ensures fileNames == ForkFiles(listing)
    ensures tempFiles == TempNames(ForkCompressPrefix, pid, |fileNames|)
  {
    fileNames, tempFiles := [], [];
    var fileIndex := 0;
    var k := 0;
    while k < |listing| && fileIndex < fileCount
      invariant k <= |listing|
      invariant fileNames == ForkFiles(listing[..k]) && fileIndex == |fileNames|
      invariant tempFiles == TempNames(ForkCompressPrefix, pid, fileIndex)
    {
      assert listing[..k + 1][..k] == listing[..k];
      var entry := listing[k];
      k := k + 1;
      if entry.name == Dot || entry.name == DotDot {
        continue;
      }
      if entry.regular {
        fileNames := fileNames + [entry.name];
        tempFiles := tempFiles + [TempName(ForkCompressPrefix, pid, fileIndex)];
        fileIndex := fileIndex + 1;
      }
    }
    ForkFilesPrefix(listing, k);
    if k == |listing| {
      assert listing[..k] == listing;
    }
  }

  /** The merge loop: the count, then per file its name length and name,
      and, when its temporary file opens, the payload length and payload.
      None when the output file cannot be created. */
  method MergeFork(fileNames: seq<Name>, temps: seq<Option<seq<byte>>>, outputOk: bool) returns (output: Option<seq<byte>>)
    requires |fileNames| == |temps|
    ensures output == if outputOk then Some(ForkArchive(fileNames, temps)) else None
  {
    if !outputOk {
      return None;
    }
    var fileCount := |fileNames|;
    var entries := WriteForkEntries(fileNames, temps);
    output := Some(Int32LE(fileCount) + entries);
  }

  /** The body of the merge loop over all files, after the count. */
  method WriteForkEntries(fileNames: seq<Name>, temps: seq<Option<seq<byte>>>) returns (out: seq<byte>)
    requires |fileNames| == |temps|
    ensures out == ForkEntries(fileNames, temps)
  {
    out := [];
    for i := 0 to |fileNames|
      invariant out == ForkEntries(fileNames[..i], temps[..i])
    {
      var entry := WriteForkEntry(fileNames[i], temps[i]);
      ForkEntriesUpTo(fileNames, temps, i);
      out := out + entry;
    }
    assert fileNames[..|fileNames|] == fileNames && temps[..|temps|] == temps;
  }

  /** One pass of the merge loop: the name length and name, then, when the
      temporary file opened, its length and contents. */
  method WriteForkEntry(name: Name, tempFile: Option<seq<byte>>) returns (entry: seq<byte>)
    ensures entry == ForkEntry(name, tempFile)
  {
    var nameLength := |name|;
    entry := Int32LE(nameLength) + name;
    if tempFile.Some? {
      var compressedSize := |tempFile.value|;
      entry := entry + Int64LE(compressedSize) + tempFile.value;
    }
  }

  lemma ForkEntriesUpTo(names: seq<Name>, temps: seq<Option<seq<byte>>>, i: nat)
    requires |names| == |temps| && i < |names|
    ensures ForkEntries(names[..i + 1], temps[..i + 1]) == ForkEntries(names[..i], temps[..i]) + ForkEntry(names[i], temps[i])
  {
    assert names[..i + 1] == names[..i] + [names[i]];
    assert temps[..i + 1] == temps[..i] + [temps[i]];
    ForkEntriesSnoc(names[..i], temps[..i], names[i], temps[i]);
  }

  /** `compressDirectoryFork(inputDir, outputFile)`: false when the
      directory cannot be opened, holds no regular file, or the output
      cannot be created; otherwise the archive of the collected files, in
      listing order. `files` gives each file's contents (None: cannot be
      opened) and `tempOk(i)` whether child `i` can create its temporary
      file. */
  method CompressDirectoryFork(listing: Option<seq<DirEntry>>, files: Name -> Option<seq<byte>>,
                               tempOk: int -> bool, outputOk: bool, pid: nat, junk: byte)
    returns (ok: bool, archive: Option<seq<byte>>)
    ensures ok <==> listing.Some? && ForkFiles(listing.value) != [] && outputOk
    ensures ok ==> archive == Some(ForkArchive(ForkFiles(listing.value), ChildTemps(ForkFiles(listing.value), files, tempOk)))
    ensures !ok ==> archive == None
  {
    if listing.None? {
      return false, None;
    }
    var fileCount := CountFilesInDirectory(listing);
    if fileCount <= 0 {
      return false, None;
    }
    var fileNames, tempFiles := CollectFiles(listing.value, fileCount, pid);
    var temps: seq<Option<seq<byte>>> := [];
    for i := 0 to fileCount
      invariant temps == ChildTemps(fileNames, files, tempOk)[..i]
    {
      var temp := CompressFile(files(fileNames[i]), tempOk(i), junk);
      temps := temps + [temp];
    }
    assert temps == ChildTemps(fileNames, files, tempOk);
    archive := MergeFork(fileNames, temps, outputOk);
    ok := archive.Some?;
  }

  /** `decompressDirectoryFork(compressedFile, outputDir)` up to the
      children: false when the archive cannot be opened, the output
      directory cannot be created or the count cannot be read; otherwise
      every entry is copied to its temporary file as `ExtractEntries`
      says. `canCreate(i)` says whether entry `i`'s temporary file can be
      created. */
  method DecompressDirectoryFork(input: Option<seq<byte>>, dirOk: bool, canCreate: int -> bool)
    returns (ok: bool, result: Extraction)
    ensures ok <==> input.Some? && dirOk && |input.value| >= 4
    ensures ok ==> result == ExtractEntries(input.value[4..], 0, ReadInt32(input.value[..4]), canCreate)
  {
    if input.None? || !dirOk {
      return false, Extraction([], Done);
    }
    var data := input.value;
    if |data| < 4 {
      return false, Extraction([], Done);
    }
    var fileCount := ReadInt32(data[..4]);
    var entries: seq<Extracted> := [];
    var pos := 4;
    var i := 0;
    while i < fileCount
      invariant 4 <= pos <= |data| && 0 <= i
      invariant ExtractEntries(data[4..], 0, fileCount, canCreate) ==
        Prepend(entries, ExtractEntries(data[pos..], i, fileCount, canCreate))
      decreases fileCount - i
    {
      var stop, e, next := ExtractEntry(data, pos, i, fileCount, canCreate);
      if stop.Some? {
        return true, Extraction(entries, stop.value);
      }
      PrependCons(entries, e, ExtractEntries(data[next..], i + 1, fileCount, canCreate));
      entries := entries + [e];
      pos, i := next, i + 1;
    }
    ok, result := true, Extraction(entries, Done);
  }
}
