/** The directory archive shared by readFile_fork.c and readFile_pthread.c:
    which directory entries are collected, the temporary file names, the
    byte layout the merge loops write, and what the extraction loops read
    back. Every integer field is little-endian: a 32-bit `int` entry count,
    then per entry a 32-bit name length, the name bytes without their NUL,
    a 64-bit `long long` payload length and the payload. */
module Archive {
  import opened Bytes

  /** A file name as the bytes of `d_name`. */
  type Name = seq<byte>

  /** One `readdir` result: the name, and whether the entry is a regular
      file (`isRegularFile` in the fork version, `d_type == DT_REG` in the
      thread version). */
  datatype DirEntry = DirEntry(name: Name, regular: bool)

  // ---------------------------------------------------------------------
  // Collection

  const Dot: Name := [46]
  const DotDot: Name := [46, 46]

  /** The fork version skips "." and ".." and keeps the regular files, in
      enumeration order. */
  function ForkFiles(listing: seq<DirEntry>): (names: seq<Name>)
    ensures |names| <= |listing|
  {
    if listing == [] then []
    else
      var e := listing[|listing| - 1];
      ForkFiles(listing[..|listing| - 1]) +
        if e.name != Dot && e.name != DotDot && e.regular then [e.name] else []
  }

  /** The thread version keeps the `DT_REG` entries, in enumeration order. */
  function RegularFiles(listing: seq<DirEntry>): (names: seq<Name>)
    ensures |names| <= |listing|
  {
    if listing == [] then []
    else
      var e := listing[|listing| - 1];
      RegularFiles(listing[..|listing| - 1]) + if e.regular then [e.name] else []
  }

  /** The collected names are exactly the regular entries (other than "."
      and ".."), each as often as it is listed and in listing order. */
  lemma {:induction false} ForkFilesExact(listing: seq<DirEntry>)
    ensures forall n :: n in ForkFiles(listing) <==>
      n != Dot && n != DotDot && DirEntry(n, true) in listing
  {
    if listing != [] {
      var init := listing[..|listing| - 1];
      ForkFilesExact(init);
      assert listing == init + [listing[|listing| - 1]];
    }
  }

  lemma {:induction false} RegularFilesExact(listing: seq<DirEntry>)
    ensures forall n :: n in RegularFiles(listing) <==> DirEntry(n, true) in listing
  {
    if listing != [] {
      var init := listing[..|listing| - 1];
      RegularFilesExact(init);
      assert listing == init + [listing[|listing| - 1]];
    }
  }

  /** The files collected from the first entries of a listing lead the
      files collected from all of it. */
  lemma {:induction false} ForkFilesPrefix(listing: seq<DirEntry>, k: nat)
    requires k <= |listing|
    ensures ForkFiles(listing[..k]) <= ForkFiles(listing)
  {
    if k < |listing| {
      var init := listing[..|listing| - 1];
      assert listing[..k] == init[..k];
      ForkFilesPrefix(init, k);
    } else {
      assert listing[..k] == listing;
    }
  }

  lemma {:induction false} RegularFilesPrefix(listing: seq<DirEntry>, k: nat)
    requires k <= |listing|
    ensures RegularFiles(listing[..k]) <= RegularFiles(listing)
  {
    if k < |listing| {
      var init := listing[..|listing| - 1];
      assert listing[..k] == init[..k];
      RegularFilesPrefix(init, k);
    } else {
      assert listing[..k] == listing;
    }
  }

  /** On a listing without "." and ".." marked regular, both versions
      collect the same files. */
  lemma {:induction false} SameCollection(listing: seq<DirEntry>)
    requires forall i :: 0 <= i < |listing| && listing[i].regular ==>
      listing[i].name != Dot && listing[i].name != DotDot
    ensures ForkFiles(listing) == RegularFiles(listing)
  {
    if listing != [] {
      SameCollection(listing[..|listing| - 1]);
    }
  }

  // ---------------------------------------------------------------------
  // Temporary names

  function Digit(d: nat): (c: char)
    requires d < 10
    ensures '0' <= c <= '9'
  {
    ('0' as int + d) as char
  }

  /** `%d` of a nonnegative number. */
  function Dec(n: nat): (s: string)
    ensures s != [] && forall i :: 0 <= i < |s| ==> '0' <= s[i] <= '9'
  {
    if n < 10 then [Digit(n)] else Dec(n / 10) + [Digit(n % 10)]
  }

  /** Reading a string of decimal digits back. */
  function ParseDec(s: string): int
  {
    if s == [] then 0 else 10 * ParseDec(s[..|s| - 1]) + (s[|s| - 1] as int - '0' as int)
  }

  lemma {:induction false} DecRoundTrip(n: nat)
    ensures ParseDec(Dec(n)) == n
  {
    if n >= 10 {
      DecRoundTrip(n / 10);
      var s := Dec(n);
      assert s[..|s| - 1] == Dec(n / 10);
    }
  }

  /** `snprintf(..., "<prefix>%d_%d.bin", getpid(), index)`. */
  function TempName(prefix: string, pid: nat, index: nat): string
  {
    prefix + Dec(pid) + "_" + Dec(index) + ".bin"
  }

  /** Within one process, distinct indices give distinct temporary files. */
  lemma TempNamesDistinct(prefix: string, pid: nat, i: nat, j: nat)
    requires i != j
    ensures TempName(prefix, pid, i) != TempName(prefix, pid, j)
  {
    var head := prefix + Dec(pid) + "_";
    var s, t := TempName(prefix, pid, i), TempName(prefix, pid, j);
    assert s == head + Dec(i) + ".bin";
    assert t == head + Dec(j) + ".bin";
    if s == t {
      assert |Dec(i)| == |Dec(j)|;
      assert s[|head|..|s| - 4] == Dec(i);
      assert t[|head|..|t| - 4] == Dec(j);
      DecRoundTrip(i);
      DecRoundTrip(j);
    }
  }

  /** The temporary names of indices 0 to n - 1. */
  function TempNames(prefix: string, pid: nat, n: nat): (r: seq<string>)
    ensures |r| == n
  {
    seq(n, i requires 0 <= i < n => TempName(prefix, pid, i))
  }

  const ForkCompressPrefix: string := "/tmp/temp_compressed_fork_"
  const PthreadCompressPrefix: string := "/tmp/huffman_temp_"

  // ---------------------------------------------------------------------
  // Merge layouts

  /** A complete entry: name length, name, payload length, payload. */
  function EntryBytes(name: Name, payload: seq<byte>): (r: seq<byte>)
    ensures |r| == 12 + |name| + |payload|
  {
    Int32LE(|name|) + name + Int64LE(|payload|) + payload
  }

  /** The fork merge of one entry: the name is written before the
      temporary file is opened, so a missing one leaves only the name. */
  function ForkEntry(name: Name, temp: Option<seq<byte>>): seq<byte>
  {
    if temp.None? then Int32LE(|name|) + name else EntryBytes(name, temp.value)
  }

  /** The thread merge of one entry: nothing at all for a missing file. */
  function PthreadEntry(name: Name, temp: Option<seq<byte>>): seq<byte>
  {
    if temp.None? then [] else EntryBytes(name, temp.value)
  }

  function ForkEntries(names: seq<Name>, temps: seq<Option<seq<byte>>>): seq<byte>
    requires |names| == |temps|
  {
    if names == [] then [] else ForkEntry(names[0], temps[0]) + ForkEntries(names[1..], temps[1..])
  }

  function PthreadEntries(names: seq<Name>, temps: seq<Option<seq<byte>>>): seq<byte>
    requires |names| == |temps|
  {
    if names == [] then [] else PthreadEntry(names[0], temps[0]) + PthreadEntries(names[1..], temps[1..])
  }

  /** The fork archive: the count, then every entry as `ForkEntry`. */
  function ForkArchive(names: seq<Name>, temps: seq<Option<seq<byte>>>): seq<byte>
    requires |names| == |temps|
  {
    Int32LE(|names|) + ForkEntries(names, temps)
  }

  /** The thread archive: the count of collected files, whether or not
      their temporary files exist, then the entries that do exist. */
  function PthreadArchive(names: seq<Name>, temps: seq<Option<seq<byte>>>): seq<byte>
    requires |names| == |temps|
  {
    Int32LE(|names|) + PthreadEntries(names, temps)
  }

  ghost predicate AllPresent(temps: seq<Option<seq<byte>>>)
  {
    forall i :: 0 <= i < |temps| ==> temps[i].Some?
  }

  /** With every temporary file present both merges write the same bytes. */
  lemma {:induction false} SameArchive(names: seq<Name>, temps: seq<Option<seq<byte>>>)
    requires |names| == |temps| && AllPresent(temps)
    ensures ForkArchive(names, temps) == PthreadArchive(names, temps)
    ensures ForkEntries(names, temps) == PthreadEntries(names, temps)
  {
    if names != [] {
      SameArchive(names[1..], temps[1..]);
    }
  }

  /** One more entry at the end of the fork layout. */
  lemma {:induction false} ForkEntriesSnoc(names: seq<Name>, temps: seq<Option<seq<byte>>>, n: Name, t: Option<seq<byte>>)
    requires |names| == |temps|
    ensures ForkEntries(names + [n], temps + [t]) == ForkEntries(names, temps) + ForkEntry(n, t)
  {
    var ns, ts := names + [n], temps + [t];
    if names == [] {
      assert ns == [n] && ts == [t];
      assert ns[1..] == [] && ts[1..] == [];
    } else {
      assert ns[0] == names[0] && ts[0] == temps[0];
      assert ns[1..] == names[1..] + [n];
      assert ts[1..] == temps[1..] + [t];
      ForkEntriesSnoc(names[1..], temps[1..], n, t);
      var head, tail := ForkEntry(names[0], temps[0]), ForkEntries(names[1..], temps[1..]);
      calc {
        ForkEntries(ns, ts);
        head + ForkEntries(ns[1..], ts[1..]);
        head + (tail + ForkEntry(n, t));
        { ConcatAssoc(head, tail, ForkEntry(n, t)); }
        (head + tail) + ForkEntry(n, t);
      }
    }
  }

  lemma {:induction false} PthreadEntriesSnoc(names: seq<Name>, temps: seq<Option<seq<byte>>>, n: Name, t: Option<seq<byte>>)
    requires |names| == |temps|
    ensures PthreadEntries(names + [n], temps + [t]) == PthreadEntries(names, temps) + PthreadEntry(n, t)
  {
    var ns, ts := names + [n], temps + [t];
    if names == [] {
      assert ns == [n] && ts == [t];
      assert ns[1..] == [] && ts[1..] == [];
    } else {
      assert ns[0] == names[0] && ts[0] == temps[0];
      assert ns[1..] == names[1..] + [n];
      assert ts[1..] == temps[1..] + [t];
      PthreadEntriesSnoc(names[1..], temps[1..], n, t);
      var head, tail := PthreadEntry(names[0], temps[0]), PthreadEntries(names[1..], temps[1..]);
      calc {
        PthreadEntries(ns, ts);
        head + PthreadEntries(ns[1..], ts[1..]);
        head + (tail + PthreadEntry(n, t));
        { ConcatAssoc(head, tail, PthreadEntry(n, t)); }
        (head + tail) + PthreadEntry(n, t);
      }
    }
  }

  // ---------------------------------------------------------------------
  // Extraction

  /** The name as the C string `name[nameLength] = '\0'` leaves: up to the
      first NUL. */
  function CString(s: seq<byte>): (r: Name)
    ensures |r| <= |s| && r == s[..|r|]
  {
    if s == [] || s[0] == 0 then [] else [s[0]] + CString(s[1..])
  }

  ghost predicate NoNul(name: Name)
  {
    forall i :: 0 <= i < |name| ==> name[i] != 0
  }

  lemma {:induction false} CStringNoNul(s: Name)
    requires NoNul(s)
    ensures CString(s) == s
  {
    if s != [] {
      CStringNoNul(s[1..]);
    }
  }

  /** How extraction ended: all entries read; input ran out while reading a
      field (the C code would go on with indeterminate values); a name
      length, negative or of 256 or more, that puts the reads and the NUL
      outside the 256-byte name buffer; or a payload longer than
      what is left, where the copy loop's `fread` keeps returning 0 and the
      loop never ends. */
  datatype Status = Done | Truncated | BadName | Stuck

  /** One extracted entry: its name and the bytes of its temporary file,
      None when that file could not be created. */
  datatype Extracted = Extracted(name: Name, payload: Option<seq<byte>>)

  datatype Extraction = Extraction(entries: seq<Extracted>, status: Status)

  /** The three fixed reads of an entry, before its payload. */
  datatype EntryHead = Short | BadLength | Head(name: Name, size: int, after: seq<byte>)

  function ReadHead(rest: seq<byte>): (h: EntryHead)
    ensures h.Head? ==> |h.after| < |rest|
  {
    if |rest| < 4 then Short
    else
      var len := ReadInt32(rest[..4]);
      if len < 0 || len >= 256 then BadLength
      else if |rest| < 12 + len then Short
      else Head(CString(rest[4..4 + len]), ReadInt64(rest[4 + len..12 + len]), rest[12 + len..])
  }

  function Cons(e: Extracted, x: Extraction): Extraction
  {
    Extraction([e] + x.entries, x.status)
  }

  /** The entries read so far in front of what the rest of the loop reads. */
  function Prepend(done: seq<Extracted>, x: Extraction): Extraction
  {
    Extraction(done + x.entries, x.status)
  }

  /** The thread version never checks that a temporary file was created. */
  function AlwaysCreate(i: int): bool
  {
    true
  }

  /** The extraction loop from entry `i` to `count` over the bytes not yet
      read. `canCreate(i)` says whether the temporary file of entry `i` can
      be created; when it cannot, the fork version skips the copy without
      reading the payload. */
  function ExtractEntries(rest: seq<byte>, i: int, count: int, canCreate: int -> bool): Extraction
    decreases if i < count then count - i else 0
  {
    if i >= count then Extraction([], Done)
    else match ReadHead(rest)
      case Short => Extraction([], Truncated)
      case BadLength => Extraction([], BadName)
      case Head(name, size, after) =>
        if !canCreate(i) then Cons(Extracted(name, None), ExtractEntries(after, i + 1, count, canCreate))
        else if size <= 0 then Cons(Extracted(name, Some([])), ExtractEntries(after, i + 1, count, canCreate))
        else if |after| < size then Extraction([], Stuck)
        else Cons(Extracted(name, Some(after[..size])), ExtractEntries(after[size..], i + 1, count, canCreate))
  }

  /** The three `fread`s before an entry's payload, at byte `pos`: the
      name length, the name and the payload length. */
  method ReadEntryHead(input: seq<byte>, pos: nat) returns (h: EntryHead, next: nat)
    requires pos <= |input|
    ensures h == ReadHead(input[pos..])
    ensures h.Head? ==> pos < next <= |input| && input[next..] == h.after
  {
    var rest := input[pos..];
    if |input| - pos < 4 {
      return Short, pos;
    }
    assert rest[..4] == input[pos..pos + 4];
    var nameLength := ReadInt32(input[pos..pos + 4]);
    if nameLength < 0 || nameLength >= 256 {
      return BadLength, pos;
    }
    if |input| - pos < 12 + nameLength {
      return Short, pos;
    }
    assert rest[4..4 + nameLength] == input[pos + 4..pos + 4 + nameLength];
    var name := CString(input[pos + 4..pos + 4 + nameLength]);
    assert rest[4 + nameLength..12 + nameLength] == input[pos + 4 + nameLength..pos + 12 + nameLength];
    var compressedSize := ReadInt64(input[pos + 4 + nameLength..pos + 12 + nameLength]);
    next := pos + 12 + nameLength;
    assert rest[12 + nameLength..] == input[next..];
    h := Head(name, compressedSize, input[next..]);
  }

  /** The copy loop: `size` bytes from `pos` in chunks of at most 4096.
      When fewer bytes are left, `fread` returns 0 once they are used up and
      `bytesRemaining` never reaches 0: the loop does not end (`stuck`). */
  method CopyPayload(input: seq<byte>, pos: nat, size: int) returns (stuck: bool, payload: seq<byte>, next: nat)
    requires pos <= |input|
    ensures stuck <==> size > 0 && |input| - pos < size
    ensures !stuck ==> var n := if size > 0 then size else 0;
      next == pos + n <= |input| && payload == input[pos..next]
  {
    var bytesRemaining := size;
    payload := [];
    next := pos;
    while bytesRemaining > 0
      invariant pos <= next <= |input|
      invariant payload == input[pos..next]
      invariant bytesRemaining == size - (next - pos)
      invariant size > 0 ==> bytesRemaining >= 0
      invariant size <= 0 ==> next == pos
      decreases bytesRemaining
    {
      var bytesToRead := if bytesRemaining < 4096 then bytesRemaining else 4096;
      var bytesRead := if |input| - next < bytesToRead then |input| - next else bytesToRead;
      if bytesRead == 0 {
        return true, payload, next;
      }
      payload := payload + input[next..next + bytesRead];
      next := next + bytesRead;
      bytesRemaining := bytesRemaining - bytesRead;
    }
    stuck := false;
  }

  /** One pass of an extraction loop's body, for entry `i` at byte `pos`:
      either the loop ends here with `stop`, or entry `e` is read and the
      loop goes on at `next`. */
  method ExtractEntry(input: seq<byte>, pos: nat, i: int, count: int, canCreate: int -> bool)
    returns (stop: Option<Status>, e: Extracted, next: nat)
    requires pos <= |input| && i < count
    ensures stop.Some? ==> ExtractEntries(input[pos..], i, count, canCreate) == Extraction([], stop.value)
    ensures stop.None? ==>
      pos < next <= |input| &&
      ExtractEntries(input[pos..], i, count, canCreate) == Cons(e, ExtractEntries(input[next..], i + 1, count, canCreate))
  {
    var h, afterHead := ReadEntryHead(input, pos);
    e := Extracted([], None);
    next := pos;
    if h.Short? {
      return Some(Truncated), e, next;
    }
    if h.BadLength? {
      return Some(BadName), e, next;
    }
    if !canCreate(i) {
      return None, Extracted(h.name, None), afterHead;
    }
    var stuck, payload, after := CopyPayload(input, afterHead, h.size);
    if stuck {
      return Some(Stuck), e, next;
    }
    AfterPayload(input, afterHead, after, h.size);
    return None, Extracted(h.name, Some(payload)), after;
  }

  lemma PrependCons(done: seq<Extracted>, e: Extracted, x: Extraction)
    ensures Prepend(done, Cons(e, x)) == Prepend(done + [e], x)
  {
    assert done + ([e] + x.entries) == (done + [e]) + x.entries;
  }

  /** Where the copy loop leaves the read position, as slices. */
  lemma AfterPayload(input: seq<byte>, next: nat, after: nat, size: int)
    requires next <= after <= |input| && after == next + (if size > 0 then size else 0)
    ensures size > 0 ==> input[next..][..size] == input[next..after] && input[next..][size..] == input[after..]
    ensures size <= 0 ==> input[next..] == input[after..] && input[next..after] == []
  {
  }

  /** The entries a merge writes when every temporary file is present. */
  function Entries(names: seq<Name>, temps: seq<Option<seq<byte>>>): (r: seq<Extracted>)
    requires |names| == |temps|
    ensures |r| == |names|
  {
    if names == [] then [] else [Extracted(names[0], temps[0])] + Entries(names[1..], temps[1..])
  }

  lemma {:induction false} EntriesAt(names: seq<Name>, temps: seq<Option<seq<byte>>>, i: nat)
    requires |names| == |temps| && i < |names|
    ensures Entries(names, temps)[i] == Extracted(names[i], temps[i])
  {
    if i > 0 {
      EntriesAt(names[1..], temps[1..], i - 1);
    }
  }

  /** The entries of the files that are present, in order. */
  function PresentEntries(names: seq<Name>, temps: seq<Option<seq<byte>>>): (r: seq<Extracted>)
    requires |names| == |temps|
    ensures |r| <= |names|
  {
    if names == [] then []
    else (if temps[0].Some? then [Extracted(names[0], temps[0])] else []) + PresentEntries(names[1..], temps[1..])
  }

  ghost predicate FitNames(names: seq<Name>)
  {
    forall i :: 0 <= i < |names| ==> |names[i]| < 256 && NoNul(names[i])
  }

  ghost predicate FitPayloads(temps: seq<Option<seq<byte>>>)
  {
    forall i :: 0 <= i < |temps| ==> temps[i].Some? ==> |temps[i].value| < Two63
  }

  /** Reading one written entry back gives its name, size and what
      follows. */
  lemma ReadEntry(name: Name, payload: seq<byte>, rest: seq<byte>)
    requires |name| < 256 && NoNul(name) && |payload| < Two63
    ensures ReadHead(EntryBytes(name, payload) + rest) == Head(name, |payload|, payload + rest)
  {
    var s := EntryBytes(name, payload) + rest;
    var len := |name|;
    EntrySlices(name, payload, rest);
    Int32RoundTrip(len);
    CStringNoNul(name);
    Int64RoundTrip(|payload|);
  }

  lemma EntrySlices(name: Name, payload: seq<byte>, rest: seq<byte>)
    ensures var s := EntryBytes(name, payload) + rest;
      var len := |name|;
      && s[..4] == Int32LE(len)
      && s[4..4 + len] == name
      && s[4 + len..12 + len] == Int64LE(|payload|)
      && s[12 + len..] == payload + rest
  {
    var s := EntryBytes(name, payload) + rest;
    var len := |name|;
    var a, c, d := Int32LE(len), Int64LE(|payload|), payload + rest;
    var cd := c + d;
    var t := name + cd;
    assert s == a + t;
    assert s[..4] == a && s[4..] == t;
    assert t[..len] == name && t[len..] == cd;
    assert cd[..8] == c && cd[8..] == d;
    assert s[4..4 + len] == t[..len];
    assert s[4 + len..12 + len] == t[len..][..8];
    assert s[12 + len..] == t[len..][8..];
  }

  /** Extraction undoes the thread merge: it recovers the entries of the
      present files in order, and when some were missing, the stored count
      promises more entries than follow, so the next read runs out. */
  lemma {:induction false} ExtractPthreadEntries(names: seq<Name>, temps: seq<Option<seq<byte>>>, i: int, count: int, canCreate: int -> bool)
    requires |names| == |temps| && FitNames(names) && FitPayloads(temps)
    requires count >= i + |PresentEntries(names, temps)|
    requires forall k :: i <= k < count ==> canCreate(k)
    ensures ExtractEntries(PthreadEntries(names, temps), i, count, canCreate) ==
      Extraction(PresentEntries(names, temps),
                 if count == i + |PresentEntries(names, temps)| then Done else Truncated)
  {
    if names != [] {
      var rest := PthreadEntries(names[1..], temps[1..]);
      var present := PresentEntries(names[1..], temps[1..]);
      if temps[0].Some? {
        var p := temps[0].value;
        var e := Extracted(names[0], temps[0]);
        assert PthreadEntries(names, temps) == EntryBytes(names[0], p) + rest;
        assert PresentEntries(names, temps) == [e] + present;
        ReadEntry(names[0], p, rest);
        var after := p + rest;
        assert after[..|p|] == p && after[|p|..] == rest;
        ExtractPthreadEntries(names[1..], temps[1..], i + 1, count, canCreate);
        if |p| == 0 {
          assert after == rest;
        }
        assert ExtractEntries(PthreadEntries(names, temps), i, count, canCreate) ==
          Cons(e, ExtractEntries(rest, i + 1, count, canCreate));
      } else {
        assert PthreadEntries(names, temps) == rest;
        ExtractPthreadEntries(names[1..], temps[1..], i, count, canCreate);
      }
    }
  }

  /** The archive round trip, for either merge: when every temporary file
      was present, every name fits the name buffer and has no NUL, and the
      payloads and the count fit their fields, extraction reads back
      exactly the merged names and payloads, in order. */
  lemma ArchiveRoundTrip(names: seq<Name>, temps: seq<Option<seq<byte>>>, canCreate: int -> bool)
    requires |names| == |temps| && |names| < Two31
    requires AllPresent(temps) && FitNames(names) && FitPayloads(temps)
    requires forall k :: 0 <= k < |names| ==> canCreate(k)
    ensures var archive := ForkArchive(names, temps);
      && archive == PthreadArchive(names, temps)
      && ReadInt32(archive[..4]) == |names|
      && ExtractEntries(archive[4..], 0, |names|, canCreate) == Extraction(Entries(names, temps), Done)
  {
    SameArchive(names, temps);
    Int32RoundTrip(|names|);
    var archive := PthreadArchive(names, temps);
    assert archive[..4] == Int32LE(|names|);
    assert archive[4..] == PthreadEntries(names, temps);
    AllPresentEntries(names, temps);
    ExtractPthreadEntries(names, temps, 0, |names|, canCreate);
  }

  lemma {:induction false} AllPresentEntries(names: seq<Name>, temps: seq<Option<seq<byte>>>)
    requires |names| == |temps| && AllPresent(temps)
    ensures PresentEntries(names, temps) == Entries(names, temps)
  {
    if names != [] {
      AllPresentEntries(names[1..], temps[1..]);
    }
  }

  /** The fork merge with a missing temporary file: the next entry's name
      length and name are read as the missing entry's payload length, and
      here that length is far beyond the input, so extraction never ends. */
  lemma ForkMissingHangs()
    ensures var names: seq<Name> := [[97], [98]];
      var temps: seq<Option<seq<byte>>> := [None, Some([])];
      ExtractEntries(ForkArchive(names, temps)[4..], 0, 2, AlwaysCreate) == Extraction([], Stuck)
  {
    var rest := MissingLayout();
    MissingHead(rest);
  }

  /** The bytes after the count when the first of two one-letter names
      has no temporary file. */
  lemma MissingLayout() returns (rest: seq<byte>)
    ensures var names: seq<Name> := [[97], [98]];
      var temps: seq<Option<seq<byte>>> := [None, Some([])];
      && rest == ForkArchive(names, temps)[4..]
      && rest == [1, 0, 0, 0] + [97] + [1, 0, 0, 0] + [98] + [0, 0, 0, 0, 0, 0, 0, 0]
  {
    var names: seq<Name> := [[97], [98]];
    var temps: seq<Option<seq<byte>>> := [None, Some([])];
    Pow256Values();
    rest := ForkEntries(names, temps);
    assert ForkEntries(names[1..], temps[1..]) == EntryBytes([98], []) + ForkEntries([], []);
    assert rest == Int32LE(1) + [97] + Int32LE(1) + [98] + Int64LE(0);
    assert Int32LE(1) == [1, 0, 0, 0];
    assert Int64LE(0) == [0, 0, 0, 0, 0, 0, 0, 0];
  }

  /** Those bytes read as the name "a" with a payload of 1 + 98 * 2^32
      bytes, but only five bytes follow. */
  lemma MissingHead(rest: seq<byte>)
    requires rest == [1, 0, 0, 0] + [97] + [1, 0, 0, 0] + [98] + [0, 0, 0, 0, 0, 0, 0, 0]
    ensures ReadHead(rest) == Head([97], 1 + 98 * Two32, rest[13..]) && |rest[13..]| == 5
    ensures ExtractEntries(rest, 0, 2, AlwaysCreate) == Extraction([], Stuck)
  {
    var one: seq<byte> := [1, 0, 0, 0];
    var zeros: seq<byte> := [0, 0, 0, 0, 0, 0, 0, 0];
    Pow256Values();
    FromLEZeros(one[1..]);
    assert FromLE(one) == 1;
    assert rest[..4] == one;
    assert rest[4..4 + 1] == [97];
    var high := [98 as byte] + zeros[..3];
    assert rest[5..13] == one + high;
    FromLEAppend(one, high);
    FromLEZeros(zeros[..3]);
    assert FromLE(high) == 98;
    assert rest[13..] == zeros[3..];
  }

  /** The fork merge with its first temporary file missing, in general:
      the missing entry's payload length is read from the next entry's
      name length and the first four bytes of its name. When that name is
      at least four ASCII bytes long (no NUL, top byte below 128) the
      misread length is positive and at least 2^32, beyond any archive
      shorter than 2^32 bytes, so the copy loop never ends. */
  lemma ForkMissingStuck(names: seq<Name>, temps: seq<Option<seq<byte>>>, canCreate: int -> bool)
    requires |names| == |temps| >= 2 && FitNames(names)
    requires temps[0].None?
    requires |names[1]| >= 4 && names[1][3] < 128
    requires |ForkArchive(names, temps)| <= Two32
    requires canCreate(0)
    ensures ExtractEntries(ForkArchive(names, temps)[4..], 0, |names|, canCreate) == Extraction([], Stuck)
  {
    var rest := ForkArchive(names, temps)[4..];
    var n0, n1 := names[0], names[1];
    var l0, l1 := |n0|, |n1|;
    var tail, z := MissingSplit(names, temps);
    var field := rest[4 + l0..12 + l0];
    assert rest[..4] == Int32LE(l0) && rest[4..4 + l0] == n0;
    assert field == Int32LE(l1) + n1[..4];
    Int32RoundTrip(l0);
    CStringNoNul(n0);
    var size := MisreadSize(l1, n1);
    assert ReadInt64(field) == size;
    assert ReadHead(rest) == Head(n0, size, rest[12 + l0..]);
  }

  /** The bytes after the count when the first temporary file is missing:
      the first name's length and bytes, then straight away the second
      entry's name length and name. */
  lemma MissingSplit(names: seq<Name>, temps: seq<Option<seq<byte>>>) returns (tail: seq<byte>, z: seq<byte>)
    requires |names| == |temps| >= 2 && temps[0].None?
    ensures ForkArchive(names, temps)[4..] == Int32LE(|names[0]|) + names[0] + tail
    ensures tail == Int32LE(|names[1]|) + names[1] + z
  {
    ForkArchiveEntries(names, temps);
    tail := ForkEntries(names[1..], temps[1..]);
    assert ForkEntries(names, temps) == ForkEntry(names[0], temps[0]) + tail;
    z := ForkEntriesStart(names[1..], temps[1..]);
  }

  /** After the count, the fork archive is its entries. */
  lemma ForkArchiveEntries(names: seq<Name>, temps: seq<Option<seq<byte>>>)
    requires |names| == |temps|
    ensures ForkArchive(names, temps)[4..] == ForkEntries(names, temps)
  {
    assert |Int32LE(|names|)| == 4;
  }

  /** A non-empty run of fork entries starts with the first name's length
      and bytes. */
  lemma ForkEntriesStart(names: seq<Name>, temps: seq<Option<seq<byte>>>) returns (z: seq<byte>)
    requires |names| == |temps| >= 1
    ensures ForkEntries(names, temps) == Int32LE(|names[0]|) + names[0] + z
  {
    var head := Int32LE(|names[0]|) + names[0];
    var w := ForkEntryRest(names[0], temps[0]);
    var more := ForkEntries(names[1..], temps[1..]);
    assert ForkEntries(names, temps) == ForkEntry(names[0], temps[0]) + more;
    z := w + more;
    ConcatAssoc(head, w, more);
  }

  lemma ConcatAssoc(a: seq<byte>, b: seq<byte>, c: seq<byte>)
    ensures (a + b) + c == a + (b + c)
  {
  }

  /** Every fork entry starts with the name length and the name. */
  lemma ForkEntryRest(name: Name, temp: Option<seq<byte>>) returns (w: seq<byte>)
    ensures ForkEntry(name, temp) == Int32LE(|name|) + name + w
  {
    if temp.None? {
      w := [];
    } else {
      w := Int64LE(|temp.value|) + temp.value;
    }
  }

  /** The 64-bit value of a name length followed by four name bytes whose
      first is not NUL and whose last is below 128: at least 2^32, and
      not negative as a `long long`. */
  lemma MisreadSize(l1: nat, n1: Name) returns (size: int)
    requires l1 < 256 && |n1| >= 4 && n1[0] != 0 && n1[3] < 128
    ensures ReadInt64(Int32LE(l1) + n1[..4]) == size
    ensures size >= Two32
  {
    var lo, hi := Int32LE(l1), n1[..4];
    Pow256Values();
    FromLEAppend(lo, hi);
    FromLEBound(lo);
    var h := FromLE(hi);
    assert h >= 1 by {
      assert hi[0] == n1[0];
    }
    assert h < Two31 by {
      assert hi == hi[..3] + [hi[3]];
      FromLEAppend(hi[..3], [hi[3]]);
      FromLEBound(hi[..3]);
      assert Pow256(3) == 0x100_0000;
      assert FromLE([hi[3]]) == hi[3] as nat;
    }
    assert Two32 * h >= Two32 by { MulAtLeast(h, Two32); }
    assert (Two31 - h) * Two32 >= Two32 by { MulAtLeast(Two31 - h, Two32); }
    size := FromLE(lo + hi);
  }

  lemma {:induction false} FromLEZeros(s: seq<byte>)
    requires forall i :: 0 <= i < |s| ==> s[i] == 0
    ensures FromLE(s) == 0
  {
    if s != [] {
      FromLEZeros(s[1..]);
    }
  }
}
