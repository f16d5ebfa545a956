/** The 256-slot frequency table of readFile.c: `alphabet[256]` with its
    initialisation, `addLetterFrequency`, `readTextFile`, `countSize` and
    `terribleSort`. The C table is one process-wide global; here each
    compression owns an `Alphabet` object. */
module FrequencyTable {
  import opened Bytes
  import opened Tree

  /** The frequency column of a table. */
  function FreqsOf(s: seq<Letter>): (f: seq<nat>)
    ensures |f| == |s|
    ensures forall i :: 0 <= i < |s| ==> f[i] == s[i].frequency
  {
    seq(|s|, i requires 0 <= i < |s| => s[i].frequency)
  }

  /** How many entries are nonzero. */
  function NonZeroCount(f: seq<nat>): (n: nat)
    ensures n <= |f|
  {
    if f == [] then 0 else NonZeroCount(f[..|f| - 1]) + if f[|f| - 1] != 0 then 1 else 0
  }

  /** The histogram of a byte stream: slot b counts the b's. */
  function Histogram(input: seq<byte>): (h: seq<nat>)
    ensures |h| == 256
  {
    seq(256, b requires 0 <= b < 256 => multiset(input)[b as byte])
  }

  /** `alphabet` after initialisation: slot i holds letter i, frequency 0. */
  ghost predicate Initialised(s: seq<Letter>)
  {
    |s| == 256 && forall i :: 0 <= i < 256 ==> s[i] == Letter(i as byte, 0)
  }

  /** `initAlphabet(alphabet)`: every slot gets frequency 0 and its own
      index as letter. */
  method InitAlphabet(alphabet: array<Letter>)
    requires alphabet.Length == 256
    modifies alphabet
    ensures Initialised(alphabet[..])
  {
    for i := 0 to 256
      invariant forall j :: 0 <= j < i ==> alphabet[j] == Letter(j as byte, 0)
    {
      alphabet[i] := Letter(i as byte, 0);
    }
  }

  /** Heavier first, and among equal frequencies the smaller symbol first:
      the order in which `terribleSort` lists letters. */
  ghost predicate HeavierFirst(a: Letter, b: Letter)
  {
    a.frequency > b.frequency || (a.frequency == b.frequency && a.letter < b.letter)
  }

  /** `r` lists every letter of nonzero frequency in `freqs` once, with its
      frequency, in `HeavierFirst` order. */
  ghost predicate TerribleOrder(r: seq<Letter>, freqs: seq<nat>)
    requires |freqs| == 256
  {
    && (forall k :: 0 <= k < |r| ==> 0 < r[k].frequency == freqs[r[k].letter])
    && (forall b: byte :: freqs[b] > 0 ==> exists k :: 0 <= k < |r| && r[k].letter == b)
    && (forall i, j :: 0 <= i < j < |r| ==> HeavierFirst(r[i], r[j]))
  }

  /** Slot i describes symbol i. */
  ghost predicate InPlace(s: seq<Letter>)
  {
    |s| == 256 && forall i :: 0 <= i < 256 ==> s[i].letter as int == i
  }

  /** The global `struct letter alphabet[256]`. */
  class Alphabet {
    const slots: array<Letter>

    /** Slot i always describes symbol i. */
    ghost predicate Valid()
      reads this, slots
    {
      slots.Length == 256 && InPlace(slots[..])
    }

    ghost function Frequencies(): (f: seq<nat>)
      reads this, slots
      ensures |f| == slots.Length
    {
      FreqsOf(slots[..])
    }

    /** A fresh table, already passed through `initGlobalAlphabet`. */
    constructor ()
      ensures Valid() && fresh(slots)
      ensures Initialised(slots[..])
    {
      slots := new Letter[256];
      new;
      InitAlphabet(slots);
    }

    /** `initGlobalAlphabet()`. */
    method InitGlobalAlphabet()
      requires slots.Length == 256
      modifies slots
      ensures Valid() && Initialised(slots[..])
    {
      InitAlphabet(slots);
    }

    /** `addLetterFrequency(letter)`: exactly one slot gains one. */
    method AddLetterFrequency(letter: byte)
      requires Valid()
      modifies slots
      ensures Valid()
      ensures Frequencies() == old(Frequencies())[letter as int := old(Frequencies())[letter] + 1]
    {
      var index := letter as int;
      slots[index] := slots[index].(frequency := slots[index].frequency + 1);
    }

    /** `readTextFile(fileName)`: a missing file changes nothing; otherwise
        every byte of the file is counted in its slot. */
    method ReadTextFile(file: Option<seq<byte>>)
      requires Valid()
      modifies slots
      ensures Valid()
      ensures file.None? ==> Frequencies() == old(Frequencies())
      ensures file.Some? ==> forall b :: 0 <= b < 256 ==>
        Frequencies()[b] == old(Frequencies())[b] + multiset(file.value)[b as byte]
    {
      if file.None? {
        return;
      }
      var input := file.value;
      for i := 0 to |input|
        invariant Valid()
        invariant forall b :: 0 <= b < 256 ==>
          Frequencies()[b] == old(Frequencies())[b] + multiset(input[..i])[b as byte]
      {
        assert input[..i + 1] == input[..i] + [input[i]];
        AddLetterFrequency(input[i]);
      }
      assert input[..|input|] == input;
    }

    /** `countSize()`: the number of nonzero slots. */
    method CountSize() returns (amount: int)
      requires Valid()
      ensures amount == NonZeroCount(Frequencies())
    {
      amount := 0;
      for i := 0 to 256
        invariant amount == NonZeroCount(FreqsOf(slots[..i]))
      {
        assert FreqsOf(slots[..i + 1])[..i] == FreqsOf(slots[..i]);
        if slots[i].frequency != 0 {
          amount := amount + 1;
        }
      }
      assert slots[..256] == slots[..];
    }

    /** `alphabet[i].frequency = 0`. */
    method ClearSlot(i: int)
      requires Valid() && 0 <= i < 256
      modifies slots
      ensures Valid()
      ensures Frequencies() == old(Frequencies())[i := 0]
    {
      slots[i] := slots[i].(frequency := 0);
    }

    /** The scan of `terribleSort`: the heaviest slot, the first one among
        equal maxima (it only replaces on a strictly larger frequency); the
        letter-0 placeholder with frequency 0 when every slot is empty. */
    method FindBiggest() returns (biggestYet: Letter)
      requires Valid()
      ensures biggestYet.frequency == 0 ==>
        biggestYet.letter == 0 && forall j :: 0 <= j < 256 ==> Frequencies()[j] == 0
      ensures biggestYet.frequency > 0 ==>
        FirstMax(Frequencies(), biggestYet.letter as int) && biggestYet == slots[biggestYet.letter]
    {
      biggestYet := Letter(0, 0);
      for i := 0 to 256
        invariant forall j :: 0 <= j < i ==> slots[j].frequency <= biggestYet.frequency
        invariant biggestYet.frequency == 0 ==> biggestYet.letter == 0
        invariant biggestYet.frequency > 0 ==>
          && biggestYet.letter as int < i
          && slots[biggestYet.letter] == biggestYet
          && forall j :: 0 <= j < biggestYet.letter as int ==> slots[j].frequency < biggestYet.frequency
      {
        var currentFreq := slots[i].frequency;
        if currentFreq > biggestYet.frequency {
          biggestYet := Letter(slots[i].letter, currentFreq);
        }
      }
    }

    /** One round of `terribleSort`: find the heaviest slot and zero it;
        its letter extends the listing without breaking `SortState`. */
    method TakeBiggest(ghost cur: seq<nat>, ghost done: seq<Letter>, ghost orig: seq<nat>)
      returns (biggestYet: Letter)
      requires Valid() && cur == Frequencies() && |orig| == 256
      requires SortState(done, cur, orig)
      modifies slots
      ensures Valid()
      ensures biggestYet.frequency == 0 ==>
        Frequencies() == cur && forall j :: 0 <= j < 256 ==> cur[j] == 0
      ensures biggestYet.frequency > 0 ==>
        && cur[biggestYet.letter] == biggestYet.frequency
        && Frequencies() == cur[biggestYet.letter as int := 0]
        && SortState(done + [biggestYet], cur[biggestYet.letter as int := 0], orig)
    {
      biggestYet := FindBiggest();
      if biggestYet.frequency == 0 {
        return;
      }
      var m := biggestYet.letter as int;
      ClearSlot(m);
      assert biggestYet == Letter(m as byte, cur[m]);
      SortStep(done, cur, orig, m, biggestYet);
    }

    /** `terribleSort()`: size the result by the nonzero count, then
        repeatedly take the heaviest slot, append it and zero it, until
        nothing is left; the table ends all zero. */
    method TerribleSort() returns (resultList: array<Letter>)
      requires Valid()
      modifies slots
      ensures Valid() && fresh(resultList)
      ensures forall b :: 0 <= b < 256 ==> Frequencies()[b] == 0
      ensures resultList.Length == NonZeroCount(old(Frequencies()))
      ensures TerribleOrder(resultList[..], old(Frequencies()))
    {
      var amount := CountSize();
      resultList := new Letter[amount];
      FillResults(resultList);
    }

    /** The `while (true)` loop of `terribleSort`, filling `resultList`
        from the left. */
    method FillResults(resultList: array<Letter>)
      requires Valid() && resultList != slots
      requires resultList.Length == NonZeroCount(Frequencies())
      modifies slots, resultList
      ensures Valid()
      ensures forall b :: 0 <= b < 256 ==> Frequencies()[b] == 0
      ensures TerribleOrder(resultList[..], old(Frequencies()))
    {
      ghost var orig := Frequencies();
      var amount := resultList.Length;
      var resultArrayLeftIndex := 0;
      ghost var cur, done := orig, [];
      SortStart(orig);
      while true
        invariant Valid() && cur == Frequencies()
        invariant 0 <= resultArrayLeftIndex <= amount <= 256
        invariant resultList[..resultArrayLeftIndex] == done
        invariant resultArrayLeftIndex + NonZeroCount(cur) == amount
        invariant SortState(done, cur, orig)
        decreases NonZeroCount(cur)
      {
        var biggestYet := TakeBiggest(cur, done, orig);
        if biggestYet.frequency == 0 {
          AllZeroCount(cur);
          break;
        }
        var m := biggestYet.letter as int;
        ZeroOneCount(cur, m);
        resultList[resultArrayLeftIndex] := biggestYet;
        assert resultList[..resultArrayLeftIndex + 1] == done + [biggestYet];
        resultArrayLeftIndex := resultArrayLeftIndex + 1;
        done, cur := done + [biggestYet], cur[m := 0];
        if resultArrayLeftIndex > 255 {
          break;
        }
      }
      NoneLeft(cur, amount - resultArrayLeftIndex);
      assert resultList[..] == done;
      SortDone(done, cur, orig);
    }
  }

  /** `m` is the first slot of largest, nonzero frequency. */
  ghost predicate FirstMax(cur: seq<nat>, m: int)
    requires |cur| == 256
  {
    && 0 <= m < 256 && cur[m] > 0
    && (forall j :: 0 <= j < 256 ==> cur[j] <= cur[m])
    && (forall j :: 0 <= j < m ==> cur[j] < cur[m])
  }

  /** The letters of a listing, in order. */
  function LettersOf(r: seq<Letter>): (c: seq<byte>)
    ensures |c| == |r|
    ensures forall k :: 0 <= k < |r| ==> c[k] == r[k].letter
  {
    seq(|r|, k requires 0 <= k < |r| => r[k].letter)
  }

  /** Where `terribleSort` stands after listing `r`: `cur` is the table so
      far (each slot either untouched or zeroed), every listed letter was
      nonzero and is now zeroed, neighbours in the listing are ordered, the
      last listed letter goes before every letter still in the table, and
      every zeroed letter is listed. */
  ghost predicate SortState(r: seq<Letter>, cur: seq<nat>, orig: seq<nat>)
    requires |cur| == 256 && |orig| == 256
  {
    && (forall b :: 0 <= b < 256 ==> cur[b] == 0 || cur[b] == orig[b])
    && (forall k :: 0 <= k < |r| ==> 0 < r[k].frequency == orig[r[k].letter] && cur[r[k].letter] == 0)
    && (forall k :: 0 < k < |r| ==> HeavierFirst(r[k - 1], r[k]))
    && (r != [] ==> forall b :: 0 <= b < 256 && cur[b] > 0 ==> HeavierFirst(r[|r| - 1], Letter(b as byte, cur[b])))
    && (forall b :: 0 <= b < 256 && orig[b] > 0 && cur[b] == 0 ==> b as byte in LettersOf(r))
  }

  /** Nothing listed yet, the table untouched. */
  lemma SortStart(orig: seq<nat>)
    requires |orig| == 256
    ensures SortState([], orig, orig)
  {
    assert LettersOf([]) == [];
  }

  /** Taking the first heaviest slot keeps `SortState`. */
  lemma SortStep(r: seq<Letter>, cur: seq<nat>, orig: seq<nat>, m: int, x: Letter)
    requires |cur| == 256 && |orig| == 256
    requires SortState(r, cur, orig) && FirstMax(cur, m) && x == Letter(m as byte, cur[m])
    ensures SortState(r + [x], cur[m := 0], orig)
  {
    var r', cur' := r + [x], cur[m := 0];
    assert LettersOf(r') == LettersOf(r) + [x.letter];
    forall b | 0 <= b < 256 && cur'[b] > 0
      ensures HeavierFirst(x, Letter(b as byte, cur'[b]))
    {
      if b < m { assert cur[b] < cur[m]; }
    }
  }

  /** Neighbour order is order. */
  lemma {:induction false} ChainOrdered(r: seq<Letter>)
    requires forall k :: 0 < k < |r| ==> HeavierFirst(r[k - 1], r[k])
    ensures forall i, j :: 0 <= i < j < |r| ==> HeavierFirst(r[i], r[j])
  {
    if r != [] {
      var init := r[..|r| - 1];
      assert forall k :: 0 < k < |init| ==> HeavierFirst(init[k - 1], init[k]);
      ChainOrdered(init);
      assert forall i, j :: 0 <= i < j < |r| - 1 ==> HeavierFirst(r[i], r[j]);
      forall i | 0 <= i < |r| - 1
        ensures HeavierFirst(r[i], r[|r| - 1])
      {
        if i < |r| - 2 { assert HeavierFirst(r[i], r[|r| - 2]); }
      }
    }
  }

  /** Once the table is empty the listing is the one `TerribleOrder` names. */
  lemma SortDone(r: seq<Letter>, cur: seq<nat>, orig: seq<nat>)
    requires |cur| == 256 && |orig| == 256
    requires SortState(r, cur, orig)
    requires forall b :: 0 <= b < 256 ==> cur[b] == 0
    ensures TerribleOrder(r, orig)
  {
    ChainOrdered(r);
    forall b: byte | orig[b] > 0
      ensures exists k :: 0 <= k < |r| && r[k].letter == b
    {
      assert b in LettersOf(r);
      var k :| 0 <= k < |r| && LettersOf(r)[k] == b;
    }
  }

  lemma {:induction false} AllZeroCount(f: seq<nat>)
    requires forall i :: 0 <= i < |f| ==> f[i] == 0
    ensures NonZeroCount(f) == 0
  {
    if f != [] { AllZeroCount(f[..|f| - 1]); }
  }

  /** Zeroing one nonzero entry lowers the count by exactly one. */
  lemma {:induction false} ZeroOneCount(f: seq<nat>, m: nat)
    requires m < |f| && f[m] != 0
    ensures NonZeroCount(f[m := 0]) + 1 == NonZeroCount(f)
  {
    var g := f[m := 0];
    if m < |f| - 1 {
      assert g[..|g| - 1] == f[..|f| - 1][m := 0];
      ZeroOneCount(f[..|f| - 1], m);
    } else {
      assert g[..|g| - 1] == f[..|f| - 1];
    }
  }

  /** A zero count means every entry is zero. */
  lemma {:induction false} NoneLeft(f: seq<nat>, n: nat)
    requires NonZeroCount(f) == n
    ensures n == 0 ==> forall i :: 0 <= i < |f| ==> f[i] == 0
  {
    if f != [] && n == 0 {
      NoneLeft(f[..|f| - 1], NonZeroCount(f[..|f| - 1]));
      assert forall i :: 0 <= i < |f| - 1 ==> f[i] == f[..|f| - 1][i];
    }
  }
}
