/** Day 9, "Disk Fragmenter": a disk map of digits alternates file lengths and free-space
    lengths. The first part moves single blocks from the end of the disk into the leftmost
    free blocks; the second part moves whole files, highest ID first, into the leftmost
    gap that fits them. Free blocks are written -1. */
module Day09 {
  import opened GoLib

  const Free := -1

  // ---------------------------------------------------------------------------
  // Reading the disk map
  // ---------------------------------------------------------------------------

  /** The length a digit of the disk map stands for: `strconv.ParseInt` of the one
      character, with the error ignored, so any other character counts as 0. */
  function BlockCount(c: char): (n: nat)
    ensures n <= 9
  {
    if IsDigit(c) then DigitValue(c) else 0
  }

  /** The length is what parsing the one character yields, errors counting as 0. */
  lemma BlockCountIsParsed(c: char)
    ensures BlockCount(c) == ParseInt([c], 8).value
  {
    ParseIntOneChar(c);
  }

  /** The blocks that entry `i` of the disk map describes: file `i / 2` for even `i`,
      free space for odd `i`. */
  function Run(i: nat, size: nat): seq<int> {
    seq(size, _ => EntryValue(i))
  }

  /** What each block of entry `i` holds. */
  function EntryValue(i: nat): int {
    if i % 2 == 0 then i / 2 else Free
  }

  /** The disk described by the whole map. */
  function DiskOf(input: string): seq<int> {
    if input == [] then []
    else DiskOf(input[..|input| - 1]) + Run(|input| - 1, BlockCount(input[|input| - 1]))
  }

  /** Where the blocks of entry `i` begin: the sum of the lengths before it. */
  function Offset(input: string, i: nat): nat
    requires i <= |input|
  {
    if i == 0 then 0 else Offset(input, i - 1) + BlockCount(input[i - 1])
  }

  /** The disk is as long as the sum of the digits. */
  lemma {:induction false} DiskLength(input: string)
    ensures |DiskOf(input)| == Offset(input, |input|)
  {
    if input != [] {
      var n := |input| - 1;
      DiskLength(input[..n]);
      OffsetPrefixAt(input, n, n);
    }
  }

  /** Block `t` of entry `i` holds the file ID `i / 2` for even `i` and free space for
      odd `i`. */
  lemma {:induction false} DiskAt(input: string, i: nat, t: nat)
    requires i < |input| && t < BlockCount(input[i])
    ensures Offset(input, i) + t < |DiskOf(input)|
    ensures DiskOf(input)[Offset(input, i) + t] == EntryValue(i)
  {
    var n := |input| - 1;
    var prefix := input[..n];
    var before := DiskOf(prefix);
    var last := Run(n, BlockCount(input[n]));
    DiskSplit(input);
    assert DiskOf(input) == before + last;
    if i < n {
      assert prefix[i] == input[i];
      DiskAt(prefix, i, t);
      OffsetPrefixAt(input, n, i);
      var p := Offset(input, i) + t;
      assert p < |before| && before[p] == EntryValue(i);
      assert (before + last)[p] == before[p];
    } else {
      var p := Offset(input, i) + t;
      assert p - |before| == t && last[t] == EntryValue(i);
      assert (before + last)[p] == last[t];
    }
  }

  /** The disk is the disk of all but the last entry followed by the last entry's run,
      which begins at that entry's offset. */
  lemma DiskSplit(input: string)
    requires input != []
    ensures var n := |input| - 1;
      var before := DiskOf(input[..n]);
      |before| == Offset(input, n) &&
      DiskOf(input) == before + Run(n, BlockCount(input[n]))
  {
    var n := |input| - 1;
    DiskLength(input[..n]);
    OffsetPrefixAt(input, n, n);
  }

  /** Offsets depend only on the entries before them. */
  lemma {:induction false} OffsetPrefixAt(input: string, n: nat, i: nat)
    requires i <= n <= |input|
    ensures Offset(input[..n], i) == Offset(input, i)
  {
    if i > 0 {
      OffsetPrefixAt(input, n, i - 1);
      assert input[..n][i - 1] == input[i - 1];
    }
  }

  lemma {:induction false} OffsetMonotone(input: string, i: nat, j: nat)
    requires i <= j <= |input|
    ensures Offset(input, i) <= Offset(input, j)
    decreases j - i
  {
    if i < j {
      OffsetMonotone(input, i, j - 1);
    }
  }

  /** `GetDiskFromInput`: appends, for each entry of the map, a freshly filled block of
      its length. */
  method GetDiskFromInput(input: string) returns (disk: seq<int>)
    ensures disk == DiskOf(input)
  {
    disk := [];
    for i := 0 to |input|
      invariant disk == DiskOf(input[..i])
    {
      assert input[i..i + 1] == [input[i]];
      BlockCountIsParsed(input[i]);
      var size := ParseInt(input[i..i + 1], 8).value;
      var data := new int[size];
      var valueToFill := Free;
      if i % 2 == 0 {
        valueToFill := i / 2;
      }
      for j := 0 to data.Length
        invariant forall k :: 0 <= k < j ==> data[k] == valueToFill
      {
        data[j] := valueToFill;
      }
      assert data[..] == Run(i, size);
      assert input[..i + 1][..i] == input[..i];
      disk := disk + data[..];
    }
    assert input[..|input|] == input;
  }

  // ---------------------------------------------------------------------------
  // Part 1: moving single blocks
  // ---------------------------------------------------------------------------

  /** The file blocks of a disk, in order. */
  function Files(s: seq<int>): (r: seq<int>)
    ensures Free !in r
    ensures |r| <= |s|
  {
    if s == [] then []
    else Files(s[..|s| - 1]) + (if s[|s| - 1] == Free then [] else [s[|s| - 1]])
  }

  lemma {:induction false} FilesAppend(a: seq<int>, b: seq<int>)
    ensures Files(a + b) == Files(a) + Files(b)
  {
    if b != [] {
      FilesAppend(a, b[..|b| - 1]);
      assert (a + b)[..|a + b| - 1] == a + b[..|b| - 1];
    } else {
      assert a + b == a;
    }
  }

  /** The disk without its trailing free blocks. */
  function DropTrailingFree(s: seq<int>): (t: seq<int>)
    ensures |t| <= |s| && t == s[..|t|]
    ensures t == [] || t[|t| - 1] != Free
    ensures forall k :: |t| <= k < |s| ==> s[k] == Free
  {
    if s == [] || s[|s| - 1] != Free then s else DropTrailingFree(s[..|s| - 1])
  }

  lemma FilesOfDropTrailingFree(s: seq<int>)
    ensures Files(DropTrailingFree(s)) == Files(s)
  {
    var t := DropTrailingFree(s);
    assert s == t + s[|t|..];
    FilesAppend(t, s[|t|..]);
    FilesAllFree(s[|t|..]);
  }

  lemma {:induction false} FilesAllFree(s: seq<int>)
    requires forall k :: 0 <= k < |s| ==> s[k] == Free
    ensures Files(s) == []
  {
    if s != [] {
      FilesAllFree(s[..|s| - 1]);
    }
  }

  /** The compacted disk: the blocks are read from the left; a free block is replaced by
      the last file block that has not been used yet, which is taken off the end. */
  function Compacted(s: seq<int>): seq<int>
    decreases |s|
  {
    if s == [] then []
    else if s[0] != Free then [s[0]] + Compacted(s[1..])
    else
      var t := DropTrailingFree(s[1..]);
      if t == [] then [] else [t[|t| - 1]] + Compacted(t[..|t| - 1])
  }

  lemma FilesSingle(x: int)
    ensures Files([x]) == if x == Free then [] else [x]
  {
    assert [x][..0] == [];
  }

  lemma FilesCons(x: int, s: seq<int>)
    ensures Files([x] + s) == Files([x]) + Files(s)
  {
    FilesAppend([x], s);
  }

  /** The compacted disk holds no free block. */
  lemma {:induction false} CompactedNoFree(s: seq<int>)
    ensures Free !in Compacted(s)
    decreases |s|
  {
    if s != [] {
      if s[0] != Free {
        CompactedNoFree(s[1..]);
      } else {
        var t := DropTrailingFree(s[1..]);
        if t != [] {
          CompactedNoFree(t[..|t| - 1]);
        }
      }
    }
  }

  /** The compacted disk holds exactly the file blocks of the original disk, counted
      with multiplicity. */
  lemma {:induction false} CompactedMultiset(s: seq<int>)
    ensures multiset(Compacted(s)) == multiset(Files(s))
    decreases |s|
  {
    if s != [] {
      if s[0] != Free {
        CompactedMultiset(s[1..]);
        FileFirst(s);
        assert multiset(Compacted(s)) == multiset([s[0]]) + multiset(Compacted(s[1..]));
        assert multiset(Files(s)) == multiset([s[0]]) + multiset(Files(s[1..]));
      } else {
        var t := DropTrailingFree(s[1..]);
        FreeFirst(s);
        FreeFirstCompacted(s, t);
        if t != [] {
          var u := t[..|t| - 1];
          CompactedMultiset(u);
          FilesLast(t);
          assert Compacted(s) == [t[|t| - 1]] + Compacted(u);
          assert multiset(Compacted(s)) == multiset([t[|t| - 1]]) + multiset(Compacted(u));
          assert multiset(Files(t)) == multiset(Files(u)) + multiset([t[|t| - 1]]);
        }
      }
    }
  }

  /** A file block in front is kept, both by compaction and by `Files`. */
  lemma FileFirst(s: seq<int>)
    requires s != [] && s[0] != Free
    ensures Compacted(s) == [s[0]] + Compacted(s[1..])
    ensures Files(s) == [s[0]] + Files(s[1..])
  {
    assert s == [s[0]] + s[1..];
    FilesCons(s[0], s[1..]);
    FilesSingle(s[0]);
  }

  /** A free block in front contributes nothing to `Files`. */
  lemma FreeFirst(s: seq<int>)
    requires s != [] && s[0] == Free
    ensures Files(s) == Files(DropTrailingFree(s[1..]))
  {
    assert s == [s[0]] + s[1..];
    FilesCons(s[0], s[1..]);
    FilesSingle(s[0]);
    FilesOfDropTrailingFree(s[1..]);
  }

  lemma FilesLast(t: seq<int>)
    requires t != [] && t[|t| - 1] != Free
    ensures Files(t) == Files(t[..|t| - 1]) + [t[|t| - 1]]
  {
  }

  /** So the compacted disk is exactly as long as the number of file blocks. */
  lemma CompactedLength(s: seq<int>)
    ensures |Compacted(s)| == |Files(s)|
  {
    CompactedMultiset(s);
    assert |multiset(Compacted(s))| == |multiset(Files(s))|;
  }

  /** Where the first free block is (the length of the disk when there is none). */
  function FirstFree(s: seq<int>): (p: nat)
    ensures p <= |s|
    ensures Free !in s[..p]
    ensures p < |s| ==> s[p] == Free
  {
    var k := Index(s, Free);
    if k == -1 then assert s[..|s|] == s; |s| else k
  }

  /** Blocks before the first free block keep their places. */
  lemma {:induction false} CompactedKeepsPrefix(s: seq<int>)
    ensures |Compacted(s)| >= FirstFree(s)
    ensures Compacted(s)[..FirstFree(s)] == s[..FirstFree(s)]
    decreases |s|
  {
    if s == [] {
    } else if s[0] != Free {
      var tail := s[1..];
      var p := FirstFree(tail);
      CompactedKeepsPrefix(tail);
      FirstFreeTail(s);
      FileFirst(s);
      assert Compacted(s)[..p + 1] == [s[0]] + Compacted(tail)[..p];
      assert s[..p + 1] == [s[0]] + tail[..p];
    } else {
      assert s[0] in s[..FirstFree(s)] || FirstFree(s) == 0;
    }
  }

  lemma FirstFreeTail(s: seq<int>)
    requires s != [] && s[0] != Free
    ensures FirstFree(s) == FirstFree(s[1..]) + 1
  {
    assert s[1..] == s[..|s|][1..];
  }

  /** The tests' examples of single-block compaction. */
  lemma CompactedExamples()
    ensures Compacted([1, -1, 2]) == [1, 2]
    ensures Compacted([1, -1, -1, 2, 2, -1, 3]) == [1, 3, 2, 2]
  {
    assert [1, -1, 2][1..] == [-1, 2];
    assert [-1, 2][1..] == [2];
    assert DropTrailingFree([2]) == [2];
    assert [2][..0] == [];
    var s := [1, -1, -1, 2, 2, -1, 3];
    assert s[1..] == [-1, -1, 2, 2, -1, 3];
    var u := [-1, -1, 2, 2, -1, 3];
    assert u[1..] == [-1, 2, 2, -1, 3];
    assert DropTrailingFree([-1, 2, 2, -1, 3]) == [-1, 2, 2, -1, 3];
    assert [-1, 2, 2, -1, 3][..4] == [-1, 2, 2, -1];
    assert [-1, 2, 2, -1][1..] == [2, 2, -1];
    assert [2, 2, -1][..2] == [2, 2];
    assert DropTrailingFree([2, 2, -1]) == [2, 2];
    assert [2, 2][..1] == [2];
    assert Compacted([2]) == [2] by {
      assert [2][1..] == [];
    }
  }

  /** The closure `moveToNextLastIndex`: lowers `lastIndex` to the last file block after
      `curIndex`, reporting whether there is one. */
  method MoveToNextLastIndex(disk: seq<int>, lastIndex0: int, curIndex: int) returns (found: bool, lastIndex: int)
    requires -1 <= lastIndex0 < |disk| && 0 <= curIndex
    ensures found ==> curIndex < lastIndex <= lastIndex0 && disk[lastIndex] != Free
    ensures !found ==> lastIndex == (if lastIndex0 > curIndex then curIndex else lastIndex0)
    ensures forall k :: lastIndex < k <= lastIndex0 ==> disk[k] == Free
  {
    lastIndex := lastIndex0;
    while lastIndex > curIndex
      invariant lastIndex <= lastIndex0
      invariant lastIndex0 > curIndex ==> lastIndex >= curIndex
      invariant lastIndex0 <= curIndex ==> lastIndex == lastIndex0
      invariant forall k :: lastIndex < k <= lastIndex0 ==> disk[k] == Free
    {
      if disk[lastIndex] != Free {
        return true, lastIndex;
      }
      lastIndex := lastIndex - 1;
    }
    return false, lastIndex;
  }

  /** The file blocks between `lastIndex` and the old end are all free, so dropping them
      changes nothing. */
  lemma DropFreeTail(disk: seq<int>, lo: int, hi: int, oldHi: int)
    requires 0 <= lo <= hi + 1 <= oldHi + 1 <= |disk|
    requires hi + 1 == lo || disk[hi] != Free
    requires forall k :: hi < k <= oldHi ==> disk[k] == Free
    ensures DropTrailingFree(disk[lo..oldHi + 1]) == disk[lo..hi + 1]
    decreases oldHi - hi
  {
    if oldHi > hi {
      assert disk[lo..oldHi + 1][..oldHi - lo] == disk[lo..oldHi];
      DropFreeTail(disk, lo, hi, oldHi - 1);
    }
  }

  /** `RearrangeDiskUsingFragmentation`: walks from the left, copying file blocks and
      filling each free block with the last file block, which the right cursor then
      passes. */
  method RearrangeDiskUsingFragmentation(disk: seq<int>) returns (newDisk: seq<int>)
    ensures newDisk == Compacted(disk)
  {
    newDisk := [];
    var lastIndex := |disk| - 1;
    var i := 0;
    assert disk[0..lastIndex + 1] == disk;
    while i <= lastIndex
      invariant 0 <= i <= lastIndex + 1 <= |disk|
      invariant newDisk + Compacted(disk[i..lastIndex + 1]) == Compacted(disk)
      decreases lastIndex + 1 - i
    {
      if disk[i] != Free {
        FileStep(disk, i, lastIndex);
        Append3(newDisk, [disk[i]], Compacted(disk[i + 1..lastIndex + 1]));
        newDisk := newDisk + [disk[i]];
        i := i + 1;
        continue;
      }
      var oldLast := lastIndex;
      var found;
      found, lastIndex := MoveToNextLastIndex(disk, lastIndex, i);
      FreeStep(disk, i, lastIndex, oldLast, found);
      if found {
        Append3(newDisk, [disk[lastIndex]], Compacted(disk[i + 1..lastIndex]));
        newDisk := newDisk + [disk[lastIndex]];
        lastIndex := lastIndex - 1;
      } else {
        assert disk[i + 1..lastIndex + 1] == [];
      }
      i := i + 1;
    }
  }

  lemma Append3<T>(a: seq<T>, b: seq<T>, c: seq<T>)
    ensures a + (b + c) == (a + b) + c
  {
  }

  /** A file block at the left cursor is kept in place. */
  lemma FileStep(disk: seq<int>, i: nat, lastIndex: int)
    requires i <= lastIndex < |disk| && disk[i] != Free
    ensures Compacted(disk[i..lastIndex + 1]) == [disk[i]] + Compacted(disk[i + 1..lastIndex + 1])
  {
    var rest := disk[i..lastIndex + 1];
    assert rest[1..] == disk[i + 1..lastIndex + 1];
    FileFirst(rest);
  }

  /** A free block at the left cursor is filled with the last file block before the
      right cursor, when there is one after it. */
  lemma FreeStep(disk: seq<int>, i: nat, lastIndex: int, oldLast: int, found: bool)
    requires i <= oldLast < |disk| && disk[i] == Free
    requires found ==> i < lastIndex <= oldLast && disk[lastIndex] != Free
    requires !found ==> lastIndex == i
    requires forall k :: lastIndex < k <= oldLast ==> disk[k] == Free
    ensures Compacted(disk[i..oldLast + 1]) ==
      if found then [disk[lastIndex]] + Compacted(disk[i + 1..lastIndex]) else []
  {
    var rest := disk[i..oldLast + 1];
    assert rest[1..] == disk[i + 1..oldLast + 1];
    if found {
      DropFreeTail(disk, i + 1, lastIndex, oldLast);
      var t := disk[i + 1..lastIndex + 1];
      assert t[..|t| - 1] == disk[i + 1..lastIndex] && t[|t| - 1] == disk[lastIndex];
      FreeFirstCompacted(rest, t);
    } else {
      DropFreeTail(disk, i + 1, i, oldLast);
      FreeFirstCompacted(rest, []);
    }
  }

  /** Compaction of a disk that starts with a free block, in terms of its trailing part
      `t` without the free blocks at its end. */
  lemma FreeFirstCompacted(s: seq<int>, t: seq<int>)
    requires s != [] && s[0] == Free && t == DropTrailingFree(s[1..])
    ensures Compacted(s) == if t == [] then [] else [t[|t| - 1]] + Compacted(t[..|t| - 1])
  {
  }

  /** The checksum of a block list: the sum of position times file ID. */
  function WeightedSum(s: seq<int>): int {
    if s == [] then 0 else WeightedSum(s[..|s| - 1]) + (|s| - 1) * s[|s| - 1]
  }

  /** `ComputeDiskChecksumPart1` without its length guard on the embedded input. */
  method ComputeDiskChecksumPart1(disk: seq<int>) returns (total: int)
    ensures total == WeightedSum(Compacted(disk))
  {
    var newDisk := RearrangeDiskUsingFragmentation(disk);
    total := 0;
    for i := 0 to |newDisk|
      invariant total == WeightedSum(newDisk[..i])
    {
      assert newDisk[..i + 1][..i] == newDisk[..i];
      total := total + i * newDisk[i];
    }
    assert newDisk[..|newDisk|] == newDisk;
  }

  // ---------------------------------------------------------------------------
  // Part 2: moving whole files
  // ---------------------------------------------------------------------------

  datatype FileData = FileData(id: int, start: int, size: int)

  datatype Gap = Gap(start: int, size: int)

  /** `start + (start + 1) + … + (start + n - 1)`. */
  function SumFrom(start: int, n: nat): int {
    if n == 0 then 0 else SumFrom(start, n - 1) + start + n - 1
  }

  /** `findSumOfIndices`: the closed form of the sum of `n` consecutive positions. */
  function FindSumOfIndices(start: int, n: int): (r: int)
    ensures n >= 0 ==> r == SumFrom(start, n)
  {
    var end := start + n;
    SumFromClosedForm(start, if n >= 0 then n else 0);
    ConsecutiveProductEven(end);
    ConsecutiveProductEven(start);
    Quot(end * (end - 1), 2) - Quot(start * (start - 1), 2)
  }

  /** The product of two consecutive integers is even and never negative, so Go's
      truncating halving is exact. */
  lemma ConsecutiveProductEven(m: int)
    ensures m * (m - 1) >= 0
    ensures Quot(m * (m - 1), 2) * 2 == m * (m - 1)
  {
    ProductNonNegative(m);
    if m % 2 == 0 {
      var a := m / 2;
      assert m == 2 * a;
      Double(a, m - 1);
      DivExact(m * (m - 1), 2, a * (m - 1));
    } else {
      var a := (m - 1) / 2;
      assert m - 1 == 2 * a;
      Double(a, m);
      assert m * (m - 1) == (2 * a) * m;
      DivExact(m * (m - 1), 2, a * m);
    }
  }

  lemma ProductNonNegative(m: int)
    ensures m * (m - 1) >= 0
  {
    if m <= 0 {
      assert m * (m - 1) == (-m) * (1 - m);
    }
  }

  lemma Double(a: int, b: int)
    ensures (2 * a) * b == 2 * (a * b)
  {
  }

  lemma {:induction false} SumFromClosedForm(start: int, n: nat)
    ensures 2 * SumFrom(start, n) == (start + n) * (start + n - 1) - start * (start - 1)
  {
    if n > 0 {
      SumFromClosedForm(start, n - 1);
      var e := start + n;
      assert e * (e - 1) == (e - 1) * (e - 2) + 2 * (e - 1);
    }
  }

  /** The checksum of one whole file: its ID times the sum of the positions it covers. */
  function CheckSum(fd: FileData): (r: int)
    ensures fd.size >= 0 ==> r == SumFrom(fd.start, fd.size) * fd.id
  {
    FindSumOfIndices(fd.start, fd.size) * fd.id
  }

  /** The leftmost gap large enough for `size` blocks, or -1. */
  function FirstFit(gaps: seq<Gap>, size: int): (k: int)
    ensures -1 <= k < |gaps|
    ensures k >= 0 ==> gaps[k].size >= size
    ensures forall j :: 0 <= j < |gaps| && (k == -1 || j < k) ==> gaps[j].size < size
  {
    if gaps == [] then -1
    else if gaps[0].size >= size then 0
    else
      var k := FirstFit(gaps[1..], size);
      if k == -1 then -1 else k + 1
  }

  /** The closure `findGapThatFits`: scans the gaps from the left. */
  method FindGapThatFits(gaps: array<Gap>, size: int) returns (gapIndex: int)
    ensures gapIndex == FirstFit(gaps[..], size)
  {
    for i := 0 to gaps.Length
      invariant forall j :: 0 <= j < i ==> gaps[j].size < size
    {
      if gaps[i].size >= size {
        FirstFitIs(gaps[..], size, i);
        return i;
      }
    }
    FirstFitIs(gaps[..], size, -1);
    return -1;
  }

  /** `FirstFit` is the only index with its two properties. */
  lemma {:induction false} FirstFitIs(gaps: seq<Gap>, size: int, k: int)
    requires -1 <= k < |gaps|
    requires k >= 0 ==> gaps[k].size >= size
    requires forall j :: 0 <= j < |gaps| && (k == -1 || j < k) ==> gaps[j].size < size
    ensures FirstFit(gaps, size) == k
  {
    if gaps != [] && gaps[0].size < size {
      FirstFitIs(gaps[1..], size, if k == -1 then -1 else k - 1);
    }
  }

  /** One step of `RearrangeDiskByCopyWholeFiles`: the file moves into the leftmost gap
      that fits it, provided that gap does not lie after the file. The file keeps its ID
      and size and never moves right; at most that one gap changes, shrinking from its
      left by the file's size, and the moved file fills exactly the freed front. */
  function MoveFile(gaps: seq<Gap>, file: FileData): (r: (seq<Gap>, FileData))
    ensures r.1.id == file.id && r.1.size == file.size && r.1.start <= file.start
    ensures |r.0| == |gaps|
    ensures var k := FirstFit(gaps, file.size);
      if k >= 0 && gaps[k].start <= file.start then
        r.1.start == gaps[k].start &&
        r.0[k].start == r.1.start + r.1.size &&
        r.0[k].start + r.0[k].size == gaps[k].start + gaps[k].size &&
        r.0[k].size >= 0 &&
        forall j :: 0 <= j < |gaps| && j != k ==> r.0[j] == gaps[j]
      else r == (gaps, file)
  {
    var k := FirstFit(gaps, file.size);
    if k != -1 && gaps[k].start <= file.start then
      var gap := gaps[k];
      (gaps[k := Gap(gap.start + file.size, gap.size - file.size)], file.(start := gap.start))
    else (gaps, file)
  }

  /** The files, last first, each moved in turn, and the gaps that remain. */
  function CopyWholeFiles(files: seq<FileData>, gaps: seq<Gap>): (r: (seq<FileData>, seq<Gap>))
    ensures |r.0| == |files| && |r.1| == |gaps|
  {
    if files == [] then ([], gaps)
    else
      var (gaps', moved) := MoveFile(gaps, files[|files| - 1]);
      var (rest, gaps'') := CopyWholeFiles(files[..|files| - 1], gaps');
      ([moved] + rest, gaps'')
  }

  lemma CopyWholeFilesStep(files: seq<FileData>, gaps: seq<Gap>)
    requires files != []
    ensures var (gaps', moved) := MoveFile(gaps, files[|files| - 1]);
      var r := CopyWholeFiles(files[..|files| - 1], gaps');
      CopyWholeFiles(files, gaps).0 == [moved] + r.0 &&
      CopyWholeFiles(files, gaps).1 == r.1
  {
  }

  /** The files come out in reverse order with their IDs and sizes, none further right
      than before. */
  lemma {:induction false} CopyWholeFilesShape(files: seq<FileData>, gaps: seq<Gap>)
    ensures var out := CopyWholeFiles(files, gaps).0;
      forall k :: 0 <= k < |files| ==>
        out[k].id == files[|files| - 1 - k].id && out[k].size == files[|files| - 1 - k].size &&
        out[k].start <= files[|files| - 1 - k].start
  {
    if files != [] {
      var n := |files| - 1;
      var (gaps', moved) := MoveFile(gaps, files[n]);
      var init := files[..n];
      CopyWholeFilesShape(init, gaps');
      CopyWholeFilesStep(files, gaps);
      var rest := CopyWholeFiles(init, gaps').0;
      var out := CopyWholeFiles(files, gaps).0;
      forall k | 0 <= k < |files|
        ensures out[k].id == files[n - k].id && out[k].size == files[n - k].size
        ensures out[k].start <= files[n - k].start
      {
        if k > 0 {
          assert out[k] == rest[k - 1];
          assert init[|init| - 1 - (k - 1)] == files[n - k];
        }
      }
    }
  }

  /** `RearrangeDiskByCopyWholeFiles`: the gaps are updated in place, in the caller's
      slice. */
  method RearrangeDiskByCopyWholeFiles(files: seq<FileData>, gaps: array<Gap>) returns (newFiles: seq<FileData>)
    modifies gaps
    ensures newFiles == CopyWholeFiles(files, old(gaps[..])).0
    ensures gaps[..] == CopyWholeFiles(files, old(gaps[..])).1
  {
    ghost var total := CopyWholeFiles(files, gaps[..]);
    newFiles := [];
    var i := |files| - 1;
    assert files[..|files|] == files;
    while i >= 0
      invariant -1 <= i < |files|
      invariant newFiles + CopyWholeFiles(files[..i + 1], gaps[..]).0 == total.0
      invariant CopyWholeFiles(files[..i + 1], gaps[..]).1 == total.1
    {
      ghost var before := gaps[..];
      var file := files[i];
      var gapIndex := FindGapThatFits(gaps, file.size);
      if gapIndex != -1 && gaps[gapIndex].start <= file.start {
        var gap := gaps[gapIndex];
        file := file.(start := gap.start);
        gap := Gap(gap.start + file.size, gap.size - file.size);
        gaps[gapIndex] := gap;
      }
      assert (gaps[..], file) == MoveFile(before, files[i]);
      assert files[..i + 1][..i] == files[..i];
      CopyWholeFilesStep(files[..i + 1], before);
      var rest := CopyWholeFiles(files[..i], gaps[..]).0;
      assert newFiles + ([file] + rest) == (newFiles + [file]) + rest;
      newFiles := newFiles + [file];
      i := i - 1;
    }
    assert files[..0] == [];
    assert newFiles + [] == newFiles;
  }

  /** The sum of the whole-file checksums. */
  function SumCheckSums(files: seq<FileData>): int {
    if files == [] then 0 else SumCheckSums(files[..|files| - 1]) + CheckSum(files[|files| - 1])
  }

  /** `ComputeDiskChecksumPart2` without its length guard on the embedded input. */
  method ComputeDiskChecksumPart2(files: seq<FileData>, gaps: array<Gap>) returns (total: int)
    modifies gaps
    ensures total == SumCheckSums(CopyWholeFiles(files, old(gaps[..])).0)
    ensures gaps[..] == CopyWholeFiles(files, old(gaps[..])).1
  {
    var newFiles := RearrangeDiskByCopyWholeFiles(files, gaps);
    total := 0;
    for i := 0 to |newFiles|
      invariant total == SumCheckSums(newFiles[..i])
    {
      assert newFiles[..i + 1][..i] == newFiles[..i];
      total := total + CheckSum(newFiles[i]);
    }
    assert newFiles[..|newFiles|] == newFiles;
  }

  /** File `k` as the disk map describes it. */
  function FileEntry(input: string, k: nat): FileData
    requires 2 * k < |input|
  {
    FileData(k, Offset(input, 2 * k), BlockCount(input[2 * k]))
  }

  /** Gap `k` as the disk map describes it. */
  function GapEntry(input: string, k: nat): Gap
    requires 2 * k + 1 < |input|
  {
    Gap(Offset(input, 2 * k + 1), BlockCount(input[2 * k + 1]))
  }

  /** `ReadFilesAndGapsFromInput`: entry `i` of the map is file `i / 2` for even `i` and
      a gap for odd `i`; each starts where the previous entry ended. */
  method ReadFilesAndGapsFromInput(input: string) returns (files: seq<FileData>, gaps: seq<Gap>)
    ensures |files| == (|input| + 1) / 2 && |gaps| == |input| / 2
    ensures forall k :: 0 <= k < |files| ==> 2 * k < |input| && files[k] == FileEntry(input, k)
    ensures forall k :: 0 <= k < |gaps| ==> 2 * k + 1 < |input| && gaps[k] == GapEntry(input, k)
  {
    files := [];
    gaps := [];
    var startIndex := 0;
    for i := 0 to |input|
      invariant |gaps| <= |files| <= |gaps| + 1 && i == |files| + |gaps|
      invariant startIndex == Offset(input, i)
      invariant FilesRead(input, files) && GapsRead(input, gaps)
    {
      assert input[i..i + 1] == [input[i]];
      BlockCountIsParsed(input[i]);
      var size := ParseInt(input[i..i + 1], 8).value;
      if i % 2 == 0 {
        assert |files| == |gaps| && i == 2 * |files|;
        assert FileData(i / 2, startIndex, size) == FileEntry(input, |files|);
        FilesReadAppend(input, files);
        files := files + [FileData(i / 2, startIndex, size)];
      } else {
        assert i == 2 * |gaps| + 1;
        assert Gap(startIndex, size) == GapEntry(input, |gaps|);
        GapsReadAppend(input, gaps);
        gaps := gaps + [Gap(startIndex, size)];
      }
      startIndex := startIndex + size;
    }
  }

  /** `files` lists the first files of the disk map. */
  predicate FilesRead(input: string, files: seq<FileData>) {
    forall k :: 0 <= k < |files| ==> 2 * k < |input| && files[k] == FileEntry(input, k)
  }

  /** `gaps` lists the first gaps of the disk map. */
  predicate GapsRead(input: string, gaps: seq<Gap>) {
    forall k :: 0 <= k < |gaps| ==> 2 * k + 1 < |input| && gaps[k] == GapEntry(input, k)
  }

  lemma FilesReadAppend(input: string, files: seq<FileData>)
    requires FilesRead(input, files) && 2 * |files| < |input|
    ensures FilesRead(input, files + [FileEntry(input, |files|)])
  {
  }

  lemma GapsReadAppend(input: string, gaps: seq<Gap>)
    requires GapsRead(input, gaps) && 2 * |gaps| + 1 < |input|
    ensures GapsRead(input, gaps + [GapEntry(input, |gaps|)])
  {
  }

  /** The blocks of file `k` on the single-block disk hold `k`: the two readings of the
      disk map agree. */
  lemma FileOnDisk(input: string, k: nat, t: nat)
    requires 2 * k < |input| && t < BlockCount(input[2 * k])
    ensures Offset(input, 2 * k) + t < |DiskOf(input)| && DiskOf(input)[Offset(input, 2 * k) + t] == k
  {
    DiskAt(input, 2 * k, t);
    assert EntryValue(2 * k) == k;
  }
}
