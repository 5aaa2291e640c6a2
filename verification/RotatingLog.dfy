/**
 * Rotating log files. The disk has one slot per file name; slot 0 is the newest file. A plain stream
 * keeps the newest bytes; a call-session stream keeps the first half of its budget for ever and
 * rotates the rest.
 */
module RotatingLog {
  import opened Bytes

  /** The file of each name, if it exists. */
  type Disk = seq<Option<seq<byte>>>

  const DEFAULT_FILE_SIZE: nat := 1024 * 1024

  function GetNumRotatingLogFiles(maxTotal: nat): nat {
    var n := maxTotal / 2 / DEFAULT_FILE_SIZE;
    if n < 2 then 2 else n
  }

  function GetRotatingLogSize(maxTotal: nat): nat {
    if GetNumRotatingLogFiles(maxTotal) > 2 then DEFAULT_FILE_SIZE else maxTotal / 4
  }

  // ------------------------------------------------------------------------ what the files should hold

  /** Where the j-th file's worth of a log starts. */
  function Start(size: nat, j: nat): nat {
    if j == 0 then 0 else Start(size, j - 1) + size
  }

  lemma {:induction false} StartIsProduct(size: nat, j: nat)
    ensures Start(size, j) == j * size
  {
    if j > 0 {
      StartIsProduct(size, j - 1);
    }
  }

  lemma {:induction false} StartMonotone(size: nat, i: nat, j: nat)
    requires i <= j
    ensures Start(size, i) <= Start(size, j)
    decreases j - i
  {
    if i < j {
      StartMonotone(size, i, j - 1);
    }
  }

  /** The j-th file's worth of a log of which q files' worth have been rotated out. */
  function Block(log: seq<byte>, size: nat, q: nat, j: nat): seq<byte>
    requires Start(size, q) <= |log| && j < q
  {
    StartMonotone(size, j + 1, q);
    log[Start(size, j)..Start(size, j + 1)]
  }

  /** File i after q rotations of `size` bytes each, when at most `older` full files are kept. */
  function NewestAt(log: seq<byte>, q: nat, size: nat, older: nat, i: nat): Option<seq<byte>>
    requires Start(size, q) <= |log|
  {
    if i == 0 then Some(log[Start(size, q)..])
    else if i <= Min(q, older) then Some(Block(log, size, q, q - i))
    else None
  }

  ghost predicate HoldsNewest(d: Disk, log: seq<byte>, q: nat, size: nat) {
    && d != [] && Start(size, q) <= |log|
    && forall i :: 0 <= i < |d| ==> d[i] == NewestAt(log, q, size, |d| - 1, i)
  }

  /** File i of a session: the rotating files, and the very first file above them. */
  function SessionAt(first: seq<byte>, rest: seq<byte>, q: nat, size: nat, numFiles: nat, i: nat): Option<seq<byte>>
    requires Start(size, q) <= |rest| && numFiles >= 3
  {
    if i == Min(q, numFiles - 2) + 1 then Some(first) else NewestAt(rest, q, size, numFiles - 2, i)
  }

  ghost predicate HoldsSession(d: Disk, first: seq<byte>, rest: seq<byte>, q: nat, size: nat) {
    && |d| >= 3 && Start(size, q) <= |rest|
    && forall i :: 0 <= i < |d| ==> d[i] == SessionAt(first, rest, q, size, |d|, i)
  }

  /** The files renamed upwards through `top`, the one at `top` gone, a new empty file 0. */
  ghost predicate IsRotation(d: Disk, top: nat, d': Disk) {
    && top < |d| == |d'|
    && d'[0] == Some([])
    && (forall i :: 1 <= i <= top ==> d'[i] == d[i - 1])
    && (forall i :: top < i < |d| ==> d'[i] == d[i])
  }

  lemma NewestAtGrows(log: seq<byte>, q: nat, size: nat, older: nat, data: seq<byte>, i: nat)
    requires Start(size, q) <= |log|
    ensures NewestAt(log + data, q, size, older, i) ==
            if i == 0 then Some(log[Start(size, q)..] + data) else NewestAt(log, q, size, older, i)
  {
    if i == 0 {
      assert (log + data)[Start(size, q)..] == log[Start(size, q)..] + data;
    } else if i <= Min(q, older) {
      StartMonotone(size, q - i + 1, q);
      assert Block(log + data, size, q, q - i) == Block(log, size, q, q - i);
    }
  }

  /** When the newest file is full, one more rotation renames every file as the layout says. */
  lemma NewestAtRotates(log: seq<byte>, q: nat, size: nat, older: nat, i: nat)
    requires |log| == Start(size, q + 1) && older >= 1
    ensures Start(size, q) <= |log|
    ensures NewestAt(log, q + 1, size, older, 0) == Some([])
    ensures 1 <= i <= older ==> NewestAt(log, q + 1, size, older, i) == NewestAt(log, q, size, older, i - 1)
  {
    assert log[Start(size, q + 1)..] == [];
    if 1 <= i <= older {
      if i == 1 {
        assert Block(log, size, q + 1, q) == log[Start(size, q)..];
      } else if i <= q + 1 {
        assert Block(log, size, q + 1, q + 1 - i) == Block(log, size, q, q - (i - 1));
      }
    }
  }

  lemma NewestRotates(d: Disk, log: seq<byte>, q: nat, size: nat, d': Disk)
    requires HoldsNewest(d, log, q, size) && |d| >= 2
    requires |log| == Start(size, q + 1) && IsRotation(d, |d| - 1, d')
    ensures HoldsNewest(d', log, q + 1, size)
  {
    forall i | 0 <= i < |d'|
      ensures d'[i] == NewestAt(log, q + 1, size, |d'| - 1, i)
    {
      NewestAtRotates(log, q, size, |d| - 1, i);
    }
  }

  /** While there are unused names the first file moves up; after that it stays where it is. */
  lemma SessionRotates(d: Disk, first: seq<byte>, rest: seq<byte>, q: nat, size: nat, d': Disk)
    requires HoldsSession(d, first, rest, q, size) && |rest| == Start(size, q + 1)
    requires IsRotation(d, if q + 1 < |d| - 1 then |d| - 1 else |d| - 2, d')
    ensures HoldsSession(d', first, rest, q + 1, size)
  {
    var n := |d|;
    forall i | 0 <= i < n
      ensures d'[i] == SessionAt(first, rest, q + 1, size, n, i)
    {
      NewestAtRotates(rest, q, size, n - 2, i);
      if q + 1 < n - 1 && i >= 1 {
        assert d'[i] == d[i - 1];
      }
    }
  }

  lemma NewestGrows(d: Disk, log: seq<byte>, q: nat, size: nat, data: seq<byte>)
    requires HoldsNewest(d, log, q, size)
    ensures d[0].Some? && HoldsNewest(d[0 := Some(d[0].value + data)], log + data, q, size)
  {
    var d' := d[0 := Some(d[0].value + data)];
    forall i | 0 <= i < |d'|
      ensures d'[i] == NewestAt(log + data, q, size, |d'| - 1, i)
    {
      NewestAtGrows(log, q, size, |d| - 1, data, i);
    }
  }

  lemma SessionGrows(d: Disk, first: seq<byte>, rest: seq<byte>, q: nat, size: nat, data: seq<byte>)
    requires HoldsSession(d, first, rest, q, size)
    ensures d[0].Some? && HoldsSession(d[0 := Some(d[0].value + data)], first, rest + data, q, size)
  {
    var d' := d[0 := Some(d[0].value + data)];
    forall i | 0 <= i < |d'|
      ensures d'[i] == SessionAt(first, rest + data, q, size, |d'|, i)
    {
      NewestAtGrows(rest, q, size, |d| - 2, data, i);
    }
  }

  /** The first rotation turns the only file into the one that is kept. */
  lemma SessionStarts(d: Disk, log: seq<byte>, size: nat, d': Disk)
    requires |d| >= 3 && d[0] == Some(log) && (forall i :: 1 <= i < |d| ==> d[i].None?)
    requires IsRotation(d, |d| - 1, d')
    ensures HoldsSession(d', log, [], 0, size)
  {
  }

  // ------------------------------------------------------------------------ what survives

  /** The files 0..top and no others exist. */
  predicate Contiguous(d: Disk, top: nat) {
    && top < |d|
    && (forall i :: 0 <= i <= top ==> d[i].Some?)
    && (forall i :: top < i < |d| ==> d[i].None?)
  }

  /** The files from `top` down to 0, oldest first. */
  function ReadBack(d: Disk, top: nat): seq<byte>
    requires top < |d| && forall i :: 0 <= i <= top ==> d[i].Some?
  {
    if top == 0 then d[0].value else d[top].value + ReadBack(d, top - 1)
  }

  /** Bytes on disk. */
  function TotalBytes(d: Disk): nat {
    if d == [] then 0
    else TotalBytes(d[..|d| - 1]) + (if d[|d| - 1].Some? then |d[|d| - 1].value| else 0)
  }

  lemma {:induction false} ReadBackIsLocal(d: Disk, e: Disk, top: nat)
    requires top < |d| && top < |e| && forall i :: 0 <= i <= top ==> d[i].Some? && e[i] == d[i]
    ensures ReadBack(d, top) == ReadBack(e, top)
  {
    if top > 0 {
      ReadBackIsLocal(d, e, top - 1);
    }
  }

  lemma {:induction false} TotalIsReadBack(d: Disk, top: nat)
    requires Contiguous(d, top)
    ensures TotalBytes(d) == |ReadBack(d, top)|
    decreases |d|
  {
    var init := d[..|d| - 1];
    if top < |d| - 1 {
      TotalIsReadBack(init, top);
      ReadBackIsLocal(d, init, top);
    } else if top > 0 {
      TotalIsReadBack(init, top - 1);
      ReadBackIsLocal(d, init, top - 1);
    } else {
      assert init == [];
    }
  }

  lemma BlockThenRest(log: seq<byte>, size: nat, q: nat, j: nat)
    requires Start(size, q) <= |log| && j < q
    ensures Start(size, j) <= Start(size, j + 1) <= |log|
    ensures Block(log, size, q, j) + log[Start(size, j + 1)..] == log[Start(size, j)..]
  {
    StartMonotone(size, j + 1, q);
  }

  lemma {:induction false} BlocksReadBack(d: Disk, log: seq<byte>, q: nat, size: nat, older: nat, top: nat)
    requires Start(size, q) <= |log| && top <= Min(q, older) && top < |d|
    requires forall i :: 0 <= i <= top ==> d[i].Some? && d[i] == NewestAt(log, q, size, older, i)
    ensures Start(size, q - top) <= |log| && ReadBack(d, top) == log[Start(size, q - top)..]
  {
    if top > 0 {
      BlocksReadBack(d, log, q, size, older, top - 1);
      OneMoreBlock(d, log, q, size, older, top);
    }
  }

  lemma {:induction false} OneMoreBlock(d: Disk, log: seq<byte>, q: nat, size: nat, older: nat, top: nat)
    requires Start(size, q) <= |log| && 0 < top <= Min(q, older) && top < |d|
    requires forall i :: 0 <= i <= top ==> d[i].Some?
    requires d[top] == NewestAt(log, q, size, older, top)
    requires Start(size, q - top + 1) <= |log| && ReadBack(d, top - 1) == log[Start(size, q - top + 1)..]
    ensures Start(size, q - top) <= |log| && ReadBack(d, top) == log[Start(size, q - top)..]
  {
    BlockThenRest(log, size, q, q - top);
    assert ReadBack(d, top) == Block(log, size, q, q - top) + ReadBack(d, top - 1);
  }

  lemma NewestReadBack(d: Disk, log: seq<byte>, q: nat, size: nat, top: nat)
    requires HoldsNewest(d, log, q, size) && top == Min(q, |d| - 1)
    ensures Contiguous(d, top) && Start(size, q - top) <= |log| && ReadBack(d, top) == log[Start(size, q - top)..]
  {
    BlocksReadBack(d, log, q, size, |d| - 1, top);
  }

  lemma SessionSlots(d: Disk, first: seq<byte>, rest: seq<byte>, q: nat, size: nat, older: nat)
    requires HoldsSession(d, first, rest, q, size) && older == Min(q, |d| - 2)
    ensures Contiguous(d, older + 1) && d[older + 1] == Some(first)
    ensures forall i :: 0 <= i <= older ==> d[i] == NewestAt(rest, q, size, |d| - 2, i)
  {
  }

  lemma {:induction false} SlotsReadBack(
    d: Disk, first: seq<byte>, rest: seq<byte>, q: nat, size: nat, limit: nat, older: nat)
    requires Contiguous(d, older + 1) && d[older + 1] == Some(first)
    requires Start(size, q) <= |rest| && older <= Min(q, limit)
    requires forall i :: 0 <= i <= older ==> d[i] == NewestAt(rest, q, size, limit, i)
    ensures Start(size, q - older) <= |rest| && ReadBack(d, older + 1) == first + rest[Start(size, q - older)..]
  {
    BlocksReadBack(d, rest, q, size, limit, older);
  }

  lemma {:induction false} SessionReadBack(
    d: Disk, first: seq<byte>, rest: seq<byte>, q: nat, size: nat, older: nat)
    requires HoldsSession(d, first, rest, q, size) && older == Min(q, |d| - 2)
    ensures Contiguous(d, older + 1) && Start(size, q - older) <= |rest|
    ensures ReadBack(d, older + 1) == first + rest[Start(size, q - older)..]
  {
    SessionSlots(d, first, rest, q, size, older);
    SlotsReadBack(d, first, rest, q, size, |d| - 2, older);
  }

  lemma {:induction false} Quotient(n: nat, size: nat, q: nat)
    requires Start(size, q) <= n < Start(size, q) + size
    ensures q == n / size && n == q * size + n % size
  {
    StartIsProduct(size, q);
    StartIsProduct(size, n / size);
    assert n == n / size * size + n % size;
    if q < n / size {
      StartMonotone(size, q + 1, n / size);
    } else {
      StartMonotone(size, n / size, q);
      if n / size < q {
        StartMonotone(size, n / size + 1, q);
      }
    }
  }

  /** Of n bytes, dropping the first q - top files leaves top * size + n % size. */
  lemma KeptBytes(n: nat, size: nat, q: nat, top: nat, kept: nat)
    requires Start(size, q) <= n < Start(size, q) + size && top <= q && kept == top * size + n % size
    ensures kept <= n && n - kept == Start(size, q - top)
  {
    StartIsProduct(size, q);
    StartIsProduct(size, q - top);
    Quotient(n, size, q);
    assert (q - top) * size == q * size - top * size;
    assert 0 <= (q - top) * size;
  }

  /** The full files among the newest n bytes that are kept, if there are names for `slots` of them. */
  function FullFiles(n: nat, size: nat, slots: int): nat {
    if size == 0 || slots < 0 then 0 else Min(n / size, slots)
  }

  /** The bytes that are kept of n: those of the full files and of the current one. */
  function Kept(n: nat, size: nat, slots: int): nat {
    if size == 0 then 0 else FullFiles(n, size, slots) * size + n % size
  }

  function Last(s: seq<byte>, k: nat): seq<byte> {
    if k <= |s| then s[|s| - k..] else s
  }

  /**
   * A plain stream's files, read oldest first, are exactly the last min(T/M, n-1)*M + T%M bytes of
   * the T bytes written with file size M and n names.
   */
  lemma {:induction false} PlainRetention(d: Disk, log: seq<byte>, q: nat, size: nat)
    requires HoldsNewest(d, log, q, size) && |log| < Start(size, q) + size
    ensures var top, kept := FullFiles(|log|, size, |d| - 1), Kept(|log|, size, |d| - 1);
            Contiguous(d, top) && kept <= |log| && ReadBack(d, top) == Last(log, kept)
  {
    var top := FullFiles(|log|, size, |d| - 1);
    Quotient(|log|, size, q);
    NewestReadBack(d, log, q, size, top);
    KeptBytes(|log|, size, q, top, Kept(|log|, size, |d| - 1));
  }

  /**
   * A session's files, read oldest first, are its first file's bytes followed by the last
   * min(q, n-2)*R + r of the rest, q and r being quotient and remainder by the rotating size R.
   */
  lemma {:induction false} SessionRetention(d: Disk, first: seq<byte>, rest: seq<byte>, q: nat, size: nat)
    requires HoldsSession(d, first, rest, q, size) && |rest| < Start(size, q) + size
    ensures var older, kept := FullFiles(|rest|, size, |d| - 2), Kept(|rest|, size, |d| - 2);
            Contiguous(d, older + 1) && kept <= |rest| && ReadBack(d, older + 1) == first + Last(rest, kept)
  {
    var older := FullFiles(|rest|, size, |d| - 2);
    Quotient(|rest|, size, q);
    SessionReadBack(d, first, rest, q, size, older);
    KeptBytes(|rest|, size, q, older, Kept(|rest|, size, |d| - 2));
  }

  /** The rotating files and the first one fit in the budget, even with the current file full. */
  lemma BudgetSuffices(maxTotal: nat)
    requires maxTotal >= 4
    ensures var n, size := GetNumRotatingLogFiles(maxTotal), GetRotatingLogSize(maxTotal);
            size > 0 && maxTotal / 2 + n * size <= maxTotal
  {
    var n, size := GetNumRotatingLogFiles(maxTotal), GetRotatingLogSize(maxTotal);
    if n > 2 {
      assert n * DEFAULT_FILE_SIZE <= maxTotal / 2;
    } else {
      assert n * size == 2 * (maxTotal / 4);
    }
  }

  /**
   * The rotating files use the other half of the budget: they are of one mebibyte, as many as fit,
   * if that makes three or more; otherwise two files of a quarter of the budget each.
   */
  lemma BudgetIsUsed(maxTotal: nat)
    requires maxTotal >= 4
    ensures var n, size := GetNumRotatingLogFiles(maxTotal), GetRotatingLogSize(maxTotal);
            && n >= 2
            && (n > 2 <==> maxTotal / 2 >= 3 * 1_048_576)
            && (n > 2 ==> size == 1_048_576 && n * size <= maxTotal / 2 < n * size + size)
            && (n == 2 ==> 4 * size <= maxTotal < 4 * size + 4)
  {
    var half := maxTotal / 2;
    var n := half / 1_048_576;
    assert n * 1_048_576 <= half < n * 1_048_576 + 1_048_576;
  }

  /** What a session keeps of n bytes behind its first file: all of them, or at least a quarter of the budget. */
  lemma KeepsEnough(maxTotal: nat, n: nat)
    requires maxTotal >= 4
    ensures var files, size := GetNumRotatingLogFiles(maxTotal), GetRotatingLogSize(maxTotal);
            var kept := Kept(n, size, files - 1);
            && (n < files * size ==> kept == n)
            && (n >= files * size ==> (files - 1) * size <= kept && maxTotal / 4 <= kept)
  {
    BudgetIsUsed(maxTotal);
    var files, size := GetNumRotatingLogFiles(maxTotal), GetRotatingLogSize(maxTotal);
    FullFilesKept(n, size, files);
    if files > 2 {
      assert (files - 1) * size >= 2 * size;
      assert files * size == (files - 1) * size + size;
    } else {
      assert (files - 1) * size == size;
    }
  }

  lemma FullFilesKept(n: nat, size: nat, files: nat)
    requires size > 0 && files > 0
    ensures n < files * size ==> Kept(n, size, files - 1) == n
    ensures n >= files * size ==> Kept(n, size, files - 1) >= (files - 1) * size
  {
    var q := n / size;
    assert n == q * size + n % size;
    if n < files * size {
      if q >= files {
        MultiplesGrow(files, q, size);
      }
    } else if q < files {
      MultiplesGrow(q + 1, files, size);
    }
  }

  lemma MultiplesGrow(a: nat, b: nat, size: nat)
    requires a <= b
    ensures a * size <= b * size
  {
  }

  lemma WithinBudget(maxTotal: nat, n: nat)
    requires maxTotal >= 4
    ensures var size, files := GetRotatingLogSize(maxTotal), GetNumRotatingLogFiles(maxTotal) + 1;
            maxTotal / 2 + Kept(n, size, files - 2) <= maxTotal
  {
    var size, rotating := GetRotatingLogSize(maxTotal), GetNumRotatingLogFiles(maxTotal);
    PeakFits(maxTotal, FullFiles(n, size, rotating - 1));
    BudgetSuffices(maxTotal);
  }

  /** A session's files, the current one possibly full. */
  lemma {:induction false} SessionPeak(d: Disk, first: seq<byte>, rest: seq<byte>, q: nat, size: nat)
    requires HoldsSession(d, first, rest, q, size) && |rest| <= Start(size, q) + size
    ensures TotalBytes(d) <= |first| + Min(q, |d| - 2) * size + size
  {
    var older := Min(q, |d| - 2);
    SessionReadBack(d, first, rest, q, size, older);
    TotalIsReadBack(d, older + 1);
    StartIsProduct(size, q);
    StartIsProduct(size, q - older);
    assert q * size == (q - older) * size + older * size;
  }

  lemma PeakFits(maxTotal: nat, older: nat)
    requires maxTotal >= 4 && older < GetNumRotatingLogFiles(maxTotal)
    ensures var size := GetRotatingLogSize(maxTotal);
            maxTotal / 2 + older * size + size <= maxTotal
  {
    BudgetSuffices(maxTotal);
    var size, rotating := GetRotatingLogSize(maxTotal), GetNumRotatingLogFiles(maxTotal);
    assert older * size + size == (older + 1) * size;
    assert (older + 1) * size <= rotating * size;
  }

  lemma SliceBehindFirst(log: seq<byte>, data: seq<byte>, first: nat)
    requires first <= |log|
    ensures (log + data)[..first] == log[..first] && (log + data)[first..] == log[first..] + data
  {
  }

  /** The files of a session and their total. */
  lemma {:induction false} SessionTotal(d: Disk, first: seq<byte>, rest: seq<byte>, q: nat, maxTotal: nat)
    requires maxTotal >= 4 && |first| == maxTotal / 2 && |d| == GetNumRotatingLogFiles(maxTotal) + 1
    requires var size := GetRotatingLogSize(maxTotal);
             HoldsSession(d, first, rest, q, size) && |rest| <= Start(size, q) + size
    ensures TotalBytes(d) <= maxTotal
  {
    SessionPeak(d, first, rest, q, GetRotatingLogSize(maxTotal));
    PeakFits(maxTotal, Min(q, |d| - 2));
  }

  /** No more is kept than there is. */
  lemma KeptWithin(s: seq<byte>, size: nat, slots: int)
    ensures Kept(|s|, size, slots) <= |s| && |Last(s, Kept(|s|, size, slots))| == Kept(|s|, size, slots)
  {
    if size > 0 {
      var n := |s|;
      assert n == n / size * size + n % size;
      assert FullFiles(n, size, slots) * size <= n / size * size;
    }
  }

  // ------------------------------------------------------------------------ the stream

  /** A stream opened for writing; `session` is the total budget of a call-session stream. */
  class FileRotatingStream {
    const session: Option<nat>
    const firstSize: nat
    var disk: Disk
    var maxFileSize: nat
    var rotationIndex: nat
    var currentBytes: nat
    var numRotations: nat
    ghost var log: seq<byte>

    ghost predicate Valid()
      reads this
    {
      Consistent() && currentBytes < maxFileSize
    }

    /** The files are what the log says, the current file being possibly full. */
    ghost predicate Consistent()
      reads this
    {
      && 0 < firstSize && |disk| >= 2 && currentBytes <= maxFileSize
      && (session.None? ==>
            && maxFileSize == firstSize && rotationIndex == |disk| - 1
            && Start(firstSize, numRotations) + currentBytes == |log|
            && HoldsNewest(disk, log, numRotations, firstSize))
      && (session.Some? ==>
            && session.value >= 4 && firstSize == session.value / 2
            && |disk| == GetNumRotatingLogFiles(session.value) + 1
            && rotationIndex == (if numRotations < |disk| - 1 then |disk| - 1 else |disk| - 2)
            && (numRotations == 0 ==> BeforeFirst())
            && (numRotations > 0 ==> AfterFirst()))
    }

    ghost predicate BeforeFirst()
      reads this
    {
      && maxFileSize == firstSize && currentBytes == |log| && disk != []
      && disk[0] == Some(log) && forall i :: 1 <= i < |disk| ==> disk[i].None?
    }

    ghost predicate AfterFirst()
      requires session.Some?
      reads this
    {
      && maxFileSize == GetRotatingLogSize(session.value) && numRotations > 0
      && firstSize <= |log|
      && Start(maxFileSize, numRotations - 1) + currentBytes == |log| - firstSize
      && HoldsSession(disk, log[..firstSize], log[firstSize..], numRotations - 1, maxFileSize)
    }

    /** Opening deletes the old files and creates an empty file 0. */
    constructor Plain(size: nat, numFiles: nat)
      requires size > 0 && numFiles > 1
      ensures Valid() && session.None? && firstSize == size && |disk| == numFiles && log == []
    {
      session, firstSize, maxFileSize := None, size, size;
      disk := seq(numFiles, i => if i == 0 then Some([]) else None);
      rotationIndex, currentBytes, numRotations, log := numFiles - 1, 0, 0, [];
    }

    constructor CallSession(maxTotal: nat)
      requires maxTotal >= 4
      ensures Valid() && session == Some(maxTotal) && log == []
    {
      var numFiles := GetNumRotatingLogFiles(maxTotal) + 1;
      session, firstSize, maxFileSize := Some(maxTotal), maxTotal / 2, maxTotal / 2;
      disk := seq(numFiles, i => if i == 0 then Some([]) else None);
      rotationIndex, currentBytes, numRotations, log := numFiles - 1, 0, 0, [];
    }

    /** Deletes the file at the rotation index, renames the others upwards, opens a new file 0. */
    method RotateFiles()
      requires rotationIndex < |disk|
      modifies this`disk, this`currentBytes
      ensures IsRotation(old(disk), rotationIndex, disk) && currentBytes == 0
    {
      currentBytes := 0;
      disk := disk[rotationIndex := None];
      var i := rotationIndex;
      while i > 0
        invariant 0 <= i <= rotationIndex && currentBytes == 0 && |disk| == |old(disk)|
        invariant disk[i].None?
        invariant forall j :: 0 <= j < i ==> disk[j] == old(disk)[j]
        invariant forall j :: i < j <= rotationIndex ==> disk[j] == old(disk)[j - 1]
        invariant forall j :: rotationIndex < j < |disk| ==> disk[j] == old(disk)[j]
      {
        if disk[i - 1].Some? {
          disk := disk[i := disk[i - 1]];
          disk := disk[i - 1 := None];
        }
        i := i - 1;
      }
      disk := disk[0 := Some([])];
    }

    /** Only a session reacts to a rotation: smaller files after the first, and the first one is kept. */
    method OnRotation()
      modifies this`numRotations, this`maxFileSize, this`rotationIndex
      requires session.Some? ==> |disk| >= 3
      requires rotationIndex > 0
      ensures numRotations == old(numRotations) + 1
      ensures maxFileSize ==
              if session.Some? && numRotations == 1 then GetRotatingLogSize(session.value) else old(maxFileSize)
      ensures rotationIndex == old(rotationIndex) - (if session.Some? && numRotations == |disk| - 1 then 1 else 0)
    {
      numRotations := numRotations + 1;
      if session.Some? {
        if numRotations == 1 {
          maxFileSize := GetRotatingLogSize(session.value);
        } else if numRotations == |disk| - 1 {
          rotationIndex := rotationIndex - 1;
        }
      }
    }

    /** Appends to the current file. */
    method Grow(data: seq<byte>)
      requires Consistent() && currentBytes + |data| <= maxFileSize
      modifies this`disk, this`currentBytes, this`log
      ensures Consistent() && log == old(log) + data && |disk| == |old(disk)|
      ensures session.Some? ==> TotalBytes(disk) <= session.value
    {
      Extend(data);
      if session.Some? {
        PeakInBudget();
      }
    }

    /** The current file, its length and the log grow together. */
    method Extend(data: seq<byte>)
      requires Consistent() && currentBytes + |data| <= maxFileSize
      modifies this`disk, this`currentBytes, this`log
      ensures Consistent() && log == old(log) + data && |disk| == |old(disk)|
    {
      if session.None? {
        NewestGrows(disk, log, numRotations, firstSize, data);
      } else if numRotations > 0 {
        SessionGrows(disk, log[..firstSize], log[firstSize..], numRotations - 1, maxFileSize, data);
        SliceBehindFirst(log, data, firstSize);
      }
      disk := disk[0 := Some(disk[0].value + data)];
      currentBytes := currentBytes + |data|;
      log := log + data;
    }

    /** Also at its peak, with a full file that has not been rotated yet, a session is in its budget. */
    lemma {:induction false} PeakInBudget()
      requires Consistent() && session.Some?
      ensures TotalBytes(disk) <= session.value
    {
      if numRotations == 0 {
        TotalIsReadBack(disk, 0);
      } else {
        SessionTotal(disk, log[..firstSize], log[firstSize..], numRotations - 1, session.value);
      }
    }

    /** A full file of a plain stream is rotated out. */
    method TurnPlain()
      requires Consistent() && currentBytes == maxFileSize && session.None?
      modifies this`disk, this`currentBytes, this`numRotations, this`maxFileSize, this`rotationIndex
      ensures Valid() && |disk| == |old(disk)|
    {
      ghost var d := disk;
      RotateFiles();
      NewestRotates(d, log, numRotations, firstSize, disk);
      OnRotation();
    }

    /** The first file of a session is full. */
    method TurnFirst()
      requires Consistent() && currentBytes == maxFileSize && session.Some? && numRotations == 0
      modifies this`disk, this`currentBytes, this`numRotations, this`maxFileSize, this`rotationIndex
      ensures Valid() && |disk| == |old(disk)|
    {
      ghost var d := disk;
      RotateFiles();
      SessionStarts(d, log, GetRotatingLogSize(session.value), disk);
      assert log[..firstSize] == log && log[firstSize..] == [];
      OnRotation();
    }

    /** A later file of a session is full. */
    method TurnLater()
      requires Consistent() && currentBytes == maxFileSize && session.Some? && numRotations > 0
      modifies this`disk, this`currentBytes, this`numRotations, this`maxFileSize, this`rotationIndex
      ensures Valid() && |disk| == |old(disk)|
    {
      ghost var d := disk;
      RotateFiles();
      ghost var q := numRotations - 1;
      SessionRotates(d, log[..firstSize], log[firstSize..], q, maxFileSize, disk);
      OnRotation();
    }

    /** Writes as much as fits in the current file, or less if the file system takes only `accepted`. */
    method Write(data: seq<byte>, accepted: nat) returns (written: nat)
      requires Valid()
      modifies this
      ensures Valid() && |disk| == |old(disk)|
      ensures written == Min(accepted, Min(|data|, old(maxFileSize - currentBytes)))
      ensures log == old(log) + data[..written]
    {
      written := Min(accepted, Min(|data|, maxFileSize - currentBytes));
      Grow(data[..written]);
      if currentBytes >= maxFileSize {
        if session.None? {
          TurnPlain();
        } else if numRotations == 0 {
          TurnFirst();
        } else {
          TurnLater();
        }
      }
    }

    /** What a plain stream's files hold after any run of writes. */
    lemma {:induction false} PlainFiles()
      requires Valid() && session.None?
      ensures var top := FullFiles(|log|, firstSize, |disk| - 1);
              Contiguous(disk, top) && ReadBack(disk, top) == Last(log, Kept(|log|, firstSize, |disk| - 1))
    {
      PlainRetention(disk, log, numRotations, firstSize);
    }

    /**
     * What a session's files hold after any run of writes: the first half of the budget for ever,
     * and the newest bytes of the rest; and they never exceed the budget.
     */
    lemma {:induction false} SessionFiles()
      requires Valid() && session.Some? && firstSize <= |log|
      ensures var rest, size := log[firstSize..], GetRotatingLogSize(session.value);
              var older := FullFiles(|rest|, size, |disk| - 2);
              && Contiguous(disk, older + 1)
              && ReadBack(disk, older + 1) == log[..firstSize] + Last(rest, Kept(|rest|, size, |disk| - 2))
      ensures firstSize == session.value / 2 && TotalBytes(disk) <= session.value
    {
      assert numRotations > 0;
      SessionRetention(disk, log[..firstSize], log[firstSize..], numRotations - 1, maxFileSize);
      PeakInBudget();
    }

    /** Until the first file is full it is the only one, and it holds everything. */
    lemma {:induction false} SessionFirstFile()
      requires Valid() && session.Some? && |log| < firstSize
      ensures Contiguous(disk, 0) && ReadBack(disk, 0) == log && TotalBytes(disk) <= session.value
    {
      TotalIsReadBack(disk, 0);
    }

    /** The highest index in use. */
    ghost function Top(): nat
      reads this
    {
      if session.None? then FullFiles(|log|, firstSize, |disk| - 1)
      else if |log| < firstSize then 0
      else FullFiles(|log| - firstSize, GetRotatingLogSize(session.value), |disk| - 2) + 1
    }

    /** What the files must hold, oldest first. */
    ghost function Retained(): seq<byte>
      reads this
    {
      if session.None? then Last(log, Kept(|log|, firstSize, |disk| - 1))
      else if |log| < firstSize then log
      else
        var rest := log[firstSize..];
        log[..firstSize] + Last(rest, Kept(|rest|, GetRotatingLogSize(session.value), |disk| - 2))
    }

    /**
     * How much that is for a session: everything until the rotating files are used up, and then
     * never less than three quarters of the budget.
     */
    lemma {:induction false} SessionKeeps()
      requires Valid() && session.Some?
      ensures var n, size := GetNumRotatingLogFiles(session.value), GetRotatingLogSize(session.value);
              |log| < session.value / 2 + n * size ==> Retained() == log
      ensures |Retained()| >= Min(|log|, session.value / 2 + session.value / 4)
    {
      if |log| >= firstSize {
        var rest := log[firstSize..];
        KeepsEnough(session.value, |rest|);
        assert log == log[..firstSize] + rest && rest[0..] == rest;
        KeptWithin(rest, GetRotatingLogSize(session.value), |disk| - 2);
      }
    }

    /** After any run of writes the files are that, and a session's never exceed its budget. */
    lemma {:induction false} Files()
      requires Valid()
      ensures Contiguous(disk, Top()) && ReadBack(disk, Top()) == Retained()
      ensures session.Some? ==> TotalBytes(disk) <= session.value
    {
      if session.None? {
        PlainFiles();
      } else if |log| < firstSize {
        SessionFirstFile();
      } else {
        SessionFiles();
      }
    }
  }
}
