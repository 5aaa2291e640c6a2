/**
 * Reading rotated logs back. The reader sorts the file names and walks the list backwards, so what
 * it recovers depends on the names sorting in index order.
 */
module LogReader {
  import opened Bytes
  import opened RotatingLog

  // ------------------------------------------------------------------------ names

  function Digit(d: nat): char
    requires d < 10
  {
    ('0' as int + d) as char
  }

  function Decimal(n: nat): (s: string)
    ensures s != [] && (n > 0 ==> s[0] > '0')
  {
    if n < 10 then [Digit(n)] else Decimal(n / 10) + [Digit(n % 10)]
  }

  function Zeros(n: nat): string {
    seq(n, _ => '0')
  }

  /** The source takes i / 10 + 1 for the number of digits of i. */
  function Padding(index: nat, numFiles: nat): nat
    requires index < numFiles
  {
    (numFiles - 1) / 10 + 1 - (index / 10 + 1)
  }

  function Name(prefix: string, index: nat, numFiles: nat): string
    requires index < numFiles
  {
    prefix + "_" + Zeros(Padding(index, numFiles)) + Decimal(index)
  }

  function DecimalValue(s: string): int {
    if s == [] then 0 else 10 * DecimalValue(s[..|s| - 1]) + (s[|s| - 1] as int - '0' as int)
  }

  lemma {:induction false} DecimalIsValue(n: nat)
    ensures DecimalValue(Decimal(n)) == n
    ensures forall i :: 0 <= i < |Decimal(n)| ==> '0' <= Decimal(n)[i] <= '9'
  {
    var s := Decimal(n);
    if n < 10 {
      assert s[..0] == [];
    } else {
      DecimalIsValue(n / 10);
      assert s[..|s| - 1] == Decimal(n / 10);
    }
  }

  /**
   * A name is the prefix, an underscore, zeros and the index in decimal; up to ten files there are
   * no zeros, and every further ten files add one to the names of the first ten.
   */
  lemma {:induction false} NameFormat(prefix: string, index: nat, numFiles: nat) returns (zeros: nat, digits: string)
    requires index < numFiles
    ensures Name(prefix, index, numFiles) == prefix + "_" + Zeros(zeros) + digits
    ensures forall i :: 0 <= i < zeros ==> Zeros(zeros)[i] == '0'
    ensures 10 * (zeros + index / 10) <= numFiles - 1 < 10 * (zeros + index / 10) + 10
    ensures DecimalValue(digits) == index && digits != [] && (digits[0] == '0' ==> index == 0)
  {
    zeros, digits := Padding(index, numFiles), Decimal(index);
    DecimalIsValue(index);
  }

  method GetFilePath(prefix: string, index: nat, numFiles: nat) returns (name: string)
    requires index < numFiles
    ensures name == Name(prefix, index, numFiles)
  {
    var maxDigits, numDigits := (numFiles - 1) / 10 + 1, index / 10 + 1;
    var padding := maxDigits - numDigits;
    name := prefix + "_";
    var i := 0;
    while i < padding
      invariant 0 <= i <= padding && name == prefix + "_" + Zeros(i)
    {
      assert Zeros(i + 1) == Zeros(i) + "0";
      name := name + "0";
      i := i + 1;
    }
    name := name + Decimal(index);
  }

  // ------------------------------------------------------------------------ lexicographic order

  predicate LexLess(a: string, b: string) {
    b != [] && (a == [] || a[0] < b[0] || (a[0] == b[0] && LexLess(a[1..], b[1..])))
  }

  lemma {:induction false} LexSamePrefix(p: string, a: string, b: string)
    ensures LexLess(p + a, p + b) == LexLess(a, b)
  {
    if p == [] {
      assert p + a == a && p + b == b;
    } else {
      assert (p + a)[1..] == p[1..] + a && (p + b)[1..] == p[1..] + b;
      LexSamePrefix(p[1..], a, b);
    }
  }

  lemma {:induction false} LexTrichotomy(a: string, b: string)
    ensures !(LexLess(a, b) && LexLess(b, a))
    ensures !LexLess(a, b) && !LexLess(b, a) ==> a == b
    ensures a == b ==> !LexLess(a, b)
  {
    if a != [] && b != [] && a[0] == b[0] {
      LexTrichotomy(a[1..], b[1..]);
      assert a == [a[0]] + a[1..] && b == [b[0]] + b[1..];
    }
  }

  /** As std::sort leaves a list: no later element is less than an earlier one. */
  ghost predicate Sorted(s: seq<string>) {
    forall i, j :: 0 <= i < j < |s| ==> !LexLess(s[j], s[i])
  }

  ghost predicate Increasing(s: seq<string>) {
    forall i, j :: 0 <= i < j < |s| ==> LexLess(s[i], s[j])
  }

  ghost predicate Distinct(s: seq<string>) {
    forall i, j :: 0 <= i < j < |s| ==> s[i] != s[j]
  }

  lemma SortedIncreases(s: seq<string>)
    requires Sorted(s) && Distinct(s)
    ensures Increasing(s)
  {
    forall i, j | 0 <= i < j < |s|
      ensures LexLess(s[i], s[j])
    {
      LexTrichotomy(s[i], s[j]);
    }
  }

  ghost predicate SameElements(s: seq<string>, t: seq<string>) {
    forall x :: x in s <==> x in t
  }

  lemma {:induction false} SameSmallest(s: seq<string>, t: seq<string>)
    requires SameElements(s, t) && Increasing(s) && Increasing(t) && s != [] && t != []
    ensures s[0] == t[0] && SameElements(s[1..], t[1..])
  {
    assert t[0] in s && s[0] in t;
    var i :| 0 <= i < |s| && s[i] == t[0];
    var j :| 0 <= j < |t| && t[j] == s[0];
    LexTrichotomy(s[0], t[0]);
    forall x
      ensures x in s[1..] <==> x in s && x != s[0]
      ensures x in t[1..] <==> x in t && x != t[0]
    {
      HeadIsApart(s, x);
      HeadIsApart(t, x);
    }
  }

  lemma NotEmpty(s: seq<string>, t: seq<string>)
    requires SameElements(s, t) && s != []
    ensures t != []
  {
    assert s[0] in s;
  }

  lemma HeadIsApart(s: seq<string>, x: string)
    requires Increasing(s) && s != []
    ensures x in s[1..] <==> x in s && x != s[0]
  {
    LexTrichotomy(s[0], s[0]);
  }

  /** Sorting distinct names gives the only increasing list of them. */
  lemma {:induction false} SortIsUnique(s: seq<string>, t: seq<string>)
    requires SameElements(s, t) && Increasing(s) && Increasing(t)
    ensures s == t
  {
    if s != [] {
      NotEmpty(s, t);
      SameSmallest(s, t);
      SortIsUnique(s[1..], t[1..]);
      assert s == [s[0]] + s[1..] && t == [t[0]] + t[1..];
    } else if t != [] {
      NotEmpty(t, s);
    }
  }

  lemma {:induction false} SameDecadeOrder(i: nat, j: nat)
    requires i < j && i / 10 == j / 10
    ensures LexLess(Decimal(i), Decimal(j))
  {
    var decade := if j < 10 then "" else Decimal(j / 10);
    assert Decimal(i) == decade + [Digit(i % 10)] && Decimal(j) == decade + [Digit(j % 10)];
    LexSamePrefix(decade, [Digit(i % 10)], [Digit(j % 10)]);
  }

  lemma NameSplits(prefix: string, index: nat, numFiles: nat, pad: nat)
    requires index < numFiles && pad <= Padding(index, numFiles)
    ensures Name(prefix, index, numFiles) ==
            (prefix + "_" + Zeros(pad)) + (Zeros(Padding(index, numFiles) - pad) + Decimal(index))
  {
    assert Zeros(Padding(index, numFiles)) == Zeros(pad) + Zeros(Padding(index, numFiles) - pad);
  }

  /** Names sort in index order, for any number of files. */
  lemma {:induction false} NameOrder(prefix: string, i: nat, j: nat, numFiles: nat)
    requires i < j < numFiles
    ensures LexLess(Name(prefix, i, numFiles), Name(prefix, j, numFiles))
  {
    var pad := Padding(j, numFiles);
    var extra := Padding(i, numFiles) - pad;
    NameSplits(prefix, i, numFiles, pad);
    NameSplits(prefix, j, numFiles, pad);
    assert Zeros(0) + Decimal(j) == Decimal(j);
    if extra == 0 {
      assert Zeros(0) + Decimal(i) == Decimal(i);
      SameDecadeOrder(i, j);
    } else {
      assert (Zeros(extra) + Decimal(i))[0] == '0';
    }
    LexSamePrefix(prefix + "_" + Zeros(pad), Zeros(extra) + Decimal(i), Decimal(j));
  }

  function Names(prefix: string, count: nat, numFiles: nat): seq<string>
    requires count <= numFiles
  {
    seq(count, i requires 0 <= i < count => Name(prefix, i, numFiles))
  }

  lemma NamesIncrease(prefix: string, count: nat, numFiles: nat)
    requires count <= numFiles
    ensures Increasing(Names(prefix, count, numFiles))
  {
    forall i, j | 0 <= i < j < count
      ensures LexLess(Names(prefix, count, numFiles)[i], Names(prefix, count, numFiles)[j])
    {
      NameOrder(prefix, i, j, numFiles);
    }
  }

  // ------------------------------------------------------------------------ the reader

  datatype ReadResult = RdSuccess(data: seq<byte>) | RdEos

  type Directory = map<string, seq<byte>>

  ghost predicate AllIn(names: seq<string>, dir: Directory) {
    forall i :: 0 <= i < |names| ==> names[i] in dir
  }

  /** The files, from the last name to the first. */
  ghost function FilesBackwards(names: seq<string>, dir: Directory): seq<byte>
    requires AllIn(names, dir)
  {
    if names == [] then [] else dir[names[|names| - 1]] + FilesBackwards(names[..|names| - 1], dir)
  }

  lemma FileCut(file: seq<byte>, from: nat, n: nat, later: seq<byte>)
    requires from + n <= |file|
    ensures file[from..from + n] + (file[from + n..] + later) == file[from..] + later
  {
    assert file[from..] == file[from..from + n] + file[from + n..];
    ConcatAssociative(file[from..from + n], file[from + n..], later);
  }

  /** A stream opened for reading. `dir` is the directory; `current` is |names| once all is read. */
  class RotatedReader {
    const names: seq<string>
    const dir: Directory
    var current: nat
    var isOpen: bool
    var position: nat

    ghost predicate Valid()
      reads this
    {
      && AllIn(names, dir) && current <= |names|
      && (isOpen ==> current < |names| && position <= |dir[names[current]]|)
    }

    /** Everything that is still to be read. */
    ghost function Unread(): seq<byte>
      requires Valid()
      reads this
    {
      if current == |names| then []
      else dir[names[current]][if isOpen then position else 0..] + FilesBackwards(names[..current], dir)
    }

    constructor (sorted: seq<string>, dir: Directory)
      requires AllIn(sorted, dir)
      ensures Valid() && names == sorted && this.dir == dir && Unread() == FilesBackwards(names, dir)
    {
      names, this.dir := sorted, dir;
      current := if |sorted| > 0 then |sorted| - 1 else 0;
      isOpen, position := false, 0;
    }

    /** The current file is at its end: close it and turn to the next newer one. */
    method NextFile()
      requires Valid() && isOpen && position == |dir[names[current]]|
      modifies this`current, this`isOpen
      ensures Valid() && !isOpen && Unread() == old(Unread())
      ensures current < old(current) || current == |names|
    {
      assert dir[names[current]][position..] == [];
      isOpen := false;
      if current == 0 {
        current := |names|;
      } else {
        current := current - 1;
        assert names[..current + 1][..current] == names[..current];
      }
    }

    /** Part of what the current file still holds. */
    method ReadFile(bufferLen: nat) returns (data: seq<byte>)
      requires Valid() && isOpen && position < |dir[names[current]]| && bufferLen > 0
      modifies this`position
      ensures Valid() && 0 < |data| <= bufferLen && data + Unread() == old(Unread())
    {
      var file := dir[names[current]];
      var n: int := *;
      if n <= 0 || n > bufferLen || n > |file| - position {
        n := Min(bufferLen, |file| - position);
      }
      data := file[position..position + n];
      FileCut(file, position, n, FilesBackwards(names[..current], dir));
      position := position + n;
    }

    /** The next bytes; none when the current file was at its end. */
    method Read(bufferLen: nat) returns (r: ReadResult)
      requires Valid() && bufferLen > 0
      modifies this
      ensures Valid()
      ensures r.RdEos? <==> old(current) == |names|
      ensures r.RdEos? ==> old(Unread()) == []
      ensures r.RdSuccess? ==> |r.data| <= bufferLen && r.data + Unread() == old(Unread())
      ensures r == RdSuccess([]) ==> current < old(current) || current == |names|
    {
      if current >= |names| {
        return RdEos;
      }
      if !isOpen {
        isOpen, position := true, 0;
      }
      assert Unread() == old(Unread());
      if position == |dir[names[current]]| {
        NextFile();
        assert [] + Unread() == Unread();
        return RdSuccess([]);
      }
      var data := ReadFile(bufferLen);
      return RdSuccess(data);
    }

    /** Reading until the end of the stream recovers everything. */
    method ReadAll(bufferLen: nat) returns (all: seq<byte>)
      requires Valid() && bufferLen > 0
      modifies this
      ensures Valid() && all == old(Unread())
    {
      all := [];
      assert [] + Unread() == Unread();
      while true
        invariant Valid() && all + Unread() == old(Unread())
        decreases |Unread()|, if current == |names| then 0 else current + 1
      {
        var r := Read(bufferLen);
        if r.RdEos? {
          return;
        }
        ConcatAssociative(all, r.data, Unread());
        all := all + r.data;
      }
    }
  }

  // ------------------------------------------------------------------------ the listing

  /** The files whose name starts with the prefix, sorted. */
  ghost predicate IsListing(prefix: string, dir: Directory, sorted: seq<string>) {
    && Sorted(sorted) && Distinct(sorted)
    && forall name :: name in sorted <==> Listed(prefix, dir, name)
  }

  predicate Listed(prefix: string, dir: Directory, name: string) {
    name in dir && name != "" && prefix <= name
  }

  /** Walks the directory in any order. */
  method GetFilesWithPrefix(prefix: string, dir: Directory) returns (files: seq<string>)
    ensures Distinct(files) && forall name :: name in files <==> Listed(prefix, dir, name)
  {
    files := [];
    var left := dir.Keys;
    while left != {}
      invariant left <= dir.Keys && Distinct(files)
      invariant forall name :: name in files <==> Listed(prefix, dir, name) && name !in left
      decreases left
    {
      var name :| name in left;
      if |name| > 0 && |prefix| <= |name| && name[..|prefix|] == prefix {
        files := files + [name];
      }
      left := left - {name};
    }
  }

  /** The directory holds the files of `d` under their names. */
  ghost predicate Stores(prefix: string, d: Disk, dir: Directory) {
    forall i :: 0 <= i < |d| && d[i].Some? ==> Name(prefix, i, |d|) in dir && dir[Name(prefix, i, |d|)] == d[i].value
  }

  /** Every other file that starts with the prefix is empty. */
  ghost predicate NoForeignBytes(prefix: string, own: seq<string>, dir: Directory) {
    forall name :: Listed(prefix, dir, name) && name !in own ==> dir[name] == []
  }

  function Keep(s: seq<string>, own: seq<string>): seq<string> {
    if s == [] then []
    else
      var n := |s| - 1;
      Keep(s[..n], own) + (if s[n] in own then [s[n]] else [])
  }

  lemma {:induction false} KeepExact(s: seq<string>, own: seq<string>)
    ensures forall x :: x in Keep(s, own) <==> x in s && x in own
  {
    if s != [] {
      var n := |s| - 1;
      KeepExact(s[..n], own);
      assert s == s[..n] + [s[n]];
    }
  }

  lemma {:induction false} KeepIncreasing(s: seq<string>, own: seq<string>)
    requires Increasing(s)
    ensures Increasing(Keep(s, own))
  {
    if s != [] {
      var n := |s| - 1;
      KeepIncreasing(s[..n], own);
      KeepExact(s[..n], own);
      var kept := Keep(s[..n], own);
      forall i | 0 <= i < |kept|
        ensures LexLess(kept[i], s[n])
      {
        assert kept[i] in s[..n];
      }
    }
  }

  lemma {:induction false} KeepAllIn(s: seq<string>, own: seq<string>, dir: Directory)
    requires AllIn(s, dir)
    ensures AllIn(Keep(s, own), dir)
  {
    KeepExact(s, own);
    forall i | 0 <= i < |Keep(s, own)|
      ensures Keep(s, own)[i] in dir
    {
      assert Keep(s, own)[i] in s;
    }
  }

  lemma BackwardsSnoc(names: seq<string>, last: string, dir: Directory)
    requires AllIn(names, dir) && last in dir
    ensures AllIn(names + [last], dir)
    ensures FilesBackwards(names + [last], dir) == dir[last] + FilesBackwards(names, dir)
  {
    assert (names + [last])[..|names|] == names;
  }

  /** Other files only add bytes, and none exactly when they are empty. */
  lemma {:induction false} BackwardsOfKept(s: seq<string>, own: seq<string>, dir: Directory)
    requires AllIn(s, dir)
    ensures AllIn(Keep(s, own), dir) && |FilesBackwards(Keep(s, own), dir)| <= |FilesBackwards(s, dir)|
    ensures FilesBackwards(s, dir) == FilesBackwards(Keep(s, own), dir) <==> OthersEmpty(s, own, dir)
    ensures !OthersEmpty(s, own, dir) ==> |FilesBackwards(Keep(s, own), dir)| < |FilesBackwards(s, dir)|
  {
    KeepAllIn(s, own, dir);
    if s != [] {
      var n := |s| - 1;
      var init, last := s[..n], s[n];
      BackwardsOfKept(init, own, dir);
      assert OthersEmpty(s, own, dir) <==> OthersEmpty(init, own, dir) && (last in own || dir[last] == []);
      if last in own {
        BackwardsSnoc(Keep(init, own), last, dir);
      } else {
        assert Keep(s, own) == Keep(init, own);
      }
    }
  }

  ghost predicate OthersEmpty(s: seq<string>, own: seq<string>, dir: Directory)
    requires AllIn(s, dir)
  {
    forall i :: 0 <= i < |s| && s[i] !in own ==> dir[s[i]] == []
  }

  lemma {:induction false} BackwardsIsReadBack(prefix: string, d: Disk, top: nat, dir: Directory)
    requires top < |d| && Stores(prefix, d, dir) && forall i :: 0 <= i <= top ==> d[i].Some?
    ensures AllIn(Names(prefix, top + 1, |d|), dir)
    ensures FilesBackwards(Names(prefix, top + 1, |d|), dir) == ReadBack(d, top)
  {
    var names, init := Names(prefix, top + 1, |d|), Names(prefix, top, |d|);
    assert names == init + [Name(prefix, top, |d|)];
    if top == 0 {
      assert d[0].value + [] == d[0].value;
      BackwardsSnoc([], names[0], dir);
      assert [] + [names[0]] == names;
    } else {
      BackwardsIsReadBack(prefix, d, top - 1, dir);
      BackwardsSnoc(init, Name(prefix, top, |d|), dir);
    }
  }

  /** The stream's own names in any listing are its names in index order. */
  lemma {:induction false} OwnNames(prefix: string, d: Disk, top: nat, sorted: seq<string>, dir: Directory)
    requires Contiguous(d, top) && Stores(prefix, d, dir) && IsListing(prefix, dir, sorted)
    ensures Keep(sorted, Names(prefix, top + 1, |d|)) == Names(prefix, top + 1, |d|)
  {
    var own := Names(prefix, top + 1, |d|);
    SortedIncreases(sorted);
    KeepIncreasing(sorted, own);
    KeepExact(sorted, own);
    NamesIncrease(prefix, top + 1, |d|);
    forall x | x in own
      ensures x in sorted
    {
      var i :| 0 <= i <= top && x == Name(prefix, i, |d|);
      assert Listed(prefix, dir, x);
    }
    SortIsUnique(Keep(sorted, own), own);
  }

  lemma ListedOthers(prefix: string, own: seq<string>, dir: Directory, sorted: seq<string>)
    requires IsListing(prefix, dir, sorted)
    ensures AllIn(sorted, dir)
    ensures OthersEmpty(sorted, own, dir) <==> NoForeignBytes(prefix, own, dir)
  {
    forall i | 0 <= i < |sorted|
      ensures Listed(prefix, dir, sorted[i])
    {
      assert sorted[i] in sorted;
    }
    if OthersEmpty(sorted, own, dir) {
      forall name | Listed(prefix, dir, name) && name !in own
        ensures dir[name] == []
      {
        assert name in sorted;
      }
    }
  }

  /**
   * Read-back: whatever order the directory lists the files in, sorting the names and reading the
   * list backwards gives the stream's files oldest first, exactly when no other file that starts
   * with the prefix holds a byte.
   */
  method Recover(prefix: string, sorted: seq<string>, dir: Directory, bufferLen: nat, ghost d: Disk, ghost top: nat)
    returns (all: seq<byte>)
    requires Contiguous(d, top) && Stores(prefix, d, dir) && IsListing(prefix, dir, sorted) && bufferLen > 0
    ensures all == ReadBack(d, top) <==> NoForeignBytes(prefix, Names(prefix, top + 1, |d|), dir)
  {
    ghost var own := Names(prefix, top + 1, |d|);
    ListedOthers(prefix, own, dir, sorted);
    OwnNames(prefix, d, top, sorted, dir);
    BackwardsIsReadBack(prefix, d, top, dir);
    BackwardsOfKept(sorted, own, dir);
    var reader := new RotatedReader(sorted, dir);
    all := reader.ReadAll(bufferLen);
  }

  lemma {:induction false} ForeignFileIsListed(dir: Directory)
    requires dir == map["log_0" := [1], "log_old" := [2]]
    ensures LexLess("log_0", "log_old") && Listed("log", dir, "log_0") && Listed("log", dir, "log_old")
  {
    var a, b := "log_0", "log_old";
    assert a == "log_" + "0" && b == "log_" + "old";
    LexSamePrefix("log_", "0", "old");
    assert a[..3] == "log" && b[..3] == "log";
  }

  lemma FirstName(prefix: string)
    ensures Name(prefix, 0, 2) == prefix + "_0"
  {
    assert Zeros(0) == "" && Decimal(0) == "0";
  }

  /** "log_old" beside "log_0" is read as part of the log, and as its oldest part. */
  lemma {:induction false} ForeignFileIsRead(dir: Directory, d: Disk, sorted: seq<string>)
    requires dir == map["log_0" := [1], "log_old" := [2]] && d == [Some([1]), None]
    requires sorted == ["log_0", "log_old"]
    ensures Stores("log", d, dir) && IsListing("log", dir, sorted)
    ensures AllIn(sorted, dir) && FilesBackwards(sorted, dir) == [2, 1] != ReadBack(d, 0)
  {
    FirstName("log");
    assert "log" + "_0" == sorted[0];
    ForeignFileIsListed(dir);
    LexTrichotomy(sorted[0], sorted[1]);
    BackwardsSnoc([], sorted[0], dir);
    BackwardsSnoc([sorted[0]], sorted[1], dir);
    assert [] + [sorted[0]] == [sorted[0]] && [sorted[0]] + [sorted[1]] == sorted;
  }

  // ------------------------------------------------------------------------ writer and reader

  /**
   * After any run of writes, a reader of the directory gets exactly the retained bytes: for a plain
   * stream the last min(T/M, n-1)*M + T%M of the T bytes written, for a session its first
   * half-budget of bytes and the last min(q, n-2)*R + r of the rest; unless, and only unless, other
   * files with the prefix hold bytes.
   */
  method ReadStream(w: FileRotatingStream, prefix: string, sorted: seq<string>, dir: Directory, bufferLen: nat)
    returns (all: seq<byte>)
    requires w.Valid() && Stores(prefix, w.disk, dir) && IsListing(prefix, dir, sorted) && bufferLen > 0
    ensures w.Top() < |w.disk|
    ensures all == w.Retained() <==> NoForeignBytes(prefix, Names(prefix, w.Top() + 1, |w.disk|), dir)
  {
    w.Files();
    all := Recover(prefix, sorted, dir, bufferLen, w.disk, w.Top());
  }
}
