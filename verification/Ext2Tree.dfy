/** Directories and `tree` of ssu_ext2: parsing directory records (The Second Extended File
    System: Internal Layout, "Linked Directory Entry Structure"), sorting the entries, and
    walking the directories of an arbitrary image, loops and hard links included. */
module Ext2Tree {
  import opened Common
  import opened Ext2Image
  import opened Ext2Print

  const MAX_TREE_DEPTH := 4096

  type Name = seq<Byte>

  datatype Entry = Entry(ino: nat, fileType: Byte, name: Name)

  // ----------------------------------------------------------------- sorted insertion

  /** strcmp(a, b) <= 0. */
  predicate NotAfter(a: Name, b: Name) {
    a == [] || (b != [] && (a[0] < b[0] || (a[0] == b[0] && NotAfter(a[1..], b[1..]))))
  }

  lemma {:induction false} Total(a: Name, b: Name)
    ensures NotAfter(a, b) || NotAfter(b, a)
    ensures NotAfter(a, b) && NotAfter(b, a) ==> a == b
  {
    if a != [] && b != [] && a[0] == b[0] {
      Total(a[1..], b[1..]);
      assert a == [a[0]] + a[1..] && b == [b[0]] + b[1..];
    }
  }

  lemma {:induction false} Transitive(a: Name, b: Name, c: Name)
    requires NotAfter(a, b) && NotAfter(b, c)
    ensures NotAfter(a, c)
  {
    if a != [] && a[0] == b[0] == c[0] {
      Transitive(a[1..], b[1..], c[1..]);
    }
  }

  predicate Sorted(list: seq<Entry>) {
    forall i, j :: 0 <= i < j < |list| ==> NotAfter(list[i].name, list[j].name)
  }

  /** entry_list_insert: after all names that do not come after it. */
  method Insert(list: seq<Entry>, e: Entry) returns (r: seq<Entry>)
    requires Sorted(list)
    ensures Sorted(r) && multiset(r) == multiset(list) + multiset{e}
    ensures exists k :: 0 <= k <= |list| && r == list[..k] + [e] + list[k..]
                        && forall i :: 0 <= i < |list| ==> (i < k <==> NotAfter(list[i].name, e.name))
  {
    var k := 0;
    while k < |list| && NotAfter(list[k].name, e.name)
      invariant 0 <= k <= |list| && forall i :: 0 <= i < k ==> NotAfter(list[i].name, e.name)
    {
      k := k + 1;
    }
    r := list[..k] + [e] + list[k..];
    InsertSorted(list, e, k);
    assert list == list[..k] + list[k..];
  }

  lemma InsertSorted(list: seq<Entry>, e: Entry, k: nat)
    requires Sorted(list) && k <= |list| && (k < |list| ==> !NotAfter(list[k].name, e.name))
    requires forall i :: 0 <= i < k ==> NotAfter(list[i].name, e.name)
    ensures Sorted(list[..k] + [e] + list[k..])
    ensures forall i :: k <= i < |list| ==> !NotAfter(list[i].name, e.name)
  {
    hide NotAfter;
    var r := list[..k] + [e] + list[k..];
    forall i | k <= i < |list| ensures !NotAfter(list[i].name, e.name) && NotAfter(e.name, list[i].name) {
      Later(list, e, k, i);
    }
    forall i, j | 0 <= i < j < |r| ensures NotAfter(r[i].name, r[j].name) {
      assert r[i] == if i < k then list[i] else if i == k then e else list[i - 1];
      assert r[j] == if j < k then list[j] else if j == k then e else list[j - 1];
    }
  }

  lemma Later(list: seq<Entry>, e: Entry, k: nat, i: nat)
    requires Sorted(list) && k <= i < |list| && !NotAfter(list[k].name, e.name)
    ensures !NotAfter(list[i].name, e.name) && NotAfter(e.name, list[i].name)
  {
    hide NotAfter;
    Total(e.name, list[k].name);
    Total(e.name, list[i].name);
    if k < i {
      assert NotAfter(list[k].name, list[i].name);
      Transitive(e.name, list[k].name, list[i].name);
    }
  }

  // ----------------------------------------------------------------- directory records

  /** The characters before the first NUL, if there is one. */
  function CString(b: seq<Byte>): seq<Byte> {
    if b == [] || b[0] == 0 then [] else [b[0]] + CString(b[1..])
  }

  /** ".", ".." and, in a tree, "lost+found" are left out. */
  predicate Skipped(name: Name, noLost: bool) {
    name == [46] || name == [46, 46] || (noLost && name == [108, 111, 115, 116, 43, 102, 111, 117, 110, 100])
  }

  predicate RecordOk(fs: Fs, b: seq<Byte>, at: nat) {
    && at + 8 <= |b|
    && var len, nameLen, ino := Le16(b, at + 4), b[at + 6] as nat, Le32(b, at);
       8 <= len <= |b| - at && len % 4 == 0 && nameLen <= len - 8 && ino <= fs.inodesCount
  }

  function EntryAt(fs: Fs, b: seq<Byte>, at: nat): Entry
    requires RecordOk(fs, b, at)
  {
    Entry(Le32(b, at), b[at + 7], CString(b[at + 8..at + 8 + b[at + 6] as nat]))
  }

  /** The record at `at` adds its entry, unless it is unused or left out. */
  function Kept(fs: Fs, b: seq<Byte>, at: nat, noLost: bool): seq<Entry>
    requires RecordOk(fs, b, at)
  {
    var e := EntryAt(fs, b, at);
    if e.ino != 0 && !Skipped(e.name, noLost) then [e] else []
  }

  /** The entries of one directory block, from byte `at` on; None if a record is malformed. */
  function Records(fs: Fs, b: seq<Byte>, at: nat, noLost: bool): Option<seq<Entry>>
    requires at <= |b|
    decreases |b| - at
  {
    if at == |b| then Some([])
    else if !RecordOk(fs, b, at) then None
    else Prepend(Kept(fs, b, at, noLost), Records(fs, b, at + Le16(b, at + 4), noLost))
  }

  function Prepend(es: seq<Entry>, r: Option<seq<Entry>>): Option<seq<Entry>> {
    if r.None? then None else Some(es + r.value)
  }

  /** The bytes of a directory in one of its blocks; nothing for a hole. */
  function DirBlock(fs: Fs, inode: Inode, logical: nat): Option<seq<Byte>>
    requires Geometry(fs) && |inode.blocks| == 15
  {
    var amount := Amount(Size(inode), fs.blockSize, logical);
    if DataBlock(fs, inode, logical) == Some(0) then Some([]) else BlockBytes(fs, inode, logical, amount)
  }

  /** The entries in the first n blocks, in the order of the records. */
  function DirEntries(fs: Fs, inode: Inode, n: nat, noLost: bool): Option<seq<Entry>>
    requires Geometry(fs) && |inode.blocks| == 15
  {
    if n == 0 then Some([])
    else
      var before, block := DirEntries(fs, inode, n - 1, noLost), DirBlock(fs, inode, n - 1);
      if before.None? || block.None? then None else Prepend(before.value, Records(fs, block.value, 0, noLost))
  }

  function Entries(fs: Fs, ino: nat, noLost: bool): Option<seq<Entry>>
    requires Geometry(fs)
  {
    var inode := ReadInode(fs, ino);
    if inode.None? || !IsDir(inode.value) then None
    else DirEntries(fs, inode.value, Blocks(fs, inode.value), noLost)
  }

  /** The loop over the records of a block. */
  method ReadRecords(fs: Fs, b: seq<Byte>, noLost: bool, list: seq<Entry>) returns (r: Option<seq<Entry>>)
    requires Sorted(list)
    ensures r.Some? <==> Records(fs, b, 0, noLost).Some?
    ensures r.Some? ==> Sorted(r.value) && multiset(r.value) == multiset(list) + multiset(Records(fs, b, 0, noLost).value)
  {
    hide RecordOk, Sorted, Records, EntryAt, Skipped;
    var at: nat, out := 0, list;
    ghost var done: seq<Entry> := [];
    PrependNone(Records(fs, b, 0, noLost));
    while at < |b|
      invariant at <= |b| && Sorted(out) && multiset(out) == multiset(list) + multiset(done)
      invariant Records(fs, b, 0, noLost) == Prepend(done, Records(fs, b, at, noLost))
    {
      RecordsStep(fs, b, at, noLost, done);
      if !RecordOk(fs, b, at) { return None; }
      var e := EntryAt(fs, b, at);
      if e.ino != 0 && !Skipped(e.name, noLost) {
        out := Insert(out, e);
      }
      done := done + Kept(fs, b, at, noLost);
      at := at + RecordLength(fs, b, at);
    }
    RecordsEnd(fs, b, noLost, done);
    return Some(out);
  }

  lemma RecordsStep(fs: Fs, b: seq<Byte>, at: nat, noLost: bool, done: seq<Entry>)
    requires at < |b|
    ensures !RecordOk(fs, b, at) ==> Records(fs, b, at, noLost).None?
    ensures RecordOk(fs, b, at) ==>
              var next := at + RecordLength(fs, b, at);
              Prepend(done, Records(fs, b, at, noLost)) == Prepend(done + Kept(fs, b, at, noLost), Records(fs, b, next, noLost))
  {
    hide EntryAt, Kept, Prepend;
    if RecordOk(fs, b, at) {
      PrependTwice(done, Kept(fs, b, at, noLost), Records(fs, b, at + RecordLength(fs, b, at), noLost));
    }
  }

  lemma RecordsEnd(fs: Fs, b: seq<Byte>, noLost: bool, done: seq<Entry>)
    ensures Prepend(done, Records(fs, b, |b|, noLost)) == Some(done)
  {
    assert done + [] == done;
  }

  lemma PrependNone(r: Option<seq<Entry>>)
    ensures Prepend([], r) == r
  {
    if r.Some? { assert [] + r.value == r.value; }
  }

  lemma PrependTwice(a: seq<Entry>, b: seq<Entry>, r: Option<seq<Entry>>)
    ensures Prepend(a, Prepend(b, r)) == Prepend(a + b, r)
  {
    if r.Some? {
      assert a + (b + r.value) == (a + b) + r.value;
    }
  }

  function RecordLength(fs: Fs, b: seq<Byte>, at: nat): (len: nat)
    requires RecordOk(fs, b, at)
    ensures 8 <= len <= |b| - at && len == Le16(b, at + 4)
  {
    Le16(b, at + 4)
  }

  /** ext2_read_directory: the live entries, each once, in name order. */
  method ReadDirectory(fs: Fs, ino: nat, noLost: bool) returns (r: Option<seq<Entry>>)
    requires Geometry(fs)
    ensures r.Some? <==> Entries(fs, ino, noLost).Some?
    ensures r.Some? ==> Sorted(r.value) && multiset(r.value) == multiset(Entries(fs, ino, noLost).value)
  {
    hide Geometry, Records, DirBlock, Blocks, ReadInode, IsDir, NotAfter;
    var found := ReadInode(fs, ino);
    if found.None? || !IsDir(found.value) { return None; }
    var inode, list: seq<Entry> := found.value, [];
    var blocks := Blocks(fs, inode);
    ghost var whole := DirEntries(fs, inode, blocks, noLost);
    var logical := 0;
    while logical < blocks
      invariant 0 <= logical <= blocks && DirEntries(fs, inode, logical, noLost).Some?
      invariant Sorted(list) && multiset(list) == multiset(DirEntries(fs, inode, logical, noLost).value)
    {
      var next := logical + 1;
      var block := DirBlock(fs, inode, logical);
      if block.None? {
        BadPrefix(fs, inode, next, blocks, noLost);
        return None;
      }
      var more := ReadRecords(fs, block.value, noLost, list);
      if more.None? {
        BadPrefix(fs, inode, next, blocks, noLost);
        return None;
      }
      list := more.value;
      logical := next;
    }
    return Some(list);
  }

  lemma {:induction false} BadPrefix(fs: Fs, inode: Inode, m: nat, n: nat, noLost: bool)
    requires Geometry(fs) && |inode.blocks| == 15 && m <= n && DirEntries(fs, inode, m, noLost).None?
    ensures DirEntries(fs, inode, n, noLost).None?
  {
    hide Geometry, Records, DirBlock;
    if m < n { BadPrefix(fs, inode, m, n - 1, noLost); }
  }
}
