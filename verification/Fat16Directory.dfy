/** The root directory: 32-byte entries, lookup by 8.3 name, and insertion into a free slot. */
module Fat16Directory {
  import opened Bytes
  import opened Fat16Layout

  const FREE: byte := 0x00
  const DELETED: byte := 0xE5
  const LONG_NAME: byte := 0x0F
  const ARCHIVE: byte := 0x20

  datatype Name = Name(base: seq<byte>, ext: seq<byte>)
  {
    predicate Shaped() { |base| == 8 && |ext| == 3 }

    /** A name an entry can hold: no NUL in it, and not mistaken for a deleted entry. */
    predicate Storable() { Shaped() && 0 !in base && 0 !in ext && base[0] != DELETED }
  }

  /** strncmp(a, b, n) == 0 over arrays of n bytes: a NUL in both ends the comparison early. */
  predicate SameString(a: seq<byte>, b: seq<byte>)
    requires |a| == |b|
  {
    if a == [] then true
    else if a[0] == 0 || a[0] != b[0] then a[0] == b[0]
    else SameString(a[1..], b[1..])
  }

  lemma {:induction false} SameStringIsEquality(a: seq<byte>, b: seq<byte>)
    requires |a| == |b| && (0 !in a || 0 !in b)
    ensures SameString(a, b) <==> a == b
  {
    if a != [] {
      assert a[0] in a && forall x :: x in a[1..] ==> x in a;
      assert b[0] in b && forall x :: x in b[1..] ==> x in b;
      SameStringIsEquality(a[1..], b[1..]);
      assert a == [a[0]] + a[1..] && b == [b[0]] + b[1..];
    }
  }

  // ----- Entries -----

  type Entry = e: seq<byte> | |e| == 32 witness Zeros(32)

  predicate IsFree(e: Entry) { e[0] == FREE || e[0] == DELETED }

  predicate Live(e: Entry) { !IsFree(e) && e[11] != LONG_NAME }

  function FirstCluster(e: Entry): nat { Get16(e, 26) }

  function FileSize(e: Entry): nat { Get32(e, 28) }

  predicate Matches(e: Entry, name: Name)
    requires name.Shaped()
  {
    SameString(e[..8], name.base) && SameString(e[8..11], name.ext)
  }

  predicate Found(e: Entry, name: Name)
    requires name.Shaped()
  {
    Live(e) && Matches(e, name)
  }

  /** The entry fat16_write_file fills in: name, archive attribute, first cluster, size, rest zero. */
  function NewEntry(name: Name, cluster: nat, size: nat): (e: Entry)
    requires name.Shaped() && cluster < 0x1_0000 && size < 0x1_0000_0000
    ensures e[..8] == name.base && e[8..11] == name.ext && e[11] == ARCHIVE
    ensures FirstCluster(e) == cluster && FileSize(e) == size
  {
    Put32(Put16(name.base + name.ext + [ARCHIVE] + Zeros(20), 26, cluster), 28, size)
  }

  /** The entry byte by byte: name, attribute 0x20, fourteen zeros, first cluster and size. */
  lemma NewEntryBytes(name: Name, cluster: nat, size: nat)
    requires name.Shaped() && cluster < 0x1_0000 && size < 0x1_0000_0000
    ensures NewEntry(name, cluster, size) ==
            name.base + name.ext + [0x20] + Zeros(14)
            + [(cluster % 0x100) as byte, (cluster / 0x100) as byte]
            + [(size % 0x100) as byte, (size / 0x100 % 0x100) as byte,
               (size / 0x1_0000 % 0x100) as byte, (size / 0x100_0000) as byte]
  {
    hide Put32;
    var head := name.base + name.ext + [ARCHIVE] + Zeros(20);
    Put32Bytes(Put16(head, 26, cluster), 28, size);
    assert head == name.base + name.ext + [0x20] + Zeros(14) + Zeros(6);
  }

  /** The entry is that of a file with the name: not unused, not deleted, no part of a long name. */
  predicate CarriesName(e: Entry, name: Name) {
    && e[0] != 0x00 && e[0] != 0xE5 && e[11] != 0x0F
    && e[0..8] == name.base && e[8..11] == name.ext
  }

  /** The comparisons of the lookup find just these, for names without NUL. */
  lemma FoundExactlyWhen(e: Entry, name: Name)
    requires name.Shaped() && 0 !in name.base && 0 !in name.ext
    ensures Found(e, name) <==> CarriesName(e, name)
  {
    SameStringIsEquality(e[..8], name.base);
    SameStringIsEquality(e[8..11], name.ext);
  }

  lemma NewEntryIsFoundByItsName(name: Name, cluster: nat, size: nat, other: Name)
    requires name.Storable() && other.Shaped() && cluster < 0x1_0000 && size < 0x1_0000_0000
    ensures Live(NewEntry(name, cluster, size))
    ensures Found(NewEntry(name, cluster, size), other) <==> other == name
  {
    var e := NewEntry(name, cluster, size);
    assert e[0] == e[..8][0] == name.base[0] && name.base[0] in name.base;
    SameStringIsEquality(name.base, other.base);
    SameStringIsEquality(name.ext, other.ext);
  }

  // ----- The directory as a sequence of entries -----

  type Directory = seq<Entry>

  function EntryAt(g: Geometry, d: Disk, i: nat): Entry
    requires DiskOk(d)
  {
    ReadSector(d, g.rootStart + i / 16)[32 * (i % 16)..32 * (i % 16) + 32]
  }

  function Dir(g: Geometry, d: Disk): (r: Directory)
    requires DiskOk(d)
    ensures |r| == g.Slots()
    ensures forall i :: 0 <= i < |r| ==> r[i] == EntryAt(g, d, i)
  {
    seq(g.Slots(), i requires 0 <= i => EntryAt(g, d, i))
  }

  function PatchSector(s: seq<byte>, at: nat, e: Entry): (r: seq<byte>)
    requires at + 32 <= |s|
    ensures |r| == |s|
  {
    s[..at] + e + s[at + 32..]
  }

  function PutEntry(g: Geometry, d: Disk, i: nat, e: Entry): (r: Disk)
    requires DiskOk(d)
    ensures DiskOk(r) && |r| == |d|
  {
    var lba := g.rootStart + i / 16;
    WriteSector(d, lba, PatchSector(ReadSector(d, lba), 32 * (i % 16), e))
  }

  /** Storing an entry changes that slot alone, and no sector outside the root directory. */
  lemma PutEntryChangesOneSlot(g: Geometry, d: Disk, i: nat, e: Entry)
    requires DiskOk(d) && TablesLaid(g, |d|) && i < g.Slots()
    ensures Dir(g, PutEntry(g, d, i, e)) == Dir(g, d)[i := e]
    ensures forall k :: 0 <= k < |d| && !(g.rootStart <= k < g.dataStart) ==> PutEntry(g, d, i, e)[k] == d[k]
  {
    var d' := PutEntry(g, d, i, e);
    forall k | 0 <= k < g.Slots()
      ensures EntryAt(g, d', k) == if k == i then e else EntryAt(g, d, k)
    {
      PutThenGetEntry(g, d, i, e, k);
    }
    assert i / 16 < g.rootSectors;
  }

  lemma PutThenGetEntry(g: Geometry, d: Disk, i: nat, e: Entry, k: nat)
    requires DiskOk(d) && TablesLaid(g, |d|) && i < g.Slots() && k < g.Slots()
    ensures EntryAt(g, PutEntry(g, d, i, e), k) == if k == i then e else EntryAt(g, d, k)
  {
    assert i / 16 < g.rootSectors && k / 16 < g.rootSectors;
    if k / 16 == i / 16 {
      PatchThenSlice(ReadSector(d, g.rootStart + i / 16), i % 16, e, k % 16);
      assert k % 16 == i % 16 ==> k == i;
    }
  }

  lemma PatchThenSlice(s: seq<byte>, i: nat, e: Entry, k: nat)
    requires |s| == 512 && i < 16 && k < 16
    ensures PatchSector(s, 32 * i, e)[32 * k..32 * k + 32] == if k == i then e else s[32 * k..32 * k + 32]
  {
    if k < i {
      assert 32 * k + 32 <= 32 * i;
    } else if i < k {
      assert 32 * i + 32 <= 32 * k;
    }
  }

  lemma DirUnchanged(g: Geometry, d: Disk, d': Disk)
    requires DiskOk(d) && DiskOk(d') && TablesLaid(g, |d|) && |d'| == |d|
    requires forall i :: g.rootStart <= i < g.dataStart ==> d'[i] == d[i]
    ensures Dir(g, d') == Dir(g, d)
  {
    forall i | 0 <= i < g.Slots()
      ensures EntryAt(g, d', i) == EntryAt(g, d, i)
    {
      assert i / 16 < g.rootSectors;
    }
  }

  // ----- Search -----

  /** The lookup of fat16_read_file: |dir| when it gives up, at the latest at the first 0x00 entry. */
  function Lookup(dir: Directory, name: Name, from: nat): (slot: nat)
    requires name.Shaped() && from <= |dir|
    ensures from <= slot <= |dir|
    decreases |dir| - from
  {
    if from == |dir| || dir[from][0] == FREE then |dir|
    else if Found(dir[from], name) then from
    else Lookup(dir, name, from + 1)
  }

  /** The insertion point of fat16_write_file: the first unused entry, |dir| when there is none. */
  function FreeSlot(dir: Directory, from: nat): (slot: nat)
    requires from <= |dir|
    ensures from <= slot <= |dir|
    ensures slot < |dir| ==> IsFree(dir[slot])
    ensures forall k :: from <= k < slot ==> !IsFree(dir[k])
    decreases |dir| - from
  {
    if from == |dir| || IsFree(dir[from]) then from else FreeSlot(dir, from + 1)
  }

  /** Every entry after the first 0x00 entry is 0x00 too. */
  predicate Terminated(dir: Directory) {
    forall i, j :: 0 <= i < j < |dir| && dir[i][0] == FREE ==> dir[j][0] == FREE
  }

  /** On a terminated directory giving up early loses nothing: lookup finds the first match. */
  lemma {:induction false} LookupFindsFirst(dir: Directory, name: Name, from: nat)
    requires Terminated(dir) && name.Shaped() && from <= |dir|
    ensures var slot := Lookup(dir, name, from);
            && (slot < |dir| ==> Found(dir[slot], name))
            && (forall k :: from <= k < slot ==> !Found(dir[k], name))
    decreases |dir| - from
  {
    if from < |dir| && dir[from][0] != FREE && !Found(dir[from], name) {
      LookupFindsFirst(dir, name, from + 1);
    }
  }

  /** Filling the first unused slot keeps the directory terminated. */
  lemma InsertKeepsTerminated(dir: Directory, e: Entry)
    requires Terminated(dir) && !IsFree(e)
    requires FreeSlot(dir, 0) < |dir|
    ensures Terminated(dir[FreeSlot(dir, 0) := e])
  {
  }

  /** Lookups of other names do not see an insertion. The inserted name itself resolves to the new
      slot exactly when no earlier entry already carries it; otherwise it resolves as before. */
  lemma LookupAfterInsert(dir: Directory, e: Entry, name: Name)
    requires Terminated(dir) && !IsFree(e) && name.Shaped()
    requires FreeSlot(dir, 0) < |dir|
    ensures var slot := FreeSlot(dir, 0);
            Lookup(dir[slot := e], name, 0) ==
            if Found(e, name) && slot < Lookup(dir, name, 0) then slot else Lookup(dir, name, 0)
  {
    var slot := FreeSlot(dir, 0);
    var dir' := dir[slot := e];
    InsertKeepsTerminated(dir, e);
    LookupFindsFirst(dir, name, 0);
    LookupFindsFirst(dir', name, 0);
    var was, now := Lookup(dir, name, 0), Lookup(dir', name, 0);
    assert forall k :: 0 <= k < |dir| && k != slot ==> dir'[k] == dir[k];
    assert !Found(dir[slot], name) && dir'[slot] == e;
    if now < was {
      assert Found(dir'[now], name) && !Found(dir[now], name);
    }
    assert slot < now ==> !Found(dir'[slot], name);
  }
}
