/** Directory entries and the root directory's contents (easy-fs/src/layout.rs, easy-fs/src/vfs.rs). */
module Directory {
  import opened Blocks
  import opened Options
  import opened Layouts
  import opened FsState

  type Name = seq<byte>

  /** The names `DirEntry` can hold: at most 27 bytes, none of them NUL. */
  ghost predicate GoodName(name: Name) {
    |name| <= 27 && 0 !in name
  }

  function WordBytes(v: nat): (s: seq<byte>)
    requires v < WORD_LIMIT
    ensures |s| == 4
  {
    [WordByte(v, 0), WordByte(v, 1), WordByte(v, 2), WordByte(v, 3)]
  }

  /** `DirEntry::new(name, inode).as_bytes()`: 28 bytes of name, then the inode number. */
  function EncodeEntry(name: Name, inode: nat): (e: seq<byte>)
    requires |name| <= 28 && inode < WORD_LIMIT
    ensures |e| == 32
  {
    name + Zeros(28 - |name|) + WordBytes(inode)
  }

  /** The first NUL of the name field; looking past its 28 bytes panics. */
  function NameLength(e: seq<byte>, i: nat): (r: Option<nat>)
    requires |e| == 32 && i <= 28
    ensures r.Some? ==> i <= r.value < 28 && e[r.value] == 0 && forall j | i <= j < r.value :: e[j] != 0
    ensures r.None? ==> forall j | i <= j < 28 :: e[j] != 0
    decreases 28 - i
  {
    if i == 28 then None else if e[i] == 0 then Some(i) else NameLength(e, i + 1)
  }

  /** `DirEntry::name`. */
  function EntryName(e: seq<byte>): Option<Name>
    requires |e| == 32
  {
    var n := NameLength(e, 0);
    if n.Some? then Some(e[..n.value]) else None
  }

  /** `DirEntry::inode_number`. */
  function EntryInode(e: seq<byte>): nat
    requires |e| == 32
  {
    e[28] as nat + 0x100 * (e[29] as nat) + 0x1_0000 * (e[30] as nat) + 0x100_0000 * (e[31] as nat)
  }

  /** An entry gives its name back exactly when the name has at most 27 bytes and no NUL. */
  lemma EntryRoundTrip(name: Name, inode: nat)
    requires |name| <= 28 && inode < WORD_LIMIT
    ensures EntryInode(EncodeEntry(name, inode)) == inode
    ensures EntryName(EncodeEntry(name, inode)) == Some(name) <==> GoodName(name)
  {
    var e := EncodeEntry(name, inode);
    WordOfBytes(inode);
    assert e[28..] == WordBytes(inode);
    assert e[..|name|] == name;
    if GoodName(name) {
      var n := NameLength(e, 0);
      assert e[|name|] == 0;
      assert n.Some?;
      assert n.value == |name|;
    }
  }

  /** The directory's bytes: the file created `j`-th has inode `j + 1`. */
  ghost function DirBytes(names: seq<Name>): (s: seq<byte>)
    requires |names| < WORD_LIMIT && forall j | 0 <= j < |names| :: |names[j]| <= 27
    ensures |s| == 32 * |names|
  {
    if names == [] then [] else
    var k := |names| - 1;
    DirBytes(names[..k]) + EncodeEntry(names[k], k + 1)
  }

  lemma {:induction false} EntryAt(names: seq<Name>, j: nat)
    requires |names| < WORD_LIMIT && forall i | 0 <= i < |names| :: |names[i]| <= 27
    requires j < |names|
    ensures DirBytes(names)[32 * j..32 * j + 32] == EncodeEntry(names[j], j + 1)
  {
    var k := |names| - 1;
    if j < k {
      EntryAt(names[..k], j);
      assert DirBytes(names)[32 * j..32 * j + 32] == DirBytes(names[..k])[32 * j..32 * j + 32];
    }
  }

  lemma DirBytesAppend(names: seq<Name>, name: Name)
    requires |names| + 1 < WORD_LIMIT && |name| <= 27 && forall i | 0 <= i < |names| :: |names[i]| <= 27
    ensures DirBytes(names + [name]) == DirBytes(names) + EncodeEntry(name, |names| + 1)
  {
    assert (names + [name])[..|names|] == names;
  }

  ghost predicate NamesOk(names: seq<Name>) {
    && |names| < WORD_LIMIT
    && (forall j | 0 <= j < |names| :: GoodName(names[j]))
    && (forall i, j | 0 <= i < j < |names| :: names[i] != names[j])
  }

  /** The root directory lists the files in the order of their creation; it is the only directory. */
  ghost predicate DirOk(view: seq<Block>, g: Geometry, owned: seq<seq<nat>>, names: seq<Name>) {
    && NamesOk(names)
    && |owned| == |names| + 1
    && Kind(view, g.Pos(0)) == 1 && (forall j | 1 <= j < |owned| :: Kind(view, g.Pos(j)) == 0)
    && (forall j | 0 <= j < |names| :: |names[j]| <= 27)
    && Files(view, g, owned)[0] == DirBytes(names)
  }
}
