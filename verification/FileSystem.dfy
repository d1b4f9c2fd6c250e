/** The public operations of the file system, against a plain map from names to byte strings. */
module FileSystems {
  import opened Blocks
  import opened BlockCaches
  import opened Options
  import opened Layouts
  import opened Growth
  import opened FileData
  import opened FsState
  import opened Inodes
  import opened Directory
  import opened Vfs
  import DiskFormat
  import Reading

  // ---------------------------------------------------------------- specification

  /** The names in the order of their creation, and the contents of each file. */
  datatype FsAbs = FsAbs(names: seq<Name>, files: seq<seq<byte>>)

  datatype Op = Create(name: Name) | Write(file: nat, offset: nat, data: seq<byte>) | Clear(file: nat)

  ghost predicate AbsOk(a: FsAbs) {
    NamesOk(a.names) && |a.files| == |a.names| && forall j | 0 <= j < |a.names| :: |a.names[j]| <= 27
  }

  /** Every byte string on the disk, the root directory first. */
  ghost function Everything(a: FsAbs): (s: seq<seq<byte>>)
    requires AbsOk(a)
    ensures |s| == |a.files| + 1
  {
    [DirBytes(a.names)] + a.files
  }

  /** The disk has room for this state: enough inodes, enough blocks, no file over the maximum size. */
  ghost predicate Fits(a: FsAbs, g: Geometry)
    requires AbsOk(a)
  {
    && |a.names| < g.inodeBitmapBlocks * 4096
    && BlocksInUse(Everything(a)) <= g.dataAreaBlocks
    && forall i | 0 <= i < |a.files| + 1 :: |Everything(a)[i]| <= MAX_BLOCKS * 512
  }

  /** The operation is on a file there is, or creates one whose name can be read back. */
  ghost predicate Named(a: FsAbs, op: Op) {
    match op
    case Create(name) => GoodName(name)
    case Write(file, offset, data) => file < |a.files|
    case Clear(file) => file < |a.files|
  }

  /** The operation is no empty write that goes astray. */
  ghost predicate Sensible(a: FsAbs, op: Op)
    requires Named(a, op)
  {
    op.Write? ==> !Astray(|a.files[op.file]|, op.offset, op.data)
  }

  ghost function Apply(a: FsAbs, op: Op): FsAbs
    requires Named(a, op)
  {
    match op
    case Create(name) => if name in a.names then a else FsAbs(a.names + [name], a.files + [[]])
    case Write(file, offset, data) => a.(files := a.files[file := Overwrite(a.files[file], offset, data)])
    case Clear(file) => a.(files := a.files[file := []])
  }

  /** The result of the operation fits on the disk. */
  ghost predicate Room(a: FsAbs, op: Op, g: Geometry) {
    Named(a, op) && AbsOk(Apply(a, op)) && Fits(Apply(a, op), g)
  }

  ghost predicate Allowed(a: FsAbs, op: Op, g: Geometry) {
    Room(a, op, g) && Sensible(a, op)
  }

  /** Every operation of the run is allowed where it happens. */
  ghost predicate AllowedRun(a: FsAbs, ops: seq<Op>, g: Geometry)
    decreases |ops|
  {
    ops == [] || (Allowed(a, ops[0], g) && AllowedRun(Apply(a, ops[0]), ops[1..], g))
  }

  ghost function RunSpec(a: FsAbs, ops: seq<Op>, g: Geometry): FsAbs
    requires AllowedRun(a, ops, g)
    decreases |ops|
  {
    if ops == [] then a else RunSpec(Apply(a, ops[0]), ops[1..], g)
  }

  /** A name keeps its number for ever: later operations only append names. */
  lemma {:induction false} NamesOnlyGrow(a: FsAbs, ops: seq<Op>, g: Geometry)
    requires AbsOk(a) && AllowedRun(a, ops, g)
    ensures AbsOk(RunSpec(a, ops, g)) && a.names <= RunSpec(a, ops, g).names
    decreases |ops|
  {
    hide NamesOk, Fits, Named, Sensible;
    if ops != [] { NamesOnlyGrow(Apply(a, ops[0]), ops[1..], g); }
  }

  ghost predicate Concerns(op: Op, file: nat) {
    (op.Write? || op.Clear?) && op.file == file
  }

  /** A file no operation concerns reads as before, whatever happens to the others. */
  lemma {:induction false} OtherFilesKept(a: FsAbs, ops: seq<Op>, g: Geometry, file: nat)
    requires AbsOk(a) && AllowedRun(a, ops, g) && file < |a.files|
    requires forall i | 0 <= i < |ops| :: !Concerns(ops[i], file)
    ensures file < |RunSpec(a, ops, g).files| && RunSpec(a, ops, g).files[file] == a.files[file]
    decreases |ops|
  {
    hide NamesOk, Fits, Overwrite;
    if ops != [] {
      assert !Concerns(ops[0], file);
      OtherFilesKept(Apply(a, ops[0]), ops[1..], g, file);
    }
  }

  // ---------------------------------------------------------------- implementation

  class FileSystem {
    const dev: BlockCacheManager
    const g: Geometry
    ghost var owned: seq<seq<nat>>
    ghost var names: seq<Name>

    /** Between operations nothing is locked, and the device itself holds a well-formed image. */
    ghost predicate Valid()
      reads this, dev
    {
      dev.Valid() && dev.held == {} && dev.Synced() && FsOk(dev.view, g, owned) && DirOk(dev.view, g, owned, names)
    }

    ghost function Abs(): (a: FsAbs)
      reads this, dev
      requires Valid()
      ensures AbsOk(a) && Everything(a) == Files(dev.view, g, owned)
    {
      FsAbs(names, Files(dev.view, g, owned)[1..])
    }

    constructor (dev: BlockCacheManager, g: Geometry, ghost owned: seq<seq<nat>>, ghost names: seq<Name>)
      requires dev.Valid() && dev.held == {} && dev.Synced() && FsOk(dev.view, g, owned)
               && DirOk(dev.view, g, owned, names)
      ensures Valid() && this.dev == dev && this.g == g && this.owned == owned && this.names == names
    {
      this.dev, this.g, this.owned, this.names := dev, g, owned, names;
    }

    /** The bytes of the device itself, read by the format, are the files under their names. */
    lemma OnDevice()
      requires Valid()
      ensures DiskFormat.Pictured(dev.disk, Abs().names, Abs().files)
    {
      hide FsOk, DirOk, Files, DiskFormat.Pictured;
      Reading.ImageRead(dev.view, g, owned, names);
    }

    /** `find`: the inode of a name; files keep the number of their creation. */
    method Find(name: Name) returns (r: Option<nat>)
      requires Valid()
      modifies dev
      ensures Valid() && dev.view == old(dev.view) && Abs() == old(Abs())
      ensures r.Some? ==> 0 < r.value <= |names| && names[r.value - 1] == name
      ensures r.None? <==> name !in names
    {
      hide Coherent, FsOk, Files, DirBytes, Entry, EntryName, EntryInode, NameLength, NamesOk, GoodName, Content;
      FsBasics(dev.view, g, owned, 0);
      g.PosInArea(0);
      dev.Acquire(g.Pos(0).block);
      var size := PeekWord(dev, g.Pos(0).block, g.Pos(0).base);
      var i := 0;
      r := None;
      while i < size / 32
        invariant i <= size / 32 == |names| && dev.Valid() && dev.held == {g.Pos(0).block} && dev.view == old(dev.view)
                  && dev.Synced()
        invariant forall j | 0 <= j < i :: names[j] != name
      {
        var e := ReadInode(dev, g, 0, 32 * i, 32, owned);
        EntryRead(names, i);
        if EntryName(e) == Some(name) {
          r := Some(EntryInode(e));
          break;
        }
        i := i + 1;
      }
      dev.Release(g.Pos(0).block);
    }

    /** `read_at`. */
    method ReadAt(id: nat, offset: nat, len: nat) returns (data: seq<byte>)
      requires Valid() && 0 < id <= |names|
      modifies dev
      ensures Valid() && dev.view == old(dev.view) && Abs() == old(Abs())
      ensures data == Window(Abs().files[id - 1], offset, len)
    {
      hide Coherent, FsOk, Files, DirBytes, Entry, NamesOk, Content;
      BlockExists(dev.view, g, owned, id);
      dev.Acquire(g.Pos(id).block);
      data := ReadInode(dev, g, id, offset, len, owned);
      dev.Release(g.Pos(id).block);
    }

    /** `write_at`: exactly that file becomes what overwriting a byte string gives. It fails only on an empty write that
        goes astray, and there it does fail, on any device with fewer blocks than the magic. */
    method WriteAt(id: nat, offset: nat, buf: seq<byte>) returns (ok: bool, written: nat)
      requires Valid() && 0 < id <= |names| && Room(Abs(), Write(id - 1, offset, buf), g)
      modifies this, dev
      ensures ok ==> Valid() && Abs() == Apply(old(Abs()), Write(id - 1, offset, buf)) && written == |buf|
      ensures Sensible(old(Abs()), Write(id - 1, offset, buf)) ==> ok
      ensures |old(dev.view)| <= EFS_MAGIC ==> (ok <==> Sensible(old(Abs()), Write(id - 1, offset, buf)))
    {
      hide Coherent, FsOk, Files, DirBytes, Entry, NamesOk, Content, Overwrite, Splice, Zeros, BlocksInUse, DirOk,
           SameKinds;
      ghost var v0, o0, f := dev.view, owned, Files(dev.view, g, owned);
      BlockExists(v0, g, owned, id);
      WriteAffordable(v0, g, owned, names, id, offset, buf);
      dev.Acquire(g.Pos(id).block);
      owned := GrowInode(dev, g, id, offset + |buf|, owned);
      ghost var v1 := dev.view;
      FsBasics(v1, g, owned, id);
      ok, written := WriteInode(dev, g, id, offset, buf, owned);
      if !ok { return; }
      dev.Release(g.Pos(id).block);
      dev.SyncAll();
      KindsCompose(v0, v1, dev.view, g, |o0|);
      GrowThenSplice(f, id, offset, buf);
      DirUntouched(v0, dev.view, g, o0, owned, names, id, Overwrite(f[id], offset, buf));
    }

    /** `clear`: exactly that file becomes empty. */
    method Clear(id: nat)
      requires Valid() && 0 < id <= |names|
      modifies this, dev
      ensures Valid() && Abs() == Apply(old(Abs()), Op.Clear(id - 1))
    {
      hide Coherent, FsOk, Files, DirBytes, Entry, NamesOk, Content, SameKinds;
      ghost var v0, o0 := dev.view, owned;
      BlockExists(v0, g, owned, id);
      dev.Acquire(g.Pos(id).block);
      ClearInode(dev, g, id, owned);
      owned := owned[id := []];
      dev.Release(g.Pos(id).block);
      dev.SyncAll();
      DirUntouched(v0, dev.view, g, o0, owned, names, id, []);
    }

    /** `create`: a new name is appended with an empty file under the next inode number; an existing name
        changes nothing. */
    method Create(name: Name) returns (r: Option<nat>)
      requires Valid() && Room(Abs(), Op.Create(name), g)
      modifies this, dev
      ensures Valid() && Abs() == Apply(old(Abs()), Op.Create(name))
      ensures r.None? <==> name in old(names)
      ensures r.Some? ==> r.value == |names| && names == old(names) + [name] && Kind(dev.view, g.Pos(r.value)) == 0
    {
      hide Coherent, FsOk, Files, DirBytes, Entry, NamesOk, GoodName, Content, BlocksInUse, SameKinds, Everything, Fits;
      ghost var a := Abs();
      var found := Find(name);
      if found.Some? {
        return None;
      }
      ghost var v0, o0 := dev.view, owned;
      RoomForInode(a, name, g);
      var id := NewInode(dev, g, 0, owned);
      ghost var v1 := dev.view;
      SameKindsOfNew(v0, v1, g, |o0|);
      CreateAffordable(v1, g, o0 + [[]], a, name);
      owned := AddEntry(dev, g, name, id, o0 + [[]], names);
      dev.SyncAll();
      DirGrown(v0, v1, dev.view, g, o0, owned, names, name);
      r, names := Some(id), names + [name];
    }

    /** `ls`: the names in the order of creation. */
    method Ls() returns (r: seq<Name>)
      requires Valid()
      modifies dev
      ensures Valid() && dev.view == old(dev.view) && Abs() == old(Abs()) && r == names
    {
      hide Coherent, FsOk, Files, DirBytes, Entry, EntryName, EntryInode, NamesOk, Content;
      FsBasics(dev.view, g, owned, 0);
      BlockExists(dev.view, g, owned, 0);
      dev.Acquire(g.Pos(0).block);
      var size := PeekWord(dev, g.Pos(0).block, g.Pos(0).base);
      var i := 0;
      r := [];
      while i < size / 32
        invariant i <= size / 32 == |names| && dev.Valid() && dev.held == {g.Pos(0).block} && dev.view == old(dev.view)
                  && dev.Synced()
        invariant r == names[..i]
      {
        var e := ReadInode(dev, g, 0, i * 32, 32, owned);
        EntryRead(names, i);
        r := r + [EntryName(e).value];
        i := i + 1;
      }
      dev.Release(g.Pos(0).block);
    }

    /** Any run of operations does to the disk what it does to the map. */
    method Run(ops: seq<Op>)
      requires Valid() && AllowedRun(Abs(), ops, g)
      modifies this, dev
      ensures Valid() && Abs() == RunSpec(old(Abs()), ops, g)
      ensures DiskFormat.Pictured(dev.disk, Abs().names, Abs().files)
    {
      hide Coherent, FsOk, Files, DirOk, Allowed, Apply, Room, Sensible, DiskFormat.Pictured;
      var i := 0;
      while i < |ops|
        invariant i <= |ops| && Valid() && AllowedRun(Abs(), ops[i..], g)
        invariant RunSpec(Abs(), ops[i..], g) == RunSpec(old(Abs()), ops, g)
      {
        assert ops[i..][1..] == ops[i + 1..];
        FileExists(Abs(), ops[i], g);
        match ops[i] {
          case Create(name) => var _ := Create(name);
          case Write(file, offset, data) => var _, _ := WriteAt(file + 1, offset, data);
          case Clear(file) => Clear(file + 1);
        }
        i := i + 1;
      }
      OnDevice();
    }
  }

  lemma RoomForInode(a: FsAbs, name: Name, g: Geometry)
    requires AbsOk(a) && name !in a.names && Room(a, Create(name), g)
    ensures |a.names| + 1 < g.inodeBitmapBlocks * 4096 && |a.names| + 1 < WORD_LIMIT && |name| <= 27
    ensures NamesOk(a.names + [name])
  {
    hide DirBytes, BlocksInUse;
  }

  lemma SameKindsOfNew(v0: seq<Block>, v1: seq<Block>, g: Geometry, n: nat)
    requires forall j | 0 <= j < n :: Kind(v1, g.Pos(j)) == Kind(v0, g.Pos(j))
    ensures SameKinds(v0, v1, g, n)
  {
  }

  lemma CreateAffordable(view: seq<Block>, g: Geometry, owned: seq<seq<nat>>, a: FsAbs, name: Name)
    requires AbsOk(a) && name !in a.names && Room(a, Create(name), g)
    requires FsOk(view, g, owned) && Files(view, g, owned) == Everything(a) + [[]]
    ensures Affordable(g, owned, 0, 32 * (|a.names| + 1))
  {
    hide FsOk, Files, DirBytes, BlocksInUse;
    var a' := Apply(a, Create(name));
    var c := DirBytes(a'.names);
    assert Everything(a') == (Everything(a) + [[]])[0 := c];
    assert Everything(a')[0] == c;
    SpaceFromFiles(view, g, owned, 0, c);
  }

  /** The second half of `create`: the root directory grows by one entry. */
  method AddEntry(dev: BlockCacheManager, g: Geometry, name: Name, id: nat, ghost owned: seq<seq<nat>>,
                  ghost names: seq<Name>)
    returns (ghost owned': seq<seq<nat>>)
    requires dev.Valid() && dev.held == {} && FsOk(dev.view, g, owned) && |owned| > 0
    requires |names| + 1 == id < WORD_LIMIT && |name| <= 27 && (forall j | 0 <= j < |names| :: |names[j]| <= 27)
    requires Files(dev.view, g, owned)[0] == DirBytes(names) && Affordable(g, owned, 0, 32 * (|names| + 1))
    modifies dev
    ensures dev.Valid() && dev.held == {} && FsOk(dev.view, g, owned') && |owned'| == |owned|
    ensures Files(dev.view, g, owned') == Files(old(dev.view), g, owned)[0 := DirBytes(names) + EncodeEntry(name, id)]
    ensures SameKinds(old(dev.view), dev.view, g, |owned|)
  {
    hide Coherent, FsOk, Files, DirBytes, Entry, Content, Splice, Zeros, SameKinds, EncodeEntry, Affordable;
    ghost var v0, f := dev.view, Files(dev.view, g, owned);
    FsBasics(v0, g, owned, 0);
    BlockExists(v0, g, owned, 0);
    dev.Acquire(g.Pos(0).block);
    var size := PeekWord(dev, g.Pos(0).block, g.Pos(0).base);
    var fileCount := size / 32;
    owned' := GrowInode(dev, g, 0, (fileCount + 1) * 32, owned);
    ghost var v1 := dev.view;
    var ok, written := WriteInode(dev, g, 0, fileCount * 32, EncodeEntry(name, id), owned');
    dev.Release(g.Pos(0).block);
    KindsCompose(v0, v1, dev.view, g, |owned|);
    AppendByWrite(f[0], EncodeEntry(name, id));
  }

  lemma AppendByWrite(s: seq<byte>, e: seq<byte>)
    ensures Splice(s + Zeros(|e|), |s|, e) == s + e
  {
    hide Zeros;
  }

  lemma DirGrown(v0: seq<Block>, v1: seq<Block>, v2: seq<Block>, g: Geometry, owned: seq<seq<nat>>,
                 owned': seq<seq<nat>>, names: seq<Name>, name: Name)
    requires DirOk(v0, g, owned, names) && |owned'| == |owned| + 1 && NamesOk(names + [name]) && |name| <= 27
             && |names| + 1 < WORD_LIMIT
    requires SameKinds(v0, v1, g, |owned|) && SameKinds(v1, v2, g, |owned| + 1) && Kind(v1, g.Pos(|owned|)) == 0
    requires Files(v2, g, owned') == (Files(v0, g, owned) + [[]])[0 := DirBytes(names) + EncodeEntry(name, |names| + 1)]
    ensures DirOk(v2, g, owned', names + [name])
    ensures Files(v2, g, owned')[1..] == Files(v0, g, owned)[1..] + [[]]
  {
    hide Files, DirBytes, Kind, NamesOk, EncodeEntry;
    DirBytesAppend(names, name);
    NewKind(v0, v1, v2, g, |owned|);
  }

  lemma NewKind(v0: seq<Block>, v1: seq<Block>, v2: seq<Block>, g: Geometry, n: nat)
    requires SameKinds(v0, v1, g, n) && SameKinds(v1, v2, g, n + 1) && Kind(v1, g.Pos(n)) == 0
    requires forall j | 1 <= j < n :: Kind(v0, g.Pos(j)) == 0
    ensures forall j | 1 <= j <= n :: Kind(v2, g.Pos(j)) == 0
    ensures n > 0 ==> Kind(v2, g.Pos(0)) == Kind(v0, g.Pos(0))
  {
    hide Kind;
  }

  lemma FileExists(a: FsAbs, op: Op, g: Geometry)
    requires AbsOk(a) && Allowed(a, op, g)
    ensures Room(a, op, g) && Sensible(a, op) && (op.Write? ==> op.file < |a.names|)
    ensures op.Clear? ==> op.file < |a.names|
  {
    hide Fits, NamesOk;
  }

  lemma BlockExists(view: seq<Block>, g: Geometry, owned: seq<seq<nat>>, id: nat)
    requires FsOk(view, g, owned) && id < |owned|
    ensures g.Pos(id).block < |view|
  {
    hide InodesOk, InodeBits, DataBits, SuperOk, FreeZero, OwnedOk;
    g.PosInArea(id);
  }

  lemma WriteAffordable(view: seq<Block>, g: Geometry, owned: seq<seq<nat>>, names: seq<Name>, id: nat, offset: nat,
                        buf: seq<byte>)
    requires FsOk(view, g, owned) && DirOk(view, g, owned, names) && 0 < id < |owned|
    requires var a := FsAbs(names, Files(view, g, owned)[1..]);
             Room(a, Write(id - 1, offset, buf), g)
    ensures offset + |buf| <= MAX_BLOCKS * 512 && Affordable(g, owned, id, offset + |buf|)
  {
    hide FsOk, Files, DirBytes, NamesOk, Content, Overwrite, BlocksInUse, Affordable;
    var f := Files(view, g, owned);
    var a := FsAbs(names, f[1..]);
    var c := Overwrite(f[id], offset, buf);
    assert Everything(Apply(a, Write(id - 1, offset, buf))) == f[id := c];
    assert f[id := c][id] == c;
    SpaceFromFiles(view, g, owned, id, c);
    AffordLess(g, owned, id, offset + |buf|, |c|);
  }

  lemma AffordLess(g: Geometry, owned: seq<seq<nat>>, id: nat, a: nat, b: nat)
    requires id < |owned| && a <= b && Affordable(g, owned, id, b)
    ensures Affordable(g, owned, id, a)
  {
    MoreBytesMoreBlocks(a, b);
  }

  lemma KindsCompose(v0: seq<Block>, v1: seq<Block>, v2: seq<Block>, g: Geometry, n: nat)
    requires SameKinds(v0, v1, g, n) && SameKinds(v1, v2, g, n)
    ensures SameKinds(v0, v2, g, n)
  {
    hide Kind;
  }

  lemma GrowThenSplice(f: seq<seq<byte>>, id: nat, offset: nat, buf: seq<byte>)
    requires id < |f|
    ensures var end := offset + |buf|;
            var grown := f[id] + Zeros(if end < |f[id]| then 0 else end - |f[id]|);
            end <= |grown| && Splice(grown, offset, buf) == Overwrite(f[id], offset, buf)
  {
    hide Overwrite, Splice, Zeros;
  }

  /** Changing one file leaves the directory as it was. */
  lemma DirUntouched(v: seq<Block>, v': seq<Block>, g: Geometry, owned: seq<seq<nat>>, owned': seq<seq<nat>>,
                     names: seq<Name>, id: nat, c: seq<byte>)
    requires DirOk(v, g, owned, names) && 0 < id < |owned| == |owned'| && SameKinds(v, v', g, |owned|)
    requires Files(v', g, owned') == Files(v, g, owned)[id := c]
    ensures DirOk(v', g, owned', names)
    ensures Files(v', g, owned')[1..] == Files(v, g, owned)[1..][id - 1 := c]
  {
    hide Files, DirBytes, Kind, NamesOk;
  }

  /** Reading 32 bytes at `32 * i` of the directory yields the `i`-th entry. */
  lemma EntryRead(names: seq<Name>, i: nat)
    requires NamesOk(names) && (forall j | 0 <= j < |names| :: |names[j]| <= 27) && i < |names|
    ensures var e := Window(DirBytes(names), 32 * i, 32);
            |e| == 32 && EntryName(e) == Some(names[i]) && EntryInode(e) == i + 1
  {
    hide DirBytes, EncodeEntry, EntryName, EntryInode;
    EntryAt(names, i);
    EntryRoundTrip(names[i], i + 1);
    assert GoodName(names[i]);
  }
}
