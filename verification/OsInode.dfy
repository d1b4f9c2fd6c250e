/** Open files: an inode with a position, read and written through user buffers (os/src/fs/inode.rs). */
module OsInodes {
  import opened Sequences
  import opened Bits
  import opened Options
  import opened Blocks
  import opened BlockCaches
  import opened Layouts
  import opened FileData
  import opened FsState
  import opened Directory
  import opened Inodes
  import opened Vfs
  import opened FileSystems
  import opened UserBuffers

  type Bytes = map<nat, byte>

  /** `bytes` with `data` stored through the first `|data|` pointers. */
  ghost predicate Scattered(bytes0: Bytes, bytes: Bytes, ps: seq<nat>, data: seq<byte>) {
    && bytes.Keys == bytes0.Keys && |data| <= |ps|
    && (forall i | 0 <= i < |data| :: ps[i] in bytes && bytes[ps[i]] == data[i])
    && (forall p | p in bytes && p !in ps[..|data|] :: bytes[p] == bytes0[p])
  }

  ghost predicate Present(bytes: Bytes, ps: seq<nat>) {
    forall i | 0 <= i < |ps| :: ps[i] in bytes
  }

  /** What the pointers point to. */
  ghost function Gathered(bytes: Bytes, ps: seq<nat>): (r: seq<byte>)
    requires Present(bytes, ps)
    ensures |r| == |ps| && forall i | 0 <= i < |r| :: r[i] == bytes[ps[i]]
  {
    seq(|ps|, i requires 0 <= i < |ps| => bytes[ps[i]])
  }

  /** Physical memory, byte by byte. */
  class UserMemory {
    var bytes: Bytes

    constructor (bytes: Bytes)
      ensures this.bytes == bytes
    {
      this.bytes := bytes;
    }

    /** The bytes of one slice. */
    method Load(s: Slice) returns (data: seq<byte>)
      requires s.from <= s.to && Present(bytes, SlicePointers(s))
      ensures data == Gathered(bytes, SlicePointers(s))
    {
      data := [];
      var i := 0;
      while i < s.to - s.from
        invariant i <= s.to - s.from && |data| == i && forall j | 0 <= j < i :: data[j] == bytes[SlicePointers(s)[j]]
      {
        assert SlicePointers(s)[i] in bytes;
        data := data + [bytes[4096 * s.ppn + s.from + i]];
        i := i + 1;
      }
    }

    /** Filling the front of one slice. */
    method Store(s: Slice, data: seq<byte>)
      requires s.from <= s.to && |data| <= s.to - s.from && Present(bytes, SlicePointers(s))
      modifies this
      ensures Scattered(old(bytes), bytes, SlicePointers(s), data)
    {
      var i := 0;
      while i < |data|
        invariant i <= |data| && Scattered(old(bytes), bytes, SlicePointers(s), data[..i])
      {
        assert SlicePointers(s)[i] in old(bytes);
        assert SlicePointers(s)[..i + 1] == SlicePointers(s)[..i] + [SlicePointers(s)[i]];
        bytes := bytes[4096 * s.ppn + s.from + i := data[i]];
        i := i + 1;
      }
      assert data[..|data|] == data;
    }
  }

  lemma {:induction false} PointersSplit(v: seq<Slice>, k: nat)
    requires Proper(v) && k < |v|
    ensures Pointers(v[..k + 1]) == Pointers(v[..k]) + SlicePointers(v[k]) && Pointers(v[..k + 1]) <= Pointers(v)
    decreases |v|
  {
    assert v[..k + 1][..k] == v[..k];
    if k + 1 == |v| {
      assert v[..k + 1] == v;
    } else {
      var front := v[..|v| - 1];
      PointersSplit(front, k);
      assert front[..k + 1] == v[..k + 1] && front[..k] == v[..k];
    }
  }

  lemma ScatterMore(b0: Bytes, b1: Bytes, b2: Bytes, ps: seq<nat>, qs: seq<nat>, a: seq<byte>, b: seq<byte>)
    requires Scattered(b0, b1, ps, a) && |a| == |ps| && Scattered(b1, b2, qs, b) && NoRepeats(ps + qs)
    ensures Scattered(b0, b2, ps + qs, a + b)
  {
    var all, data := ps + qs, a + b;
    assert all[..|data|] == ps + qs[..|b|];
    forall i | 0 <= i < |data| ensures all[i] in b2 && b2[all[i]] == data[i] {
      if i < |a| {
        assert ps[i] !in qs[..|b|] by {
          forall j | 0 <= j < |b| ensures qs[j] != ps[i] { assert all[|ps| + j] == qs[j] && all[i] == ps[i]; }
        }
      } else {
        assert all[i] == qs[i - |a|];
      }
    }
  }

  lemma ScatterPrefix(b0: Bytes, b: Bytes, ps: seq<nat>, all: seq<nat>, data: seq<byte>)
    requires Scattered(b0, b, ps, data) && ps <= all
    ensures Scattered(b0, b, all, data)
  {
    assert all[..|data|] == ps[..|data|];
  }

  lemma WindowMore(s: seq<byte>, offset: nat, a: nat, b: nat)
    ensures |Window(s, offset, a)| == a ==> Window(s, offset, a + b) == Window(s, offset, a) + Window(s, offset + a, b)
    ensures |Window(s, offset, a)| < a ==> Window(s, offset, a + b) == Window(s, offset, a)
                                           && Window(s, offset + |Window(s, offset, a)|, b) == []
    ensures |Window(s, offset, a)| <= a
  {
  }

  lemma OverwriteMore(s: seq<byte>, offset: nat, a: seq<byte>, b: seq<byte>)
    ensures Overwrite(Overwrite(s, offset, a), offset + |a|, b) == Overwrite(s, offset, a + b)
  {
    hide Overwrite;
  }

  /** A shorter result of the same write fits wherever the longer one does. */
  lemma ShorterFits(a: FsAbs, file: nat, c: seq<byte>, d: seq<byte>, g: Geometry)
    requires AbsOk(a) && file < |a.files| && |c| <= |d| && Fits(a.(files := a.files[file := d]), g)
    ensures Fits(a.(files := a.files[file := c]), g)
  {
    hide DirBytes, NamesOk, BlocksInUse;
    var all := Everything(a);
    var withC, withD := all[file + 1 := c], all[file + 1 := d];
    assert Everything(a.(files := a.files[file := c])) == withC;
    assert Everything(a.(files := a.files[file := d])) == withD;
    BlocksInUseUpdate(all, file + 1, c);
    BlocksInUseUpdate(all, file + 1, d);
    MoreBytesMoreBlocks(|c|, |d|);
    assert withD[file + 1] == d;
    forall i | 0 <= i < |withC|
      ensures |withC[i]| <= MAX_BLOCKS * 512 { assert i != file + 1 ==> withC[i] == withD[i]; }
  }

  /** The state after writing the first part of a buffer. */
  ghost function Written(a: FsAbs, file: nat, offset: nat, data: seq<byte>): (r: FsAbs)
    requires file < |a.files|
    ensures r.names == a.names && |r.files| == |a.files|
  {
    if data == [] then a else a.(files := a.files[file := Overwrite(a.files[file], offset, data)])
  }

  /** Part of a write, after the part before it, is allowed if the whole is. */
  lemma PartAllowed(a: FsAbs, file: nat, offset: nat, before: seq<byte>, part: seq<byte>, whole: seq<byte>, g: Geometry)
    requires AbsOk(a) && part != [] && before + part <= whole && Room(a, Write(file, offset, whole), g)
    ensures Room(Written(a, file, offset, before), Write(file, offset + |before|, part), g)
    ensures Sensible(Written(a, file, offset, before), Write(file, offset + |before|, part))
    ensures Apply(Written(a, file, offset, before), Write(file, offset + |before|, part)) ==
            Written(a, file, offset, before + part)
  {
    hide Overwrite, Fits, NamesOk, DirBytes;
    OverwriteMore(a.files[file], offset, before, part);
    ShorterFits(a, file, Overwrite(a.files[file], offset, before + part), Overwrite(a.files[file], offset, whole), g);
    var a' := Written(a, file, offset, before);
    if before == [] { assert before + part == part; }
    assert a'.files[file := Overwrite(a'.files[file], offset + |before|, part)] ==
           a.files[file := Overwrite(a.files[file], offset, before + part)];
  }

  lemma StartRead(b: Bytes, buf: seq<Slice>, file: seq<byte>, offset: nat)
    requires Proper(buf)
    ensures Window(file, offset, |Pointers(buf[..0])|) == [] && Scattered(b, b, Pointers(buf[..0]), [])
  {
    assert buf[..0] == [];
  }

  /** The pointers of slice `k` follow those of the slices before it. */
  lemma WithinAll(buf: seq<Slice>, k: nat)
    requires Proper(buf) && k < |buf|
    ensures Pointers(buf[..k + 1]) == Pointers(buf[..k]) + SlicePointers(buf[k])
            && Pointers(buf[..k + 1]) <= Pointers(buf)
  {
    PointersSplit(buf, k);
  }

  lemma PresentPart(b: Bytes, buf: seq<Slice>, k: nat)
    requires Proper(buf) && k < |buf| && Present(b, Pointers(buf))
    ensures Present(b, SlicePointers(buf[k]))
  {
    hide Pointers;
    PointersSplit(buf, k);
    var before := Pointers(buf[..k]);
    forall i | 0 <= i < |SlicePointers(buf[k])| ensures SlicePointers(buf[k])[i] in b {
      assert Pointers(buf)[|before| + i] == SlicePointers(buf[k])[i];
    }
  }

  lemma SeparatePart(ps: seq<nat>, all: seq<nat>)
    requires ps <= all && NoRepeats(all)
    ensures NoRepeats(ps)
  {
    forall i, j | 0 <= i < j < |ps| ensures ps[i] != ps[j] { assert all[i] == ps[i] && all[j] == ps[j]; }
  }

  lemma StoredRead(b0: Bytes, b1: Bytes, b2: Bytes, buf: seq<Slice>, k: nat, file: seq<byte>, offset: nat,
                   got: seq<byte>, data: seq<byte>)
    requires Proper(buf) && k < |buf| && NoRepeats(Pointers(buf)) && Present(b0, Pointers(buf))
    requires got == Window(file, offset, |Pointers(buf[..k])|) && Scattered(b0, b1, Pointers(buf[..k]), got)
    requires data == Window(file, offset + |got|, buf[k].to - buf[k].from) && data != []
             && Scattered(b1, b2, SlicePointers(buf[k]), data)
    ensures got + data == Window(file, offset, |Pointers(buf[..k + 1])|)
            && Scattered(b0, b2, Pointers(buf[..k + 1]), got + data)
    ensures Present(b2, Pointers(buf))
  {
    hide Pointers, Window, Scattered, NoRepeats;
    var before, mine := Pointers(buf[..k]), SlicePointers(buf[k]);
    WithinAll(buf, k);
    WindowMore(file, offset, |before|, |mine|);
    SeparatePart(before + mine, Pointers(buf));
    ScatterMore(b0, b1, b2, before, mine, got, data);
    SameKeys(b0, b2, before + mine, got + data);
  }

  lemma SameKeys(b0: Bytes, b: Bytes, ps: seq<nat>, data: seq<byte>)
    requires Scattered(b0, b, ps, data)
    ensures b.Keys == b0.Keys
  {
  }

  lemma EndRead(b0: Bytes, b: Bytes, buf: seq<Slice>, k: nat, file: seq<byte>, offset: nat, got: seq<byte>)
    requires Proper(buf) && k <= |buf| && (k < |buf| ==> Window(file, offset + |got|, buf[k].to - buf[k].from) == [])
    requires got == Window(file, offset, |Pointers(buf[..k])|) && Scattered(b0, b, Pointers(buf[..k]), got)
    ensures got == Window(file, offset, |Pointers(buf)|) && Scattered(b0, b, Pointers(buf), got)
  {
    hide Pointers, Scattered;
    if k == |buf| {
      assert buf[..k] == buf;
    } else {
      WithinAll(buf, k);
      ScatterPrefix(b0, b, Pointers(buf[..k]), Pointers(buf), got);
    }
  }

  lemma ReadOn(file: seq<byte>, offset: nat, v: seq<byte>, len: nat)
    requires len > 0
    ensures Window(file, offset, 0) == []
    ensures v == Window(file, offset, |v|) ==>
              var data := Window(file, offset + |v|, len);
              && v + data == Window(file, offset, |v| + |data|)
              && (data == [] <==> offset + |v| >= |file|)
              && (data == [] ==> v == if offset < |file| then file[offset..] else [])
  {
  }

  class OSInode {
    const readable: bool
    const writable: bool
    const fs: FileSystem
    const id: nat
    var offset: nat

    ghost predicate Valid()
      reads this, fs, fs.dev
    {
      fs.Valid() && 0 < id <= |fs.names|
    }

    ghost function File(): seq<byte>
      reads this, fs, fs.dev
      requires Valid()
    {
      fs.Abs().files[id - 1]
    }

    constructor (readable: bool, writable: bool, fs: FileSystem, id: nat)
      requires fs.Valid() && 0 < id <= |fs.names|
      ensures Valid() && this.fs == fs && this.id == id && offset == 0 && this.readable == readable
              && this.writable == writable
    {
      this.readable, this.writable, this.fs, this.id, offset := readable, writable, fs, id, 0;
    }

    /** `read_all`: everything from the position to the end. */
    method ReadAll() returns (v: seq<byte>)
      requires Valid()
      modifies `offset, fs.dev
      ensures Valid() && fs.Abs() == old(fs.Abs())
      ensures v == if old(offset) < |File()| then File()[old(offset)..] else []
      ensures offset == old(offset) + |v|
    {
      hide Coherent, FsOk, DirOk, Files, NamesOk, DirBytes, Window;
      v := [];
      ghost var file := File();
      ReadOn(file, offset, v, 512);
      var done := false;
      while !done
        invariant Valid() && fs.Abs() == old(fs.Abs()) && File() == file && offset == old(offset) + |v|
        invariant v == Window(file, old(offset), |v|)
        invariant done ==> offset >= |file|
        decreases !done, |file| - offset
      {
        var data := fs.ReadAt(id, offset, 512);
        ReadOn(file, old(offset), v, 512);
        if data == [] {
          done := true;
        } else {
          offset := offset + |data|;
          v := v + data;
        }
      }
      ReadOn(file, old(offset), v, 512);
    }

    /** `read`: what one read into the concatenated slices would do. */
    method Read(mem: UserMemory, buf: seq<Slice>) returns (total: nat)
      requires Valid() && Proper(buf) && NoRepeats(Pointers(buf)) && Present(mem.bytes, Pointers(buf))
      modifies `offset, fs.dev, mem
      ensures Valid() && fs.Abs() == old(fs.Abs())
      ensures Scattered(old(mem.bytes), mem.bytes, Pointers(buf), Window(File(), old(offset), |Pointers(buf)|))
      ensures total == |Window(File(), old(offset), |Pointers(buf)|)| && offset == old(offset) + total
    {
      hide Coherent, FsOk, DirOk, Files, NamesOk, DirBytes, Pointers, Scattered, Window;
      ghost var file, ps, b0 := File(), Pointers(buf), mem.bytes;
      total := 0;
      var k := 0;
      ghost var got: seq<byte> := [];
      StartRead(b0, buf, file, offset);
      while k < |buf|
        invariant k <= |buf| && Valid() && fs.Abs() == old(fs.Abs()) && File() == file
        invariant Present(mem.bytes, ps) && offset == old(offset) + total && total == |got|
        invariant got == Window(file, old(offset), |Pointers(buf[..k])|)
                  && Scattered(b0, mem.bytes, Pointers(buf[..k]), got)
      {
        var data := fs.ReadAt(id, offset, buf[k].to - buf[k].from);
        if data == [] { break; }
        ghost var b1 := mem.bytes;
        WithinAll(buf, k);
        PresentPart(b1, buf, k);
        WindowMore(file, offset, buf[k].to - buf[k].from, 0);
        mem.Store(buf[k], data);
        StoredRead(b0, b1, mem.bytes, buf, k, file, old(offset), got, data);
        got := got + data;
        offset := offset + |data|;
        total := total + |data|;
        k := k + 1;
      }
      EndRead(b0, mem.bytes, buf, k, file, old(offset), got);
    }

    /** `write`: what one write of the concatenated slices would do. */
    method Write(mem: UserMemory, buf: seq<Slice>) returns (total: nat)
      requires Valid() && Proper(buf) && Present(mem.bytes, Pointers(buf))
      requires buf != [] ==> Room(fs.Abs(), Op.Write(id - 1, offset, Gathered(mem.bytes, Pointers(buf))), fs.g)
      modifies `offset, fs, fs.dev
      ensures Valid() && total == |Pointers(buf)| && offset == old(offset) + total
      ensures buf == [] ==> fs.Abs() == old(fs.Abs())
      ensures buf != [] ==> fs.Abs() ==
                            Apply(old(fs.Abs()), Op.Write(id - 1, old(offset), Gathered(mem.bytes, Pointers(buf))))
    {
      hide Coherent, FsOk, DirOk, Files, NamesOk, DirBytes, Pointers, Overwrite, Room, Sensible, Apply, Written,
           Present, Gathered, Sent, SlicePointers;
      ghost var a, whole := fs.Abs(), Gathered(mem.bytes, Pointers(buf));
      ghost var sent: seq<byte> := [];
      total := 0;
      var k := 0;
      StartWrite(mem.bytes, buf);
      AllWritten(a, id - 1, offset, whole, fs.g);
      while k < |buf|
        invariant k <= |buf| && Valid() && offset == old(offset) + total && total == |sent|
                  && fs.Abs() == Written(a, id - 1, old(offset), sent)
        invariant Sent(mem.bytes, buf, k, sent)
      {
        PresentPart(mem.bytes, buf, k);
        var data := mem.Load(buf[k]);
        SendMore(mem.bytes, buf, k, sent, data, whole);
        PartAllowed(a, id - 1, old(offset), sent, data, whole, fs.g);
        var ok, size := fs.WriteAt(id, offset, data);
        assert size == buf[k].to - buf[k].from;
        sent := sent + data;
        offset := offset + size;
        total := total + size;
        k := k + 1;
      }
      AllSent(mem.bytes, buf, sent);
      AllWritten(a, id - 1, old(offset), whole, fs.g);
    }
  }

  lemma AllWritten(a: FsAbs, file: nat, offset: nat, data: seq<byte>, g: Geometry)
    requires file < |a.files|
    ensures data != [] && Room(a, Op.Write(file, offset, data), g) ==>
            Written(a, file, offset, data) == Apply(a, Op.Write(file, offset, data))
    ensures Written(a, file, offset, []) == a
  {
    hide Overwrite, Fits, NamesOk;
  }

  /** The bytes of the first `k` slices. */
  ghost predicate Sent(b: Bytes, buf: seq<Slice>, k: nat, sent: seq<byte>)
    requires Proper(buf) && k <= |buf|
  {
    Present(b, Pointers(buf[..k])) && sent == Gathered(b, Pointers(buf[..k]))
  }

  lemma StartWrite(b: Bytes, buf: seq<Slice>)
    requires Proper(buf)
    ensures Sent(b, buf, 0, [])
  {
    assert buf[..0] == [];
  }

  lemma SendMore(b: Bytes, buf: seq<Slice>, k: nat, sent: seq<byte>, data: seq<byte>, whole: seq<byte>)
    requires Proper(buf) && k < |buf| && Present(b, Pointers(buf)) && whole == Gathered(b, Pointers(buf))
             && Sent(b, buf, k, sent)
    requires Present(b, SlicePointers(buf[k])) && data == Gathered(b, SlicePointers(buf[k]))
    ensures Sent(b, buf, k + 1, sent + data) && sent + data <= whole && data != []
  {
    hide Pointers;
    PointersSplit(buf, k);
    var next := Pointers(buf[..k + 1]);
    forall i | 0 <= i < |next| ensures next[i] in b && next[i] == Pointers(buf)[i] { assert Pointers(buf)[i] in b; }
    assert sent + data == Gathered(b, next);
  }

  lemma AllSent(b: Bytes, buf: seq<Slice>, sent: seq<byte>)
    requires Proper(buf) && Sent(b, buf, |buf|, sent) && Present(b, Pointers(buf))
    ensures sent == Gathered(b, Pointers(buf)) && (sent == [] <==> buf == [])
  {
    assert buf[..|buf|] == buf;
  }

  // ---------------------------------------------------------------- opening

  const CREATE: nat := 9
  const TRUNC: nat := 10

  /** The two flags by value: 0x200 and 0x400. */
  predicate Creates(flags: nat) {
    flags / 0x200 % 2 == 1
  }

  predicate Truncates(flags: nat) {
    flags / 0x400 % 2 == 1
  }

  lemma FlagBits(flags: nat)
    ensures Bit(flags, CREATE) == Creates(flags) && Bit(flags, TRUNC) == Truncates(flags)
            && Bit(flags, 0) == (flags % 2 == 1)
  {
    hide Bit;
    BitIsDigit(flags, 0);
    BitIsDigit(flags, 9);
    BitIsDigit(flags, 10);
    assert Pow2(0) == 1 && Pow2(5) == 32 && Pow2(9) == 16 * Pow2(5);
  }

  /** `OpenFlags::read_write`. */
  function ReadWrite(flags: nat): (bool, bool) {
    if flags == 0 then (true, false) else if Bit(flags, 0) then (false, true) else (true, true)
  }

  /** The state after opening: the file emptied by CREATE or TRUNC, or with CREATE a new, empty one. */
  ghost function Opened(a: FsAbs, name: Name, flags: nat): FsAbs
    requires |a.files| == |a.names|
  {
    if name in a.names then
      FsAbs(a.names, seq(|a.files|, i requires 0 <= i < |a.files| =>
        if a.names[i] == name && (Creates(flags) || Truncates(flags)) then [] else a.files[i]))
    else if Creates(flags) then FsAbs(a.names + [name], a.files + [[]]) else a
  }

  lemma OpenedIs(a: FsAbs, name: Name, flags: nat, id: nat)
    requires AbsOk(a) && (name in a.names ==> 0 < id <= |a.names| && a.names[id - 1] == name)
    ensures name in a.names && !Creates(flags) && !Truncates(flags) ==> Opened(a, name, flags) == a
    ensures name in a.names && (Creates(flags) || Truncates(flags)) ==>
            Opened(a, name, flags) == a.(files := a.files[id - 1 := []])
  {
    hide Creates, Truncates;
  }

  /** `open_file`: the file of that name, at its start. */
  method OpenFile(fs: FileSystem, name: Name, flags: nat) returns (r: Option<OSInode>)
    requires fs.Valid() && (Creates(flags) && name !in fs.names ==> Room(fs.Abs(), Op.Create(name), fs.g))
    modifies fs, fs.dev
    ensures fs.Valid() && fs.Abs() == Opened(old(fs.Abs()), name, flags)
    ensures r.Some? <==> name in fs.names
    ensures r.Some? ==> fresh(r.value) && r.value.fs == fs && r.value.Valid() && fs.names[r.value.id - 1] == name
    ensures r.Some? ==> r.value.offset == 0 && (r.value.readable <==> flags % 2 == 0)
                        && (r.value.writable <==> flags != 0)
  {
    hide Coherent, FsOk, DirOk, Files, NamesOk, DirBytes, Bit, Fits;
    FlagBits(flags);
    ghost var a := fs.Abs();
    var (readable, writable) := ReadWrite(flags);
    var found := fs.Find(name);
    if found.None? && !Bit(flags, CREATE) { return None; }
    var id;
    if found.Some? {
      id := found.value;
      if Bit(flags, CREATE) || Bit(flags, TRUNC) { fs.Clear(id); }
    } else {
      var made := fs.Create(name);
      id := made.value;
    }
    OpenedIs(a, name, flags, id);
    var inode := new OSInode(readable, writable, fs, id);
    return Some(inode);
  }
}
