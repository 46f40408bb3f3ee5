/** The two EEPROM layouts of a B2xx device, and the in-place migration between them. */
module Eeprom {
  import opened Arithmetic

  type Byte = x: nat | x < 256

  const EEPROM_SIZE := 0x8000
  const OLD_EEPROM_SIGNATURE: seq<Byte> := [0x43, 0x59, 0x14, 0xB2]
  const NEW_EEPROM_SIGNATURE: seq<Byte> := [0x43, 0x59, 0x1A, 0xB0]
  const EEPROM_DATA_HEADER: seq<Byte> := [0x00, 0xB2, 0x01, 0x00, 0x01, 0x00]
  const HEADER_ADDR := 0x7F00
  const NEW_VID_PID_ADDR := 0x7F06
  const NEW_DATA_ADDR := 0x7F0A
  const OLD_PID_VID_ADDR := 0x0004
  const OLD_DATA_ADDR := 0x04DC
  const DATA_LENGTH := 36
  const SERIAL_OFFSET := 0x1B
  const SERIAL_LENGTH := 9

  type Memory = m: seq<Byte> | |m| == EEPROM_SIZE witness seq(EEPROM_SIZE, _ => 0)

  /** What the device is told about itself, wherever it is stored. */
  datatype Record = Record(vid: seq<Byte>, pid: seq<Byte>, data: seq<Byte>)

  function OldRecord(m: Memory): Record {
    Record(m[6..8], m[4..6], m[OLD_DATA_ADDR..OLD_DATA_ADDR + DATA_LENGTH])
  }

  function NewRecord(m: Memory): Record {
    Record(m[0x7F06..0x7F08], m[0x7F08..0x7F0A], m[NEW_DATA_ADDR..NEW_DATA_ADDR + DATA_LENGTH])
  }

  /** The layout is told from the signature; anything but the new one reads as old. */
  function RecordOf(m: Memory): Record {
    if m[..4] == NEW_EEPROM_SIGNATURE then NewRecord(m) else OldRecord(m)
  }

  function Written(m: Memory, at: nat, data: seq<Byte>): Memory
    requires at + |data| <= EEPROM_SIZE
  {
    m[..at] + data + m[at + |data|..]
  }

  /** Reading a range after a write: the data inside it, the old bytes clear of it. */
  lemma ReadBack(m: Memory, at: nat, data: seq<Byte>, lo: nat, hi: nat)
    requires at + |data| <= EEPROM_SIZE && lo <= hi <= EEPROM_SIZE
    ensures at <= lo && hi <= at + |data| ==> Written(m, at, data)[lo..hi] == data[lo - at..hi - at]
    ensures hi <= at || at + |data| <= lo ==> Written(m, at, data)[lo..hi] == m[lo..hi]
  {
    var w := Written(m, at, data);
    assert forall k :: 0 <= k < EEPROM_SIZE ==>
                       w[k] == if at <= k < at + |data| then data[k - at] else m[k];
  }

  // ----- The migration, as a function of the memory

  function Swap(pv: seq<Byte>): seq<Byte>
    requires |pv| == 4
  {
    [pv[2], pv[3], pv[0], pv[1]]
  }

  /** The three writes of an upgrade: header, VID and PID, data. */
  function Migrated(m: Memory): Memory {
    var m1 := Written(m, HEADER_ADDR, EEPROM_DATA_HEADER);
    var m2 := Written(m1, NEW_VID_PID_ADDR, Swap(m[4..8]));
    Written(m2, NEW_DATA_ADDR, m[OLD_DATA_ADDR..OLD_DATA_ADDR + DATA_LENGTH])
  }

  /** A bootloader image: it carries the new signature and stays below the migrated data. */
  predicate IsImage(image: seq<Byte>) {
    4 <= |image| <= HEADER_ADDR && image[..4] == NEW_EEPROM_SIGNATURE
  }

  /** Loading, when the loader has written the first `done` bytes of the image. */
  function Loaded(m: Memory, image: seq<Byte>, done: nat): Memory
    requires IsImage(image) && done <= |image|
  {
    var base := if m[..4] == OLD_EEPROM_SIGNATURE then Migrated(m) else m;
    Written(base, 0, image[..done])
  }

  /** The head an unload writes: the old signature, then PID and VID. */
  function UnloadHead(m: Memory): seq<Byte> {
    OLD_EEPROM_SIGNATURE + Swap(m[NEW_VID_PID_ADDR..NEW_VID_PID_ADDR + 4])
  }

  function Unloaded(m: Memory): Memory {
    var m1 := Written(m, 0, UnloadHead(m));
    Written(m1, OLD_DATA_ADDR, m[NEW_DATA_ADDR..NEW_DATA_ADDR + DATA_LENGTH])
  }

  /** After an upgrade's writes both layouts hold the record, and nothing below 0x7F00 moved. */
  lemma MigratedHoldsBoth(m: Memory)
    ensures NewRecord(Migrated(m)) == OldRecord(m)
    ensures OldRecord(Migrated(m)) == OldRecord(m)
    ensures Migrated(m)[..HEADER_ADDR] == m[..HEADER_ADDR]
  {
    var pv, d := Swap(m[4..8]), m[OLD_DATA_ADDR..OLD_DATA_ADDR + DATA_LENGTH];
    var m1 := Written(m, HEADER_ADDR, EEPROM_DATA_HEADER);
    var m2 := Written(m1, NEW_VID_PID_ADDR, pv);
    ReadBack(m1, NEW_VID_PID_ADDR, pv, 0x7F06, 0x7F08);
    ReadBack(m1, NEW_VID_PID_ADDR, pv, 0x7F08, 0x7F0A);
    ReadBack(m2, NEW_DATA_ADDR, d, 0x7F06, 0x7F08);
    ReadBack(m2, NEW_DATA_ADDR, d, 0x7F08, 0x7F0A);
    ReadBack(m2, NEW_DATA_ADDR, d, NEW_DATA_ADDR, NEW_DATA_ADDR + DATA_LENGTH);
    assert pv[..2] == m[6..8] && pv[2..] == m[4..6];
    var m3 := Migrated(m);
    assert m3[..HEADER_ADDR] == m2[..HEADER_ADDR] == m1[..HEADER_ADDR] == m[..HEADER_ADDR];
    SamePrefix(m3, m, HEADER_ADDR, 6, 8);
    SamePrefix(m3, m, HEADER_ADDR, 4, 6);
    SamePrefix(m3, m, HEADER_ADDR, OLD_DATA_ADDR, OLD_DATA_ADDR + DATA_LENGTH);
  }

  /** Every byte after an upgrade of an old device and a load of `done` image bytes: the
      image, the header at 0x7F00, VID and PID, the 36 data bytes, and nothing else changed. */
  lemma LoadedBytes(m: Memory, image: seq<Byte>, done: nat, k: nat)
    requires IsImage(image) && done <= |image| && m[..4] == [0x43, 0x59, 0x14, 0xB2] && k < 0x8000
    ensures
      Loaded(m, image, done)[k] ==
      if k < done then image[k]
      else if 0x7F00 <= k < 0x7F06 then [0x00, 0xB2, 0x01, 0x00, 0x01, 0x00][k - 0x7F00]
      else if 0x7F06 <= k < 0x7F08 then m[k - 0x7F06 + 6]
      else if 0x7F08 <= k < 0x7F0A then m[k - 0x7F08 + 4]
      else if 0x7F0A <= k < 0x7F2E then m[k - 0x7F0A + 0x04DC]
      else m[k]
  {
    MigratedBytes(m, k);
  }

  lemma MigratedBytes(m: Memory, k: nat)
    requires k < 0x8000
    ensures
      Migrated(m)[k] ==
      if 0x7F00 <= k < 0x7F06 then [0x00, 0xB2, 0x01, 0x00, 0x01, 0x00][k - 0x7F00]
      else if 0x7F06 <= k < 0x7F08 then m[k - 0x7F06 + 6]
      else if 0x7F08 <= k < 0x7F0A then m[k - 0x7F08 + 4]
      else if 0x7F0A <= k < 0x7F2E then m[k - 0x7F0A + 0x04DC]
      else m[k]
  {
    var pv := Swap(m[4..8]);
    assert pv == [m[6], m[7], m[4], m[5]];
  }

  /** A device that is not old keeps every byte behind the image. */
  lemma LoadedBytesNotOld(m: Memory, image: seq<Byte>, done: nat, k: nat)
    requires IsImage(image) && done <= |image| && m[..4] != [0x43, 0x59, 0x14, 0xB2] && k < 0x8000
    ensures Loaded(m, image, done)[k] == if k < done then image[k] else m[k]
  {
  }

  /** Every byte after an unload: the old signature, PID and VID, the data at 0x04DC, and
      nothing else changed. */
  lemma UnloadedAllBytes(m: Memory, k: nat)
    requires k < 0x8000
    ensures
      Unloaded(m)[k] ==
      if k < 4 then [0x43, 0x59, 0x14, 0xB2][k]
      else if k < 6 then m[k - 4 + 0x7F08]
      else if k < 8 then m[k - 6 + 0x7F06]
      else if 0x04DC <= k < 0x0500 then m[k - 0x04DC + 0x7F0A]
      else m[k]
  {
    var p := NEW_VID_PID_ADDR;
    assert Swap(m[p..p + 4]) == [m[p + 2], m[p + 3], m[p], m[p + 1]];
  }

  lemma SamePrefix(a: Memory, b: Memory, n: nat, lo: nat, hi: nat)
    requires n <= EEPROM_SIZE && a[..n] == b[..n] && lo <= hi <= n
    ensures a[lo..hi] == b[lo..hi]
  {
    assert a[lo..hi] == a[..n][lo..hi] && b[lo..hi] == b[..n][lo..hi];
  }

  /** Loading keeps the record, from either layout, and however many bytes of the image the
      loader manages to write. */
  lemma LoadKeepsRecord(m: Memory, image: seq<Byte>, done: nat)
    requires IsImage(image) && done <= |image|
    requires m[..4] == OLD_EEPROM_SIGNATURE || m[..4] == NEW_EEPROM_SIGNATURE
    ensures RecordOf(Loaded(m, image, done)) == RecordOf(m)
    ensures done >= 4 ==> Loaded(m, image, done)[..4] == NEW_EEPROM_SIGNATURE
  {
    var isOld := m[..4] == OLD_EEPROM_SIGNATURE;
    var base := if isOld then Migrated(m) else m;
    var w := image[..done];
    var l := Loaded(m, image, done);
    if isOld { MigratedHoldsBoth(m); }
    NewRecordClear(base, w);
    if done >= 4 {
      ReadBack(base, 0, w, 0, 4);
      assert w[0..4] == image[..4];
      assert l[..4] == NEW_EEPROM_SIGNATURE;
    } else {
      OldRecordClear(base, w);
      PartialSignature(m, image, done);
    }
  }

  lemma NewRecordClear(m: Memory, w: seq<Byte>)
    requires |w| <= HEADER_ADDR
    ensures NewRecord(Written(m, 0, w)) == NewRecord(m)
  {
    ReadBack(m, 0, w, 0x7F06, 0x7F08);
    ReadBack(m, 0, w, 0x7F08, 0x7F0A);
    ReadBack(m, 0, w, NEW_DATA_ADDR, NEW_DATA_ADDR + DATA_LENGTH);
  }

  lemma OldRecordClear(m: Memory, w: seq<Byte>)
    requires |w| <= 4
    ensures OldRecord(Written(m, 0, w)) == OldRecord(m)
  {
    ReadBack(m, 0, w, 6, 8);
    ReadBack(m, 0, w, 4, 6);
    ReadBack(m, 0, w, OLD_DATA_ADDR, OLD_DATA_ADDR + DATA_LENGTH);
  }

  /** A partly written new signature over an old one reads as old, over a new one as new. */
  lemma PartialSignature(m: Memory, image: seq<Byte>, done: nat)
    requires IsImage(image) && done < 4
    requires m[..4] == OLD_EEPROM_SIGNATURE || m[..4] == NEW_EEPROM_SIGNATURE
    ensures Loaded(m, image, done)[..4] == NEW_EEPROM_SIGNATURE <==> m[..4] == NEW_EEPROM_SIGNATURE
  {
    var base := if m[..4] == OLD_EEPROM_SIGNATURE then Migrated(m) else m;
    if m[..4] == OLD_EEPROM_SIGNATURE {
      MigratedHoldsBoth(m);
      SamePrefix(base, m, HEADER_ADDR, 0, 4);
    }
    var l := Loaded(m, image, done);
    assert forall k :: 0 <= k < 4 ==> l[k] == if k < done then image[..4][k] else m[..4][k];
    assert l[..4][3] == m[..4][3];
    if m[..4] == NEW_EEPROM_SIGNATURE {
      assert l[..4] == NEW_EEPROM_SIGNATURE;
    }
  }

  /** Without either signature nothing is migrated: the record read after a load is what the
      new location held before, as soon as the new signature is complete. */
  lemma LoadWithoutSignature(m: Memory, image: seq<Byte>, done: nat)
    requires IsImage(image) && done <= |image|
    requires m[..4] != OLD_EEPROM_SIGNATURE && m[..4] != NEW_EEPROM_SIGNATURE
    ensures RecordOf(m) == OldRecord(m)
    ensures RecordOf(Loaded(m, image, done)) ==
            if done < 4 && m[done..4] != NEW_EEPROM_SIGNATURE[done..] then OldRecord(m) else NewRecord(m)
  {
    var w, l := image[..done], Loaded(m, image, done);
    NewRecordClear(m, w);
    if done < 4 {
      OldRecordClear(m, w);
      assert image[..done] == NEW_EEPROM_SIGNATURE[..done] by { assert image[..4][..done] == image[..done]; }
      SplitEqual(w, m[done..4], NEW_EEPROM_SIGNATURE[..done], NEW_EEPROM_SIGNATURE[done..]);
      assert l[..4] == w + m[done..4];
      assert NEW_EEPROM_SIGNATURE == NEW_EEPROM_SIGNATURE[..done] + NEW_EEPROM_SIGNATURE[done..];
    } else {
      ReadBack(m, 0, w, 0, 4);
      assert l[..4] == l[0..4] == w[0..4] == image[..4];
    }
  }

  /** Exactly when a load that writes `done` bytes of the image keeps the record: the device
      has one of the two signatures, or both locations hold the same record, or the load
      stops before the new signature is complete. */
  lemma LoadKeepsRecordIff(m: Memory, image: seq<Byte>, done: nat)
    requires IsImage(image) && done <= |image|
    ensures RecordOf(Loaded(m, image, done)) == RecordOf(m) <==>
            || m[..4] == OLD_EEPROM_SIGNATURE || m[..4] == NEW_EEPROM_SIGNATURE
            || OldRecord(m) == NewRecord(m)
            || (done < 4 && m[done..4] != NEW_EEPROM_SIGNATURE[done..])
  {
    if m[..4] == OLD_EEPROM_SIGNATURE || m[..4] == NEW_EEPROM_SIGNATURE {
      LoadKeepsRecord(m, image, done);
    } else {
      LoadWithoutSignature(m, image, done);
    }
  }

  /** A device with no signature whose two data locations differ. */
  function BlankDevice(): Memory {
    Written(seq(EEPROM_SIZE, _ => 0), NEW_DATA_ADDR, [2])
  }

  /** On that device the first data byte reads 0 before a complete load and 2 after it. */
  lemma LoadLosesRecord(image: seq<Byte>)
    requires IsImage(image)
    ensures RecordOf(BlankDevice()).data[0] == 0
    ensures RecordOf(Loaded(BlankDevice(), image, |image|)).data[0] == 2
  {
    var m := BlankDevice();
    assert m[..4][0] == 0 && m[NEW_DATA_ADDR] == 2 && m[OLD_DATA_ADDR] == 0;
    LoadWithoutSignature(m, image, |image|);
  }

  /** Unloading keeps the record and leaves the old layout. */
  lemma UnloadKeepsRecord(m: Memory)
    requires m[..4] == NEW_EEPROM_SIGNATURE
    ensures RecordOf(Unloaded(m)) == RecordOf(m)
    ensures Unloaded(m)[..8] == OLD_EEPROM_SIGNATURE + RecordOf(m).pid + RecordOf(m).vid
  {
    var pv := Swap(m[NEW_VID_PID_ADDR..NEW_VID_PID_ADDR + 4]);
    var head, d := OLD_EEPROM_SIGNATURE + pv, m[NEW_DATA_ADDR..NEW_DATA_ADDR + DATA_LENGTH];
    var m1, u := Written(m, 0, head), Unloaded(m);
    ReadBack(m, 0, head, 0, 4);
    ReadBack(m, 0, head, 0, 8);
    ReadBack(m, 0, head, 4, 6);
    ReadBack(m, 0, head, 6, 8);
    ReadBack(m1, OLD_DATA_ADDR, d, 0, 4);
    ReadBack(m1, OLD_DATA_ADDR, d, 0, 8);
    ReadBack(m1, OLD_DATA_ADDR, d, 4, 6);
    ReadBack(m1, OLD_DATA_ADDR, d, 6, 8);
    ReadBack(m1, OLD_DATA_ADDR, d, OLD_DATA_ADDR, OLD_DATA_ADDR + DATA_LENGTH);
    assert head[4..6] == m[0x7F08..0x7F0A] && head[6..8] == m[0x7F06..0x7F08];
    assert u[..4][2] == OLD_EEPROM_SIGNATURE[2] != NEW_EEPROM_SIGNATURE[2];
    assert head == OLD_EEPROM_SIGNATURE + m[0x7F08..0x7F0A] + m[0x7F06..0x7F08];
  }

  /** Loading and then unloading restores the eight-byte head and the data of an old device. */
  lemma LoadThenUnload(m: Memory, image: seq<Byte>)
    requires IsImage(image) && m[..4] == OLD_EEPROM_SIGNATURE
    ensures
      var u := Unloaded(Loaded(m, image, |image|));
      && u[..8] == m[..8]
      && u[OLD_DATA_ADDR..OLD_DATA_ADDR + DATA_LENGTH] == m[OLD_DATA_ADDR..OLD_DATA_ADDR + DATA_LENGTH]
  {
    var l := Loaded(m, image, |image|);
    LoadKeepsRecord(m, image, |image|);
    UnloadKeepsRecord(l);
    assert m[..4] != NEW_EEPROM_SIGNATURE by { assert m[..4][2] == 0x14; }
    assert m[..8] == m[..4] + m[4..6] + m[6..8];
    var u := Unloaded(l);
    assert u[..4] == u[..8][..4] == OLD_EEPROM_SIGNATURE;
    assert u[..4][2] == 0x14;
    assert RecordOf(u) == OldRecord(u);
  }

  /** A write that stops after n bytes. */
  function WrittenUpTo(m: Memory, at: nat, data: seq<Byte>, n: int): Memory
    requires at + |data| <= EEPROM_SIZE
  {
    Written(m, at, data[..Max(0, Min(n, |data|))])
  }

  lemma WrittenAll(m: Memory, at: nat, data: seq<Byte>, n: int)
    requires at + |data| <= EEPROM_SIZE
    ensures n >= |data| ==> WrittenUpTo(m, at, data, n) == Written(m, at, data)
    ensures n <= 0 ==> WrittenUpTo(m, at, data, n) == m
  {
    assert data[..|data|] == data;
  }

  /** An unload that stops after n bytes of its two writes. */
  function UnloadedUpTo(m: Memory, n: nat): Memory {
    var m1 := WrittenUpTo(m, 0, UnloadHead(m), n);
    WrittenUpTo(m1, OLD_DATA_ADDR, m[NEW_DATA_ADDR..NEW_DATA_ADDR + DATA_LENGTH], n - 8)
  }

  lemma UnloadedWhole(m: Memory)
    ensures UnloadedUpTo(m, 8 + DATA_LENGTH) == Unloaded(m)
  {
    var head, d := UnloadHead(m), m[NEW_DATA_ADDR..NEW_DATA_ADDR + DATA_LENGTH];
    WrittenAll(m, 0, head, 8 + DATA_LENGTH);
    WrittenAll(Written(m, 0, head), OLD_DATA_ADDR, d, DATA_LENGTH);
  }

  /** The target of a write that stops after n bytes. */
  lemma TargetUpTo(m: Memory, at: nat, data: seq<Byte>, n: int)
    requires at + |data| <= EEPROM_SIZE
    ensures
      var w, i := WrittenUpTo(m, at, data, n), Max(0, Min(n, |data|));
      w[at..at + |data|] == data[..i] + m[at..at + |data|][i..]
  {
    var part := data[..Max(0, Min(n, |data|))];
    InnerWrite(m, at, at + |data|, 0, part);
    assert m[at..at + |data|][..0] + part == part;
  }

  /** The head and the old data region after n bytes of an unload. */
  lemma UnloadedBytes(m: Memory, n: nat)
    requires n <= 8 + DATA_LENGTH
    ensures
      var u, j, i := UnloadedUpTo(m, n), Min(8, n), Max(0, n - 8);
      && u[..8] == UnloadHead(m)[..j] + m[..8][j..]
      && OldRecord(u).data == NewRecord(m).data[..i] + OldRecord(m).data[i..]
  {
    var head, d := UnloadHead(m), NewRecord(m).data;
    var m1, lo, hi := WrittenUpTo(m, 0, head, n), OLD_DATA_ADDR, OLD_DATA_ADDR + DATA_LENGTH;
    TargetUpTo(m, 0, head, n);
    assert m1[0..8] == m1[..8] && m[0..8] == m[..8];
    TargetUpTo(m1, lo, d, n - 8);
    ReadBack(m1, lo, d[..Max(0, n - 8)], 0, 8);
    ReadBack(m, 0, head[..Min(8, n)], lo, hi);
  }

  lemma HeadIds(m: Memory)
    ensures UnloadHead(m)[4..8] == NewRecord(m).pid + NewRecord(m).vid
    ensures m[..8][4..8] == OldRecord(m).pid + OldRecord(m).vid
  {
    assert UnloadHead(m)[4..6] == NewRecord(m).pid && UnloadHead(m)[6..8] == NewRecord(m).vid;
    assert m[..8][4..6] == m[4..6] && m[..8][6..8] == m[6..8];
  }

  lemma SplitEqual(a: seq<Byte>, b: seq<Byte>, c: seq<Byte>, d: seq<Byte>)
    requires |a| == |c|
    ensures a + b == c + d <==> a == c && b == d
  {
    assert a == (a + b)[..|a|] && c == (c + d)[..|a|];
    assert b == (a + b)[|a|..] && d == (c + d)[|a|..];
  }

  lemma OldSignatureIsNotNew(m: Memory)
    ensures m[2] == 0x14 || m[3] == 0xB2 ==> m[..4] != NEW_EEPROM_SIGNATURE
  {
    assert m[..4][2] == m[2] && m[..4][3] == m[3];
  }

  /** Unloading is not safe against interruption. One that stops after n bytes keeps the
      record exactly when it stops within the two bytes the signatures share, or when the
      image happens to hold, in the part of the old head and data not yet written, what
      would have been written there. */
  lemma UnloadInterrupted(m: Memory, n: nat)
    requires m[..4] == NEW_EEPROM_SIGNATURE && n <= 8 + DATA_LENGTH
    ensures
      var ids, data := Min(8, Max(4, n)), Max(0, n - 8);
      RecordOf(UnloadedUpTo(m, n)) == RecordOf(m) <==>
      || n <= 2
      || (m[ids..8] == UnloadHead(m)[ids..] && OldRecord(m).data[data..] == NewRecord(m).data[data..])
  {
    var u, head := UnloadedUpTo(m, n), UnloadHead(m);
    UnloadedBytes(m, n);
    if n <= 2 {
      EarlyUnload(m, n);
    } else {
      OldSignatureIsNotNew(u);
      assert u[2] == u[..8][2] == head[2] == 0x14;
      UnloadedIds(m, n);
      UnloadedData(m, n);
    }
  }

  lemma EarlyUnload(m: Memory, n: nat)
    requires m[..4] == NEW_EEPROM_SIGNATURE && n <= 2
    ensures UnloadedUpTo(m, n) == m
  {
    var u := WrittenUpTo(m, 0, UnloadHead(m), n);
    assert m[0] == m[..4][0] && m[1] == m[..4][1];
    assert forall k :: 0 <= k < EEPROM_SIZE ==> u[k] == m[k];
    assert u == m;
    WrittenAll(m, OLD_DATA_ADDR, m[NEW_DATA_ADDR..NEW_DATA_ADDR + DATA_LENGTH], n - 8);
  }

  lemma UnloadedIds(m: Memory, n: nat)
    requires 2 < n <= 8 + DATA_LENGTH
    ensures
      var r, ids := OldRecord(UnloadedUpTo(m, n)), Min(8, Max(4, n));
      r.vid == NewRecord(m).vid && r.pid == NewRecord(m).pid <==> m[ids..8] == UnloadHead(m)[ids..]
  {
    var u, ids := UnloadedUpTo(m, n), Min(8, Max(4, n));
    var was, now, head := m[..8], UnloadedUpTo(m, n)[..8], UnloadHead(m);
    UnloadedBytes(m, n);
    HeadIds(m);
    HeadIds(u);
    SplitEqual(OldRecord(u).pid, OldRecord(u).vid, NewRecord(m).pid, NewRecord(m).vid);
    MixedTail(head, was, now, Min(8, n));
    assert was[ids..] == m[ids..8];
  }

  /** A head mixed of two agrees with one of them on its last four bytes exactly when the
      two agree on those that come from the other. */
  lemma MixedTail(head: seq<Byte>, was: seq<Byte>, now: seq<Byte>, n: nat)
    requires |head| == |was| == |now| == 8 && n <= 8 && now == head[..n] + was[n..]
    ensures now[4..8] == head[4..8] <==> was[Max(4, n)..] == head[Max(4, n)..]
  {
    var k := Max(4, n);
    assert now[4..8] == head[4..k] + was[k..];
    assert head[4..8] == head[4..k] + head[k..];
    SplitEqual(head[4..k], was[k..], head[4..k], head[k..]);
  }

  lemma UnloadedData(m: Memory, n: nat)
    requires 2 < n <= 8 + DATA_LENGTH
    ensures
      var i := Max(0, n - 8);
      OldRecord(UnloadedUpTo(m, n)).data == NewRecord(m).data <==> OldRecord(m).data[i..] == NewRecord(m).data[i..]
  {
    var u, i := UnloadedUpTo(m, n), Max(0, n - 8);
    var was, now, d := OldRecord(m).data, OldRecord(u).data, NewRecord(m).data;
    UnloadedBytes(m, n);
    SplitEqual(d[..i], was[i..], d[..i], d[i..]);
    assert now == d[..i] + was[i..] && d == d[..i] + d[i..];
  }

  /** An upgrade that stops after n bytes of its three writes. */
  function MigratedUpTo(m: Memory, n: nat): Memory {
    var m1 := WrittenUpTo(m, HEADER_ADDR, EEPROM_DATA_HEADER, n);
    var m2 := WrittenUpTo(m1, NEW_VID_PID_ADDR, Swap(m[4..8]), n - 6);
    WrittenUpTo(m2, NEW_DATA_ADDR, m[OLD_DATA_ADDR..OLD_DATA_ADDR + DATA_LENGTH], n - 10)
  }

  /** An upgrade keeps the record of an old device, stopped at any byte of its three writes
      or run to its end. */
  lemma MigrationInterrupted(m: Memory, n: nat)
    requires m[..4] == OLD_EEPROM_SIGNATURE
    ensures RecordOf(MigratedUpTo(m, n)) == RecordOf(m)
    ensures MigratedUpTo(m, n)[..4] == OLD_EEPROM_SIGNATURE
    ensures n >= 10 + DATA_LENGTH ==> MigratedUpTo(m, n) == Migrated(m)
  {
    var pv, d := Swap(m[4..8]), m[OLD_DATA_ADDR..OLD_DATA_ADDR + DATA_LENGTH];
    var m1 := WrittenUpTo(m, HEADER_ADDR, EEPROM_DATA_HEADER, n);
    var m2 := WrittenUpTo(m1, NEW_VID_PID_ADDR, pv, n - 6);
    HighWrite(m, HEADER_ADDR, EEPROM_DATA_HEADER, n);
    HighWrite(m1, NEW_VID_PID_ADDR, pv, n - 6);
    HighWrite(m2, NEW_DATA_ADDR, d, n - 10);
    WrittenAll(m, HEADER_ADDR, EEPROM_DATA_HEADER, n);
    WrittenAll(m1, NEW_VID_PID_ADDR, pv, n - 6);
    WrittenAll(m2, NEW_DATA_ADDR, d, n - 10);
  }

  /** Any write above 0x7F00, whole or partial, leaves an old device's record alone. */
  lemma HighWrite(m: Memory, at: nat, data: seq<Byte>, n: int)
    requires m[..4] == OLD_EEPROM_SIGNATURE
    requires HEADER_ADDR <= at && at + |data| <= EEPROM_SIZE
    ensures RecordOf(WrittenUpTo(m, at, data, n)) == RecordOf(m)
    ensures WrittenUpTo(m, at, data, n)[..4] == OLD_EEPROM_SIGNATURE
  {
    var w := WrittenUpTo(m, at, data, n);
    assert w[..HEADER_ADDR] == m[..HEADER_ADDR];
    SamePrefix(w, m, HEADER_ADDR, 0, 4);
    SamePrefix(w, m, HEADER_ADDR, 4, 6);
    SamePrefix(w, m, HEADER_ADDR, 6, 8);
    SamePrefix(w, m, HEADER_ADDR, OLD_DATA_ADDR, OLD_DATA_ADDR + DATA_LENGTH);
    assert w[..4] == m[..4];
    OldSignatureIsNotNew(m);
    assert m[..4][2] == m[2];
  }

  // ----- Whole runs

  /** A load attempt that stops after n bytes of all it writes, or a complete unload. */
  datatype Attempt = Load(image: seq<Byte>, n: nat) | Unload

  const MIGRATION_LENGTH := 10 + DATA_LENGTH

  /** The memory after an attempt. An unload is refused without the new signature. */
  function After(m: Memory, a: Attempt): Memory
    requires a.Load? ==> IsImage(a.image)
  {
    match a
    case Load(image, n) =>
      if m[..4] != OLD_EEPROM_SIGNATURE then WrittenUpTo(m, 0, image, n)
      else if n <= MIGRATION_LENGTH then MigratedUpTo(m, n)
      else WrittenUpTo(Migrated(m), 0, image, n - MIGRATION_LENGTH)
    case Unload => if m[..4] == NEW_EEPROM_SIGNATURE then Unloaded(m) else m
  }

  /** The attempt that writes everything is a whole load. */
  lemma AfterWholeLoad(m: Memory, image: seq<Byte>, n: nat)
    requires IsImage(image) && n >= MIGRATION_LENGTH + |image|
    ensures After(m, Load(image, n)) == Loaded(m, image, |image|)
  {
    assert image[..|image|] == image;
  }

  function AfterAll(m: Memory, run: seq<Attempt>): Memory
    requires forall i :: 0 <= i < |run| && run[i].Load? ==> IsImage(run[i].image)
  {
    if run == [] then m else After(AfterAll(m, run[..|run| - 1]), run[|run| - 1])
  }

  /** The first three bytes of the new signature, and the last one of the old. */
  const MIXED_SIGNATURE: seq<Byte> := [0x43, 0x59, 0x1A, 0xB2]

  /** The device holds the record safely: where its signature says, or in both places when a
      load stopped with all but one byte of the new signature written. */
  ghost predicate Holds(m: Memory, r: Record) {
    || (m[..4] == NEW_EEPROM_SIGNATURE && NewRecord(m) == r)
    || (m[..4] == OLD_EEPROM_SIGNATURE && OldRecord(m) == r)
    || (m[..4] == MIXED_SIGNATURE && NewRecord(m) == r && OldRecord(m) == r)
  }

  lemma HoldsIsRecord(m: Memory, r: Record)
    ensures Holds(m, r) ==> RecordOf(m) == r
    ensures m[..4] == OLD_EEPROM_SIGNATURE || m[..4] == NEW_EEPROM_SIGNATURE ==> Holds(m, RecordOf(m))
  {
    assert OLD_EEPROM_SIGNATURE[2] != NEW_EEPROM_SIGNATURE[2] && MIXED_SIGNATURE[3] != NEW_EEPROM_SIGNATURE[3];
  }

  /** The signature after the first bytes of an image have been written over one of the three. */
  lemma SignatureUnder(m: Memory, image: seq<Byte>, n: nat)
    requires IsImage(image)
    requires m[..4] == OLD_EEPROM_SIGNATURE || m[..4] == NEW_EEPROM_SIGNATURE || m[..4] == MIXED_SIGNATURE
    ensures
      WrittenUpTo(m, 0, image, n)[..4] ==
      if n >= 4 then NEW_EEPROM_SIGNATURE
      else if n == 3 && m[..4] == OLD_EEPROM_SIGNATURE then MIXED_SIGNATURE
      else m[..4]
  {
    var s := WrittenUpTo(m, 0, image, n)[..4];
    assert forall k :: 0 <= k < 4 ==> s[k] == if k < n then image[..4][k] else m[..4][k];
  }

  lemma ImageKeepsBoth(m: Memory, image: seq<Byte>, n: nat, r: Record)
    requires IsImage(image) && NewRecord(m) == r
    requires m[..4] == OLD_EEPROM_SIGNATURE || m[..4] == MIXED_SIGNATURE ==> OldRecord(m) == r
    requires m[..4] == OLD_EEPROM_SIGNATURE || m[..4] == NEW_EEPROM_SIGNATURE || m[..4] == MIXED_SIGNATURE
    ensures Holds(WrittenUpTo(m, 0, image, n), r)
  {
    var part := image[..Max(0, Min(n, |image|))];
    SignatureUnder(m, image, n);
    NewRecordClear(m, part);
    if n < 4 { OldRecordClear(m, part); }
  }

  lemma AfterHolds(m: Memory, a: Attempt, r: Record)
    requires Holds(m, r) && (a.Load? ==> IsImage(a.image))
    ensures Holds(After(m, a), r)
  {
    HoldsIsRecord(m, r);
    match a
    case Load(image, n) =>
      if m[..4] != OLD_EEPROM_SIGNATURE {
        ImageKeepsBoth(m, image, n, r);
      } else {
        MigrationInterrupted(m, n);
        HoldsIsRecord(MigratedUpTo(m, n), r);
        MigratedHoldsBoth(m);
        SamePrefix(Migrated(m), m, HEADER_ADDR, 0, 4);
        assert Migrated(m)[..4] == m[..4];
        if n > MIGRATION_LENGTH { ImageKeepsBoth(Migrated(m), image, n - MIGRATION_LENGTH, r); }
      }
    case Unload =>
      if m[..4] == NEW_EEPROM_SIGNATURE {
        UnloadKeepsRecord(m);
        assert Unloaded(m)[..4] == Unloaded(m)[..8][..4] == OLD_EEPROM_SIGNATURE;
        HoldsIsRecord(Unloaded(m), r);
      }
  }

  /** Over every run of loads of any images, each stopped after any number of bytes, and of
      complete unloads, a device that starts with either signature keeps its record. */
  lemma {:induction false} RunKeepsRecord(m: Memory, run: seq<Attempt>)
    requires m[..4] == OLD_EEPROM_SIGNATURE || m[..4] == NEW_EEPROM_SIGNATURE
    requires forall i :: 0 <= i < |run| && run[i].Load? ==> IsImage(run[i].image)
    ensures RecordOf(AfterAll(m, run)) == RecordOf(m) && Holds(AfterAll(m, run), RecordOf(m))
  {
    if run == [] {
      HoldsIsRecord(m, RecordOf(m));
    } else {
      var front := run[..|run| - 1];
      RunKeepsRecord(m, front);
      AfterHolds(AfterAll(m, front), run[|run| - 1], RecordOf(m));
      HoldsIsRecord(AfterAll(m, run), RecordOf(m));
    }
  }

  // ----- Initialisation

  /** `construct_eeprom_init_value_vector`: 16-bit values, low byte first. */
  function InitHead(vid: nat, pid: nat): seq<Byte>
    requires vid < 0x10000 && pid < 0x10000
  {
    OLD_EEPROM_SIGNATURE + [pid % 0x100, pid / 0x100, vid % 0x100, vid / 0x100]
  }

  function Value(b: seq<Byte>): nat
    requires |b| == 2
  {
    var lo: int, hi: int := b[0], b[1];
    lo + 0x100 * hi
  }

  /** The serial numbers `init-device` accepts. */
  predicate SerialAccepted(serial: seq<Byte>) {
    0 < |serial| < SERIAL_LENGTH - 1
  }

  function Initialised(m: Memory, vid: nat, pid: nat, serial: seq<Byte>): Memory
    requires vid < 0x10000 && pid < 0x10000 && SerialAccepted(serial)
  {
    Written(Written(m, 0, InitHead(vid, pid)), OLD_DATA_ADDR + SERIAL_OFFSET, serial + [0])
  }

  /** Initialising stores the identifiers and the terminated serial number; every other byte
      of the data record is then what the old location held. */
  lemma InitialisedRecord(m: Memory, vid: nat, pid: nat, serial: seq<Byte>)
    requires vid < 0x10000 && pid < 0x10000 && SerialAccepted(serial)
    ensures
      var r, d := RecordOf(Initialised(m, vid, pid, serial)), OldRecord(m).data;
      && Value(r.vid) == vid && Value(r.pid) == pid
      && r.data == d[..SERIAL_OFFSET] + serial + [0] + d[SERIAL_OFFSET + |serial| + 1..]
  {
    var head, tail := InitHead(vid, pid), serial + [0];
    var m1, i := Written(m, 0, head), Initialised(m, vid, pid, serial);
    assert forall k :: 0 <= k < 8 ==> i[k] == head[k];
    assert i[..4][2] == 0x14;
    assert i[4..6] == [head[4], head[5]] && i[6..8] == [head[6], head[7]];
    InnerWrite(m1, OLD_DATA_ADDR, OLD_DATA_ADDR + DATA_LENGTH, SERIAL_OFFSET, tail);
    ReadBack(m, 0, head, OLD_DATA_ADDR, OLD_DATA_ADDR + DATA_LENGTH);
    var d := OldRecord(m).data;
    assert d[..SERIAL_OFFSET] + tail + d[SERIAL_OFFSET + |tail|..]
           == d[..SERIAL_OFFSET] + serial + [0] + d[SERIAL_OFFSET + |serial| + 1..];
  }

  /** Every byte after initialising: the old signature, PID and VID with the low byte first,
      the serial number and its terminator from 0x04F7 on, and nothing else changed. */
  lemma InitialisedBytes(m: Memory, vid: nat, pid: nat, serial: seq<Byte>, k: nat)
    requires vid < 0x10000 && pid < 0x10000 && SerialAccepted(serial) && k < 0x8000
    ensures
      Initialised(m, vid, pid, serial)[k] ==
      if k < 4 then [0x43, 0x59, 0x14, 0xB2][k]
      else if k < 8 then [pid % 256, pid / 256, vid % 256, vid / 256][k - 4]
      else if 0x04F7 <= k < 0x04F7 + |serial| then serial[k - 0x04F7]
      else if k == 0x04F7 + |serial| then 0
      else m[k]
  {
  }

  /** A write inside a range replaces that part of the range. */
  lemma InnerWrite(m: Memory, lo: nat, hi: nat, offset: nat, data: seq<Byte>)
    requires lo + offset + |data| <= hi <= EEPROM_SIZE
    ensures
      var was := m[lo..hi];
      Written(m, lo + offset, data)[lo..hi] == was[..offset] + data + was[offset + |data|..]
  {
  }

  /** Two data records agree on every byte that initialising does not set. */
  ghost predicate AgreeOutsideSerial(a: seq<Byte>, b: seq<Byte>, serial: seq<Byte>)
    requires |a| == |b| == DATA_LENGTH && SerialAccepted(serial)
  {
    var after := SERIAL_OFFSET + |serial| + 1;
    a[..SERIAL_OFFSET] == b[..SERIAL_OFFSET] && a[after..] == b[after..]
  }

  /** A device can be initialised from any state, but its other data bytes survive exactly
      when it does not have the new layout, or both locations agree on those bytes: the
      new signature is overwritten and the data at the new location are not brought along. */
  lemma InitialisedKeepsData(m: Memory, vid: nat, pid: nat, serial: seq<Byte>)
    requires vid < 0x10000 && pid < 0x10000 && SerialAccepted(serial)
    ensures
      AgreeOutsideSerial(RecordOf(Initialised(m, vid, pid, serial)).data, RecordOf(m).data, serial) <==>
      m[..4] != NEW_EEPROM_SIGNATURE || AgreeOutsideSerial(OldRecord(m).data, NewRecord(m).data, serial)
  {
    InitialisedRecord(m, vid, pid, serial);
    var r, d := RecordOf(Initialised(m, vid, pid, serial)).data, OldRecord(m).data;
    var after := SERIAL_OFFSET + |serial| + 1;
    assert r[..SERIAL_OFFSET] == d[..SERIAL_OFFSET] && r[after..] == d[after..];
  }

  /** A device with the new layout whose two data locations differ. */
  function BootloaderDevice(): Memory {
    Written(Written(seq(EEPROM_SIZE, _ => 0), 0, NEW_EEPROM_SIGNATURE), NEW_DATA_ADDR, [2])
  }

  /** On that device the first data byte reads 2 before initialising and 0 after it. */
  lemma InitialisedLosesData(vid: nat, pid: nat, serial: seq<Byte>)
    requires vid < 0x10000 && pid < 0x10000 && SerialAccepted(serial)
    ensures RecordOf(BootloaderDevice()).data[0] == 2
    ensures RecordOf(Initialised(BootloaderDevice(), vid, pid, serial)).data[0] == 0
  {
    var m := BootloaderDevice();
    assert m[..4] == NEW_EEPROM_SIGNATURE;
    assert m[NEW_DATA_ADDR] == 2 && m[OLD_DATA_ADDR] == 0;
    InitialisedRecord(m, vid, pid, serial);
  }

  // ----- The device and the commands

  datatype Exit = Success | Failure

  class Device {
    const mem: array<Byte>

    ghost predicate Valid() {
      mem.Length == EEPROM_SIZE
    }

    constructor ()
      ensures Valid() && fresh(mem)
    {
      mem := new Byte[EEPROM_SIZE];
    }

    method ReadEeprom(at: nat, n: nat) returns (data: seq<Byte>)
      requires Valid() && at + n <= EEPROM_SIZE
      ensures data == mem[at..at + n]
    {
      data := mem[at..at + n];
    }

    method WriteEeprom(at: nat, data: seq<Byte>)
      requires Valid() && at + |data| <= EEPROM_SIZE
      modifies mem
      ensures mem[..] == Written(old(mem[..]), at, data)
    {
      ghost var before := mem[..];
      for i := 0 to |data|
        invariant mem[..] == Written(before, at, data[..i])
      {
        mem[at + i] := data[i];
        WrittenNext(before, at, data, i);
      }
      assert data[..|data|] == data;
    }

    /** Compares the first bytes with what was written. */
    method VerifyHead(data: seq<Byte>) returns (verified: bool)
      requires Valid()
      ensures verified <==> data == mem[..8]
    {
      verified := |data| == 8;
      var read := ReadEeprom(0, 8);
      var n := if |data| < 8 then |data| else 8;
      for i := 0 to n
        invariant verified <==> |data| == 8 && data[..i] == read[..i]
      {
        if data[i] != read[i] {
          verified := false;
        }
      }
      assert |data| == 8 ==> data[..n] == data && read[..n] == read;
    }

    method WriteAndVerifyHead(data: seq<Byte>) returns (r: Exit)
      requires Valid() && |data| == 8
      modifies mem
      ensures mem[..] == Written(old(mem[..]), 0, data) && r.Success?
    {
      WriteEeprom(0, data);
      var verified := VerifyHead(data);
      r := if verified then Success else Failure;
    }

    /** `get_eeprom_hdr_address`. */
    method DataAddress() returns (at: nat, length: nat)
      requires Valid()
      ensures length == DATA_LENGTH && at + length <= EEPROM_SIZE
      ensures RecordOf(mem[..]).data == mem[at..at + length]
      ensures mem[..4] != NEW_EEPROM_SIGNATURE ==> at == OLD_DATA_ADDR
    {
      var signature := ReadEeprom(0, 4);
      if signature == NEW_EEPROM_SIGNATURE {
        return NEW_DATA_ADDR, 36;
      }
      return OLD_DATA_ADDR, 36;
    }

    /** `load-bootloader`. The loader is not modelled: it is taken to write some leading part
        of the image and to succeed when it wrote all of it. */
    method LoadBootloader(image: seq<Byte>, done: nat) returns (r: Exit)
      requires Valid() && IsImage(image) && done <= |image|
      modifies mem
      ensures mem[..] == Loaded(old(mem[..]), image, done)
      ensures r.Success? <==> done == |image|
    {
      var signature := ReadEeprom(0, 4);
      if signature == OLD_EEPROM_SIGNATURE {
        var pidvid := ReadEeprom(OLD_PID_VID_ADDR, 4);
        var vidpid := [pidvid[2], pidvid[3], pidvid[0], pidvid[1]];
        var data := ReadEeprom(OLD_DATA_ADDR, 36);
        WriteEeprom(HEADER_ADDR, EEPROM_DATA_HEADER);
        WriteEeprom(NEW_VID_PID_ADDR, vidpid);
        WriteEeprom(NEW_DATA_ADDR, data);
      }
      WriteEeprom(0, image[..done]);
      r := if done == |image| then Success else Failure;
    }

    /** `unload-bootloader`. */
    method UnloadBootloader() returns (r: Exit)
      requires Valid()
      modifies mem
      ensures r.Success? <==> old(mem[..4]) == [0x43, 0x59, 0x1A, 0xB0]
      ensures mem[..] == if r.Success? then Unloaded(old(mem[..])) else old(mem[..])
    {
      var signature := ReadEeprom(0, 4);
      if signature != NEW_EEPROM_SIGNATURE {
        return Failure;
      }
      var vidpid := ReadEeprom(NEW_VID_PID_ADDR, 4);
      var data := ReadEeprom(NEW_DATA_ADDR, 36);
      var head := OLD_EEPROM_SIGNATURE + [vidpid[2], vidpid[3], vidpid[0], vidpid[1]];
      r := WriteAndVerifyHead(head);
      if r.Failure? { return Failure; }
      WriteEeprom(OLD_DATA_ADDR, data);
    }

    /** `init-device` with a serial number. */
    method InitDevice(vid: nat, pid: nat, serial: seq<Byte>) returns (r: Exit)
      requires Valid() && vid < 0x10000 && pid < 0x10000
      modifies mem
      ensures r.Success? <==> 1 <= |serial| <= 7
      ensures mem[..] == if r.Success? then Initialised(old(mem[..]), vid, pid, serial) else old(mem[..])
    {
      if |serial| == 0 || |serial| >= SERIAL_LENGTH - 1 {
        return Failure;
      }
      r := WriteAndVerifyHead(InitHead(vid, pid));
      if r.Failure? { return Failure; }
      assert mem[..][..4] == OLD_EEPROM_SIGNATURE by {
        ReadBack(old(mem[..]), 0, InitHead(vid, pid), 0, 4);
        assert InitHead(vid, pid)[0..4] == OLD_EEPROM_SIGNATURE;
      }
      assert mem[..4] == mem[..][..4] && mem[..4][2] == 0x14;
      var at, _ := DataAddress();
      WriteEeprom(at + SERIAL_OFFSET, serial + [0]);
    }

    /** `blank-eeprom`: page by page, every byte becomes 0xFF. */
    method Blank()
      requires Valid()
      modifies mem
      ensures forall k :: 0 <= k < EEPROM_SIZE ==> mem[k] == 0xFF
    {
      var highBytes := (EEPROM_SIZE / 0x100) % 0x100;
      for i := 0 to highBytes
        invariant forall k :: 0 <= k < 0x100 * i ==> mem[k] == 0xFF
      {
        var j := 0;
        while j < 0x100
          invariant 0 <= j <= 0x100 && j % 0x40 == 0
          invariant forall k :: 0 <= k < 0x100 * i + j ==> mem[k] == 0xFF
        {
          ghost var before := mem[..];
          WriteEeprom(0x100 * i + j, seq(0x40, _ => 0xFF));
          assert forall k :: 0 <= k < 0x100 * i + j ==> mem[k] == mem[..][k] == before[k];
          assert forall k :: 0x100 * i + j <= k < 0x100 * i + j + 0x40 ==> mem[k] == mem[..][k];
          j := j + 0x40;
        }
      }
    }

    /** `dump-eeprom`: the pages read make up the whole memory. */
    method Dump() returns (file: seq<Byte>)
      requires Valid()
      ensures file == mem[..]
    {
      file := [];
      var highBytes := (EEPROM_SIZE / 0x100) % 0x100;
      for i := 0 to highBytes
        invariant file == mem[..0x100 * i]
      {
        var data := ReadEeprom(0x100 * i, 0x100);
        file := file + data;
      }
    }
  }

  lemma WrittenNext(m: Memory, at: nat, data: seq<Byte>, i: nat)
    requires at + |data| <= EEPROM_SIZE && i < |data|
    ensures Written(m, at, data[..i])[at + i := data[i]] == Written(m, at, data[..i + 1])
  {
  }
}
