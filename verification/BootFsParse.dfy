/**
 Reading a boot filesystem image back: iter_fd, check_entry and from_binary of
 scripts/tt_boot_fs.py.
 */
module BootFsParse {
  import opened Bytes
  import opened Wrappers
  import opened BootFs

  datatype Fd = Fd(
    spiAddr: nat,
    copyDest: nat,
    flags: nat,
    dataCrc: nat,
    securityFlags: nat,
    imageTag: bytes,
    fdCrc: nat)
  {
    function ImageSize(): nat { flags % MAX_IMAGE }
    predicate Invalid() { flags / MAX_IMAGE % 2 == 1 }
    predicate Executable() { flags / 0x200_0000 % 2 == 1 }
  }

  function FdOf(b: bytes): Fd
    requires |b| == FD_SIZE
  {
    Fd(U32(b[0..4]), U32(b[4..8]), U32(b[8..12]), U32(b[12..16]), U32(b[16..20]), b[20..28], U32(b[28..32]))
  }

  // image_tag_str: the characters before the first NUL.
  function TagStr(b: bytes): string {
    if b == [] || b[0] == 0 then "" else [b[0] as char] + TagStr(b[1..])
  }

  // iter_fd from an address: valid descriptors up to the first invalid one.
  function ScanFds(data: bytes, addr: nat): Result<seq<Fd>>
    decreases if addr < |data| then |data| - addr else 0
  {
    if addr + FD_SIZE > |data| then Err("buffer too small")
    else
      var fd := FdOf(data[addr..addr + FD_SIZE]);
      if fd.Invalid() then Ok([])
      else
        var rest :- ScanFds(data, addr + FD_SIZE);
        Ok([fd] + rest)
  }

  function Tags(fds: seq<Fd>): (t: seq<string>)
    ensures |t| == |fds| && forall i :: 0 <= i < |fds| ==> t[i] == TagStr(fds[i].imageTag)
  {
    seq(|fds|, i requires 0 <= i < |fds| => TagStr(fds[i].imageTag))
  }

  // The fds dictionary: a later descriptor with the same tag wins.
  function FdMap(fds: seq<Fd>): (m: map<string, Fd>)
    ensures forall i :: 0 <= i < |fds| ==> TagStr(fds[i].imageTag) in m
  {
    if fds == [] then map[]
    else FdMap(fds[..|fds| - 1])[TagStr(fds[|fds| - 1].imageTag) := fds[|fds| - 1]]
  }

  predicate ChecksumExempt(tag: string) {
    tag == "boardcfg" || tag == "ccfgovra" || tag == "ccfgovrb"
  }

  // BootFs.check_entry
  function CheckEntry(tag: string, fd: Fd, data: bytes, alignment: nat): Result<FsEntry>
    requires alignment > 0
  {
    if fd.spiAddr % alignment != 0 then Err("not aligned")
    else if |data| < fd.ImageSize() + 4 then Err("too small")
    else
      var image := Slice(data, fd.spiAddr, fd.spiAddr + fd.ImageSize());
      if fd.dataCrc != Checksum(image) && !ChecksumExempt(tag) then Err("checksum")
      else Ok(FsEntry(false, tag, image, fd.spiAddr, fd.copyDest, fd.Executable()))
  }

  function CheckAll(order: seq<string>, fds: map<string, Fd>, data: bytes,
          alignment: nat): (r: Result<map<string, FsEntry>>)
    requires alignment > 0 && forall i :: 0 <= i < |order| ==> order[i] in fds
  {
    if order == [] then Ok(map[])
    else
      var n := |order| - 1;
      var entries :- CheckAll(order[..n], fds, data, alignment);
      var e :- CheckEntry(order[n], fds[order[n]], data, alignment);
      Ok(entries[order[n] := e])
  }

  // BootFs.from_binary
  function Parse(data: bytes, alignment: nat): Result<FileSystem>
    requires alignment > 0
  {
    var fds :- ScanFds(data, 0);
    if |data| < FAILOVER_HEAD_ADDR + FD_SIZE then Err("recovery descriptor not found")
    else if |data| < SPI_RX_ADDR + 4 then Err("no spi rx training")
    else if U32(data[SPI_RX_ADDR..SPI_RX_ADDR + 4]) != SPI_RX_VALUE then Err("bad spi rx training")
    else
      var entries :- CheckAll(Tags(fds), FdMap(fds), data, alignment);
      var head := FdOf(data[FAILOVER_HEAD_ADDR..FAILOVER_HEAD_ADDR + FD_SIZE]);
      var failover :- CheckEntry(FAILOVER, head, data, alignment);
      Ok(FileSystem(Tags(fds), entries[FAILOVER := failover]))
  }

  // ---- What the parser accepts, on the bytes -----------------------------------------------------

  // The little-endian word at address a.
  function WordAt(data: bytes, a: nat): nat
    requires a + 4 <= |data|
  {
    data[a] as int + 0x100 * (data[a + 1] as int) + 0x1_0000 * (data[a + 2] as int) + 0x100_0000 * (data[a + 3] as int)
  }

  // A table of n descriptors, each with an even byte 11, and a slot with an odd one.
  predicate TableOf(data: bytes, n: nat) {
    && 32 * n + 32 <= |data| && data[32 * n + 11] % 2 == 1
    && forall j :: 0 <= j < n ==> data[32 * j + 11] % 2 == 0
  }

  // The descriptor at address a has tag t: up to eight bytes, ended by a zero if fewer.
  predicate HasTag(data: bytes, a: nat, t: string)
    requires a + 32 <= |data|
  {
    && |t| <= 8 && (|t| < 8 ==> data[a + 20 + |t|] == 0)
    && forall i {:trigger t[i]} :: 0 <= i < |t| ==> data[a + 20 + i] != 0 && t[i] as int == data[a + 20 + i]
  }

  // The payload of the descriptor at address a, as far as the data goes.
  function ImageAt(data: bytes, a: nat): bytes
    requires a + 32 <= |data|
  {
    Slice(data, WordAt(data, a), WordAt(data, a) + SizeAt(data, a))
  }

  // The image size, in the lower three bytes of the flags.
  function SizeAt(data: bytes, a: nat): nat
    requires a + 32 <= |data|
  {
    data[a + 8] as int + 0x100 * (data[a + 9] as int) + 0x1_0000 * (data[a + 10] as int)
  }

  // The descriptor at address a passes its check.
  predicate Passes(data: bytes, a: nat, alignment: nat, exempt: bool)
    requires a + 32 <= |data| && alignment > 0
  {
    && WordAt(data, a) % alignment == 0
    && SizeAt(data, a) + 4 <= |data|
    && (exempt || Checksum(ImageAt(data, a)) == WordAt(data, a + 12))
  }

  ghost predicate Exempt(data: bytes, a: nat)
    requires a + 32 <= |data|
  {
    HasTag(data, a, "boardcfg") || HasTag(data, a, "ccfgovra") || HasTag(data, a, "ccfgovrb")
  }

  // Slot j of a table of n is the last with its tag.
  ghost predicate Wins(data: bytes, n: nat, j: nat)
    requires 32 * n <= |data|
  {
    j < n && forall k, t :: j < k < n && HasTag(data, 32 * j, t) ==> !HasTag(data, 32 * k, t)
  }

  // The training value at its address.
  predicate Trained(data: bytes) {
    && |data| >= 0x14000
    && data[0x13FFC] == 0x5A && data[0x13FFD] == 0x5A && data[0x13FFE] == 0xA5 && data[0x13FFF] == 0xA5
  }

  // Everything from_binary asks of an image with a table of n descriptors.
  ghost predicate Acceptable(data: bytes, alignment: nat, n: nat)
    requires alignment > 0
  {
    && TableOf(data, n) && Trained(data)
    && (forall j: nat :: Wins(data, n, j) ==> Passes(data, 32 * j, alignment, Exempt(data, 32 * j)))
    && Passes(data, 0x4000, alignment, false)
  }

  function EntryAt(data: bytes, a: nat, t: string): FsEntry
    requires a + 32 <= |data|
  {
    FsEntry(false, t, ImageAt(data, a), WordAt(data, a), WordAt(data, a + 4), data[a + 11] / 2 % 2 == 1)
  }

  // What is read from it: the tags in the order of the table, and for each the entry that
  // the last descriptor with that tag describes.
  ghost predicate Reads(data: bytes, n: nat, fs: FileSystem) {
    && TableOf(data, n) && |data| >= 0x14000
    && |fs.order| == n && (forall j :: 0 <= j < n ==> HasTag(data, 32 * j, fs.order[j]))
    && (forall t :: t in fs.entries <==> t == "failover" || t in fs.order)
    && (forall j: nat :: Wins(data, n, j) && fs.order[j] != "failover" ==>
          fs.entries[fs.order[j]] == EntryAt(data, 32 * j, fs.order[j]))
    && fs.entries["failover"] == EntryAt(data, 0x4000, "failover")
  }

  function FdAt(data: bytes, a: nat): Fd
    requires a + 32 <= |data|
  {
    FdOf(data[a..a + 32])
  }

  lemma FdFields(data: bytes, a: nat)
    requires a + 32 <= |data|
    ensures var fd := FdAt(data, a);
      && fd.spiAddr == WordAt(data, a) && fd.copyDest == WordAt(data, a + 4) && fd.dataCrc == WordAt(data, a + 12)
      && fd.ImageSize() == SizeAt(data, a) && (fd.Invalid() <==> data[a + 11] % 2 == 1)
      && (fd.Executable() <==> data[a + 11] / 2 % 2 == 1) && fd.imageTag == data[a + 20..a + 28]
  {
    var b := data[a..a + 32];
    forall k | 0 <= k < 32 ensures b[k] == data[a + k] {
    }
    WordOf(b, data, a, 0);
    WordOf(b, data, a, 4);
    WordOf(b, data, a, 8);
    WordOf(b, data, a, 12);
    FlagParts(SizeAt(data, a), data[a + 11]);
    assert b[20..28] == data[a + 20..a + 28];
  }

  lemma WordOf(b: bytes, data: bytes, a: nat, k: nat)
    requires |b| == 32 && a + 32 <= |data| && k + 4 <= 32 && forall i :: 0 <= i < 32 ==> b[i] == data[a + i]
    ensures U32(b[k..k + 4]) == WordAt(data, a + k)
  {
    var w := b[k..k + 4];
    assert w[0] == b[k] && w[1] == b[k + 1] && w[2] == b[k + 2] && w[3] == b[k + 3];
  }

  lemma FlagParts(size: nat, d: byte)
    requires size < MAX_IMAGE
    ensures var f := size + 0x100_0000 * d;
      f % MAX_IMAGE == size && f / MAX_IMAGE % 2 == d % 2 && f / 0x200_0000 % 2 == d / 2 % 2
  {
    var f := size + 0x100_0000 * d;
    assert f / MAX_IMAGE == d;
    assert d == 2 * (d / 2) + d % 2;
    assert f == 0x200_0000 * (d / 2) + (0x100_0000 * (d % 2) + size);
    assert f / 0x200_0000 == d / 2;
  }

  // t is what b holds before its first zero.
  predicate Spells(b: bytes, t: string) {
    && |t| <= |b| && (|t| < |b| ==> b[|t|] == 0)
    && forall i :: 0 <= i < |t| ==> b[i] != 0 && t[i] as int == b[i]
  }

  lemma SpellsRest(b: bytes, t: string)
    requires b != [] && t != [] && b[0] != 0 && t[0] as int == b[0]
    ensures Spells(b, t) <==> Spells(b[1..], t[1..])
  {
    if Spells(b[1..], t[1..]) {
      forall i | 0 < i < |t| ensures b[i] != 0 && t[i] as int == b[i] {
        assert b[1..][i - 1] == b[i] && t[1..][i - 1] == t[i];
      }
    }
  }

  lemma {:induction false} TagStrExact(b: bytes, t: string)
    ensures t == TagStr(b) <==> Spells(b, t)
    decreases |b|
  {
    if b != [] && b[0] != 0 && t != [] && t[0] as int == b[0] {
      TagStrExact(b[1..], t[1..]);
      SpellsRest(b, t);
      assert t == [t[0]] + t[1..];
      assert t[0] == b[0] as char;
    }
  }

  lemma SpelledAt(data: bytes, a: nat, t: string)
    requires a + 32 <= |data|
    ensures HasTag(data, a, t) <==> Spells(data[a + 20..a + 28], t)
  {
    var b := data[a + 20..a + 28];
    forall i | 0 <= i < 8 ensures b[i] == data[a + 20 + i] {
    }
    if |t| < 8 {
      assert b[|t|] == data[a + 20 + |t|];
    }
    if HasTag(data, a, t) {
      forall i | 0 <= i < |t| ensures b[i] != 0 && t[i] as int == b[i] {
        assert t[i] as int == data[a + 20 + i];
      }
    }
    if Spells(b, t) {
      forall i | 0 <= i < |t| ensures data[a + 20 + i] != 0 && t[i] as int == data[a + 20 + i] {
        assert b[i] == data[a + 20 + i];
      }
    }
  }

  lemma TagExact(data: bytes, a: nat, t: string)
    requires a + 32 <= |data|
    ensures HasTag(data, a, t) <==> t == TagStr(FdAt(data, a).imageTag)
  {
    FdFields(data, a);
    SpelledAt(data, a, t);
    TagStrExact(data[a + 20..a + 28], t);
  }

  // The first n descriptors of the data.
  function Table(data: bytes, n: nat): (fds: seq<Fd>)
    requires 32 * n <= |data|
    ensures |fds| == n && forall j :: 0 <= j < n ==> fds[j] == FdAt(data, 32 * j)
  {
    seq(n, j requires 0 <= j < n => FdAt(data, 32 * j))
  }

  // iter_fd from slot i on reads exactly the slots up to the first odd flag byte.
  lemma {:induction false} ScanReads(data: bytes, n: nat, i: nat)
    requires TableOf(data, n) && i <= n
    ensures ScanFds(data, 32 * i) == Ok(Table(data, n)[i..])
    decreases n - i
  {
    FdFields(data, 32 * i);
    if i < n {
      assert data[32 * i + 11] % 2 == 0;
      ScanReads(data, n, i + 1);
      assert 32 * (i + 1) == 32 * i + 32;
      assert Table(data, n)[i..] == [FdAt(data, 32 * i)] + Table(data, n)[i + 1..];
    } else {
      assert Table(data, n)[i..] == [];
    }
  }

  lemma {:induction false} ScanFindsEnd(data: bytes, i: nat) returns (n: nat)
    requires ScanFds(data, 32 * i).Ok? && forall j :: 0 <= j < i ==> 32 * j + 32 <= |data| && data[32 * j + 11] % 2 == 0
    ensures TableOf(data, n)
    decreases |data| - 32 * i
  {
    FdFields(data, 32 * i);
    if FdAt(data, 32 * i).Invalid() {
      n := i;
    } else {
      assert 32 * (i + 1) == 32 * i + 32;
      n := ScanFindsEnd(data, i + 1);
    }
  }

  lemma {:induction false} FdMapKeys(fds: seq<Fd>, t: string)
    ensures t in FdMap(fds) <==> t in Tags(fds)
  {
    if fds != [] {
      var n := |fds| - 1;
      FdMapKeys(fds[..n], t);
      assert Tags(fds) == Tags(fds[..n]) + [TagStr(fds[n].imageTag)];
    }
  }

  // The last descriptor with a tag wins.
  ghost predicate LastWith(fds: seq<Fd>, j: nat, t: string) {
    && j < |fds| && TagStr(fds[j].imageTag) == t
    && forall k :: j < k < |fds| ==> TagStr(fds[k].imageTag) != t
  }

  lemma {:induction false} FdMapLast(fds: seq<Fd>, j: nat, t: string)
    requires LastWith(fds, j, t)
    ensures t in FdMap(fds) && FdMap(fds)[t] == fds[j]
  {
    if j < |fds| - 1 {
      assert LastWith(fds[..|fds| - 1], j, t);
      FdMapLast(fds[..|fds| - 1], j, t);
    }
  }

  lemma {:induction false} SomeLast(fds: seq<Fd>, t: string) returns (j: nat)
    requires t in Tags(fds)
    ensures LastWith(fds, j, t)
  {
    var n := |fds| - 1;
    if TagStr(fds[n].imageTag) == t {
      j := n;
    } else {
      assert Tags(fds) == Tags(fds[..n]) + [TagStr(fds[n].imageTag)];
      j := SomeLast(fds[..n], t);
    }
  }

  lemma WinsExact(data: bytes, n: nat, j: nat, t: string)
    requires 32 * n <= |data| && j < n && HasTag(data, 32 * j, t)
    ensures Wins(data, n, j) <==> LastWith(Table(data, n), j, t)
  {
    TagExact(data, 32 * j, t);
    forall k | 0 <= k < n ensures HasTag(data, 32 * k, t) <==> TagStr(FdAt(data, 32 * k).imageTag) == t {
      TagExact(data, 32 * k, t);
    }
    if LastWith(Table(data, n), j, t) {
      forall k, u | j < k < n && HasTag(data, 32 * j, u) ensures !HasTag(data, 32 * k, u) {
        TagExact(data, 32 * j, u);
        assert TagStr(Table(data, n)[k].imageTag) != t;
      }
    }
  }

  lemma {:induction false} CheckAllExact(order: seq<string>, m: map<string, Fd>, data: bytes, alignment: nat)
    requires alignment > 0 && forall i :: 0 <= i < |order| ==> order[i] in m
    ensures CheckAll(order, m, data, alignment).Ok?
       <==> forall i :: 0 <= i < |order| ==> CheckEntry(order[i], m[order[i]], data, alignment).Ok?
  {
    if order != [] {
      var n := |order| - 1;
      var init := order[..n];
      CheckAllExact(init, m, data, alignment);
      assert forall i :: 0 <= i < n ==> init[i] == order[i];
      if CheckAll(order, m, data, alignment).Ok? {
        assert CheckAll(init, m, data, alignment).Ok? && CheckEntry(order[n], m[order[n]], data, alignment).Ok?;
      }
    }
  }

  lemma {:induction false} CheckAllReads(order: seq<string>, m: map<string, Fd>, data: bytes, alignment: nat)
    requires alignment > 0 && forall i :: 0 <= i < |order| ==> order[i] in m
    requires CheckAll(order, m, data, alignment).Ok?
    ensures var entries := CheckAll(order, m, data, alignment).value;
      && (forall t :: t in entries <==> t in order)
      && (forall i :: 0 <= i < |order| ==> CheckEntry(order[i], m[order[i]], data, alignment) == Ok(entries[order[i]]))
  {
    if order != [] {
      var n := |order| - 1;
      CheckAllReads(order[..n], m, data, alignment);
      assert order == order[..n] + [order[n]];
    }
  }

  lemma CheckExact(tag: string, data: bytes, a: nat, alignment: nat)
    requires alignment > 0 && a + 32 <= |data|
    ensures CheckEntry(tag, FdAt(data, a), data, alignment).Ok? <==> Passes(data, a, alignment, ChecksumExempt(tag))
    ensures CheckEntry(tag, FdAt(data, a), data, alignment).Ok?
      ==> CheckEntry(tag, FdAt(data, a), data, alignment).value == EntryAt(data, a, tag)
  {
    FdFields(data, a);
  }

  lemma ExemptExact(data: bytes, a: nat, t: string)
    requires a + 32 <= |data| && HasTag(data, a, t)
    ensures Exempt(data, a) <==> ChecksumExempt(t)
  {
    TagExact(data, a, t);
    TagExact(data, a, "boardcfg");
    TagExact(data, a, "ccfgovra");
    TagExact(data, a, "ccfgovrb");
  }

  lemma TrainedExact(data: bytes)
    requires |data| >= 0x14000
    ensures Trained(data) <==> U32(data[SPI_RX_ADDR..SPI_RX_ADDR + 4]) == SPI_RX_VALUE
  {
    var w := data[SPI_RX_ADDR..SPI_RX_ADDR + 4];
    assert w[0] == data[0x13FFC] && w[1] == data[0x13FFD] && w[2] == data[0x13FFE] && w[3] == data[0x13FFF];
  }

  // The winner for a tag passes check_entry exactly when its slot passes.
  lemma WinnerExact(data: bytes, alignment: nat, n: nat, j: nat)
    requires alignment > 0 && TableOf(data, n) && Wins(data, n, j)
    ensures var t := TagStr(FdAt(data, 32 * j).imageTag);
      var m := FdMap(Table(data, n));
      && HasTag(data, 32 * j, t) && t in m && m[t] == FdAt(data, 32 * j)
      && (CheckEntry(t, m[t], data, alignment).Ok? <==> Passes(data, 32 * j, alignment, Exempt(data, 32 * j)))
  {
    var t := TagStr(FdAt(data, 32 * j).imageTag);
    TagExact(data, 32 * j, t);
    WinsExact(data, n, j, t);
    FdMapLast(Table(data, n), j, t);
    CheckExact(t, data, 32 * j, alignment);
    ExemptExact(data, 32 * j, t);
  }

  lemma SlotWinner(data: bytes, n: nat, i: nat) returns (j: nat)
    requires TableOf(data, n) && i < n
    ensures Wins(data, n, j) && TagStr(FdAt(data, 32 * j).imageTag) == TagStr(FdAt(data, 32 * i).imageTag)
  {
    var fds, t := Table(data, n), TagStr(FdAt(data, 32 * i).imageTag);
    assert Tags(fds)[i] == t;
    j := SomeLast(fds, t);
    TagExact(data, 32 * j, t);
    WinsExact(data, n, j, t);
  }

  lemma TableChecks(data: bytes, alignment: nat, n: nat)
    requires alignment > 0 && TableOf(data, n)
    ensures CheckAll(Tags(Table(data, n)), FdMap(Table(data, n)), data, alignment).Ok?
       <==> forall j: nat :: Wins(data, n, j) ==> Passes(data, 32 * j, alignment, Exempt(data, 32 * j))
  {
    var fds := Table(data, n);
    CheckAllExact(Tags(fds), FdMap(fds), data, alignment);
    if CheckAll(Tags(fds), FdMap(fds), data, alignment).Ok? {
      forall j: nat | Wins(data, n, j) ensures Passes(data, 32 * j, alignment, Exempt(data, 32 * j)) {
        WinnerExact(data, alignment, n, j);
        assert Tags(fds)[j] == TagStr(FdAt(data, 32 * j).imageTag);
      }
    } else {
      var i :| 0 <= i < n && CheckEntry(Tags(fds)[i], FdMap(fds)[Tags(fds)[i]], data, alignment).Err?;
      var j := SlotWinner(data, n, i);
      WinnerExact(data, alignment, n, j);
    }
  }

  lemma TableUnique(data: bytes, n: nat, m: nat)
    requires TableOf(data, n) && TableOf(data, m)
    ensures n == m
  {
  }

  /** Over all byte strings: from_binary succeeds exactly on those that have a table which
      ends, the training value, and only descriptors that pass, the failover descriptor
      included. */
  lemma ParseAccepts(data: bytes, alignment: nat)
    requires alignment > 0
    ensures Parse(data, alignment).Ok? <==> exists n: nat :: Acceptable(data, alignment, n)
  {
    if n: nat :| TableOf(data, n) {
      ScanReads(data, n, 0);
      assert Table(data, n)[0..] == Table(data, n);
      forall m: nat | TableOf(data, m) ensures m == n {
        TableUnique(data, n, m);
      }
      if |data| >= 0x14000 {
        TrainedExact(data);
        TableChecks(data, alignment, n);
        CheckExact(FAILOVER, data, 0x4000, alignment);
        assert Parse(data, alignment).Ok? <==> Acceptable(data, alignment, n);
      }
    } else if ScanFds(data, 0).Ok? {
      var n := ScanFindsEnd(data, 0);
    }
  }

  lemma EntriesRead(data: bytes, alignment: nat, n: nat, entries: map<string, FsEntry>, j: nat)
    requires alignment > 0 && TableOf(data, n) && Wins(data, n, j)
    requires CheckAll(Tags(Table(data, n)), FdMap(Table(data, n)), data, alignment) == Ok(entries)
    ensures var t := Tags(Table(data, n))[j]; t in entries && entries[t] == EntryAt(data, 32 * j, t)
  {
    var fds := Table(data, n);
    CheckAllReads(Tags(fds), FdMap(fds), data, alignment);
    WinnerExact(data, alignment, n, j);
    CheckExact(Tags(fds)[j], data, 32 * j, alignment);
  }

  lemma ParseParts(data: bytes, alignment: nat, n: nat) returns (entries: map<string, FsEntry>)
    requires alignment > 0 && Parse(data, alignment).Ok? && TableOf(data, n)
    ensures |data| >= 0x14000
    ensures CheckAll(Tags(Table(data, n)), FdMap(Table(data, n)), data, alignment) == Ok(entries)
    ensures Parse(data, alignment).value
         == FileSystem(Tags(Table(data, n)), entries[FAILOVER := EntryAt(data, 0x4000, FAILOVER)])
  {
    ScanReads(data, n, 0);
    assert Table(data, n)[0..] == Table(data, n);
    CheckExact(FAILOVER, data, 0x4000, alignment);
    entries := CheckAll(Tags(Table(data, n)), FdMap(Table(data, n)), data, alignment).value;
  }

  /** What it returns is what the descriptors say. */
  lemma ParseReads(data: bytes, alignment: nat) returns (n: nat)
    requires alignment > 0 && Parse(data, alignment).Ok?
    ensures Reads(data, n, Parse(data, alignment).value)
  {
    n := ScanFindsEnd(data, 0);
    var entries := ParseParts(data, alignment, n);
    var order := Tags(Table(data, n));
    CheckAllReads(order, FdMap(Table(data, n)), data, alignment);
    forall j | 0 <= j < n ensures HasTag(data, 32 * j, order[j]) {
      TagExact(data, 32 * j, order[j]);
    }
    forall j: nat | Wins(data, n, j)
      ensures order[j] in entries && entries[order[j]] == EntryAt(data, 32 * j, order[j])
    {
      EntriesRead(data, alignment, n, entries, j);
    }
  }

  // The scan loop of from_binary.
  method ReadTable(data: bytes) returns (r: Result<seq<Fd>>)
    ensures r == ScanFds(data, 0)
  {
    var fds: seq<Fd> := [];
    var addr := 0;
    assert ScanFds(data, 0).Ok? ==> fds + ScanFds(data, 0).value == ScanFds(data, 0).value;
    while true
      invariant 0 <= addr && (addr > 0 ==> addr <= |data|)
      invariant ScanFds(data, 0) ==
        match ScanFds(data, addr) case Ok(rest) => Ok(fds + rest) case Err(e) => Err(e)
      decreases |data| - addr
    {
      if addr + FD_SIZE > |data| {
        return Err("buffer too small");
      }
      var fd := FdOf(data[addr..addr + FD_SIZE]);
      if fd.Invalid() {
        assert fds + [] == fds;
        return Ok(fds);
      }
      assert forall rest: seq<Fd> :: (fds + [fd]) + rest == fds + ([fd] + rest);
      fds := fds + [fd];
      addr := addr + FD_SIZE;
    }
  }

  method CheckEntries(fds: seq<Fd>, data: bytes, alignment: nat) returns (r: Result<map<string, FsEntry>>)
    requires alignment > 0
    ensures r == CheckAll(Tags(fds), FdMap(fds), data, alignment)
  {
    var order, table := Tags(fds), FdMap(fds);
    var entries: map<string, FsEntry> := map[];
    var i := 0;
    while i < |order|
      invariant 0 <= i <= |order|
      invariant CheckAll(order[..i], table, data, alignment) == Ok(entries)
    {
      assert order[..i + 1][..i] == order[..i];
      var e := CheckEntry(order[i], table[order[i]], data, alignment);
      if e.Err? {
        PrefixFails(order, i + 1, table, data, alignment);
        return Err(e.error);
      }
      entries := entries[order[i] := e.value];
      i := i + 1;
    }
    assert order[..i] == order;
    r := Ok(entries);
  }

  lemma {:induction false} PrefixFails(order: seq<string>, k: nat, fds: map<string, Fd>, data: bytes, alignment: nat)
    requires alignment > 0 && k <= |order| && forall i :: 0 <= i < |order| ==> order[i] in fds
    requires CheckAll(order[..k], fds, data, alignment).Err?
    ensures CheckAll(order, fds, data, alignment) == CheckAll(order[..k], fds, data, alignment)
    decreases |order|
  {
    if k == |order| {
      assert order[..k] == order;
    } else {
      var n := |order| - 1;
      assert order[..n][..k] == order[..k];
      PrefixFails(order[..n], k, fds, data, alignment);
    }
  }

  // BootFs.from_binary
  method FromBinary(data: bytes, alignment: nat) returns (r: Result<FileSystem>)
    requires alignment > 0
    ensures r == Parse(data, alignment)
    ensures r.Ok? <==> exists n: nat :: Acceptable(data, alignment, n)
    ensures r.Ok? ==> exists n: nat :: Reads(data, n, r.value)
  {
    ParseAccepts(data, alignment);
    if Parse(data, alignment).Ok? {
      var n := ParseReads(data, alignment);
    }
    var table := ReadTable(data);
    if table.Err? {
      return Err(table.error);
    }
    var fds := table.value;
    if |data| < FAILOVER_HEAD_ADDR + FD_SIZE {
      return Err("recovery descriptor not found");
    }
    var failoverFd := FdOf(data[FAILOVER_HEAD_ADDR..FAILOVER_HEAD_ADDR + FD_SIZE]);
    if |data| < SPI_RX_ADDR + 4 {
      return Err("no spi rx training");
    }
    if U32(data[SPI_RX_ADDR..SPI_RX_ADDR + 4]) != SPI_RX_VALUE {
      return Err("bad spi rx training");
    }
    var entries := CheckEntries(fds, data, alignment);
    if entries.Err? {
      return Err(entries.error);
    }
    var failover := CheckEntry(FAILOVER, failoverFd, data, alignment);
    if failover.Err? {
      return Err(failover.error);
    }
    r := Ok(FileSystem(Tags(fds), entries.value[FAILOVER := failover.value]));
  }
}
