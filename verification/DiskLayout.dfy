/** create_disk_layout without reorder data (src/disk_utils.cpp:849-1099) and the addressing used to read it back
    (src/pq_flash_index.cpp:103-123). Bytes are numbers below 256; integers are little-endian. */
module DiskLayout {
  import opened Blocks
  import opened GraphFile

  const SECTOR_LEN: nat := 4096
  const META_FIELDS: nat := 9

  function Pow256(n: nat): (r: nat)
    ensures r > 0
  {
    if n == 0 then 1 else 256 * Pow256(n - 1)
  }

  function Bytes(v: nat, n: nat): (r: seq<nat>)
    ensures |r| == n
  {
    if n == 0 then [] else [v % 256] + Bytes(v / 256, n - 1)
  }

  function Number(b: seq<nat>): nat {
    if b == [] then 0 else b[0] + 256 * Number(b[1..])
  }

  lemma {:induction false} NumberOfBytes(v: nat, n: nat)
    requires v < Pow256(n)
    ensures Number(Bytes(v, n)) == v
  {
    if n > 0 {
      NumberOfBytes(v / 256, n - 1);
      assert Bytes(v, n)[1..] == Bytes(v / 256, n - 1);
    }
  }

  /** Little-endian: byte i is the i-th digit to base 256. */
  lemma {:induction false} ByteAt(v: nat, n: nat, i: nat)
    requires i < n
    ensures Bytes(v, n)[i] == v / Pow256(i) % 256
  {
    if i > 0 {
      ByteAt(v / 256, n - 1, i - 1);
      DivTwice(v, 256, Pow256(i - 1));
    }
  }

  lemma DivTwice(v: nat, a: nat, b: nat)
    requires a > 0 && b > 0
    ensures a * b > 0 && v / a / b == v / (a * b)
  {
    var q, r := v / a, v % a;
    var p, t := q / b, q % b;
    assert v == a * q + r && q == b * p + t;
    assert a * (b * p + t) + r == (a * b) * p + (a * t + r);
    assert a * t + r < a * b by {
      MulLe(t + 1, b, a);
    }
    DivUnique(p, a * b, a * t + r);
  }

  function AllBytes(s: seq<nat>): (r: seq<nat>)
    ensures |r| == 4 * |s|
  {
    if s == [] then [] else Bytes(s[0], 4) + AllBytes(s[1..])
  }

  function Numbers(b: seq<nat>, n: nat): (r: seq<nat>)
    requires 4 * n <= |b|
    ensures |r| == n
  {
    if n == 0 then [] else [Number(b[..4])] + Numbers(b[4..], n - 1)
  }

  lemma {:induction false} NumbersOfBytes(s: seq<nat>, tail: seq<nat>)
    requires forall i :: 0 <= i < |s| ==> s[i] < Pow256(4)
    ensures Numbers(AllBytes(s) + tail, |s|) == s
  {
    if s != [] {
      var b := AllBytes(s) + tail;
      NumberOfBytes(s[0], 4);
      assert b[..4] == Bytes(s[0], 4);
      assert b[4..] == AllBytes(s[1..]) + tail;
      NumbersOfBytes(s[1..], tail);
    }
  }

  function Zeros(n: nat): (r: seq<nat>)
    ensures |r| == n
  {
    seq(n, _ => 0)
  }

  // ---- geometry ----

  // The shape of an index: points, bytes of coordinates per point, degree field of the graph file.
  datatype Shape = Shape(npts: nat, coordBytes: nat, width: nat) {
    function MaxNodeLen(): (r: nat)
      ensures r >= 4
    {
      (width + 1) * 4 + coordBytes
    }

    // 0 when a node needs more than one sector
    function NodesPerSector(): nat {
      SECTOR_LEN / MaxNodeLen()
    }

    function SectorsPerNode(): nat {
      DivRoundUp(MaxNodeLen(), SECTOR_LEN)
    }

    function NumSectors(): nat {
      var k := NodesPerSector();
      if k > 0 then RoundUpCovers(npts, k); RoundUp(npts, k) / k else npts * SectorsPerNode()
    }

    function FileSize(): nat {
      (NumSectors() + 1) * SECTOR_LEN
    }

    // get_node_sector and offset_to_node
    function NodeSector(i: nat): nat {
      1 + if NodesPerSector() > 0 then i / NodesPerSector() else i * SectorsPerNode()
    }

    function OffsetInSector(i: nat): nat {
      if NodesPerSector() == 0 then 0 else (i % NodesPerSector()) * MaxNodeLen()
    }

    function NodeOffset(i: nat): nat {
      NodeSector(i) * SECTOR_LEN + OffsetInSector(i)
    }
  }

  /** Where a node is, in plain numbers: after the metadata sector, as many whole nodes to a sector as fit, or as many
      whole sectors to a node as it takes; and how long the file is. */
  lemma Addresses(s: Shape, i: nat)
    ensures var m := (s.width + 1) * 4 + s.coordBytes;
            var k := 4096 / m;
            && s.NodeSector(i) == 1 + (if k > 0 then i / k else i * DivRoundUp(m, 4096))
            && s.OffsetInSector(i) == (if k > 0 then i % k * m else 0)
            && s.FileSize() == (1 + if k > 0 then DivRoundUp(s.npts, k) else s.npts * DivRoundUp(m, 4096)) * 4096
  {
    var m := (s.width + 1) * 4 + s.coordBytes;
    RoundUpCovers(m, 4096);
    if 4096 / m > 0 {
      RoundUpCovers(s.npts, 4096 / m);
    }
  }

  lemma Fits(s: Shape)
    ensures s.NodesPerSector() * s.MaxNodeLen() <= SECTOR_LEN
    ensures s.SectorsPerNode() * SECTOR_LEN >= s.MaxNodeLen()
  {
    RoundUpCovers(s.MaxNodeLen(), SECTOR_LEN);
    var k, m := s.NodesPerSector(), s.MaxNodeLen();
    assert SECTOR_LEN == k * m + SECTOR_LEN % m;
  }

  /** Packed nodes stay inside one sector, regions of different nodes do not overlap, none touches the metadata sector
      and all lie within the file. */
  lemma Regions(s: Shape, i: nat, j: nat)
    requires i < j < s.npts
    ensures SECTOR_LEN <= s.NodeOffset(i)
    ensures s.NodesPerSector() > 0 ==> s.OffsetInSector(i) + s.MaxNodeLen() <= SECTOR_LEN
    ensures s.NodeOffset(i) + s.MaxNodeLen() <= s.NodeOffset(j)
    ensures s.NodeOffset(j) + s.MaxNodeLen() <= s.FileSize()
  {
    if s.NodesPerSector() > 0 {
      RegionInFile(s, i);
      RegionInFile(s, j);
      PackedApart(s, i, j);
    } else {
      RegionInFile(s, j);
      SpreadApart(s, i, j);
    }
  }

  lemma PackedApart(s: Shape, i: nat, j: nat)
    requires i < j < s.npts && s.NodesPerSector() > 0
    ensures s.NodeOffset(i) + s.MaxNodeLen() <= s.NodeOffset(j)
  {
    Fits(s);
    PackedRegions(s.npts, s.NodesPerSector(), s.MaxNodeLen(), i, j);
  }

  lemma SpreadApart(s: Shape, i: nat, j: nat)
    requires i < j < s.npts && s.NodesPerSector() == 0
    ensures SECTOR_LEN <= s.NodeOffset(i)
    ensures s.NodeOffset(i) + s.MaxNodeLen() <= s.NodeOffset(j)
  {
    Fits(s);
    SpreadRegions(s.npts, s.SectorsPerNode(), i, j);
  }

  lemma PackedRegions(npts: nat, k: nat, m: nat, i: nat, j: nat)
    requires 0 < k && k * m <= SECTOR_LEN && i < j < npts
    ensures i % k * m + m <= SECTOR_LEN && j % k * m + m <= SECTOR_LEN
    ensures i / k * SECTOR_LEN + i % k * m + m <= j / k * SECTOR_LEN + j % k * m
    ensures j / k < RoundUp(npts, k) / k
  {
    SlotFits(k, m, i % k);
    SlotFits(k, m, j % k);
    DivMod(i, k);
    DivMod(j, k);
    PackedOrder(k, m, i / k, i % k, j / k, j % k);
    LastSector(npts, k, j);
  }

  // Sector and slot numbers, with a * k + r the node.
  lemma PackedOrder(k: nat, m: nat, a: nat, r: nat, b: nat, t: nat)
    requires r < k && t < k && a * k + r < b * k + t && r * m + m <= SECTOR_LEN
    ensures a * SECTOR_LEN + r * m + m <= b * SECTOR_LEN + t * m
  {
    if b < a {
      MulLe(b + 1, a, k);
      assert false;
    } else if a == b {
      MulLe(r + 1, t, m);
    } else {
      MulLe(a + 1, b, SECTOR_LEN);
    }
  }

  lemma DivMod(i: nat, k: nat)
    requires k > 0
    ensures i == (i / k) * k + i % k
  {
  }

  lemma SpreadRegions(npts: nat, q: nat, i: nat, j: nat)
    requires i < j < npts
    ensures i * q + q <= j * q && j * q + q <= npts * q
  {
    MulLe(i + 1, j, q);
    MulLe(j + 1, npts, q);
  }

  lemma SlotFits(k: nat, m: nat, r: nat)
    requires r < k && k * m <= SECTOR_LEN
    ensures r * m + m <= SECTOR_LEN
  {
    MulLe(r + 1, k, m);
  }

  lemma LastSector(npts: nat, k: nat, j: nat)
    requires j < npts && k > 0
    ensures j / k < RoundUp(npts, k) / k
  {
    RoundUpCovers(npts, k);
    if DivRoundUp(npts, k) <= j / k {
      MulLe(DivRoundUp(npts, k), j / k, k);
    }
  }

  lemma RegionInFile(s: Shape, i: nat)
    requires i < s.npts
    ensures SECTOR_LEN <= s.NodeOffset(i) && s.NodeOffset(i) + s.MaxNodeLen() <= s.FileSize()
    ensures s.NodesPerSector() > 0 ==> s.OffsetInSector(i) + s.MaxNodeLen() <= SECTOR_LEN
  {
    Fits(s);
    if s.NodesPerSector() > 0 {
      SlotFits(s.NodesPerSector(), s.MaxNodeLen(), i % s.NodesPerSector());
      LastSector(s.npts, s.NodesPerSector(), i);
    } else {
      MulLe(i + 1, s.npts, s.SectorsPerNode());
    }
  }

  // ---- one node ----

  function Degree(s: Shape, list: seq<nat>): nat {
    if |list| < s.width then |list| else s.width
  }

  function NodeBytes(s: Shape, coords: seq<nat>, list: seq<nat>): (r: seq<nat>)
    requires |coords| == s.coordBytes
    ensures |r| == s.MaxNodeLen()
  {
    var n := Degree(s, list);
    coords + Bytes(n, 4) + AllBytes(list[..n]) + Zeros(4 * (s.width - n))
  }

  /** What the search side reads from a node's region: its coordinates, degree and neighbours. */
  lemma NodeReadBack(s: Shape, coords: seq<nat>, list: seq<nat>)
    requires |coords| == s.coordBytes && s.width < Pow256(4) && forall i :: 0 <= i < |list| ==> list[i] < Pow256(4)
    ensures var b := NodeBytes(s, coords, list);
            && b[..s.coordBytes] == coords
            && Number(b[s.coordBytes..s.coordBytes + 4]) == Degree(s, list)
            && Numbers(b[s.coordBytes + 4..], Degree(s, list)) == list[..Degree(s, list)]
  {
    var n := Degree(s, list);
    var b := NodeBytes(s, coords, list);
    NumberOfBytes(n, 4);
    assert b[s.coordBytes..s.coordBytes + 4] == Bytes(n, 4);
    assert b[s.coordBytes + 4..] == AllBytes(list[..n]) + Zeros(4 * (s.width - n));
    NumbersOfBytes(list[..n], Zeros(4 * (s.width - n)));
  }

  // The inputs: rows of coordinates and the graph file of `lists`, both read front to back.
  ghost predicate Inputs(s: Shape, coords: seq<seq<nat>>, lists: seq<seq<nat>>) {
    && |coords| == |lists| == s.npts
    && forall i :: 0 <= i < s.npts ==> |coords[i]| == s.coordBytes
  }

  // Reads the next record, keeping at most `width` neighbours and seeking past the others.
  method ReadNode(s: Shape, reader: WordReader, coords: seq<nat>, ghost lists: seq<seq<nat>>, ghost k: nat)
    returns (node: seq<nat>)
    requires Aligned(reader.file, reader.pos, lists, k) && k < |lists| && |coords| == s.coordBytes
    modifies reader`pos
    ensures node == NodeBytes(s, coords, lists[k]) && Aligned(reader.file, reader.pos, lists, k + 1)
  {
    NextRecord(reader.file, reader.pos, lists, k);
    ghost var p := reader.pos;
    var ok, head := reader.Read(1);
    var nnbrs := head[0];
    var kept := if nnbrs < s.width then nnbrs else s.width;
    var nhood;
    ok, nhood := reader.Read(kept);
    assert nhood == lists[k][..kept] by {
      assert reader.file[p + 1..p + 1 + |lists[k]|][..kept] == reader.file[p + 1..p + 1 + kept];
    }
    if nnbrs > s.width {
      reader.pos := reader.pos + (nnbrs - s.width);
    }
    node := coords + Bytes(kept, 4) + AllBytes(nhood) + Zeros(4 * (s.width - kept));
  }

  // ---- packing ----

  // The regions of the first n nodes hold the right bytes.
  ghost predicate Stored(s: Shape, file: seq<nat>, coords: seq<seq<nat>>, lists: seq<seq<nat>>, n: nat)
    requires Inputs(s, coords, lists) && n <= s.npts
  {
    forall i :: 0 <= i < n ==>
      && s.NodeOffset(i) + s.MaxNodeLen() <= |file|
      && file[s.NodeOffset(i)..s.NodeOffset(i) + s.MaxNodeLen()] == NodeBytes(s, coords[i], lists[i])
  }

  lemma StoredGrows(s: Shape, file: seq<nat>, more: seq<nat>, coords: seq<seq<nat>>, lists: seq<seq<nat>>, n: nat)
    requires Inputs(s, coords, lists) && n <= s.npts && Stored(s, file, coords, lists, n)
    ensures Stored(s, file + more, coords, lists, n)
  {
    forall i | 0 <= i < n
      ensures s.NodeOffset(i) + s.MaxNodeLen() <= |file + more|
      ensures (file + more)[s.NodeOffset(i)..s.NodeOffset(i) + s.MaxNodeLen()] == NodeBytes(s, coords[i], lists[i])
    {
      var a, b := s.NodeOffset(i), s.NodeOffset(i) + s.MaxNodeLen();
      assert (file + more)[a..b] == file[a..b];
    }
  }

  lemma PackedOffset(s: Shape, sector: nat, slot: nat)
    requires slot < s.NodesPerSector()
    ensures s.NodeOffset(sector * s.NodesPerSector() + slot) == (1 + sector) * SECTOR_LEN + slot * s.MaxNodeLen()
  {
    DivUnique(sector, s.NodesPerSector(), slot);
  }

  // One sector: nodes `first`, `first + 1`, ... while there is room and there are nodes.
  method PackSector(s: Shape, reader: WordReader, coords: seq<seq<nat>>, first: nat, ghost lists: seq<seq<nat>>)
    returns (sectorBuf: seq<nat>, curNode: nat)
    requires Inputs(s, coords, lists) && first <= s.npts && Aligned(reader.file, reader.pos, lists, first)
    modifies reader`pos
    ensures |sectorBuf| == SECTOR_LEN
    ensures curNode == (if first + s.NodesPerSector() < s.npts then first + s.NodesPerSector() else s.npts)
    ensures Aligned(reader.file, reader.pos, lists, curNode)
    ensures Packed(s, sectorBuf, coords, lists, first, curNode - first)
  {
    var k := s.NodesPerSector();
    sectorBuf := Zeros(SECTOR_LEN);
    curNode := first;
    var slot := 0;
    while slot < k && curNode < s.npts
      invariant slot <= k && curNode == first + slot <= s.npts && |sectorBuf| == SECTOR_LEN
      invariant Aligned(reader.file, reader.pos, lists, curNode)
      invariant Packed(s, sectorBuf, coords, lists, first, slot)
      decreases k - slot
    {
      var node := ReadNode(s, reader, coords[curNode], lists, curNode);
      sectorBuf := PlaceNode(s, sectorBuf, slot, node, coords, lists, first);
      slot, curNode := slot + 1, curNode + 1;
    }
  }

  method PlaceNode(s: Shape, buf: seq<nat>, slot: nat, node: seq<nat>, ghost coords: seq<seq<nat>>,
                   ghost lists: seq<seq<nat>>, ghost first: nat)
    returns (buf': seq<nat>)
    requires Inputs(s, coords, lists) && first + slot < s.npts && |buf| == SECTOR_LEN && slot < s.NodesPerSector()
    requires node == NodeBytes(s, coords[first + slot], lists[first + slot])
    requires Packed(s, buf, coords, lists, first, slot)
    ensures |buf'| == SECTOR_LEN && Packed(s, buf', coords, lists, first, slot + 1)
  {
    var m := s.MaxNodeLen();
    Fits(s);
    SlotFits(s.NodesPerSector(), m, slot);
    var at := slot * m;
    OneMorePacked(s, buf, coords, lists, first, slot, m, at, node);
    buf' := Overlaid(buf, at, node);
  }

  // The first n slots hold the nodes from first on.
  ghost predicate Packed(s: Shape, buf: seq<nat>, coords: seq<seq<nat>>, lists: seq<seq<nat>>, first: nat, n: nat)
    requires Inputs(s, coords, lists) && first + n <= s.npts
  {
    forall r :: 0 <= r < n ==> SlotBytes(s, buf, r) == NodeBytes(s, coords[first + r], lists[first + r])
  }

  lemma OneMorePacked(s: Shape, buf: seq<nat>, coords: seq<seq<nat>>, lists: seq<seq<nat>>, first: nat, n: nat, m: nat,
                      at: nat, node: seq<nat>)
    requires Inputs(s, coords, lists) && first + n < s.npts && Packed(s, buf, coords, lists, first, n)
    requires m == s.MaxNodeLen() && at + m <= |buf| && node == NodeBytes(s, coords[first + n], lists[first + n])
    requires at == n * m
    ensures Packed(s, Overlaid(buf, at, node), coords, lists, first, n + 1)
  {
    SlotWritten(s, buf, n, m, at, node);
  }

  function SlotBytes(s: Shape, buf: seq<nat>, r: nat): seq<nat> {
    Cut(buf, r * s.MaxNodeLen(), s.MaxNodeLen())
  }

  function Cut(buf: seq<nat>, at: nat, m: nat): seq<nat> {
    if at + m <= |buf| then buf[at..at + m] else []
  }

  function Overlaid(buf: seq<nat>, at: nat, node: seq<nat>): (r: seq<nat>)
    requires at + |node| <= |buf|
    ensures |r| == |buf|
  {
    buf[..at] + node + buf[at + |node|..]
  }

  lemma SlotWritten(s: Shape, before: seq<nat>, slot: nat, m: nat, at: nat, node: seq<nat>)
    requires m == s.MaxNodeLen() && at + m <= |before| && |node| == m && at == slot * m
    ensures var after := Overlaid(before, at, node);
            && SlotBytes(s, after, slot) == node
            && forall r :: 0 <= r < slot ==> SlotBytes(s, after, r) == SlotBytes(s, before, r)
  {
    var after := Overlaid(before, at, node);
    CutWritten(before, after, at, m, node);
    forall r | 0 <= r < slot ensures SlotBytes(s, after, r) == SlotBytes(s, before, r) {
      EarlierSlot(before, after, r, slot, m);
    }
  }

  lemma EarlierSlot(before: seq<nat>, after: seq<nat>, r: nat, slot: nat, m: nat)
    requires r < slot && forall lo: nat :: lo + m <= slot * m ==> Cut(after, lo, m) == Cut(before, lo, m)
    ensures Cut(after, r * m, m) == Cut(before, r * m, m)
  {
    MulLe(r + 1, slot, m);
    assert r * m + m <= slot * m;
  }

  lemma CutWritten(before: seq<nat>, after: seq<nat>, at: nat, m: nat, node: seq<nat>)
    requires at + m <= |before| && |node| == m && after == before[..at] + node + before[at + m..]
    ensures Cut(after, at, m) == node
    ensures forall lo: nat :: lo + m <= at ==> Cut(after, lo, m) == Cut(before, lo, m)
  {
  }

  method WritePacked(s: Shape, reader: WordReader, coords: seq<seq<nat>>, ghost lists: seq<seq<nat>>)
    returns (file: seq<nat>)
    requires Inputs(s, coords, lists) && Aligned(reader.file, reader.pos, lists, 0) && s.NodesPerSector() > 0
    modifies reader`pos
    ensures |file| == s.FileSize() && Stored(s, file, coords, lists, s.npts)
  {
    var nSectors := s.NumSectors();
    file := Zeros(SECTOR_LEN);
    var curNode := 0;
    for sector := 0 to nSectors
      invariant |file| == (1 + sector) * SECTOR_LEN
      invariant curNode == NodesBefore(s, sector)
      invariant Aligned(reader.file, reader.pos, lists, curNode) && Stored(s, file, coords, lists, curNode)
    {
      file, curNode := AppendSector(s, reader, coords, lists, file, sector, curNode);
    }
    NodesEnd(s);
  }

  method AppendSector(s: Shape, reader: WordReader, coords: seq<seq<nat>>, ghost lists: seq<seq<nat>>,
                      file: seq<nat>, ghost sector: nat, first: nat)
    returns (file': seq<nat>, curNode: nat)
    requires Inputs(s, coords, lists) && s.NodesPerSector() > 0 && sector < s.NumSectors()
    requires |file| == (1 + sector) * SECTOR_LEN && first == NodesBefore(s, sector) <= s.npts
    requires Aligned(reader.file, reader.pos, lists, first) && Stored(s, file, coords, lists, first)
    modifies reader`pos
    ensures |file'| == (1 + (sector + 1)) * SECTOR_LEN && curNode == NodesBefore(s, sector + 1) <= s.npts
    ensures Aligned(reader.file, reader.pos, lists, curNode) && Stored(s, file', coords, lists, curNode)
  {
    NodesStep(s, sector);
    var sectorBuf;
    sectorBuf, curNode := PackSector(s, reader, coords, first, lists);
    StoredGrows(s, file, sectorBuf, coords, lists, first);
    SectorStored(s, file, sectorBuf, coords, lists, sector, curNode);
    file' := file + sectorBuf;
  }

  // How many nodes come before a sector.
  function NodesBefore(s: Shape, sector: nat): nat {
    var n := sector * s.NodesPerSector();
    if n < s.npts then n else s.npts
  }

  lemma NodesStep(s: Shape, sector: nat)
    requires s.NodesPerSector() > 0 && sector < s.NumSectors()
    ensures NodesBefore(s, sector) == sector * s.NodesPerSector()
    ensures NodesBefore(s, sector + 1) ==
              (if NodesBefore(s, sector) + s.NodesPerSector() < s.npts
               then NodesBefore(s, sector) + s.NodesPerSector() else s.npts)
  {
    var k := s.NodesPerSector();
    RoundUpCovers(s.npts, k);
    MulLe(sector + 1, s.NumSectors(), k);
  }

  lemma NodesEnd(s: Shape)
    requires s.NodesPerSector() > 0
    ensures NodesBefore(s, s.NumSectors()) == s.npts
  {
    RoundUpCovers(s.npts, s.NodesPerSector());
  }

  lemma SectorStored(s: Shape, file: seq<nat>, buf: seq<nat>, coords: seq<seq<nat>>, lists: seq<seq<nat>>,
                     sector: nat, last: nat)
    requires Inputs(s, coords, lists) && |buf| == SECTOR_LEN && |file| == (1 + sector) * SECTOR_LEN
    requires var first := sector * s.NodesPerSector();
             && first <= last <= s.npts && last - first <= s.NodesPerSector()
             && Packed(s, buf, coords, lists, first, last - first)
             && Stored(s, file + buf, coords, lists, first)
    ensures Stored(s, file + buf, coords, lists, last)
  {
    var first := sector * s.NodesPerSector();
    forall i | first <= i < last
      ensures s.NodeOffset(i) + s.MaxNodeLen() <= |file + buf|
      ensures (file + buf)[s.NodeOffset(i)..s.NodeOffset(i) + s.MaxNodeLen()] == NodeBytes(s, coords[i], lists[i])
    {
      SlotStored(s, file, buf, sector, i - first);
    }
  }

  lemma SlotStored(s: Shape, file: seq<nat>, buf: seq<nat>, sector: nat, r: nat)
    requires r < s.NodesPerSector() && |buf| == SECTOR_LEN && |file| == (1 + sector) * SECTOR_LEN
    ensures var a := s.NodeOffset(sector * s.NodesPerSector() + r);
            a + s.MaxNodeLen() <= |file + buf| && (file + buf)[a..a + s.MaxNodeLen()] == SlotBytes(s, buf, r)
  {
    Fits(s);
    PackedOffset(s, sector, r);
    SlotFits(s.NodesPerSector(), s.MaxNodeLen(), r);
    var off := r * s.MaxNodeLen();
    assert (file + buf)[|file| + off..|file| + off + s.MaxNodeLen()] == buf[off..off + s.MaxNodeLen()];
  }

  method WriteSpread(s: Shape, reader: WordReader, coords: seq<seq<nat>>, ghost lists: seq<seq<nat>>)
    returns (file: seq<nat>)
    requires Inputs(s, coords, lists) && Aligned(reader.file, reader.pos, lists, 0) && s.NodesPerSector() == 0
    modifies reader`pos
    ensures |file| == s.FileSize() && Stored(s, file, coords, lists, s.npts)
  {
    Fits(s);
    var q := s.SectorsPerNode();
    file := Zeros(SECTOR_LEN);
    SpreadOffset(s, 0);
    for i := 0 to s.npts
      invariant |file| == s.NodeOffset(i)
      invariant Aligned(reader.file, reader.pos, lists, i) && Stored(s, file, coords, lists, i)
    {
      SpreadOffset(s, i);
      var node := ReadNode(s, reader, coords[i], lists, i);
      var multisectorBuf := node + Zeros(q * SECTOR_LEN - s.MaxNodeLen());
      SpreadStored(s, file, node, Zeros(q * SECTOR_LEN - s.MaxNodeLen()), coords, lists, i);
      file := file + multisectorBuf;
    }
  }

  lemma SpreadStored(s: Shape, file: seq<nat>, node: seq<nat>, pad: seq<nat>, coords: seq<seq<nat>>,
                     lists: seq<seq<nat>>, i: nat)
    requires Inputs(s, coords, lists) && i < s.npts && |file| == s.NodeOffset(i) && Stored(s, file, coords, lists, i)
    requires node == NodeBytes(s, coords[i], lists[i])
    ensures Stored(s, file + (node + pad), coords, lists, i + 1)
  {
    StoredGrows(s, file, node + pad, coords, lists, i);
    NodeAppended(file, node, pad);
  }

  // In the spread layout each node takes whole sectors of its own, after the metadata sector.
  lemma SpreadOffset(s: Shape, i: nat)
    requires s.NodesPerSector() == 0
    ensures s.NodeOffset(0) == SECTOR_LEN && s.NodeOffset(s.npts) == s.FileSize()
    ensures s.NodeOffset(i + 1) == s.NodeOffset(i) + s.SectorsPerNode() * SECTOR_LEN
  {
    var q := s.SectorsPerNode();
    assert (1 + (i + 1) * q) * SECTOR_LEN == (1 + i * q) * SECTOR_LEN + q * SECTOR_LEN;
  }

  lemma NodeAppended(file: seq<nat>, node: seq<nat>, pad: seq<nat>)
    ensures (file + (node + pad))[|file|..|file| + |node|] == node
  {
  }

  // The metadata written over the start of the first sector by save_bin: two 32-bit counts and nine 64-bit fields.
  function Meta(s: Shape, ndims: nat, medoid: nat, frozenNum: nat): (r: seq<nat>)
    ensures |r| == META_FIELDS
  {
    [s.npts, ndims, medoid, s.MaxNodeLen(), s.NodesPerSector(), frozenNum, if frozenNum == 1 then medoid else 0, 0,
     s.FileSize()]
  }

  function MetaBytes(meta: seq<nat>): (r: seq<nat>)
    ensures |r| == 8 + 8 * |meta|
  {
    Bytes(|meta|, 4) + Bytes(1, 4) + FieldBytes(meta)
  }

  function FieldBytes(meta: seq<nat>): (r: seq<nat>)
    ensures |r| == 8 * |meta|
  {
    if meta == [] then [] else Bytes(meta[0], 8) + FieldBytes(meta[1..])
  }

  // The file holds every node at its address, behind the metadata.
  ghost predicate IsLayout(s: Shape, file: seq<nat>, meta: seq<nat>, coords: seq<seq<nat>>, lists: seq<seq<nat>>) {
    && Inputs(s, coords, lists)
    && |file| == s.FileSize() && |meta| == META_FIELDS
    && 8 + 8 * META_FIELDS <= |file| && file[..8 + 8 * META_FIELDS] == MetaBytes(meta)
    && forall i :: 0 <= i < s.npts ==>
         SECTOR_LEN <= s.NodeOffset(i) && s.NodeOffset(i) + s.MaxNodeLen() <= |file| &&
         file[s.NodeOffset(i)..s.NodeOffset(i) + s.MaxNodeLen()] == NodeBytes(s, coords[i], lists[i])
  }

  // How many sectors are read for one node.
  function SectorsRead(s: Shape): nat {
    if s.NodesPerSector() > 0 then 1 else s.SectorsPerNode()
  }

  datatype DiskNode = DiskNode(coords: seq<nat>, neighbours: seq<nat>)

  // A node as the search side finds it: its sectors read from the file, then the offset inside them.
  function DecodeNode(s: Shape, sectors: seq<nat>, i: nat): DiskNode
    requires s.OffsetInSector(i) + s.MaxNodeLen() <= |sectors|
  {
    var node := sectors[s.OffsetInSector(i)..s.OffsetInSector(i) + s.MaxNodeLen()];
    var degree := Number(node[s.coordBytes..s.coordBytes + 4]);
    DiskNode(node[..s.coordBytes], if degree <= s.width then Numbers(node[s.coordBytes + 4..], degree) else [])
  }

  // Field k of the metadata.
  function MetaField(file: seq<nat>, k: nat): nat
    requires 8 + 8 * k + 8 <= |file|
  {
    Number(file[8 + 8 * k..8 + 8 * k + 8])
  }

  lemma {:induction false} FieldAt(meta: seq<nat>, k: nat)
    requires k < |meta|
    ensures FieldBytes(meta)[8 * k..8 * k + 8] == Bytes(meta[k], 8)
  {
    if k > 0 {
      FieldAt(meta[1..], k - 1);
      assert FieldBytes(meta)[8 * k..8 * k + 8] == FieldBytes(meta[1..])[8 * (k - 1)..8 * (k - 1) + 8];
    }
  }

  /** The metadata fields read back. */
  lemma MetaReadBack(file: seq<nat>, meta: seq<nat>, k: nat)
    requires 8 + 8 * |meta| <= |file| && file[..8 + 8 * |meta|] == MetaBytes(meta) && k < |meta|
    requires meta[k] < Pow256(8)
    ensures MetaField(file, k) == meta[k]
  {
    MetaAt(meta, k);
    NumberOfBytes(meta[k], 8);
    SliceOfSectors(file, 0, 8 + 8 * |meta|, 8 + 8 * k, 8);
  }

  lemma MetaAt(meta: seq<nat>, k: nat)
    requires k < |meta|
    ensures MetaBytes(meta)[8 + 8 * k..8 + 8 * k + 8] == Bytes(meta[k], 8)
  {
    FieldAt(meta, k);
    SliceOfTail(Bytes(|meta|, 4) + Bytes(1, 4), FieldBytes(meta), 8 * k, 8);
  }

  lemma SliceOfTail(a: seq<nat>, b: seq<nat>, at: nat, n: nat)
    requires at + n <= |b|
    ensures (a + b)[|a| + at..|a| + at + n] == b[at..at + n]
  {
  }

  // Field k reads x, if x fits in 64 bits.
  ghost predicate Reads(file: seq<nat>, k: nat, x: nat) {
    8 + 8 * k + 8 <= |file| && (x < Pow256(8) ==> MetaField(file, k) == x)
  }

  /** What a loader finds in the metadata (src/pq_flash_index.cpp:1037-1060): points, dimensions, entry point, bytes per
      node, nodes per sector, frozen points and the place of a single one, no reorder data, bytes of the file. */
  ghost predicate Describes(file: seq<nat>, s: Shape, ndims: nat, medoid: nat, frozenNum: nat) {
    && Reads(file, 0, s.npts)
    && Reads(file, 1, ndims)
    && Reads(file, 2, medoid)
    && Reads(file, 3, (s.width + 1) * 4 + s.coordBytes)
    && Reads(file, 4, 4096 / ((s.width + 1) * 4 + s.coordBytes))
    && Reads(file, 5, frozenNum)
    && Reads(file, 6, if frozenNum == 1 then medoid else 0)
    && Reads(file, 7, 0)
    && Reads(file, 8, |file|)
  }

  lemma FieldReads(s: Shape, file: seq<nat>, meta: seq<nat>, coords: seq<seq<nat>>, lists: seq<seq<nat>>, k: nat)
    requires IsLayout(s, file, meta, coords, lists) && k < META_FIELDS
    ensures Reads(file, k, meta[k])
  {
    if meta[k] < Pow256(8) {
      MetaReadBack(file, meta, k);
    }
  }

  lemma MetaDescribes(s: Shape, file: seq<nat>, ndims: nat, medoid: nat, frozenNum: nat, coords: seq<seq<nat>>,
                      lists: seq<seq<nat>>)
    requires IsLayout(s, file, Meta(s, ndims, medoid, frozenNum), coords, lists)
    ensures Describes(file, s, ndims, medoid, frozenNum)
  {
    var meta := Meta(s, ndims, medoid, frozenNum);
    forall k | 0 <= k < META_FIELDS ensures Reads(file, k, meta[k]) {
      FieldReads(s, file, meta, coords, lists, k);
    }
    assert Reads(file, 0, meta[0]) && Reads(file, 1, meta[1]) && Reads(file, 2, meta[2]);
    assert Reads(file, 3, meta[3]) && Reads(file, 4, meta[4]) && Reads(file, 5, meta[5]);
    assert Reads(file, 6, meta[6]) && Reads(file, 7, meta[7]) && Reads(file, 8, meta[8]);
  }

  // The sectors of a node are in the file and reach past the node.
  lemma SectorsInFile(s: Shape, i: nat)
    requires i < s.npts
    ensures s.NodeSector(i) * SECTOR_LEN + SectorsRead(s) * SECTOR_LEN <= s.FileSize()
    ensures s.OffsetInSector(i) + s.MaxNodeLen() <= SectorsRead(s) * SECTOR_LEN
  {
    Fits(s);
    RegionInFile(s, i);
    if s.NodesPerSector() > 0 {
      LastSector(s.npts, s.NodesPerSector(), i);
      MulLe(s.NodeSector(i) + 1, s.NumSectors() + 1, SECTOR_LEN);
    } else {
      SpreadRegionsEnd(s.npts, s.SectorsPerNode(), i);
    }
  }

  lemma SpreadRegionsEnd(npts: nat, q: nat, i: nat)
    requires i < npts
    ensures (1 + i * q) * SECTOR_LEN + q * SECTOR_LEN <= (npts * q + 1) * SECTOR_LEN
  {
    MulLe(i + 1, npts, q);
    MulLe(1 + i * q + q, npts * q + 1, SECTOR_LEN);
  }

  // What the search reads for node i: its sectors, decoded at its offset.
  function NodeOnDisk(s: Shape, disk: seq<nat>, i: nat): DiskNode
    requires i < s.npts && |disk| == s.FileSize()
  {
    SectorsInFile(s, i);
    var start := s.NodeSector(i) * SECTOR_LEN;
    DecodeNode(s, disk[start..start + SectorsRead(s) * SECTOR_LEN], i)
  }

  /** The round trip: reading the sectors of node i of a layout and decoding at its offset gives the coordinates and the
      neighbours, cut to the degree field, that went in. */
  lemma LayoutReadBack(s: Shape, file: seq<nat>, meta: seq<nat>, coords: seq<seq<nat>>, lists: seq<seq<nat>>, i: nat)
    requires IsLayout(s, file, meta, coords, lists) && i < s.npts
    requires s.width < Pow256(4) && forall k :: 0 <= k < |lists[i]| ==> lists[i][k] < Pow256(4)
    ensures NodeOnDisk(s, file, i) == DiskNode(coords[i], lists[i][..Degree(s, lists[i])])
  {
    var start, n := s.NodeSector(i) * SECTOR_LEN, SectorsRead(s) * SECTOR_LEN;
    SectorsInFile(s, i);
    NodeStart(s, i);
    SectorsDecoded(s, file, start, n, i, coords[i], lists[i]);
  }

  lemma NodeStart(s: Shape, i: nat)
    ensures s.NodeSector(i) * SECTOR_LEN + s.OffsetInSector(i) == s.NodeOffset(i)
  {
  }

  lemma SectorsDecoded(s: Shape, file: seq<nat>, start: nat, n: nat, i: nat, coords: seq<nat>, list: seq<nat>)
    requires |coords| == s.coordBytes && s.OffsetInSector(i) + s.MaxNodeLen() <= n && start + n <= |file|
    requires var at := start + s.OffsetInSector(i);
             file[at..at + s.MaxNodeLen()] == NodeBytes(s, coords, list)
    requires s.width < Pow256(4) && forall k :: 0 <= k < |list| ==> list[k] < Pow256(4)
    ensures DecodeNode(s, file[start..start + n], i) == DiskNode(coords, list[..Degree(s, list)])
  {
    SliceOfSectors(file, start, n, s.OffsetInSector(i), s.MaxNodeLen());
    NodeDecoded(s, file[start..start + n], i, coords, list);
  }

  lemma NodeDecoded(s: Shape, sectors: seq<nat>, i: nat, coords: seq<nat>, list: seq<nat>)
    requires |coords| == s.coordBytes && s.OffsetInSector(i) + s.MaxNodeLen() <= |sectors|
    requires sectors[s.OffsetInSector(i)..s.OffsetInSector(i) + s.MaxNodeLen()] == NodeBytes(s, coords, list)
    requires s.width < Pow256(4) && forall k :: 0 <= k < |list| ==> list[k] < Pow256(4)
    ensures DecodeNode(s, sectors, i) == DiskNode(coords, list[..Degree(s, list)])
  {
    NodeReadBack(s, coords, list);
  }

  lemma SliceOfSectors(file: seq<nat>, start: nat, n: nat, off: nat, m: nat)
    requires start + n <= |file| && off + m <= n
    ensures file[start..start + n][off..off + m] == file[start + off..start + off + m]
  {
    var a, b := file[start..start + n][off..off + m], file[start + off..start + off + m];
    assert |a| == |b| == m && forall k :: 0 <= k < m ==> a[k] == b[k];
  }

  /** create_disk_layout: the file has the recorded length, starts with the metadata, and at every node's documented
      address holds that node. */
  method CreateDiskLayout(s: Shape, ndims: nat, medoid: nat, frozenNum: nat, graphFile: seq<nat>, coords: seq<seq<nat>>,
                          ghost lists: seq<seq<nat>>)
    returns (file: seq<nat>)
    requires Inputs(s, coords, lists) && graphFile == Encoded(lists, s.width, medoid, frozenNum)
    ensures IsLayout(s, file, Meta(s, ndims, medoid, frozenNum), coords, lists)
    ensures Describes(file, s, ndims, medoid, frozenNum)
  {
    HeaderFields(lists, s.width, medoid, frozenNum);
    var reader := new WordReader(graphFile);
    reader.pos := HEADER_WORDS;
    if s.NodesPerSector() > 0 {
      file := WritePacked(s, reader, coords, lists);
    } else {
      file := WriteSpread(s, reader, coords, lists);
    }
    var head := MetaBytes(Meta(s, ndims, medoid, frozenNum));
    HeadWritten(s, file, Meta(s, ndims, medoid, frozenNum), coords, lists);
    file := head + file[|head|..];
    MetaDescribes(s, file, ndims, medoid, frozenNum, coords, lists);
  }

  // Writing the metadata over the start of the file disturbs no node.
  lemma HeadWritten(s: Shape, body: seq<nat>, meta: seq<nat>, coords: seq<seq<nat>>, lists: seq<seq<nat>>)
    requires Inputs(s, coords, lists) && |meta| == META_FIELDS
    requires |body| == s.FileSize() && Stored(s, body, coords, lists, s.npts)
    ensures 8 + 8 * META_FIELDS <= |body|
    ensures IsLayout(s, MetaBytes(meta) + body[8 + 8 * META_FIELDS..], meta, coords, lists)
  {
    FileHasMeta(s);
    var file := MetaBytes(meta) + body[8 + 8 * META_FIELDS..];
    forall i | 0 <= i < s.npts
      ensures SECTOR_LEN <= s.NodeOffset(i) && s.NodeOffset(i) + s.MaxNodeLen() <= |file|
      ensures file[s.NodeOffset(i)..s.NodeOffset(i) + s.MaxNodeLen()] == NodeBytes(s, coords[i], lists[i])
    {
      NodeBehind(s, MetaBytes(meta), body, i);
    }
  }

  lemma NodeBehind(s: Shape, head: seq<nat>, body: seq<nat>, i: nat)
    requires i < s.npts && |head| == 8 + 8 * META_FIELDS <= |body| == s.FileSize()
    ensures var file, at := head + body[8 + 8 * META_FIELDS..], s.NodeOffset(i);
            && SECTOR_LEN <= at && at + s.MaxNodeLen() <= |file|
            && file[at..at + s.MaxNodeLen()] == body[at..at + s.MaxNodeLen()]
  {
    RegionInFile(s, i);
    SliceBehind(head, body, 8 + 8 * META_FIELDS, s.NodeOffset(i), s.MaxNodeLen());
  }

  lemma FileHasMeta(s: Shape)
    ensures SECTOR_LEN <= s.FileSize()
  {
    MulLe(1, s.NumSectors() + 1, SECTOR_LEN);
  }

  lemma SliceBehind(head: seq<nat>, body: seq<nat>, n: nat, at: nat, m: nat)
    requires |head| == n <= at && at + m <= |body|
    ensures (head + body[n..])[at..at + m] == body[at..at + m]
  {
  }
}
