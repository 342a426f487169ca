/** The extra fields of a header (APPNOTE 6.3, sections 4.5.1 and 4.5.3): walking over the blocks,
    building them, and the Zip64, AES and NTFS blocks. */
module ExtraField {
  import opened Wrappers
  import opened Bytes

  const ZIP64_TAG: u16 := 0x0001
  const NTFS_TAG: u16 := 0x000A
  const AES_TAG: u16 := 0x9901

  // ---------------------------------------------------------------- blocks

  /** A complete block stands at the front. */
  predicate HasBlock(x: bytes) {
    |x| >= 4 && 4 + U16(x[2..4]) <= |x|
  }

  function TagOf(x: bytes): u16
    requires HasBlock(x)
  {
    U16(x[0..2])
  }

  function BlockLen(x: bytes): (n: nat)
    requires HasBlock(x)
    ensures 4 <= n <= |x|
  {
    4 + U16(x[2..4])
  }

  /** `ParseExtraField` from the bytes `x` on, with the blocks in `acc` found before. */
  function ParseFrom(x: bytes, acc: map<u16, bytes>): map<u16, bytes>
    decreases |x|
  {
    if !HasBlock(x) then acc
    else ParseFrom(x[BlockLen(x)..], acc[TagOf(x) := x[..BlockLen(x)]])
  }

  method ParseExtraField(extra: bytes) returns (m: map<u16, bytes>)
    ensures m == ParseFrom(extra, map[])
  {
    m := map[];
    var offset := 0;
    while offset < |extra|
      invariant offset <= |extra|
      invariant ParseFrom(extra[offset..], m) == ParseFrom(extra, map[])
    {
      ghost var x := extra[offset..];
      if offset + 4 > |extra| {
        break;
      }
      Onward(extra, offset, 0, 2);
      Onward(extra, offset, 2, 4);
      var tag := U16(extra[offset..offset + 2]);
      var size: nat := U16(extra[offset + 2..offset + 4]);
      if offset + 4 + size > |extra| {
        break;
      }
      Onward(extra, offset, 0, 4 + size);
      assert x[..4 + size] == x[0..4 + size];
      m := m[tag := extra[offset..offset + 4 + size]];
      offset := offset + 4 + size;
    }
  }

  /** A block as the extra-field map stores it: its own tag and the length of its payload in front. */
  predicate BlockOk(tag: u16, b: bytes) {
    |b| >= 4 && U16(b[0..2]) == tag && U16(b[2..4]) == |b| - 4
  }

  predicate AllBlocksOk(m: map<u16, bytes>) {
    forall t :: t in m ==> BlockOk(t, m[t])
  }

  function Concat(ks: seq<u16>, m: map<u16, bytes>): bytes
    requires forall k :: k in ks ==> k in m
  {
    if ks == [] then [] else m[ks[0]] + Concat(ks[1..], m)
  }

  predicate Ascending(ks: seq<u16>) {
    forall i, j :: 0 <= i < j < |ks| ==> ks[i] < ks[j]
  }

  lemma FirstBlock(tag: u16, b: bytes, rest: bytes)
    requires BlockOk(tag, b)
    ensures HasBlock(b + rest) && TagOf(b + rest) == tag && BlockLen(b + rest) == |b|
    ensures (b + rest)[..|b|] == b && (b + rest)[|b|..] == rest
  {
    assert (b + rest)[0..2] == b[0..2] && (b + rest)[2..4] == b[2..4];
  }

  lemma FirstKey(ks: seq<u16>, m: map<u16, bytes>, acc: map<u16, bytes>)
    requires ks != [] && forall k :: k in ks ==> k in m
    ensures acc + (map k | k in ks :: m[k]) == acc[ks[0] := m[ks[0]]] + (map k | k in ks[1..] :: m[k])
  {
    assert ks == [ks[0]] + ks[1..];
  }

  /** Parsing the concatenation of well-formed blocks gives exactly those blocks. */
  lemma {:induction false} ParseConcat(ks: seq<u16>, m: map<u16, bytes>, acc: map<u16, bytes>)
    requires (forall k :: k in ks ==> k in m) && AllBlocksOk(m) && Ascending(ks)
    ensures ParseFrom(Concat(ks, m), acc) == acc + map k | k in ks :: m[k]
  {
    if ks == [] {
      assert forall k :: k !in ks;
    } else {
      FirstBlock(ks[0], m[ks[0]], Concat(ks[1..], m));
      ParseConcat(ks[1..], m, acc[ks[0] := m[ks[0]]]);
      FirstKey(ks, m, acc);
    }
  }

  /** Whatever map of well-formed blocks is written in key order, parsing returns that map. */
  lemma ExtraRoundTrip(ks: seq<u16>, m: map<u16, bytes>)
    requires Ascending(ks) && (forall k :: k in ks <==> k in m) && AllBlocksOk(m)
    ensures ParseFrom(Concat(ks, m), map[]) == m
  {
    ParseConcat(ks, m, map[]);
    AllOfMap(ks, m);
  }

  lemma AllOfMap(ks: seq<u16>, m: map<u16, bytes>)
    requires forall k :: k in ks <==> k in m
    ensures map[] + (map k | k in ks :: m[k]) == m
  {
    var all := map k | k in ks :: m[k];
    assert all.Keys == m.Keys && all == m;
  }

  /** The key order leaves no choice: equal maps are written as equal bytes. */
  lemma {:induction false} KeyOrderUnique(ks: seq<u16>, ls: seq<u16>)
    requires Ascending(ks) && Ascending(ls) && forall k :: k in ks <==> k in ls
    ensures ks == ls
  {
    assert ks != [] ==> ks[0] in ks;
    assert ls != [] ==> ls[0] in ls;
    if ks != [] && ls != [] {
      var i :| 0 <= i < |ls| && ls[i] == ks[0];
      var j :| 0 <= j < |ks| && ks[j] == ls[0];
      assert ks[0] <= ks[j] && ls[0] <= ls[i];
      TailMembers(ks);
      TailMembers(ls);
      KeyOrderUnique(ks[1..], ls[1..]);
      assert ks == [ks[0]] + ks[1..] && ls == [ls[0]] + ls[1..];
    }
  }

  lemma TailMembers(ks: seq<u16>)
    requires Ascending(ks) && ks != []
    ensures forall k :: k in ks[1..] <==> k in ks && k != ks[0]
  {
    assert ks == [ks[0]] + ks[1..];
    forall k | k in ks[1..]
      ensures k != ks[0]
    {
      var i :| 0 <= i < |ks| - 1 && ks[1..][i] == k;
      assert ks[0] < ks[i + 1];
    }
  }

  /** `slices.Sort` on the keys, one insertion. */
  method Insert(ks: seq<u16>, k: u16) returns (r: seq<u16>)
    requires Ascending(ks) && k !in ks
    ensures Ascending(r) && forall x :: x in r <==> x == k || x in ks
  {
    var i := |ks|;
    while i > 0 && ks[i - 1] > k
      invariant 0 <= i <= |ks| && forall j :: i <= j < |ks| ==> ks[j] > k
    {
      i := i - 1;
    }
    r := ks[..i] + [k] + ks[i..];
    assert forall j :: 0 <= j < i ==> ks[j] < k by {
      if i > 0 { assert ks[i - 1] in ks && ks[i - 1] < k; }
    }
    InsertedAt(ks, k, i);
  }

  lemma InsertedAt(ks: seq<u16>, k: u16, i: nat)
    requires Ascending(ks) && i <= |ks|
    requires (forall j :: 0 <= j < i ==> ks[j] < k) && (forall j :: i <= j < |ks| ==> ks[j] > k)
    ensures var r := ks[..i] + [k] + ks[i..]; Ascending(r) && forall x :: x in r <==> x == k || x in ks
  {
    InsertedOrder(ks, k, i);
    assert ks == ks[..i] + ks[i..];
  }

  lemma InsertedOrder(ks: seq<u16>, k: u16, i: nat)
    requires Ascending(ks) && i <= |ks|
    requires (forall j :: 0 <= j < i ==> ks[j] < k) && (forall j :: i <= j < |ks| ==> ks[j] > k)
    ensures Ascending(ks[..i] + [k] + ks[i..])
  {
    var r := ks[..i] + [k] + ks[i..];
    assert forall j :: 0 <= j < |r| ==> r[j] == if j < i then ks[j] else if j == i then k else ks[j - 1];
  }

  method SortedKeys(m: map<u16, bytes>) returns (ks: seq<u16>)
    ensures Ascending(ks) && forall k :: k in ks <==> k in m
  {
    ks := [];
    var rest := m.Keys;
    while rest != {}
      invariant Ascending(ks) && rest <= m.Keys
      invariant forall k :: k in m <==> k in ks || k in rest
      invariant forall k :: k in ks ==> k !in rest
      decreases |rest|
    {
      var k :| k in rest;
      ks := Insert(ks, k);
      rest := rest - {k};
    }
  }

  /** `buildExtraFieldBytes`: the map's blocks in ascending order of their tags. */
  method BuildExtraFieldBytes(m: map<u16, bytes>) returns (buf: bytes, ghost keys: seq<u16>)
    ensures Ascending(keys) && (forall k :: k in keys <==> k in m) && buf == Concat(keys, m)
    ensures AllBlocksOk(m) ==> ParseFrom(buf, map[]) == m
  {
    var ks := SortedKeys(m);
    buf := [];
    for i := 0 to |ks|
      invariant buf + Concat(ks[i..], m) == Concat(ks, m)
    {
      assert ks[i..][0] == ks[i] && ks[i..][1..] == ks[i + 1..];
      assert buf + (m[ks[i]] + Concat(ks[i + 1..], m)) == (buf + m[ks[i]]) + Concat(ks[i + 1..], m);
      buf := buf + m[ks[i]];
    }
    assert buf + [] == buf;
    keys := ks;
    if AllBlocksOk(m) {
      ExtraRoundTrip(ks, m);
    }
  }

  // ---------------------------------------------------------------- setting a block by hand

  /** `SetExtraField` computes the block it is given, wrapped unless it begins with its own tag. */
  function FullBlock(tag: u16, data: bytes): bytes {
    if |data| >= 4 && U16(data[0..2]) == tag then data else LE(2, tag) + LE(2, |data|) + data
  }

  const EXTRA_FIELD_LIMIT: int := 65535

  /** The length of all blocks, a replaced one not counted. */
  function LengthWithout(ks: seq<u16>, m: map<u16, bytes>, tag: u16): nat
    requires forall k :: k in ks ==> k in m
  {
    if ks == [] then 0 else (if ks[0] == tag then 0 else |m[ks[0]]|) + LengthWithout(ks[1..], m, tag)
  }

  /** `SetExtraField`: the wrapped block is not used.  It stores the data as given, and checks the limit
      against that, too. */
  method SetExtraField(m: map<u16, bytes>, tag: u16, data: bytes) returns (r: Option<map<u16, bytes>>)
    ensures forall ks: seq<u16> :: Ascending(ks) && (forall k :: k in ks <==> k in m) ==>
              r == if LengthWithout(ks, m, tag) + |data| > EXTRA_FIELD_LIMIT then None else Some(AfterSet(m, tag, data))
  {
    var keys := SortedKeys(m);
    var currentLen := 0;
    for i := 0 to |keys|
      invariant currentLen + LengthWithout(keys[i..], m, tag) == LengthWithout(keys, m, tag)
    {
      assert keys[i..][0] == keys[i] && keys[i..][1..] == keys[i + 1..];
      if keys[i] != tag {
        currentLen := currentLen + |m[keys[i]]|;
      }
    }
    forall ks: seq<u16> | Ascending(ks) && forall k :: k in ks <==> k in m
      ensures ks == keys
    {
      KeyOrderUnique(ks, keys);
    }
    return if currentLen + |data| > EXTRA_FIELD_LIMIT then None else Some(AfterSet(m, tag, data));
  }

  lemma {:induction false} LengthIs(ks: seq<u16>, m: map<u16, bytes>, tag: u16, data: bytes)
    requires Ascending(ks) && forall k :: k in ks ==> k in AfterSet(m, tag, data)
    ensures |Concat(ks, AfterSet(m, tag, data))| ==
            LengthWithout(ks, AfterSet(m, tag, data), tag) + if tag in ks then |data| else 0
  {
    if ks != [] {
      TailMembers(ks);
      LengthIs(ks[1..], m, tag, data);
    }
  }

  lemma {:induction false} LengthUnchanged(ks: seq<u16>, ls: seq<u16>, m: map<u16, bytes>, tag: u16, data: bytes)
    requires Ascending(ks) && Ascending(ls) && forall k :: k in ks ==> k in AfterSet(m, tag, data)
    requires (forall k :: k in ls ==> k in m) && forall k :: k != tag ==> (k in ks <==> k in ls)
    ensures LengthWithout(ks, AfterSet(m, tag, data), tag) == LengthWithout(ls, m, tag)
    decreases |ks| + |ls|
  {
    assert ks != [] && ks[0] != tag ==> ks[0] in ls;
    assert ls != [] && ls[0] != tag ==> ls[0] in ks;
    if ks != [] && ks[0] == tag {
      TailMembers(ks);
      LengthUnchanged(ks[1..], ls, m, tag, data);
    } else if ls != [] && ls[0] == tag {
      TailMembers(ls);
      LengthUnchanged(ks, ls[1..], m, tag, data);
    } else if ks != [] && ls != [] {
      SameLeast(ks, ls, tag);
      TailMembers(ks);
      TailMembers(ls);
      LengthUnchanged(ks[1..], ls[1..], m, tag, data);
    }
  }

  lemma SameLeast(ks: seq<u16>, ls: seq<u16>, tag: u16)
    requires Ascending(ks) && Ascending(ls) && ks != [] && ls != [] && ks[0] != tag && ls[0] != tag
    requires forall k :: k != tag ==> (k in ks <==> k in ls)
    ensures ks[0] == ls[0]
  {
    assert ks[0] in ls && ls[0] in ks;
    var i :| 0 <= i < |ls| && ls[i] == ks[0];
    var j :| 0 <= j < |ks| && ks[j] == ls[0];
    assert ls[0] <= ls[i] && ks[0] <= ks[j];
  }

  /** Whenever a block is set, all blocks together keep within the limit. */
  lemma SetKeepsLimit(ks: seq<u16>, ls: seq<u16>, m: map<u16, bytes>, tag: u16, data: bytes)
    requires Ascending(ks) && (forall k :: k in ks <==> k in AfterSet(m, tag, data))
    requires Ascending(ls) && (forall k :: k in ls <==> k in m)
    ensures |Concat(ks, AfterSet(m, tag, data))| == LengthWithout(ls, m, tag) + |data|
  {
    assert tag in ks;
    LengthIs(ks, m, tag, data);
    LengthUnchanged(ks, ls, m, tag, data);
  }

  /** A block is accepted exactly when the length of all blocks fits the two bytes of the header that hold
      it. */
  lemma AcceptedIff(ks: seq<u16>, ls: seq<u16>, m: map<u16, bytes>, tag: u16, data: bytes)
    requires Ascending(ks) && (forall k :: k in ks <==> k in AfterSet(m, tag, data))
    requires Ascending(ls) && (forall k :: k in ls <==> k in m)
    ensures LengthWithout(ls, m, tag) + |data| <= EXTRA_FIELD_LIMIT
       <==> ToU16(|Concat(ks, AfterSet(m, tag, data))|) == |Concat(ks, AfterSet(m, tag, data))|
  {
    SetKeepsLimit(ks, ls, m, tag, data);
    FitsTwoBytes(|Concat(ks, AfterSet(m, tag, data))|);
  }

  lemma FitsTwoBytes(n: nat)
    ensures n <= EXTRA_FIELD_LIMIT <==> ToU16(n) == n
  {
  }

  function AfterSet(m: map<u16, bytes>, tag: u16, data: bytes): map<u16, bytes> {
    m[tag := data]
  }

  lemma WrappedIsBlock(tag: u16, data: bytes)
    requires |data| <= MAX_UINT16 && !(|data| >= 4 && U16(data[0..2]) == tag)
    ensures BlockOk(tag, FullBlock(tag, data)) && FullBlock(tag, data)[4..] == data
  {
    var b := FullBlock(tag, data);
    assert b[0..2] == LE(2, tag) && b[2..4] == LE(2, |data|);
    ReadWritten2(tag);
    ReadWritten2(|data|);
  }

  lemma WrappedOnce(tag: u16, b: bytes)
    requires BlockOk(tag, b)
    ensures FullBlock(tag, b) == b
  {
  }

  /** The map stays one of well-formed blocks exactly when the caller did the wrapping. */
  lemma SetKeepsBlocksIff(m: map<u16, bytes>, tag: u16, data: bytes)
    requires AllBlocksOk(m)
    ensures AllBlocksOk(AfterSet(m, tag, data)) <==> BlockOk(tag, data)
  {
    assert AfterSet(m, tag, data)[tag] == data;
  }

  /** A bare payload of four bytes, set for the tag 0x7777: what is written is taken for an empty
      Zip64 block, and the tag is lost. */
  lemma BarePayloadLost()
    ensures var m := AfterSet(map[], 0x7777, [1, 0, 0, 0]);
            && ParseFrom(Concat([0x7777], m), map[]) == map[ZIP64_TAG := [1, 0, 0, 0]]
            && ParseFrom(FullBlock(0x7777, [1, 0, 0, 0]), map[]) == map[0x7777 := FullBlock(0x7777, [1, 0, 0, 0])]
  {
    var data: bytes := [1, 0, 0, 0];
    var m: map<u16, bytes> := map[];
    ReadWritten2(0);
    ReadWritten2(1);
    SmallTwoBytes(0);
    SmallTwoBytes(1);
    assert data[0..2] == LE(2, 1) && data[2..4] == LE(2, 0);
    assert BlockOk(ZIP64_TAG, data);
    assert Concat([0x7777], AfterSet(m, 0x7777, data)) == data + [];
    SingleBlock(ZIP64_TAG, data);
    WrappedIsBlock(0x7777, data);
    SingleBlock(0x7777, FullBlock(0x7777, data));
    assert data + [] == data;
  }

  lemma SingleBlock(tag: u16, b: bytes)
    requires BlockOk(tag, b)
    ensures ParseFrom(b, map[]) == map[tag := b]
  {
    FirstBlock(tag, b, []);
    assert b + [] == b;
  }

  // ---------------------------------------------------------------- reading an entry's configuration

  datatype Encryption = NotEncrypted | ZipCrypto | Aes256

  /** The parts of a local or central header that determine sizes and methods. */
  datatype Shared = Shared(flags: u16, scheme: u16, csize: u32, usize: u32, offset: u32, extra: bytes)

  /** `times` are the NTFS time stamps: last write, last access, creation. */
  datatype Conf = Conf(usize: int, csize: int, offset: int, scheme: u16, encryption: Encryption, hasZip64: bool,
                       times: Option<(u64, u64, u64)>)

  function ToInt64(v: u64): int {
    if v < 0x8000_0000_0000_0000 then v else v - 0x1_0000_0000_0000_0000
  }

  /** `parseZip64`: each field whose 32-bit form is saturated takes the next eight bytes, if they exist. */
  function Zip64Values(c: Conf, data: bytes, e: Shared): Conf {
    var readU := e.usize == MAX_UINT32 && |data| >= 8;
    var c1 := if readU then c.(usize := ToInt64(U64(data[0..8]))) else c;
    var p1 := if readU then 8 else 0;
    var readC := e.csize == MAX_UINT32 && |data| >= p1 + 8;
    var c2 := if readC then c1.(csize := ToInt64(U64(data[p1..p1 + 8]))) else c1;
    var p2 := if readC then p1 + 8 else p1;
    if e.offset == MAX_UINT32 && |data| >= p2 + 8 then c2.(offset := ToInt64(U64(data[p2..p2 + 8]))) else c2
  }

  /** `ParseNTFSExtraField`: write and access time are both read from the same place. */
  function NtfsTimes(data: bytes): (u64, u64, u64)
    requires |data| == 36
  {
    (U64(data[12..20]), U64(data[12..20]), U64(data[28..36]))
  }

  function BlockEffect(c: Conf, tag: u16, data: bytes, e: Shared): Conf {
    if tag == ZIP64_TAG then Zip64Values(c.(hasZip64 := true), data, e)
    else if tag == NTFS_TAG && |data| == 36 then c.(times := Some(NtfsTimes(data)))
    else if tag == AES_TAG && |data| >= 7 then c.(scheme := U16(data[5..7]), encryption := Aes256)
    else c
  }

  function ScanFrom(x: bytes, c: Conf, e: Shared): Conf
    decreases |x|
  {
    if !HasBlock(x) then c
    else ScanFrom(x[BlockLen(x)..], BlockEffect(c, TagOf(x), x[4..BlockLen(x)], e), e)
  }

  function InitialConf(e: Shared): Conf {
    Conf(e.usize, e.csize, e.offset, e.scheme, if e.flags % 2 == 1 then ZipCrypto else NotEncrypted, false, None)
  }

  /** The same walk by offsets. */
  function ScanAt(x: bytes, at: nat, c: Conf, e: Shared): Conf
    requires at <= |x|
    decreases |x| - at
  {
    if at + 4 > |x| then c
    else
      var size: nat := U16(x[at + 2..at + 4]);
      if at + 4 + size > |x| then c
      else ScanAt(x, at + 4 + size, BlockEffect(c, U16(x[at..at + 2]), x[at + 4..at + 4 + size], e), e)
  }

  lemma {:induction false} ScanAtIs(x: bytes, at: nat, c: Conf, e: Shared)
    requires at <= |x|
    ensures ScanAt(x, at, c, e) == ScanFrom(x[at..], c, e)
    decreases |x| - at
  {
    if at + 4 <= |x| {
      Onward(x, at, 0, 2);
      Onward(x, at, 2, 4);
      var size: nat := U16(x[at + 2..at + 4]);
      if at + 4 + size <= |x| {
        Onward(x, at, 4, 4 + size);
        ScanAtIs(x, at + 4 + size, BlockEffect(c, U16(x[at..at + 2]), x[at + 4..at + 4 + size], e), e);
      }
    }
  }

  method ParseEntryConf(e: Shared) returns (c: Conf)
    ensures c == ScanFrom(e.extra, InitialConf(e), e)
  {
    c := InitialConf(e);
    ScanAtIs(e.extra, 0, c, e);
    assert e.extra[0..] == e.extra;
    var offset := 0;
    while offset < |e.extra|
      invariant offset <= |e.extra| && ScanAt(e.extra, offset, c, e) == ScanFrom(e.extra, InitialConf(e), e)
    {
      if offset + 4 > |e.extra| {
        break;
      }
      var tag := U16(e.extra[offset..offset + 2]);
      var size: nat := U16(e.extra[offset + 2..offset + 4]);
      offset := offset + 4;
      if offset + size > |e.extra| {
        break;
      }
      var data := e.extra[offset..offset + size];
      c := BlockEffect(c, tag, data, e);
      offset := offset + size;
    }
  }

  // ---------------------------------------------------------------- the Zip64 block

  predicate RequiresZip64(u: int, c: int, o: int) {
    c > MAX_UINT32 || u > MAX_UINT32 || o > MAX_UINT32
  }

  function Zip64Payload(u: int, c: int, o: int): bytes {
    (if u > MAX_UINT32 then LE(8, u) else []) + (if c > MAX_UINT32 then LE(8, c) else [])
    + (if o > MAX_UINT32 then LE(8, o) else [])
  }

  /** `EncodeZip64ExtraField`.  The length field counts the four bytes of tag and length as well. */
  function EncodeZip64(u: int, c: int, o: int): bytes {
    LE(2, ZIP64_TAG) + LE(2, 4 + |Zip64Payload(u, c, o)|) + Zip64Payload(u, c, o)
  }

  function EncodeZip64Local(u: int, c: int): bytes {
    LE(2, ZIP64_TAG) + LE(2, 16) + LE(8, u) + LE(8, c)
  }

  function EncodeAes(scheme: u16): bytes {
    LE(2, AES_TAG) + LE(2, 7) + LE(2, 2) + [65, 69, 3] + LE(2, scheme)
  }

  function EncodeNtfs(write: u64, access: u64, creation: u64): bytes {
    LE(2, NTFS_TAG) + LE(2, 32) + LE(4, 0) + LE(2, 1) + LE(2, 24) + LE(8, write) + LE(8, access) + LE(8, creation)
  }

  /** The header fields of an entry with these sizes and offset, saturated at 32 bits. */
  predicate Saturated(e: Shared, u: int, c: int, o: int) {
    e.usize == Min(MAX_UINT32, u) && e.csize == Min(MAX_UINT32, c) && e.offset == Min(MAX_UINT32, o)
  }

  predicate Int64s(u: int, c: int, o: int) {
    0 <= u < 0x8000_0000_0000_0000 && 0 <= c < 0x8000_0000_0000_0000 && 0 <= o < 0x8000_0000_0000_0000
  }

  /** No value of exactly 0xFFFFFFFF stands before one that is stored: the reader takes a saturated
      field as stored, the writer stores only larger ones. */
  predicate Unshifted(u: int, c: int, o: int) {
    !(u == MAX_UINT32 && (c > MAX_UINT32 || o > MAX_UINT32)) && !(c == MAX_UINT32 && o > MAX_UINT32)
  }

  predicate HasValues(x: Conf, u: int, c: int, o: int) {
    x.usize == u && x.csize == c && x.offset == o
  }

  /** The payload, also with up to seven stray bytes behind it, parses back to all three values
      exactly when none of exactly 0xFFFFFFFF precedes a stored one. */
  lemma Zip64PayloadIff(u: int, c: int, o: int, pad: bytes, x: Conf, e: Shared)
    requires Int64s(u, c, o) && RequiresZip64(u, c, o) && |pad| < 8
    requires Saturated(e, u, c, o) && x.usize == e.usize && x.csize == e.csize && x.offset == e.offset
    ensures HasValues(Zip64Values(x, Zip64Payload(u, c, o) + pad, e), u, c, o) <==> Unshifted(u, c, o)
  {
    var data := Zip64Payload(u, c, o) + pad;
    ReadWritten8(u);
    ReadWritten8(c);
    ReadWritten8(o);
    if u > MAX_UINT32 {
      assert data[0..8] == LE(8, u);
      if c > MAX_UINT32 {
        assert data[8..16] == LE(8, c);
        if o > MAX_UINT32 { assert data[16..24] == LE(8, o); }
      } else if o > MAX_UINT32 {
        assert data[8..16] == LE(8, o);
      }
    } else if c > MAX_UINT32 {
      assert data[0..8] == LE(8, c);
      if o > MAX_UINT32 { assert data[8..16] == LE(8, o); }
    } else {
      assert data[0..8] == LE(8, o);
    }
  }

  /** The walk over `x` meets no Zip64 block. */
  predicate NoZip64(x: bytes)
    decreases |x|
  {
    HasBlock(x) ==> TagOf(x) != ZIP64_TAG && NoZip64(x[BlockLen(x)..])
  }

  lemma {:induction false} ScanKeepsSizes(x: bytes, c: Conf, e: Shared)
    requires NoZip64(x)
    ensures var r := ScanFrom(x, c, e); HasValues(r, c.usize, c.csize, c.offset) && r.hasZip64 == c.hasZip64
    decreases |x|
  {
    if HasBlock(x) {
      ScanKeepsSizes(x[BlockLen(x)..], BlockEffect(c, TagOf(x), x[4..BlockLen(x)], e), e);
    }
  }

  /** Because of its length field the written block reaches four bytes into what follows it: with
      less than four bytes behind it the reader does not see it at all. */
  lemma Zip64FirstBlock(u: int, c: int, o: int, rest: bytes, x: Conf, e: Shared)
    ensures |rest| < 4 ==> ScanFrom(EncodeZip64(u, c, o) + rest, x, e) == x
    ensures |rest| >= 4 ==>
              (ScanFrom(EncodeZip64(u, c, o) + rest, x, e)
               == ScanFrom(rest[4..], Zip64Values(x.(hasZip64 := true), Zip64Payload(u, c, o) + rest[..4], e), e))
  {
    Zip64Front(u, c, o, rest);
  }

  lemma Zip64Front(u: int, c: int, o: int, rest: bytes)
    ensures var (s, p) := (EncodeZip64(u, c, o) + rest, Zip64Payload(u, c, o));
            && (HasBlock(s) <==> |rest| >= 4)
            && (|rest| >= 4 ==>
                TagOf(s) == ZIP64_TAG && BlockLen(s) == 8 + |p| && s[8 + |p|..] == rest[4..]
                  && s[4..8 + |p|] == p + rest[..4])
  {
    var p := Zip64Payload(u, c, o);
    var s := EncodeZip64(u, c, o) + rest;
    ReadWritten2(ZIP64_TAG);
    ReadWritten2(4 + |p|);
    Associate(LE(2, ZIP64_TAG) + LE(2, 4 + |p|), p, rest);
    Slices(LE(2, ZIP64_TAG), LE(2, 4 + |p|), p, rest);
  }

  lemma Slices(a: bytes, b: bytes, p: bytes, rest: bytes)
    requires |a| == |b| == 2
    ensures var s := a + b + (p + rest);
            && s[0..2] == a && s[2..4] == b
               && (|rest| >= 4 ==> s[8 + |p|..] == rest[4..] && s[4..8 + |p|] == p + rest[..4])
  {
  }

  /** When the central directory entry of a large file reads back: exactly when at least four bytes of
      other blocks follow the Zip64 block and no value of exactly 0xFFFFFFFF precedes a stored one;
      provided the misaligned walk over those blocks meets no further Zip64 tag. */
  lemma Zip64ReadBackIff(u: int, c: int, o: int, rest: bytes, e: Shared)
    requires Int64s(u, c, o) && RequiresZip64(u, c, o) && Saturated(e, u, c, o)
    requires |rest| >= 4 ==> NoZip64(rest[4..])
    ensures HasValues(ScanFrom(EncodeZip64(u, c, o) + rest, InitialConf(e), e), u, c, o)
       <==> |rest| >= 4 && Unshifted(u, c, o)
  {
    var x := InitialConf(e);
    Zip64FirstBlock(u, c, o, rest, x, e);
    if |rest| >= 4 {
      var y := Zip64Values(x.(hasZip64 := true), Zip64Payload(u, c, o) + rest[..4], e);
      Zip64PayloadIff(u, c, o, rest[..4], x.(hasZip64 := true), e);
      ScanKeepsSizes(rest[4..], y, e);
    }
  }

  /** A large entry with no other block: neither the sizes nor the presence of Zip64 is recovered. */
  lemma LoneZip64Lost(u: int, c: int, o: int, e: Shared)
    requires Int64s(u, c, o) && RequiresZip64(u, c, o) && Saturated(e, u, c, o)
    ensures ScanFrom(EncodeZip64(u, c, o), InitialConf(e), e) == InitialConf(e)
    ensures !HasValues(InitialConf(e), u, c, o)
  {
    Zip64FirstBlock(u, c, o, [], InitialConf(e), e);
    assert EncodeZip64(u, c, o) + [] == EncodeZip64(u, c, o);
  }

  lemma AesMisaligned(scheme: u16)
    ensures !HasBlock(EncodeAes(scheme)[4..])
  {
    var head, t := LE(2, AES_TAG) + LE(2, 7), LE(2, 2) + [65, 69] + [3] + LE(2, scheme);
    assert EncodeAes(scheme) == head + t;
    DropFirst(head, t);
    Parts4(LE(2, 2), [65, 69], [3], LE(2, scheme));
    AtSameLeast(t[2..4]);
  }

  lemma AtSameLeast(s: bytes)
    requires s != []
    ensures UnLE(s) >= s[0]
  {
  }

  /** A large encrypted entry: the sizes survive, but the AES block behind the Zip64 block is lost, so
      the entry is taken for one of the legacy cipher and its real method is unknown. */
  lemma Zip64HidesAes(u: int, c: int, o: int, scheme: u16, e: Shared)
    requires Int64s(u, c, o) && RequiresZip64(u, c, o) && Saturated(e, u, c, o)
    ensures var r := ScanFrom(EncodeZip64(u, c, o) + EncodeAes(scheme), InitialConf(e), e);
            && (HasValues(r, u, c, o) <==> Unshifted(u, c, o))
            && r.encryption == InitialConf(e).encryption && r.scheme == e.scheme
  {
    var rest := EncodeAes(scheme);
    var t := rest[4..];
    AesMisaligned(scheme);
    Zip64ReadBackIff(u, c, o, rest, e);
    Zip64FirstBlock(u, c, o, rest, InitialConf(e), e);
  }

  /** A large entry with NTFS times: the walk, off by four bytes, takes the attribute inside the NTFS
      block (tag 1, size 24) for a Zip64 block and reads time stamps as sizes. */
  lemma Zip64ReadsTimestamps(u: int, c: int, o: int, write: u64, access: u64, creation: u64, e: Shared)
    requires Int64s(u, c, o) && u > MAX_UINT32 && Saturated(e, u, c, o)
    ensures ScanFrom(EncodeZip64(u, c, o) + EncodeNtfs(write, access, creation), InitialConf(e), e).usize ==
            ToInt64(write)
  {
    var rest := EncodeNtfs(write, access, creation);
    Zip64FirstBlock(u, c, o, rest, InitialConf(e), e);
    NtfsMisaligned(write, access, creation);
    var v := rest[8..];
    assert rest[4..][4..] == v;
    NtfsAttribute(v, write, access, creation);
    ReadWritten8(write);
    var y := Zip64Values(InitialConf(e).(hasZip64 := true), Zip64Payload(u, c, o) + rest[..4], e);
    assert ScanFrom(rest[4..], y, e) == ScanFrom(v, y, e);
    var z := Zip64Values(y.(hasZip64 := true), v[4..28], e);
    assert ScanFrom(v, y, e) == ScanFrom(v[28..], z, e) == z;
  }

  lemma NtfsMisaligned(write: u64, access: u64, creation: u64)
    ensures var t := EncodeNtfs(write, access, creation)[4..];
            && HasBlock(t) && BlockLen(t) == 4 && TagOf(t) == 0
            && t[4..] == LE(2, 1) + LE(2, 24) + LE(8, write) + LE(8, access) + LE(8, creation)
    ensures EncodeNtfs(write, access, creation)[8..] ==
            LE(2, 1) + LE(2, 24) + LE(8, write) + LE(8, access) + LE(8, creation)
  {
    var head, zero := LE(2, NTFS_TAG) + LE(2, 32), LE(4, 0);
    var tail := LE(2, 1) + LE(2, 24) + LE(8, write) + LE(8, access) + LE(8, creation);
    ZeroDigit(2);
    ZeroDigit(3);
    assert zero == LE(2, 0) + LE(2, 0);
    var t := LE(2, 0) + LE(2, 0) + tail;
    assert EncodeNtfs(write, access, creation) == head + t;
    DropFirst(head, t);
    ReadWritten2(0);
    EmptyBlockFirst(LE(2, 0), tail);
    assert EncodeNtfs(write, access, creation) == (head + LE(2, 0) + LE(2, 0)) + tail;
    DropFirst(head + LE(2, 0) + LE(2, 0), tail);
  }

  lemma EmptyBlockFirst(zero: bytes, tail: bytes)
    requires |zero| == 2 && UnLE(zero) == 0
    ensures var t := zero + zero + tail;
            HasBlock(t) && BlockLen(t) == 4 && TagOf(t) == 0 && t[4..] == tail
  {
    var t := zero + zero + tail;
    assert t[0..2] == zero && t[2..4] == zero;
  }

  lemma DropFirst(a: bytes, b: bytes)
    ensures (a + b)[|a|..] == b
  {
  }

  lemma NtfsAttribute(v: bytes, write: u64, access: u64, creation: u64)
    requires v == LE(2, 1) + LE(2, 24) + LE(8, write) + LE(8, access) + LE(8, creation)
    ensures HasBlock(v) && TagOf(v) == ZIP64_TAG && BlockLen(v) == 28 && v[28..] == []
    ensures v[4..28][0..8] == LE(8, write)
  {
    assert v == LE(2, 1) + LE(2, 24) + LE(8, write) + (LE(8, access) + LE(8, creation));
    Parts4(LE(2, 1), LE(2, 24), LE(8, write), LE(8, access) + LE(8, creation));
    ReadWritten2(1);
    ReadWritten2(24);
    SubSlice(v, 4, 28, 0, 8);
  }

  lemma Parts4(a: bytes, b: bytes, c: bytes, d: bytes)
    ensures var s := a + b + c + d;
            && s[0..|a|] == a && s[|a|..|a| + |b|] == b && s[|a| + |b|..|a| + |b| + |c|] == c
            && s[|a| + |b| + |c|..|a| + |b| + |c| + |d|] == d
  {
  }

  /** The Zip64 block of a local header has the right length, but always holds both sizes: it reads
      back exactly when the compressed size alone does not exceed the limit. */
  lemma LocalZip64Iff(u: int, c: int, e: Shared)
    requires Int64s(u, c, 0) && (u > MAX_UINT32 || c > MAX_UINT32) && Saturated(e, u, c, 0)
    ensures HasValues(ScanFrom(EncodeZip64Local(u, c), InitialConf(e), e), u, c, 0) <==> u >= MAX_UINT32
    ensures ScanFrom(EncodeZip64Local(u, c), InitialConf(e), e).hasZip64
  {
    var s := EncodeZip64Local(u, c);
    Parts4(LE(2, ZIP64_TAG), LE(2, 16), LE(8, u), LE(8, c));
    ReadWritten2(ZIP64_TAG);
    ReadWritten2(16);
    assert HasBlock(s) && BlockLen(s) == 20 && s[20..] == [];
    var data := s[4..20];
    assert data[0..8] == s[4..12] && data[8..16] == s[12..20];
    ReadWritten8(u);
    ReadWritten8(c);
    assert ScanFrom(s, InitialConf(e), e) == Zip64Values(InitialConf(e).(hasZip64 := true), data, e);
  }

  /** Wherever a local Zip64 block stands first, it is seen. */
  lemma LocalZip64Seen(u: int, c: int, rest: bytes, x: Conf, e: Shared)
    ensures ScanFrom(EncodeZip64Local(u, c) + rest, x, e)
         == ScanFrom(rest, Zip64Values(x.(hasZip64 := true), LE(8, u) + LE(8, c), e), e)
  {
    var b := EncodeZip64Local(u, c);
    Parts4(LE(2, ZIP64_TAG), LE(2, 16), LE(8, u), LE(8, c));
    ReadWritten2(ZIP64_TAG);
    ReadWritten2(16);
    assert b[4..] == LE(8, u) + LE(8, c);
    FirstBlock(ZIP64_TAG, b, rest);
    assert (b + rest)[4..20] == b[4..];
  }

  /** The written NTFS block has 32 bytes of payload, and the reader wants 36: it is never read. */
  lemma NtfsNeverRead(write: u64, access: u64, creation: u64, rest: bytes, x: Conf, e: Shared)
    ensures ScanFrom(EncodeNtfs(write, access, creation) + rest, x, e) == ScanFrom(rest, x, e)
  {
    var b := EncodeNtfs(write, access, creation);
    var tail := LE(4, 0) + LE(2, 1) + LE(2, 24) + LE(8, write) + LE(8, access) + LE(8, creation);
    assert b == LE(2, NTFS_TAG) + LE(2, 32) + tail + [];
    Parts4(LE(2, NTFS_TAG), LE(2, 32), tail, []);
    ReadWritten2(NTFS_TAG);
    ReadWritten2(32);
    FirstBlock(NTFS_TAG, b, rest);
    assert |(b + rest)[4..36]| == 32;
  }
}
