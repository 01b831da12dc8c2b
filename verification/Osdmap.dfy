/**
 common/osdmap.c: an osdmap in a buffer. What is stored is a version byte, the epoch, the number
 of placement groups, the number of OSDs, and for each OSD a version byte and its id; hosts and
 ports are not.
 */
module Osdmap {
  import opened RbOrder
  import opened Errno
  import opened Buffer
  import opened Encode

  const VERSION := 1

  type Int32 = v: int | -0x8000_0000 <= v < 0x8000_0000

  /** osd_count is the number of ids. */
  datatype OsdMap = OsdMap(epoch: Int32, pgCount: Int32, osds: seq<Int32>)

  /** The fields before the OSDs. */
  datatype Head = Head(epoch: Int32, pgCount: Int32, osdCount: Int32)

  lemma FitsInt32(v: int)
    ensures Fits(v, 4) <==> -0x8000_0000 <= v < 0x8000_0000
  {
    assert Pow256(4) == 256 * Pow256(3) == 65536 * Pow256(2);
  }

  /** osd_count is an int. */
  ghost predicate Valid(m: OsdMap) {
    |m.osds| < 0x8000_0000
  }

  ghost function HeadOf(m: OsdMap): Head
    requires Valid(m)
  {
    Head(m.epoch, m.pgCount, |m.osds|)
  }

  ghost function Int32Bytes(v: Int32): (b: Bytes)
    ensures |b| == 4 && Fits(v, 4) && b == IntBytes(v, 4)
  {
    FitsInt32(v);
    IntBytes(v, 4)
  }

  ghost function VersionBytes(): (b: Bytes)
    ensures |b| == 1
  {
    IntBytes(VERSION, 1)
  }

  ghost function EntityBytes(id: Int32): (b: Bytes)
    ensures |b| == 5
  {
    VersionBytes() + Int32Bytes(id)
  }

  ghost function OsdsBytes(osds: seq<Int32>): (b: Bytes)
    ensures |b| == 5 * |osds|
  {
    if osds == [] then [] else EntityBytes(osds[0]) + OsdsBytes(osds[1..])
  }

  ghost function HeadBytes(h: Head): (b: Bytes)
    ensures |b| == 12
  {
    Int32Bytes(h.epoch) + Int32Bytes(h.pgCount) + Int32Bytes(h.osdCount)
  }

  ghost function MapBytes(m: OsdMap): (b: Bytes)
    requires Valid(m)
    ensures |b| == 13 + 5 * |m.osds|
  {
    VersionBytes() + HeadBytes(HeadOf(m)) + OsdsBytes(m.osds)
  }

  // ---- where the fields are ----

  ghost predicate EntityAt(b: Bytes, at: nat, id: Int32) {
    at + 5 <= |b| && IntOf(b[at..at + 1]) == 1 && IntOf(b[at + 1..at + 5]) == id
  }

  ghost predicate EntitiesAt(b: Bytes, at: nat, osds: seq<Int32>) {
    forall i :: 0 <= i < |osds| ==> EntityAt(b, at + 5 * i, osds[i])
  }

  /** A version, the epoch, the number of placement groups and that of OSDs, and for each OSD a
      version and its id. */
  ghost predicate LaidOut(b: Bytes, m: OsdMap) {
    && |b| == 13 + 5 * |m.osds|
    && IntOf(b[..1]) == 1 && IntOf(b[1..5]) == m.epoch && IntOf(b[5..9]) == m.pgCount && IntOf(b[9..13]) == |m.osds|
    && EntitiesAt(b, 13, m.osds)
  }

  lemma SameBytes(b: Bytes, v: int, width: nat)
    requires |b| == width && Fits(v, width)
    ensures b == IntBytes(v, width) <==> IntOf(b) == v
  {
    BytesRoundTrip(b);
    IntRoundTrip(v, width);
  }

  lemma VersionLayout(b: Bytes)
    requires |b| == 1
    ensures b == VersionBytes() <==> IntOf(b) == 1
  {
    SameBytes(b, VERSION, 1);
  }

  lemma Int32Layout(b: Bytes, v: Int32)
    requires |b| == 4
    ensures b == Int32Bytes(v) <==> IntOf(b) == v
  {
    FitsInt32(v);
    SameBytes(b, v, 4);
  }

  lemma HeadLayout(b: Bytes, h: Head)
    requires |b| == 12
    ensures b == HeadBytes(h) <==> IntOf(b[..4]) == h.epoch && IntOf(b[4..8]) == h.pgCount && IntOf(b[8..12]) == h.osdCount
  {
    hide Int32Bytes, IntOf;
    Int32Layout(b[..4], h.epoch);
    Int32Layout(b[4..8], h.pgCount);
    Int32Layout(b[8..12], h.osdCount);
    var e := HeadBytes(h);
    assert b == b[..4] + b[4..8] + b[8..12];
    assert e[..4] == Int32Bytes(h.epoch) && e[4..8] == Int32Bytes(h.pgCount) && e[8..12] == Int32Bytes(h.osdCount);
  }

  lemma EntityLayout(b: Bytes, id: Int32)
    requires |b| == 5
    ensures b == EntityBytes(id) <==> EntityAt(b, 0, id)
  {
    hide Int32Bytes, IntOf, VersionBytes;
    VersionLayout(b[..1]);
    Int32Layout(b[1..5], id);
    assert b == b[..1] + b[1..5] && b[0..1] == b[..1];
  }

  lemma EntitiesBehind(a: Bytes, b: Bytes, at: nat, osds: seq<Int32>)
    ensures EntitiesAt(a + b, |a| + at, osds) <==> EntitiesAt(b, at, osds)
  {
    hide IntOf, EntityAt;
    forall i | 0 <= i < |osds| ensures EntityAt(a + b, |a| + at + 5 * i, osds[i]) <==> EntityAt(b, at + 5 * i, osds[i]) {
      EntityBehind(a, b, at + 5 * i, osds[i]);
    }
  }

  lemma EntityBehind(a: Bytes, b: Bytes, at: nat, id: Int32)
    ensures EntityAt(a + b, |a| + at, id) <==> EntityAt(b, at, id)
  {
    hide IntOf;
    if at + 5 <= |b| {
      assert (a + b)[|a| + at..|a| + at + 1] == b[at..at + 1];
      assert (a + b)[|a| + at + 1..|a| + at + 5] == b[at + 1..at + 5];
    }
  }

  lemma {:induction false} OsdsLayout(b: Bytes, osds: seq<Int32>)
    requires |b| == 5 * |osds|
    ensures b == OsdsBytes(osds) <==> EntitiesAt(b, 0, osds)
    decreases |osds|
  {
    hide EntityBytes, EntityAt;
    if osds != [] {
      var first, rest := b[..5], b[5..];
      EntityLayout(first, osds[0]);
      OsdsLayout(rest, osds[1..]);
      assert b == first + rest;
      EntitiesBehind(first, rest, 0, osds[1..]);
      FirstEntity(first, rest, osds);
    }
  }

  lemma FirstEntity(first: Bytes, rest: Bytes, osds: seq<Int32>)
    requires |first| == 5 && osds != []
    ensures EntitiesAt(first + rest, 0, osds) <==> EntityAt(first, 0, osds[0]) && EntitiesAt(first + rest, 5, osds[1..])
  {
    hide IntOf, EntityAt;
    var b := first + rest;
    assert EntityAt(b, 0, osds[0]) <==> EntityAt(first, 0, osds[0]) by {
      FrontEntity(first, rest, osds[0]);
    }
    if EntitiesAt(b, 5, osds[1..]) && EntityAt(b, 0, osds[0]) {
      forall i | 0 <= i < |osds| ensures EntityAt(b, 0 + 5 * i, osds[i]) {
        assert i > 0 ==> EntityAt(b, 5 + 5 * (i - 1), osds[1..][i - 1]);
      }
    }
    if EntitiesAt(b, 0, osds) {
      forall i | 0 <= i < |osds[1..]| ensures EntityAt(b, 5 + 5 * i, osds[1..][i]) {
        assert EntityAt(b, 0 + 5 * (i + 1), osds[i + 1]);
      }
      assert EntityAt(b, 0 + 5 * 0, osds[0]);
    }
  }

  lemma FrontEntity(first: Bytes, rest: Bytes, id: Int32)
    requires |first| == 5
    ensures EntityAt(first + rest, 0, id) <==> EntityAt(first, 0, id)
  {
    assert (first + rest)[0..1] == first[0..1] && (first + rest)[1..5] == first[1..5];
  }

  lemma Slices(b: Bytes, lo: nat, hi: nat, i: nat, j: nat)
    requires i <= j && lo + j <= hi <= |b|
    ensures b[lo..hi][i..j] == b[lo + i..lo + j]
  {
    var c := b[lo..hi];
    forall k | 0 <= k < j - i ensures c[i..j][k] == b[lo + i..lo + j][k] {
      assert c[i + k] == b[lo + i + k];
    }
  }

  /** Those bytes, and no others, are the encoding of the map. */
  lemma Layout(b: Bytes, m: OsdMap)
    requires Valid(m)
    ensures b == MapBytes(m) <==> LaidOut(b, m)
  {
    hide HeadBytes, OsdsBytes, VersionBytes, EntitiesAt, IntOf;
    if |b| == 13 + 5 * |m.osds| {
      var head, osds := b[1..13], b[13..];
      VersionLayout(b[..1]);
      HeadLayout(head, HeadOf(m));
      Slices(b, 1, 13, 0, 4);
      Slices(b, 1, 13, 4, 8);
      Slices(b, 1, 13, 8, 12);
      assert head[..4] == head[0..4];
      OsdsLayout(osds, m.osds);
      assert b == b[..13] + osds;
      EntitiesBehind(b[..13], osds, 0, m.osds);
      assert b == b[..1] + head + osds;
      var e := MapBytes(m);
      assert e[..1] == VersionBytes() && e[1..13] == HeadBytes(HeadOf(m)) && e[13..] == OsdsBytes(m.osds);
    }
  }

  // ---- decoding, as a function of the bytes that are left and of what the memory held before ----

  ghost function Skip(b: Bytes, n: nat): Bytes {
    if n <= |b| then b[n..] else []
  }

  ghost function TakeInt32(b: Bytes, was: Int32): (r: (Int32, Bytes))
    ensures r.1 == Skip(b, 4)
  {
    FitsInt32(was);
    var r := TakeInt(b, 4, was);
    FitsInt32(r.0);
    (r.0, r.1)
  }

  /** The variable for the version is 0 before. */
  ghost predicate VersionOk(b: Bytes) {
    TakeInt(b, 1, 0).0 == VERSION
  }

  ghost function TakeHead(b: Bytes, was: Head): (r: (Head, Bytes))
    ensures r.1 == Skip(b, 12)
  {
    var epoch := TakeInt32(b, was.epoch);
    var pgCount := TakeInt32(epoch.1, was.pgCount);
    var osdCount := TakeInt32(pgCount.1, was.osdCount);
    (Head(epoch.0, pgCount.0, osdCount.0), osdCount.1)
  }

  /** `memory` is what the new array of OSDs holds for the ids. */
  ghost function TakeOsds(b: Bytes, memory: seq<Int32>): (r: (seq<Int32>, Bytes))
    ensures r.1 == Skip(b, 5 * |memory|)
    decreases |memory|
  {
    if memory == [] then ([], b)
    else
      var id := TakeInt32(Skip(b, 1), memory[0]);
      var ids := TakeOsds(id.1, memory[1..]);
      ([id.0] + ids.0, ids.1)
  }

  ghost predicate OsdVersions(b: Bytes, n: nat)
    decreases n
  {
    n > 0 ==> VersionOk(b) && OsdVersions(Skip(b, 5), n - 1)
  }

  /** The versions are right wherever the code asserts it. */
  ghost predicate Asserts(b: Bytes, was: Head) {
    VersionOk(b) && var h := TakeHead(Skip(b, 1), was); h.0.osdCount >= 0 ==> OsdVersions(h.1, h.0.osdCount)
  }

  /** Return code, map and the bytes left. The return codes of the reads are not looked at; with
      a negative number of OSDs the array is not allocated. */
  ghost function Decoded(b: Bytes, was: Head, memory: seq<Int32>): (int, OsdMap, Bytes) {
    var h := TakeHead(Skip(b, 1), was);
    if h.0.osdCount < 0 then (ERR_NO_ENOUGH_MEM, OsdMap(h.0.epoch, h.0.pgCount, []), h.1)
    else
      var osds := TakeOsds(h.1, memory);
      (OK, OsdMap(h.0.epoch, h.0.pgCount, osds.0), osds.1)
  }

  // ---- decoding undoes encoding, whatever follows and whatever was there before ----

  lemma TakeVersionBytes(rest: Bytes)
    ensures VersionOk(VersionBytes() + rest) && Skip(VersionBytes() + rest, 1) == rest
  {
    var b := VersionBytes() + rest;
    TakeWhole(b, 1, 0);
    IntRoundTrip(VERSION, 1);
    assert b[..1] == VersionBytes();
  }

  lemma TakeInt32Bytes(v: Int32, rest: Bytes, was: Int32)
    ensures TakeInt32(Int32Bytes(v) + rest, was) == (v, rest)
  {
    var b := Int32Bytes(v) + rest;
    FitsInt32(was);
    TakeWhole(b, 4, was);
    IntRoundTrip(v, 4);
    assert b[..4] == Int32Bytes(v) && b[4..] == rest;
  }

  lemma TakeHeadBytes(h: Head, rest: Bytes, was: Head)
    ensures TakeHead(HeadBytes(h) + rest, was) == (h, rest)
  {
    hide TakeInt32, Int32Bytes;
    var c := Int32Bytes(h.osdCount) + rest;
    var p := Int32Bytes(h.pgCount) + c;
    assert HeadBytes(h) + rest == Int32Bytes(h.epoch) + p;
    TakeInt32Bytes(h.epoch, p, was.epoch);
    TakeInt32Bytes(h.pgCount, c, was.pgCount);
    TakeInt32Bytes(h.osdCount, rest, was.osdCount);
  }

  /** The first OSD and the others. */
  lemma TakeFirst(b: Bytes, memory: seq<Int32>)
    requires memory != []
    ensures var id := TakeInt32(Skip(b, 1), memory[0]); var ids := TakeOsds(id.1, memory[1..]);
      && TakeOsds(b, memory) == ([id.0] + ids.0, ids.1)
      && (OsdVersions(b, |memory|) <==> VersionOk(b) && OsdVersions(id.1, |memory| - 1))
  {
    hide TakeInt32, VersionOk;
    assert TakeInt32(Skip(b, 1), memory[0]).1 == Skip(b, 5);
  }

  lemma {:induction false} TakeOsdsBytes(osds: seq<Int32>, rest: Bytes, memory: seq<Int32>)
    requires |memory| == |osds|
    ensures TakeOsds(OsdsBytes(osds) + rest, memory) == (osds, rest)
    ensures OsdVersions(OsdsBytes(osds) + rest, |osds|)
    decreases |osds|
  {
    hide TakeInt32, Int32Bytes, VersionBytes, VersionOk, TakeOsds, OsdVersions;
    var b := OsdsBytes(osds) + rest;
    if osds == [] {
      NoOsds(b, memory);
      assert b == rest;
    } else {
      var more := OsdsBytes(osds[1..]) + rest;
      assert b == VersionBytes() + (Int32Bytes(osds[0]) + more);
      TakeVersionBytes(Int32Bytes(osds[0]) + more);
      TakeInt32Bytes(osds[0], more, memory[0]);
      TakeOsdsBytes(osds[1..], rest, memory[1..]);
      TakeFirst(b, memory);
      assert [osds[0]] + osds[1..] == osds;
    }
  }

  lemma NoOsds(b: Bytes, memory: seq<Int32>)
    requires memory == []
    ensures TakeOsds(b, memory) == ([], b) && OsdVersions(b, 0)
  {}

  /** An encoded map is decoded to itself, no assertion fails, and exactly its 13 + 5n bytes are
      consumed. */
  lemma DecodedBytes(m: OsdMap, rest: Bytes, was: Head, memory: seq<Int32>)
    requires Valid(m) && |memory| == |m.osds|
    ensures Asserts(MapBytes(m) + rest, was) && |MapBytes(m)| == 13 + 5 * |m.osds|
    ensures Decoded(MapBytes(m) + rest, was, memory) == (OK, m, rest)
  {
    hide HeadBytes, TakeHead, VersionBytes, VersionOk, TakeOsds, OsdVersions;
    var more := OsdsBytes(m.osds) + rest;
    assert MapBytes(m) + rest == VersionBytes() + (HeadBytes(HeadOf(m)) + more);
    TakeVersionBytes(HeadBytes(HeadOf(m)) + more);
    TakeHeadBytes(HeadOf(m), more, was);
    TakeOsdsBytes(m.osds, rest, memory);
  }

  ghost function MapsBytes(ms: seq<OsdMap>): Bytes
    requires forall i :: 0 <= i < |ms| ==> Valid(ms[i])
  {
    if ms == [] then [] else MapBytes(ms[0]) + MapsBytes(ms[1..])
  }

  /** As many decodings in a row as there are memories, all into one variable. */
  ghost function DecodedAll(b: Bytes, was: Head, memories: seq<seq<Int32>>): (seq<OsdMap>, Bytes)
    decreases |memories|
  {
    if memories == [] then ([], b)
    else
      var d := Decoded(b, was, memories[0]);
      var rest := DecodedAll(d.2, TakeHead(Skip(b, 1), was).0, memories[1..]);
      ([d.1] + rest.0, rest.1)
  }

  /** Maps encoded one after another are decoded in their order. */
  lemma {:induction false} DecodedMapsBytes(ms: seq<OsdMap>, rest: Bytes, was: Head, memories: seq<seq<Int32>>)
    requires forall i :: 0 <= i < |ms| ==> Valid(ms[i])
    requires |memories| == |ms| && forall i :: 0 <= i < |ms| ==> |memories[i]| == |ms[i].osds|
    ensures DecodedAll(MapsBytes(ms) + rest, was, memories) == (ms, rest)
    decreases |ms|
  {
    hide MapBytes, Decoded, Valid;
    var b := MapsBytes(ms) + rest;
    if ms == [] {
      assert b == rest;
    } else {
      var more := MapsBytes(ms[1..]) + rest;
      assert b == MapBytes(ms[0]) + more;
      DecodedBytes(ms[0], more, was, memories[0]);
      DecodedMapsBytes(ms[1..], rest, TakeHead(Skip(b, 1), was).0, memories[1..]);
      assert [ms[0]] + ms[1..] == ms;
    }
  }

  /** Different maps are never encoded alike, not even followed by other bytes. */
  lemma MapBytesUnique(m: OsdMap, rest: Bytes, m': OsdMap, rest': Bytes)
    requires Valid(m) && Valid(m') && MapBytes(m) + rest == MapBytes(m') + rest'
    ensures m == m' && rest == rest'
  {
    var was := Head(0, 0, 0);
    hide MapBytes, Decoded;
    DecodedBytes(m, rest, was, m.osds);
    DecodedBytes(m', rest', was, m'.osds);
    assert |m.osds| == |m'.osds| by {
      SameCount(m, rest, m', rest');
    }
    DecodedBytes(m', rest', was, m.osds);
  }

  lemma SameCount(m: OsdMap, rest: Bytes, m': OsdMap, rest': Bytes)
    requires Valid(m) && Valid(m') && MapBytes(m) + rest == MapBytes(m') + rest'
    ensures |m.osds| == |m'.osds|
  {
    hide HeadBytes, TakeHead, VersionBytes;
    var was, b := Head(0, 0, 0), MapBytes(m) + rest;
    var more, more' := OsdsBytes(m.osds) + rest, OsdsBytes(m'.osds) + rest';
    assert b == VersionBytes() + (HeadBytes(HeadOf(m)) + more);
    assert b == VersionBytes() + (HeadBytes(HeadOf(m')) + more');
    assert b[1..] == HeadBytes(HeadOf(m)) + more == HeadBytes(HeadOf(m')) + more';
    TakeHeadBytes(HeadOf(m), more, was);
    TakeHeadBytes(HeadOf(m'), more', was);
  }

  // ---- buffers that end early ----

  /** The bytes left begin with a whole map. */
  ghost predicate Whole(b: Bytes) {
    exists m, rest :: Valid(m) && b == MapBytes(m) + rest
  }

  ghost function CountOf(b: Bytes, was: Head): Int32 {
    TakeHead(Skip(b, 1), was).0.osdCount
  }

  /** Where no assertion fails and the code returns OK, the bytes left hold a whole map exactly if
      there are enough of them. If not, the code has returned OK all the same, and either the
      buffer ended among the first 13 bytes and what the map held before made the number of OSDs 0,
      or it ended in the id of the last OSD. */
  lemma EarlyEnd(b: Bytes, was: Head)
    requires Asserts(b, was) && CountOf(b, was) >= 0
    ensures Whole(b) <==> |b| as int >= 13 + 5 * CountOf(b, was) as int
    ensures !Whole(b) <==> (if CountOf(b, was) == 0 then |b| < 13
      else 13 + 5 * CountOf(b, was) - 4 <= |b| < 13 + 5 * CountOf(b, was))
  {
    var n: nat := CountOf(b, was);
    hide VersionBytes, HeadBytes, OsdsBytes, TakeHead, VersionOk, OsdVersions;
    VersionsLength(TakeHead(Skip(b, 1), was).1, n);
    VersionInverse(b);
    if m, rest :| Valid(m) && b == MapBytes(m) + rest {
      WholeCount(m, rest, was);
    }
    if |b| >= 13 + 5 * n {
      EnoughBytes(b, was);
    }
  }

  lemma EnoughBytes(b: Bytes, was: Head)
    requires Asserts(b, was) && CountOf(b, was) >= 0 && |b| as int >= 13 + 5 * CountOf(b, was) as int
    ensures Whole(b)
  {
    hide HeadBytes, OsdsBytes, TakeHead, VersionOk, OsdVersions, TakeOsds;
    var h := TakeHead(Skip(b, 1), was);
    var memory := seq(h.0.osdCount, i => 0);
    VersionInverse(b);
    HeadInverse(b[1..], was);
    OsdsInverse(h.1, memory);
    var osds := TakeOsds(h.1, memory);
    var m := OsdMap(h.0.epoch, h.0.pgCount, osds.0);
    assert b == MapBytes(m) + osds.1;
  }

  lemma WholeCount(m: OsdMap, rest: Bytes, was: Head)
    requires Valid(m)
    ensures CountOf(MapBytes(m) + rest, was) == |m.osds|
  {
    hide HeadBytes, TakeHead, VersionBytes;
    var more := OsdsBytes(m.osds) + rest;
    assert MapBytes(m) + rest == VersionBytes() + (HeadBytes(HeadOf(m)) + more);
    assert Skip(MapBytes(m) + rest, 1) == HeadBytes(HeadOf(m)) + more;
    TakeHeadBytes(HeadOf(m), more, was);
  }

  lemma {:induction false} VersionsLength(b: Bytes, n: nat)
    requires OsdVersions(b, n)
    ensures n > 0 ==> |b| >= 5 * n - 4
    decreases n
  {
    if n > 0 {
      VersionInverse(b);
      VersionsLength(Skip(b, 5), n - 1);
    }
  }

  lemma NoVersion()
    ensures !VersionOk([])
  {
    IntRoundTrip(0, 1);
    assert [] + IntBytes(0, 1)[0..] == IntBytes(0, 1);
  }

  lemma VersionInverse(b: Bytes)
    requires VersionOk(b)
    ensures |b| >= 1 && b == VersionBytes() + Skip(b, 1)
  {
    NoVersion();
    TakeWhole(b, 1, 0);
    BytesRoundTrip(b[..1]);
    assert b == b[..1] + b[1..];
  }

  lemma Int32Inverse(b: Bytes, was: Int32)
    requires |b| >= 4
    ensures b == Int32Bytes(TakeInt32(b, was).0) + b[4..]
  {
    FitsInt32(was);
    TakeWhole(b, 4, was);
    BytesRoundTrip(b[..4]);
    assert b == b[..4] + b[4..];
  }

  lemma HeadInverse(b: Bytes, was: Head)
    requires |b| >= 12
    ensures b == HeadBytes(TakeHead(b, was).0) + b[12..]
  {
    hide TakeInt32, Int32Bytes;
    Drops(b, 4, 4);
    Drops(b, 8, 4);
    Int32Inverse(b, was.epoch);
    Int32Inverse(b[4..], was.pgCount);
    Int32Inverse(b[8..], was.osdCount);
    var h := TakeHead(b, was).0;
    ThreeParts(Int32Bytes(h.epoch), Int32Bytes(h.pgCount), Int32Bytes(h.osdCount), b[12..]);
  }

  lemma Drops(b: Bytes, i: nat, j: nat)
    requires i + j <= |b|
    ensures b[i..][j..] == b[i + j..]
  {}

  lemma ThreeParts(a: Bytes, b: Bytes, c: Bytes, rest: Bytes)
    ensures a + (b + (c + rest)) == a + b + c + rest
  {}

  lemma EntityInverse(b: Bytes, was: Int32)
    requires VersionOk(b) && |b| >= 5
    ensures b == EntityBytes(TakeInt32(b[1..], was).0) + b[5..]
  {
    hide TakeInt32, Int32Bytes, VersionBytes;
    VersionInverse(b);
    Int32Inverse(b[1..], was);
    assert b[1..][4..] == b[5..];
  }

  lemma {:induction false} OsdsInverse(b: Bytes, memory: seq<Int32>)
    requires OsdVersions(b, |memory|) && |b| >= 5 * |memory|
    ensures |TakeOsds(b, memory).0| == |memory| && b == OsdsBytes(TakeOsds(b, memory).0) + b[5 * |memory|..]
    decreases |memory|
  {
    hide TakeInt32, EntityBytes, VersionOk;
    if memory != [] {
      EntityInverse(b, memory[0]);
      OsdsInverse(b[5..], memory[1..]);
      assert b[5..][5 * (|memory| - 1)..] == b[5 * |memory|..];
      var osds := TakeOsds(b, memory).0;
      assert osds[1..] == TakeOsds(b[5..], memory[1..]).0;
    }
  }

  // ---- the methods ----

  method EncodeOsdEntity(buffer: Buffer, id: Int32)
    requires buffer.Valid()
    modifies buffer, buffer.nodes, buffer.arrays
    ensures buffer.Valid() && buffer.content == old(buffer.content) + EntityBytes(id)
    ensures EntityAt(buffer.content, |old(buffer.content)|, id)
    ensures fresh(set n | n in buffer.nodes && n !in old(buffer.nodes)) && fresh(buffer.arrays - old(buffer.arrays))
  {
    FitsInt32(id);
    hide Buffer.Valid, IntBytes, EntityAt;
    EntityLayout(EntityBytes(id), id);
    EntityBehind(buffer.content, EntityBytes(id), 0, id);
    EncodeInt(buffer, VERSION, 1);
    EncodeInt(buffer, id, 4);
  }

  method EncodeHead(buffer: Buffer, m: OsdMap)
    requires buffer.Valid() && Valid(m)
    modifies buffer, buffer.nodes, buffer.arrays
    ensures buffer.Valid() && buffer.content == old(buffer.content) + (VersionBytes() + HeadBytes(HeadOf(m)))
    ensures fresh(set n | n in buffer.nodes && n !in old(buffer.nodes)) && fresh(buffer.arrays - old(buffer.arrays))
  {
    FitsInt32(m.epoch);
    FitsInt32(m.pgCount);
    FitsInt32(|m.osds|);
    hide Buffer.Valid, IntBytes;
    EncodeInt(buffer, VERSION, 1);
    EncodeInt(buffer, m.epoch, 4);
    EncodeInt(buffer, m.pgCount, 4);
    EncodeInt(buffer, |m.osds|, 4);
  }

  method EncodeOsdMap(buffer: Buffer, m: OsdMap)
    requires buffer.Valid() && Valid(m)
    modifies buffer, buffer.nodes, buffer.arrays
    ensures buffer.Valid() && buffer.content == old(buffer.content) + MapBytes(m)
    ensures LaidOut(buffer.content[|old(buffer.content)|..], m)
    ensures fresh(set n | n in buffer.nodes && n !in old(buffer.nodes)) && fresh(buffer.arrays - old(buffer.arrays))
  {
    hide Buffer.Valid, HeadBytes, EntityBytes, VersionBytes, LaidOut;
    EncodeHead(buffer, m);
    ghost var head := buffer.content;
    var i := 0;
    while i < |m.osds|
      invariant 0 <= i <= |m.osds| && buffer.Valid()
      invariant buffer.content + OsdsBytes(m.osds[i..]) == head + OsdsBytes(m.osds)
      invariant fresh(set n | n in buffer.nodes && n !in old(buffer.nodes)) && fresh(buffer.arrays - old(buffer.arrays))
    {
      ghost var was := buffer.content;
      EncodeOsdEntity(buffer, m.osds[i]);
      assert m.osds[i..][1..] == m.osds[i + 1..];
      assert was + OsdsBytes(m.osds[i..]) == buffer.content + OsdsBytes(m.osds[i + 1..]);
      i := i + 1;
    }
    assert m.osds[i..] == [] && buffer.content + [] == buffer.content;
    Layout(MapBytes(m), m);
    assert buffer.content[|old(buffer.content)|..] == MapBytes(m);
  }

  method DecodeVersion(reader: Reader)
    requires reader.Valid() && reader.buffer.content != [] && VersionOk(Rest(reader))
    modifies reader
    ensures reader.Valid() && Rest(reader) == Skip(old(Rest(reader)), 1)
  {
    hide Reader.Valid, Rest;
    var ret, v := DecodeInt(reader, 1, 0);
    assert v == VERSION;
  }

  method DecodeInt32(reader: Reader, was: Int32) returns (value: Int32)
    requires reader.Valid() && reader.buffer.content != []
    modifies reader
    ensures reader.Valid() && (value, Rest(reader)) == TakeInt32(old(Rest(reader)), was)
  {
    hide Reader.Valid, Rest;
    FitsInt32(was);
    var ret, v := DecodeInt(reader, 4, was);
    FitsInt32(v);
    value := v;
  }

  /** `was` is what the memory of the id holds before. */
  method DecodeOsdEntity(reader: Reader, was: Int32) returns (id: Int32)
    requires reader.Valid() && reader.buffer.content != [] && VersionOk(Rest(reader))
    modifies reader
    ensures reader.Valid() && (id, Rest(reader)) == TakeInt32(Skip(old(Rest(reader)), 1), was)
  {
    hide Reader.Valid, Rest, TakeInt32;
    DecodeVersion(reader);
    id := DecodeInt32(reader, was);
  }

  method DecodeHead(reader: Reader, was: Head) returns (h: Head)
    requires reader.Valid() && reader.buffer.content != []
    modifies reader
    ensures reader.Valid() && (h, Rest(reader)) == TakeHead(old(Rest(reader)), was)
  {
    hide Reader.Valid, Rest, TakeInt32;
    var epoch := DecodeInt32(reader, was.epoch);
    var pgCount := DecodeInt32(reader, was.pgCount);
    var osdCount := DecodeInt32(reader, was.osdCount);
    h := Head(epoch, pgCount, osdCount);
  }

  /** `was` is what the fields of the map hold before, and `memory` what is in the new array. */
  method DecodeOsdMap(reader: Reader, was: Head) returns (ret: int, m: OsdMap, ghost memory: seq<Int32>)
    requires reader.Valid() && reader.buffer.content != [] && Asserts(Rest(reader), was)
    modifies reader
    ensures reader.Valid() && (ret, m, Rest(reader)) == Decoded(old(Rest(reader)), was, memory)
    ensures |memory| == if ret == OK then CountOf(old(Rest(reader)), was) else 0
  {
    hide Reader.Valid, Rest, TakeInt32, TakeHead, VersionOk;
    DecodeVersion(reader);
    var h := DecodeHead(reader, was);
    if h.osdCount < 0 {
      return ERR_NO_ENOUGH_MEM, OsdMap(h.epoch, h.pgCount, []), [];
    }
    var osds;
    osds, memory := DecodeOsds(reader, h.osdCount);
    m := OsdMap(h.epoch, h.pgCount, osds);
    ret := OK;
  }

  /** After `i` turns of the loop: what is decoded, and what is left to decode, make up the whole. */
  ghost predicate Done(b: Bytes, memory: seq<Int32>, i: nat, osds: seq<Int32>, all: (seq<Int32>, Bytes)) {
    && i <= |memory| == |osds| && osds[i..] == memory[i..] && OsdVersions(b, |memory| - i)
    && var left := TakeOsds(b, memory[i..]); osds[..i] + left.0 == all.0 && left.1 == all.1
  }

  lemma NoneDone(b: Bytes, memory: seq<Int32>)
    requires OsdVersions(b, |memory|)
    ensures Done(b, memory, 0, memory, TakeOsds(b, memory))
  {
    assert memory[0..] == memory;
  }

  lemma OneDone(b: Bytes, memory: seq<Int32>, i: nat, osds: seq<Int32>, all: (seq<Int32>, Bytes), id: Int32, b': Bytes)
    requires Done(b, memory, i, osds, all) && i < |memory| && (id, b') == TakeInt32(Skip(b, 1), osds[i])
    ensures Done(b', memory, i + 1, osds[i := id], all)
  {
    hide TakeInt32, VersionOk, TakeOsds, OsdVersions;
    var rest, n := memory[i..], |memory| - i;
    TakeFirst(b, rest);
    assert rest[1..] == memory[i + 1..] && osds[i] == rest[0];
    assert osds[i := id][..i + 1] == osds[..i] + [id];
    assert osds[i := id][i + 1..] == osds[i..][1..];
    var left := TakeOsds(b', memory[i + 1..]);
    assert (osds[..i] + [id]) + left.0 == osds[..i] + ([id] + left.0);
  }

  lemma AllDone(b: Bytes, memory: seq<Int32>, i: nat, osds: seq<Int32>, all: (seq<Int32>, Bytes))
    requires Done(b, memory, i, osds, all)
    ensures i < |memory| ==> VersionOk(b)
    ensures i == |memory| ==> (osds, b) == all
  {
    assert i == |memory| ==> osds[..i] + [] == osds;
  }

  /** The loop over the OSDs. */
  method DecodeOsds(reader: Reader, n: nat) returns (osds: seq<Int32>, ghost memory: seq<Int32>)
    requires reader.Valid() && reader.buffer.content != [] && OsdVersions(Rest(reader), n)
    modifies reader
    ensures reader.Valid() && |memory| == n && (osds, Rest(reader)) == TakeOsds(old(Rest(reader)), memory)
  {
    hide Reader.Valid, Rest, TakeInt32, VersionOk, Done, TakeOsds, OsdVersions;
    var ids := new Int32[n];
    osds := ids[..];
    memory := osds;
    ghost var b := Rest(reader);
    ghost var all := TakeOsds(b, memory);
    NoneDone(b, memory);
    var i := 0;
    while i < n
      invariant 0 <= i <= n == |osds| == |memory| && reader.Valid() && Done(Rest(reader), memory, i, osds, all)
    {
      b := Rest(reader);
      AllDone(b, memory, i, osds, all);
      var id := DecodeOsdEntity(reader, osds[i]);
      OneDone(b, memory, i, osds, all, id, Rest(reader));
      osds := osds[i := id];
      i := i + 1;
    }
    AllDone(Rest(reader), memory, i, osds, all);
  }
}
