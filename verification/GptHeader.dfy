/** The checksums of the two GPT headers (section 5.3 of the UEFI Specification), on a little-endian
    machine: headers are their 512 bytes. */
module GptHeader {
  import opened Bits
  import opened Sequences
  import opened Crc32
  import opened CrcCheck

  const HEADER_BYTES := 512
  const HEADER_SIZE := 92
  const SIZE_AT := 12
  const CRC_AT := 16
  const ENTRIES_CRC_AT := 88

  ghost predicate Header(h: seq<nat>) { |h| == HEADER_BYTES && Bytes(h) }

  /** The 32-bit field at a byte offset. */
  function Word(h: seq<nat>, at: nat): nat
    requires at + 4 <= |h|
  {
    h[at] + 0x100 * h[at + 1] + 0x10000 * h[at + 2] + 0x1000000 * h[at + 3]
  }

  function Put(h: seq<nat>, at: nat, v: nat): (r: seq<nat>)
    requires at + 4 <= |h|
    ensures |r| == |h|
  {
    h[at := v % 0x100][at + 1 := v / 0x100 % 0x100][at + 2 := v / 0x10000 % 0x100][at + 3 := v / 0x1000000 % 0x100]
  }

  lemma {:induction false} PutElsewhere(h: seq<nat>, at: nat, v: nat, i: nat)
    requires at + 4 <= |h| && i < |h| && (i < at || at + 4 <= i)
    ensures Put(h, at, v)[i] == h[i]
  {
  }

  lemma {:induction false} WordOfPut(h: seq<nat>, at: nat, v: nat)
    requires at + 4 <= |h| && v < 0x1_0000_0000
    ensures Word(Put(h, at, v), at) == v
  {
    var a, b, c := v / 0x100, v / 0x10000, v / 0x1000000;
    assert a / 0x100 == b && b / 0x100 == c && c < 0x100;
  }

  lemma {:induction false} PutHeader(h: seq<nat>, at: nat, v: nat)
    requires Header(h) && at + 4 <= HEADER_BYTES
    ensures Header(Put(h, at, v))
  {
  }

  lemma {:induction false} WordElsewhere(h: seq<nat>, at: nat, v: nat, other: nat)
    requires at + 4 <= |h| && other + 4 <= |h| && (other + 4 <= at || at + 4 <= other)
    ensures Word(Put(h, at, v), other) == Word(h, other)
  {
    hide Put;
    PutElsewhere(h, at, v, other);
    PutElsewhere(h, at, v, other + 1);
    PutElsewhere(h, at, v, other + 2);
    PutElsewhere(h, at, v, other + 3);
  }

  /** Equal words have equal bytes. */
  lemma {:induction false} WordInjective(g: seq<nat>, h: seq<nat>, at: nat, k: nat)
    requires Header(g) && Header(h) && at + 4 <= HEADER_BYTES && at <= k < at + 4
    requires Word(g, at) == Word(h, at)
    ensures g[k] == h[k]
  {
    FieldBytes(g[at], g[at + 1], g[at + 2], g[at + 3]);
    FieldBytes(h[at], h[at + 1], h[at + 2], h[at + 3]);
  }

  /** Size of the checksummed area: the stored one, or 92 when that is out of range. */
  function CheckedSize(h: seq<nat>, blockSize: nat): nat
    requires |h| == HEADER_BYTES
  {
    var size := Word(h, SIZE_AT);
    if size > blockSize || size < HEADER_SIZE then HEADER_SIZE else size
  }

  /** The bytes the check sums: the header with its own checksum zeroed, zero-filled beyond the header. */
  ghost function Summed(h: seq<nat>, blockSize: nat): seq<nat>
    requires |h| == HEADER_BYTES
  {
    var size, z := CheckedSize(h, blockSize), Put(h, CRC_AT, 0);
    if size < HEADER_BYTES then z[..size] else z + Zeros(size - HEADER_BYTES)
  }

  ghost predicate Accepts(h: seq<nat>, blockSize: nat)
    requires |h| == HEADER_BYTES
  {
    Word(h, CRC_AT) == Crc(Summed(h, blockSize))
  }

  method WriteWord(header: array<nat>, at: nat, v: nat)
    requires at + 4 <= header.Length
    modifies header
    ensures header[..] == Put(old(header[..]), at, v)
  {
    header[at] := v % 0x100;
    header[at + 1] := v / 0x100 % 0x100;
    header[at + 2] := v / 0x10000 % 0x100;
    header[at + 3] := v / 0x1000000 % 0x100;
  }

  /** CheckHeaderCRC: the header is left as it was. */
  method CheckHeaderCRC(crcTab: array<nat>, header: array<nat>, blockSize: nat) returns (ok: bool)
    requires TableHolds(crcTab) && crcTab != header && Header(header[..])
    modifies header
    ensures header[..] == old(header[..]) && ok == Accepts(header[..], blockSize)
  {
    hide Word, Put, Crc, Steps;
    ghost var h := header[..];
    var oldCRC := Word(header[..], CRC_AT);
    WriteWord(header, CRC_AT, 0);
    assert TableHolds(crcTab);
    WordElsewhere(h, CRC_AT, 0, SIZE_AT);
    PutHeader(h, CRC_AT, 0);
    var hSize := Word(header[..], SIZE_AT);
    if hSize > blockSize || hSize < HEADER_SIZE {
      hSize := HEADER_SIZE;
    }
    var temp := if hSize < HEADER_BYTES then header[..hSize] else header[..] + seq(hSize - HEADER_BYTES, i => 0);
    assert hSize <= HEADER_BYTES ==> header[..hSize] == header[..][..hSize];
    assert temp == Summed(h, blockSize);
    var newCRC := Checksum(crcTab, temp);
    PutBack(h, CRC_AT);
    WriteWord(header, CRC_AT, oldCRC);
    ok := oldCRC == newCRC;
  }

  /** Writing a field's own value back after zeroing it restores the header. */
  lemma {:induction false} PutBack(h: seq<nat>, at: nat)
    requires Header(h) && at + 4 <= HEADER_BYTES
    ensures Put(Put(h, at, 0), at, Word(h, at)) == h
  {
    FieldBytes(h[at], h[at + 1], h[at + 2], h[at + 3]);
  }

  lemma {:induction false} FieldBytes(a: nat, b: nat, c: nat, d: nat)
    requires a < 0x100 && b < 0x100 && c < 0x100 && d < 0x100
    ensures var v := a + 0x100 * b + 0x10000 * c + 0x1000000 * d;
            v % 0x100 == a && v / 0x100 % 0x100 == b && v / 0x10000 % 0x100 == c && v / 0x1000000 % 0x100 == d
  {
    var x, y := b + 0x100 * c + 0x10000 * d, c + 0x100 * d;
    var v := a + 0x100 * x;
    DivModUnique(v, 0x100, x, a);
    DivModUnique(x, 0x100, y, b);
    DivModUnique(y, 0x100, d, c);
    DivModUnique(v, 0x10000, y, a + 0x100 * b);
    DivModUnique(v, 0x1000000, d, a + 0x100 * b + 0x10000 * c);
  }

  /** A header with its checksum recomputed over its first `size` bytes. */
  ghost function Sealed(h: seq<nat>, size: nat): (r: seq<nat>)
    requires |h| == HEADER_BYTES && size <= HEADER_BYTES
    ensures |r| == |h|
  {
    var z := Put(h, CRC_AT, 0);
    Put(z, CRC_AT, Crc(z[..size]))
  }

  // ----- The headers byte by byte.

  ghost predicate FieldIs(h: seq<nat>, at: nat, v: nat) { at + 4 <= |h| && h[at..at + 4] == LowFirst(v) }

  /** A header without its own checksum. */
  ghost function Blanked(h: seq<nat>): seq<nat>
    requires |h| == HEADER_BYTES
  {
    h[..16] + [0, 0, 0, 0] + h[20..]
  }

  /** What recomputation makes of header h: bytes 12 to 15 hold the size, 88 to 91 the checksum of the entries
      and 16 to 19 that of the first `size` bytes with these four zero; no other byte changes. */
  ghost predicate Recomputed(h: seq<nat>, s: seq<nat>, size: nat, entries: seq<nat>) {
    && |h| == |s| == 512 && size <= 512
    && FieldIs(s, 12, size) && FieldIs(s, 88, Crc(entries)) && FieldIs(s, 16, Crc(Blanked(s)[..size]))
    && forall i | 0 <= i < 512 && !(12 <= i < 20) && !(88 <= i < 92) :: s[i] == h[i]
  }

  lemma {:induction false} PutField(h: seq<nat>, at: nat, v: nat)
    requires at + 4 <= |h|
    ensures FieldIs(Put(h, at, v), at, v)
    ensures Put(h, at, v)[..at] == h[..at] && Put(h, at, v)[at + 4..] == h[at + 4..]
  {
  }

  lemma {:induction false} SealedIs(h: seq<nat>, size: nat)
    requires |h| == HEADER_BYTES && size <= HEADER_BYTES
    ensures var s := Sealed(h, size);
            FieldIs(s, 16, Crc(Blanked(s)[..size])) && s[..16] == h[..16] && s[20..] == h[20..]
  {
    hide Put, Crc, LowFirst;
    var z := Put(h, CRC_AT, 0);
    PutField(h, CRC_AT, 0);
    PutField(z, CRC_AT, Crc(z[..size]));
    ZeroField(z);
    assert Blanked(Sealed(h, size)) == z[..16] + z[16..20] + z[20..] == z;
  }

  lemma {:induction false} ZeroField(z: seq<nat>)
    ensures FieldIs(z, 16, 0) ==> z[16..20] == [0, 0, 0, 0]
  {
  }

  lemma {:induction false} FieldKept(g: seq<nat>, h: seq<nat>, at: nat, v: nat)
    requires at + 4 <= |g| == |h| && forall i | at <= i < at + 4 :: g[i] == h[i]
    ensures FieldIs(g, at, v) ==> FieldIs(h, at, v)
  {
    assert g[at..at + 4] == h[at..at + 4];
  }

  lemma {:induction false} RecomputedIs(h: seq<nat>, size: nat, entries: seq<nat>)
    requires |h| == HEADER_BYTES && size <= HEADER_BYTES
    ensures Recomputed(h, Sealed(Put(Put(h, SIZE_AT, size), ENTRIES_CRC_AT, Crc(entries)), size), size, entries)
  {
    hide Put, Crc, LowFirst, Sealed, FieldIs;
    var e := Crc(entries);
    var a := Put(h, SIZE_AT, size);
    var b := Put(a, ENTRIES_CRC_AT, e);
    var s := Sealed(b, size);
    PutField(h, SIZE_AT, size);
    PutField(a, ENTRIES_CRC_AT, e);
    SealedIs(b, size);
    forall i | 0 <= i < 512 && !(12 <= i < 16) && !(88 <= i < 92) ensures b[i] == h[i] {
      PutElsewhere(h, SIZE_AT, size, i);
      PutElsewhere(a, ENTRIES_CRC_AT, e, i);
    }
    forall i | 0 <= i < 512 && !(16 <= i < 20) ensures s[i] == b[i] {
      if i < 16 { assert s[..16][i] == b[..16][i]; } else { assert s[20..][i - 20] == b[20..][i - 20]; }
    }
    forall i | 0 <= i < 512 && !(88 <= i < 92) ensures b[i] == a[i] { PutElsewhere(a, ENTRIES_CRC_AT, e, i); }
    FieldKept(a, s, 12, size);
    FieldKept(b, s, 88, e);
  }

  /** RecomputeCRCs, on the bytes of the partition entries: both headers get the size of the main one, 92
      when that exceeds the header, the checksum of the entries, and then their own. */
  method RecomputeCRCs(crcTab: array<nat>, mainHeader: array<nat>, secondHeader: array<nat>, entries: seq<nat>)
    requires TableHolds(crcTab) && crcTab != mainHeader && crcTab != secondHeader && mainHeader != secondHeader
    requires Header(mainHeader[..]) && Header(secondHeader[..]) && Bytes(entries)
    modifies mainHeader, secondHeader
    ensures var size := if old(Word(mainHeader[..], SIZE_AT)) > HEADER_BYTES then HEADER_SIZE else old(Word(mainHeader[..], SIZE_AT));
            && mainHeader[..] == Sealed(Put(Put(old(mainHeader[..]), SIZE_AT, size), ENTRIES_CRC_AT, Crc(entries)), size)
            && secondHeader[..] == Sealed(Put(Put(old(secondHeader[..]), SIZE_AT, size), ENTRIES_CRC_AT, Crc(entries)), size)
            && Recomputed(old(mainHeader[..]), mainHeader[..], size, entries)
            && Recomputed(old(secondHeader[..]), secondHeader[..], size, entries)
  {
    hide Word, Put, Crc, Steps, Recomputed;
    ghost var m, n := mainHeader[..], secondHeader[..];
    var hSize := Word(mainHeader[..], SIZE_AT);
    if hSize > HEADER_BYTES {
      hSize := HEADER_SIZE;
    }
    SealHeader(crcTab, mainHeader, entries, hSize);
    assert TableHolds(crcTab) && secondHeader[..] == n;
    SealHeader(crcTab, secondHeader, entries, hSize);
    RecomputedIs(m, hSize, entries);
    RecomputedIs(n, hSize, entries);
  }

  method SealHeader(crcTab: array<nat>, header: array<nat>, entries: seq<nat>, hSize: nat)
    requires TableHolds(crcTab) && crcTab != header && Header(header[..]) && Bytes(entries) && hSize <= HEADER_BYTES
    modifies header
    ensures header[..] == Sealed(Put(Put(old(header[..]), SIZE_AT, hSize), ENTRIES_CRC_AT, Crc(entries)), hSize)
  {
    hide Word, Put, Crc, Steps;
    ghost var h := header[..];
    PutHeader(h, SIZE_AT, hSize);
    WriteWord(header, SIZE_AT, hSize);
    assert TableHolds(crcTab);
    var crc := Checksum(crcTab, entries);
    PutHeader(header[..], ENTRIES_CRC_AT, crc);
    WriteWord(header, ENTRIES_CRC_AT, crc);
    PutHeader(header[..], CRC_AT, 0);
    WriteWord(header, CRC_AT, 0);
    assert TableHolds(crcTab);
    assert header[..hSize] == header[..][..hSize];
    crc := Checksum(crcTab, header[..hSize]);
    WriteWord(header, CRC_AT, crc);
  }

  /** What acceptance means for the bytes: bytes 16 to 19 hold the checksum of the header with these four
      zero, over the size stored in bytes 12 to 15 or 92, zero-filled beyond the header. */
  lemma {:induction false} AcceptsMeans(h: seq<nat>, blockSize: nat, size: nat)
    requires Header(h) && FieldIs(h, 12, size) && size < 0x1_0000_0000
    ensures var n := if 92 <= size <= blockSize then size else 92;
            Accepts(h, blockSize) <==> FieldIs(h, 16, Crc(if n < 512 then Blanked(h)[..n] else Blanked(h) + Zeros(n - 512)))
  {
    hide Put, Crc, LowFirst, FieldIs, Word;
    FieldWord(h, 12, size);
    PutField(h, CRC_AT, 0);
    ZeroField(Put(h, CRC_AT, 0));
    var z := Put(h, CRC_AT, 0);
    assert z == z[..16] + z[16..20] + z[20..] == Blanked(h);
    PutHeader(h, CRC_AT, 0);
    assert Bytes(Summed(h, blockSize));
    CrcBound(Summed(h, blockSize));
    FieldWord(h, 16, Crc(Summed(h, blockSize)));
  }

  lemma {:induction false} FieldWord(h: seq<nat>, at: nat, v: nat)
    requires Header(h) && at + 4 <= HEADER_BYTES && v < 0x1_0000_0000
    ensures FieldIs(h, at, v) <==> Word(h, at) == v
  {
    FieldBytes(h[at], h[at + 1], h[at + 2], h[at + 3]);
    if FieldIs(h, at, v) {
      var f := h[at..at + 4];
      assert f[0] == h[at] && f[1] == h[at + 1] && f[2] == h[at + 2] && f[3] == h[at + 3];
      JoinBytes(v);
    }
  }

  lemma {:induction false} JoinBytes(v: nat)
    requires v < 0x1_0000_0000
    ensures v % 0x100 + 0x100 * (v / 0x100 % 0x100) + 0x10000 * (v / 0x10000 % 0x100) + 0x1000000 * (v / 0x1000000 % 0x100) == v
  {
    var a, b, c := v / 0x100, v / 0x10000, v / 0x1000000;
    assert a / 0x100 == b && b / 0x100 == c && c < 0x100;
  }

  /** A header whose checksum was recomputed over its stored size, from 92 to 512 bytes, is accepted. */
  lemma {:induction false} SealedAccepted(h: seq<nat>, blockSize: nat)
    requires Header(h) && HEADER_SIZE <= Word(h, SIZE_AT) <= HEADER_BYTES <= blockSize
    ensures Accepts(Sealed(h, Word(h, SIZE_AT)), blockSize)
  {
    hide Word, Put, Crc;
    var size := Word(h, SIZE_AT);
    var z := Put(h, CRC_AT, 0);
    var crc := Crc(z[..size]);
    PutHeader(h, CRC_AT, 0);
    CrcBound(z[..size]);
    WordOfPut(z, CRC_AT, crc);
    WordElsewhere(h, CRC_AT, 0, SIZE_AT);
    WordElsewhere(z, CRC_AT, crc, SIZE_AT);
    PutTwice(z, CRC_AT, crc, 0);
    PutTwice(h, CRC_AT, 0, 0);
    assert size == HEADER_BYTES ==> z + Zeros(0) == z == z[..size];
  }

  lemma {:induction false} PutTwice(h: seq<nat>, at: nat, v: nat, w: nat)
    requires at + 4 <= |h|
    ensures Put(Put(h, at, v), at, w) == Put(h, at, w)
  {
  }

  /** After recomputation, with a stored size from 92 to 512 bytes, both headers pass the check. */
  lemma {:induction false} RecomputedAccepted(h: seq<nat>, size: nat, crc: nat, blockSize: nat)
    requires Header(h) && HEADER_SIZE <= size <= HEADER_BYTES <= blockSize
    ensures Accepts(Sealed(Put(Put(h, SIZE_AT, size), ENTRIES_CRC_AT, crc), size), blockSize)
  {
    hide Word, Put, Sealed, Accepts;
    PutHeader(h, SIZE_AT, size);
    PutHeader(Put(h, SIZE_AT, size), ENTRIES_CRC_AT, crc);
    WordOfPut(h, SIZE_AT, size);
    WordElsewhere(Put(h, SIZE_AT, size), ENTRIES_CRC_AT, crc, SIZE_AT);
    SealedAccepted(Put(Put(h, SIZE_AT, size), ENTRIES_CRC_AT, crc), blockSize);
  }

  /** A change of one byte of the checksummed area, other than in the size field, is rejected. */
  lemma {:induction false} ChangeRejected(g: seq<nat>, h: seq<nat>, blockSize: nat, k: nat)
    requires Header(g) && Header(h) && Accepts(g, blockSize)
    requires k < CheckedSize(g, blockSize) && k < HEADER_BYTES && !(SIZE_AT <= k < SIZE_AT + 4)
    requires g[k] != h[k] && forall i | 0 <= i < HEADER_BYTES && i != k :: g[i] == h[i]
    ensures !Accepts(h, blockSize)
  {
    hide Crc, Put;
    assert Word(g, SIZE_AT) == Word(h, SIZE_AT);
    if CRC_AT <= k < CRC_AT + 4 {
      SameSum(g, h);
      if Accepts(h, blockSize) { WordInjective(g, h, CRC_AT, k); }
    } else {
      assert Word(g, CRC_AT) == Word(h, CRC_AT);
      SumsDiffer(g, h, blockSize, k);
    }
  }

  lemma {:induction false} SameSum(g: seq<nat>, h: seq<nat>)
    requires Header(g) && Header(h) && forall i | 0 <= i < HEADER_BYTES && !(CRC_AT <= i < CRC_AT + 4) :: g[i] == h[i]
    ensures Put(g, CRC_AT, 0) == Put(h, CRC_AT, 0)
  {
  }

  lemma {:induction false} SumsDiffer(g: seq<nat>, h: seq<nat>, blockSize: nat, k: nat)
    requires Header(g) && Header(h) && Word(g, SIZE_AT) == Word(h, SIZE_AT)
    requires k < CheckedSize(g, blockSize) && k < HEADER_BYTES && !(CRC_AT <= k < CRC_AT + 4)
    requires g[k] != h[k] && forall i | 0 <= i < HEADER_BYTES && i != k :: g[i] == h[i]
    ensures Crc(Summed(g, blockSize)) != Crc(Summed(h, blockSize))
  {
    hide Crc, Put, Word;
    var a, b := Put(g, CRC_AT, 0), Put(h, CRC_AT, 0);
    PutHeader(g, CRC_AT, 0);
    PutHeader(h, CRC_AT, 0);
    PutElsewhere(g, CRC_AT, 0, k);
    PutElsewhere(h, CRC_AT, 0, k);
    forall i | 0 <= i < HEADER_BYTES && i != k ensures a[i] == b[i] { PutSame(g, h, i); }
    OneByteDetected(Summed(g, blockSize), Summed(h, blockSize), k);
  }

  lemma {:induction false} PutSame(g: seq<nat>, h: seq<nat>, i: nat)
    requires Header(g) && Header(h) && i < HEADER_BYTES && g[i] == h[i]
    ensures Put(g, CRC_AT, 0)[i] == Put(h, CRC_AT, 0)[i]
  {
  }
}
