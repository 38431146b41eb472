/** Every byte layout the formats fix, position by position. */
module Layouts {
  import opened Aead
  import opened Bytes
  import opened Frame
  import opened BlockFrame
  import A = AuditRecord
  import K = Keyring
  import Text
  import Utf8

  /** What the byte at a position adds, where bytes further on count 256 times as much. */
  function Byte(b: Bytes, at: nat): int
    requires at < |b|
  {
    b[at]
  }

  /** What two, four or eight bytes from a position on say, the first of them counting least. */
  function Little2(b: Bytes, at: nat): int
    requires at + 2 <= |b|
  {
    Byte(b, at) + 0x100 * Byte(b, at + 1)
  }

  function Little4(b: Bytes, at: nat): int
    requires at + 4 <= |b|
  {
    Little2(b, at) + 0x1_0000 * Little2(b, at + 2)
  }

  function Little8(b: Bytes, at: nat): int
    requires at + 8 <= |b|
  {
    Little4(b, at) + 0x1_0000_0000 * Little4(b, at + 4)
  }

  /** What eight bytes from a position on say, the first of them counting most. */
  function Big8(b: Bytes, at: nat): int
    requires at + 8 <= |b|
  {
    0x100_0000_0000_0000 * Byte(b, at) + 0x1_0000_0000_0000 * Byte(b, at + 1)
    + 0x100_0000_0000 * Byte(b, at + 2) + 0x1_0000_0000 * Byte(b, at + 3)
    + 0x100_0000 * Byte(b, at + 4) + 0x1_0000 * Byte(b, at + 5) + 0x100 * Byte(b, at + 6) + Byte(b, at + 7)
  }

  // ---------------------------------------------------------------- numbers

  lemma {:induction false} TwoBytes(s: Bytes)
    requires |s| >= 2
    ensures FromLittleEndian(s) == Little2(s, 0) + 0x1_0000 * FromLittleEndian(s[2..])
  {
    assert s[1..][1..] == s[2..];
    assert FromLittleEndian(s) == s[0] + 256 * FromLittleEndian(s[1..]);
    assert FromLittleEndian(s[1..]) == s[1] + 256 * FromLittleEndian(s[2..]);
  }

  lemma {:induction false} FourBytes(s: Bytes)
    requires |s| >= 4
    ensures FromLittleEndian(s) == Little4(s, 0) + 0x1_0000_0000 * FromLittleEndian(s[4..])
  {
    TwoBytes(s);
    TwoBytes(s[2..]);
    assert s[2..][2..] == s[4..];
  }

  lemma {:induction false} LittleSays(n: nat)
    ensures n < 0x1_0000 ==> Little2(LittleEndian(n, 2), 0) == n
    ensures n < 0x1_0000_0000 ==> Little4(LittleEndian(n, 4), 0) == n
    ensures n < 0x1_0000_0000_0000_0000 ==> Little8(LittleEndian(n, 8), 0) == n
  {
    Pow256Values();
    assert FromLittleEndian([]) == 0;
    hide LittleEndian, FromLittleEndian;
    if n < 0x1_0000 {
      LittleEndianReads(n, 2);
      TwoBytes(LittleEndian(n, 2));
      assert LittleEndian(n, 2)[2..] == [];
    }
    if n < 0x1_0000_0000 {
      LittleEndianReads(n, 4);
      FourBytes(LittleEndian(n, 4));
      assert LittleEndian(n, 4)[4..] == [];
    }
    if n < 0x1_0000_0000_0000_0000 {
      var s := LittleEndian(n, 8);
      LittleEndianReads(n, 8);
      FourBytes(s);
      FourBytes(s[4..]);
      assert s[4..][4..] == [];
    }
  }

  function FromBigEndian(s: Bytes): int {
    if s == [] then 0 else 256 * FromBigEndian(s[..|s| - 1]) + s[|s| - 1] as int
  }

  lemma {:induction false} BigEndianReads(n: nat, width: nat)
    requires n < Pow256(width)
    ensures FromBigEndian(BigEndian(n, width)) == n
  {
    if width > 0 {
      BigEndianReads(n / 256, width - 1);
      assert BigEndian(n, width)[..width - 1] == BigEndian(n / 256, width - 1);
    }
  }

  lemma {:induction false} LastByte(s: Bytes, n: nat)
    requires 0 < n <= |s|
    ensures FromBigEndian(s[..n]) == 256 * FromBigEndian(s[..n - 1]) + Byte(s, n - 1)
  {
    assert s[..n][..n - 1] == s[..n - 1];
  }

  lemma {:induction false} FourMore(s: Bytes, n: nat)
    requires n + 4 <= |s|
    ensures FromBigEndian(s[..n + 4])
         == 0x1_0000_0000 * FromBigEndian(s[..n])
            + 0x100_0000 * Byte(s, n) + 0x1_0000 * Byte(s, n + 1) + 0x100 * Byte(s, n + 2) + Byte(s, n + 3)
  {
    hide FromBigEndian, Byte;
    LastByte(s, n + 1);
    LastByte(s, n + 2);
    LastByte(s, n + 3);
    LastByte(s, n + 4);
  }

  lemma {:induction false} BigSays(n: nat)
    requires n < 0x1_0000_0000_0000_0000
    ensures Big8(BigEndian(n, 8), 0) == n
  {
    Pow256Values();
    BigEndianReads(n, 8);
    var s := BigEndian(n, 8);
    assert s[..8] == s && s[..0] == [];
    assert FromBigEndian([]) == 0;
    hide BigEndian, FromBigEndian, Byte;
    FourMore(s, 0);
    FourMore(s, 4);
  }

  /** A number reads the same wherever its bytes stand. */
  lemma LittleMoves(b: Bytes, at: nat, s: Bytes)
    requires at + |s| <= |b| && b[at..at + |s|] == s
    ensures |s| >= 2 ==> Little2(b, at) == Little2(s, 0)
    ensures |s| >= 4 ==> Little4(b, at) == Little4(s, 0)
    ensures |s| >= 8 ==> Little8(b, at) == Little8(s, 0) && Big8(b, at) == Big8(s, 0)
  {
    forall i | 0 <= i < |s|
      ensures b[at + i] == s[i]
    {
      assert b[at..at + |s|][i] == s[i];
    }
  }

  // ---------------------------------------------------------------- sealed objects

  /** "EULE", version 2, the block size and the key's id. */
  lemma {:induction false} HeaderBytes(s: Sealer)
    requires s.block < 0x1_0000_0000
    ensures var h := s.Header();
            && |h| == 13 && h[..5] == [0x45, 0x55, 0x4C, 0x45, 2]
            && Little4(h, 5) == s.block && Little4(h, 9) == s.key
  {
    var h := s.Header();
    LittleSays(s.block);
    LittleSays(s.key);
    hide LittleEndian, Little4;
    assert h[5..9] == LittleEndian(s.block, 4) && h[9..13] == LittleEndian(s.key, 4);
    LittleMoves(h, 5, LittleEndian(s.block, 4));
    LittleMoves(h, 9, LittleEndian(s.key, 4));
  }

  /** What a block's tag covers beside it: version 2, the key's id, the block's index, and 1 for a last block. */
  lemma {:induction false} AssociatedBytes(key: KeyId, index: nat, final: bool)
    requires index < 0x1_0000_0000_0000_0000
    ensures var ad := AssociatedData(key, index, final);
            && |ad| == 14 && ad[0] == 2 && ad[13] == (if final then 1 else 0)
            && Little4(ad, 1) == key && Little8(ad, 5) == index
  {
    var ad := AssociatedData(key, index, final);
    LittleSays(key);
    LittleSays(index);
    hide LittleEndian, Little4, Little8;
    assert ad[1..5] == LittleEndian(key, 4) && ad[5..13] == LittleEndian(index, 8);
    LittleMoves(ad, 1, LittleEndian(key, 4));
    LittleMoves(ad, 5, LittleEndian(index, 8));
  }

  // ---------------------------------------------------------------- keyfiles

  /** Version 2, the salt, the nonce, and what is sealed. */
  lemma KeyfileBytes(r: K.Ring)
    ensures var k := K.ToKeyfile(r);
            && |k| == 29 + |r.sealed| && k[0] == 2
            && k[1..17] == r.salt && k[17..29] == r.nonce && k[29..] == r.sealed
  {}

  lemma {:induction false} AscendingSplits(ids: set<KeyId>)
    requires ids != {}
    ensures var s := K.Ascending(ids);
            && |s| == |ids| && K.IsLeast(s[0], ids) && s == [s[0]] + K.Ascending(ids - {s[0]})
  {
    K.LeastExists(ids);
  }

  lemma {:induction false} AscendingRises(ids: set<KeyId>, i: nat)
    requires i + 1 < |ids|
    ensures K.Ascending(ids)[i] < K.Ascending(ids)[i + 1]
    decreases i
  {
    AscendingSplits(ids);
    hide K.Ascending;
    var s := K.Ascending(ids);
    var rest := K.Ascending(ids - {s[0]});
    assert rest[i] == s[i + 1] && (i > 0 ==> rest[i - 1] == s[i]);
    if i > 0 {
      AscendingRises(ids - {s[0]}, i - 1);
    } else {
      assert rest[0] in ids - {s[0]};
    }
  }

  lemma {:induction false} EntryAt(ids: seq<KeyId>, keys: K.Keys, i: nat)
    requires (forall id :: id in ids ==> id in keys) && i < |ids|
    ensures 36 * i + 36 <= |K.EncodeEntries(ids, keys)|
    ensures K.EncodeEntries(ids, keys)[36 * i..36 * i + 36] == LittleEndian(ids[i], 4) + keys[ids[i]]
    decreases i
  {
    hide LittleEndian;
    var first, rest := LittleEndian(ids[0], 4) + keys[ids[0]], K.EncodeEntries(ids[1..], keys);
    assert K.EncodeEntries(ids, keys) == first + rest;
    if i > 0 {
      EntryAt(ids[1..], keys, i - 1);
      hide K.EncodeEntries;
      SliceOfSecond(first, rest, 36 * i, 36 * i + 36);
    }
  }

  /** A held id and its key, one behind the other. */
  predicate HoldsKey(b: Bytes, at: nat, keys: K.Keys)
    requires at + 36 <= |b|
  {
    exists id: KeyId :: id in keys && Little4(b, at) == id && b[at + 4..at + 36] == keys[id]
  }

  /** The current id, how many keys there are, and every key behind its id, the lowest id first. */
  lemma {:induction false} KeySetBytes(current: KeyId, keys: K.Keys, i: nat)
    requires i < |keys| <= 65535
    ensures var b := K.EncodeKeySet(current, keys);
            && |b| == 6 + 36 * |keys| && Little4(b, 0) == current && Little2(b, 4) == |keys|
            && HoldsKey(b, 6 + 36 * i, keys)
            && (i + 1 < |keys| ==> Little4(b, 6 + 36 * i) < Little4(b, 42 + 36 * i))
  {
    hide K.EncodeKeySet, K.EncodeEntries, K.Ascending, LittleEndian, Little2, Little4, HoldsKey;
    KeySetParts(current, keys);
    var ids, entries := K.Ascending(keys.Keys), K.EncodeEntries(K.Ascending(keys.Keys), keys);
    var b, head := K.EncodeKeySet(current, keys), LittleEndian(current, 4) + LittleEndian(|keys|, 2);
    KeySetHead(b, current, |keys|, entries);
    KeyHeld(b, head, ids, keys, i);
    if i + 1 < |keys| {
      KeyHeld(b, head, ids, keys, i + 1);
      AscendingRises(keys.Keys, i);
    }
  }

  lemma {:induction false} KeySetHead(b: Bytes, current: KeyId, count: nat, entries: Bytes)
    requires count < 0x1_0000
    requires b == (LittleEndian(current, 4) + LittleEndian(count, 2)) + entries
    ensures |b| == 6 + |entries| && Little4(b, 0) == current && Little2(b, 4) == count
  {
    LittleSays(current);
    LittleSays(count);
    hide LittleEndian, Little2, Little4;
    assert b[0..4] == LittleEndian(current, 4) && b[4..6] == LittleEndian(count, 2);
    LittleMoves(b, 0, LittleEndian(current, 4));
    LittleMoves(b, 4, LittleEndian(count, 2));
  }

  lemma {:induction false} KeySetParts(current: KeyId, keys: K.Keys)
    requires |keys| <= 65535
    ensures var ids := K.Ascending(keys.Keys);
            && |ids| == |keys| && (forall id :: id in ids ==> id in keys)
            && K.EncodeKeySet(current, keys)
               == (LittleEndian(current, 4) + LittleEndian(|keys|, 2)) + K.EncodeEntries(ids, keys)
            && |K.EncodeEntries(ids, keys)| == 36 * |keys|
  {
    hide K.Ascending, K.EncodeEntries, LittleEndian;
    assert |keys.Keys| == |keys|;
  }

  lemma {:induction false} KeyHeld(b: Bytes, head: Bytes, ids: seq<KeyId>, keys: K.Keys, i: nat)
    requires (forall id :: id in ids ==> id in keys) && i < |ids|
    requires |head| == 6 && b == head + K.EncodeEntries(ids, keys)
    ensures 42 + 36 * i <= |b| && Little4(b, 6 + 36 * i) == ids[i] && HoldsKey(b, 6 + 36 * i, keys)
  {
    KeyAt(b, head, ids, keys, i);
    hide Little4, K.EncodeEntries;
    assert ids[i] in keys && b[(6 + 36 * i) + 4..(6 + 36 * i) + 36] == keys[ids[i]];
  }

  lemma {:induction false} KeyAt(b: Bytes, head: Bytes, ids: seq<KeyId>, keys: K.Keys, i: nat)
    requires (forall id :: id in ids ==> id in keys) && i < |ids|
    requires |head| == 6 && b == head + K.EncodeEntries(ids, keys)
    ensures 42 + 36 * i <= |b|
    ensures Little4(b, 6 + 36 * i) == ids[i] && b[10 + 36 * i..42 + 36 * i] == keys[ids[i]]
  {
    EntryAt(ids, keys, i);
    var entry := LittleEndian(ids[i], 4) + keys[ids[i]];
    LittleSays(ids[i]);
    hide K.EncodeEntries, LittleEndian, Little4;
    SliceOfSecond(head, K.EncodeEntries(ids, keys), 6 + 36 * i, 42 + 36 * i);
    assert b[6 + 36 * i..42 + 36 * i] == entry;
    LittleMoves(b, 6 + 36 * i, entry);
    LittleMoves(entry, 0, LittleEndian(ids[i], 4));
    assert b[10 + 36 * i..42 + 36 * i] == entry[4..];
  }

  // ---------------------------------------------------------------- audit records

  /** UTF-8: as few bytes as the character needs, each behind the first with 2 as its upper two bits. */
  lemma CharacterBytes(c: char)
    ensures var e, n := Utf8.EncodeChar(c), c as int;
            && |e| == (if n < 0x80 then 1 else if n < 0x800 then 2 else if n < 0x1_0000 then 3 else 4)
            && (|e| == 1 ==> e[0] == n)
            && (|e| == 2 ==> n == 64 * (Byte(e, 0) - 0xC0) + Byte(e, 1) - 0x80)
            && (|e| == 3 ==> n == 4096 * (Byte(e, 0) - 0xE0) + 64 * (Byte(e, 1) - 0x80) + Byte(e, 2) - 0x80)
            && (|e| == 4 ==>
                  n == 262144 * (Byte(e, 0) - 0xF0) + 4096 * (Byte(e, 1) - 0x80) + 64 * (Byte(e, 2) - 0x80)
                       + Byte(e, 3) - 0x80)
            && (forall i :: 1 <= i < |e| ==> Byte(e, i) / 64 == 2)
  {
    Utf8.SixBits(c as int);
  }

  /**
   The link before, the number, the query and the plan each behind its length, and the row count, numbers in
   eight bytes with the highest first.
   */
  lemma {:induction false} HashedBytes(r: A.Record)
    requires A.Fits(r)
    ensures var b, q, p := A.Preimage(r), Utf8.Encode(r.query), Utf8.Encode(r.plan);
            && |b| == 64 + |q| + |p| && b[..32] == r.previous
            && Big8(b, 32) == r.sequence
            && Big8(b, 40) == |q| && b[48..48 + |q|] == q
            && Big8(b, 48 + |q|) == |p| && b[56 + |q|..56 + |q| + |p|] == p
            && Big8(b, 56 + |q| + |p|) == r.rows
  {
    hide A.Preimage, Utf8.Encode, BigEndian, Big8;
    var q, p := Utf8.Encode(r.query), Utf8.Encode(r.plan);
    HashedParts(r);
    NumbersHashed(A.Preimage(r), |q|, |p|, r.sequence, r.rows);
  }

  lemma {:induction false} NumbersHashed(b: Bytes, q: nat, p: nat, sequence: Text.u64, rows: Text.u64)
    requires |b| == 64 + q + p && q < Text.TWO64 && p < Text.TWO64
    requires b[32..40] == BigEndian(sequence, 8) && b[40..48] == BigEndian(q, 8)
    requires b[48 + q..56 + q] == BigEndian(p, 8) && b[56 + q + p..64 + q + p] == BigEndian(rows, 8)
    ensures Big8(b, 32) == sequence && Big8(b, 40) == q
    ensures Big8(b, 48 + q) == p && Big8(b, 56 + q + p) == rows
  {
    assert Text.TWO64 == 0x1_0000_0000_0000_0000;
    hide BigEndian, Big8;
    EightAt(b, 32, sequence);
    EightAt(b, 40, q);
    EightAt(b, 48 + q, p);
    EightAt(b, 56 + q + p, rows);
  }

  lemma {:induction false} EightAt(b: Bytes, at: nat, n: nat)
    requires n < 0x1_0000_0000_0000_0000
    requires at + 8 <= |b| && b[at..at + 8] == BigEndian(n, 8)
    ensures Big8(b, at) == n
  {
    BigSays(n);
    hide *;
    LittleMoves(b, at, BigEndian(n, 8));
  }

  lemma {:induction false} HashedParts(r: A.Record)
    requires A.Fits(r)
    ensures var b, q, p := A.Preimage(r), Utf8.Encode(r.query), Utf8.Encode(r.plan);
            && |b| == 64 + |q| + |p| && b[..32] == r.previous
            && b[32..40] == BigEndian(r.sequence, 8)
            && b[40..48] == BigEndian(|q|, 8) && b[48..48 + |q|] == q
            && b[48 + |q|..56 + |q|] == BigEndian(|p|, 8) && b[56 + |q|..56 + |q| + |p|] == p
            && b[56 + |q| + |p|..64 + |q| + |p|] == BigEndian(r.rows, 8)
  {
    var q, p := Utf8.Encode(r.query), Utf8.Encode(r.plan);
    hide BigEndian, Utf8.Encode;
    var sequence, m, n, rows := BigEndian(r.sequence, 8), BigEndian(|q|, 8), BigEndian(|p|, 8), BigEndian(r.rows, 8);
    assert A.Preimage(r) == r.previous + (sequence + ((m + q) + ((n + p) + rows)));
    assert |r.previous| == 32;
    assert |sequence| == |m| == |n| == |rows| == 8;
    hide *;
    FiveParts(A.Preimage(r), r.previous, sequence, m, q, n, p, rows);
  }

  lemma {:induction false} FiveParts(
    b: Bytes, previous: Bytes, sequence: Bytes, m: Bytes, q: Bytes, n: Bytes, p: Bytes, rows: Bytes)
    requires |previous| == 32 && |sequence| == |m| == |n| == |rows| == 8
    requires b == previous + (sequence + ((m + q) + ((n + p) + rows)))
    ensures |b| == 64 + |q| + |p| && b[..32] == previous
    ensures b[32..40] == sequence && b[40..48] == m && b[48..48 + |q|] == q
    ensures b[48 + |q|..56 + |q|] == n && b[56 + |q|..56 + |q| + |p|] == p
    ensures b[56 + |q| + |p|..64 + |q| + |p|] == rows
  {}
}
