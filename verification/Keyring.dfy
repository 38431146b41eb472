/**
 A keyring as a value: its data keys by id, which of them is current, and what its keyfile holds of them.
 */
module Keyring {
  import opened Aead
  import opened Arithmetic
  import opened Bytes
  import opened Frame
  import BF = BlockFrame
  import opened Wrappers

  const KEYFILE_VERSION: byte := 2
  const SALT_LEN: nat := 16
  const PREFIX_LEN: nat := 1 + SALT_LEN + NONCE_LEN
  const ENTRY_LEN: nat := 4 + KEY_LEN
  const SET_HEADER_LEN: nat := 6
  const MAX_COUNT: nat := 0xFFFF

  /** "euledb-keyfile-v2". */
  const CONTEXT: Bytes :=
    [0x65, 0x75, 0x6C, 0x65, 0x64, 0x62, 0x2D, 0x6B, 0x65, 0x79, 0x66, 0x69, 0x6C, 0x65, 0x2D, 0x76, 0x32]

  const FIRST: KeyId := 1

  type Salt = s: Bytes | |s| == SALT_LEN witness seq(SALT_LEN, _ => 0)

  type Keys = map<KeyId, Key>

  datatype KeyringError =
    | WrongPassphrase
    | MalformedKeyfile(reason: string)
    | UnsupportedVersion(found: byte)
    | KeySpaceExhausted

  /** The cipher that wraps, and how a passphrase and a salt become a key. */
  datatype Primitives = Primitives(cipher: Cipher, derive: (string, Salt) -> Key)

  // ---------------------------------------------------------------- the key set in order

  predicate IsLeast(least: KeyId, ids: set<KeyId>) {
    least in ids && forall id :: id in ids ==> least <= id
  }

  lemma {:induction false} FindLeast(ids: set<KeyId>) returns (least: KeyId)
    requires ids != {}
    ensures IsLeast(least, ids)
    decreases |ids|
  {
    var some :| some in ids;
    least := some;
    if ids != {some} {
      var rest := ids - {some};
      var other := FindLeast(rest);
      assert forall id :: id in ids ==> id == some || id in rest;
      least := if some < other then some else other;
    }
  }

  lemma {:induction false} LeastExists(ids: set<KeyId>)
    requires ids != {}
    ensures exists least :: IsLeast(least, ids)
  {
    var least := FindLeast(ids);
  }

  /** The ids of an ordered map, lowest first. */
  function Ascending(ids: set<KeyId>): (s: seq<KeyId>)
    ensures |s| == |ids|
    ensures forall id :: id in s <==> id in ids
    decreases |ids|
  {
    if ids == {} then []
    else
      LeastExists(ids);
      var least :| IsLeast(least, ids);
      var rest := Ascending(ids - {least});
      assert forall id :: id in [least] + rest <==> id == least || id in rest;
      [least] + rest
  }

  /** The last id of a set in order is its highest. */
  lemma {:induction false} LastIsHighest(ids: set<KeyId>, highest: KeyId)
    requires highest in ids && forall id :: id in ids ==> id <= highest
    ensures Ascending(ids)[|ids| - 1] == highest
    decreases |ids|
  {
    var s := Ascending(ids);
    var rest := ids - {s[0]};
    LeastExists(ids);
    assert IsLeast(s[0], ids) && s == [s[0]] + Ascending(rest);
    if highest in rest {
      LastIsHighest(rest, highest);
    } else {
      assert forall id :: id in ids ==> id == highest;
      assert rest == {};
    }
  }

  function EncodeEntries(ids: seq<KeyId>, keys: Keys): (b: Bytes)
    requires forall id :: id in ids ==> id in keys
    ensures |b| == |ids| * ENTRY_LEN
  {
    if ids == [] then [] else LittleEndian(ids[0], 4) + keys[ids[0]] + EncodeEntries(ids[1..], keys)
  }

  /** The current id, the number of keys as far as two bytes can say it, then each id and its key. */
  function EncodeKeySet(current: KeyId, keys: Keys): (b: Bytes) {
    LittleEndian(current, 4) + LittleEndian(Min(|keys|, MAX_COUNT), 2)
    + EncodeEntries(Ascending(keys.Keys), keys)
  }

  function EntryId(entry: Bytes): KeyId
    requires |entry| == ENTRY_LEN
  {
    Pow256Values();
    FromLittleEndian(entry[..4])
  }

  /** Insert entry after entry; a later entry of the same id takes the place of an earlier one. */
  function DecodeEntries(entries: Bytes, keys: Keys): Keys
    requires |entries| % ENTRY_LEN == 0
    decreases |entries|
  {
    if entries == [] then keys
    else
      var entry: Bytes := entries[..ENTRY_LEN];
      DecodeEntries(entries[ENTRY_LEN..], keys[EntryId(entry) := entry[4..]])
  }

  function DecodeKeySet(b: Bytes): Result<(KeyId, Keys), KeyringError> {
    if |b| < SET_HEADER_LEN then Failure(MalformedKeyfile("key set is shorter than its own header"))
    else
      Pow256Values();
      var current: KeyId := FromLittleEndian(b[..4]);
      var count := FromLittleEndian(b[4..6]);
      var entries := b[SET_HEADER_LEN..];
      if |entries| != count * ENTRY_LEN then
        Failure(MalformedKeyfile("key set does not hold the number of keys it declares"))
      else
        var keys := DecodeEntries(entries, map[]);
        if current !in keys then Failure(MalformedKeyfile("the current key is not in the key set"))
        else Success((current, keys))
  }

  /** The keys of the given ids. */
  function Selected(ids: seq<KeyId>, keys: Keys): Keys {
    map id | id in ids && id in keys :: keys[id]
  }

  lemma {:induction false} EntriesRead(ids: seq<KeyId>, keys: Keys, read: Keys)
    requires forall id :: id in ids ==> id in keys
    ensures DecodeEntries(EncodeEntries(ids, keys), read) == read + Selected(ids, keys)
    decreases |ids|
  {
    hide DecodeEntries, LittleEndian, EntryId;
    if ids == [] {
      NothingReads(read);
      assert read + Selected(ids, keys) == read;
    } else {
      var id, rest := ids[0], ids[1..];
      var tail := EncodeEntries(rest, keys);
      assert EncodeEntries(ids, keys) == (LittleEndian(id, 4) + keys[id]) + tail;
      FirstEntryReads(id, keys[id], tail, read);
      hide EncodeEntries;
      EntriesRead(rest, keys, read[id := keys[id]]);
      EntriesAdd(ids, keys, read);
    }
  }

  lemma NothingReads(read: Keys)
    ensures DecodeEntries([], read) == read
  {}

  lemma {:induction false} EntriesAdd(ids: seq<KeyId>, keys: Keys, read: Keys)
    requires ids != [] && forall id :: id in ids ==> id in keys
    ensures read[ids[0] := keys[ids[0]]] + Selected(ids[1..], keys) == read + Selected(ids, keys)
  {
    assert forall i :: i in ids <==> i == ids[0] || i in ids[1..];
  }

  lemma {:induction false} FirstEntryReads(id: KeyId, key: Key, tail: Bytes, read: Keys)
    requires |tail| % ENTRY_LEN == 0
    ensures |(LittleEndian(id, 4) + key) + tail| % ENTRY_LEN == 0
    ensures DecodeEntries((LittleEndian(id, 4) + key) + tail, read) == DecodeEntries(tail, read[id := key])
  {
    var entry := LittleEndian(id, 4) + key;
    Pow256Values();
    LittleEndianReads(id, 4);
    assert (entry + tail)[..ENTRY_LEN] == entry && (entry + tail)[ENTRY_LEN..] == tail;
    assert entry[..4] == LittleEndian(id, 4) && entry[4..] == key;
  }

  /**
   A key set reads back as written if and only if it holds no more keys than its count can say;
   beyond that the count saturates and what was written is refused.
   */
  lemma {:induction false} KeySetReads(current: KeyId, keys: Keys)
    requires current in keys
    ensures DecodeKeySet(EncodeKeySet(current, keys))
         == if |keys| <= MAX_COUNT then Success((current, keys))
            else Failure(MalformedKeyfile("key set does not hold the number of keys it declares"))
  {
    hide EncodeEntries, DecodeEntries, DecodeKeySet, Ascending, LittleEndian;
    AllEntriesRead(keys);
    DecodesByParts(current, Min(|keys|, MAX_COUNT), EncodeEntries(Ascending(keys.Keys), keys));
  }

  lemma {:induction false} AllEntriesRead(keys: Keys)
    ensures var entries := EncodeEntries(Ascending(keys.Keys), keys);
            && |entries| == |keys| * ENTRY_LEN
            && DecodeEntries(entries, map[]) == keys
  {
    hide EncodeEntries, DecodeEntries, Ascending;
    var ids := Ascending(keys.Keys);
    EntriesRead(ids, keys, map[]);
    assert map[] + Selected(ids, keys) == keys;
    assert |keys| == |keys.Keys|;
  }

  lemma {:induction false} DecodesByParts(current: KeyId, count: nat, entries: Bytes)
    requires count <= MAX_COUNT && |entries| % ENTRY_LEN == 0
    ensures DecodeKeySet(LittleEndian(current, 4) + LittleEndian(count, 2) + entries)
         == if |entries| != count * ENTRY_LEN then
              Failure(MalformedKeyfile("key set does not hold the number of keys it declares"))
            else if current !in DecodeEntries(entries, map[]) then
              Failure(MalformedKeyfile("the current key is not in the key set"))
            else Success((current, DecodeEntries(entries, map[])))
  {
    KeySetParts(current, count, entries);
    hide LittleEndian, FromLittleEndian, DecodeEntries;
  }

  lemma {:induction false} KeySetParts(current: KeyId, count: nat, entries: Bytes)
    requires count <= MAX_COUNT
    ensures var b := LittleEndian(current, 4) + LittleEndian(count, 2) + entries;
            && FromLittleEndian(b[..4]) == current
            && FromLittleEndian(b[4..6]) == count
            && b[SET_HEADER_LEN..] == entries
  {
    var b := LittleEndian(current, 4) + LittleEndian(count, 2) + entries;
    Pow256Values();
    LittleEndianReads(current, 4);
    LittleEndianReads(count, 2);
    assert b[..4] == LittleEndian(current, 4) && b[4..6] == LittleEndian(count, 2);
    assert b[SET_HEADER_LEN..] == entries;
  }

  // ---------------------------------------------------------------- the keyring

  datatype Ring = Ring(keys: Keys, current: KeyId, kek: Key, salt: Salt, nonce: Nonce, sealed: Bytes)

  /** The same keyring with `nonce` in use and `sealed` made anew. */
  function Reseal(p: Primitives, r: Ring, nonce: Nonce): Ring {
    r.(nonce := nonce,
       sealed := p.cipher.encrypt(r.kek, nonce, CONTEXT, EncodeKeySet(r.current, r.keys)))
  }

  function Create(p: Primitives, passphrase: string, key: Key, salt: Salt, nonce: Nonce): Ring {
    Reseal(p, Ring(map[FIRST := key], FIRST, p.derive(passphrase, salt), salt, nonce, []), nonce)
  }

  function LastId(keys: Keys): KeyId {
    if keys == map[] then FIRST else Ascending(keys.Keys)[|keys| - 1]
  }

  /** The id rotation counts on from is held, and none held is higher. */
  lemma {:induction false} LastIdIsHighest(keys: Keys)
    requires keys != map[]
    ensures LastId(keys) in keys && forall id :: id in keys ==> id <= LastId(keys)
  {
    assert keys.Keys != {} by {
      assert exists id :: id in keys;
    }
    var highest := FindHighest(keys.Keys);
    LastIsHighest(keys.Keys, highest);
  }

  lemma {:induction false} FindHighest(ids: set<KeyId>) returns (highest: KeyId)
    requires ids != {}
    ensures highest in ids && forall id :: id in ids ==> id <= highest
    decreases |ids|
  {
    var some :| some in ids;
    highest := some;
    if ids != {some} {
      var other := FindHighest(ids - {some});
      assert forall id :: id in ids ==> id == some || id in ids - {some};
      highest := if some > other then some else other;
    }
  }

  function RotateDataKey(p: Primitives, r: Ring, key: Key, nonce: Nonce): Result<Ring, KeyringError> {
    var last := LastId(r.keys);
    if last + 1 == 0x1_0000_0000 then Failure(KeySpaceExhausted)
    else Success(Reseal(p, r.(keys := r.keys[last + 1 := key], current := last + 1), nonce))
  }

  function ChangePassphrase(p: Primitives, r: Ring, passphrase: string, salt: Salt, nonce: Nonce): Ring {
    Reseal(p, r.(salt := salt, kek := p.derive(passphrase, salt)), nonce)
  }

  function ToKeyfile(r: Ring): Bytes {
    [KEYFILE_VERSION] + r.salt + r.nonce + r.sealed
  }

  function Open(p: Primitives, keyfile: Bytes, passphrase: string): Result<Ring, KeyringError> {
    if |keyfile| < PREFIX_LEN then Failure(MalformedKeyfile("shorter than a keyfile header"))
    else if keyfile[0] != KEYFILE_VERSION then Failure(KeyringError.UnsupportedVersion(keyfile[0]))
    else
      var salt: Salt := keyfile[1..1 + SALT_LEN];
      var nonce: Nonce := keyfile[1 + SALT_LEN..PREFIX_LEN];
      var sealed := keyfile[PREFIX_LEN..];
      if |sealed| < SET_HEADER_LEN + ENTRY_LEN + TAG_LEN then
        Failure(MalformedKeyfile("too short to hold even one key"))
      else if (|sealed| - TAG_LEN - SET_HEADER_LEN) % ENTRY_LEN != 0 then
        Failure(MalformedKeyfile("length is not a whole number of keys"))
      else
        var kek := p.derive(passphrase, salt);
        match p.cipher.decrypt(kek, nonce, CONTEXT, sealed)
        case None => Failure(WrongPassphrase)
        case Some(plain) =>
          var decoded :- DecodeKeySet(plain);
          Success(Ring(decoded.1, decoded.0, kek, salt, nonce, sealed))
  }

  /** The cached wrapping is that of the present keys, under the present nonce and passphrase. */
  ghost predicate Wrapped(p: Primitives, r: Ring, passphrase: string) {
    && r.current in r.keys
    && r.kek == p.derive(passphrase, r.salt)
    && r.sealed == p.cipher.encrypt(r.kek, r.nonce, CONTEXT, EncodeKeySet(r.current, r.keys))
  }

  /** A keyring that has been rotated `n - 1` times: its ids are 1 to n and the last one is current. */
  ghost predicate Numbered(r: Ring, n: nat) {
    && (forall id: KeyId :: id in r.keys <==> 1 <= id <= n)
    && r.current == n
    && |r.keys| == n
  }

  /**
   The keyfile reopens, with the passphrase it was last wrapped under, as the very keyring that wrote
   it if and only if the keyring holds at most 65535 keys.
   */
  lemma {:induction false} KeyfileReopens(p: Primitives, r: Ring, passphrase: string)
    requires p.cipher.Lawful() && Wrapped(p, r, passphrase)
    ensures Open(p, ToKeyfile(r), passphrase)
         == if |r.keys| <= MAX_COUNT then Success(r)
            else Failure(MalformedKeyfile("key set does not hold the number of keys it declares"))
  {
    KeyfileParts(r);
    KeySetReads(r.current, r.keys);
    WrappedLength(p, r, passphrase);
    hide ToKeyfile, EncodeKeySet, DecodeKeySet;
  }

  lemma {:induction false} KeyfileParts(r: Ring)
    ensures var k := ToKeyfile(r);
            && |k| >= PREFIX_LEN && k[0] == KEYFILE_VERSION
            && k[1..1 + SALT_LEN] == r.salt && k[1 + SALT_LEN..PREFIX_LEN] == r.nonce
            && k[PREFIX_LEN..] == r.sealed
  {}

  lemma {:induction false} WrappedLength(p: Primitives, r: Ring, passphrase: string)
    requires p.cipher.Lawful() && Wrapped(p, r, passphrase)
    ensures |r.sealed| == SET_HEADER_LEN + |r.keys| * ENTRY_LEN + TAG_LEN
    ensures |r.sealed| >= SET_HEADER_LEN + ENTRY_LEN + TAG_LEN
    ensures (|r.sealed| - TAG_LEN - SET_HEADER_LEN) % ENTRY_LEN == 0
  {
    hide Ascending, EncodeEntries, LittleEndian;
    assert |r.keys| > 0 by {
      assert r.current in r.keys.Keys;
    }
  }

  lemma {:induction false} CreateNumbers(p: Primitives, passphrase: string, key: Key, salt: Salt, nonce: Nonce)
    ensures Numbered(Create(p, passphrase, key, salt, nonce), 1)
    ensures Wrapped(p, Create(p, passphrase, key, salt, nonce), passphrase)
    ensures var r := Create(p, passphrase, key, salt, nonce);
            r.keys == map[1 := key] && r.salt == salt && r.nonce == nonce
  {
    hide EncodeKeySet;
  }

  /** Rotating adds the next key as the current one, touches no other, and wraps under the nonce drawn for it. */
  lemma {:induction false} RotateNumbers(p: Primitives, r: Ring, n: nat, passphrase: string, key: Key, nonce: Nonce)
    requires Numbered(r, n) && 1 <= n < 0xFFFF_FFFF && r.kek == p.derive(passphrase, r.salt)
    ensures RotateDataKey(p, r, key, nonce).Success?
    ensures var s := RotateDataKey(p, r, key, nonce).value;
            && Numbered(s, n + 1) && Wrapped(p, s, passphrase)
            && s.keys == r.keys[n + 1 := key] && s.current == n + 1
            && s.nonce == nonce && s.salt == r.salt && s.kek == r.kek
  {
    hide EncodeKeySet;
    hide Ascending;
    LastIsHighest(r.keys.Keys, n);
    assert n in r.keys;
    assert r.keys[n + 1 := key].Keys == r.keys.Keys + {n + 1};
  }

  /** Changing the passphrase wraps the same keys anew, under the salt and the nonce drawn for it. */
  lemma RephraseKeeps(p: Primitives, r: Ring, passphrase: string, salt: Salt, nonce: Nonce)
    ensures var s := ChangePassphrase(p, r, passphrase, salt, nonce);
            && s.keys == r.keys && s.current == r.current
            && s.salt == salt && s.nonce == nonce && s.kek == p.derive(passphrase, salt)
            && (r.current in r.keys ==> Wrapped(p, s, passphrase))
  {
    hide EncodeKeySet;
  }

  // ---------------------------------------------------------------- runs

  datatype Act =
    | Rotate(key: Key, nonce: Nonce)
    | Rephrase(passphrase: string, salt: Salt, nonce: Nonce)
    | Reopen

  /** One act on a keyring whose passphrase is known; reopening reads the keyfile just written. */
  function Perform(p: Primitives, r: Ring, passphrase: string, act: Act): Result<(Ring, string), KeyringError> {
    match act
    case Rotate(key, nonce) => var s :- RotateDataKey(p, r, key, nonce); Success((s, passphrase))
    case Rephrase(next, salt, nonce) => Success((ChangePassphrase(p, r, next, salt, nonce), next))
    case Reopen => var s :- Open(p, ToKeyfile(r), passphrase); Success((s, passphrase))
  }

  function Run(p: Primitives, r: Ring, passphrase: string, acts: seq<Act>): Result<(Ring, string), KeyringError>
    decreases |acts|
  {
    if acts == [] then Success((r, passphrase))
    else
      var next :- Perform(p, r, passphrase, acts[0]);
      Run(p, next.0, next.1, acts[1..])
  }

  function Rotations(acts: seq<Act>): nat {
    if acts == [] then 0 else (if acts[0].Rotate? then 1 else 0) + Rotations(acts[1..])
  }

  /** The nonce last drawn in a run, and `start` where none was. */
  function LastNonce(acts: seq<Act>, start: Nonce): Nonce {
    if acts == [] then start
    else
      match acts[|acts| - 1]
      case Rotate(_, nonce) => nonce
      case Rephrase(_, _, nonce) => nonce
      case Reopen => LastNonce(acts[..|acts| - 1], start)
  }

  /** The salt last drawn in a run, and `start` where none was. */
  function LastSalt(acts: seq<Act>, start: Salt): Salt {
    if acts == [] then start
    else if acts[|acts| - 1].Rephrase? then acts[|acts| - 1].salt
    else LastSalt(acts[..|acts| - 1], start)
  }

  /** Whenever a run reopens a keyfile, no more than 65535 keys are held. */
  predicate ReopensFit(n: nat, acts: seq<Act>)
    decreases |acts|
  {
    acts == []
    || ((acts[0].Reopen? ==> n <= MAX_COUNT) && ReopensFit(n + if acts[0].Rotate? then 1 else 0, acts[1..]))
  }

  /**
   Past 65535 keys a run goes on as long as it reopens nothing, and what it leaves is a keyring like any other,
   whose keyfile does not reopen. Every number of keys up to the last id is reached this way.
   */
  lemma {:induction false} RunReopens(p: Primitives, r: Ring, n: nat, passphrase: string, acts: seq<Act>)
    requires p.cipher.Lawful() && Numbered(r, n) && Wrapped(p, r, passphrase)
    requires 1 <= n && n + Rotations(acts) <= 0xFFFF_FFFF
    ensures Run(p, r, passphrase, acts).Success? <==> ReopensFit(n, acts)
    ensures Run(p, r, passphrase, acts).Success? ==>
      var (s, last) := Run(p, r, passphrase, acts).value;
      && Numbered(s, n + Rotations(acts)) && Wrapped(p, s, last)
      && (forall id :: id in r.keys ==> id in s.keys && s.keys[id] == r.keys[id])
      && (Open(p, ToKeyfile(s), last) == Success(s) <==> n + Rotations(acts) <= MAX_COUNT)
    decreases |acts|
  {
    hide Numbered, Wrapped, Open, ToKeyfile, Perform;
    if acts == [] {
      NumberedCount(r, n);
      KeyfileReopens(p, r, passphrase);
    } else if acts[0].Reopen? && n > MAX_COUNT {
      NumberedCount(r, n);
      KeyfileReopens(p, r, passphrase);
      ReopenRefused(p, r, passphrase);
    } else {
      var m := PerformKeeps(p, r, n, passphrase, acts[0]);
      var next := Perform(p, r, passphrase, acts[0]).value;
      RunReopens(p, next.0, m, next.1, acts[1..]);
    }
  }

  lemma {:induction false} RunSnoc(p: Primitives, r: Ring, passphrase: string, acts: seq<Act>, last: Act)
    ensures Run(p, r, passphrase, acts + [last])
         == match Run(p, r, passphrase, acts)
            case Failure(e) => Failure(e)
            case Success(next) => Perform(p, next.0, next.1, last)
    decreases |acts|
  {
    hide Perform;
    var all := acts + [last];
    if acts == [] {
      assert all == [last];
      RunOne(p, r, passphrase, last);
    } else if Perform(p, r, passphrase, acts[0]).Success? {
      var next := Perform(p, r, passphrase, acts[0]).value;
      RunSnoc(p, next.0, next.1, acts[1..], last);
      assert all[1..] == acts[1..] + [last];
    }
  }

  lemma {:induction false} RunOne(p: Primitives, r: Ring, passphrase: string, act: Act)
    ensures Run(p, r, passphrase, [act]) == Perform(p, r, passphrase, act)
  {
    hide Perform;
    assert [act][1..] == [];
    if Perform(p, r, passphrase, act).Success? {
      var next := Perform(p, r, passphrase, act).value;
      assert Run(p, next.0, next.1, []) == Success(next);
    }
  }

  lemma {:induction false} RotationsSnoc(acts: seq<Act>, last: Act)
    ensures Rotations(acts + [last]) == Rotations(acts) + if last.Rotate? then 1 else 0
  {
    if acts == [] {
      assert [] + [last] == [last] && [last][1..] == [];
    } else {
      RotationsSnoc(acts[1..], last);
      assert (acts + [last])[1..] == acts[1..] + [last];
    }
  }

  /** What a keyring that was `r` with `n` keys has after `acts`: what they drew, each at its place. */
  ghost predicate Drawn(r: Ring, n: nat, acts: seq<Act>, s: Ring) {
    && s.nonce == LastNonce(acts, r.nonce)
    && s.salt == LastSalt(acts, r.salt)
    && forall i :: 0 <= i < |acts| ==> KeyDrawn(n, acts, i, s.keys)
  }

  /** If the `i`th act drew a key, it is held under the next id in turn. */
  predicate KeyDrawn(n: nat, acts: seq<Act>, i: nat, keys: Keys)
    requires i < |acts|
  {
    acts[i].Rotate? ==>
      n + Rotations(acts[..i + 1]) in keys && keys[n + Rotations(acts[..i + 1])] == acts[i].key
  }

  lemma {:induction false} KeyDrawnBefore(n: nat, acts: seq<Act>, last: Act, i: nat, keys: Keys)
    requires i < |acts|
    ensures KeyDrawn(n, acts + [last], i, keys) <==> KeyDrawn(n, acts, i, keys)
  {
    hide Rotations;
    assert (acts + [last])[..i + 1] == acts[..i + 1];
  }

  lemma {:induction false} KeyDrawnLast(n: nat, acts: seq<Act>, last: Act, keys: Keys)
    requires last.Rotate? && n + Rotations(acts) + 1 in keys && keys[n + Rotations(acts) + 1] == last.key
    ensures KeyDrawn(n, acts + [last], |acts|, keys)
  {
    RotationsSnoc(acts, last);
    hide Rotations;
    assert (acts + [last])[..|acts| + 1] == acts + [last];
  }

  lemma {:induction false} KeyDrawnStays(n: nat, acts: seq<Act>, i: nat, keys: Keys, id: KeyId, key: Key)
    requires i < |acts| && KeyDrawn(n, acts, i, keys) && id !in keys
    ensures KeyDrawn(n, acts, i, keys[id := key])
  {
    hide Rotations;
  }

  lemma {:induction false} LastSnoc(acts: seq<Act>, last: Act, nonce: Nonce, salt: Salt)
    ensures LastNonce(acts + [last], nonce) == LastNonce([last], LastNonce(acts, nonce))
    ensures LastSalt(acts + [last], salt) == if last.Rephrase? then last.salt else LastSalt(acts, salt)
  {
    var all := acts + [last];
    assert all[..|all| - 1] == acts && all[|all| - 1] == last;
    assert [last][..0] == [];
  }

  lemma {:induction false} DrawnSnoc(r: Ring, n: nat, acts: seq<Act>, s: Ring, last: Act, t: Ring)
    requires Drawn(r, n, acts, s)
    requires t.nonce == LastNonce([last], s.nonce)
    requires t.salt == if last.Rephrase? then last.salt else s.salt
    requires last.Rotate? ==> n + Rotations(acts) + 1 < 0x1_0000_0000 && n + Rotations(acts) + 1 !in s.keys
    requires t.keys == if last.Rotate? then s.keys[n + Rotations(acts) + 1 := last.key] else s.keys
    ensures Drawn(r, n, acts + [last], t)
  {
    LastSnoc(acts, last, r.nonce, r.salt);
    hide Rotations, LastNonce, LastSalt, KeyDrawn;
    forall i | 0 <= i <= |acts|
      ensures KeyDrawn(n, acts + [last], i, t.keys)
    {
      if i < |acts| {
        KeyDrawnBefore(n, acts, last, i, t.keys);
        if last.Rotate? {
          KeyDrawnStays(n, acts, i, s.keys, n + Rotations(acts) + 1, last.key);
        }
      } else if last.Rotate? {
        KeyDrawnLast(n, acts, last, t.keys);
      } else {
        NoKeyDrawn(n, acts + [last], i, t.keys);
      }
    }
  }

  lemma NoKeyDrawn(n: nat, acts: seq<Act>, i: nat, keys: Keys)
    requires i < |acts| && !acts[i].Rotate?
    ensures KeyDrawn(n, acts, i, keys)
  {
    hide Rotations;
  }

  lemma NothingDrawn(p: Primitives, r: Ring, n: nat, passphrase: string)
    ensures Run(p, r, passphrase, []) == Success((r, passphrase)) && Drawn(r, n, [], r)
  {}

  /**
   After every run the keyring has the salt and the nonce last drawn in it, and the key that an act drew under the
   next id in turn.
   */
  lemma {:induction false} RunDraws(p: Primitives, r: Ring, n: nat, passphrase: string, acts: seq<Act>)
    requires p.cipher.Lawful() && Numbered(r, n) && Wrapped(p, r, passphrase)
    requires 1 <= n && n + Rotations(acts) <= 0xFFFF_FFFF && Run(p, r, passphrase, acts).Success?
    ensures Drawn(r, n, acts, Run(p, r, passphrase, acts).value.0)
    decreases |acts|
  {
    hide *;
    if acts == [] {
      NothingDrawn(p, r, n, passphrase);
    } else {
      var front, last := acts[..|acts| - 1], acts[|acts| - 1];
      assert acts == front + [last];
      RunSnoc(p, r, passphrase, front, last);
      RotationsSnoc(front, last);
      RunDraws(p, r, n, passphrase, front);
      RunReopens(p, r, n, passphrase, front);
      var (s, phrase) := Run(p, r, passphrase, front).value;
      PerformDraws(p, s, n + Rotations(front), phrase, last);
      DrawnSnoc(r, n, front, s, last, Perform(p, s, phrase, last).value.0);
    }
  }

  /** What one act draws is what the keyring then has, and it keeps the rest. */
  lemma {:induction false} PerformDraws(p: Primitives, r: Ring, n: nat, passphrase: string, act: Act)
    requires p.cipher.Lawful() && Numbered(r, n) && Wrapped(p, r, passphrase)
    requires 1 <= n && n + (if act.Rotate? then 1 else 0) <= 0xFFFF_FFFF
    requires Perform(p, r, passphrase, act).Success?
    ensures var s := Perform(p, r, passphrase, act).value.0;
            && s.nonce == LastNonce([act], r.nonce)
            && s.salt == (if act.Rephrase? then act.salt else r.salt)
            && s.keys == (if act.Rotate? then r.keys[n + 1 := act.key] else r.keys)
    ensures act.Rotate? ==> n + 1 !in r.keys
  {
    hide EncodeKeySet, Open, ToKeyfile, RotateDataKey, Wrapped, Numbered;
    assert [act][..0] == [];
    match act
    case Rotate(key, nonce) =>
      WrappedKey(p, r, passphrase);
      NumberedHolds(r, n);
      RotateNumbers(p, r, n, passphrase, key, nonce);
    case Rephrase(_, _, _) =>
    case Reopen => KeyfileReopens(p, r, passphrase);
  }

  lemma NumberedHolds(r: Ring, n: nat)
    requires Numbered(r, n)
    ensures forall id: KeyId :: id in r.keys <==> 1 <= id <= n
  {}

  lemma WrappedKey(p: Primitives, r: Ring, passphrase: string)
    requires Wrapped(p, r, passphrase)
    ensures r.kek == p.derive(passphrase, r.salt)
  {
    hide EncodeKeySet;
  }

  /**
   Over every run that stays within 65535 keys nothing fails, ids are 1 to n with n current, no key
   is lost or altered, and what is cached is the wrapping of exactly the keys that are held.
   */
  lemma {:induction false} RunKeeps(p: Primitives, r: Ring, n: nat, passphrase: string, acts: seq<Act>)
    requires p.cipher.Lawful() && Numbered(r, n) && Wrapped(p, r, passphrase)
    requires 1 <= n && n + Rotations(acts) <= MAX_COUNT
    ensures Run(p, r, passphrase, acts).Success?
    ensures var (s, last) := Run(p, r, passphrase, acts).value;
            && Numbered(s, n + Rotations(acts)) && Wrapped(p, s, last)
            && (forall id :: id in r.keys ==> id in s.keys && s.keys[id] == r.keys[id])
            && Open(p, ToKeyfile(s), last) == Success(s)
  {
    RotationsFit(n, acts);
    hide *;
    RunReopens(p, r, n, passphrase, acts);
  }

  lemma {:induction false} RotationsFit(n: nat, acts: seq<Act>)
    requires n + Rotations(acts) <= MAX_COUNT
    ensures ReopensFit(n, acts)
    decreases |acts|
  {
    if acts != [] {
      RotationsFit(n + if acts[0].Rotate? then 1 else 0, acts[1..]);
    }
  }

  /** A run that reopens nothing is never held up. */
  lemma {:induction false} NoReopenFits(n: nat, acts: seq<Act>)
    requires forall act :: act in acts ==> !act.Reopen?
    ensures ReopensFit(n, acts)
    decreases |acts|
  {
    if acts != [] {
      NoReopenFits(n + if acts[0].Rotate? then 1 else 0, acts[1..]);
    }
  }

  /** Rotating so many times. */
  function Turns(count: nat, key: Key, nonce: Nonce): (acts: seq<Act>)
    ensures |acts| == count
  {
    if count == 0 then [] else [Rotate(key, nonce)] + Turns(count - 1, key, nonce)
  }

  lemma {:induction false} TurnsRotate(count: nat, key: Key, nonce: Nonce)
    ensures Rotations(Turns(count, key, nonce)) == count
    ensures forall act :: act in Turns(count, key, nonce) ==> act.Rotate?
  {
    if count > 0 {
      TurnsRotate(count - 1, key, nonce);
      assert Turns(count, key, nonce)[1..] == Turns(count - 1, key, nonce);
    }
  }

  /**
   A new keyring that is rotated any number of times holds one key more than that, and its keyfile is refused
   from the 65535th rotation on.
   */
  lemma {:induction false} RotatedKeyfile(
    p: Primitives, passphrase: string, key: Key, salt: Salt, nonce: Nonce, count: nat)
    requires p.cipher.Lawful() && 1 + count <= 0xFFFF_FFFF
    ensures var run := Run(p, Create(p, passphrase, key, salt, nonce), passphrase, Turns(count, key, nonce));
            run.Success? && Numbered(run.value.0, 1 + count)
            && (Open(p, ToKeyfile(run.value.0), run.value.1) == Success(run.value.0) <==> count < 65535)
  {
    CreateNumbers(p, passphrase, key, salt, nonce);
    TurnsRotate(count, key, nonce);
    assert MAX_COUNT == 65535;
    hide *;
    NoReopenFits(1, Turns(count, key, nonce));
    RunReopens(p, Create(p, passphrase, key, salt, nonce), 1, passphrase, Turns(count, key, nonce));
  }

  lemma ReopenRefused(p: Primitives, r: Ring, passphrase: string)
    ensures Perform(p, r, passphrase, Reopen).Success? <==> Open(p, ToKeyfile(r), passphrase).Success?
  {
    hide Open, ToKeyfile;
  }

  lemma {:induction false} NumberedCount(r: Ring, n: nat)
    requires Numbered(r, n)
    ensures |r.keys| == n
  {}

  lemma {:induction false} PerformKeeps(p: Primitives, r: Ring, n: nat, passphrase: string, act: Act) returns (m: nat)
    requires p.cipher.Lawful() && Numbered(r, n) && Wrapped(p, r, passphrase)
    requires 1 <= n && n + (if act.Rotate? then 1 else 0) <= 0xFFFF_FFFF && (act.Reopen? ==> n <= MAX_COUNT)
    ensures m == n + if act.Rotate? then 1 else 0
    ensures Perform(p, r, passphrase, act).Success?
    ensures var (s, last) := Perform(p, r, passphrase, act).value;
            && Numbered(s, m) && Wrapped(p, s, last)
            && (forall id :: id in r.keys ==> id in s.keys && s.keys[id] == r.keys[id])
  {
    hide EncodeKeySet, Open, ToKeyfile, RotateDataKey;
    m := n + if act.Rotate? then 1 else 0;
    match act
    case Rotate(key, nonce) => RotateNumbers(p, r, n, passphrase, key, nonce);
    case Rephrase(_, _, _) =>
    case Reopen => KeyfileReopens(p, r, passphrase);
  }

  /** The frame a keyring seals and opens objects with. */
  function FrameOf(p: Primitives, r: Ring, blockSize: BlockSize): BF.BlockFrame {
    BF.BlockFrame(p.cipher, r.keys, r.current, blockSize)
  }
}
