/** The keyring as an object whose fields are updated in place. */
module KeyringObject {
  import opened Aead
  import opened Arithmetic
  import opened Bytes
  import opened Frame
  import opened Wrappers
  import K = Keyring
  import BF = BlockFrame

  method EncodeKeySet(current: KeyId, keys: K.Keys) returns (out: Bytes)
    ensures out == K.EncodeKeySet(current, keys)
  {
    out := LittleEndian(current, 4) + LittleEndian(Min(|keys|, K.MAX_COUNT), 2);
    var ids := K.Ascending(keys.Keys);
    ghost var target := out + K.EncodeEntries(ids, keys);
    for i := 0 to |ids|
      invariant out + K.EncodeEntries(ids[i..], keys) == target
    {
      hide LittleEndian, K.Ascending;
      var entry := LittleEndian(ids[i], 4) + keys[ids[i]];
      assert ids[i..][1..] == ids[i + 1..];
      var rest := K.EncodeEntries(ids[i + 1..], keys);
      assert (out + entry) + rest == out + (entry + rest);
      out := out + entry;
    }
    assert ids[|ids|..] == [];
  }

  method DecodeKeySet(b: Bytes) returns (r: Result<(KeyId, K.Keys), K.KeyringError>)
    ensures r == K.DecodeKeySet(b)
  {
    hide LittleEndian;
    if |b| < K.SET_HEADER_LEN {
      return Failure(K.MalformedKeyfile("key set is shorter than its own header"));
    }
    Pow256Values();
    var current: KeyId := FromLittleEndian(b[..4]);
    var count := FromLittleEndian(b[4..6]);
    var entries := b[K.SET_HEADER_LEN..];
    if |entries| != count * K.ENTRY_LEN {
      return Failure(K.MalformedKeyfile("key set does not hold the number of keys it declares"));
    }
    var keys := DecodeEntries(entries);
    if current !in keys {
      return Failure(K.MalformedKeyfile("the current key is not in the key set"));
    }
    return Success((current, keys));
  }

  /** The loop of `DecodeKeySet`. */
  method DecodeEntries(entries: Bytes) returns (keys: K.Keys)
    requires |entries| % K.ENTRY_LEN == 0
    ensures keys == K.DecodeEntries(entries, map[])
  {
    keys := map[];
    var rest := entries;
    hide K.EntryId, LittleEndian;
    while rest != []
      invariant |rest| % K.ENTRY_LEN == 0
      invariant K.DecodeEntries(rest, keys) == K.DecodeEntries(entries, map[])
      decreases |rest|
    {
      var entry := rest[..K.ENTRY_LEN];
      keys := keys[K.EntryId(entry) := entry[4..]];
      rest := rest[K.ENTRY_LEN..];
    }
  }

  class Keyring {
    const p: K.Primitives
    var keys: K.Keys
    var current: KeyId
    var kek: Key
    var salt: K.Salt
    var nonce: Nonce
    var sealed: Bytes

    ghost function State(): K.Ring
      reads this
    {
      K.Ring(keys, current, kek, salt, nonce, sealed)
    }

    constructor FromParts(
      p: K.Primitives, keys: K.Keys, current: KeyId, kek: Key, salt: K.Salt, nonce: Nonce, sealed: Bytes)
      ensures this.p == p && State() == K.Ring(keys, current, kek, salt, nonce, sealed)
    {
      this.p, this.keys, this.current, this.kek, this.salt := p, keys, current, kek, salt;
      this.nonce, this.sealed := nonce, sealed;
    }

    /** A new keyring; the first data key, the salt and the nonce are drawn at random. */
    constructor Create(p: K.Primitives, passphrase: string, key: Key, salt: K.Salt, nonce: Nonce)
      ensures this.p == p && State() == K.Create(p, passphrase, key, salt, nonce)
      ensures keys == map[1 := key] && current == 1 && this.salt == salt && this.nonce == nonce
    {
      this.p, this.keys, this.current := p, map[K.FIRST := key], K.FIRST;
      this.kek, this.salt, this.nonce, this.sealed := p.derive(passphrase, salt), salt, nonce, [];
      new;
      hide K.EncodeKeySet;
      Reseal(nonce);
    }

    static method Open(p: K.Primitives, keyfile: Bytes, passphrase: string)
      returns (r: Result<Keyring, K.KeyringError>)
      ensures match K.Open(p, keyfile, passphrase)
              case Failure(e) => r == Failure(e)
              case Success(s) => r.Success? && fresh(r.value) && r.value.p == p && r.value.State() == s
    {
      hide K.DecodeKeySet;
      if |keyfile| < K.PREFIX_LEN {
        return Failure(K.MalformedKeyfile("shorter than a keyfile header"));
      }
      if keyfile[0] != K.KEYFILE_VERSION {
        return Failure(K.KeyringError.UnsupportedVersion(keyfile[0]));
      }
      var salt: K.Salt := keyfile[1..1 + K.SALT_LEN];
      var nonce: Nonce := keyfile[1 + K.SALT_LEN..K.PREFIX_LEN];
      var sealed := keyfile[K.PREFIX_LEN..];
      if |sealed| < K.SET_HEADER_LEN + K.ENTRY_LEN + TAG_LEN {
        return Failure(K.MalformedKeyfile("too short to hold even one key"));
      }
      if (|sealed| - TAG_LEN - K.SET_HEADER_LEN) % K.ENTRY_LEN != 0 {
        return Failure(K.MalformedKeyfile("length is not a whole number of keys"));
      }
      var kek := p.derive(passphrase, salt);
      var plain := p.cipher.decrypt(kek, nonce, K.CONTEXT, sealed);
      if plain.None? {
        return Failure(K.WrongPassphrase);
      }
      var decoded := DecodeKeySet(plain.value);
      if decoded.Failure? {
        return Failure(decoded.error);
      }
      var ring := new Keyring.FromParts(p, decoded.value.1, decoded.value.0, kek, salt, nonce, sealed);
      return Success(ring);
    }

    method ToKeyfile() returns (keyfile: Bytes)
      ensures keyfile == K.ToKeyfile(State())
    {
      keyfile := [K.KEYFILE_VERSION];
      keyfile := keyfile + salt;
      keyfile := keyfile + nonce;
      keyfile := keyfile + sealed;
    }

    /** Adds a key under the next id and makes it current; without an id left, nothing changes. */
    method RotateDataKey(key: Key, nonce: Nonce) returns (r: Result<KeyId, K.KeyringError>)
      modifies this
      ensures match K.RotateDataKey(p, old(State()), key, nonce)
              case Failure(e) => r == Failure(e) && State() == old(State())
              case Success(s) => r == Success(s.current) && State() == s
      ensures salt == old(salt) && kek == old(kek)
      ensures r.Success? ==>
                this.nonce == nonce && current == r.value && keys == old(keys)[r.value := key]
      ensures old(keys) != map[] && r.Success? ==>
                r.value - 1 in old(keys) && forall id :: id in old(keys) ==> id < r.value
      ensures old(keys) != map[] ==>
                (r.Failure? <==> 0xFFFF_FFFF in old(keys)) && (r.Failure? ==> r.error == K.KeySpaceExhausted)
    {
      hide K.EncodeKeySet, K.LastId;
      if keys != map[] {
        K.LastIdIsHighest(keys);
      }
      var last: nat := K.LastId(keys);
      if last + 1 == 0x1_0000_0000 {
        return Failure(K.KeySpaceExhausted);
      }
      var next: KeyId := last + 1;
      keys := keys[next := key];
      current := next;
      Reseal(nonce);
      return Success(next);
    }

    method ChangePassphrase(passphrase: string, salt: K.Salt, nonce: Nonce)
      modifies this
      ensures State() == K.ChangePassphrase(p, old(State()), passphrase, salt, nonce)
      ensures this.salt == salt && this.nonce == nonce && keys == old(keys) && current == old(current)
    {
      hide K.EncodeKeySet;
      this.salt := salt;
      kek := p.derive(passphrase, salt);
      Reseal(nonce);
    }

    method Reseal(nonce: Nonce)
      modifies this`nonce, this`sealed
      ensures State() == K.Reseal(p, old(State()), nonce)
    {
      this.nonce := nonce;
      var plaintext := EncodeKeySet(current, keys);
      sealed := p.cipher.encrypt(kek, nonce, K.CONTEXT, plaintext);
    }

    method Frame(blockSize: BlockSize) returns (f: BF.BlockFrame)
      ensures f == K.FrameOf(p, State(), blockSize)
    {
      f := BF.BlockFrame(p.cipher, keys, current, blockSize);
    }
  }
}
