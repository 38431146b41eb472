/** The encrypting store as an object around an inner one, proved against `ObjectStore`. */
module EncryptingStore {
  import opened Aead
  import opened Arithmetic
  import opened Bytes
  import opened Frame
  import opened BlockFrame
  import opened ObjectStore
  import opened Wrappers
  import L = FrameLoops
  import U = Upload

  /** The store underneath, which holds ciphertext and knows nothing of it. */
  class InnerStore {
    var objects: map<Path, Bytes>

    constructor ()
      ensures objects == map[]
    {
      objects := map[];
    }

    method Put(path: Path, data: Bytes, mode: Mode) returns (r: Result<(), StoreError>)
      modifies this
      ensures mode == Create && path in old(objects) ==>
                r == Failure(AlreadyExists(path)) && objects == old(objects)
      ensures !(mode == Create && path in old(objects)) ==>
                r == Success(()) && objects == old(objects)[path := data]
    {
      if mode == Create && path in objects {
        return Failure(AlreadyExists(path));
      }
      objects := objects[path := data];
      return Success(());
    }

    method Head(path: Path) returns (r: Result<nat, StoreError>)
      ensures r == if path in objects then Success(|objects[path]|) else Failure(NotFound(path))
    {
      if path !in objects {
        return Failure(NotFound(path));
      }
      return Success(|objects[path]|);
    }

    /** Two ranges of one object in one round trip. */
    method GetRanges(path: Path, first: Range, second: Range) returns (a: Bytes, b: Bytes)
      requires path in objects
      ensures a == Fetch(objects[path], first) && b == Fetch(objects[path], second)
    {
      a, b := Fetch(objects[path], first), Fetch(objects[path], second);
    }

    method Copy(from: Path, to: Path, mode: Mode) returns (r: Result<(), StoreError>)
      modifies this
      ensures from !in old(objects) ==> r == Failure(NotFound(from)) && objects == old(objects)
      ensures from in old(objects) && mode == Create && to in old(objects) ==>
                r == Failure(AlreadyExists(to)) && objects == old(objects)
      ensures from in old(objects) && !(mode == Create && to in old(objects)) ==>
                r == Success(()) && objects == old(objects)[to := old(objects)[from]]
    {
      if from !in objects {
        return Failure(NotFound(from));
      }
      if mode == Create && to in objects {
        return Failure(AlreadyExists(to));
      }
      objects := objects[to := objects[from]];
      return Success(());
    }

    method Delete(path: Path) returns (r: Result<(), StoreError>)
      modifies this
      ensures r == if path in old(objects) then Success(()) else Failure(NotFound(path))
      ensures objects == old(objects) - {path}
    {
      if path !in objects {
        assert objects - {path} == objects;
        return Failure(NotFound(path));
      }
      objects := objects - {path};
      return Success(());
    }
  }

  lemma {:induction false} SealedStands(f: BlockFrame, plaintext: Bytes, draws: Draws)
    requires f.SealObject(plaintext, draws).Success?
    ensures Seals(f, f.SealObject(plaintext, draws).value, plaintext)
  {
    hide Sealer.Object, IsPowerOfTwo;
    assert f.current in f.keys
        && f.SealObject(plaintext, draws).value
           == Sealer(f.cipher, f.keys[f.current], f.current, f.blockSize).Object(plaintext, draws);
  }

  lemma {:induction false} SealedDraws(f: BlockFrame, plaintext: Bytes, draws: Draws)
    requires f.cipher.Lawful() && f.SealObject(plaintext, draws).Success?
    ensures SealedWith(f.SealObject(plaintext, draws).value, f.blockSize, f.current, |plaintext|, draws)
  {
    hide Sealer.Object, SealedWith, IsPowerOfTwo, Cipher.Lawful;
    f.SealerFor(f.current).value.ObjectDraws(plaintext, draws);
  }

  class EncryptingObjectStore {
    const inner: InnerStore
    const frame: BlockFrame
    /** The plaintexts the ciphertexts underneath stand for. */
    ghost var contents: map<Path, Bytes>

    ghost predicate Valid()
      reads this, inner
    {
      && frame.cipher.Lawful()
      && frame.current in frame.keys
      && ObjectsStandFor(frame, inner.objects, contents)
    }

    /** Wrap a store whose objects stand for `contents`. */
    constructor (inner: InnerStore, frame: BlockFrame, ghost contents: map<Path, Bytes>)
      requires frame.cipher.Lawful() && frame.current in frame.keys
      requires ObjectsStandFor(frame, inner.objects, contents)
      ensures this.inner == inner && this.frame == frame && this.contents == contents && Valid()
    {
      this.inner, this.frame, this.contents := inner, frame, contents;
    }

    method PutOpts(path: Path, payload: seq<Bytes>, mode: Mode, draws: Draws)
      returns (r: Result<(), StoreError>)
      modifies this`contents, inner
      ensures frame.SealObject(U.Flatten(payload), draws).Failure? ==>
                && r == Failure(Crypto(path, frame.SealObject(U.Flatten(payload), draws).error))
                && inner.objects == old(inner.objects)
      ensures r.Failure? ==> contents == old(contents) && inner.objects == old(inner.objects)
      ensures r.Success? ==>
                path in inner.objects && inner.objects == old(inner.objects)[path := inner.objects[path]]
      ensures r.Success? && frame.cipher.Lawful() ==>
                SealedWith(inner.objects[path], frame.blockSize, frame.current, |U.Flatten(payload)|, draws)
      ensures old(Valid()) ==>
                && Valid()
                && r == (if mode == Create && path in old(contents) then Failure(AlreadyExists(path))
                         else Success(()))
                && (r.Success? ==> contents == old(contents)[path := U.Flatten(payload)])
    {
      hide Sealer.Object, IsPowerOfTwo, SealedWith, Cipher.Lawful;
      var plaintext := U.Flatten(payload);
      var stored := L.Seal(frame, plaintext, draws);
      if stored.Failure? {
        return Failure(Crypto(path, stored.error));
      }
      r := inner.Put(path, stored.value, mode);
      if r.Success? {
        SealedStands(frame, plaintext, draws);
        if frame.cipher.Lawful() {
          SealedDraws(frame, plaintext, draws);
        }
        contents := contents[path := plaintext];
      }
    }

    /** Any get answers as the plaintexts would. */
    method GetOpts(path: Path, requested: Option<GetRange>, head: bool) returns (r: Result<Got, StoreError>)
      ensures r == SealedGet(frame, inner.objects, path, requested, head)
      ensures Valid() ==> r == PlainGet(contents, path, requested, head)
    {
      hide CiphertextSpan, PlaintextLen, WantedRange, IsPowerOfTwo;
      hide BlockFrame.OpenSpan, BlockFrame.ReadHeader, PlainGet, ObjectsStandFor;
      if Valid() {
        GetAgrees(frame, inner.objects, contents, path, requested, head);
      }
      var size :- inner.Head(path);
      var length := PlaintextLen(frame.blockSize, size);
      if length.Failure? {
        return Failure(Crypto(path, length.error));
      }
      if head {
        return Success(Got([], Range(0, 0), length.value));
      }
      var wanted := WantedRange(requested, length.value);
      if wanted.start >= wanted.end {
        return Success(Got([], wanted, length.value));
      }
      var span := CiphertextSpan(frame.blockSize, wanted, length.value);
      var header, sealed := inner.GetRanges(path, Range(0, HEADER_LEN), span);
      var framing := frame.ReadHeader(header);
      if framing.Failure? {
        return Failure(Crypto(path, framing.error));
      }
      var plaintext := L.OpenSpan(frame, sealed, span, wanted, framing.value);
      if plaintext.Failure? {
        return Failure(Crypto(path, plaintext.error));
      }
      return Success(Got(plaintext.value, wanted, length.value));
    }

    /** Ciphertext copies verbatim, and what it stands for copies with it. */
    method CopyOpts(from: Path, to: Path, mode: Mode) returns (r: Result<(), StoreError>)
      requires Valid()
      modifies this`contents, inner
      ensures Valid()
      ensures r.Failure? ==> contents == old(contents)
      ensures r == if from !in old(contents) then Failure(NotFound(from))
                   else if mode == Create && to in old(contents) then Failure(AlreadyExists(to))
                   else Success(())
      ensures r.Success? ==> contents == old(contents)[to := old(contents)[from]]
      ensures r.Failure? ==> inner.objects == old(inner.objects)
      ensures r.Success? ==>
                from in old(inner.objects) && inner.objects == old(inner.objects)[to := old(inner.objects)[from]]
    {
      hide Seals, IsPowerOfTwo;
      r := inner.Copy(from, to, mode);
      if r.Success? {
        contents := contents[to := contents[from]];
      }
    }

    method Delete(path: Path) returns (r: Result<(), StoreError>)
      requires Valid()
      modifies this`contents, inner
      ensures Valid()
      ensures r == if path in old(contents) then Success(()) else Failure(NotFound(path))
      ensures contents == old(contents) - {path}
      ensures inner.objects == old(inner.objects) - {path}
    {
      hide Seals, IsPowerOfTwo;
      r := inner.Delete(path);
      contents := contents - {path};
    }
  }
}
