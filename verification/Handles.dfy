/**
 Several handles on one store. A handle seals and opens with the frame it was opened with, so after a rotation
 a handle from before it goes on under the old key and cannot open what others seal under the new one.
 */
module Handles {
  import opened Bytes
  import opened Frame
  import opened BlockFrame
  import opened ObjectStore
  import opened Wrappers
  import K = Keyring
  import U = Upload

  /** A store, and the frame each handle on it was opened with. */
  datatype Shared = Shared(store: Encrypting, handles: map<nat, BlockFrame>) {
    /** A handle is opened, on the keyring as it is then, when it is first used. */
    function FrameOf(handle: nat): BlockFrame {
      if handle in handles then handles[handle] else store.Frame()
    }
  }

  datatype Call = Call(handle: nat, op: Op)

  function SharedStep(s: Shared, c: Call): (Shared, Reply) {
    var f := s.FrameOf(c.handle);
    var (next, reply) := StepThrough(f, s.store, c.op);
    (Shared(next, s.handles[c.handle := f]), reply)
  }

  /** A store stands for a plain map, and its keyring holds every key that any handle holds. */
  ghost predicate Stands(s: Shared, plain: Plain) {
    && StandsFor(s.store, plain)
    && forall handle :: handle in s.handles ==> Serves(s.handles[handle], s.store.Frame())
  }

  ghost predicate Serves(f: BlockFrame, present: BlockFrame) {
    f.current in f.keys && Outlives(f, present)
  }

  /** A get asks for bytes of an object whose key the handle was opened without. */
  predicate Withheld(f: BlockFrame, objects: map<Path, Bytes>, plain: map<Path, Bytes>, op: Op) {
    && op.Get? && !op.head && op.path in objects && op.path in plain && |objects[op.path]| >= HEADER_LEN
    && WantedRange(op.requested, |plain[op.path]|).start < WantedRange(op.requested, |plain[op.path]|).end
    && HeaderKey(objects[op.path]) !in f.keys
  }

  // ---------------------------------------------------------------- a get through a handle

  lemma {:induction false} OutlivesItself(f: BlockFrame)
    ensures Outlives(f, f)
  {}

  lemma {:induction false} OutlivesOn(f: BlockFrame, g: BlockFrame, h: BlockFrame)
    requires Outlives(f, g) && Outlives(g, h)
    ensures Outlives(f, h)
  {}

  /** A header that names a key the handle lacks, and is sound otherwise, fails as that key. */
  lemma {:induction false} UnknownRefused(f: BlockFrame, present: BlockFrame, header: Bytes, id: KeyId)
    requires f.blockSize == present.blockSize && id !in f.keys
    requires present.ReadHeader(header) == Success(Framing(present.blockSize, id))
    ensures |header| >= HEADER_LEN && HeaderKey(header) == id
    ensures f.ReadHeader(header) == Failure(UnknownKey(id))
  {
    hide IsPowerOfTwo, FromLittleEndian;
  }

  lemma {:induction false} ObjectKey(f: BlockFrame, id: KeyId, data: Bytes, draws: Draws)
    requires f.cipher.Lawful() && id in f.keys
    ensures var stored := Sealer(f.cipher, f.keys[id], id, f.blockSize).Object(data, draws);
            |stored| >= HEADER_LEN && HeaderKey(stored) == id
  {
    var s := Sealer(f.cipher, f.keys[id], id, f.blockSize);
    var stored := s.Object(data, draws);
    f.HeaderReads(id, s.Body(data, 0, draws));
    hide IsPowerOfTwo, Sealer.Header, Sealer.Body, FromLittleEndian;
    assert stored == s.Header() + s.Body(data, 0, draws);
  }

  /** Without its key, of an object only the size is answered. */
  lemma {:induction false} ReadsWithoutKey(
    f: BlockFrame, present: BlockFrame, id: KeyId, data: Bytes, draws: Draws, requested: Option<GetRange>, head: bool)
    requires present.cipher.Lawful() && f.blockSize == present.blockSize && id in present.keys && id !in f.keys
    ensures var stored := Sealer(present.cipher, present.keys[id], id, present.blockSize).Object(data, draws);
            var wanted := WantedRange(requested, |data|);
            SealedRead(f, stored, requested, head)
              == if !head && wanted.start < wanted.end then Failure(UnknownKey(id))
                 else Success(PlainRead(data, requested, head))
  {
    var s := Sealer(present.cipher, present.keys[id], id, present.blockSize);
    s.ObjectLength(data, draws);
    StoredHeader(present, id, data, draws);
    UnknownRefused(f, present, Fetch(s.Object(data, draws), Range(0, HEADER_LEN)), id);
    ReadAgrees(present, id, data, draws, requested, head);
    hide Sealer.Object, CiphertextSpan, PlaintextLen, CiphertextLen, IsPowerOfTwo, BlockFrame.ReadHeader, WantedRange;
    hide BlockFrame.OpenSpan;
  }

  lemma {:induction false} GetThrough(
    f: BlockFrame, present: BlockFrame, objects: map<Path, Bytes>, plain: map<Path, Bytes>, op: Op)
    requires present.cipher.Lawful() && Outlives(f, present) && ObjectsStandFor(present, objects, plain) && op.Get?
    ensures SealedGet(f, objects, op.path, op.requested, op.head)
         == if Withheld(f, objects, plain, op)
            then Failure(Crypto(op.path, UnknownKey(HeaderKey(objects[op.path]))))
            else PlainGet(plain, op.path, op.requested, op.head)
  {
    hide SealedRead, PlainRead, Sealer.Object, IsPowerOfTwo, WantedRange, HeaderKey;
    if op.path in objects {
      var stored, data := objects[op.path], plain[op.path];
      assert Seals(present, stored, data);
      var id: KeyId, draws: Draws :|
        id in present.keys
        && stored == Sealer(present.cipher, present.keys[id], id, present.blockSize).Object(data, draws);
      ObjectKey(present, id, data, draws);
      if id in f.keys {
        ReadAgrees(f, id, data, draws, op.requested, op.head);
      } else {
        ReadsWithoutKey(f, present, id, data, draws, op.requested, op.head);
      }
    }
  }

  // ---------------------------------------------------------------- every call

  /** What a handle seals, the keyring's present frame can open. */
  lemma {:induction false} PutThrough(f: BlockFrame, s: Encrypting, plain: Plain, op: Op)
    requires StandsFor(s, plain) && Serves(f, s.Frame()) && op.Put?
    ensures StepThrough(f, s, op).1 == PlainStep(plain, op).1
    ensures StandsFor(StepThrough(f, s, op).0, PlainStep(plain, op).0)
  {
    hide Sealer.Object, K.Numbered, UploadsStandFor, IsPowerOfTwo;
    var stored := f.SealObject(op.data, op.draws).value;
    assert Seals(f, stored, op.data) by {
      assert stored == Sealer(f.cipher, f.keys[f.current], f.current, f.blockSize).Object(op.data, op.draws);
    }
    SealsOutlive(f, s.Frame(), stored, op.data);
    hide Seals;
  }

  lemma {:induction false} BeginThrough(f: BlockFrame, s: Encrypting, plain: Plain, op: Op)
    requires StandsFor(s, plain) && Serves(f, s.Frame()) && op.BeginUpload?
    ensures StepThrough(f, s, op).1 == PlainStep(plain, op).1
    ensures StandsFor(StepThrough(f, s, op).0, PlainStep(plain, op).0)
  {
    hide Sealer.Object, K.Numbered, IsPowerOfTwo, U.State.Holds, ObjectsStandFor;
    BeginHolds(f.SealerFor(f.current).value, op.draws);
  }

  /** Nothing but sealing and opening looks at the keys of a handle. */
  lemma {:induction false} OthersAlike(f: BlockFrame, s: Encrypting, op: Op)
    requires f.blockSize == s.blockSize
    requires !op.Put? && !op.BeginUpload? && !op.Get?
    ensures StepThrough(f, s, op) == SealedStep(s, op)
  {
    hide IsPowerOfTwo, PlaintextLen, U.State.PutPart, U.State.Complete, K.RotateDataKey, K.ChangePassphrase;
    if op.List? {
      SizesAlike(f, s.Frame(), s.objects, op.prefix);
    }
  }

  lemma {:induction false} SizesAlike(f: BlockFrame, g: BlockFrame, objects: map<Path, Bytes>, prefix: Path)
    requires f.blockSize == g.blockSize
    ensures (map path | path in objects && prefix <= path :: AsPlaintext(f, path, |objects[path]|))
         == (map path | path in objects && prefix <= path :: AsPlaintext(g, path, |objects[path]|))
  {
    hide PlaintextLen, IsPowerOfTwo;
  }

  lemma GetSteps(f: BlockFrame, s: Encrypting, plain: Plain, op: Op)
    requires op.Get?
    ensures StepThrough(f, s, op) == (s, ReplyOf(SealedGet(f, s.objects, op.path, op.requested, op.head)))
    ensures PlainStep(plain, op) == (plain, ReplyOf(PlainGet(plain.objects, op.path, op.requested, op.head)))
  {
    hide SealedGet, PlainGet;
  }

  lemma Standing(s: Encrypting, plain: Plain)
    requires StandsFor(s, plain)
    ensures s.p.cipher.Lawful() && ObjectsStandFor(s.Frame(), s.objects, plain.objects)
  {
    hide ObjectsStandFor, UploadsStandFor, K.Numbered, IsPowerOfTwo;
  }

  lemma {:induction false} StepThroughAgrees(f: BlockFrame, s: Encrypting, plain: Plain, op: Op)
    requires StandsFor(s, plain) && Serves(f, s.Frame())
    ensures StandsFor(StepThrough(f, s, op).0, PlainStep(plain, op).0)
    ensures StepThrough(f, s, op).1
         == if Withheld(f, s.objects, plain.objects, op)
            then Failed(Crypto(op.path, UnknownKey(HeaderKey(s.objects[op.path]))))
            else PlainStep(plain, op).1
  {
    if op.Put? {
      PutThrough(f, s, plain, op);
      hide *;
    } else if op.BeginUpload? {
      BeginThrough(f, s, plain, op);
      hide *;
    } else if op.Get? {
      GetSteps(f, s, plain, op);
      hide StepThrough, PlainStep, StandsFor, SealedGet, PlainGet, Withheld, ObjectsStandFor, HeaderKey, IsPowerOfTwo;
      Standing(s, plain);
      GetThrough(f, s.Frame(), s.objects, plain.objects, op);
    } else {
      OthersAlike(f, s, op);
      StepAgrees(s, plain, op);
      hide *;
    }
  }

  /** No operation takes a key out of the keyring. */
  lemma {:induction false} KeysStay(f: BlockFrame, s: Encrypting, plain: Plain, op: Op)
    requires StandsFor(s, plain)
    ensures Outlives(s.Frame(), StepThrough(f, s, op).0.Frame())
  {
    hide ObjectsStandFor, UploadsStandFor, IsPowerOfTwo, U.State.PutPart, U.State.Complete, K.RotateDataKey;
    hide K.EncodeKeySet, Sealer.Object, PlaintextLen, SealedGet;
    if op.RotateKey? && K.RotateDataKey(s.p, s.ring, op.key, op.nonce).Success? {
      var n: nat :| n >= 1 && K.Numbered(s.ring, n);
      RotateKeeps(s.p, s.ring, n, op.key, op.nonce);
    }
  }

  lemma {:induction false} PresentServes(s: Encrypting, plain: Plain)
    requires StandsFor(s, plain)
    ensures Serves(s.Frame(), s.Frame())
  {
    CurrentHeld(s, plain);
    hide StandsFor;
    OutlivesItself(s.Frame());
  }

  /**
   Through any handle, however old, every operation answers as on a plain map of plaintexts, but for a get that
   asks for bytes sealed under a key from after the handle was opened, which is refused by that key's name; and
   what the store stands for is the same whoever wrote it.
   */
  lemma {:induction false} CallAgrees(s: Shared, plain: Plain, c: Call)
    requires Stands(s, plain)
    ensures Stands(SharedStep(s, c).0, PlainStep(plain, c.op).0)
    ensures SharedStep(s, c).1
         == if Withheld(s.FrameOf(c.handle), s.store.objects, plain.objects, c.op)
            then Failed(Crypto(c.op.path, UnknownKey(HeaderKey(s.store.objects[c.op.path]))))
            else PlainStep(plain, c.op).1
  {
    var f, t := s.FrameOf(c.handle), SharedStep(s, c).0;
    PresentServes(s.store, plain);
    assert Serves(f, s.store.Frame());
    StepThroughAgrees(f, s.store, plain, c.op);
    KeysStay(f, s.store, plain, c.op);
    hide StepThrough, PlainStep, StandsFor, Outlives, Withheld, HeaderKey, Encrypting.Frame;
    forall handle | handle in t.handles
      ensures Serves(t.handles[handle], t.store.Frame())
    {
      OutlivesOn(t.handles[handle], s.store.Frame(), t.store.Frame());
    }
  }

  /** A handle that holds the keyring's keys as they are is refused nothing. */
  lemma {:induction false} FreshHandle(s: Shared, plain: Plain, c: Call)
    requires Stands(s, plain) && s.FrameOf(c.handle).keys == s.store.ring.keys
    ensures SharedStep(s, c).1 == PlainStep(plain, c.op).1
  {
    CallAgrees(s, plain, c);
    var f := s.FrameOf(c.handle);
    if Withheld(f, s.store.objects, plain.objects, c.op) {
      HeldKey(s.store.Frame(), s.store.objects, plain.objects, c.op.path);
      assert false;
    }
  }

  lemma {:induction false} HeldKey(f: BlockFrame, objects: map<Path, Bytes>, plain: map<Path, Bytes>, path: Path)
    requires f.cipher.Lawful() && ObjectsStandFor(f, objects, plain) && path in objects
    ensures |objects[path]| >= HEADER_LEN && HeaderKey(objects[path]) in f.keys
  {
    hide Sealer.Object, IsPowerOfTwo, HeaderKey;
    assert Seals(f, objects[path], plain[path]);
    var id: KeyId, draws: Draws :|
      id in f.keys && objects[path] == Sealer(f.cipher, f.keys[id], id, f.blockSize).Object(plain[path], draws);
    ObjectKey(f, id, plain[path], draws);
  }

  // ---------------------------------------------------------------- every run

  function SharedRun(s: Shared, calls: seq<Call>): (Shared, seq<Reply>)
    decreases |calls|
  {
    if calls == [] then (s, [])
    else
      var (next, reply) := SharedStep(s, calls[0]);
      var (last, replies) := SharedRun(next, calls[1..]);
      (last, [reply] + replies)
  }

  function Ops(calls: seq<Call>): seq<Op> {
    if calls == [] then [] else [calls[0].op] + Ops(calls[1..])
  }

  /** An answer is the plain one, or a get was refused for want of a key. */
  predicate Answered(op: Op, reply: Reply, plain: Reply) {
    || reply == plain
    || (op.Get? && reply.Failed? && reply.error.Crypto? && reply.error.path == op.path && reply.error.error.UnknownKey?)
  }

  predicate AllAnswered(calls: seq<Call>, replies: seq<Reply>, plain: seq<Reply>) {
    && |replies| == |plain| == |calls|
    && forall i :: 0 <= i < |calls| ==> Answered(calls[i].op, replies[i], plain[i])
  }

  lemma {:induction false} FirstAnswered(
    calls: seq<Call>, reply: Reply, replies: seq<Reply>, first: Reply, plain: seq<Reply>)
    requires calls != [] && Answered(calls[0].op, reply, first) && AllAnswered(calls[1..], replies, plain)
    ensures AllAnswered(calls, [reply] + replies, [first] + plain)
  {
    hide Answered;
    forall i | 0 <= i < |calls|
      ensures Answered(calls[i].op, ([reply] + replies)[i], ([first] + plain)[i])
    {
      assert i > 0 ==> calls[i] == calls[1..][i - 1];
    }
  }

  /**
   Over every run of calls through any handles, with rotations in between, the store stands for what a plain map
   would hold, and every answer is the plain one or the refusal of a get for want of its key.
   */
  lemma {:induction false} SharedRunAgrees(s: Shared, plain: Plain, calls: seq<Call>)
    requires Stands(s, plain)
    ensures Stands(SharedRun(s, calls).0, PlainRun(plain, Ops(calls)).0)
    ensures AllAnswered(calls, SharedRun(s, calls).1, PlainRun(plain, Ops(calls)).1)
    decreases |calls|
  {
    hide Stands, SharedStep, PlainStep, Withheld, HeaderKey, AllAnswered, Answered;
    if calls == [] {
      NoneAnswered();
    } else {
      var c := calls[0];
      CallAgrees(s, plain, c);
      CallAnswered(s, plain, c);
      SharedRunAgrees(SharedStep(s, c).0, PlainStep(plain, c.op).0, calls[1..]);
      var rest, plainRest := SharedRun(SharedStep(s, c).0, calls[1..]).1,
                             PlainRun(PlainStep(plain, c.op).0, Ops(calls[1..])).1;
      FirstAnswered(calls, SharedStep(s, c).1, rest, PlainStep(plain, c.op).1, plainRest);
      assert Ops(calls)[1..] == Ops(calls[1..]);
    }
  }

  lemma CallAnswered(s: Shared, plain: Plain, c: Call)
    requires Stands(s, plain)
    ensures Answered(c.op, SharedStep(s, c).1, PlainStep(plain, c.op).1)
  {
    CallAgrees(s, plain, c);
    hide Stands, SharedStep, PlainStep, HeaderKey, WantedRange;
  }

  lemma NoneAnswered()
    ensures AllAnswered([], [], [])
  {}
}
