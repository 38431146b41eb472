/**
 What operations on the encrypting store leave behind, said of the stored bytes and of what later gets answer, and
 which key and which draws whatever is stored over a run was sealed with.
 */
module StoreLaws {
  import opened Aead
  import opened Bytes
  import opened Frame
  import opened BlockFrame
  import opened Handles
  import opened ObjectStore
  import opened Wrappers
  import K = Keyring
  import U = Upload

  /** A store as its operations find it: a cipher that is one, and a current key that is held. */
  ghost predicate Ready(s: Encrypting) {
    s.p.cipher.Lawful() && s.ring.current in s.ring.keys
  }

  // ---------------------------------------------------------------- what is stored

  /** A put stores its bytes under its handle's key, block by block with the draws it was given, and nothing else. */
  lemma {:induction false} PutThroughSeals(f: BlockFrame, s: Encrypting, op: Op)
    requires f.cipher.Lawful() && f.current in f.keys && op.Put?
    ensures var (after, reply) := StepThrough(f, s, op);
            if op.mode == Create && op.path in s.objects then
              after == s && reply == Failed(AlreadyExists(op.path))
            else
              && reply == Done
              && op.path in after.objects
              && after == s.(objects := s.objects[op.path := after.objects[op.path]])
              && SealedWith(after.objects[op.path], f.blockSize, f.current, |op.data|, op.draws)
  {
    hide Sealer.Object, SealedWith, IsPowerOfTwo;
    Sealer(f.cipher, f.keys[f.current], f.current, f.blockSize).ObjectDraws(op.data, op.draws);
  }

  /** Through a handle on the keyring as it is, the key is the keyring's current one. */
  lemma {:induction false} PutSeals(s: Encrypting, op: Op)
    requires Ready(s) && op.Put?
    ensures var (after, reply) := SealedStep(s, op);
            if op.mode == Create && op.path in s.objects then
              after == s && reply == Failed(AlreadyExists(op.path))
            else
              && reply == Done
              && op.path in after.objects
              && after == s.(objects := s.objects[op.path := after.objects[op.path]])
              && SealedWith(after.objects[op.path], s.blockSize, s.ring.current, |op.data|, op.draws)
  {
    hide SealedWith, IsPowerOfTwo, StepThrough;
    PutThroughSeals(s.Frame(), s, op);
  }

  /** An upload is begun under its handle's key and with the draws it is given; it stores nothing. */
  lemma {:induction false} BeginThroughTakesKey(f: BlockFrame, s: Encrypting, op: Op)
    requires f.current in f.keys && op.BeginUpload?
    ensures var (after, reply) := StepThrough(f, s, op);
            && reply == Done
            && op.id in after.uploads && after.uploads[op.id].0 == op.path
            && after == s.(uploads := s.uploads[op.id := after.uploads[op.id]])
            && StartedUnder(after.uploads[op.id].1, f.cipher, f.blockSize, f.current, op.draws)
  {
    hide IsPowerOfTwo;
  }

  lemma {:induction false} BeginTakesKey(s: Encrypting, op: Op)
    requires Ready(s) && op.BeginUpload?
    ensures var (after, reply) := SealedStep(s, op);
            && reply == Done
            && op.id in after.uploads && after.uploads[op.id].0 == op.path
            && after == s.(uploads := s.uploads[op.id := after.uploads[op.id]])
            && StartedUnder(after.uploads[op.id].1, s.p.cipher, s.blockSize, s.ring.current, op.draws)
  {
    hide IsPowerOfTwo, StepThrough, StartedUnder;
    BeginThroughTakesKey(s.Frame(), s, op);
  }

  ghost predicate StartedUnder(upload: U.State, cipher: Cipher, block: BlockSize, key: KeyId, draws: Draws) {
    && upload == U.Begin(upload.sealer, draws)
    && upload.sealer.cipher == cipher && upload.sealer.block == block && upload.sealer.key == key
  }

  /** What a completed upload stores is sealed under the key and with the draws it was begun with. */
  lemma {:induction false} CompleteStores(s: Encrypting, id: nat, sealer: Sealer, draws: Draws, parts: seq<Bytes>)
    requires sealer.cipher.Lawful()
    requires id in s.uploads && s.uploads[id].1 == U.Begin(sealer, draws).PutParts(parts)
    ensures var (after, reply) := SealedStep(s, CompleteUpload(id));
            var path := s.uploads[id].0;
            && reply == Done
            && path in after.objects
            && after == s.(objects := s.objects[path := after.objects[path]], uploads := s.uploads - {id})
            && SealedWith(after.objects[path], sealer.block, sealer.key, |U.Flatten(parts)|, draws)
  {
    U.StreamedIsWhole(sealer, draws, parts);
    sealer.ObjectDraws(U.Flatten(parts), draws);
    hide Sealer.Object, SealedWith, IsPowerOfTwo, U.Flatten, U.State.PutParts, U.State.Complete, U.Begin;
  }

  /**
   Of an upload that is not open nothing can be put, completed or aborted; aborting one that is open ends it, and
   putting to it changes what it has been put: neither stores anything nor touches another upload.
   */
  lemma {:induction false} UploadsEnd(s: Encrypting, id: nat, data: Bytes)
    ensures id !in s.uploads ==>
              && SealedStep(s, PutPart(id, data)) == (s, Failed(NoUpload(id)))
              && SealedStep(s, CompleteUpload(id)) == (s, Failed(NoUpload(id)))
              && SealedStep(s, AbortUpload(id)) == (s, Failed(NoUpload(id)))
    ensures id in s.uploads ==>
              && SealedStep(s, AbortUpload(id)) == (s.(uploads := s.uploads - {id}), Done)
              && SealedStep(s, PutPart(id, data)).1 == Done
              && SealedStep(s, PutPart(id, data)).0.uploads.Keys == s.uploads.Keys
              && SealedStep(s, PutPart(id, data)).0
                 == s.(uploads := s.uploads[id := SealedStep(s, PutPart(id, data)).0.uploads[id]])
  {
    hide U.State.PutPart, U.State.Complete, U.Begin, IsPowerOfTwo, Encrypting.Frame;
  }

  // ---------------------------------------------------------------- what later gets answer

  /** What a get answers. */
  function Answer(s: Encrypting, path: Path, requested: Option<GetRange>, head: bool): Reply {
    SealedStep(s, Get(path, requested, head)).1
  }

  /** A get changes nothing, and is answered from the plaintexts. */
  lemma {:induction false} AnswerIsPlain(
    s: Encrypting, plain: Plain, path: Path, requested: Option<GetRange>, head: bool)
    requires StandsFor(s, plain)
    ensures Answer(s, path, requested, head)
         == if path in plain.objects then Found(PlainRead(plain.objects[path], requested, head))
            else Failed(NotFound(path))
  {
    hide StandsFor, SealedStep, PlainRead;
    StepAgrees(s, plain, Get(path, requested, head));
  }

  /** The bytes each kind of request comes to, cut short where the data ends; and a head is the size alone. */
  lemma {:induction false} RequestSays(data: Bytes, r: Range, n: nat)
    ensures PlainRead(data, None, false) == Got(data, Range(0, |data|), |data|)
    ensures PlainRead(data, Some(Offset(n)), false)
         == if n < |data| then Got(data[n..], Range(n, |data|), |data|) else Got([], Range(|data|, |data|), |data|)
    ensures PlainRead(data, Some(Suffix(n)), false)
         == if n < |data| then Got(data[|data| - n..], Range(|data| - n, |data|), |data|)
            else Got(data, Range(0, |data|), |data|)
    ensures r.start <= r.end <= |data| ==>
              PlainRead(data, Some(Bounded(r)), false) == Got(data[r.start..r.end], r, |data|)
    ensures r.start <= |data| < r.end ==>
              PlainRead(data, Some(Bounded(r)), false) == Got(data[r.start..], Range(r.start, |data|), |data|)
    ensures r.start > |data| || r.start > r.end ==> PlainRead(data, Some(Bounded(r)), false).payload == []
    ensures PlainRead(data, Some(Bounded(r)), true) == Got([], Range(0, 0), |data|)
  {
    hide Selected;
    SelectedIsSlice(data, None, |data|);
    SelectedIsSlice(data, Some(Offset(n)), |data|);
    SelectedIsSlice(data, Some(Suffix(n)), |data|);
    SelectedIsSlice(data, Some(Bounded(r)), |data|);
  }

  lemma SamePaths(s: Encrypting, plain: Plain)
    requires StandsFor(s, plain)
    ensures s.objects.Keys == plain.objects.Keys
  {
    hide K.Numbered, UploadsStandFor, Seals, IsPowerOfTwo;
  }

  /** A put that is not refused changes what gets of its path answer, and no other answer. */
  lemma {:induction false} PutReads(
    s: Encrypting, plain: Plain, op: Op, path: Path, requested: Option<GetRange>, head: bool)
    requires StandsFor(s, plain) && op.Put?
    ensures var (after, reply) := SealedStep(s, op);
            && reply == (if op.mode == Create && op.path in s.objects then Failed(AlreadyExists(op.path)) else Done)
            && Answer(after, path, requested, head)
               == if reply == Done && path == op.path then Found(PlainRead(op.data, requested, head))
                  else Answer(s, path, requested, head)
  {
    hide StandsFor, SealedStep, PlainRead, Answer;
    SamePaths(s, plain);
    StepAgrees(s, plain, op);
    AnswerIsPlain(s, plain, path, requested, head);
    AnswerIsPlain(SealedStep(s, op).0, PlainStep(plain, op).0, path, requested, head);
  }

  /** A copy that is not refused reads as what it was copied from, and no other answer changes. */
  lemma {:induction false} CopyReads(
    s: Encrypting, plain: Plain, op: Op, path: Path, requested: Option<GetRange>, head: bool)
    requires StandsFor(s, plain) && op.Copy?
    ensures var (after, reply) := SealedStep(s, op);
            && reply == (if op.from !in s.objects then Failed(NotFound(op.from))
                         else if op.mode == Create && op.to in s.objects then Failed(AlreadyExists(op.to))
                         else Done)
            && Answer(after, path, requested, head)
               == Answer(s, if reply == Done && path == op.to then op.from else path, requested, head)
  {
    hide StandsFor, SealedStep, PlainRead, Answer;
    SamePaths(s, plain);
    StepAgrees(s, plain, op);
    AnswerIsPlain(s, plain, path, requested, head);
    AnswerIsPlain(s, plain, op.from, requested, head);
    AnswerIsPlain(SealedStep(s, op).0, PlainStep(plain, op).0, path, requested, head);
  }

  /** A delete makes gets of its path fail, and changes no other answer. */
  lemma {:induction false} DeleteReads(
    s: Encrypting, plain: Plain, op: Op, path: Path, requested: Option<GetRange>, head: bool)
    requires StandsFor(s, plain) && op.Delete?
    ensures var (after, reply) := SealedStep(s, op);
            && reply == (if op.path in s.objects then Done else Failed(NotFound(op.path)))
            && Answer(after, path, requested, head)
               == if path == op.path then Failed(NotFound(path)) else Answer(s, path, requested, head)
  {
    hide StandsFor, SealedStep, PlainRead, Answer;
    SamePaths(s, plain);
    StepAgrees(s, plain, op);
    AnswerIsPlain(s, plain, path, requested, head);
    AnswerIsPlain(SealedStep(s, op).0, PlainStep(plain, op).0, path, requested, head);
  }

  /** A listing names every stored path under the prefix and no other, each with the size a head of it answers. */
  lemma {:induction false} ListReads(s: Encrypting, plain: Plain, prefix: Path)
    requires StandsFor(s, plain)
    ensures var (after, reply) := SealedStep(s, List(prefix));
            && after == s && reply.Listed?
            && (forall path :: path in reply.sizes <==> path in s.objects && prefix <= path)
            && (forall path :: path in reply.sizes ==>
                  && reply.sizes[path].Success?
                  && Answer(s, path, None, true) == Found(Got([], Range(0, 0), reply.sizes[path].value)))
  {
    SamePaths(s, plain);
    StepAgrees(s, plain, List(prefix));
    hide StandsFor, Answer, AsPlaintext, IsPowerOfTwo;
    forall path | path in plain.objects
      ensures Answer(s, path, None, true) == Found(Got([], Range(0, 0), |plain.objects[path]|))
    {
      AnswerIsPlain(s, plain, path, None, true);
    }
  }

  // ---------------------------------------------------------------- under which key, over a run

  function Rotations(ops: seq<Op>): nat {
    if ops == [] then 0 else (if ops[0].RotateKey? then 1 else 0) + Rotations(ops[1..])
  }

  predicate Ends(op: Op, id: nat) {
    (op.BeginUpload? || op.CompleteUpload? || op.AbortUpload?) && op.id == id
  }

  /** Whether no operation begins, completes or aborts an upload. */
  predicate LeavesOpen(ops: seq<Op>, id: nat) {
    forall i :: 0 <= i < |ops| ==> !Ends(ops[i], id)
  }

  /** What operations put to one upload. */
  function PartsPut(ops: seq<Op>, id: nat): seq<Bytes> {
    if ops == [] then []
    else (if ops[0].PutPart? && ops[0].id == id then [ops[0].data] else []) + PartsPut(ops[1..], id)
  }

  /** The keyring numbers its keys from 1, and the store is one that seals. */
  ghost predicate Keyed(s: Encrypting, cipher: Cipher, block: BlockSize, n: nat) {
    && n >= 1 && K.Numbered(s.ring, n)
    && s.p.cipher == cipher && s.blockSize == block && cipher.Lawful()
  }

  /** Only a rotation and a change of the passphrase touch the keyring, and each as the keyring's own operation. */
  lemma {:induction false} RingStep(s: Encrypting, op: Op)
    ensures var t := SealedStep(s, op).0;
            && t.p == s.p && t.blockSize == s.blockSize
            && (op.RotateKey? && K.RotateDataKey(s.p, s.ring, op.key, op.nonce).Success? ==>
                  t.ring == K.RotateDataKey(s.p, s.ring, op.key, op.nonce).value)
            && (op.ChangePassphrase? ==> t.ring == K.ChangePassphrase(s.p, s.ring, op.passphrase, op.salt, op.nonce))
            && (!op.RotateKey? && !op.ChangePassphrase? ==> t.ring == s.ring)
  {
    hide U.State.PutPart, U.State.Complete, U.Begin, Sealer.Object, SealedGet, AsPlaintext, IsPowerOfTwo;
    hide K.RotateDataKey, K.ChangePassphrase, Encrypting.Frame, BlockFrame.SealObject;
  }

  lemma {:induction false} KeyedStep(s: Encrypting, op: Op, cipher: Cipher, block: BlockSize, n: nat)
    requires Keyed(s, cipher, block, n) && n + (if op.RotateKey? then 1 else 0) <= 0xFFFF_FFFF
    ensures Keyed(SealedStep(s, op).0, cipher, block, n + if op.RotateKey? then 1 else 0)
  {
    RingStep(s, op);
    hide SealedStep, K.EncodeKeySet, K.LastId, Cipher.Lawful, IsPowerOfTwo;
    if op.RotateKey? {
      hide K.RotateDataKey, K.Numbered;
      RotateSucceeds(s.p, s.ring, n, op.key, op.nonce);
      RotateKeeps(s.p, s.ring, n, op.key, op.nonce);
    }
  }

  lemma {:induction false} RotateSucceeds(p: K.Primitives, r: K.Ring, n: nat, key: Key, nonce: Nonce)
    requires K.Numbered(r, n) && 1 <= n < 0xFFFF_FFFF
    ensures K.RotateDataKey(p, r, key, nonce).Success?
  {
    hide K.EncodeKeySet, K.LastId;
    assert n in r.keys;
    K.LastIdIsHighest(r.keys);
  }

  lemma {:induction false} KeyedRun(s: Encrypting, ops: seq<Op>, cipher: Cipher, block: BlockSize, n: nat)
    requires Keyed(s, cipher, block, n) && n + Rotations(ops) <= 0xFFFF_FFFF
    ensures Keyed(SealedRun(s, ops).0, cipher, block, n + Rotations(ops))
    decreases |ops|
  {
    hide Keyed, SealedStep;
    if ops != [] {
      KeyedStep(s, ops[0], cipher, block, n);
      KeyedRun(SealedStep(s, ops[0]).0, ops[1..], cipher, block, n + if ops[0].RotateKey? then 1 else 0);
    }
  }

  lemma {:induction false} KeyedReady(s: Encrypting, cipher: Cipher, block: BlockSize, n: nat)
    requires Keyed(s, cipher, block, n)
    ensures Ready(s) && s.ring.current == n && s.p.cipher == cipher && s.blockSize == block
  {
    hide Cipher.Lawful;
  }

  /** Whatever one operation does elsewhere, an open upload takes from it the part put to it and nothing else. */
  lemma {:induction false} OpenStep(s: Encrypting, op: Op, id: nat)
    requires id in s.uploads && !Ends(op, id)
    ensures var after := SealedStep(s, op).0;
            && id in after.uploads
            && after.uploads[id]
               == if op.PutPart? && op.id == id then (s.uploads[id].0, s.uploads[id].1.PutPart(op.data))
                  else s.uploads[id]
  {
    hide U.State.PutPart, U.State.Complete, U.Begin, Sealer.Object, SealedGet, AsPlaintext, IsPowerOfTwo;
    hide K.RotateDataKey, K.ChangePassphrase, Encrypting.Frame;
  }

  lemma {:induction false} OpenRun(s: Encrypting, ops: seq<Op>, id: nat)
    requires id in s.uploads && LeavesOpen(ops, id)
    ensures var after := SealedRun(s, ops).0;
            && id in after.uploads && after.uploads[id].0 == s.uploads[id].0
            && after.uploads[id].1 == s.uploads[id].1.PutParts(PartsPut(ops, id))
    decreases |ops|
  {
    hide U.State.PutPart, SealedStep, Ends;
    if ops != [] {
      OpenStep(s, ops[0], id);
      OpenRun(SealedStep(s, ops[0]).0, ops[1..], id);
      if ops[0].PutPart? && ops[0].id == id {
        assert PartsPut(ops, id)[1..] == PartsPut(ops[1..], id);
      } else {
        assert PartsPut(ops, id) == PartsPut(ops[1..], id);
      }
    }
  }

  // ---------------------------------------------------------------- main results

  /** A store over a new keyring. */
  ghost predicate IsNew(s: Encrypting, passphrase: string, key: Key, salt: K.Salt, nonce: Nonce) {
    s.ring == K.Create(s.p, passphrase, key, salt, nonce)
  }

  lemma NewKeyed(s: Encrypting, passphrase: string, key: Key, salt: K.Salt, nonce: Nonce)
    requires s.p.cipher.Lawful() && IsNew(s, passphrase, key, salt, nonce)
    ensures Keyed(s, s.p.cipher, s.blockSize, 1)
  {
    K.CreateNumbers(s.p, passphrase, key, salt, nonce);
  }

  /** After `n` rotations of a new keyring, whatever else was done, a put stores its bytes under key `n + 1`. */
  lemma {:induction false} PutAfterRotations(
    s: Encrypting, passphrase: string, key: Key, salt: K.Salt, nonce: Nonce, ops: seq<Op>, op: Op)
    requires s.p.cipher.Lawful() && IsNew(s, passphrase, key, salt, nonce)
    requires Rotations(ops) < 0xFFFF_FFFF && op.Put?
    ensures var before := SealedRun(s, ops).0;
            var (after, reply) := SealedStep(before, op);
            if op.mode == Create && op.path in before.objects then reply == Failed(AlreadyExists(op.path))
            else
              && reply == Done && op.path in after.objects
              && SealedWith(after.objects[op.path], s.blockSize, Rotations(ops) + 1, |op.data|, op.draws)
  {
    hide *;
    AfterRotations(s, passphrase, key, salt, nonce, ops);
    PutNames(SealedRun(s, ops).0, op, s.blockSize, Rotations(ops) + 1);
  }

  /** After `n` rotations of a new keyring, whatever else was done, key `n + 1` is current. */
  lemma {:induction false} AfterRotations(
    s: Encrypting, passphrase: string, key: Key, salt: K.Salt, nonce: Nonce, ops: seq<Op>)
    requires s.p.cipher.Lawful() && IsNew(s, passphrase, key, salt, nonce) && Rotations(ops) < 0xFFFF_FFFF
    ensures var t := SealedRun(s, ops).0;
            Ready(t) && t.ring.current == Rotations(ops) + 1 && t.blockSize == s.blockSize
  {
    hide *;
    NewKeyed(s, passphrase, key, salt, nonce);
    KeyedRun(s, ops, s.p.cipher, s.blockSize, 1);
    var n := 1 + Rotations(ops);
    KeyedReady(SealedRun(s, ops).0, s.p.cipher, s.blockSize, n);
  }

  lemma {:induction false} PutNames(s: Encrypting, op: Op, block: BlockSize, n: KeyId)
    requires Ready(s) && op.Put? && s.ring.current == n && s.blockSize == block
    ensures var (after, reply) := SealedStep(s, op);
            if op.mode == Create && op.path in s.objects then reply == Failed(AlreadyExists(op.path))
            else
              && reply == Done && op.path in after.objects
              && SealedWith(after.objects[op.path], block, n, |op.data|, op.draws)
  {
    PutSeals(s, op);
    hide *;
  }

  lemma {:induction false} UploadNames(s: Encrypting, op: Op, later: seq<Op>, block: BlockSize, n: KeyId)
    requires Ready(s) && op.BeginUpload? && s.ring.current == n && s.blockSize == block
    requires LeavesOpen(later, op.id)
    ensures var during := SealedStep(s, op).0;
            var (after, reply) := SealedStep(SealedRun(during, later).0, CompleteUpload(op.id));
            && reply == Done && op.path in after.objects && op.id !in after.uploads
            && SealedWith(after.objects[op.path], block, n, |U.Flatten(PartsPut(later, op.id))|, op.draws)
  {
    BeginTakesKey(s, op);
    var during := SealedStep(s, op).0;
    var sealer := during.uploads[op.id].1.sealer;
    assert sealer.cipher.Lawful() && sealer.block == block && sealer.key == n;
    assert during.uploads[op.id].1 == U.Begin(sealer, op.draws);
    hide *;
    OpenRun(during, later, op.id);
    CompleteNames(SealedRun(during, later).0, op.id, op.path, sealer, op.draws, PartsPut(later, op.id));
  }

  lemma {:induction false} CompleteNames(
    s: Encrypting, id: nat, path: Path, sealer: Sealer, draws: Draws, parts: seq<Bytes>)
    requires sealer.cipher.Lawful() && id in s.uploads
    requires s.uploads[id].0 == path && s.uploads[id].1 == U.Begin(sealer, draws).PutParts(parts)
    ensures var (after, reply) := SealedStep(s, CompleteUpload(id));
            && reply == Done && path in after.objects && id !in after.uploads
            && SealedWith(after.objects[path], sealer.block, sealer.key, |U.Flatten(parts)|, draws)
  {
    hide *;
    CompleteStores(s, id, sealer, draws, parts);
  }

  /**
   An upload begun after `n` rotations of a new keyring and completed at any time after that, rotations in
   between or not, stores the parts put to it end to end, under key `n + 1` and with the draws it was begun with.
   */
  lemma {:induction false} UploadAfterRotations(
    s: Encrypting, passphrase: string, key: Key, salt: K.Salt, nonce: Nonce, ops: seq<Op>, begin: Op, later: seq<Op>)
    requires s.p.cipher.Lawful() && IsNew(s, passphrase, key, salt, nonce)
    requires Rotations(ops) < 0xFFFF_FFFF && begin.BeginUpload? && LeavesOpen(later, begin.id)
    ensures var during := SealedStep(SealedRun(s, ops).0, begin).0;
            var (after, reply) := SealedStep(SealedRun(during, later).0, CompleteUpload(begin.id));
            && reply == Done && begin.path in after.objects && begin.id !in after.uploads
            && SealedWith(after.objects[begin.path], s.blockSize, Rotations(ops) + 1,
                          |U.Flatten(PartsPut(later, begin.id))|, begin.draws)
  {
    hide *;
    AfterRotations(s, passphrase, key, salt, nonce, ops);
    UploadNames(SealedRun(s, ops).0, begin, later, s.blockSize, Rotations(ops) + 1);
  }

  // ---------------------------------------------------------------- through several handles

  /**
   A handle opens with the keys and the current key that the keyring has when it is first used, and over every run
   of calls, through it or through others, stays as it opened.
   */
  lemma {:induction false} HandleStays(s: Shared, c: Call, calls: seq<Call>)
    ensures var f := SharedRun(SharedStep(s, c).0, calls).0.FrameOf(c.handle);
            && f == s.FrameOf(c.handle)
            && (c.handle !in s.handles ==>
                  && f.keys == s.store.ring.keys && f.current == s.store.ring.current
                  && f.cipher == s.store.p.cipher && f.blockSize == s.store.blockSize)
  {
    hide StepThrough, IsPowerOfTwo;
    OpenHandleStays(SharedStep(s, c).0, c.handle, calls);
  }

  lemma {:induction false} OpenHandleStays(s: Shared, handle: nat, calls: seq<Call>)
    requires handle in s.handles
    ensures handle in SharedRun(s, calls).0.handles
    ensures SharedRun(s, calls).0.handles[handle] == s.handles[handle]
    decreases |calls|
  {
    hide StepThrough, IsPowerOfTwo;
    if calls != [] {
      OpenHandleStays(SharedStep(s, calls[0]).0, handle, calls[1..]);
    }
  }

  /** Whatever was rotated since, a handle puts under the key that was current when it was opened. */
  lemma {:induction false} OldHandlePuts(s: Shared, c: Call, calls: seq<Call>, op: Op)
    requires s.FrameOf(c.handle).cipher.Lawful() && s.FrameOf(c.handle).current in s.FrameOf(c.handle).keys && op.Put?
    ensures var before := SharedRun(SharedStep(s, c).0, calls).0;
            var (after, reply) := SharedStep(before, Call(c.handle, op));
            var f := s.FrameOf(c.handle);
            if op.mode == Create && op.path in before.store.objects then reply == Failed(AlreadyExists(op.path))
            else
              && reply == Done && op.path in after.store.objects
              && SealedWith(after.store.objects[op.path], f.blockSize, f.current, |op.data|, op.draws)
  {
    HandleStays(s, c, calls);
    hide StepThrough, SealedWith, Cipher.Lawful, Shared.FrameOf, SharedRun, IsPowerOfTwo;
    var before := SharedRun(SharedStep(s, c).0, calls).0;
    PutThroughSeals(s.FrameOf(c.handle), before.store, op);
  }
}
