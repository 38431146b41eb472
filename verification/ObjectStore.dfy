/**
 The encrypting object store over a map of ciphertexts, the plain map of plaintexts it stands for, and
 the proof that no run of operations can tell them apart.
 */
module ObjectStore {
  import opened Aead
  import opened Arithmetic
  import opened Bytes
  import opened Frame
  import opened BlockFrame
  import opened Wrappers
  import K = Keyring
  import U = Upload

  /** A path is its segments; a prefix is a path that the segments start with. */
  type Path = seq<string>

  datatype GetRange = Bounded(range: Range) | Offset(from: nat) | Suffix(length: nat)

  datatype Mode = Overwrite | Create

  datatype StoreError =
    | NotFound(path: Path)
    | AlreadyExists(path: Path)
    | NoUpload(id: nat)
    | Crypto(path: Path, error: FrameError)

  /** What a get answers: the bytes, the range they are, and the size of the whole. */
  datatype Got = Got(payload: Bytes, range: Range, size: nat)

  datatype Reply =
    | Done
    | Failed(error: StoreError)
    | Found(got: Got)
    | Listed(sizes: map<Path, Result<nat, StoreError>>)

  datatype Op =
    | Put(path: Path, data: Bytes, mode: Mode, draws: Draws)
    | BeginUpload(id: nat, path: Path, draws: Draws)
    | PutPart(id: nat, data: Bytes)
    | CompleteUpload(id: nat)
    | AbortUpload(id: nat)
    | Get(path: Path, requested: Option<GetRange>, head: bool)
    | List(prefix: Path)
    | Copy(from: Path, to: Path, mode: Mode)
    | Delete(path: Path)
    | RotateKey(key: Key, nonce: Nonce)
    | ChangePassphrase(passphrase: string, salt: K.Salt, nonce: Nonce)

  /** The half-open range of positions that a request comes to on `length` bytes. */
  function WantedRange(requested: Option<GetRange>, length: nat): Range {
    match requested
    case None => Range(0, length)
    case Some(Bounded(r)) => Range(Min(r.start, length), Min(r.end, length))
    case Some(Offset(from)) => Range(Min(from, length), length)
    case Some(Suffix(n)) => Range(Max(length - n, 0), length)
  }

  // ---------------------------------------------------------------- a plain map

  datatype Plain = Plain(objects: map<Path, Bytes>, uploads: map<nat, (Path, Bytes)>)

  /** Whether a request asks for the byte at a position. */
  predicate Asked(requested: Option<GetRange>, length: nat, i: nat) {
    match requested
    case None => true
    case Some(Bounded(r)) => r.start <= i < r.end
    case Some(Offset(from)) => from <= i
    case Some(Suffix(n)) => length <= i + n
  }

  /** The bytes among the first `n` that a request asks for, in order. */
  function Selected(data: Bytes, requested: Option<GetRange>, n: nat): Bytes
    requires n <= |data|
  {
    if n == 0 then []
    else Selected(data, requested, n - 1) + if Asked(requested, |data|, n - 1) then [data[n - 1]] else []
  }

  function PlainRead(data: Bytes, requested: Option<GetRange>, head: bool): Got {
    if head then Got([], Range(0, 0), |data|)
    else Got(Selected(data, requested, |data|), WantedRange(requested, |data|), |data|)
  }

  /** A resolved range holds exactly the positions a request asks for, as far as there are any. */
  lemma {:induction false} WantedIsAsked(requested: Option<GetRange>, length: nat, i: nat)
    requires i < length
    ensures WantedRange(requested, length).start <= i < WantedRange(requested, length).end
       <==> Asked(requested, length, i)
  {}

  lemma SelectedNothing(data: Bytes, requested: Option<GetRange>)
    ensures Selected(data, requested, 0) == Cut(data, WantedRange(requested, |data|), 0)
  {
    hide WantedRange, Asked;
  }

  lemma {:induction false} SelectedGrows(data: Bytes, requested: Option<GetRange>, n: nat)
    requires 0 < n <= |data|
    ensures var wanted := WantedRange(requested, |data|);
            Selected(data, requested, n)
              == Selected(data, requested, n - 1) + if wanted.start < n <= wanted.end then [data[n - 1]] else []
  {
    WantedIsAsked(requested, |data|, n - 1);
    hide WantedRange, Asked;
  }

  lemma {:induction false} SelectedIsSlice(data: Bytes, requested: Option<GetRange>, n: nat)
    requires n <= |data|
    ensures Selected(data, requested, n) == Cut(data, WantedRange(requested, |data|), n)
  {
    if n == 0 {
      SelectedNothing(data, requested);
    } else {
      hide *;
      SelectedIsSlice(data, requested, n - 1);
      SelectedGrows(data, requested, n);
      CutGrows(data, WantedRange(requested, |data|), n);
    }
  }

  /** A range of the first `n` bytes, as far as they reach. */
  function Cut(data: Bytes, wanted: Range, n: nat): Bytes
    requires n <= |data|
  {
    var start, end := Min(wanted.start, n), Min(wanted.end, n);
    if start < end then data[start..end] else []
  }

  lemma {:induction false} CutGrows(data: Bytes, wanted: Range, n: nat)
    requires 0 < n <= |data|
    ensures Cut(data, wanted, n)
         == Cut(data, wanted, n - 1) + if wanted.start < n <= wanted.end then [data[n - 1]] else []
  {}

  function PlainGet(objects: map<Path, Bytes>, path: Path, requested: Option<GetRange>, head: bool)
    : Result<Got, StoreError>
  {
    if path !in objects then Failure(NotFound(path))
    else Success(PlainRead(objects[path], requested, head))
  }

  function ReplyOf(r: Result<Got, StoreError>): Reply {
    match r
    case Failure(e) => Failed(e)
    case Success(got) => Found(got)
  }

  function PlainStep(s: Plain, op: Op): (Plain, Reply) {
    match op
    case Put(path, data, mode, _) =>
      if mode == Create && path in s.objects then (s, Failed(AlreadyExists(path)))
      else (s.(objects := s.objects[path := data]), Done)
    case BeginUpload(id, path, _) => (s.(uploads := s.uploads[id := (path, [])]), Done)
    case PutPart(id, data) =>
      if id !in s.uploads then (s, Failed(NoUpload(id)))
      else (s.(uploads := s.uploads[id := (s.uploads[id].0, s.uploads[id].1 + data)]), Done)
    case CompleteUpload(id) =>
      if id !in s.uploads then (s, Failed(NoUpload(id)))
      else (Plain(s.objects[s.uploads[id].0 := s.uploads[id].1], s.uploads - {id}), Done)
    case AbortUpload(id) =>
      if id !in s.uploads then (s, Failed(NoUpload(id))) else (s.(uploads := s.uploads - {id}), Done)
    case Get(path, requested, head) => (s, ReplyOf(PlainGet(s.objects, path, requested, head)))
    case List(prefix) =>
      (s, Listed(map path | path in s.objects && prefix <= path :: Success(|s.objects[path]|)))
    case Copy(from, to, mode) =>
      if from !in s.objects then (s, Failed(NotFound(from)))
      else if mode == Create && to in s.objects then (s, Failed(AlreadyExists(to)))
      else (s.(objects := s.objects[to := s.objects[from]]), Done)
    case Delete(path) =>
      if path !in s.objects then (s, Failed(NotFound(path))) else (s.(objects := s.objects - {path}), Done)
    case RotateKey(_, _) => (s, Done)
    case ChangePassphrase(_, _, _) => (s, Done)
  }

  // ---------------------------------------------------------------- the encrypting store

  /** The bytes of a stored object in a range, as far as they exist. */
  function Fetch(stored: Bytes, r: Range): Bytes {
    if r.start <= r.end <= |stored| then stored[r.start..r.end] else []
  }

  /** Size first, then the header and the blocks that cover the range, then the range itself. */
  function SealedRead(f: BlockFrame, stored: Bytes, requested: Option<GetRange>, head: bool)
    : Result<Got, FrameError>
  {
    var length :- PlaintextLen(f.blockSize, |stored|);
    var wanted := WantedRange(requested, length);
    if head then Success(Got([], Range(0, 0), length))
    else if wanted.start >= wanted.end then Success(Got([], wanted, length))
    else
      var span := CiphertextSpan(f.blockSize, wanted, length);
      var framing :- f.ReadHeader(Fetch(stored, Range(0, HEADER_LEN)));
      var plaintext :- f.OpenSpan(Fetch(stored, span), span, wanted, framing);
      Success(Got(plaintext, wanted, length))
  }

  function SealedGet(
    f: BlockFrame, objects: map<Path, Bytes>, path: Path, requested: Option<GetRange>, head: bool)
    : Result<Got, StoreError>
  {
    if path !in objects then Failure(NotFound(path))
    else
      match SealedRead(f, objects[path], requested, head)
      case Failure(e) => Failure(Crypto(path, e))
      case Success(got) => Success(got)
  }

  /** Restate a stored size in plaintext terms. */
  function AsPlaintext(f: BlockFrame, path: Path, size: nat): Result<nat, StoreError> {
    match PlaintextLen(f.blockSize, size)
    case Failure(e) => Failure(Crypto(path, e))
    case Success(n) => Success(n)
  }

  datatype Encrypting = Encrypting(
    p: K.Primitives,
    blockSize: BlockSize,
    ring: K.Ring,
    objects: map<Path, Bytes>,
    uploads: map<nat, (Path, U.State)>)
  {
    function Frame(): BlockFrame {
      K.FrameOf(p, ring, blockSize)
    }
  }

  /** One operation, by the frame that a handle was opened with. */
  function StepThrough(f: BlockFrame, s: Encrypting, op: Op): (Encrypting, Reply) {
    match op
    case Put(path, data, mode, draws) =>
      (match f.SealObject(data, draws)
       case Failure(e) => (s, Failed(Crypto(path, e)))
       case Success(stored) =>
         if mode == Create && path in s.objects then (s, Failed(AlreadyExists(path)))
         else (s.(objects := s.objects[path := stored]), Done))
    case BeginUpload(id, path, draws) =>
      (match f.SealerFor(f.current)
       case Failure(e) => (s, Failed(Crypto(path, e)))
       case Success(sealer) => (s.(uploads := s.uploads[id := (path, U.Begin(sealer, draws))]), Done))
    case PutPart(id, data) =>
      if id !in s.uploads then (s, Failed(NoUpload(id)))
      else (s.(uploads := s.uploads[id := (s.uploads[id].0, s.uploads[id].1.PutPart(data))]), Done)
    case CompleteUpload(id) =>
      if id !in s.uploads then (s, Failed(NoUpload(id)))
      else
        var (path, upload) := s.uploads[id];
        (s.(objects := s.objects[path := upload.Complete()], uploads := s.uploads - {id}), Done)
    case AbortUpload(id) =>
      if id !in s.uploads then (s, Failed(NoUpload(id))) else (s.(uploads := s.uploads - {id}), Done)
    case Get(path, requested, head) => (s, ReplyOf(SealedGet(f, s.objects, path, requested, head)))
    case List(prefix) =>
      (s, Listed(map path | path in s.objects && prefix <= path :: AsPlaintext(f, path, |s.objects[path]|)))
    case Copy(from, to, mode) =>
      if from !in s.objects then (s, Failed(NotFound(from)))
      else if mode == Create && to in s.objects then (s, Failed(AlreadyExists(to)))
      else (s.(objects := s.objects[to := s.objects[from]]), Done)
    case Delete(path) =>
      if path !in s.objects then (s, Failed(NotFound(path))) else (s.(objects := s.objects - {path}), Done)
    case RotateKey(key, nonce) =>
      (match K.RotateDataKey(s.p, s.ring, key, nonce)
       case Failure(_) => (s, Done)
       case Success(ring) => (s.(ring := ring), Done))
    case ChangePassphrase(passphrase, salt, nonce) =>
      (s.(ring := K.ChangePassphrase(s.p, s.ring, passphrase, salt, nonce)), Done)
  }

  /** One operation through a handle on the keyring as it is. */
  function SealedStep(s: Encrypting, op: Op): (Encrypting, Reply) {
    StepThrough(s.Frame(), s, op)
  }

  // ---------------------------------------------------------------- what stands for what

  /** `stored` is `plain` sealed under one of the keys a frame holds. */
  ghost predicate Seals(f: BlockFrame, stored: Bytes, plain: Bytes) {
    exists id: KeyId, draws: Draws ::
      id in f.keys && stored == Sealer(f.cipher, f.keys[id], id, f.blockSize).Object(plain, draws)
  }

  ghost predicate ObjectsStandFor(f: BlockFrame, objects: map<Path, Bytes>, plain: map<Path, Bytes>) {
    && objects.Keys == plain.Keys
    && forall path :: path in objects ==> Seals(f, objects[path], plain[path])
  }

  /** An upload seals under a key the frame holds, and has been handed exactly `written`. */
  ghost predicate UploadStandsFor(f: BlockFrame, upload: U.State, written: Bytes) {
    && upload.sealer.key in f.keys
    && upload.sealer == Sealer(f.cipher, f.keys[upload.sealer.key], upload.sealer.key, f.blockSize)
    && upload.Holds(written)
  }

  ghost predicate UploadsStandFor(
    f: BlockFrame, uploads: map<nat, (Path, U.State)>, plain: map<nat, (Path, Bytes)>)
  {
    && uploads.Keys == plain.Keys
    && forall id :: id in uploads ==>
         uploads[id].0 == plain[id].0 && UploadStandsFor(f, uploads[id].1, plain[id].1)
  }

  ghost predicate StandsFor(s: Encrypting, plain: Plain) {
    && s.p.cipher.Lawful()
    && (exists n: nat :: n >= 1 && K.Numbered(s.ring, n))
    && ObjectsStandFor(s.Frame(), s.objects, plain.objects)
    && UploadsStandFor(s.Frame(), s.uploads, plain.uploads)
  }

  /** A frame with the same cipher and block size that still holds every key. */
  ghost predicate Outlives(f: BlockFrame, g: BlockFrame) {
    && g.cipher == f.cipher && g.blockSize == f.blockSize
    && forall id :: id in f.keys ==> id in g.keys && g.keys[id] == f.keys[id]
  }

  lemma {:induction false} SealsOutlive(f: BlockFrame, g: BlockFrame, stored: Bytes, plain: Bytes)
    requires Outlives(f, g) && Seals(f, stored, plain)
    ensures Seals(g, stored, plain)
  {
    hide Sealer.Object;
    var id: KeyId, draws: Draws :|
      id in f.keys && stored == Sealer(f.cipher, f.keys[id], id, f.blockSize).Object(plain, draws);
    assert id in g.keys && stored == Sealer(g.cipher, g.keys[id], id, g.blockSize).Object(plain, draws);
  }

  /** What was sealed or begun before a rotation stands for the same plaintext after it. */
  lemma {:induction false} StandsForOutlives(
    f: BlockFrame, g: BlockFrame, objects: map<Path, Bytes>, plain: map<Path, Bytes>,
    uploads: map<nat, (Path, U.State)>, written: map<nat, (Path, Bytes)>)
    requires Outlives(f, g)
    requires ObjectsStandFor(f, objects, plain) && UploadsStandFor(f, uploads, written)
    ensures ObjectsStandFor(g, objects, plain) && UploadsStandFor(g, uploads, written)
  {
    hide Seals;
    forall path | path in objects
      ensures Seals(g, objects[path], plain[path])
    {
      SealsOutlive(f, g, objects[path], plain[path]);
    }
  }

  /** Reading a sealed object, any range of it or its metadata alone, answers as its plaintext would. */
  lemma {:induction false} ReadAgrees(
    f: BlockFrame, id: KeyId, data: Bytes, draws: Draws, requested: Option<GetRange>, head: bool)
    requires f.cipher.Lawful() && id in f.keys
    ensures SealedRead(f, Sealer(f.cipher, f.keys[id], id, f.blockSize).Object(data, draws), requested, head)
         == Success(PlainRead(data, requested, head))
  {
    hide Sealer.Object, Sealer.OpenSpan, CiphertextSpan, PlaintextLen, CiphertextLen, IsPowerOfTwo;
    hide BlockFrame.ReadHeader;
    var s := Sealer(f.cipher, f.keys[id], id, f.blockSize);
    s.ObjectLength(data, draws);
    WantedInside(requested, |data|);
    SelectedIsSlice(data, requested, |data|);
    var wanted := WantedRange(requested, |data|);
    hide WantedRange;
    if !head && wanted.start < wanted.end {
      s.RangeReads(data, draws, wanted);
      StoredHeader(f, id, data, draws);
    }
  }

  lemma {:induction false} WantedInside(requested: Option<GetRange>, length: nat)
    ensures WantedRange(requested, length).start <= length && WantedRange(requested, length).end <= length
  {}

  lemma {:induction false} GetAgrees(
    f: BlockFrame, objects: map<Path, Bytes>, plain: map<Path, Bytes>,
    path: Path, requested: Option<GetRange>, head: bool)
    requires f.cipher.Lawful() && ObjectsStandFor(f, objects, plain)
    ensures SealedGet(f, objects, path, requested, head) == PlainGet(plain, path, requested, head)
  {
    hide SealedRead, PlainRead, Sealer.Object, IsPowerOfTwo;
    if path in objects {
      var id: KeyId, draws: Draws :|
        id in f.keys
        && objects[path] == Sealer(f.cipher, f.keys[id], id, f.blockSize).Object(plain[path], draws);
      ReadAgrees(f, id, plain[path], draws, requested, head);
    }
  }

  lemma {:induction false} StoredHeader(f: BlockFrame, id: KeyId, data: Bytes, draws: Draws)
    requires f.cipher.Lawful() && id in f.keys
    ensures f.ReadHeader(Fetch(Sealer(f.cipher, f.keys[id], id, f.blockSize).Object(data, draws),
                               Range(0, HEADER_LEN)))
         == Success(Framing(f.blockSize, id))
  {
    var s := Sealer(f.cipher, f.keys[id], id, f.blockSize);
    f.HeaderReads(id, []);
    hide Sealer.Body, Sealer.Header, BlockFrame.ReadHeader, IsPowerOfTwo;
    assert s.Object(data, draws)[0..HEADER_LEN] == s.Header() + [];
  }

  /** Sizes are plaintext sizes. */
  lemma {:induction false} SizeAgrees(f: BlockFrame, path: Path, stored: Bytes, plain: Bytes)
    requires f.cipher.Lawful() && Seals(f, stored, plain)
    ensures AsPlaintext(f, path, |stored|) == Success(|plain|)
  {
    hide Sealer.Object, PlaintextLen, CiphertextLen, IsPowerOfTwo;
    var id: KeyId, draws: Draws :|
      id in f.keys && stored == Sealer(f.cipher, f.keys[id], id, f.blockSize).Object(plain, draws);
    Sealer(f.cipher, f.keys[id], id, f.blockSize).ObjectLength(plain, draws);
  }

  lemma {:induction false} CurrentHeld(s: Encrypting, plain: Plain)
    requires StandsFor(s, plain)
    ensures s.ring.current in s.ring.keys
  {
    hide ObjectsStandFor, UploadsStandFor;
  }

  lemma {:induction false} PutAgrees(s: Encrypting, plain: Plain, op: Op)
    requires StandsFor(s, plain) && op.Put?
    ensures SealedStep(s, op).1 == PlainStep(plain, op).1
    ensures StandsFor(SealedStep(s, op).0, PlainStep(plain, op).0)
  {
    hide Sealer.Object, K.Numbered, UploadsStandFor, IsPowerOfTwo;
    CurrentHeld(s, plain);
    var f := s.Frame();
    var stored := f.SealObject(op.data, op.draws).value;
    assert Seals(f, stored, op.data) by {
      assert stored == Sealer(f.cipher, f.keys[f.current], f.current, f.blockSize).Object(op.data, op.draws);
    }
  }

  lemma {:induction false} BeginAgrees(s: Encrypting, plain: Plain, op: Op)
    requires StandsFor(s, plain) && op.BeginUpload?
    ensures SealedStep(s, op).1 == PlainStep(plain, op).1
    ensures StandsFor(SealedStep(s, op).0, PlainStep(plain, op).0)
  {
    hide Sealer.Object, K.Numbered, IsPowerOfTwo, U.State.Holds, ObjectsStandFor;
    CurrentHeld(s, plain);
    BeginHolds(s.Frame().SealerFor(s.ring.current).value, op.draws);
  }

  lemma {:induction false} PartAgrees(s: Encrypting, plain: Plain, op: Op)
    requires StandsFor(s, plain) && op.PutPart?
    ensures SealedStep(s, op).1 == PlainStep(plain, op).1
    ensures StandsFor(SealedStep(s, op).0, PlainStep(plain, op).0)
  {
    hide K.Numbered, IsPowerOfTwo, U.State.Holds, U.State.PutPart, ObjectsStandFor;
    if op.id in s.uploads {
      s.uploads[op.id].1.PutPartHolds(plain.uploads[op.id].1, op.data);
    }
  }

  lemma {:induction false} AbortAgrees(s: Encrypting, plain: Plain, op: Op)
    requires StandsFor(s, plain) && op.AbortUpload?
    ensures SealedStep(s, op).1 == PlainStep(plain, op).1
    ensures StandsFor(SealedStep(s, op).0, PlainStep(plain, op).0)
  {
    hide K.Numbered, IsPowerOfTwo, UploadStandsFor, ObjectsStandFor;
  }

  /** What a completed upload stores is what was written, sealed. */
  lemma {:induction false} CompletedSeals(f: BlockFrame, upload: U.State, written: Bytes)
    requires UploadStandsFor(f, upload, written)
    ensures Seals(f, upload.Complete(), written)
  {
    upload.CompleteSeals(written);
    hide Sealer.Object, U.State.Complete, U.State.Holds;
    var id := upload.sealer.key;
    assert id in f.keys
        && upload.Complete() == Sealer(f.cipher, f.keys[id], id, f.blockSize).Object(written, upload.draws);
  }

  lemma {:induction false} CompleteAgrees(s: Encrypting, plain: Plain, op: Op)
    requires StandsFor(s, plain) && op.CompleteUpload?
    ensures SealedStep(s, op).1 == PlainStep(plain, op).1
    ensures StandsFor(SealedStep(s, op).0, PlainStep(plain, op).0)
  {
    hide K.Numbered, IsPowerOfTwo, UploadStandsFor, Seals, U.State.Complete;
    if op.id in s.uploads {
      CompletedSeals(s.Frame(), s.uploads[op.id].1, plain.uploads[op.id].1);
    }
  }

  lemma {:induction false} BeginHolds(sealer: Sealer, draws: Draws)
    ensures U.Begin(sealer, draws).Holds([])
  {}

  lemma {:induction false} MapAgrees(s: Encrypting, plain: Plain, op: Op)
    requires StandsFor(s, plain) && (op.Get? || op.List? || op.Copy? || op.Delete?)
    ensures SealedStep(s, op).1 == PlainStep(plain, op).1
    ensures StandsFor(SealedStep(s, op).0, PlainStep(plain, op).0)
  {
    hide Seals, K.Numbered, UploadsStandFor, IsPowerOfTwo, SealedGet, PlainGet, AsPlaintext;
    var f := s.Frame();
    match op
    case Get(path, requested, head) => GetAgrees(f, s.objects, plain.objects, path, requested, head);
    case List(prefix) =>
      forall path | path in s.objects
        ensures AsPlaintext(f, path, |s.objects[path]|) == Success(|plain.objects[path]|)
      {
        SizeAgrees(f, path, s.objects[path], plain.objects[path]);
      }
    case Copy(_, _, _) =>
    case Delete(_) =>
  }

  lemma {:induction false} RotateAgrees(s: Encrypting, plain: Plain, op: Op)
    requires StandsFor(s, plain) && op.RotateKey?
    ensures SealedStep(s, op).1 == PlainStep(plain, op).1
    ensures StandsFor(SealedStep(s, op).0, PlainStep(plain, op).0)
  {
    hide ObjectsStandFor, UploadsStandFor, IsPowerOfTwo, K.RotateDataKey;
    var n: nat :| n >= 1 && K.Numbered(s.ring, n);
    var t := SealedStep(s, op).0;
    if K.RotateDataKey(s.p, s.ring, op.key, op.nonce).Success? {
      RotateKeeps(s.p, s.ring, n, op.key, op.nonce);
      hide K.Numbered;
      StandsForOutlives(s.Frame(), t.Frame(), s.objects, plain.objects, s.uploads, plain.uploads);
    }
  }

  lemma {:induction false} RephraseAgrees(s: Encrypting, plain: Plain, op: Op)
    requires StandsFor(s, plain) && op.ChangePassphrase?
    ensures SealedStep(s, op).1 == PlainStep(plain, op).1
    ensures StandsFor(SealedStep(s, op).0, PlainStep(plain, op).0)
  {
    hide ObjectsStandFor, UploadsStandFor, IsPowerOfTwo, K.EncodeKeySet;
    var n: nat :| n >= 1 && K.Numbered(s.ring, n);
    assert K.Numbered(SealedStep(s, op).0.ring, n);
  }

  lemma {:induction false} RotateKeeps(p: K.Primitives, r: K.Ring, n: nat, key: Key, nonce: Nonce)
    requires K.Numbered(r, n) && n >= 1 && K.RotateDataKey(p, r, key, nonce).Success?
    ensures var s := K.RotateDataKey(p, r, key, nonce).value;
            && K.Numbered(s, n + 1)
            && forall id :: id in r.keys ==> id in s.keys && s.keys[id] == r.keys[id]
  {
    hide K.EncodeKeySet, K.Ascending;
    assert n in r.keys;
    K.LastIsHighest(r.keys.Keys, n);
    assert r.keys[n + 1 := key].Keys == r.keys.Keys + {n + 1};
  }

  /** Every operation answers alike on both sides and leaves them standing for each other. */
  lemma {:induction false} StepAgrees(s: Encrypting, plain: Plain, op: Op)
    requires StandsFor(s, plain)
    ensures SealedStep(s, op).1 == PlainStep(plain, op).1
    ensures StandsFor(SealedStep(s, op).0, PlainStep(plain, op).0)
  {
    hide StandsFor, SealedStep, PlainStep;
    if op.Put? {
      PutAgrees(s, plain, op);
    } else if op.Get? || op.List? || op.Copy? || op.Delete? {
      MapAgrees(s, plain, op);
    } else if op.BeginUpload? {
      BeginAgrees(s, plain, op);
    } else if op.PutPart? {
      PartAgrees(s, plain, op);
    } else if op.AbortUpload? {
      AbortAgrees(s, plain, op);
    } else if op.CompleteUpload? {
      CompleteAgrees(s, plain, op);
    } else if op.RotateKey? {
      RotateAgrees(s, plain, op);
    } else {
      RephraseAgrees(s, plain, op);
    }
  }

  function SealedRun(s: Encrypting, ops: seq<Op>): (Encrypting, seq<Reply>)
    decreases |ops|
  {
    if ops == [] then (s, [])
    else
      var (next, reply) := SealedStep(s, ops[0]);
      var (last, replies) := SealedRun(next, ops[1..]);
      (last, [reply] + replies)
  }

  function PlainRun(s: Plain, ops: seq<Op>): (Plain, seq<Reply>)
    decreases |ops|
  {
    if ops == [] then (s, [])
    else
      var (next, reply) := PlainStep(s, ops[0]);
      var (last, replies) := PlainRun(next, ops[1..]);
      (last, [reply] + replies)
  }

  /**
   Over every run of puts, interleaved multipart uploads, gets, heads, listings, copies, deletes, key
   rotations and passphrase changes, the encrypting store answers exactly as a plain map would.
   */
  lemma {:induction false} RunAgrees(s: Encrypting, plain: Plain, ops: seq<Op>)
    requires StandsFor(s, plain)
    ensures SealedRun(s, ops).1 == PlainRun(plain, ops).1
    ensures StandsFor(SealedRun(s, ops).0, PlainRun(plain, ops).0)
    decreases |ops|
  {
    hide StandsFor, SealedStep, PlainStep;
    if ops != [] {
      StepAgrees(s, plain, ops[0]);
      RunAgrees(SealedStep(s, ops[0]).0, PlainStep(plain, ops[0]).0, ops[1..]);
    }
  }

  /** A store over a new keyring and nothing else stands for the empty map. */
  lemma {:induction false} NewStandsForEmpty(
    p: K.Primitives, blockSize: BlockSize, passphrase: string, key: Key, salt: K.Salt, nonce: Nonce)
    requires p.cipher.Lawful()
    ensures StandsFor(
              Encrypting(p, blockSize, K.Create(p, passphrase, key, salt, nonce), map[], map[]),
              Plain(map[], map[]))
  {
    K.CreateNumbers(p, passphrase, key, salt, nonce);
  }
}
