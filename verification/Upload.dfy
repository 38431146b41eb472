/** Sealing an object that arrives in parts: full blocks go out at once, the tail waits for the end. */
module Upload {
  import opened Aead
  import opened Arithmetic
  import opened Bytes
  import opened Frame
  import opened BlockFrame

  /** Parts put end to end. */
  function Flatten(parts: seq<Bytes>): Bytes {
    if parts == [] then [] else parts[0] + Flatten(parts[1..])
  }

  lemma {:induction false} FlattenSnoc(parts: seq<Bytes>, last: Bytes)
    ensures Flatten(parts + [last]) == Flatten(parts) + last
  {
    if parts == [] {
      assert [last][1..] == [];
      assert parts + [last] == [last];
      assert Flatten([last]) == last + Flatten([]);
    } else {
      FlattenSnoc(parts[1..], last);
      assert (parts + [last])[1..] == parts[1..] + [last];
      assert parts[0] + (Flatten(parts[1..]) + last) == (parts[0] + Flatten(parts[1..])) + last;
    }
  }

  /** Whether `part` is all of `whole` from a position on. */
  predicate IsTail(part: Bytes, whole: Bytes, from: nat) {
    from + |part| == |whole| && whole[from..] == part
  }

  lemma {:induction false} TailGrows(part: Bytes, whole: Bytes, from: nat, more: Bytes)
    requires IsTail(part, whole, from)
    ensures IsTail(part + more, whole + more, from)
  {}

  lemma {:induction false} TailShrinks(part: Bytes, whole: Bytes, from: nat, n: nat)
    requires IsTail(part, whole, from) && n <= |part|
    ensures IsTail(part[n..], whole, from + n)
  {}

  /** An upload under way. `sent` is what the inner upload has been handed so far. */
  datatype State = State(
    sealer: Sealer,
    draws: Draws,
    pending: Bytes,
    nextIndex: nat,
    headerSent: bool,
    sent: Bytes)
  {
    /** Whole blocks leave `pending` and are sent sealed, until less than one is pending. */
    function DrainBlocks(): State
      decreases |pending|
    {
      if |pending| < sealer.block then this
      else
        this.(pending := pending[sealer.block..],
              nextIndex := nextIndex + 1,
              sent := sent + sealer.Block(nextIndex, false, pending[..sealer.block], draws(nextIndex)))
            .DrainBlocks()
    }

    function WithHeader(): State {
      if headerSent then this else this.(headerSent := true, sent := sent + sealer.Header())
    }

    function PutPart(data: Bytes): State {
      this.(pending := pending + data).WithHeader().DrainBlocks()
    }

    function PutParts(parts: seq<Bytes>): State
      decreases |parts|
    {
      if parts == [] then this else PutPart(parts[0]).PutParts(parts[1..])
    }

    /** Everything the inner upload has been handed once the upload completes. */
    function Complete(): Bytes {
      var s := WithHeader().DrainBlocks();
      s.sent + s.sealer.Block(s.nextIndex, true, s.pending, s.draws(s.nextIndex))
    }

    /** Whatever comes next, what is sent and what is pending seal to all that was written and that. */
    ghost predicate Extends(written: Bytes) {
      forall more: Bytes ::
        sent + sealer.Body(pending + more, nextIndex, draws) == sealer.Object(written + more, draws)
    }

    /** What holds between calls after `written` has been put. */
    ghost predicate Holds(written: Bytes) {
      && |pending| < sealer.block
      && IsTail(pending, written, Times(nextIndex, sealer.block))
      && (if headerSent then Extends(written) else written == [] && sent == [])
    }

    lemma {:induction false} HeaderStarts()
      requires Holds([])
      requires !headerSent
      ensures WithHeader().Extends([])
    {
      var s := WithHeader();
      assert nextIndex == 0;
      forall more: Bytes
        ensures s.sent + sealer.Body(s.pending + more, 0, draws) == sealer.Object([] + more, draws)
      {
        assert s.pending + more == more == [] + more;
        assert s.sent == sealer.Header();
      }
    }

    /** Handing one full block on leaves nothing out. */
    lemma {:induction false} BlockExtends(written: Bytes)
      requires Extends(written) && |pending| >= sealer.block
      ensures this.(pending := pending[sealer.block..],
                    nextIndex := nextIndex + 1,
                    sent := sent + sealer.Block(nextIndex, false, pending[..sealer.block], draws(nextIndex)))
                  .Extends(written)
    {
      var b := sealer.Block(nextIndex, false, pending[..sealer.block], draws(nextIndex));
      var rest := pending[sealer.block..];
      forall more: Bytes
        ensures (sent + b) + sealer.Body(rest + more, nextIndex + 1, draws)
             == sealer.Object(written + more, draws)
      {
        assert (pending + more)[..sealer.block] == pending[..sealer.block];
        assert (pending + more)[sealer.block..] == rest + more;
        var tail := sealer.Body(rest + more, nextIndex + 1, draws);
        assert sealer.Body(pending + more, nextIndex, draws) == b + tail;
        assert (sent + b) + tail == sent + (b + tail);
      }
    }

    lemma {:induction false} DrainExtends(written: Bytes)
      requires headerSent && Extends(written)
      requires IsTail(pending, written, Times(nextIndex, sealer.block))
      ensures DrainBlocks().headerSent && DrainBlocks().Holds(written)
      ensures DrainBlocks().sealer == sealer && DrainBlocks().draws == draws
      decreases |pending|
    {
      if |pending| >= sealer.block {
        TailShrinks(pending, written, Times(nextIndex, sealer.block), sealer.block);
        BlockExtends(written);
        hide IsTail;
        var next := this.(pending := pending[sealer.block..],
                          nextIndex := nextIndex + 1,
                          sent := sent + sealer.Block(nextIndex, false, pending[..sealer.block], draws(nextIndex)));
        hide Extends;
        next.DrainExtends(written);
      }
    }

    lemma {:induction false} AppendExtends(written: Bytes, data: Bytes)
      requires Extends(written)
      ensures this.(pending := pending + data).Extends(written + data)
    {
      hide Sealer.Body, Sealer.Object;
      forall more: Bytes
        ensures sent + sealer.Body((pending + data) + more, nextIndex, draws)
             == sealer.Object((written + data) + more, draws)
      {
        assert (pending + data) + more == pending + (data + more);
        assert (written + data) + more == written + (data + more);
        assert sent + sealer.Body(pending + (data + more), nextIndex, draws)
            == sealer.Object(written + (data + more), draws);
      }
    }

    /** A part, empty or not, keeps what holds. */
    lemma {:induction false} PutPartHolds(written: Bytes, data: Bytes)
      requires Holds(written)
      ensures PutPart(data).headerSent && PutPart(data).Holds(written + data)
      ensures PutPart(data).sealer == sealer && PutPart(data).draws == draws
    {
      hide Extends, IsTail, Sealer.Header;
      TailGrows(pending, written, Times(nextIndex, sealer.block), data);
      var s := WithHeader();
      if !headerSent {
        HeaderStarts();
      }
      s.AppendExtends(written, data);
      var t := s.(pending := pending + data);
      assert this.(pending := pending + data).WithHeader() == t;
      t.DrainExtends(written + data);
    }

    lemma {:induction false} PutPartsHold(written: Bytes, parts: seq<Bytes>)
      requires Holds(written)
      ensures PutParts(parts).Holds(written + Flatten(parts))
      ensures PutParts(parts).sealer == sealer && PutParts(parts).draws == draws
      decreases |parts|
    {
      hide Holds, PutPart;
      if parts == [] {
        assert written + [] == written;
      } else {
        PutPartHolds(written, parts[0]);
        PutPart(parts[0]).PutPartsHold(written + parts[0], parts[1..]);
        assert (written + parts[0]) + Flatten(parts[1..]) == written + (parts[0] + Flatten(parts[1..]));
      }
    }

    lemma {:induction false} CompleteUnfolds()
      ensures var s := WithHeader().DrainBlocks();
              && s.sealer == sealer && s.draws == draws
              && Complete() == s.sent + sealer.Block(s.nextIndex, true, s.pending, draws(s.nextIndex))
    {
      WithHeader().DrainKeeps();
    }

    lemma {:induction false} DrainKeeps()
      ensures DrainBlocks().sealer == sealer && DrainBlocks().draws == draws
      decreases |pending|
    {
      if |pending| >= sealer.block {
        this.(pending := pending[sealer.block..],
              nextIndex := nextIndex + 1,
              sent := sent + sealer.Block(nextIndex, false, pending[..sealer.block], draws(nextIndex)))
            .DrainKeeps();
      }
    }

    /** Completing adds exactly what turns the parts into the object that seals them all. */
    lemma {:induction false} CompleteSeals(written: Bytes)
      requires Holds(written)
      ensures Complete() == sealer.Object(written, draws)
    {
      hide Sealer.Header;
      var s := WithHeader();
      if !headerSent {
        HeaderStarts();
      }
      s.DrainExtends(written);
      var t := s.DrainBlocks();
      assert t.pending + [] == t.pending && written + [] == written;
      assert t.sent + sealer.Body(t.pending + [], t.nextIndex, draws) == sealer.Object(written + [], draws);
    }
  }

  function Begin(sealer: Sealer, draws: Draws): State {
    State(sealer, draws, [], 0, false, [])
  }

  /**
   However an object is cut into parts, the parts put end to end and sealed as they come are the
   object sealed as a whole.
   */
  lemma {:induction false} StreamedIsWhole(sealer: Sealer, draws: Draws, parts: seq<Bytes>)
    ensures Begin(sealer, draws).PutParts(parts).Complete() == sealer.Object(Flatten(parts), draws)
  {
    var u := Begin(sealer, draws);
    u.PutPartsHold([], parts);
    hide *;
    u.PutParts(parts).CompleteSeals([] + Flatten(parts));
    assert [] + Flatten(parts) == Flatten(parts);
  }

  /** The upload the sealed bytes are handed to. */
  class InnerUpload {
    var parts: seq<Bytes>
    var completed: bool

    constructor ()
      ensures parts == [] && !completed
    {
      parts, completed := [], false;
    }

    method PutPart(data: Bytes)
      modifies this`parts
      ensures parts == old(parts) + [data]
    {
      parts := parts + [data];
    }

    method Complete()
      modifies this`completed
      ensures completed
    {
      completed := true;
    }
  }

  class SealingUpload {
    const inner: InnerUpload
    const sealer: Sealer
    const draws: Draws
    var pending: Bytes
    var nextIndex: nat
    var headerSent: bool
    /** Everything put so far. */
    ghost var written: Bytes

    ghost predicate Valid()
      reads this, inner
    {
      Current().Holds(written)
    }

    /** What the upload is, with everything handed on put end to end. */
    ghost function Current(): State
      reads this, inner
    {
      State(sealer, draws, pending, nextIndex, headerSent, Flatten(inner.parts))
    }

    constructor (inner: InnerUpload, sealer: Sealer, draws: Draws)
      requires inner.parts == []
      ensures this.inner == inner && this.sealer == sealer && this.draws == draws
      ensures Valid() && written == [] && Current() == Begin(sealer, draws)
    {
      this.inner, this.sealer, this.draws := inner, sealer, draws;
      pending, nextIndex, headerSent := [], 0, false;
      written := [];
    }

    method DrainFullBlocks() returns (out: Bytes)
      modifies this`pending, this`nextIndex, this`headerSent
      ensures Current().(sent := Flatten(inner.parts) + out) == old(Current()).WithHeader().DrainBlocks()
    {
      hide Flatten, Sealer.Header, Sealer.Block;
      out := [];
      ghost var before := Flatten(inner.parts);
      assert before + [] == before;
      if !headerSent {
        out := out + sealer.Header();
        headerSent := true;
      }
      ghost var target := old(Current()).WithHeader().DrainBlocks();
      assert Current().(sent := before + out) == old(Current()).WithHeader();
      while |pending| >= sealer.block
        invariant Current().(sent := before + out).DrainBlocks() == target
        decreases |pending|
      {
        var sealed := sealer.Block(nextIndex, false, pending[..sealer.block], draws(nextIndex));
        assert (before + out) + sealed == before + (out + sealed);
        pending := pending[sealer.block..];
        out := out + sealed;
        nextIndex := nextIndex + 1;
      }
    }

    method PutPart(data: Bytes)
      requires Valid()
      modifies this`pending, this`nextIndex, this`headerSent, this`written, inner`parts
      ensures Valid() && written == old(written) + data
      ensures Current() == old(Current()).PutPart(data)
      ensures inner.parts == old(inner.parts)
           || exists sent :: sent != [] && inner.parts == old(inner.parts) + [sent]
    {
      Current().PutPartHolds(written, data);
      written := written + data;
      pending := pending + data;
      hide State.Holds, State.DrainBlocks, Sealer.Header;
      var sealed := DrainFullBlocks();
      if sealed == [] {
        assert Flatten(inner.parts) + sealed == Flatten(inner.parts);
      } else {
        FlattenSnoc(inner.parts, sealed);
        inner.PutPart(sealed);
      }
    }

    /** What the inner upload completes with is the object that seals all that was written. */
    method Complete()
      requires Valid()
      modifies this`pending, this`nextIndex, this`headerSent, inner`parts, inner`completed
      ensures Flatten(inner.parts) == old(Current()).Complete() == sealer.Object(written, draws)
      ensures sealer.cipher.Lawful() ==>
                SealedWith(Flatten(inner.parts), sealer.block, sealer.key, |written|, draws)
      ensures inner.completed
    {
      hide SealedWith, Cipher.Lawful, Sealer.Header, Sealer.Object, Sealer.Block, Flatten, IsTail;
      hide State.Extends, State.Holds, State.DrainBlocks, State.WithHeader, State.Complete;
      Current().CompleteSeals(written);
      Current().CompleteUnfolds();
      if sealer.cipher.Lawful() {
        sealer.ObjectDraws(written, draws);
      }
      var tail := DrainFullBlocks();
      ghost var before := Flatten(inner.parts);
      var remaining := pending;
      pending := [];
      var sealed := sealer.Block(nextIndex, true, remaining, draws(nextIndex));
      nextIndex := nextIndex + 1;
      assert (before + tail) + sealed == before + (tail + sealed);
      FlattenSnoc(inner.parts, tail + sealed);
      inner.PutPart(tail + sealed);
      inner.Complete();
    }
  }
}
