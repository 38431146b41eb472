/** The chain the audit log's records form, and what a change to it is reported as. */
module AuditChain {
  import opened Bytes
  import opened Text
  import opened AuditRecord
  import opened Wrappers

  /** "re-anchor after broken link ". */
  const REANCHOR: string := "re-anchor after broken link "

  predicate IsAnchor(r: Record) {
    REANCHOR <= r.query
  }

  /** Where the current chain starts: at the last record that re-anchors, or at the first of all. */
  function AnchorIndex(records: seq<Record>): (i: nat)
    ensures i <= |records|
    ensures records != [] ==> i < |records|
  {
    if records == [] then 0
    else if IsAnchor(records[|records| - 1]) then |records| - 1
    else AnchorIndex(records[..|records| - 1])
  }

  function CurrentChain(records: seq<Record>): seq<Record> {
    records[AnchorIndex(records)..]
  }

  /** The chain's last anchor is the last record that says it is one. */
  lemma {:induction false} AnchorIndexIsLast(records: seq<Record>)
    ensures forall i :: AnchorIndex(records) < i < |records| ==> !IsAnchor(records[i])
    ensures AnchorIndex(records) > 0 ==> IsAnchor(records[AnchorIndex(records)])
    ensures forall i :: 0 <= i < |records| && IsAnchor(records[i]) ==> i <= AnchorIndex(records)
  {
    if records != [] && !IsAnchor(records[|records| - 1]) {
      AnchorIndexIsLast(records[..|records| - 1]);
    }
  }

  /** Any position that is an anchor, or the start, with no anchor behind it, is where the chain starts. */
  lemma {:induction false} AnchorIndexIs(records: seq<Record>, at: nat)
    requires at < |records| && (at == 0 || IsAnchor(records[at]))
    requires forall i :: at < i < |records| ==> !IsAnchor(records[i])
    ensures AnchorIndex(records) == at
  {
    AnchorIndexIsLast(records);
  }

  /** A record follows the one before it, or anchors the chain, and its content gives its hash. */
  predicate LinkHolds(h: Hash, chain: seq<Record>, i: nat)
    requires i < |chain|
  {
    && chain[i].previous == (if i == 0 then ANCHOR else chain[i - 1].hash)
    && chain[i].hash == Recompute(h, chain[i])
  }

  predicate AllHold(h: Hash, chain: seq<Record>) {
    forall i :: 0 <= i < |chain| ==> LinkHolds(h, chain, i)
  }

  /** Walk a chain from the hash its first record has to name. */
  function BreakFrom(h: Hash, chain: seq<Record>, expected: Digest): Option<u64> {
    if chain == [] then None
    else if chain[0].previous != expected || chain[0].hash != Recompute(h, chain[0]) then Some(chain[0].sequence)
    else BreakFrom(h, chain[1..], chain[0].hash)
  }

  function FirstBreak(h: Hash, records: seq<Record>): Option<u64> {
    BreakFrom(h, CurrentChain(records), ANCHOR)
  }

  lemma {:induction false} BreakFromSkips(h: Hash, chain: seq<Record>, good: nat)
    requires good <= |chain| && forall i :: 0 <= i < good ==> LinkHolds(h, chain, i)
    ensures BreakFrom(h, chain, ANCHOR)
         == BreakFrom(h, chain[good..], if good == 0 then ANCHOR else chain[good - 1].hash)
  {
    if good == 0 {
      assert chain[0..] == chain;
    } else {
      BreakFromSkips(h, chain, good - 1);
      assert LinkHolds(h, chain, good - 1);
      var rest := chain[good - 1..];
      assert rest[0] == chain[good - 1] && rest[1..] == chain[good..];
    }
  }

  /** The break that is reported is the least link that fails, and none is reported when all hold. */
  lemma {:induction false} BreakIsLeast(h: Hash, chain: seq<Record>, i: nat)
    requires i <= |chain| && forall j :: 0 <= j < i ==> LinkHolds(h, chain, j)
    ensures i == |chain| ==> BreakFrom(h, chain, ANCHOR) == None
    ensures i < |chain| && !LinkHolds(h, chain, i) ==> BreakFrom(h, chain, ANCHOR) == Some(chain[i].sequence)
  {
    BreakFromSkips(h, chain, i);
    if i < |chain| {
      assert chain[i..][0] == chain[i];
    }
  }

  lemma {:induction false} NoBreakMeansAllHold(h: Hash, chain: seq<Record>)
    ensures BreakFrom(h, chain, ANCHOR).None? <==> AllHold(h, chain)
  {
    var i := 0;
    while i < |chain| && LinkHolds(h, chain, i)
      invariant i <= |chain| && forall j :: 0 <= j < i ==> LinkHolds(h, chain, j)
    {
      i := i + 1;
    }
    BreakIsLeast(h, chain, i);
  }

  /** The link at `i` fails, every one before it holds, and its record's number is `at`. */
  predicate IsFirstBreak(h: Hash, chain: seq<Record>, i: nat, at: u64) {
    && i < |chain| && !LinkHolds(h, chain, i) && chain[i].sequence == at
    && forall j :: 0 <= j < i ==> LinkHolds(h, chain, j)
  }

  /** A break is reported exactly where the first link fails. */
  lemma {:induction false} BreakIsFirst(h: Hash, records: seq<Record>, at: u64)
    ensures FirstBreak(h, records) == Some(at) <==> exists i :: IsFirstBreak(h, CurrentChain(records), i, at)
  {
    var chain := CurrentChain(records);
    hide CurrentChain, Recompute, BreakFrom, LinkHolds;
    var i := 0;
    while i < |chain| && LinkHolds(h, chain, i)
      invariant i <= |chain| && forall j :: 0 <= j < i ==> LinkHolds(h, chain, j)
    {
      i := i + 1;
    }
    BreakIsLeast(h, chain, i);
    if i < |chain| {
      assert IsFirstBreak(h, chain, i, chain[i].sequence);
    }
  }

  /** `first_break`: the loop over the current chain. */
  method FindFirstBreak(h: Hash, records: seq<Record>) returns (r: Option<u64>)
    ensures r == FirstBreak(h, records)
    ensures r.None? <==> AllHold(h, CurrentChain(records))
    ensures r.Some? ==> exists i :: IsFirstBreak(h, CurrentChain(records), i, r.value)
  {
    var chain := CurrentChain(records);
    NoBreakMeansAllHold(h, chain);
    hide CurrentChain, Recompute, BreakFrom, AllHold;
    var expectedPrevious := ANCHOR;
    for position := 0 to |chain|
      invariant forall j :: 0 <= j < position ==> LinkHolds(h, chain, j)
      invariant expectedPrevious == if position == 0 then ANCHOR else chain[position - 1].hash
    {
      var record := chain[position];
      var placedWrong := if position == 0 then record.previous != ANCHOR else record.previous != expectedPrevious;
      if placedWrong || record.hash != Recompute(h, record) {
        assert IsFirstBreak(h, chain, position, record.sequence);
        BreakIsLeast(h, chain, position);
        return Some(record.sequence);
      }
      expectedPrevious := record.hash;
    }
    BreakIsLeast(h, chain, |chain|);
    return None;
  }

  // ---------------------------------------------------------------- what a chain's last hash says

  predicate AllFit(chain: seq<Record>) {
    forall i :: 0 <= i < |chain| ==> Fits(chain[i])
  }

  /** Two records, one of each chain, that hash alike from different bytes. */
  predicate Collides(h: Hash, a: seq<Record>, b: seq<Record>) {
    exists i, j :: 0 <= i < |a| && 0 <= j < |b|
      && Preimage(a[i]) != Preimage(b[j]) && h(Preimage(a[i])) == h(Preimage(b[j]))
  }

  /** A record that hashes to the anchor. */
  predicate HitsAnchor(h: Hash, a: seq<Record>) {
    exists i :: 0 <= i < |a| && h(Preimage(a[i])) == ANCHOR
  }

  lemma {:induction false} PrefixHolds(h: Hash, chain: seq<Record>)
    requires chain != [] && AllHold(h, chain)
    ensures AllHold(h, chain[..|chain| - 1])
  {
    var shorter := chain[..|chain| - 1];
    forall i | 0 <= i < |shorter|
      ensures LinkHolds(h, shorter, i)
    {
      assert LinkHolds(h, chain, i);
    }
  }

  lemma {:induction false} EvidenceGrows(h: Hash, a: seq<Record>, b: seq<Record>, c: seq<Record>, d: seq<Record>)
    requires a <= c && b <= d
    ensures Collides(h, a, b) ==> Collides(h, c, d)
    ensures HitsAnchor(h, a) ==> HitsAnchor(h, c)
  {
    hide Preimage;
    if Collides(h, a, b) {
      var i, j :| 0 <= i < |a| && 0 <= j < |b|
        && Preimage(a[i]) != Preimage(b[j]) && h(Preimage(a[i])) == h(Preimage(b[j]));
      assert c[i] == a[i] && d[j] == b[j];
    }
    if HitsAnchor(h, a) {
      var i :| 0 <= i < |a| && h(Preimage(a[i])) == ANCHOR;
      assert c[i] == a[i];
    }
  }

  /** Two records with one hash have one content, or collide. */
  lemma {:induction false} SameHashSameRecord(h: Hash, a: seq<Record>, b: seq<Record>, i: nat, j: nat)
    requires i < |a| && j < |b| && AllFit(a) && AllFit(b)
    requires LinkHolds(h, a, i) && LinkHolds(h, b, j) && a[i].hash == b[j].hash
    ensures a[i] == b[j] || Collides(h, a, b)
  {
    hide Preimage;
    if Preimage(a[i]) == Preimage(b[j]) {
      PreimageInjective(a[i], b[j]);
    }
  }

  /**
   Two chains that verify and end in one hash are the same, record for record, or their records hold
   two different byte strings with one digest, or one whose digest is the anchor.
   */
  lemma {:induction false} LastHashDecides(h: Hash, a: seq<Record>, b: seq<Record>)
    requires a != [] && b != [] && AllFit(a) && AllFit(b)
    requires AllHold(h, a) && AllHold(h, b)
    requires a[|a| - 1].hash == b[|b| - 1].hash
    ensures a == b || Collides(h, a, b) || HitsAnchor(h, a) || HitsAnchor(h, b)
    decreases |a|
  {
    hide Preimage, Fits, Collides, HitsAnchor, Recompute;
    var m, n := |a| - 1, |b| - 1;
    assert LinkHolds(h, a, m) && LinkHolds(h, b, n);
    SameHashSameRecord(h, a, b, m, n);
    if a[m] == b[n] {
      if m == 0 && n > 0 {
        AnchorHit(h, b, n - 1);
      } else if n == 0 && m > 0 {
        AnchorHit(h, a, m - 1);
      } else if m > 0 {
        var x, y := a[..m], b[..n];
        PrefixHolds(h, a);
        PrefixHolds(h, b);
        assert x[m - 1].hash == a[m].previous == b[n].previous == y[n - 1].hash;
        hide AllHold, LinkHolds;
        LastHashDecides(h, x, y);
        EvidenceGrows(h, x, y, a, b);
        EvidenceGrows(h, y, x, b, a);
        assert a == x + [a[m]] && b == y + [b[n]];
      }
    }
  }

  lemma {:induction false} AnchorHit(h: Hash, chain: seq<Record>, i: nat)
    requires AllHold(h, chain) && i < |chain| && chain[i].hash == ANCHOR
    ensures HitsAnchor(h, chain)
  {
    hide Preimage;
    assert LinkHolds(h, chain, i);
  }

  // ---------------------------------------------------------------- what a change is reported as

  /**
   Changing what one record of a sound log says, but not its stored hash, is reported at that record,
   unless the change hashes alike. If the change makes the record that re-anchored the chain stop saying so,
   the chain starts further back, and a break is reported at that record or before it.
   */
  lemma {:induction false} AlterationReported(h: Hash, records: seq<Record>, i: nat, altered: Record)
    requires FirstBreak(h, records).None?
    requires AnchorIndex(records) <= i < |records|
    requires Fits(records[i]) && Fits(altered)
    requires altered.hash == records[i].hash && altered != records[i]
    ensures || (if i == AnchorIndex(records) && i > 0 && !IsAnchor(altered)
                then FirstBreak(h, records[i := altered]).Some?
                else FirstBreak(h, records[i := altered]) == Some(altered.sequence))
            || (Preimage(altered) != Preimage(records[i]) && h(Preimage(altered)) == h(Preimage(records[i])))
  {
    hide Preimage, Fits, IsAnchor;
    var at := AnchorIndex(records);
    NoBreakMeansAllHold(h, CurrentChain(records));
    assert LinkHolds(h, CurrentChain(records), i - at) && CurrentChain(records)[i - at] == records[i];
    if Preimage(altered) == Preimage(records[i]) {
      PreimageInjective(altered, records[i]);
    }
    hide FirstBreak, AnchorIndex;
    if h(Preimage(altered)) == h(Preimage(records[i])) {
    } else if i == at && i > 0 && !IsAnchor(altered) {
      HiddenAnchor(h, records, i, altered);
    } else {
      AlteredLink(h, records, i, altered);
    }
  }

  /** Where the chain still starts where it did, or at the altered record, that record is the first that fails. */
  lemma {:induction false} AlteredLink(h: Hash, records: seq<Record>, i: nat, altered: Record)
    requires FirstBreak(h, records).None?
    requires AnchorIndex(records) <= i < |records| && altered.hash != Recompute(h, altered)
    requires i == AnchorIndex(records) && i > 0 ==> IsAnchor(altered)
    ensures FirstBreak(h, records[i := altered]) == Some(altered.sequence)
  {
    hide Preimage, IsAnchor;
    var chain, changed := CurrentChain(records), records[i := altered];
    NoBreakMeansAllHold(h, chain);
    AlteredChain(records, i, altered);
    var start := AnchorIndex(changed);
    hide AnchorIndex;
    var now := CurrentChain(changed);
    forall j | 0 <= j < i - start
      ensures LinkHolds(h, now, j)
    {
      assert LinkHolds(h, chain, j);
    }
    BreakIsLeast(h, now, i - start);
  }

  /** However far back the chain starts, the altered record is in it, and its hash is not that of what it says. */
  lemma {:induction false} HiddenAnchor(h: Hash, records: seq<Record>, i: nat, altered: Record)
    requires AnchorIndex(records) <= i < |records| && altered.hash != Recompute(h, altered)
    ensures FirstBreak(h, records[i := altered]).Some?
  {
    hide Preimage, IsAnchor;
    var changed := records[i := altered];
    AnchorIndexIsLast(records);
    AnchorIndexIsLast(changed);
    var start := AnchorIndex(changed);
    var now := CurrentChain(changed);
    NoBreakMeansAllHold(h, now);
    hide AnchorIndex;
    assert now[i - start] == altered && !LinkHolds(h, now, i - start);
  }

  /** The altered log's chain starts where it did, or at the altered record. */
  lemma {:induction false} AlteredChain(records: seq<Record>, i: nat, altered: Record)
    requires AnchorIndex(records) <= i < |records|
    requires i == AnchorIndex(records) && i > 0 ==> IsAnchor(altered)
    ensures AnchorIndex(records[i := altered]) == if IsAnchor(altered) then i else AnchorIndex(records)
  {
    hide IsAnchor;
    AnchorIndexIsLast(records);
    AnchorIndexIs(records[i := altered], if IsAnchor(altered) then i else AnchorIndex(records));
  }

  function Without(records: seq<Record>, i: nat): seq<Record>
    requires i < |records|
  {
    records[..i] + records[i + 1..]
  }

  /** In a sound chain no two neighbours share a hash, nor is any hash the anchor, short of evidence. */
  lemma {:induction false} NeighboursDiffer(h: Hash, chain: seq<Record>, i: nat)
    requires AllHold(h, chain) && AllFit(chain) && i < |chain|
    ensures ((i > 0 ==> chain[i].hash != chain[i - 1].hash) && chain[i].hash != ANCHOR)
         || Collides(h, chain, chain) || HitsAnchor(h, chain)
  {
    hide Preimage, Fits;
    assert LinkHolds(h, chain, i);
    if i > 0 && chain[i].hash == chain[i - 1].hash {
      assert LinkHolds(h, chain, i - 1);
      SameHashSameRecord(h, chain, chain, i, i - 1);
      NeighboursDiffer(h, chain, i - 1);
    }
  }

  /**
   Removing a record that is not the last one is reported at the record that followed it. If it is the record
   that re-anchored the chain, the chain before it comes back: what was broken there is reported again, and if
   nothing was, the removal goes unreported exactly when the record before it is the same one once more.
   */
  lemma {:induction false} RemovalReported(h: Hash, records: seq<Record>, i: nat)
    requires FirstBreak(h, records).None? && AllFit(records)
    requires AnchorIndex(records) <= i < |records| - 1
    ensures || FirstBreak(h, Without(records, i))
               == (if i == 0 || i > AnchorIndex(records) then Some(records[i + 1].sequence)
                   else if FirstBreak(h, records[..i]).Some? then FirstBreak(h, records[..i])
                   else if records[i - 1] == records[i] then None
                   else Some(records[i + 1].sequence))
            || Collides(h, records, records) || HitsAnchor(h, records)
    ensures i == AnchorIndex(records) && i > 0 ==>
      (FirstBreak(h, Without(records, i)).None? <==> records[i - 1] == records[i]) || Collides(h, records, records)
  {
    hide Preimage, Fits, IsAnchor, Collides, HitsAnchor, AnchorIndex, FirstBreak;
    if i == AnchorIndex(records) && i > 0 {
      AnchorRemoved(h, records, i);
    } else {
      LinkRemoved(h, records, i);
    }
  }

  lemma {:induction false} WithoutTail(records: seq<Record>, i: nat, at: nat)
    requires at <= i < |records| - 1
    ensures Without(records, i)[at..] == Without(records[at..], i - at)
    ensures records[at..][i - at + 1] == records[i + 1]
  {}

  lemma {:induction false} LinkRemoved(h: Hash, records: seq<Record>, i: nat)
    requires FirstBreak(h, records).None? && AllFit(records)
    requires AnchorIndex(records) <= i < |records| - 1
    requires i == AnchorIndex(records) ==> i == 0
    ensures FirstBreak(h, Without(records, i)) == Some(records[i + 1].sequence)
         || Collides(h, records, records) || HitsAnchor(h, records)
  {
    hide Preimage, Fits, IsAnchor, Collides, HitsAnchor, AnchorIndex, BreakFrom, AllHold;
    var at := AnchorIndex(records);
    var chain := CurrentChain(records);
    NoBreakMeansAllHold(h, chain);
    RemovedChain(records, i);
    NeighboursDiffer(h, chain, i - at);
    EvidenceOfTail(h, records, at);
    WithoutTail(records, i, at);
    hide CurrentChain;
    if !Collides(h, chain, chain) && !HitsAnchor(h, chain) {
      RemovalBreaks(h, chain, i - at);
    }
  }

  /** Without the record that re-anchored it, what follows hangs on the chain before that record. */
  lemma {:induction false} AnchorRemoved(h: Hash, records: seq<Record>, i: nat)
    requires FirstBreak(h, records).None? && AllFit(records)
    requires 0 < i == AnchorIndex(records) < |records| - 1
    ensures || FirstBreak(h, Without(records, i))
               == (if FirstBreak(h, records[..i]).Some? then FirstBreak(h, records[..i])
                   else if records[i - 1] == records[i] then None
                   else Some(records[i + 1].sequence))
            || Collides(h, records, records)
    ensures records[i - 1] == records[i] ==> FirstBreak(h, records[..i]).None?
  {
    hide Preimage, Fits, IsAnchor, Collides, BreakFrom, AllHold;
    var before, chain := CurrentChain(records[..i]), CurrentChain(records);
    RejoinedChain(records, i);
    NoBreakMeansAllHold(h, chain);
    NoBreakMeansAllHold(h, before);
    hide CurrentChain, AnchorIndex;
    FirstHolds(h, chain);
    if FirstBreak(h, records[..i]).Some? {
      BreakStays(h, before, records[i + 1..], ANCHOR);
    } else {
      LinksRejoin(h, records, i, before);
      LastHolds(h, before);
      if records[i - 1].hash == records[i].hash {
        OneHashOneRecord(h, records, i);
      }
    }
    if records[i - 1] == records[i] {
      RepeatedAnchor(h, records, i);
    }
  }

  lemma {:induction false} RejoinedChain(records: seq<Record>, i: nat)
    requires 0 < i == AnchorIndex(records) < |records| - 1
    ensures CurrentChain(records) == records[i..] && IsAnchor(records[i])
    ensures CurrentChain(Without(records, i)) == CurrentChain(records[..i]) + records[i + 1..]
    ensures var before := CurrentChain(records[..i]); before != [] && before[|before| - 1] == records[i - 1]
  {
    hide IsAnchor;
    AnchorIndexIsLast(records);
    AnchorIndexIsLast(records[..i]);
    var at := AnchorIndex(records[..i]);
    AnchorIndexIs(Without(records, i), at);
    hide AnchorIndex;
    assert Without(records, i)[at..] == records[..i][at..] + records[i + 1..];
  }

  lemma FirstHolds(h: Hash, chain: seq<Record>)
    requires AllHold(h, chain) && chain != []
    ensures chain[0].hash == Recompute(h, chain[0])
  {
    assert LinkHolds(h, chain, 0);
  }

  lemma LastHolds(h: Hash, chain: seq<Record>)
    requires AllHold(h, chain) && chain != []
    ensures chain[|chain| - 1].hash == Recompute(h, chain[|chain| - 1])
  {
    assert LinkHolds(h, chain, |chain| - 1);
  }

  /** A break is reported whatever follows it. */
  lemma {:induction false} BreakStays(h: Hash, before: seq<Record>, after: seq<Record>, expected: Digest)
    requires BreakFrom(h, before, expected).Some?
    ensures BreakFrom(h, before + after, expected) == BreakFrom(h, before, expected)
  {
    hide Recompute;
    assert (before + after)[0] == before[0] && (before + after)[1..] == before[1..] + after;
    if before[0].previous == expected && before[0].hash == Recompute(h, before[0]) {
      BreakStays(h, before[1..], after, before[0].hash);
    }
  }

  /** Behind a chain that holds, what followed a re-anchor holds exactly if both records have one hash. */
  lemma {:induction false} LinksRejoin(h: Hash, records: seq<Record>, i: nat, before: seq<Record>)
    requires 0 < i < |records| - 1 && AllHold(h, before) && AllHold(h, records[i..])
    requires before != [] && before[|before| - 1] == records[i - 1]
    ensures BreakFrom(h, before + records[i + 1..], ANCHOR)
         == if records[i - 1].hash == records[i].hash then None else Some(records[i + 1].sequence)
  {
    hide Recompute;
    var chain, after := records[i..], records[i + 1..];
    var now := before + after;
    NoBreakMeansAllHold(h, chain);
    assert LinkHolds(h, chain, 0) && LinkHolds(h, chain, 1);
    BreakFromSkips(h, chain, 1);
    forall j | 0 <= j < |before|
      ensures LinkHolds(h, now, j)
    {
      assert LinkHolds(h, before, j);
    }
    BreakFromSkips(h, now, |before|);
    assert chain[1..] == after && now[|before|..] == after && after[0] == chain[1] == records[i + 1];
  }

  /** Neighbours that hold and have one hash are one record, or collide. */
  lemma {:induction false} OneHashOneRecord(h: Hash, records: seq<Record>, i: nat)
    requires 0 < i < |records| && AllFit(records)
    requires records[i - 1].hash == Recompute(h, records[i - 1]) && records[i].hash == Recompute(h, records[i])
    requires records[i - 1].hash == records[i].hash
    ensures records[i - 1] == records[i] || Collides(h, records, records)
  {
    hide Preimage, Fits;
    if Preimage(records[i - 1]) == Preimage(records[i]) {
      PreimageInjective(records[i - 1], records[i]);
    }
  }

  /** A re-anchor that is there twice is a chain of its own. */
  lemma {:induction false} RepeatedAnchor(h: Hash, records: seq<Record>, i: nat)
    requires 0 < i < |records| && IsAnchor(records[i]) && records[i - 1] == records[i]
    requires AllHold(h, records[i..])
    ensures FirstBreak(h, records[..i]).None?
  {
    hide Recompute, IsAnchor;
    AnchorIndexIs(records[..i], i - 1);
    assert LinkHolds(h, records[i..], 0);
    NoBreakMeansAllHold(h, CurrentChain(records[..i]));
  }

  lemma {:induction false} RemovalBreaks(h: Hash, chain: seq<Record>, k: nat)
    requires AllHold(h, chain) && k + 1 < |chain|
    requires chain[k].hash != if k == 0 then ANCHOR else chain[k - 1].hash
    ensures BreakFrom(h, Without(chain, k), ANCHOR) == Some(chain[k + 1].sequence)
  {
    hide Recompute, BreakFrom;
    var now := Without(chain, k);
    assert now[k] == chain[k + 1] && LinkHolds(h, chain, k + 1);
    forall j | 0 <= j < k
      ensures LinkHolds(h, now, j)
    {
      assert LinkHolds(h, chain, j);
    }
    BreakIsLeast(h, now, k);
  }

  lemma {:induction false} RemovedChain(records: seq<Record>, i: nat)
    requires AnchorIndex(records) <= i < |records| - 1
    requires i == AnchorIndex(records) ==> i == 0
    ensures AnchorIndex(Without(records, i)) == AnchorIndex(records)
  {
    hide IsAnchor;
    AnchorIndexIsLast(records);
    AnchorIndexIs(Without(records, i), AnchorIndex(records));
  }

  lemma {:induction false} EvidenceOfTail(h: Hash, records: seq<Record>, at: nat)
    requires at <= |records|
    ensures Collides(h, records[at..], records[at..]) ==> Collides(h, records, records)
    ensures HitsAnchor(h, records[at..]) ==> HitsAnchor(h, records)
  {
    hide Preimage;
    var chain := records[at..];
    if Collides(h, chain, chain) {
      var i, j :| 0 <= i < |chain| && 0 <= j < |chain|
        && Preimage(chain[i]) != Preimage(chain[j]) && h(Preimage(chain[i])) == h(Preimage(chain[j]));
      assert records[at + i] == chain[i] && records[at + j] == chain[j];
    }
    if HitsAnchor(h, chain) {
      var i :| 0 <= i < |chain| && h(Preimage(chain[i])) == ANCHOR;
      assert records[at + i] == chain[i];
    }
  }
}
