/** The audit log: a file that is only ever appended to, and the runs of operations and damage on it. */
module AuditLog {
  import opened Bytes
  import opened Text
  import opened AuditRecord
  import opened AuditChain
  import opened Wrappers

  /** One more than the last record's number, and 0 behind the highest, as without overflow checks. */
  function NextSequence(records: seq<Record>): u64 {
    if records == [] then 0 else (records[|records| - 1].sequence + 1) % TWO64
  }

  function LastHash(records: seq<Record>): Digest {
    if records == [] then ANCHOR else records[|records| - 1].hash
  }

  /** The record an append writes behind `existing`. */
  function NextRecord(h: Hash, existing: seq<Record>, query: string, plan: string, rows: u64): Record {
    Sealed(h, NextSequence(existing), LastHash(existing), query, plan, rows)
  }

  function Append(h: Hash, file: string, query: string, plan: string, rows: u64): Result<string, AuditError> {
    var existing :- Parse(file);
    match FirstBreak(h, existing)
    case Some(at) => Failure(BrokenChain(at))
    case None => Success(file + ToLine(NextRecord(h, existing, query, plan, rows)))
  }

  function AnchorRecord(h: Hash, existing: seq<Record>, at: u64): Record {
    Sealed(h, NextSequence(existing), ANCHOR, REANCHOR + Decimal(at), "", 0)
  }

  function Reanchor(h: Hash, file: string): Result<string, AuditError> {
    var records :- Parse(file);
    match FirstBreak(h, records)
    case None => Failure(NothingToReanchor)
    case Some(at) => Success(file + ToLine(AnchorRecord(h, records, at)))
  }

  /** Whether a log parses and its current chain verifies. */
  predicate Verifies(h: Hash, file: string) {
    Parse(file).Success? && FirstBreak(h, Parse(file).value).None?
  }

  // ---------------------------------------------------------------- one operation

  /** What appending to a list of records does to its current chain. */
  lemma {:induction false} ChainGrows(records: seq<Record>, r: Record)
    ensures CurrentChain(records + [r]) == if IsAnchor(r) then [r] else CurrentChain(records) + [r]
  {
    hide IsAnchor;
    var all := records + [r];
    assert all[..|all| - 1] == records;
  }

  /** A longer chain verifies when the shorter one does and the new link holds. */
  lemma {:induction false} GrownChainHolds(h: Hash, chain: seq<Record>, r: Record)
    ensures AllHold(h, chain + [r])
       <==> AllHold(h, chain) && r.previous == LastHash(chain) && r.hash == Recompute(h, r)
  {
    hide Recompute;
    var all := chain + [r];
    forall i | 0 <= i < |chain|
      ensures LinkHolds(h, all, i) <==> LinkHolds(h, chain, i)
    {
    }
    assert AllHold(h, chain) && r.previous == LastHash(chain) && r.hash == Recompute(h, r)
       ==> LinkHolds(h, all, |chain|);
    assert AllHold(h, all) ==> LinkHolds(h, all, |chain|);
    assert AllHold(h, all) ==> AllHold(h, chain) by {
      if AllHold(h, all) {
        forall i | 0 <= i < |chain|
          ensures LinkHolds(h, chain, i)
        {
          assert LinkHolds(h, all, i);
        }
      }
    }
  }

  /**
   An append succeeds exactly when the current chain verifies, and then only extends the file. On a log
   whose last line is whole, what it leaves verifies again if and only if the record it wrote reads back
   with the hash it was sealed with, and its query does not pass for a re-anchor behind another record.
   */
  lemma {:induction false} AppendOutcome(h: Hash, file: string, query: string, plan: string, rows: u64)
    ensures Append(h, file, query, plan, rows).Success? <==> Verifies(h, file)
    ensures Append(h, file, query, plan, rows).Success? ==> file <= Append(h, file, query, plan, rows).value
    ensures Terminated(file) && Append(h, file, query, plan, rows).Success? ==>
              var existing := Parse(file).value;
              var record := NextRecord(h, existing, query, plan, rows);
              var after := Append(h, file, query, plan, rows).value;
              && Terminated(after)
              && Parse(after) == Success(existing + [AsRead(record)])
              && (Verifies(h, after)
                  <==> && (!EndsInReturn(plan) || h(Preimage(AsRead(record))) == h(Preimage(record)))
                       && (!(REANCHOR <= query) || LastHash(existing) == ANCHOR))
  {
    hide Parse, ToLine, Preimage, FirstBreak;
    if Terminated(file) && Append(h, file, query, plan, rows).Success? {
      var existing := Parse(file).value;
      var record := NextRecord(h, existing, query, plan, rows);
      AppendedLineParses(file, record);
      NextVerifies(h, existing, query, plan, rows);
    }
  }

  lemma {:induction false} NextVerifies(h: Hash, existing: seq<Record>, query: string, plan: string, rows: u64)
    requires FirstBreak(h, existing).None?
    ensures FirstBreak(h, existing + [AsRead(NextRecord(h, existing, query, plan, rows))]).None?
       <==> && (!EndsInReturn(plan)
                || h(Preimage(AsRead(NextRecord(h, existing, query, plan, rows))))
                   == h(Preimage(NextRecord(h, existing, query, plan, rows))))
            && (!(REANCHOR <= query) || LastHash(existing) == ANCHOR)
  {
    hide Preimage;
    var record := NextRecord(h, existing, query, plan, rows);
    var read := AsRead(record);
    SealedHash(h, NextSequence(existing), LastHash(existing), query, plan, rows);
    NoBreakMeansAllHold(h, CurrentChain(existing));
    NoBreakMeansAllHold(h, CurrentChain(existing + [read]));
    ChainGrows(existing, read);
    LastOfChain(existing);
    GrownChainHolds(h, if IsAnchor(read) then [] else CurrentChain(existing), read);
    assert [] + [read] == [read];
    hide CurrentChain, FirstBreak;
  }

  lemma {:induction false} LastOfChain(records: seq<Record>)
    ensures LastHash(CurrentChain(records)) == LastHash(records)
  {}

  /** A sealed record's hash is that of its content. */
  lemma {:induction false} SealedHash(h: Hash, sequence: u64, previous: Digest, query: string, plan: string, rows: u64)
    ensures var r := Sealed(h, sequence, previous, query, plan, rows);
            && r.hash == h(Preimage(r))
            && r.sequence == sequence && r.previous == previous
            && r.query == query && r.plan == plan && r.rows == rows
  {}

  /**
   Re-anchoring succeeds exactly on a log that parses and does not verify; it only extends the file,
   and on a log whose last line is whole it leaves one that verifies.
   */
  lemma {:induction false} ReanchorOutcome(h: Hash, file: string)
    ensures Reanchor(h, file).Success? <==> Parse(file).Success? && !Verifies(h, file)
    ensures Verifies(h, file) ==> Reanchor(h, file) == Failure(NothingToReanchor)
    ensures Reanchor(h, file).Success? ==> file <= Reanchor(h, file).value
    ensures Reanchor(h, file).Success? && Terminated(file) ==>
              var after := Reanchor(h, file).value;
              var records := Parse(file).value;
              && Terminated(after) && Verifies(h, after)
              && Parse(after) == Success(records + [AnchorRecord(h, records, FirstBreak(h, records).value)])
  {
    hide Parse, ToLine, Preimage, FirstBreak, Decimal;
    if Reanchor(h, file).Success? && Terminated(file) {
      var records := Parse(file).value;
      var at := FirstBreak(h, records).value;
      AppendedLineParses(file, AnchorRecord(h, records, at));
      AnchorVerifies(h, records, at);
    }
  }

  lemma {:induction false} AnchorVerifies(h: Hash, records: seq<Record>, at: u64)
    ensures var r := AnchorRecord(h, records, at);
            && AsRead(r) == r
            && FirstBreak(h, records + [r]).None?
  {
    hide Preimage, Decimal;
    var r := AnchorRecord(h, records, at);
    SealedHash(h, NextSequence(records), ANCHOR, REANCHOR + Decimal(at), "", 0);
    ChainGrows(records, r);
    GrownChainHolds(h, [], r);
    assert [] + [r] == [r];
    NoBreakMeansAllHold(h, [r]);
  }

  // ---------------------------------------------------------------- what is written, field by field

  /** One more than a number, and 0 after 2^64 - 1. */
  predicate Follows(before: u64, after: u64) {
    after == if before == 0xFFFF_FFFF_FFFF_FFFF then 0 else before + 1
  }

  /** The re-anchor marker with a number behind it. */
  predicate NamesLink(query: string, at: u64) {
    && |query| > |REANCHOR| && query[..|REANCHOR|] == REANCHOR
    && ParseDigits(query[|REANCHOR|..]) == Some(at)
  }

  /**
   A re-anchor adds one record to those a whole log held: it names the first link that failed, carries the next
   number, anchors the chain, and has no plan, no rows and the hash of its own content.
   */
  lemma {:induction false} AnchorSays(h: Hash, file: string)
    requires Terminated(file) && Reanchor(h, file).Success?
    ensures Parse(file).Success? && Parse(Reanchor(h, file).value).Success?
    ensures var records, after := Parse(file).value, Parse(Reanchor(h, file).value).value;
            && records != [] && |after| == |records| + 1 && after[..|records|] == records
            && var r := after[|records|];
               (&& Follows(records[|records| - 1].sequence, r.sequence)
                && r.previous == ANCHOR && r.plan == "" && r.rows == 0 && r.hash == h(Preimage(r))
                && exists at, i :: IsFirstBreak(h, CurrentChain(records), i, at) && NamesLink(r.query, at))
  {
    hide *;
    AnchorSucceeds(h, file);
    ReanchorOutcome(h, file);
    var records := Parse(file).value;
    var at := FirstBreak(h, records).value;
    AnchorFields(h, records, at);
    BreakIsFirst(h, records, at);
    BreakNeedsRecords(h, records);
    LastFollows(records);
    var r := AnchorRecord(h, records, at);
    assert (records + [r])[..|records|] == records && (records + [r])[|records|] == r;
  }

  lemma AnchorSucceeds(h: Hash, file: string)
    requires Reanchor(h, file).Success?
    ensures Parse(file).Success? && FirstBreak(h, Parse(file).value).Some?
  {
    hide Parse, ToLine, AnchorRecord, FirstBreak;
  }

  lemma {:induction false} AnchorFields(h: Hash, records: seq<Record>, at: u64)
    ensures var r := AnchorRecord(h, records, at);
            && r.sequence == NextSequence(records) && r.previous == ANCHOR
            && r.plan == "" && r.rows == 0 && r.hash == h(Preimage(r)) && NamesLink(r.query, at)
  {
    hide Preimage, Decimal, ParseDigits, NextSequence;
    var r := AnchorRecord(h, records, at);
    SealedHash(h, NextSequence(records), ANCHOR, REANCHOR + Decimal(at), "", 0);
    DecimalParses(at);
    assert r.query[|REANCHOR|..] == Decimal(at) && r.query[..|REANCHOR|] == REANCHOR;
  }

  lemma LastFollows(records: seq<Record>)
    requires records != []
    ensures Follows(records[|records| - 1].sequence, NextSequence(records))
  {}

  lemma BreakNeedsRecords(h: Hash, records: seq<Record>)
    requires FirstBreak(h, records).Some?
    ensures records != []
  {}

  /**
   An append adds one record to those a whole log held: with what it was given, but for a return at the end of
   the plan, the next number and the last record's hash, or 0 and the anchor in an empty log.
   */
  lemma {:induction false} AppendSays(h: Hash, file: string, query: string, plan: string, rows: u64)
    requires Terminated(file) && Append(h, file, query, plan, rows).Success?
    ensures Parse(file).Success? && Parse(Append(h, file, query, plan, rows).value).Success?
    ensures var records, after := Parse(file).value, Parse(Append(h, file, query, plan, rows).value).value;
            && |after| == |records| + 1 && after[..|records|] == records
            && var r := after[|records|];
               (&& r.query == query && r.rows == rows
                && r.plan == (if plan != "" && plan[|plan| - 1] == '\r' then plan[..|plan| - 1] else plan)
                && (r.plan == plan ==> r.hash == h(Preimage(r)))
                && (if records == [] then r.sequence == 0 && r.previous == ANCHOR
                    else
                      && Follows(records[|records| - 1].sequence, r.sequence)
                      && r.previous == records[|records| - 1].hash))
  {
    hide Parse, ToLine, Preimage, FirstBreak;
    AppendOutcome(h, file, query, plan, rows);
    var records := Parse(file).value;
    SealedHash(h, NextSequence(records), LastHash(records), query, plan, rows);
  }

  /** What is refused is refused for the line that is no record, or for the first link that fails, and as that. */
  lemma {:induction false} RefusalsSay(h: Hash, file: string, query: string, plan: string, rows: u64)
    ensures Append(h, file, query, plan, rows).Failure? ==>
              var error := Append(h, file, query, plan, rows).error;
              || Parse(file) == Failure(error)
              || (&& Parse(file).Success? && error.BrokenChain?
                  && exists i :: IsFirstBreak(h, CurrentChain(Parse(file).value), i, error.at))
    ensures Reanchor(h, file).Failure? ==>
              || Parse(file) == Failure(Reanchor(h, file).error)
              || (&& Parse(file).Success? && Reanchor(h, file).error == NothingToReanchor
                  && AllHold(h, CurrentChain(Parse(file).value)))
  {
    hide Parse, ToLine, Preimage, IsFirstBreak, CurrentChain, AllHold, BreakFrom;
    if Parse(file).Success? {
      var records := Parse(file).value;
      NoBreakMeansAllHold(h, CurrentChain(records));
      if FirstBreak(h, records).Some? {
        BreakIsFirst(h, records, FirstBreak(h, records).value);
      }
    }
  }

  // ---------------------------------------------------------------- runs

  datatype Op =
    | Enter(query: string, plan: string, rows: u64)
    | Anchor
    | Damage(file: string)

  /** The file after one operation and what the operation answered; a refused one changes nothing. */
  function Perform(h: Hash, file: string, op: Op): (string, Result<(), AuditError>) {
    match op
    case Damage(other) => (other, Success(()))
    case Enter(query, plan, rows) =>
      (match Append(h, file, query, plan, rows)
       case Success(after) => (after, Success(()))
       case Failure(e) => (file, Failure(e)))
    case Anchor =>
      (match Reanchor(h, file)
       case Success(after) => (after, Success(()))
       case Failure(e) => (file, Failure(e)))
  }

  function Run(h: Hash, file: string, ops: seq<Op>): (string, seq<Result<(), AuditError>>)
    decreases |ops|
  {
    if ops == [] then (file, [])
    else
      var (next, answer) := Perform(h, file, ops[0]);
      var (last, answers) := Run(h, next, ops[1..]);
      (last, [answer] + answers)
  }

  /** What the layer above asks to have recorded, but for the reserved marker and a trailing return. */
  predicate Recordable(op: Op) {
    op.Enter? && !EndsInReturn(op.plan) && !(REANCHOR <= op.query)
  }

  function Recorded(ops: seq<Op>): seq<Op> {
    if ops == [] then []
    else if ops[0].Enter? then [ops[0]] + Recorded(ops[1..])
    else Recorded(ops[1..])
  }

  /** The records that recording `ops` one after another puts behind `existing`. */
  function Grown(h: Hash, existing: seq<Record>, ops: seq<Op>): seq<Record>
    requires forall op :: op in ops ==> op.Enter?
    decreases |ops|
  {
    if ops == [] then existing
    else
      Grown(h, existing + [NextRecord(h, existing, ops[0].query, ops[0].plan, ops[0].rows)], ops[1..])
  }

  lemma {:induction false} RecordedAreRecords(ops: seq<Op>)
    ensures forall op :: op in Recorded(ops) ==> op.Enter?
  {
    if ops != [] {
      RecordedAreRecords(ops[1..]);
    }
  }

  /** Without damage nothing an operation does takes anything out of the file. */
  lemma {:induction false} RunExtends(h: Hash, file: string, ops: seq<Op>)
    requires forall op :: op in ops ==> !op.Damage?
    ensures file <= Run(h, file, ops).0
    decreases |ops|
  {
    hide Append, Reanchor, Verifies, Parse;
    if ops != [] {
      var op := ops[0];
      if op.Enter? {
        AppendOutcome(h, file, op.query, op.plan, op.rows);
      } else {
        ReanchorOutcome(h, file);
      }
      RunExtends(h, Perform(h, file, op).0, ops[1..]);
    }
  }

  /**
   At every point of every run, damage included: an entry is recorded exactly when the log verifies there, a
   re-anchor is made exactly when it parses there and does not verify, either leaves everything that was there,
   and a refused one changes nothing.
   */
  lemma {:induction false} RunAnswers(h: Hash, file: string, ops: seq<Op>, i: nat)
    requires i < |ops|
    ensures |Run(h, file, ops).1| == |ops|
    ensures var before, after := Run(h, file, ops[..i]).0, Run(h, file, ops[..i + 1]).0;
            var answer := Run(h, file, ops).1[i];
            && (ops[i].Enter? ==> (answer.Success? <==> Verifies(h, before)))
            && (ops[i].Anchor? ==> (answer.Success? <==> Parse(before).Success? && !Verifies(h, before)))
            && (!ops[i].Damage? ==> before <= after && (answer.Failure? ==> after == before))
            && (ops[i].Damage? ==> after == ops[i].file)
    decreases |ops|
  {
    hide Append, Reanchor, Verifies, Parse;
    var (next, answer) := Perform(h, file, ops[0]);
    assert ops[..i + 1][1..] == ops[1..][..i] && ops[..i + 1][0] == ops[0];
    if i == 0 {
      PerformAnswers(h, file, ops[0]);
      if |ops| > 1 {
        RunAnswers(h, next, ops[1..], 0);
      }
    } else {
      assert ops[..i][1..] == ops[1..][..i - 1] && ops[..i][0] == ops[0];
      RunAnswers(h, next, ops[1..], i - 1);
    }
  }

  lemma {:induction false} PerformAnswers(h: Hash, file: string, op: Op)
    ensures var (after, answer) := Perform(h, file, op);
            && (op.Enter? ==> (answer.Success? <==> Verifies(h, file)))
            && (op.Anchor? ==> (answer.Success? <==> Parse(file).Success? && !Verifies(h, file)))
            && (!op.Damage? ==> file <= after && (answer.Failure? ==> after == file))
  {
    hide Append, Reanchor, Verifies, Parse;
    if op.Enter? {
      AppendOutcome(h, file, op.query, op.plan, op.rows);
    } else if op.Anchor? {
      ReanchorOutcome(h, file);
    }
  }

  /**
   From a log that verifies, every undamaged run of recordable entries and attempts to re-anchor records
   every entry in order, refuses every re-anchor, and ends in a log that verifies.
   */
  lemma {:induction false} SoundRun(h: Hash, file: string, ops: seq<Op>)
    requires Terminated(file) && Verifies(h, file)
    requires forall op :: op in ops ==> Recordable(op) || op.Anchor?
    ensures forall op :: op in Recorded(ops) ==> op.Enter?
    ensures var (last, answers) := Run(h, file, ops);
            && Terminated(last) && Verifies(h, last)
            && Parse(last) == Success(Grown(h, Parse(file).value, Recorded(ops)))
            && |answers| == |ops|
            && forall i :: 0 <= i < |ops| ==>
                 answers[i] == if ops[i].Anchor? then Failure(NothingToReanchor) else Success(())
    decreases |ops|
  {
    hide Append, Reanchor, Verifies, Parse, Terminated, NextRecord, AsRead;
    VerifiedParses(h, file);
    RecordedAreRecords(ops);
    if ops != [] {
      var op := ops[0];
      var next := Perform(h, file, op).0;
      assert op in ops;
      if op.Enter? {
        AppendOutcome(h, file, op.query, op.plan, op.rows);
        NextReadsAsWritten(h, Parse(file).value, op);
      } else {
        ReanchorOutcome(h, file);
      }
      SoundRun(h, next, ops[1..]);
      var answers := Run(h, file, ops).1;
      forall i | 0 <= i < |ops|
        ensures answers[i] == if ops[i].Anchor? then Failure(NothingToReanchor) else Success(())
      {
        assert i > 0 ==> answers[i] == Run(h, next, ops[1..]).1[i - 1] && ops[i] == ops[1..][i - 1];
      }
    }
  }

  lemma VerifiedParses(h: Hash, file: string)
    ensures Verifies(h, file) ==> Parse(file).Success?
  {}

  lemma {:induction false} NextReadsAsWritten(h: Hash, existing: seq<Record>, op: Op)
    requires Recordable(op)
    ensures var r := NextRecord(h, existing, op.query, op.plan, op.rows); AsRead(r) == r
  {
    hide Preimage;
    SealedHash(h, NextSequence(existing), LastHash(existing), op.query, op.plan, op.rows);
  }

  /** What was recorded stays at its place, under consecutive numbers, with the content it was given. */
  lemma {:induction false} GrownRecords(h: Hash, existing: seq<Record>, ops: seq<Op>, i: nat)
    requires forall op :: op in ops ==> op.Enter?
    requires i < |existing| + |ops|
    requires forall j :: 0 <= j < |existing| ==> existing[j].sequence == j
    requires |existing| + |ops| <= TWO64
    ensures |Grown(h, existing, ops)| == |existing| + |ops|
    ensures var r := Grown(h, existing, ops)[i];
            && r.sequence == i
            && (if i < |existing| then r == existing[i]
                else
                  var op := ops[i - |existing|];
                  r.query == op.query && r.plan == op.plan && r.rows == op.rows)
    decreases |ops|
  {
    hide Preimage, Recompute;
    if ops != [] {
      var next := NextRecord(h, existing, ops[0].query, ops[0].plan, ops[0].rows);
      GrownRecords(h, existing + [next], ops[1..], i);
    }
  }

  /**
   The log of a database that nothing but its own operations ever touched holds one record for every
   entry, numbered from 0 without a gap, in order and as given.
   */
  lemma {:induction false} UndamagedLog(h: Hash, ops: seq<Op>, i: nat)
    requires forall op :: op in ops ==> Recordable(op) || op.Anchor?
    requires i < |Recorded(ops)| <= TWO64
    ensures Verifies(h, Run(h, "", ops).0)
    ensures var records := Parse(Run(h, "", ops).0).value;
            && |records| == |Recorded(ops)|
            && records[i].sequence == i
            && Recorded(ops)[i].Enter?
            && records[i].query == Recorded(ops)[i].query
            && records[i].plan == Recorded(ops)[i].plan
            && records[i].rows == Recorded(ops)[i].rows
  {
    NothingParses();
    EmptyVerifies(h);
    hide Verifies, Parse, Run, Recordable;
    SoundRun(h, "", ops);
    GrownRecords(h, [], Recorded(ops), i);
  }

  lemma {:induction false} EmptyVerifies(h: Hash)
    ensures Verifies(h, "")
  {
    NothingParses();
  }

  /** However a log was damaged, if it parses and its last line is whole, one re-anchor at most recovers it. */
  lemma {:induction false} Recovers(h: Hash, file: string)
    requires Terminated(file) && Parse(file).Success?
    ensures var after := Perform(h, file, Anchor).0;
            && file <= after && Terminated(after) && Verifies(h, after)
  {
    hide Verifies, Parse, Terminated, Reanchor;
    ReanchorOutcome(h, file);
  }

  // ---------------------------------------------------------------- the log as an object

  class Log {
    const hash: Hash
    var file: string

    constructor (hash: Hash)
      ensures this.hash == hash && file == ""
    {
      this.hash, file := hash, "";
    }

    /** Append one record behind a chain that verifies, under the file's own lock. */
    method Append(query: string, plan: string, rows: u64) returns (r: Result<(), AuditError>)
      modifies this
      ensures (file, r) == Perform(hash, old(file), Op.Enter(query, plan, rows))
      ensures r.Success? <==> Verifies(hash, old(file))
      ensures r.Failure? ==> file == old(file)
      ensures r.Failure? ==>
                || Parse(file) == Failure(r.error)
                || (&& Parse(file).Success? && r.error.BrokenChain?
                    && exists i :: IsFirstBreak(hash, CurrentChain(Parse(file).value), i, r.error.at))
    {
      RefusalsSay(hash, file, query, plan, rows);
      AppendOutcome(hash, file, query, plan, rows);
      hide Verifies, IsFirstBreak, CurrentChain;
      hide Parse, ToLine, FirstBreak, Preimage;
      var existing := Parse(file);
      if existing.Failure? {
        return Failure(existing.error);
      }
      var broken := FindFirstBreak(hash, existing.value);
      if broken.Some? {
        return Failure(BrokenChain(broken.value));
      }
      var record := NextRecord(hash, existing.value, query, plan, rows);
      file := file + ToLine(record);
      return Success(());
    }

    /** Succeeds on a sound log; otherwise names the least failing link, or fails as parsing does. */
    method Verify() returns (r: Result<(), AuditError>)
      ensures r.Success? <==> Verifies(hash, file)
      ensures match Parse(file)
              case Failure(error) => r == Failure(error)
              case Success(records) =>
                match FirstBreak(hash, records)
                case None => r == Success(())
                case Some(at) => r == Failure(BrokenChain(at))
    {
      hide Parse, FirstBreak;
      var records := Parse(file);
      if records.Failure? {
        return Failure(records.error);
      }
      var broken := FindFirstBreak(hash, records.value);
      if broken.Some? {
        return Failure(BrokenChain(broken.value));
      }
      return Success(());
    }

    /** Appends an anchor record to a log that parses and fails; leaves any other as it was. */
    method Reanchor() returns (r: Result<(), AuditError>)
      modifies this
      ensures (file, r) == Perform(hash, old(file), Anchor)
      ensures r.Success? <==> Parse(old(file)).Success? && !Verifies(hash, old(file))
      ensures r.Failure? ==> file == old(file)
      ensures r.Failure? ==> Parse(file) == Failure(r.error) || (Verifies(hash, file) && r.error == NothingToReanchor)
    {
      ReanchorOutcome(hash, file);
      hide Verifies, Terminated;
      hide Parse, ToLine, FirstBreak, Preimage, Decimal;
      var records := Parse(file);
      if records.Failure? {
        return Failure(records.error);
      }
      var broken := FindFirstBreak(hash, records.value);
      if broken.None? {
        return Failure(NothingToReanchor);
      }
      file := file + ToLine(AnchorRecord(hash, records.value, broken.value));
      return Success(());
    }
  }
}
