/** `NodeAudit`: the audit file of a node is a chain of self-standing records, one per audited action. */
module Audits {
  import opened ByteStrings
  import opened Crypto
  import opened Codec
  import opened SealedMetadata

  /** A record: the context it was sealed under, tag included, and the reason. */
  datatype AuditEntry = AuditEntry(ctx: GcmState, reason: Bytes)

  ghost predicate ValidEntry(suite: CipherSuite, e: AuditEntry) {
    e.ctx.Valid() && |Text(e.reason)| < SECTION_LIMIT && e.ctx.mac == SectionMac(suite, e.ctx, [], Text(e.reason))
  }

  function AuditRecord(suite: CipherSuite, root: GcmState, e: AuditEntry): Bytes {
    Seal(suite, root, e.ctx, [], Text(e.reason))
  }

  /** `e_load` of a record. */
  function TakeRecord(suite: CipherSuite, root: GcmState, s: Bytes): Parsed<AuditEntry> {
    var (ctx, s1) :- OpenCrypto(suite, root, s);
    var (plain, s2) :- OpenSection(suite, ctx, [], s1);
    if |plain| < 8 then Rejected else
    var (reason, left) :- TakeText(plain, true, 0);
    if left != [] then Rejected else Done(AuditEntry(ctx, reason), s2)
  }

  lemma RecordBack(suite: CipherSuite, root: GcmState, root': GcmState, e: AuditEntry, s: Bytes)
    requires ValidEntry(suite, e) && root'.key == root.key && root'.iv == root.iv
    requires AuditRecord(suite, root, e) <= s
    ensures TakeRecord(suite, root', s) == Done(e, s[|AuditRecord(suite, root, e)|..])
  {
    var sens := Text(e.reason);
    assert AuditRecord(suite, root, e) == SealedTail(suite, root, e.ctx, [], sens);
    OpenBack(suite, root, root', e.ctx, [], sens, s);
    TakeTextBack(e.reason, sens, true, 0);
  }

  /** The audit file after the actions of `log`, in order. */
  function AuditFile(suite: CipherSuite, root: GcmState, log: seq<AuditEntry>): Bytes {
    if log == [] then [] else AuditRecord(suite, root, log[0]) + AuditFile(suite, root, log[1..])
  }

  /** `e_load` again and again, each from where the last one ended, up to the end of the file. */
  function ReadLog(suite: CipherSuite, root: GcmState, s: Bytes): Parsed<seq<AuditEntry>>
    decreases |s|
  {
    if s == [] then Done([], []) else
    var (e, rest) :- TakeRecord(suite, root, s);
    if |rest| < |s| then
      var (es, rest') :- ReadLog(suite, root, rest);
      Done([e] + es, rest')
    else Fault
  }

  lemma ReadLogStep(suite: CipherSuite, root: GcmState, s: Bytes, e: AuditEntry, rest: Bytes, es: seq<AuditEntry>)
    requires s != [] && TakeRecord(suite, root, s) == Done(e, rest) && |rest| < |s|
    requires ReadLog(suite, root, rest) == Done(es, [])
    ensures ReadLog(suite, root, s) == Done([e] + es, [])
  {
    hide TakeRecord;
  }

  ghost predicate ValidLog(suite: CipherSuite, log: seq<AuditEntry>) {
    forall e :: e in log ==> ValidEntry(suite, e)
  }

  /** Reading the whole audit file gives every entry, in the order of the actions, whatever tag the root key holds. */
  lemma {:induction false} ReadLogBack(suite: CipherSuite, root: GcmState, root': GcmState, log: seq<AuditEntry>)
    requires ValidLog(suite, log) && root'.key == root.key && root'.iv == root.iv
    ensures ReadLog(suite, root', AuditFile(suite, root, log)) == Done(log, [])
  {
    if log != [] {
      var s, first := AuditFile(suite, root, log), AuditRecord(suite, root, log[0]);
      RecordBack(suite, root, root', log[0], s);
      assert |first| > 0;
      hide AuditRecord, TakeRecord;
      assert s[|first|..] == AuditFile(suite, root, log[1..]);
      ReadLogBack(suite, root, root', log[1..]);
      ReadLogStep(suite, root', s, log[0], s[|first|..], log[1..]);
      assert [log[0]] + log[1..] == log;
      hide ReadLog, AuditFile;
    }
  }

  lemma {:induction false} AuditAppends(suite: CipherSuite, root: GcmState, log: seq<AuditEntry>, e: AuditEntry)
    ensures AuditFile(suite, root, log + [e]) == AuditFile(suite, root, log) + AuditRecord(suite, root, e)
  {
    if log == [] {
      assert AuditFile(suite, root, [e]) == AuditRecord(suite, root, e) + AuditFile(suite, root, []);
    } else {
      assert (log + [e])[1..] == log[1..] + [e];
      AuditAppends(suite, root, log[1..], e);
    }
  }

  class NodeAudit {
    const meta: Metadata
    var reason: Bytes

    constructor (reason: Bytes, suite: CipherSuite, rootKey: GcmContext)
      requires rootKey.state.Valid()
      ensures this.reason == reason && fresh(meta) && fresh(meta.ctx) && meta.Valid()
      ensures meta.suite == suite && meta.rootKey == rootKey
    {
      this.reason := reason;
      meta := new Metadata(suite, rootKey);
    }

    /** `e_dump` into a buffer of exactly `e_size` bytes; the preamble is empty. */
    method EDump() returns (r: Bytes, ghost e: AuditEntry)
      requires meta.Valid() && |Text(reason)| < SECTION_LIMIT
      modifies meta.rootKey, meta.ctx
      ensures meta.Valid()
      ensures e.reason == reason && ValidEntry(meta.suite, e)
      ensures r == AuditRecord(meta.suite, old(meta.rootKey.state), e)
      ensures meta.rootKey.state == old(meta.rootKey.state).(mac := meta.rootKey.state.mac)
    {
      var plain := Text(reason);
      var buffer := new Byte[SealedSize([], plain)];
      ghost var before := buffer[..];
      e := AuditEntry(meta.ctx.state.(mac := SectionMac(meta.suite, meta.ctx.state, [], plain)), reason);
      OverlayAll(before, SealedTail(meta.suite, meta.rootKey.state, meta.ctx.state, [], plain));
      meta.EDumpTail([], plain, buffer);
      r := buffer[..];
    }

    /** `e_load`. */
    method ELoad(s: Bytes) returns (r: Parsed<()>)
      requires meta.Valid()
      modifies this`reason, meta.rootKey, meta.ctx
      ensures meta.Valid() && meta.rootKey.state == old(meta.rootKey.state).(mac := meta.rootKey.state.mac)
      ensures var p := TakeRecord(meta.suite, old(meta.rootKey.state), s);
        if p.Done? then r == Done((), p.rest) && reason == p.value.reason && meta.ctx.state == p.value.ctx
        else (r.Rejected? <==> p.Rejected?) && (r.Fault? <==> p.Fault?)
    {
      r := meta.ELoadCrypto(s);
      if !r.Done? {
        return;
      }
      var plain := meta.ELoadSensitive([], r.rest);
      if !plain.Done? {
        return plain.PropagateFailure();
      }
      if |plain.value| < 8 {
        return Rejected;
      }
      var text := TakeText(plain.value, true, 0);
      if !text.Done? {
        return text.PropagateFailure();
      }
      reason := text.value;
      r := if text.rest != [] then Rejected else Done((), plain.rest);
    }
  }
}
