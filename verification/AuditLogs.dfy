/** The audit file of a node on disk. */
module AuditLogs {
  import opened ByteStrings
  import opened Crypto
  import opened Disks
  import opened Audits

  function ReasonsOf(log: seq<AuditEntry>): (r: seq<Bytes>)
    ensures |r| == |log|
  {
    seq(|log|, i requires 0 <= i < |log| => log[i].reason)
  }

  /** The audit file of `uuid` is the chain of valid records whose reasons are `reasons`, in that order. */
  ghost predicate Logged(suite: CipherSuite, root: GcmState, files: Files, uuid: Bytes, reasons: seq<Bytes>) {
    exists log :: ValidLog(suite, log) && FileOf(files, AuditDir, uuid) == AuditFile(suite, root, log)
      && ReasonsOf(log) == reasons
  }

  lemma NothingLogged(suite: CipherSuite, root: GcmState, files: Files, uuid: Bytes)
    requires (AuditDir, uuid) !in files
    ensures Logged(suite, root, files, uuid, [])
  {
    assert ValidLog(suite, []) && FileOf(files, AuditDir, uuid) == AuditFile(suite, root, []) && ReasonsOf([]) == [];
  }

  lemma OverlayAtEnd(f: Bytes, data: Bytes)
    ensures Overlay(f, |f|, data) == f + data
  {
  }

  lemma {:induction false} AnyTag(suite: CipherSuite, root: GcmState, root': GcmState, log: seq<AuditEntry>)
    requires root' == root.(mac := root'.mac)
    ensures AuditFile(suite, root', log) == AuditFile(suite, root, log)
  {
    if log != [] {
      AnyTag(suite, root, root', log[1..]);
    }
  }

  /** The metadata and content files of `uuid` are as they were. */
  ghost predicate SameFiles(files: Files, files': Files, uuid: Bytes) {
    forall dir :: dir != AuditDir ==>
      && ((dir, uuid) in files' <==> (dir, uuid) in files)
      && FileOf(files', dir, uuid) == FileOf(files, dir, uuid)
  }

  ghost predicate AuditsKept(files: Files, files': Files) {
    forall uuid :: ((AuditDir, uuid) in files' <==> (AuditDir, uuid) in files)
      && ((AuditDir, uuid) in files ==> files'[(AuditDir, uuid)] == files[(AuditDir, uuid)])
  }

  lemma StillLogged(suite: CipherSuite, root: GcmState, files: Files, files': Files, uuid: Bytes, reasons: seq<Bytes>)
    requires Logged(suite, root, files, uuid, reasons) && AuditsKept(files, files')
    ensures Logged(suite, root, files', uuid, reasons)
  {
    hide AuditFile, ValidLog, ReasonsOf;
  }

  lemma OneMoreRecord(suite: CipherSuite, root: GcmState, root': GcmState, files: Files, files': Files, uuid: Bytes,
                      reasons: seq<Bytes>, e: AuditEntry)
    requires Logged(suite, root, files, uuid, reasons) && root' == root.(mac := root'.mac) && ValidEntry(suite, e)
    requires files' == files[(AuditDir, uuid) := FileOf(files, AuditDir, uuid) + AuditRecord(suite, root, e)]
    ensures Logged(suite, root', files', uuid, reasons + [e.reason])
    ensures SameFiles(files, files', uuid)
  {
    hide AuditRecord, AuditFile, ValidEntry;
    var log :| ValidLog(suite, log) && FileOf(files, AuditDir, uuid) == AuditFile(suite, root, log)
               && ReasonsOf(log) == reasons;
    AuditAppends(suite, root, log, e);
    AnyTag(suite, root, root', log + [e]);
    assert ReasonsOf(log + [e]) == reasons + [e.reason];
    assert ValidLog(suite, log + [e]);
  }

  /** Reading an audit file record by record, under any tag, recovers all its reasons, in the order of the actions. */
  lemma AuditReasons(suite: CipherSuite, root: GcmState, root': GcmState, files: Files, uuid: Bytes,
                     reasons: seq<Bytes>)
    requires Logged(suite, root, files, uuid, reasons) && root' == root.(mac := root'.mac)
    ensures var p := ReadLog(suite, root', FileOf(files, AuditDir, uuid));
      p.Done? && p.rest == [] && ReasonsOf(p.value) == reasons
  {
    hide AuditFile, ReadLog, ReasonsOf;
    var log :| ValidLog(suite, log) && FileOf(files, AuditDir, uuid) == AuditFile(suite, root, log)
               && ReasonsOf(log) == reasons;
    ReadLogBack(suite, root, root', log);
  }
}
