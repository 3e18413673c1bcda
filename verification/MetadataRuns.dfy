/** Many nodes, one shared root key: any interleaving of metadata dumps, loads and deletions. */
module MetadataRuns {
  import opened ByteStrings
  import opened Crypto
  import opened SealedMetadata
  import opened NodeRecords
  import opened NodeRoundTrip
  import opened MetadataFiles

  /**
   A dump overwrites the metadata file of the node, in place unless `trunc`; a load leaves its blob's tag in the
   root key.
   */
  datatype Step =
    | Dump(cls: Class, node: NodeData, ctx: GcmState, trunc: bool)
    | Load(mac: Bytes)
    | Delete(uuid: Bytes)

  /** The metadata directory and the root key object. */
  datatype State = State(files: map<Bytes, Bytes>, root: GcmState)

  datatype Stored = Absent | Present(cls: Class, node: NodeData)

  function File(files: map<Bytes, Bytes>, uuid: Bytes): Bytes {
    if uuid in files then files[uuid] else []
  }

  function Next(suite: CipherSuite, s: State, step: Step): State {
    match step
    case Dump(cls, d, ctx, trunc) =>
      var blob := SealNode(suite, s.root, ctx, cls, d);
      var mac := RootMac(suite, s.root, ctx.(mac := SectionMac(suite, ctx, Preamble(cls, d), Sensitive(cls, d))));
      State(s.files[d.uuid := if trunc then blob else Overlay(File(s.files, d.uuid), 0, blob)], s.root.(mac := mac))
    case Load(mac) => State(s.files, s.root.(mac := mac))
    case Delete(uuid) => State(s.files - {uuid}, s.root)
  }

  function After(suite: CipherSuite, s: State, steps: seq<Step>): State {
    if steps == [] then s else Next(suite, After(suite, s, steps[..|steps| - 1]), steps[|steps| - 1])
  }

  /** The node that was last dumped under `uuid` and not deleted since. */
  function LastDumped(steps: seq<Step>, uuid: Bytes): Stored {
    if steps == [] then Absent else
    match steps[|steps| - 1]
    case Dump(cls, d, _, _) => if d.uuid == uuid then Present(cls, d) else LastDumped(steps[..|steps| - 1], uuid)
    case Load(_) => LastDumped(steps[..|steps| - 1], uuid)
    case Delete(u) => if u == uuid then Absent else LastDumped(steps[..|steps| - 1], uuid)
  }

  ghost predicate ValidSteps(steps: seq<Step>) {
    forall step :: step in steps && step.Dump? ==> WellFormed(step.cls, step.node) && step.ctx.Valid()
  }

  lemma StepKeeps(suite: CipherSuite, s: State, step: Step, uuid: Bytes, was: Stored)
    requires step.Dump? ==> WellFormed(step.cls, step.node) && step.ctx.Valid()
    requires was.Present? ==> uuid in s.files && LoadsAs(suite, s.root, was.cls, s.files[uuid], was.node)
    ensures var s' := Next(suite, s, step);
      s'.root == s.root.(mac := s'.root.mac)
      && (if step.Dump? && step.node.uuid == uuid
          then uuid in s'.files && LoadsAs(suite, s'.root, step.cls, s'.files[uuid], step.node)
          else (was.Present? && step != Delete(uuid)
                ==> uuid in s'.files && LoadsAs(suite, s'.root, was.cls, s'.files[uuid], was.node)))
  {
    hide LoadsAs, SealNode, WellFormed, Overlay;
    var s' := Next(suite, s, step);
    if step.Dump? && step.node.uuid == uuid {
      PrefixOfOverlay(File(s.files, uuid), SealNode(suite, s.root, step.ctx, step.cls, step.node));
      SealedLoadsAs(suite, s.root, s'.root, step.ctx, step.cls, step.node, s'.files[uuid]);
    } else if was.Present? && step != Delete(uuid) {
      LoadsUnderAnyTag(suite, s.root, s'.root, was.cls, s.files[uuid], was.node);
    }
  }

  /**
   After any interleaving, every metadata file loads as the node last dumped to it, however long the blobs before were
   and whichever node's tag is in the root key.
   */
  lemma {:induction false} LastDumpLoads(suite: CipherSuite, s: State, steps: seq<Step>, uuid: Bytes)
    requires ValidSteps(steps)
    ensures After(suite, s, steps).root == s.root.(mac := After(suite, s, steps).root.mac)
    ensures LastDumped(steps, uuid).Present? ==>
      var last := LastDumped(steps, uuid);
      uuid in After(suite, s, steps).files
      && LoadsAs(suite, After(suite, s, steps).root, last.cls, After(suite, s, steps).files[uuid], last.node)
  {
    if steps != [] {
      var init, last := steps[..|steps| - 1], steps[|steps| - 1];
      LastDumpLoads(suite, s, init, uuid);
      StepKeeps(suite, After(suite, s, init), last, uuid, LastDumped(init, uuid));
    }
  }
}
