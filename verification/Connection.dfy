/** The two ends of a connection: what is put in at one end is what comes out at the other. */
module Connection {
  import opened Octets
  import opened Kernel
  import PutSide
  import GetSide

  /**
   If no call of the writer throws and it ends with a sync, and no call of the reader throws, the reader gets
   exactly the blocks that its counts cut out of the writer's payloads: whatever the sizes of both
   buffers, and however the systems at both ends split the bytes.
   */
  lemma PutThenGot(p: PutSide.PutArea, puts: seq<PutSide.PutOp>, g: GetSide.GetArea, gets: seq<GetSide.GetOp>)
    requires p.Valid() && p.cap > 0 && g.Valid() && g.cap > 0
    requires PutSide.AllReturned(PutSide.Run(p, puts + [PutSide.Sync]).1)
    requires GetSide.AllReturned(GetSide.Run(g, gets).2)
    requires g.Stream() == PutSide.Run(p, puts + [PutSide.Sync]).0.out.sent
    ensures GetSide.Run(g, gets).1 == GetSide.Blocks(p.Total() + PutSide.Payloads(puts), gets)
  {
    hide PutSide.Run, GetSide.Run, GetSide.Blocks, PutSide.Payloads;
    PutSide.CleanRunDelivers(p, puts);
    GetSide.RunIsChunkIndependent(g, gets);
  }

  /** And between systems that take what they are given and deliver what there is, nothing throws: it all arrives. */
  lemma AllArrives(p: PutSide.PutArea, puts: seq<PutSide.PutOp>, g: GetSide.GetArea, gets: seq<GetSide.GetOp>, timed: bool)
    requires PutSide.Able(p, |PutSide.Payloads(puts + [PutSide.Sync])|, timed) && GetSide.Able(g, |gets|)
    requires timed || forall i :: 0 <= i < |puts| ==> !puts[i].SendTimeout?
    requires p.Valid() && g.Valid() && g.Stream() == PutSide.Run(p, puts + [PutSide.Sync]).0.out.sent
    ensures GetSide.Run(g, gets).1 == GetSide.Blocks(p.Total() + PutSide.Payloads(puts), gets)
  {
    WriterReturns(p, puts, timed);
    hide *;
    GetSide.AbleIsValid(g, |gets|);
    PutSide.AbleIsValid(p, |PutSide.Payloads(puts + [PutSide.Sync])|, timed);
    GetSide.RunReturns(g, gets, 0);
    PutThenGot(p, puts, g, gets);
  }

  lemma WriterReturns(p: PutSide.PutArea, puts: seq<PutSide.PutOp>, timed: bool)
    requires PutSide.Able(p, |PutSide.Payloads(puts + [PutSide.Sync])|, timed) && p.Valid()
    requires timed || forall i :: 0 <= i < |puts| ==> !puts[i].SendTimeout?
    ensures PutSide.AllReturned(PutSide.Run(p, puts + [PutSide.Sync]).1)
  {
    var all := puts + [PutSide.Sync];
    assert timed || forall i :: 0 <= i < |all| ==> !all[i].SendTimeout?;
    hide *;
    PutSide.RunReturns(p, all, 0, timed);
  }
}
