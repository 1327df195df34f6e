/** The page erases and page writes of a DFU request, in order, with the addresses the handlers pass to the
    hardware. The class in DfuBootloader.dfy logs them as it issues them. */
module DfuPageOps {
  import opened Endpoint
  import opened Dfu

  datatype PageOp = Erase(addr: nat) | Commit(addr: nat)

  /** The operations of one turn of the programming loop. */
  function WordOps(j: FlashJob): seq<PageOp>
    requires 0 < j.left
  {
    if j.inPage + 1 == |j.chip.buffer| / 2 || j.left == 1 then
      if j.left == 1 then [Commit(j.page)] else [Commit(j.page), Erase(j.addr + 2)]
    else []
  }

  function LoopOps(j: FlashJob): seq<PageOp>
    decreases j.left
  {
    if j.left == 0 then []
    else
      var ready := j.(out := Ready(j.out));
      if ready.out.detached then [] else WordOps(ready) + LoopOps(ProgramWord(ready))
  }

  function EraseOps(from: nat, limit: nat, page: nat): seq<PageOp>
    requires 0 < page
    decreases limit - from
  {
    if from >= limit then [] else [Erase(from), Commit(from)] + EraseOps(from + page, limit, page)
  }

  function CommandOps(p: Part, d: Device): seq<PageOp> {
    if Refused(d) then []
    else if d.command == COMMAND_PROG_START && d.data[0] == 0 then [Erase(FlashAddress(LoadStartEndAddresses(d)))]
    else if d.command == COMMAND_WRITE && d.data[0] == 0 && d.data[1] == 0xFF then
      EraseOps(0, p.bootStart, |d.chip.buffer|)
    else []
  }

  function FirmwareOps(d: Device, o: Out): seq<PageOp> {
    if d.data[0] != 0 then []
    else
      var o1 := Discard(Discard(o, FILLER_BYTES), d.startAddr % ENDPOINT_SIZE);
      LoopOps(FlashJob(d.chip, o1, FlashAddress(d), FlashAddress(d), 0, RangeLength(d) / 2))
  }

  function BodyOps(d: Device, o: Out): seq<PageOp> {
    if d.state != DFU_DNLOAD_IDLE || d.dataSize == 0 then [] else FirmwareOps(d, o)
  }

  function ExitOps(p: Part, d: Device): seq<PageOp> {
    if d.waitForExit then CommandOps(p, d) else []
  }

  function DnloadOps(p: Part, d: Device, packets: seq<Packet>): seq<PageOp>
    requires p.Fits(d.chip)
  {
    var d1 := FinishExit(p, d);
    if d1.dataSize == 0 then ExitOps(p, d) + BodyOps(d1, Out([], packets, false))
    else
      var o := NextPacket(Out([], packets, false));
      if o.detached then ExitOps(p, d)
      else
        var (d2, o2) := LoadCommand(d1, o);
        ExitOps(p, d) + CommandOps(p, d2) + BodyOps(ProcessCommand(p, d2), o2)
  }

  function HandleOps(p: Part, d: Device, r: Request): seq<PageOp>
    requires p.Fits(d.chip)
  {
    if r.Class? && r.bRequest == REQ_DNLOAD then DnloadOps(p, d.(dataSize := r.wLength), r.packets) else []
  }
}
