/** From the patch generator to the running service: what the pieces promise one another. */
module System {
  import opened Words
  import opened CacheMem
  import opened Iface
  import opened Handoff
  import Maple
  import Options
  import P = Patch

  /** The game image as RAM holds it. */
  function RamImage(m: Mem): seq<byte> {
    seq<byte>(GAME_LEN, i requires 0 <= i => m.ram(GAME + i))
  }

  lemma ImageInRam(m: Mem, img: seq<byte>)
    requires |img| == GAME_LEN && InRam(m, GAME, img)
    ensures RamImage(m) == img
  {
    forall i | 0 <= i < GAME_LEN ensures RamImage(m)[i] == img[i] {
      assert InRamAt(m, GAME, img, GAME + i);
    }
  }

  /** If p is a hook on target, entering its function lands on target with only r0 changed. */
  ghost predicate HookLive(img: seq<byte>, p: P.Patch, target: u32, r: Regs) {
    p.addr % 2 == 0 && p.now == P.ThunkCode(p.addr, target) ==>
      P.Steps(img, P.Flow(p.addr, r, Options.None), 3) == P.Flow(target, r[0 := target], Options.None)
  }

  ghost predicate HooksLive(img: seq<byte>, ps: seq<P.Patch>) {
    forall i, target: u32, r: Regs | 0 <= i < |ps| :: HookLive(img, ps[i], target, r)
  }

  lemma AllHooksLive(m: Mem, boot: seq<byte>, ps: seq<P.Patch>)
    requires |boot| == GAME_LEN && (forall i | 0 <= i < |ps| :: P.Emitted(boot, ps[i])) && P.Disjoint(ps)
    requires P.AllFit(ps, |boot|) && InRam(m, GAME, P.Apply(boot, ps).img)
    ensures HooksLive(RamImage(m), ps)
  {
    ImageInRam(m, P.Apply(boot, ps).img);
    forall i, target: u32, r: Regs | 0 <= i < |ps| ensures HookLive(RamImage(m), ps[i], target, r) {
      if ps[i].addr % 2 == 0 && ps[i].now == P.ThunkCode(ps[i].addr, target) {
        P.HookIsLive(boot, ps, i, target, r);
      }
    }
  }

  /** The 16 MB chip as the Maple service addresses it. */
  function Chip(m: Mem): Maple.Ram {
    (c: int) => m.ram(Maple.RAM + c % Maple.CHIP)
  }

  lemma MirrorUntriggered(m: Mem)
    requires MirrorsZero(m)
    ensures Maple.Word(Chip(m), Maple.MDST) == 0
  {
    forall k | 0 <= k < 4 ensures Maple.Bytes(Chip(m), Maple.MDST, 4)[k] == 0 {
      assert Maple.Cell(Maple.MDST + k) == Maple.MDST + k - Maple.RAM;
      assert Mirror(Maple.MDST + k);
    }
  }

  /** No dirty line with another value covered a mirror byte: exactly then is it sure to be found zeroed. */
  ghost predicate MirrorsClear(m: Mem) {
    forall a | Mirror(a) :: m.Settled(a) || m.copy(a) == 0
  }

  /** A generated table, its sites disjoint, on the boot image it was generated from: the loader always
      launches, every hook is live in RAM at the jump, and the service starts with nothing pending and runs
      for as many frames as the machine does. */
  method PowerOn(gen: P.Generator, loader: Loader, stage: array<byte>, shim: seq<byte>, biosA: seq<byte>,
                 biosB: seq<byte>, stub: seq<byte>, blobs: Maple.Blobs, own: int -> bool, frames: nat)
    returns (service: Maple.Shim, r: Maple.Outcome, ghost run: seq<Maple.Frame>)
    requires gen.Valid() && P.Disjoint(gen.patches) && stage[..] == gen.boot && blobs.Fit()
    requires Payload(stage[..], shim, biosA, biosB, stub).Fits() && MirrorsClear(loader.mem)
    modifies loader, stage
    ensures P.AllFit(gen.patches, |gen.boot|)
    ensures var p := Payload(P.Apply(gen.boot, gen.patches).img, shim, biosA, biosB, stub);
            p.Fits() && AtJump(p, old(loader.mem), loader.mem) && MirrorsZero(loader.mem)
    ensures HooksLive(RamImage(loader.mem), gen.patches)
    ensures fresh(service) && service.blobs == blobs && service.own == own && service.start == Chip(loader.mem)
    ensures Maple.Played(blobs, own, run, 0xff)
    ensures r.Returned? ==> service.Valid() && !Maple.Triggered(service.ram) && |run| == frames
  {
    P.GeneratedApplies(gen.boot, gen.patches);
    ghost var m0 := loader.mem;
    var launched := Boot(loader, stage, gen.patches, shim, biosA, biosB, stub);
    MirrorsExact(m0);
    AllHooksLive(loader.mem, gen.boot, gen.patches);
    MirrorUntriggered(loader.mem);
    service := new Maple.Shim(blobs, Chip(loader.mem), own);
    ghost var stop;
    r, run, stop := service.Run(frames);
  }
}
