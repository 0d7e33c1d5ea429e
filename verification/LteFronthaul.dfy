/**
  Reassembly of uplink subframes from IF4p5 packets (`fh_if4p5_south_in`, executables/lte-ru.c).
  Ten words collect the symbols of ten subframes; packets of later subframes may come early.
*/
module LteFronthaul {
  import opened BitMask
  import opened Options

  const SUBFRAMES := 10
  const WIDTH := 16
  const TICK_WORD := 0xffff

  datatype Packet =
    | Pulfft(frame: int, subframe: nat, symbol: nat)
    | Pultick(frame: int, subframe: nat)
    | Prach(frame: int, subframe: nat)

  /** Subframe numbers are below ten and symbol numbers below 16 (a subframe has 12 or 14 symbols). */
  ghost predicate Wellformed(packets: seq<Packet>) {
    forall k :: 0 <= k < |packets| ==>
      packets[k].subframe < SUBFRAMES && (packets[k].Pulfft? ==> packets[k].symbol < WIDTH)
  }

  /** Packet `p` sets bit `b` of the word of subframe `sf`: its symbol, or every bit for a tick. */
  predicate Sets(p: Packet, sf: nat, b: nat) {
    p.subframe == sf && match p
                        case Pulfft(_, _, symbol) => b == symbol
                        case Pultick(_, _) => true
                        case Prach(_, _) => false
  }

  ghost predicate SetBySome(packets: seq<Packet>, sf: nat, b: nat) {
    exists k :: 0 <= k < |packets| && Sets(packets[k], sf, b)
  }

  ghost function BitsOf(packets: seq<Packet>, sf: nat): set<nat> {
    set b: nat | b < WIDTH && SetBySome(packets, sf, b)
  }

  /** When a word is not less than that of `symbols` symbols. */
  ghost predicate Complete(bits: set<nat>, symbols: nat) {
    AllBelow(bits, symbols) || exists b: nat :: symbols <= b < WIDTH && b in bits
  }

  lemma SetByOneMore(packets: seq<Packet>, p: Packet, sf: nat, b: nat)
    ensures SetBySome(packets + [p], sf, b) <==> SetBySome(packets, sf, b) || Sets(p, sf, b)
  {
    var all := packets + [p];
    if k :| 0 <= k < |packets| && Sets(packets[k], sf, b) {
      assert Sets(all[k], sf, b);
    } else if Sets(p, sf, b) {
      assert Sets(all[|packets|], sf, b);
    }
  }

  /** The word that a packet leaves behind. */
  function Received(word: nat, p: Packet, sf: nat): nat {
    if p.subframe != sf then word
    else match p
      case Pulfft(_, _, symbol) => OrBit(word, symbol)
      case Pultick(_, _) => TICK_WORD
      case Prach(_, _) => word
  }

  lemma NothingReceived(sf: nat)
    ensures Word(BitsOf([], sf), WIDTH) == 0
  {
    EmptyWord(WIDTH);
    assert BitsOf([], sf) == {};
  }

  lemma AllBitsWord(bits: set<nat>)
    requires AllBelow(bits, WIDTH)
    ensures Word(bits, WIDTH) == TICK_WORD
  {
    FullWordIff(bits, WIDTH);
    Pow2Add(8, 8);
    assert Pow2(8) == 256 by {
      Pow2Add(4, 4);
      assert Pow2(4) == 16;
    }
  }

  /** Receiving a packet keeps the word equal to the bits received for its subframe. */
  lemma ReceivedWord(packets: seq<Packet>, p: Packet, sf: nat)
    requires Wellformed([p])
    ensures Received(Word(BitsOf(packets, sf), WIDTH), p, sf) == Word(BitsOf(packets + [p], sf), WIDTH)
  {
    var bits, bits' := BitsOf(packets, sf), BitsOf(packets + [p], sf);
    assert p == [p][0];
    forall b: nat | b < WIDTH ensures b in bits' <==> b in bits || Sets(p, sf, b) {
      SetByOneMore(packets, p, sf, b);
    }
    if p.Pulfft? && p.subframe == sf {
      OrBitWord(bits, WIDTH, p.symbol);
      assert bits' == bits + {p.symbol};
    } else if p.Pultick? && p.subframe == sf {
      AllBitsWord(bits');
    } else {
      WordExtensional(bits, bits', WIDTH);
    }
  }

  /** The numeric test of the receive loop, for any bits. */
  lemma CompleteIff(bits: set<nat>, symbols: nat)
    requires symbols <= WIDTH
    ensures Word(bits, WIDTH) >= Pow2(symbols) - 1 <==> Complete(bits, symbols)
  {
    AtLeastFullIff(bits, WIDTH, symbols);
  }

  /**
    With legal symbol numbers for the subframe, a word is complete exactly when a tick or all of
    its symbols have been received.
  */
  lemma CompleteMeansAllOrTick(packets: seq<Packet>, sf: nat, symbols: nat)
    requires symbols <= WIDTH
    requires forall k :: 0 <= k < |packets| && packets[k].Pulfft? && packets[k].subframe == sf
                         ==> packets[k].symbol < symbols
    ensures Complete(BitsOf(packets, sf), symbols)
       <==> || (exists k :: 0 <= k < |packets| && packets[k].Pultick? && packets[k].subframe == sf)
            || (forall i: nat :: i < symbols ==> SymbolIn(packets, sf, i))
  {
    var bits := BitsOf(packets, sf);
    if k :| 0 <= k < |packets| && packets[k].Pultick? && packets[k].subframe == sf {
      forall b: nat | b < WIDTH ensures b in bits {
        assert Sets(packets[k], sf, b);
      }
    } else {
      forall b: nat | b < WIDTH ensures b in bits <==> SymbolIn(packets, sf, b) {
        if k :| 0 <= k < |packets| && packets[k].Pulfft? && packets[k].subframe == sf && packets[k].symbol == b {
          assert Sets(packets[k], sf, b);
        }
      }
    }
  }

  ghost predicate SymbolIn(packets: seq<Packet>, sf: nat, symbol: nat) {
    exists k :: 0 <= k < |packets| && packets[k].Pulfft? && packets[k].subframe == sf && packets[k].symbol == symbol
  }

  /** Why symbol numbers must be legal: one symbol number too high completes the word alone. */
  lemma IllegalSymbolCompletes(frame: int, sf: nat, symbols: nat)
    requires 0 < symbols < WIDTH
    ensures var packets := [Pulfft(frame, sf, symbols)];
            Complete(BitsOf(packets, sf), symbols) && !SymbolIn(packets, sf, 0)
  {
    var packets := [Pulfft(frame, sf, symbols)];
    assert Sets(packets[0], sf, symbols);
    assert symbols in BitsOf(packets, sf);
  }

  // ---- The receiver as it runs ----

  /** Packets per subframe, extended by newly consumed ones, whatever subframe they are for. */
  ghost function Extended(since: seq<seq<Packet>>, packets: seq<Packet>): seq<seq<Packet>> {
    seq(|since|, k requires 0 <= k < |since| => since[k] + packets)
  }

  lemma ExtendedTwice(since: seq<seq<Packet>>, a: seq<Packet>, b: seq<Packet>)
    ensures Extended(Extended(since, a), b) == Extended(since, a + b)
    ensures Extended(since, []) == since
  {
    assert forall k :: 0 <= k < |since| ==> since[k] + a + b == since[k] + (a + b);
    assert forall k :: 0 <= k < |since| ==> since[k] + [] == since[k];
  }

  datatype Return = Return(consumed: nat, frame: int, subframe: nat)

  class Receiver {
    var masks: seq<nat>
    var firstRx: bool
    var waitResynch: bool
    var frameRx: int
    var ttiRx: nat
    ghost var since: seq<seq<Packet>>  // packets received since the last return for each subframe

    /** Every word is exactly what was received for its subframe since its last return. */
    ghost predicate Valid()
      reads this
    {
      && |masks| == |since| == SUBFRAMES
      && forall k: nat :: k < SUBFRAMES ==> masks[k] == Word(BitsOf(since[k], k), WIDTH)
    }

    constructor ()
      ensures Valid() && firstRx && since == seq(SUBFRAMES, _ => [])
    {
      masks, since := seq(SUBFRAMES, _ => 0), seq(SUBFRAMES, _ => []);
      firstRx, waitResynch, frameRx, ttiRx := true, false, 0, 0;
      new;
      forall k: nat ensures Word(BitsOf([], k), WIDTH) == 0 {
        NothingReceived(k);
      }
    }

    /** One packet updates the word of its subframe. */
    method ReceivePacket(p: Packet)
      requires Valid() && Wellformed([p])
      modifies this`masks, this`since
      ensures Valid() && since == Extended(old(since), [p])
      ensures forall k: nat :: k < SUBFRAMES && k != p.subframe ==> masks[k] == old(masks)[k]
    {
      assert p == [p][0];
      forall k: nat | k < SUBFRAMES
        ensures Received(masks[k], p, k) == Word(BitsOf(since[k] + [p], k), WIDTH)
      {
        ReceivedWord(since[k], p, k);
      }
      hide Word, BitsOf, OrBit;
      if p.Pulfft? {
        masks := masks[p.subframe := OrBit(masks[p.subframe], p.symbol)];
      } else if p.Pultick? {
        masks := masks[p.subframe := TICK_WORD];
      }
      since := Extended(since, [p]);
    }

    /**
      Receive until the expected subframe is complete; `symbols` is its number of symbols and
      `packets` the incoming stream. `None` means the stream ended first and the call still waits.
    */
    method SouthIn(frame: int, subframe: nat, symbols: nat, packets: seq<Packet>) returns (r: Option<Return>)
      requires Valid() && subframe < SUBFRAMES && symbols <= WIDTH && Wellformed(packets)
      modifies this
      ensures Valid()
      ensures r.Some? ==>
                && r.value.consumed <= |packets|
                && r.value.subframe == ttiRx == subframe
                && Complete(BitsOf(old(since)[subframe] + packets[..r.value.consumed], subframe), symbols)
                && since == Extended(old(since), packets[..r.value.consumed])[subframe := []]
      ensures r.Some? && r.value.consumed > 0 ==> frameRx == packets[r.value.consumed - 1].frame
      ensures r.Some? && r.value.consumed == 0 ==> frameRx == frame
      ensures r.Some? ==>
                && !firstRx
                && r.value.frame == (if old(firstRx) || old(waitResynch) then frameRx else frame)
                && waitResynch == (old(waitResynch) && (old(firstRx) || frameRx == frame))
      ensures var end := if r.Some? then r.value.consumed else |packets| + 1;
              forall c: nat :: c < end ==>
                !Complete(BitsOf(old(since)[subframe] + packets[..c], subframe), symbols)
      ensures r.None? ==> since == Extended(old(since), packets) && firstRx == old(firstRx) && waitResynch == old(waitResynch)
    {
      hide Word, BitsOf, Complete, Pow2;
      var full := Pow2(symbols) - 1;
      var f, sf := frame, subframe;
      var consumed := 0;
      ghost var start := since;
      ExtendedTwice(since, [], []);
      assert packets[..0] == [];
      assert start[subframe] + packets[..0] == start[subframe];
      CompleteIff(BitsOf(since[subframe], subframe), symbols);
      while masks[subframe] < full
        invariant 0 <= consumed <= |packets| && Valid()
        invariant since == Extended(start, packets[..consumed])
        invariant masks[subframe] < full <==> !Complete(BitsOf(start[subframe] + packets[..consumed], subframe), symbols)
        invariant forall c: nat :: c < consumed ==> !Complete(BitsOf(start[subframe] + packets[..c], subframe), symbols)
        invariant consumed > 0 ==> f == packets[consumed - 1].frame
        invariant consumed == 0 ==> f == frame && sf == subframe
        invariant masks[subframe] >= full ==> sf == subframe
        invariant firstRx == old(firstRx) && waitResynch == old(waitResynch)
        decreases |packets| - consumed
      {
        if consumed == |packets| {
          assert packets[..consumed] == packets;
          return None;
        }
        var p := packets[consumed];
        f, sf := p.frame, p.subframe;
        ReceivePacket(p);
        consumed := consumed + 1;
        assert packets[..consumed] == packets[..consumed - 1] + [p];
        ExtendedTwice(start, packets[..consumed - 1], [p]);
        CompleteIff(BitsOf(since[subframe], subframe), symbols);
      }
      ttiRx := sf;
      frameRx := f;
      var outFrame, outSubframe := frame, subframe;
      if !firstRx {
        if ttiRx != subframe {
          outSubframe := sf;
        }
        if waitResynch && frameRx != frame {
          waitResynch := false;
          outFrame := frameRx;
        }
      } else {
        firstRx := false;
        outFrame, outSubframe := frameRx, ttiRx;
      }
      masks := masks[sf := 0];
      since := since[sf := []];
      NothingReceived(sf);
      r := Some(Return(consumed, outFrame, outSubframe));
    }
  }
}
