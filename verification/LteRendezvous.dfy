/**
  Radio units of one LTE eNB meet every subframe (`wakeup_L1s`, executables/lte-ru.c): each sets
  its bit in the word of the subframe, and the one that completes the word clears it and wakes L1.
*/
module LteRendezvous {
  import opened Arith
  import opened BitMask

  const SUBFRAMES := 10

  // ---- The call as it runs ----

  class Rendezvous {
    const numRu: nat
    const isSlave: seq<bool>
    const syncing: seq<bool>          // state == RU_SYNC
    var waitCnt: seq<nat>
    var masks: seq<nat>
    ghost var arrived: seq<set<nat>>  // the bits of each word

    ghost predicate Valid()
      reads this
    {
      && |isSlave| == |syncing| == |waitCnt| == numRu
      && |masks| == |arrived| == SUBFRAMES
      && forall k :: 0 <= k < SUBFRAMES ==> masks[k] == Word(arrived[k], numRu)
    }

    constructor (isSlave: seq<bool>, syncing: seq<bool>, waitCnt: seq<nat>)
      requires |isSlave| == |syncing| == |waitCnt|
      ensures Valid() && this.isSlave == isSlave && this.syncing == syncing && this.waitCnt == waitCnt
      ensures arrived == seq(SUBFRAMES, _ => {})
    {
      EmptyWord(|isSlave|);
      numRu, this.isSlave, this.syncing, this.waitCnt := |isSlave|, isSlave, syncing, waitCnt;
      masks, arrived := seq(SUBFRAMES, _ => 0), seq(SUBFRAMES, _ => {});
    }

    /** Waiting count after the call: a count of one ends, except in subframe 9. */
    ghost function NewWait(i: nat, tti: nat): nat
      requires i < |waitCnt|
      reads this
    {
      if waitCnt[i] == 1 && tti != 9 then 0 else waitCnt[i]
    }

    /** RUs whose bit this call sets: the caller if it is not waiting, and those nobody waits for. */
    ghost function Contribution(ru: nat, tti: nat): set<nat>
      requires |isSlave| == |syncing| == |waitCnt| == numRu
      reads this
    {
      set i: nat | i < numRu && (|| (i == ru && NewWait(i, tti) == 0)
                                 || syncing[i]
                                 || (isSlave[i] && NewWait(i, tti) > 0 && i != ru))
    }

    method WakeupL1s(ru: nat, tti: nat) returns (wake: bool)
      requires Valid() && ru < numRu && tti < SUBFRAMES
      modifies this
      ensures Valid()
      ensures forall i :: 0 <= i < numRu ==>
                waitCnt[i] == if old(waitCnt[i]) == 1 && tti != 9 then 0 else old(waitCnt[i])
      ensures var bits := old(arrived[tti]) + old(Contribution(ru, tti));
              && arrived == old(arrived)[tti := if AllBelow(bits, numRu) then {} else bits]
              && (wake <==> AllBelow(bits, numRu) && waitCnt[ru] == 0)
    {
      ghost var all := Contribution(ru, tti);
      ghost var bits := arrived[tti];
      var mask := masks[tti];
      var i := 0;
      while i < numRu
        invariant 0 <= i <= numRu && |waitCnt| == numRu
        invariant forall k :: 0 <= k < numRu ==> waitCnt[k] == if k < i then old(NewWait(k, tti)) else old(waitCnt[k])
        invariant bits == old(arrived[tti]) + set k: nat | k in all && k < i
        invariant mask == Word(bits, numRu)
        invariant masks == old(masks) && arrived == old(arrived)
      {
        if waitCnt[i] == 1 && tti != 9 {
          waitCnt := waitCnt[i := 0];
        }
        if ru == i && waitCnt[i] == 0 {
          OrBitWord(bits, numRu, i);
          mask := OrBit(mask, i);
          bits := bits + {i};
        } else if syncing[i] || (isSlave[i] && waitCnt[i] > 0 && ru != i) {
          OrBitWord(bits, numRu, i);
          mask := OrBit(mask, i);
          bits := bits + {i};
        }
        i := i + 1;
      }
      assert bits == old(arrived[tti]) + all;
      FullWordIff(bits, numRu);
      if mask == Pow2(numRu) - 1 {
        EmptyWord(numRu);
        masks := masks[tti := 0];
        arrived := arrived[tti := {}];
        wake := waitCnt[ru] == 0;
      } else {
        masks := masks[tti := mask];
        arrived := arrived[tti := bits];
        wake := false;
      }
    }
  }

  /** Waiting goes on after a call in subframe `tti`: a wait of one ends in any subframe but 9. */
  predicate WaitsOn(count: nat, tti: nat) {
    count > 1 || (count == 1 && tti == 9)
  }

  /**
    The word is complete when all RUs have arrived that somebody waits for. Nobody waits for an RU that is
    synchronizing or for another one that is a slave and waits; the caller arrives unless it waits itself.
  */
  lemma CompleteWithoutWaiting(r: Rendezvous, ru: nat, tti: nat)
    requires r.Valid() && ru < r.numRu && tti < SUBFRAMES
    ensures AllBelow(r.arrived[tti] + r.Contribution(ru, tti), r.numRu) <==>
              && (ru in r.arrived[tti] || r.syncing[ru] || !WaitsOn(r.waitCnt[ru], tti))
              && forall i: nat :: i < r.numRu && i != ru && !r.syncing[i]
                                  && !(r.isSlave[i] && WaitsOn(r.waitCnt[i], tti))
                                  ==> i in r.arrived[tti]
  {
    var bits := r.arrived[tti] + r.Contribution(ru, tti);
    forall i: nat | i < r.numRu && i != ru
      ensures i in bits <==> i in r.arrived[tti] || r.syncing[i] || (r.isSlave[i] && WaitsOn(r.waitCnt[i], tti))
    {
    }
    assert ru in bits <==> ru in r.arrived[tti] || r.syncing[ru] || !WaitsOn(r.waitCnt[ru], tti);
    if AllBelow(bits, r.numRu) {
      forall i: nat | i < r.numRu && i != ru && !r.syncing[i] && !(r.isSlave[i] && WaitsOn(r.waitCnt[i], tti))
        ensures i in r.arrived[tti]
      {
        assert i in bits;
      }
    }
  }

  // ---- All RUs running: every interleaving of arrivals ----

  datatype Wake = Wake(subframe: nat, ru: nat)

  /** `next[i]` is the absolute subframe RU i arrives at next; `wakes` is the history of wake-ups. */
  datatype State = State(next: seq<nat>, masks: seq<nat>, wakes: seq<Wake>)

  function Init(numRu: nat): State {
    State(seq(numRu, _ => 0), seq(SUBFRAMES, _ => 0), [])
  }

  /** An RU may reach a subframe only after all others have passed the one ten before it. */
  ghost predicate Enabled(s: State, ru: nat) {
    ru < |s.next| && forall j :: 0 <= j < |s.next| ==> s.next[j] > s.next[ru] - SUBFRAMES
  }

  function Arrive(s: State, ru: nat): State
    requires ru < |s.next| && |s.masks| == SUBFRAMES
  {
    var m := s.next[ru];
    var word := OrBit(s.masks[m % SUBFRAMES], ru);
    var s1 := s.(next := s.next[ru := m + 1]);
    if word == Pow2(|s.next|) - 1 then
      s1.(masks := s.masks[m % SUBFRAMES := 0], wakes := s.wakes + [Wake(m, ru)])
    else s1.(masks := s.masks[m % SUBFRAMES := word])
  }

  /** With no RU waiting or synchronizing, the call does to the words what an arrival does, and wakes L1 with it. */
  lemma RunningCallIsArrival(r: Rendezvous, s: State, ru: nat)
    requires r.Valid() && ru < r.numRu && s.masks == r.masks && |s.next| == r.numRu
    requires forall i :: 0 <= i < r.numRu ==> r.waitCnt[i] == 0 && !r.syncing[i]
    ensures var (tti, s') := (s.next[ru] % SUBFRAMES, Arrive(s, ru));
            var bits := r.arrived[tti] + r.Contribution(ru, tti);
            && r.NewWait(ru, tti) == 0
            && s'.masks == s.masks[tti := if AllBelow(bits, r.numRu) then 0 else Word(bits, r.numRu)]
            && s'.wakes == if AllBelow(bits, r.numRu) then s.wakes + [Wake(s.next[ru], ru)] else s.wakes
  {
    var tti := s.next[ru] % SUBFRAMES;
    assert r.Contribution(ru, tti) == {ru};
    OrBitWord(r.arrived[tti], r.numRu, ru);
    FullWordIff(r.arrived[tti] + {ru}, r.numRu);
  }

  /** RUs that have arrived at absolute subframe m. */
  ghost function ArrivedAt(s: State, m: nat): set<nat> {
    set i: nat | i < |s.next| && s.next[i] > m
  }

  ghost predicate Inv(s: State) {
    var w := |s.wakes|;
    && |s.masks| == SUBFRAMES
    && (forall i :: 0 <= i < |s.next| ==> w <= s.next[i] <= w + SUBFRAMES)
    && (exists i :: 0 <= i < |s.next| && s.next[i] == w)
    && (forall m: nat :: w <= m < w + SUBFRAMES ==> s.masks[m % SUBFRAMES] == Word(ArrivedAt(s, m), |s.next|))
    && (forall k :: 0 <= k < w ==> s.wakes[k].subframe == k)
  }

  lemma InitInv(numRu: nat)
    requires numRu > 0
    ensures Inv(Init(numRu))
  {
    var s := Init(numRu);
    EmptyWord(numRu);
    assert s.next[0] == 0;
    forall m: nat ensures Word(ArrivedAt(s, m), numRu) == 0 {
      assert ArrivedAt(s, m) == {};
    }
  }

  /** The word an arrival makes is the set of RUs that have then arrived at its subframe. */
  lemma ArrivalWord(s: State, ru: nat)
    requires Inv(s) && Enabled(s, ru)
    ensures var m := s.next[ru];
            && |s.wakes| <= m < |s.wakes| + SUBFRAMES
            && OrBit(s.masks[m % SUBFRAMES], ru) == Word(ArrivedAt(Arrive(s, ru), m), |s.next|)
  {
    var m := s.next[ru];
    OrBitWord(ArrivedAt(s, m), |s.next|, ru);
    assert ArrivedAt(Arrive(s, ru), m) == ArrivedAt(s, m) + {ru};
  }

  /** L1 is woken by the last RU to arrive, for the oldest subframe still open. */
  ghost predicate WakesWithLast(s: State, ru: nat, s': State)
    requires ru < |s.next| && |s'.next| == |s.next|
  {
    var m := s.next[ru];
    if forall j :: 0 <= j < |s'.next| ==> s'.next[j] > m then
      m == |s.wakes| && s'.wakes == s.wakes + [Wake(m, ru)]
    else s'.wakes == s.wakes
  }

  lemma OtherSubframes(s: State, ru: nat, m: nat)
    requires Inv(s) && Enabled(s, ru) && m != s.next[ru]
    requires |s.wakes| <= m < |s.wakes| + SUBFRAMES
    ensures Arrive(s, ru).masks[m % SUBFRAMES] == Word(ArrivedAt(Arrive(s, ru), m), |s.next|)
  {
    ArrivalWord(s, ru);
    if m % SUBFRAMES == s.next[ru] % SUBFRAMES {
      CloseResidues(m, s.next[ru], SUBFRAMES);
    }
    WordExtensional(ArrivedAt(s, m), ArrivedAt(Arrive(s, ru), m), |s.next|);
  }

  lemma ArriveKeepsInv(s: State, ru: nat)
    requires Inv(s) && Enabled(s, ru)
    ensures Inv(Arrive(s, ru)) && WakesWithLast(s, ru, Arrive(s, ru))
  {
    var s', m, w := Arrive(s, ru), s.next[ru], |s.wakes|;
    ArrivalWord(s, ru);
    FullWordIff(ArrivedAt(s', m), |s.next|);
    var full := AllBelow(ArrivedAt(s', m), |s.next|);
    var i :| 0 <= i < |s.next| && s.next[i] == w;
    if full {
      assert m == w by {
        assert i in ArrivedAt(s', m);
      }
      forall j: nat | j < |s'.next| ensures s'.next[j] > m {
        assert j in ArrivedAt(s', m);
      }
      assert s'.next[ru] == w + 1;
    } else {
      var j: nat :| j < |s.next| && j !in ArrivedAt(s', m);
      assert s'.next[j] <= m;
      assert s'.next[if m == w then j else i] == w;
    }
    forall k: nat | |s'.wakes| <= k < |s'.wakes| + SUBFRAMES
      ensures s'.masks[k % SUBFRAMES] == Word(ArrivedAt(s', k), |s'.next|)
    {
      if full && k == w + SUBFRAMES {
        AddMultiple(w, SUBFRAMES, 1);
        assert ArrivedAt(s', k) == {};
        EmptyWord(|s.next|);
      } else if k != m {
        OtherSubframes(s, ru, k);
      }
    }
  }

  ghost predicate Run(numRu: nat, states: seq<State>, arrivals: seq<nat>) {
    && |states| == |arrivals| + 1
    && states[0] == Init(numRu)
    && forall i :: 0 <= i < |arrivals| ==>
         |states[i].masks| == SUBFRAMES && Enabled(states[i], arrivals[i]) && states[i + 1] == Arrive(states[i], arrivals[i])
  }

  /** In every interleaving the words are the arrivals per absolute subframe, and wake-ups are 0, 1, 2, ... once each. */
  lemma {:induction false} RunInv(numRu: nat, states: seq<State>, arrivals: seq<nat>, i: nat)
    requires numRu > 0 && Run(numRu, states, arrivals) && i < |states|
    ensures Inv(states[i]) && |states[i].next| == numRu
  {
    if i == 0 {
      InitInv(numRu);
    } else {
      RunInv(numRu, states, arrivals, i - 1);
      ArriveKeepsInv(states[i - 1], arrivals[i - 1]);
    }
  }

  lemma WokenByLastArriver(numRu: nat, states: seq<State>, arrivals: seq<nat>, i: nat)
    requires numRu > 0 && Run(numRu, states, arrivals) && i < |arrivals|
    ensures arrivals[i] < |states[i].next| == |states[i + 1].next|
    ensures WakesWithLast(states[i], arrivals[i], states[i + 1])
  {
    RunInv(numRu, states, arrivals, i);
    ArriveKeepsInv(states[i], arrivals[i]);
  }
}
