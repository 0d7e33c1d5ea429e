/**
  Which radio unit each NR UE uses (executables/nr-ue-ru.c and the assignment loops of `main` in
  executables/nr-uesoftmodem.c), one carrier per UE. RUs map to cells, cells to UEs and UEs to
  their RU card; -1 means unused.
*/
module UeRu {
  import opened Options

  datatype Carrier = Carrier(dl: nat, ul: nat)

  /** `ruCell[ru]`, `cellUe[cell]` and `card[ue]` are `used_by_cell`, `used_by_ue` and `rf_map.card`. */
  datatype Ownership = Ownership(ruCell: seq<int>, cellUe: seq<int>, card: seq<nat>)

  /** The mapping is consistent in both directions; hence UE to cell is injective. */
  ghost predicate Owned(o: Ownership) {
    && (forall r :: 0 <= r < |o.ruCell| ==> -1 <= o.ruCell[r] < |o.cellUe|)
    && (forall r, q :: 0 <= r < q < |o.ruCell| && o.ruCell[r] >= 0 ==> o.ruCell[r] != o.ruCell[q])
    && (forall c :: 0 <= c < |o.cellUe| ==> -1 <= o.cellUe[c] < |o.card|)
    && (forall u :: 0 <= u < |o.card| ==>
          o.card[u] < |o.ruCell| && o.ruCell[o.card[u]] >= 0 && o.cellUe[o.ruCell[o.card[u]]] == u)
    && (forall c :: 0 <= c < |o.cellUe| && o.cellUe[c] >= 0 ==> o.ruCell[o.card[o.cellUe[c]]] == c)
  }

  /** The table accesses of the radio layer are in range, and no UE's own RU is free. */
  lemma OwnedRanges(o: Ownership)
    requires Owned(o)
    ensures forall r :: 0 <= r < |o.ruCell| ==> -1 <= o.ruCell[r] < |o.cellUe|
    ensures forall u :: 0 <= u < |o.card| ==> HasCell(o, o.card[u]) && !Free(o, o.card[u])
  {
  }

  predicate HasCell(o: Ownership, ru: nat) {
    ru < |o.ruCell| && 0 <= o.ruCell[ru] < |o.cellUe|
  }

  /** An RU with a cell that no UE uses. */
  predicate Free(o: Ownership, ru: nat) {
    HasCell(o, ru) && o.cellUe[o.ruCell[ru]] < 0
  }

  // ---- Setup ----

  datatype SetupError = InvalidRu(cell: nat) | RuAlreadyUsed(cell: nat) | NotEnoughCells(ue: nat)

  ghost predicate DistinctRus(cellRu: seq<int>, ruCount: nat) {
    && (forall c :: 0 <= c < |cellRu| ==> 0 <= cellRu[c] < ruCount)
    && (forall c, d :: 0 <= c < d < |cellRu| ==> cellRu[c] != cellRu[d])
  }

  /** `ruCell` is the inverse of the configured RU of each cell. */
  ghost predicate Inverse(cellRu: seq<int>, ruCell: seq<int>, cells: nat)
    requires cells <= |cellRu|
  {
    && (forall c :: 0 <= c < cells ==> 0 <= cellRu[c] < |ruCell| && ruCell[cellRu[c]] == c)
    && (forall q :: 0 <= q < |ruCell| ==> -1 <= ruCell[q] < cells && (ruCell[q] >= 0 ==> cellRu[ruCell[q]] == q))
  }

  /** The first cell whose RU does not exist, or is one that an earlier cell has. */
  ghost predicate FailsAt(cellRu: seq<int>, ruCount: nat, error: SetupError) {
    match error
    case InvalidRu(c) =>
      c < |cellRu| && DistinctRus(cellRu[..c], ruCount) && !(0 <= cellRu[c] < ruCount)
    case RuAlreadyUsed(c) =>
      c < |cellRu| && DistinctRus(cellRu[..c], ruCount) && exists d :: 0 <= d < c && cellRu[d] == cellRu[c]
    case NotEnoughCells(_) => false
  }

  /** First loop: every cell claims the RU configured for it. */
  method AssignRus(cellRu: seq<int>, ruCount: nat) returns (r: Result<seq<int>, SetupError>)
    ensures r.Ok? <==> DistinctRus(cellRu, ruCount)
    ensures r.Ok? ==> |r.value| == ruCount && Inverse(cellRu, r.value, |cellRu|)
    ensures r.Err? ==> FailsAt(cellRu, ruCount, r.error)
  {
    var ruCell := seq(ruCount, _ => -1);
    var cell := 0;
    while cell < |cellRu|
      invariant 0 <= cell <= |cellRu| && |ruCell| == ruCount
      invariant Inverse(cellRu, ruCell, cell)
    {
      var ru := cellRu[cell];
      if !(0 <= ru < ruCount) {
        return Err(InvalidRu(cell));
      }
      if ruCell[ru] != -1 {
        assert cellRu[ruCell[ru]] == cellRu[cell];
        return Err(RuAlreadyUsed(cell));
      }
      ruCell := ruCell[ru := cell];
      cell := cell + 1;
    }
    r := Ok(ruCell);
  }

  /** Ownership after setup: UE u uses cell u. */
  ghost predicate OwnCell(o: Ownership, cellRu: seq<int>) {
    && |o.cellUe| == |cellRu| && |o.card| <= |cellRu|
    && (forall c :: 0 <= c < |cellRu| ==> o.cellUe[c] == if c < |o.card| then c else -1)
    && (forall u :: 0 <= u < |o.card| ==> o.card[u] == cellRu[u])
  }

  lemma SetupOwned(o: Ownership, cellRu: seq<int>)
    requires OwnCell(o, cellRu) && Inverse(cellRu, o.ruCell, |cellRu|)
    ensures Owned(o)
  {
  }

  /**
    Give every cell its configured RU, then every UE a cell of its own. It succeeds exactly when
    the configured RUs exist and are distinct and there is a cell for every UE.
  */
  method Setup(cellRu: seq<int>, ruCount: nat, ueCount: nat) returns (r: Result<Ownership, SetupError>)
    ensures r.Ok? <==> DistinctRus(cellRu, ruCount) && ueCount <= |cellRu|
    ensures r.Ok? ==>
              && Owned(r.value) && |r.value.ruCell| == ruCount && |r.value.card| == ueCount
              && OwnCell(r.value, cellRu) && Inverse(cellRu, r.value.ruCell, |cellRu|)
    ensures r.Err? ==>
              if DistinctRus(cellRu, ruCount) then r.error == NotEnoughCells(|cellRu|)
              else FailsAt(cellRu, ruCount, r.error)
  {
    var rus := AssignRus(cellRu, ruCount);
    if rus.Err? {
      return Err(rus.error);
    }
    assert forall c :: 0 <= c < |cellRu| ==> cellRu[c] >= 0;
    hide Owned, Inverse, DistinctRus, FailsAt;
    var cellUe := seq(|cellRu|, _ => -1);
    var card: seq<nat> := [];
    var ue := 0;
    while ue < ueCount
      invariant 0 <= ue <= ueCount && ue == |card|
      invariant OwnCell(Ownership(rus.value, cellUe, card), cellRu)
    {
      if ue >= |cellRu| {
        return Err(NotEnoughCells(ue));
      }
      cellUe := cellUe[ue := ue];
      card := card + [cellRu[ue]];
      ue := ue + 1;
    }
    r := Ok(Ownership(rus.value, cellUe, card));
    SetupOwned(r.value, cellRu);
  }

  // ---- Retuning ----

  function Distance(a: nat, b: nat): nat {
    if a > b then a - b else b - a
  }

  function CarrierDistance(f: Carrier, dl: nat, ul: nat): nat {
    Distance(f.dl, dl) + Distance(f.ul, ul)
  }

  /** The distance is how far one frequency must move to become the other. */
  lemma DistanceIff(a: nat, b: nat, k: nat)
    ensures Distance(a, b) == k <==> a == b + k || b == a + k
    ensures Distance(a, b) == Distance(b, a)
  {
  }

  /** Downlink and uplink each add what they are off; only the requested carriers are at no distance. */
  lemma CarrierDistanceIs(f: Carrier, dl: nat, ul: nat, x: nat, y: nat)
    ensures (f.dl == dl + x || dl == f.dl + x) && (f.ul == ul + y || ul == f.ul + y)
            ==> CarrierDistance(f, dl, ul) == x + y
    ensures CarrierDistance(f, dl, ul) == 0 <==> f == Carrier(dl, ul)
  {
    DistanceIff(f.dl, dl, x);
    DistanceIff(f.ul, ul, y);
  }

  /** Carriers are configured per cell. */
  ghost predicate CarriersFit(o: Ownership, carriers: seq<Carrier>) {
    |carriers| == |o.cellUe|
  }

  function RuDistance(o: Ownership, carriers: seq<Carrier>, ru: nat, dl: nat, ul: nat): nat
    requires |carriers| == |o.cellUe| && HasCell(o, ru)
  {
    CarrierDistance(carriers[o.ruCell[ru]], dl, ul)
  }

  ghost predicate Candidate(o: Ownership, ue: nat, ru: nat)
    requires ue < |o.card|
  {
    HasCell(o, ru) && (ru == o.card[ue] || Free(o, ru))
  }

  /** The nearest candidate; the current RU wins a tie, then the lowest index. */
  ghost predicate IsPick(o: Ownership, carriers: seq<Carrier>, ue: nat, dl: nat, ul: nat, pick: nat)
    requires Owned(o) && CarriersFit(o, carriers) && ue < |o.card|
  {
    && Candidate(o, ue, pick)
    && forall ru: nat :: Candidate(o, ue, ru) && ru != pick ==>
         var mine, other := RuDistance(o, carriers, pick, dl, ul), RuDistance(o, carriers, ru, dl, ul);
         mine < other || (mine == other && ru != o.card[ue] && (pick == o.card[ue] || pick < ru))
  }

  lemma PickUnique(o: Ownership, carriers: seq<Carrier>, ue: nat, dl: nat, ul: nat, p: nat, q: nat)
    requires Owned(o) && CarriersFit(o, carriers) && ue < |o.card|
    requires IsPick(o, carriers, ue, dl, ul, p) && IsPick(o, carriers, ue, dl, ul, q)
    ensures p == q
  {
  }

  /** No candidate is nearer than the pick; and if some candidate has the requested carriers, the pick has them. */
  lemma PickNearest(o: Ownership, carriers: seq<Carrier>, ue: nat, dl: nat, ul: nat, pick: nat, ru: nat)
    requires Owned(o) && CarriersFit(o, carriers) && ue < |o.card|
    requires IsPick(o, carriers, ue, dl, ul, pick) && Candidate(o, ue, ru)
    ensures CarrierDistance(carriers[o.ruCell[pick]], dl, ul) <= CarrierDistance(carriers[o.ruCell[ru]], dl, ul)
    ensures carriers[o.ruCell[ru]] == Carrier(dl, ul) ==> carriers[o.ruCell[pick]] == Carrier(dl, ul)
  {
    CarrierDistanceIs(carriers[o.ruCell[ru]], dl, ul, 0, 0);
    CarrierDistanceIs(carriers[o.ruCell[pick]], dl, ul, 0, 0);
    hide CarrierDistance, Owned;
  }

  /** The UE leaves its cell and takes the one of `pick`. */
  function Move(o: Ownership, ue: nat, pick: nat): Ownership
    requires ue < |o.card| && HasCell(o, o.card[ue]) && HasCell(o, pick)
  {
    Ownership(o.ruCell, o.cellUe[o.ruCell[o.card[ue]] := -1][o.ruCell[pick] := ue], o.card[ue := pick])
  }

  lemma MoveKeepsOwned(o: Ownership, ue: nat, pick: nat)
    requires Owned(o) && ue < |o.card| && Candidate(o, ue, pick)
    ensures Owned(Move(o, ue, pick))
  {
  }

  // ---- Who drives which RU ----

  /** RUs that one call reads or writes: the own card, and for UE 0 also all free ones. */
  function FreeRus(o: Ownership, count: nat): seq<nat> {
    if count == 0 then []
    else FreeRus(o, count - 1) + if Free(o, count - 1) then [count - 1] else []
  }

  function Driven(o: Ownership, ue: nat): seq<nat>
    requires ue < |o.card|
  {
    [o.card[ue]] + if ue == 0 then FreeRus(o, |o.ruCell|) else []
  }

  /** All RUs driven when UEs 0 .. count - 1 each make one call. */
  function Round(o: Ownership, count: nat): seq<nat>
    requires count <= |o.card|
  {
    if count == 0 then [] else Round(o, count - 1) + Driven(o, count - 1)
  }

  function Occurrences(rus: seq<nat>, ru: nat): nat {
    if rus == [] then 0 else (if rus[0] == ru then 1 else 0) + Occurrences(rus[1..], ru)
  }

  lemma {:induction false} OccurrencesConcat(a: seq<nat>, b: seq<nat>, ru: nat)
    ensures Occurrences(a + b, ru) == Occurrences(a, ru) + Occurrences(b, ru)
  {
    if a == [] {
      assert a + b == b;
    } else {
      OccurrencesConcat(a[1..], b, ru);
      assert (a + b)[1..] == a[1..] + b;
    }
  }

  lemma {:induction false} FreeRusCount(o: Ownership, count: nat, ru: nat)
    ensures Occurrences(FreeRus(o, count), ru) == if ru < count && Free(o, ru) then 1 else 0
  {
    if count > 0 {
      FreeRusCount(o, count - 1, ru);
      OccurrencesConcat(FreeRus(o, count - 1), if Free(o, count - 1) then [count - 1] else [], ru);
    }
  }

  lemma CardIff(o: Ownership, u: nat, ru: nat)
    requires Owned(o) && u < |o.card| && ru < |o.ruCell|
    ensures o.card[u] == ru <==> HasCell(o, ru) && o.cellUe[o.ruCell[ru]] == u
  {
    if HasCell(o, ru) && o.cellUe[o.ruCell[ru]] == u {
      assert o.ruCell[o.card[u]] == o.ruCell[ru];
    }
  }

  lemma NoOccurrence(ru: nat)
    ensures Occurrences([], ru) == 0
  {
  }

  /** How often one UE drives a given RU in one call. */
  lemma DrivenCount(o: Ownership, u: nat, ru: nat)
    requires Owned(o) && u < |o.card| && ru < |o.ruCell|
    ensures Occurrences(Driven(o, u), ru)
         == if HasCell(o, ru) && (o.cellUe[o.ruCell[ru]] == u || (u == 0 && Free(o, ru))) then 1 else 0
  {
    hide Owned, FreeRus;
    FreeRusCount(o, |o.ruCell|, ru);
    CardIff(o, u, ru);
    OccurrencesConcat([o.card[u]], if u == 0 then FreeRus(o, |o.ruCell|) else [], ru);
  }

  lemma {:induction false} RoundCount(o: Ownership, count: nat, ru: nat)
    requires Owned(o) && count <= |o.card| && ru < |o.ruCell|
    ensures Occurrences(Round(o, count), ru)
         == if count == 0 || !HasCell(o, ru) then 0
            else if Free(o, ru) then 1
            else if o.cellUe[o.ruCell[ru]] < count then 1 else 0
  {
    hide Owned, FreeRus, Occurrences, Driven;
    if count == 0 {
      NoOccurrence(ru);
    } else {
      var u := count - 1;
      RoundCount(o, u, ru);
      DrivenCount(o, u, ru);
      OccurrencesConcat(Round(o, u), Driven(o, u), ru);
    }
  }

  /** In one round every RU with a cell is driven by exactly one UE, and no other RU is driven. */
  lemma EveryRuDrivenOnce(o: Ownership, ru: nat)
    requires Owned(o) && |o.card| > 0 && ru < |o.ruCell|
    ensures Occurrences(Round(o, |o.card|), ru) == if HasCell(o, ru) then 1 else 0
  {
    RoundCount(o, |o.card|, ru);
  }

  /** In one round of all UEs, each RU with a cell is driven once and no other. */
  ghost predicate DrivenOnce(o: Ownership) {
    forall ru: nat :: ru < |o.ruCell| ==> Occurrences(Round(o, |o.card|), ru) == if HasCell(o, ru) then 1 else 0
  }

  // ---- Reachable states ----

  datatype Retune = Retune(ue: nat, dl: nat, ul: nat)

  ghost predicate RetuneStep(o: Ownership, carriers: seq<Carrier>, e: Retune, o': Ownership)
    requires Owned(o) && CarriersFit(o, carriers)
  {
    && e.ue < |o.card|
    && exists pick :: IsPick(o, carriers, e.ue, e.dl, e.ul, pick) && o' == Move(o, e.ue, pick)
  }

  ghost predicate RetuneRun(states: seq<Ownership>, carriers: seq<Carrier>, events: seq<Retune>) {
    && |states| == |events| + 1
    && Owned(states[0]) && CarriersFit(states[0], carriers)
    && forall i :: 0 <= i < |events| ==>
         Owned(states[i]) && CarriersFit(states[i], carriers) ==>
           RetuneStep(states[i], carriers, events[i], states[i + 1])
  }

  lemma RetuneStepOwned(o: Ownership, carriers: seq<Carrier>, e: Retune, o': Ownership)
    requires Owned(o) && CarriersFit(o, carriers) && RetuneStep(o, carriers, e, o')
    ensures Owned(o') && CarriersFit(o', carriers) && |o'.card| == |o.card| && o'.ruCell == o.ruCell
  {
    var pick :| IsPick(o, carriers, e.ue, e.dl, e.ul, pick) && o' == Move(o, e.ue, pick);
    MoveKeepsOwned(o, e.ue, pick);
    hide Owned, IsPick;
  }

  /** No two UEs are on the same cell. */
  ghost predicate OwnCells(o: Ownership)
    requires Owned(o)
  {
    forall u, v :: 0 <= u < v < |o.card| ==> o.ruCell[o.card[u]] != o.ruCell[o.card[v]]
  }

  lemma OwnedDriven(o: Ownership)
    requires Owned(o)
    ensures OwnCells(o) && (|o.card| > 0 ==> DrivenOnce(o))
  {
    if |o.card| > 0 {
      forall ru: nat | ru < |o.ruCell|
        ensures Occurrences(Round(o, |o.card|), ru) == if HasCell(o, ru) then 1 else 0
      {
        EveryRuDrivenOnce(o, ru);
      }
    }
    hide Round, Occurrences;
  }

  /** After any sequence of retunings ownership is consistent and every RU with a cell has one driver. */
  lemma {:induction false} RetuneRunOwned(states: seq<Ownership>, carriers: seq<Carrier>, events: seq<Retune>, i: nat)
    requires RetuneRun(states, carriers, events) && i < |states|
    ensures Owned(states[i]) && CarriersFit(states[i], carriers)
    ensures |states[i].card| == |states[0].card| && states[i].ruCell == states[0].ruCell
    ensures OwnCells(states[i]) && (|states[i].card| > 0 ==> DrivenOnce(states[i]))
  {
    hide Owned, CarriersFit, RetuneStep, OwnCells, DrivenOnce;
    if i > 0 {
      RetuneRunOwned(states, carriers, events, i - 1);
      RetuneStepOwned(states[i - 1], carriers, events[i - 1], states[i]);
    }
    OwnedDriven(states[i]);
  }

  // ---- Devices ----

  /** `position` is the device timestamp of the next sample. */
  datatype Device = Device(position: int, firstTs: int, initialized: bool)

  function ReadDevice(d: Device, samples: nat): Device {
    Device(d.position + samples, if d.initialized then d.firstTs else d.position, true)
  }

  predicate Drives(o: Ownership, ue: nat, ru: nat)
    requires ue < |o.card|
  {
    ru == o.card[ue] || (ue == 0 && Free(o, ru))
  }

  /** The RUs a call moves are those of the round, each once. */
  lemma DrivesIff(o: Ownership, ue: nat, ru: nat)
    requires Owned(o) && ue < |o.card| && ru < |o.ruCell|
    ensures Occurrences(Driven(o, ue), ru) == if Drives(o, ue, ru) then 1 else 0
  {
    DrivenCount(o, ue, ru);
    CardIff(o, ue, ru);
    hide Owned, Occurrences, Driven;
  }

  /** Devices after a read by `ue`: exactly the RUs it drives have moved. */
  ghost predicate ReadBy(o: Ownership, ue: nat, samples: nat, before: seq<Device>, after: seq<Device>)
    requires ue < |o.card|
  {
    && |after| == |before|
    && forall ru: nat :: ru < |before| ==>
         after[ru] == if Drives(o, ue, ru) then ReadDevice(before[ru], samples) else before[ru]
  }

  datatype DeviceWrite = DeviceWrite(ru: nat, timestamp: int)

  function WritesFor(rus: seq<nat>, timestamp: int, devices: seq<Device>): seq<DeviceWrite>
    requires forall k :: 0 <= k < |rus| ==> rus[k] < |devices|
  {
    seq(|rus|, k requires 0 <= k < |rus| => DeviceWrite(rus[k], timestamp + devices[rus[k]].firstTs))
  }

  /** The global tables of the UE radio layer, updated in place. */
  class UeRadio {
    const carriers: seq<Carrier>
    const ruCell: seq<int>
    var cellUe: seq<int>
    var card: seq<nat>
    var devices: seq<Device>

    ghost function View(): Ownership
      reads this
    {
      Ownership(ruCell, cellUe, card)
    }

    ghost predicate Valid()
      reads this
    {
      Owned(View()) && CarriersFit(View(), carriers) && |devices| == |ruCell|
    }

    constructor (o: Ownership, carriers: seq<Carrier>, devices: seq<Device>)
      requires Owned(o) && CarriersFit(o, carriers) && |devices| == |o.ruCell|
      ensures Valid() && View() == o && this.carriers == carriers && this.devices == devices
    {
      this.carriers, this.ruCell, this.cellUe, this.card, this.devices :=
        carriers, o.ruCell, o.cellUe, o.card, devices;
    }

    /** `nrue_ru_set_freq`: move the UE to the nearest RU among its own and the free ones. */
    method SetFreq(ue: nat, dl: nat, ul: nat)
      requires Valid() && ue < |card|
      modifies this`cellUe, this`card
      ensures Valid()
      ensures ue < |card| && IsPick(old(View()), carriers, ue, dl, ul, card[ue])
      ensures View() == Move(old(View()), ue, card[ue])
      ensures (exists ru: nat :: Candidate(old(View()), ue, ru) && carriers[ruCell[ru]] == Carrier(dl, ul)) ==>
                carriers[ruCell[card[ue]]] == Carrier(dl, ul)
    {
      hide PickBelow, IsPick, Owned, CarrierDistance;
      OwnedRanges(View());
      var current := card[ue];
      var pick: nat := current;
      PickBelowStart(View(), carriers, ue, dl, ul);
      var distance := CarrierDistance(carriers[ruCell[current]], dl, ul);
      var ru: nat := 0;
      while distance != 0 && ru < |ruCell|
        invariant 0 <= ru <= |ruCell| && cellUe == old(cellUe) && card == old(card)
        invariant Candidate(View(), ue, pick) && distance == RuDistance(View(), carriers, pick, dl, ul)
        invariant PickBelow(View(), carriers, ue, dl, ul, pick, ru)
      {
        PickBelowStep(View(), carriers, ue, dl, ul, pick, ru);
        var cell := ruCell[ru];
        if cell >= 0 && cellUe[cell] < 0 {
          var thisDistance := CarrierDistance(carriers[cell], dl, ul);
          if thisDistance < distance {
            pick := ru;
            distance := thisDistance;
          }
        }
        ru := ru + 1;
      }
      PickBelowIsPick(View(), carriers, ue, dl, ul, pick, ru);
      if q: nat :| Candidate(View(), ue, q) && carriers[ruCell[q]] == Carrier(dl, ul) {
        PickNearest(View(), carriers, ue, dl, ul, pick, q);
      }
      MoveKeepsOwned(View(), ue, pick);
      cellUe := cellUe[ruCell[current] := -1];
      cellUe := cellUe[ruCell[pick] := ue];
      card := card[ue := pick];
    }

    /** `nrue_ru_read`: read the own RU and, for UE 0, let all free RUs run along. */
    method Read(ue: nat, samples: nat) returns (timestamp: int)
      requires Valid() && ue < |card|
      modifies this`devices
      ensures Valid() && ReadBy(View(), ue, samples, old(devices), devices)
      ensures timestamp == old(devices)[card[ue]].position - devices[card[ue]].firstTs
    {
      hide Owned;
      OwnedRanges(View());
      var own := card[ue];
      ghost var before := devices;
      timestamp := devices[own].position;
      devices := devices[own := ReadDevice(devices[own], samples)];
      timestamp := timestamp - devices[own].firstTs;
      if ue != 0 {
        return;
      }
      var ru := 0;
      while ru < |ruCell|
        invariant 0 <= ru <= |ruCell| && |devices| == |before|
        invariant timestamp == before[own].position - devices[own].firstTs
        invariant forall q: nat :: q < |before| ==>
                    devices[q] == if q == own || (q < ru && Free(View(), q)) then ReadDevice(before[q], samples)
                                  else before[q]
      {
        var cell := ruCell[ru];
        if cell >= 0 && cellUe[cell] < 0 {
          devices := devices[ru := ReadDevice(devices[ru], samples)];
        }
        ru := ru + 1;
      }
    }

    /** `nrue_ru_write`: the writes go to the RUs that a read would move, in the same order. */
    method Write(ue: nat, timestamp: int) returns (writes: seq<DeviceWrite>)
      requires Valid() && ue < |card|
      ensures forall k :: 0 <= k < |Driven(View(), ue)| ==> Driven(View(), ue)[k] < |devices|
      ensures writes == WritesFor(Driven(View(), ue), timestamp, devices)
    {
      hide Owned, FreeRus, WritesFor;
      OwnedRanges(View());
      FreeRusInRange(View(), |ruCell|);
      NoFreeRus(View());
      OneWrite(card[ue], timestamp, devices);
      assert [card[ue]] + [] == [card[ue]];
      writes := [DeviceWrite(card[ue], timestamp + devices[card[ue]].firstTs)];
      if ue != 0 {
        return;
      }
      var ru := 0;
      while ru < |ruCell|
        invariant 0 <= ru <= |ruCell|
        invariant forall k :: 0 <= k < |FreeRus(View(), ru)| ==> FreeRus(View(), ru)[k] < |devices|
        invariant writes == WritesFor([card[ue]] + FreeRus(View(), ru), timestamp, devices)
      {
        FreeRusNext(View(), ru);
        WritesAppend([card[ue]] + FreeRus(View(), ru), ru, timestamp, devices);
        assert [card[ue]] + (FreeRus(View(), ru) + [ru]) == [card[ue]] + FreeRus(View(), ru) + [ru];
        var cell := ruCell[ru];
        if cell >= 0 && cellUe[cell] < 0 {
          writes := writes + [DeviceWrite(ru, timestamp + devices[ru].firstTs)];
        }
        ru := ru + 1;
      }
    }
  }

  lemma NoFreeRus(o: Ownership)
    ensures FreeRus(o, 0) == []
  {
  }

  lemma FreeRusNext(o: Ownership, count: nat)
    ensures FreeRus(o, count + 1) == if Free(o, count) then FreeRus(o, count) + [count] else FreeRus(o, count)
  {
  }

  lemma OneWrite(ru: nat, timestamp: int, devices: seq<Device>)
    requires ru < |devices|
    ensures WritesFor([ru], timestamp, devices) == [DeviceWrite(ru, timestamp + devices[ru].firstTs)]
  {
  }

  lemma WritesAppend(rus: seq<nat>, ru: nat, timestamp: int, devices: seq<Device>)
    requires ru < |devices| && forall k :: 0 <= k < |rus| ==> rus[k] < |devices|
    ensures WritesFor(rus + [ru], timestamp, devices)
         == WritesFor(rus, timestamp, devices) + [DeviceWrite(ru, timestamp + devices[ru].firstTs)]
  {
  }

  lemma {:induction false} FreeRusInRange(o: Ownership, count: nat)
    ensures forall k :: 0 <= k < |FreeRus(o, count)| ==> FreeRus(o, count)[k] < |o.ruCell|
  {
    if count > 0 {
      FreeRusInRange(o, count - 1);
    }
  }

  /** Best choice among the current RU and the free RUs below `limit`. */
  ghost predicate PickBelow(o: Ownership, carriers: seq<Carrier>, ue: nat, dl: nat, ul: nat, pick: nat, limit: nat)
    requires Owned(o) && CarriersFit(o, carriers) && ue < |o.card| && Candidate(o, ue, pick)
  {
    && (pick == o.card[ue] || pick < limit)
    && forall ru: nat :: Candidate(o, ue, ru) && ru != pick && (ru == o.card[ue] || ru < limit) ==>
         var mine, other := RuDistance(o, carriers, pick, dl, ul), RuDistance(o, carriers, ru, dl, ul);
         mine < other || (mine == other && ru != o.card[ue] && (pick == o.card[ue] || pick < ru))
  }

  lemma PickBelowStart(o: Ownership, carriers: seq<Carrier>, ue: nat, dl: nat, ul: nat)
    requires Owned(o) && CarriersFit(o, carriers) && ue < |o.card|
    ensures Candidate(o, ue, o.card[ue]) && PickBelow(o, carriers, ue, dl, ul, o.card[ue], 0)
  {
  }

  /** The loop body extends the choice by one RU. */
  lemma PickBelowStep(o: Ownership, carriers: seq<Carrier>, ue: nat, dl: nat, ul: nat, pick: nat, ru: nat)
    requires Owned(o) && CarriersFit(o, carriers) && ue < |o.card| && Candidate(o, ue, pick)
    requires PickBelow(o, carriers, ue, dl, ul, pick, ru) && ru < |o.ruCell|
    ensures var better := Free(o, ru) && RuDistance(o, carriers, ru, dl, ul) < RuDistance(o, carriers, pick, dl, ul);
            var pick' := if better then ru else pick;
            Candidate(o, ue, pick') && PickBelow(o, carriers, ue, dl, ul, pick', ru + 1)
  {
    hide Owned;
  }

  lemma PickBelowIsPick(o: Ownership, carriers: seq<Carrier>, ue: nat, dl: nat, ul: nat, pick: nat, limit: nat)
    requires Owned(o) && CarriersFit(o, carriers) && ue < |o.card| && Candidate(o, ue, pick)
    requires PickBelow(o, carriers, ue, dl, ul, pick, limit)
    requires limit == |o.ruCell| || RuDistance(o, carriers, pick, dl, ul) == 0
    ensures IsPick(o, carriers, ue, dl, ul, pick)
  {
  }

  // ---- One UE: one clock for all RUs ----

  datatype Radio = Radio(own: Ownership, devices: seq<Device>)
  datatype Event = ReadSamples(samples: nat) | RetuneTo(dl: nat, ul: nat)

  /** All RUs with a cell have run for the same number of samples since their first one. */
  ghost predicate OneClock(r: Radio, started: bool, total: nat) {
    && Owned(r.own) && |r.own.card| == 1 && |r.devices| == |r.own.ruCell|
    && (!started ==> total == 0)
    && forall ru: nat :: HasCell(r.own, ru) ==>
         && r.devices[ru].initialized == started
         && (started ==> r.devices[ru].position - r.devices[ru].firstTs == total)
  }

  ghost predicate EventStep(r: Radio, carriers: seq<Carrier>, e: Event, r': Radio) {
    && Owned(r.own) && CarriersFit(r.own, carriers) && |r.own.card| == 1
    && match e
       case ReadSamples(n) => r'.own == r.own && ReadBy(r.own, 0, n, r.devices, r'.devices)
       case RetuneTo(dl, ul) => r'.devices == r.devices && RetuneStep(r.own, carriers, Retune(0, dl, ul), r'.own)
  }

  /** Samples read so far. */
  function Total(events: seq<Event>): nat {
    if events == [] then 0
    else
      var last := events[|events| - 1];
      Total(events[..|events| - 1]) + if last.ReadSamples? then last.samples else 0
  }

  ghost predicate EverRead(events: seq<Event>) {
    exists e :: e in events && e.ReadSamples?
  }

  lemma EventKeepsClock(r: Radio, carriers: seq<Carrier>, e: Event, r': Radio, started: bool, total: nat)
    requires OneClock(r, started, total) && EventStep(r, carriers, e, r')
    ensures OneClock(r', started || e.ReadSamples?, total + if e.ReadSamples? then e.samples else 0)
    ensures e.ReadSamples? ==>
              var own := r.own.card[0];
              r.devices[own].position - r'.devices[own].firstTs == total
  {
    match e
    case ReadSamples(n) =>
      forall ru: nat | HasCell(r.own, ru) ensures Drives(r.own, 0, ru) {
        if !Free(r.own, ru) {
          CardIff(r.own, 0, ru);
        }
      }
    case RetuneTo(dl, ul) =>
      var pick :| IsPick(r.own, carriers, 0, dl, ul, pick) && r'.own == Move(r.own, 0, pick);
      MoveKeepsOwned(r.own, 0, pick);
      assert forall ru: nat :: HasCell(r'.own, ru) <==> HasCell(r.own, ru);
  }

  ghost predicate ClockRun(states: seq<Radio>, carriers: seq<Carrier>, events: seq<Event>) {
    && |states| == |events| + 1
    && OneClock(states[0], false, 0)
    && forall i :: 0 <= i < |events| ==> EventStep(states[i], carriers, events[i], states[i + 1])
  }

  lemma NoEvents()
    ensures !EverRead([]) && Total([]) == 0
  {
  }

  lemma OneMoreEvent(events: seq<Event>, e: Event)
    ensures EverRead(events + [e]) <==> EverRead(events) || e.ReadSamples?
    ensures Total(events + [e]) == Total(events) + if e.ReadSamples? then e.samples else 0
  {
    assert forall d :: d in events + [e] <==> d in events || d == e;
    assert (events + [e])[..|events|] == events;
  }

  /** In every reachable state all RUs with a cell stand at the same time since their first sample. */
  lemma {:induction false} RusShareClock(states: seq<Radio>, carriers: seq<Carrier>, events: seq<Event>, i: nat)
    requires ClockRun(states, carriers, events) && i < |states|
    ensures OneClock(states[i], EverRead(events[..i]), Total(events[..i]))
  {
    hide OneClock, EventStep, EverRead, Total;
    if i > 0 {
      RusShareClock(states, carriers, events, i - 1);
      EventKeepsClock(states[i - 1], carriers, events[i - 1], states[i], EverRead(events[..i - 1]), Total(events[..i - 1]));
      assert events[..i] == events[..i - 1] + [events[i - 1]];
      OneMoreEvent(events[..i - 1], events[i - 1]);
    } else {
      NoEvents();
    }
  }

  /** The timestamp a read returns is the number of samples read before it, across any RU switches. */
  lemma ReadTimestampsContiguous(states: seq<Radio>, carriers: seq<Carrier>, events: seq<Event>, i: nat)
    requires ClockRun(states, carriers, events) && i < |events| && events[i].ReadSamples?
    ensures |states[i].own.card| == 1 && states[i].own.card[0] < |states[i].devices| == |states[i + 1].devices|
    ensures var own := states[i].own.card[0];
            states[i].devices[own].position - states[i + 1].devices[own].firstTs == Total(events[..i])
  {
    RusShareClock(states, carriers, events, i);
    EventKeepsClock(states[i], carriers, events[i], states[i + 1], EverRead(events[..i]), Total(events[..i]));
  }

  /** A write reaches every RU with a cell, once, at the same time since its first sample. */
  lemma WritesShareClock(r: Radio, total: nat, timestamp: int, ru: nat)
    requires OneClock(r, true, total) && HasCell(r.own, ru)
    ensures forall k :: 0 <= k < |Driven(r.own, 0)| ==> Driven(r.own, 0)[k] < |r.devices|
    ensures Occurrences(Driven(r.own, 0), ru) == 1
    ensures forall w :: w in WritesFor(Driven(r.own, 0), timestamp, r.devices) && w.ru == ru ==>
              w.timestamp - r.devices[ru].position == timestamp - total
  {
    FreeRusInRange(r.own, |r.own.ruCell|);
    EveryRuDrivenOnce(r.own, ru);
    assert Round(r.own, 1) == Driven(r.own, 0);
  }
}
