/**
 LatestSlot of lib/mailbox.py with one writer and any number of readers, as interleaved
 atomic steps.  A reader passes its own last sequence number to take_if_new and stores the
 number it gets back, as the overlays do (apps/hud/ui/infra/window_mgr.py); `take` is the
 unconditional read a shown overlay replays from.
 */
module Mailbox {
  import opened Common

  /** Where the writer is inside publish. */
  datatype Writer<T> = Resting | Numbered(payload: T, seqNo: nat) | Swapped

  /**
   Where a reader is.  `floor` is the number of stores completed when its call began.
   */
  datatype ReaderPc<T> =
    | Outside
    | Called(floor: nat, onlyNew: bool)
    | Loaded(snapshot: Option<(T, nat)>, floor: nat, onlyNew: bool)

  /** One value handed to a reader; `isNew` if take_if_new delivered it. */
  datatype Delivery<T> = Delivery(payload: T, seqNo: nat, isNew: bool)

  /**
   The counters are of finished take_if_new calls (`calls`) and finished take calls (`takes`), of
   the calls of either kind that found nothing, and of those begun before the first store.
   */
  datatype Reader<T> = Reader(cursor: nat, pc: ReaderPc<T>, got: seq<Delivery<T>>,
                              coalesced: nat, empty: nat, calls: nat, early: nat,
                              takes: nat, emptyTakes: nat, earlyTakes: nat)

  /** `submitted` is every payload ever passed to publish, `stored` how many reached the slot. */
  datatype State<T> = State(submitted: seq<T>, stored: nat, nextSeq: nat, snapshot: Option<(T, nat)>,
                            writer: Writer<T>, tracked: nat, readers: map<nat, Reader<T>>)

  datatype Step<T> =
    | Number(payload: T)
    | Swap
    | Track
    | Join(id: nat)
    | Call(id: nat, onlyNew: bool)
    | Load(id: nat)
    | Finish(id: nat)

  function Initial<T>(): State<T> {
    State([], 0, 0, None, Resting, 0, map[])
  }

  function NewReader<T>(): Reader<T> {
    Reader(0, Outside, [], 0, 0, 0, 0, 0, 0, 0)
  }

  /** What the end of a take or take_if_new does to its reader. */
  function Finished<T>(r: Reader<T>): Reader<T>
    requires r.pc.Loaded?
  {
    var onlyNew := r.pc.onlyNew;
    var done := if onlyNew then r.(pc := Outside, calls := r.calls + 1) else r.(pc := Outside, takes := r.takes + 1);
    match r.pc.snapshot
    case None => if onlyNew then done.(empty := r.empty + 1) else done.(emptyTakes := r.emptyTakes + 1)
    case Some((payload, seqNo)) =>
      if onlyNew && seqNo == r.cursor then done.(coalesced := r.coalesced + 1)
      else done.(cursor := seqNo, got := r.got + [Delivery(payload, seqNo, onlyNew)])
  }

  function Next<T>(s: State<T>, step: Step<T>): Option<State<T>> {
    match step
    case Number(payload) =>
      if !s.writer.Resting? then None
      else Some(s.(nextSeq := s.nextSeq + 1, submitted := s.submitted + [payload],
                   writer := Numbered(payload, s.nextSeq + 1)))
    case Swap =>
      if !s.writer.Numbered? then None
      else Some(s.(snapshot := Some((s.writer.payload, s.writer.seqNo)), stored := s.stored + 1, writer := Swapped))
    case Track =>
      if !s.writer.Swapped? then None else Some(s.(tracked := s.tracked + 1, writer := Resting))
    case Join(id) =>
      if id in s.readers then None else Some(s.(readers := s.readers[id := NewReader()]))
    case Call(id, onlyNew) =>
      if id !in s.readers || !s.readers[id].pc.Outside? then None
      else
        var r := s.readers[id];
        var early := r.early + if onlyNew && s.stored == 0 then 1 else 0;
        var earlyTakes := r.earlyTakes + if !onlyNew && s.stored == 0 then 1 else 0;
        var called := r.(pc := Called(s.stored, onlyNew), early := early, earlyTakes := earlyTakes);
        Some(s.(readers := s.readers[id := called]))
    case Load(id) =>
      if id !in s.readers || !s.readers[id].pc.Called? then None
      else
        var r := s.readers[id];
        Some(s.(readers := s.readers[id := r.(pc := Loaded(s.snapshot, r.pc.floor, r.pc.onlyNew))]))
    case Finish(id) =>
      if id !in s.readers || !s.readers[id].pc.Loaded? then None
      else Some(s.(readers := s.readers[id := Finished(s.readers[id])]))
  }

  function Run<T>(s: State<T>, steps: seq<Step<T>>): Option<State<T>> {
    if steps == [] then Some(s)
    else
      match Run(s, steps[..|steps| - 1])
      case None => None
      case Some(s') => Next(s', steps[|steps| - 1])
  }

  // ---------------------------------------------------------------------
  // The invariant
  // ---------------------------------------------------------------------

  /** (payload, n) is the n-th payload published, and it has reached the slot. */
  predicate NthPublished<T(==)>(submitted: seq<T>, stored: nat, payload: T, n: nat) {
    1 <= n <= stored <= |submitted| && submitted[n - 1] == payload
  }

  ghost predicate WriterOk<T>(s: State<T>) {
    && s.nextSeq == |s.submitted|
    && s.stored + (if s.writer.Numbered? then 1 else 0) == |s.submitted|
    && (s.writer.Numbered? ==> s.writer.seqNo == s.nextSeq && s.submitted[s.nextSeq - 1] == s.writer.payload)
    && s.tracked + (if s.writer.Swapped? then 1 else 0) == s.stored
    && (s.stored == 0 <==> s.snapshot.None?)
    && (s.stored > 0 ==> s.snapshot == Some((s.submitted[s.stored - 1], s.stored)))
  }

  ghost predicate DeliveriesOk<T>(submitted: seq<T>, stored: nat, cursor: nat, got: seq<Delivery<T>>) {
    && (forall i :: 0 <= i < |got| ==>
          NthPublished(submitted, stored, got[i].payload, got[i].seqNo) && got[i].seqNo <= cursor)
    && (forall i, j :: 0 <= i < j < |got| ==>
          got[i].seqNo <= got[j].seqNo && (got[j].isNew ==> got[i].seqNo < got[j].seqNo))
  }

  function FreshCount<T>(got: seq<Delivery<T>>): nat {
    if got == [] then 0
    else FreshCount(got[..|got| - 1]) + if got[|got| - 1].isNew then 1 else 0
  }

  ghost predicate PcOk<T>(submitted: seq<T>, stored: nat, cursor: nat, pc: ReaderPc<T>) {
    match pc
    case Outside => true
    case Called(floor, _) => floor <= stored
    case Loaded(None, floor, _) => floor == 0 && cursor == 0
    case Loaded(Some((payload, n)), floor, _) =>
      NthPublished(submitted, stored, payload, n) && cursor <= n && floor <= n
  }

  ghost predicate ReaderOk<T>(submitted: seq<T>, stored: nat, r: Reader<T>) {
    && r.cursor <= stored
    && PcOk(submitted, stored, r.cursor, r.pc)
    && DeliveriesOk(submitted, stored, r.cursor, r.got)
    && FreshCount(r.got) + r.coalesced + r.empty == r.calls
    && r.empty + (if !r.pc.Outside? && r.pc.onlyNew && r.pc.floor == 0 then 1 else 0) <= r.early
    && |r.got| - FreshCount(r.got) + r.emptyTakes == r.takes
    && r.emptyTakes + (if !r.pc.Outside? && !r.pc.onlyNew && r.pc.floor == 0 then 1 else 0) <= r.earlyTakes
  }

  ghost predicate Inv<T>(s: State<T>) {
    WriterOk(s) && forall id :: id in s.readers ==> ReaderOk(s.submitted, s.stored, s.readers[id])
  }

  lemma ReaderKeptByWriter<T>(s: State<T>, s': State<T>, r: Reader<T>)
    requires ReaderOk(s.submitted, s.stored, r)
    requires s.stored <= s'.stored && s.submitted <= s'.submitted && s'.stored <= |s'.submitted|
    ensures ReaderOk(s'.submitted, s'.stored, r)
  {}

  lemma NewReaderOk<T>(submitted: seq<T>, stored: nat)
    requires stored <= |submitted|
    ensures ReaderOk(submitted, stored, NewReader())
  {}

  lemma WriterKeepsOk<T>(s: State<T>, step: Step<T>)
    requires WriterOk(s) && Next(s, step).Some?
    ensures var s' := Next(s, step).value;
            WriterOk(s') && s.stored <= s'.stored && s.submitted <= s'.submitted
  {}

  lemma DeliveriesAppend<T>(submitted: seq<T>, stored: nat, cursor: nat, got: seq<Delivery<T>>, d: Delivery<T>)
    requires DeliveriesOk(submitted, stored, cursor, got)
    requires NthPublished(submitted, stored, d.payload, d.seqNo)
    requires cursor <= d.seqNo && (d.isNew ==> cursor < d.seqNo)
    ensures DeliveriesOk(submitted, stored, d.seqNo, got + [d])
    ensures FreshCount(got + [d]) == FreshCount(got) + if d.isNew then 1 else 0
  {}

  lemma FinishKeepsReader<T>(submitted: seq<T>, stored: nat, r: Reader<T>)
    requires ReaderOk(submitted, stored, r) && r.pc.Loaded?
    ensures ReaderOk(submitted, stored, Finished(r))
    ensures Finished(r).cursor >= r.pc.floor
  {
    hide DeliveriesOk, FreshCount;
    if r.pc.snapshot.Some? {
      var (payload, n) := r.pc.snapshot.value;
      if !(r.pc.onlyNew && n == r.cursor) {
        DeliveriesAppend(submitted, stored, r.cursor, r.got, Delivery(payload, n, r.pc.onlyNew));
      }
    }
  }

  lemma CallKeepsReader<T>(s: State<T>, id: nat, onlyNew: bool)
    requires WriterOk(s) && Next(s, Call(id, onlyNew)).Some?
    requires ReaderOk(s.submitted, s.stored, s.readers[id])
    ensures ReaderOk(s.submitted, s.stored, Next(s, Call(id, onlyNew)).value.readers[id])
  {}

  lemma LoadKeepsReader<T>(s: State<T>, id: nat)
    requires WriterOk(s) && Next(s, Load(id)).Some?
    requires ReaderOk(s.submitted, s.stored, s.readers[id])
    ensures ReaderOk(s.submitted, s.stored, Next(s, Load(id)).value.readers[id])
  {}

  lemma JoinedReaderOk<T>(s: State<T>, id: nat)
    requires WriterOk(s) && Next(s, Join(id)).Some?
    ensures ReaderOk(s.submitted, s.stored, Next(s, Join(id)).value.readers[id])
  {
    NewReaderOk(s.submitted, s.stored);
  }

  predicate Touches<T>(step: Step<T>, id: nat) {
    (step.Join? || step.Call? || step.Load? || step.Finish?) && step.id == id
  }

  /** A reader after one of its own steps. */
  lemma OwnReaderKept<T>(s: State<T>, step: Step<T>, id: nat)
    requires Inv(s) && Next(s, step).Some?
    requires Touches(step, id)
    ensures ReaderOk(s.submitted, s.stored, Next(s, step).value.readers[id])
  {
    hide ReaderOk, WriterOk;
    match step
    case Join(_) => JoinedReaderOk(s, id);
    case Call(_, onlyNew) => CallKeepsReader(s, id, onlyNew);
    case Load(_) => LoadKeepsReader(s, id);
    case Finish(_) => FinishKeepsReader(s.submitted, s.stored, s.readers[id]);
  }

  /** A step leaves alone the readers of others, and what is stored unless the writer moved. */
  lemma Untouched<T>(s: State<T>, step: Step<T>, id: nat)
    requires Next(s, step).Some? && id in Next(s, step).value.readers
    ensures var s' := Next(s, step).value;
            if Touches(step, id) then s'.submitted == s.submitted && s'.stored == s.stored
            else id in s.readers && s'.readers[id] == s.readers[id]
  {}

  lemma StepKeepsInv<T>(s: State<T>, step: Step<T>)
    requires Inv(s) && Next(s, step).Some?
    ensures Inv(Next(s, step).value)
  {
    WriterKeepsOk(s, step);
    var s' := Next(s, step).value;
    assert s'.stored <= |s'.submitted|;
    hide ReaderOk, WriterOk, Next;
    forall id | id in s'.readers
      ensures ReaderOk(s'.submitted, s'.stored, s'.readers[id])
    {
      Untouched(s, step, id);
      if Touches(step, id) {
        OwnReaderKept(s, step, id);
      } else {
        ReaderKeptByWriter(s, s', s.readers[id]);
      }
    }
  }

  lemma {:induction false} RunKeepsInv<T>(s: State<T>, steps: seq<Step<T>>)
    requires Inv(s) && Run(s, steps).Some?
    ensures Inv(Run(s, steps).value)
  {
    if steps == [] {
    } else {
      RunKeepsInv(s, steps[..|steps| - 1]);
      StepKeepsInv(Run(s, steps[..|steps| - 1]).value, steps[|steps| - 1]);
    }
  }

  // ---------------------------------------------------------------------
  // What every interleaving guarantees
  // ---------------------------------------------------------------------

  /**
   Every value a reader ever got, through either read, is the payload published under exactly
   that number; numbers never go down, and each take_if_new delivery goes strictly up.
   */
  lemma DeliveriesAreInPublishOrder<T>(steps: seq<Step<T>>, id: nat)
    requires Run(Initial(), steps).Some? && id in Run(Initial(), steps).value.readers
    ensures var s := Run(Initial(), steps).value;
            var got := s.readers[id].got;
            && (forall i :: 0 <= i < |got| ==>
                  1 <= got[i].seqNo <= |s.submitted| && got[i].payload == s.submitted[got[i].seqNo - 1])
            && (forall i, j :: 0 <= i < j < |got| ==>
                  got[i].seqNo <= got[j].seqNo && (got[j].isNew ==> got[i].seqNo < got[j].seqNo))
  {
    RunKeepsInv(Initial(), steps);
    var s := Run(Initial(), steps).value;
    assert ReaderOk(s.submitted, s.stored, s.readers[id]);
    assert forall i :: 0 <= i < |s.readers[id].got| ==>
      NthPublished(s.submitted, s.stored, s.readers[id].got[i].payload, s.readers[id].got[i].seqNo);
  }

  /**
   Freshness: a call that began after n stores leaves the reader at n or later, whatever was
   interleaved with it; and if no later store had happened by then, at exactly the last one.
   */
  lemma CallCatchesUp<T>(before: seq<Step<T>>, s: State<T>, id: nat, onlyNew: bool, s1: State<T>,
                         during: seq<Step<T>>, s2: State<T>, s3: State<T>)
    requires Run(Initial(), before) == Some(s) && Next(s, Call(id, onlyNew)) == Some(s1)
    requires Run(s1, during) == Some(s2) && Next(s2, Finish(id)) == Some(s3)
    requires forall i :: 0 <= i < |during| ==> during[i] != Finish(id)
    ensures s.stored <= s3.readers[id].cursor <= s3.stored
    ensures s3.stored == s.stored ==> s3.readers[id].cursor == s.stored
  {
    RunKeepsInv(Initial(), before);
    StepKeepsInv(s, Call(id, onlyNew));
    hide Inv, Run;
    RunKeepsInv(s1, during);
    FloorKept(s1, id, during, s.stored);
    FinishCatchesUp(s2, id, s3);
  }

  lemma FinishCatchesUp<T>(s: State<T>, id: nat, s': State<T>)
    requires Inv(s) && Next(s, Finish(id)) == Some(s')
    ensures s.readers[id].pc.floor <= s'.readers[id].cursor <= s'.stored
  {}

  /** During a call, nothing else happens to its reader. */
  lemma {:induction false} FloorKept<T>(s: State<T>, id: nat, during: seq<Step<T>>, floor: nat)
    requires id in s.readers && !s.readers[id].pc.Outside? && s.readers[id].pc.floor == floor
    requires forall i :: 0 <= i < |during| ==> during[i] != Finish(id)
    requires Run(s, during).Some?
    ensures var s' := Run(s, during).value;
            && id in s'.readers && !s'.readers[id].pc.Outside?
            && s'.readers[id] == s.readers[id].(pc := s'.readers[id].pc)
            && s'.readers[id].pc.floor == floor && s'.readers[id].pc.onlyNew == s.readers[id].pc.onlyNew
  {
    if during == [] {
    } else {
      FloorKept(s, id, during[..|during| - 1], floor);
      assert during[|during| - 1] != Finish(id);
    }
  }

  /** One whole call of a reader, interleaved with anything else. */
  ghost predicate WholeCall<T>(before: seq<Step<T>>, s: State<T>, id: nat, onlyNew: bool, s1: State<T>,
                               during: seq<Step<T>>, s2: State<T>, s3: State<T>) {
    && Run(Initial(), before) == Some(s) && Next(s, Call(id, onlyNew)) == Some(s1)
    && (forall i :: 0 <= i < |during| ==> during[i] != Finish(id))
    && Run(s1, during) == Some(s2) && Next(s2, Finish(id)) == Some(s3)
  }

  /** got' is got with one more delivery, of the payload published under number n, which is given. */
  ghost predicate HandsOut<T>(submitted: seq<T>, got: seq<Delivery<T>>, got': seq<Delivery<T>>, n: nat, isNew: bool) {
    1 <= n <= |submitted| && got' == got + [Delivery(submitted[n - 1], n, isNew)]
  }

  lemma CallInside<T>(before: seq<Step<T>>, s: State<T>, id: nat, onlyNew: bool, s1: State<T>,
                      during: seq<Step<T>>, s2: State<T>, s3: State<T>)
    requires WholeCall(before, s, id, onlyNew, s1, during, s2, s3)
    ensures id in s.readers && id in s2.readers && id in s3.readers && s2.readers[id].pc.Loaded?
    ensures ReaderOk(s2.submitted, s2.stored, s2.readers[id]) && s2.stored <= |s2.submitted|
    ensures var r, r2 := s.readers[id], s2.readers[id];
            && r2.pc.floor == s.stored && r2.pc.onlyNew == onlyNew
            && r2.got == r.got && r2.cursor == r.cursor && r2.coalesced == r.coalesced
            && s3.readers[id] == Finished(r2) && s3.submitted == s2.submitted && s3.stored == s2.stored
  {
    hide Inv, Next, Run, ReaderOk;
    RunKeepsInv(Initial(), before);
    StepKeepsInv(s, Call(id, onlyNew));
    CallBegins(s, id, onlyNew, s1);
    RunKeepsInv(s1, during);
    FloorKept(s1, id, during, s.stored);
    InvReader(s2, id);
    CallEnds(s2, id, s3);
  }

  lemma CallBegins<T>(s: State<T>, id: nat, onlyNew: bool, s1: State<T>)
    requires Next(s, Call(id, onlyNew)) == Some(s1)
    ensures id in s.readers && id in s1.readers && s1.readers[id].pc == Called(s.stored, onlyNew)
    ensures var r, r1 := s.readers[id], s1.readers[id];
            r1.got == r.got && r1.cursor == r.cursor && r1.coalesced == r.coalesced
  {}

  lemma CallEnds<T>(s: State<T>, id: nat, s': State<T>)
    requires Next(s, Finish(id)) == Some(s')
    ensures id in s.readers && id in s'.readers && s.readers[id].pc.Loaded?
    ensures s'.readers[id] == Finished(s.readers[id]) && s'.submitted == s.submitted && s'.stored == s.stored
  {}

  lemma InvReader<T>(s: State<T>, id: nat)
    requires Inv(s) && id in s.readers
    ensures ReaderOk(s.submitted, s.stored, s.readers[id]) && s.stored <= |s.submitted|
  {}

  /**
   Replay: a take begun after n > 0 stores always hands out one more payload, numbered at least n,
   whatever the reader has seen before; with no store after that, exactly the last one stored.
   */
  lemma TakeHandsOut<T>(before: seq<Step<T>>, s: State<T>, id: nat, s1: State<T>,
                        during: seq<Step<T>>, s2: State<T>, s3: State<T>) returns (n: nat)
    requires WholeCall(before, s, id, false, s1, during, s2, s3) && s.stored > 0
    ensures id in s.readers && id in s3.readers
    ensures s.stored <= n <= s3.stored && HandsOut(s3.submitted, s.readers[id].got, s3.readers[id].got, n, false)
    ensures s3.readers[id].cursor == n
  {
    CallInside(before, s, id, false, s1, during, s2, s3);
    var r2 := s2.readers[id];
    assert r2.pc.snapshot.Some?;
    n := r2.pc.snapshot.value.1;
  }

  /**
   A take_if_new begun when something unseen is stored hands it out, or something newer; one that
   ends with nothing new leaves the cursor and counts as coalesced.
   */
  lemma TakeIfNewHandsOutUnseen<T>(before: seq<Step<T>>, s: State<T>, id: nat, s1: State<T>,
                                   during: seq<Step<T>>, s2: State<T>, s3: State<T>) returns (n: nat)
    requires WholeCall(before, s, id, true, s1, during, s2, s3) && s.stored > 0
    ensures id in s.readers && id in s3.readers
    ensures var r, r3 := s.readers[id], s3.readers[id];
            && s.stored <= n <= s3.stored && r3.cursor == n
            && (r.cursor < n ==> HandsOut(s3.submitted, r.got, r3.got, n, true) && r3.coalesced == r.coalesced)
            && (r.cursor == n ==> r3.got == r.got && r3.coalesced == r.coalesced + 1)
            && r.cursor <= n
  {
    CallInside(before, s, id, true, s1, during, s2, s3);
    var r2 := s2.readers[id];
    assert r2.pc.snapshot.Some?;
    n := r2.pc.snapshot.value.1;
  }

  /**
   Doorbells: if none of a reader's take_if_new calls began before the first store - as when
   each call answers a notification sent after a publish - then every completed call was
   either a delivery or counted as coalesced.
   */
  lemma DeliveredPlusCoalescedIsCalls<T>(steps: seq<Step<T>>, id: nat)
    requires Run(Initial(), steps).Some? && id in Run(Initial(), steps).value.readers
    ensures var r := Run(Initial(), steps).value.readers[id];
            && r.calls == FreshCount(r.got) + r.coalesced + r.empty
            && (r.early == 0 ==> r.calls == FreshCount(r.got) + r.coalesced)
  {
    RunKeepsInv(Initial(), steps);
    var s := Run(Initial(), steps).value;
    assert ReaderOk(s.submitted, s.stored, s.readers[id]);
  }

  /**
   Every finished take is a delivery or found nothing; the latter needs a take begun before the
   first store.
   */
  lemma TakesAreDeliveries<T>(steps: seq<Step<T>>, id: nat)
    requires Run(Initial(), steps).Some? && id in Run(Initial(), steps).value.readers
    ensures var r := Run(Initial(), steps).value.readers[id];
            && r.takes == |r.got| - FreshCount(r.got) + r.emptyTakes
            && r.emptyTakes <= r.earlyTakes
  {
    RunKeepsInv(Initial(), steps);
    var s := Run(Initial(), steps).value;
    assert ReaderOk(s.submitted, s.stored, s.readers[id]);
  }
}
