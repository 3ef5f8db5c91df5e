/**
 hid_exit and the instance count, for any number of threads (device.cc). A thread in mex_dev_com works through its
 section one action at a time, while others construct devices and finish destroying them at any moment.
 */
module Instances {
  import opened Usb

  /** The attempts of a send or recv: how many may still be followed by a reconnect, and whether one more may not. */
  datatype Attempts = Attempts(left: nat, oneMore: bool)

  /** Where the holder of mex_dev_com is; a reconnect goes back to the attempts of its send or recv. */
  datatype Place =
    | Transferring(attempts: Attempts)
    | Closing(back: Option<Attempts>)
    | Testing(back: Option<Attempts>)
    | Exiting(back: Option<Attempts>)
    | Opening(back: Option<Attempts>)
    | Finished

  datatype Holder = Holder(device: nat, at: Place)

  /**
   Devices counted in instances_count, those being destroyed with whether they have been disconnected, the handle of
   each connected one; hidapi's open handles, and its calls of hid_exit, of which rashExits came while one was open.
   */
  datatype State = State(
    constructed: nat, counted: set<nat>, dying: map<nat, bool>, handles: map<nat, nat>,
    open: set<nat>, opens: nat, exits: nat, rashExits: nat, holder: Option<Holder>)

  const INITIAL := State(0, {}, map[], map[], {}, 0, 0, 0, None)

  datatype Step =
    | Construct
    | Connect(device: nat)
    | Disconnect(device: nat)
    | Send(device: nat)
    | Recv(device: nat, retries: nat)
    | Act(success: bool)
    | Leave
    | BeginDestroy(device: nat)
    | DestroyDisconnect(device: nat)
    | EndDestroy(device: nat)

  /** Somebody still refers to the device. */
  predicate InUse(s: State, d: nat) {
    d in s.counted && d !in s.dying
  }

  predicate Enabled(s: State, step: Step) {
    match step
    case Construct => true
    // connect() is called on devices without a handle only.
    case Connect(d) => s.holder == None && InUse(s, d) && d !in s.handles
    case Disconnect(d) => s.holder == None && InUse(s, d)
    case Send(d) => s.holder == None && InUse(s, d)
    case Recv(d, _) => s.holder == None && InUse(s, d)
    case Act(_) => s.holder.Some? && s.holder.value.at != Finished
    case Leave => s.holder.Some? && s.holder.value.at == Finished
    // The last reference goes: no call on the device is under way.
    case BeginDestroy(d) => InUse(s, d) && (s.holder.Some? ==> s.holder.value.device != d)
    case DestroyDisconnect(d) => s.holder == None && d in s.counted && d in s.dying && !s.dying[d]
    case EndDestroy(d) => d in s.counted && d in s.dying && s.dying[d]
  }

  function Next(s: State, step: Step): State
    requires Enabled(s, step)
  {
    match step
    case Construct => s.(constructed := s.constructed + 1, counted := s.counted + {s.constructed})
    case Connect(d) => s.(holder := Some(Holder(d, Opening(None))))
    case Disconnect(d) => s.(holder := Some(Holder(d, Closing(None))))
    case Send(d) => s.(holder := Some(Holder(d, Transferring(Attempts(3, false)))))
    case Recv(d, retries) => s.(holder := Some(Holder(d, Transferring(Attempts(retries, true)))))
    case Act(success) => Acted(s, s.holder.value.device, s.holder.value.at, success)
    case Leave =>
      var d := s.holder.value.device;
      s.(holder := None, dying := if d in s.dying then s.dying[d := true] else s.dying)
    case BeginDestroy(d) => s.(dying := s.dying[d := false])
    case DestroyDisconnect(d) => s.(holder := Some(Holder(d, Closing(None))))
    case EndDestroy(d) => s.(counted := s.counted - {d})
  }

  /** After a disconnect: nothing more, or the other half of a reconnect. */
  function Disconnected(back: Option<Attempts>): Place {
    if back == None then Finished else Opening(back)
  }

  function Reopened(back: Option<Attempts>): Place {
    match back
    case None => Finished
    case Some(a) => if a.left == 0 && !a.oneMore then Finished else Transferring(a)
  }

  /** The next action of the holder, on its device d. */
  function Acted(s: State, d: nat, at: Place, success: bool): State
    requires at != Finished
  {
    match at
    case Transferring(a) =>
      // Without a handle send and recv throw.
      var failed := d in s.handles && !success && a.left > 0;
      s.(holder := Some(Holder(d, if failed then Closing(Some(a.(left := a.left - 1))) else Finished)))
    case Closing(back) =>
      if d in s.handles
      then s.(open := s.open - {s.handles[d]}, handles := s.handles - {d}, holder := Some(Holder(d, Testing(back))))
      else s.(holder := Some(Holder(d, Disconnected(back))))
    case Testing(back) =>
      s.(holder := Some(Holder(d, if |s.counted| == 1 then Exiting(back) else Disconnected(back))))
    case Exiting(back) =>
      s.(exits := s.exits + 1, rashExits := s.rashExits + (if s.open != {} then 1 else 0),
         holder := Some(Holder(d, Disconnected(back))))
    case Opening(back) =>
      var after := s.(opens := s.opens + 1, holder := Some(Holder(d, Reopened(back))));
      if success then after.(open := s.open + {s.opens}, handles := s.handles[d := s.opens]) else after
  }

  predicate IsSchedule(s: State, steps: seq<Step>)
    decreases |steps|
  {
    steps == [] || (Enabled(s, steps[0]) && IsSchedule(Next(s, steps[0]), steps[1..]))
  }

  function After(s: State, steps: seq<Step>): State
    requires IsSchedule(s, steps)
    decreases |steps|
  {
    if steps == [] then s else After(Next(s, steps[0]), steps[1..])
  }

  // ---------- hid_exit ----------

  /** Every open handle belongs to exactly one device. */
  predicate Matched(handles: map<nat, nat>, open: set<nat>, opens: nat) {
    && (forall d :: d in handles ==> handles[d] < opens && handles[d] in open)
    && (forall h :: h in open ==> exists d :: d in handles && handles[d] == h)
    && (forall d, e :: d in handles && e in handles && handles[d] == handles[e] ==> d == e)
  }

  lemma ClosedMatched(handles: map<nat, nat>, open: set<nat>, opens: nat, d: nat)
    requires Matched(handles, open, opens) && d in handles
    ensures Matched(handles - {d}, open - {handles[d]}, opens)
  {
    var handles', open' := handles - {d}, open - {handles[d]};
    forall h | h in open' ensures exists e :: e in handles' && handles'[e] == h {
      var e :| e in handles && handles[e] == h;
      assert e in handles';
    }
  }

  lemma OpenedMatched(handles: map<nat, nat>, open: set<nat>, opens: nat, d: nat)
    requires Matched(handles, open, opens) && d !in handles
    ensures Matched(handles[d := opens], open + {opens}, opens + 1)
  {
    var handles', open' := handles[d := opens], open + {opens};
    forall h | h in open' ensures exists e :: e in handles' && handles'[e] == h {
      if h in open {
        var e :| e in handles && handles[e] == h;
        assert handles'[e] == h;
      } else {
        assert handles'[d] == h;
      }
    }
  }

  lemma FailedMatched(handles: map<nat, nat>, open: set<nat>, opens: nat)
    requires Matched(handles, open, opens)
    ensures Matched(handles, open, opens + 1)
  {
  }

  /** The handles are those of counted devices, none of which has been disconnected for good. */
  predicate Owned(s: State) {
    && Matched(s.handles, s.open, s.opens)
    && (forall d :: d in s.handles ==> d in s.counted)
    && (forall d :: d in s.counted ==> d < s.constructed)
    && (forall d :: d in s.dying && s.dying[d] ==> d !in s.handles)
  }

  /** Between its close and its open the holder's device has no handle, and once it is to call hid_exit nobody has. */
  predicate Orderly(s: State) {
    && Owned(s)
    && s.rashExits == 0
    && (s.holder.Some? ==>
          var Holder(d, at) := s.holder.value;
          && d in s.counted
          && (at.Testing? || at.Exiting? || at.Opening? ==> d !in s.handles)
          && (at.Exiting? ==> s.open == {})
          && (d in s.dying ==>
                && !s.dying[d]
                && (at == Finished ==> d !in s.handles)
                && at in {Closing(None), Testing(None), Exiting(None), Finished}))
  }

  /** If only one device is counted it is the holder's own, which has no handle: nothing is open. */
  lemma OnlyOneCounted(s: State, d: nat)
    requires Owned(s) && |s.counted| == 1 && d in s.counted && d !in s.handles
    ensures s.open == {}
  {
    assert |s.counted - {d}| == 0;
  }

  lemma CloseKeepsOrder(s: State, success: bool)
    requires Orderly(s) && s.holder.Some? && s.holder.value.at.Closing?
    ensures Orderly(Next(s, Act(success)))
  {
    hide Matched;
    var d := s.holder.value.device;
    if d in s.handles {
      ClosedMatched(s.handles, s.open, s.opens, d);
    }
  }

  lemma TestKeepsOrder(s: State, success: bool)
    requires Orderly(s) && s.holder.Some? && s.holder.value.at.Testing?
    ensures Orderly(Next(s, Act(success)))
  {
    hide Matched;
    if |s.counted| == 1 {
      OnlyOneCounted(s, s.holder.value.device);
    }
  }

  lemma OpenKeepsOrder(s: State, success: bool)
    requires Orderly(s) && s.holder.Some? && s.holder.value.at.Opening?
    ensures Orderly(Next(s, Act(success)))
  {
    hide Matched;
    OpenedMatched(s.handles, s.open, s.opens, s.holder.value.device);
    FailedMatched(s.handles, s.open, s.opens);
  }

  lemma ActKeepsOrder(s: State, success: bool)
    requires Orderly(s) && Enabled(s, Act(success))
    ensures Orderly(Next(s, Act(success)))
  {
    hide Matched;
    match s.holder.value.at
    case Closing(_) => CloseKeepsOrder(s, success);
    case Testing(_) => TestKeepsOrder(s, success);
    case Opening(_) => OpenKeepsOrder(s, success);
    case _ =>
  }

  lemma NextKeepsOrder(s: State, step: Step)
    requires Orderly(s) && Enabled(s, step)
    ensures Orderly(Next(s, step))
  {
    if step.Act? {
      ActKeepsOrder(s, step.success);
    }
  }

  lemma {:induction false} OrderlyAlong(s: State, steps: seq<Step>)
    requires Orderly(s) && IsSchedule(s, steps)
    ensures Orderly(After(s, steps))
    decreases |steps|
  {
    if steps != [] {
      NextKeepsOrder(s, steps[0]);
      OrderlyAlong(Next(s, steps[0]), steps[1..]);
    }
  }

  /**
   Whatever threads do, and however they interleave: hid_exit is never called while a handle is open, every open
   handle belongs to exactly one device, and none is left once all devices are gone.
   */
  lemma ExitNeverRash(steps: seq<Step>)
    requires IsSchedule(INITIAL, steps)
    ensures var s := After(INITIAL, steps);
            && s.rashExits == 0
            && (forall h :: h in s.open <==> exists d :: d in s.handles && s.handles[d] == h)
            && (forall d, e :: d in s.handles && e in s.handles && s.handles[d] == s.handles[e] ==> d == e)
            && (s.counted == {} ==> s.open == {})
  {
    OrderlyAlong(INITIAL, steps);
  }
}
