/** hidapi as the library sees it: what each call returns is decided by an arbitrary world. */
module Usb {
  import opened Bytes
  import opened Packet

  datatype Option<+T> = None | Some(value: T)

  /** The result of hid_get_feature_report; data is what the buffer holds when the status is positive. */
  datatype ReadResult = ReadResult(status: int, data: Packet)

  /** The n-th call of each kind, for every n. */
  datatype World = World(send: nat -> int, get: nat -> ReadResult, open: nat -> bool)

  /**
   The state of hidapi. A handle is the number of the hid_open call that produced it. rashExits counts
   hid_exit calls made while some handle was open; sent lists the reports that reached a device.
   */
  datatype UsbState = UsbState(
    sends: nat, gets: nat, opens: nat, open: set<nat>, exits: nat, rashExits: nat, sent: seq<Packet>)

  /** How often each function of hidapi that the world answers has been called. */
  datatype Calls = Calls(sends: nat, gets: nat, opens: nat)

  function CallsMade(usb: UsbState): Calls {
    Calls(usb.sends, usb.gets, usb.opens)
  }

  /** A device's connection together with everything a connection operation can change. */
  datatype Link = Link(usb: UsbState, handle: Option<nat>, instances: int, reconnects: nat)

  datatype Io = Thrown | Returned(status: int)

  datatype Sending = Sending(io: Io, link: Link)

  datatype Receiving = Receiving(io: Io, buffer: Packet, link: Link)

  /** _disconnect */
  function Closed(l: Link): Link {
    match l.handle
    case None => l
    case Some(h) =>
      var open := l.usb.open - {h};
      var last := l.instances == 1;
      l.(handle := None,
         usb := l.usb.(
           open := open,
           exits := l.usb.exits + (if last then 1 else 0),
           rashExits := l.usb.rashExits + (if last && open != {} then 1 else 0)))
  }

  /** _connect: whatever handle was held before is overwritten. */
  function Opened(w: World, l: Link): Link {
    var n := l.usb.opens;
    if w.open(n)
    then l.(handle := Some(n), usb := l.usb.(opens := n + 1, open := l.usb.open + {n}))
    else l.(handle := None, usb := l.usb.(opens := n + 1))
  }

  /** _reconnect */
  function Reconnected(w: World, l: Link): Link {
    Opened(w, Closed(l.(reconnects := l.reconnects + 1)))
  }

  /** The rest of Device::send after some attempts, the last of which returned last. */
  function SendRest(w: World, l: Link, p: Packet, attempts: nat, last: int): Sending
    decreases attempts
  {
    if attempts == 0 || last >= 0 then Sending(Returned(last), l)
    else if l.handle == None then Sending(Thrown, l)
    else
      var r := w.send(l.usb.sends);
      var l' := l.(usb := l.usb.(sends := l.usb.sends + 1, sent := if r > 0 then l.usb.sent + [p] else l.usb.sent));
      SendRest(w, if r < 0 then Reconnected(w, l') else l', p, attempts - 1, r)
  }

  function Send(w: World, l: Link, p: Packet): Sending {
    SendRest(w, l, p, 3, -1)
  }

  /** The rest of Device::recv after failed reads. */
  function ReceiveRest(w: World, l: Link, buffer: Packet, retries: nat, failed: nat): Receiving
    requires failed <= retries
    decreases retries - failed
  {
    if l.handle == None then Receiving(Thrown, buffer, l)
    else
      var r := w.get(l.usb.gets);
      var l' := l.(usb := l.usb.(gets := l.usb.gets + 1));
      if r.status > 0 then Receiving(Returned(r.status), r.data, l')
      else if failed >= retries then Receiving(Returned(r.status), buffer, l')
      else ReceiveRest(w, Reconnected(w, l'), buffer, retries, failed + 1)
  }

  function Receive(w: World, l: Link, buffer: Packet, retries: nat): Receiving {
    ReceiveRest(w, l, buffer, retries, 0)
  }

  lemma SendAgain(w: World, l: Link, p: Packet, attempts: nat, last: int)
    requires attempts > 0 && last < 0 && l.handle.Some?
    ensures var r := w.send(l.usb.sends);
            var l' := l.(usb := l.usb.(sends := l.usb.sends + 1, sent := if r > 0 then l.usb.sent + [p] else l.usb.sent));
            SendRest(w, l, p, attempts, last) == SendRest(w, if r < 0 then Reconnected(w, l') else l', p, attempts - 1, r)
  {
  }

  lemma ReceiveAgain(w: World, l: Link, buffer: Packet, retries: nat, failed: nat)
    requires failed < retries && l.handle.Some? && w.get(l.usb.gets).status <= 0
    ensures var l' := l.(usb := l.usb.(gets := l.usb.gets + 1));
            ReceiveRest(w, l, buffer, retries, failed) == ReceiveRest(w, Reconnected(w, l'), buffer, retries, failed + 1)
  {
  }

  // ---------- Bounds and retained buffers ----------

  /** The time recv pauses: once after each reconnect. */
  function Paused(timeout: nat, before: nat, after: nat): int {
    timeout * (after - before)
  }

  lemma PausedOnce(timeout: nat, before: nat)
    ensures Paused(timeout, before, before) == 0 && Paused(timeout, before, before + 1) == timeout
  {
  }

  lemma PausedAdds(timeout: nat, a: nat, b: nat, c: nat)
    ensures Paused(timeout, a, b) + Paused(timeout, b, c) == Paused(timeout, a, c)
  {
  }

  /**
   One Device::recv reads at most retries + 1 reports and reconnects at most retries times, and a failed read
   leaves the buffer alone.
   */
  lemma {:induction false} ReceiveEffects(w: World, l: Link, buffer: Packet, retries: nat, failed: nat)
    requires failed <= retries
    ensures var Receiving(io, p, l') := ReceiveRest(w, l, buffer, retries, failed);
            && l.usb.gets <= l'.usb.gets <= l.usb.gets + retries - failed + 1
            && l.reconnects <= l'.reconnects <= l.reconnects + retries - failed
            && l'.usb.sends == l.usb.sends && l'.usb.sent == l.usb.sent && l'.instances == l.instances
            && (io.Thrown? || io.status <= 0 ==> p == buffer)
            && (io.Returned? && io.status > 0 ==>
                  && l'.handle.Some?
                  && l'.usb.gets > l.usb.gets && w.get(l'.usb.gets - 1) == ReadResult(io.status, p))
    decreases retries - failed
  {
    if l.handle != None && w.get(l.usb.gets).status <= 0 && failed < retries {
      var l' := l.(usb := l.usb.(gets := l.usb.gets + 1));
      ReceiveEffects(w, Reconnected(w, l'), buffer, retries, failed + 1);
    }
  }

  /** One Device::send makes at most three attempts and gets the report out at most once. */
  lemma {:induction false} SendEffects(w: World, l: Link, p: Packet, attempts: nat, last: int)
    ensures var Sending(io, l') := SendRest(w, l, p, attempts, last);
            && l.usb.sends <= l'.usb.sends <= l.usb.sends + attempts
            && l'.usb.gets == l.usb.gets && l'.instances == l.instances
            && (last <= 0 ==> l'.usb.sent == if io.Returned? && io.status > 0 then l.usb.sent + [p] else l.usb.sent)
    decreases attempts
  {
    if attempts > 0 && last < 0 && l.handle != None {
      var r := w.send(l.usb.sends);
      var l' := l.(usb := l.usb.(sends := l.usb.sends + 1, sent := if r > 0 then l.usb.sent + [p] else l.usb.sent));
      SendEffects(w, if r < 0 then Reconnected(w, l') else l', p, attempts - 1, r);
    }
  }

  // ---------- What the retries come to ----------

  predicate SendFails(w: World, l: Link, k: nat) {
    w.send(l.usb.sends + k) < 0
  }

  predicate ReadFails(w: World, l: Link, k: nat) {
    w.get(l.usb.gets + k).status <= 0
  }

  predicate Reopens(w: World, l: Link, k: nat) {
    w.open(l.usb.opens + k)
  }

  /** There is a handle, and again one after each of the first k attempts, all of which have failed. */
  predicate SendReaches(w: World, l: Link, k: nat) {
    l.handle.Some? && forall j :: 0 <= j < k ==> SendFails(w, l, j) && Reopens(w, l, j)
  }

  predicate ReadReaches(w: World, l: Link, k: nat) {
    l.handle.Some? && forall j :: 0 <= j < k ==> ReadFails(w, l, j) && Reopens(w, l, j)
  }

  /** The connection has been closed and opened again f times. */
  predicate ReconnectedTimes(w: World, l: Link, l': Link, f: nat) {
    && l'.reconnects == l.reconnects + f
    && l'.usb.opens == l.usb.opens + f
    && l'.instances == l.instances
    && l'.handle == if f == 0 then l.handle else if Reopens(w, l, f - 1) then Some(l.usb.opens + f - 1) else None
  }

  /** How a send with so many attempts ends after the a attempts it has made. */
  predicate SendEndsAfter(w: World, l: Link, attempts: nat, s: Sending, a: nat) {
    && a <= attempts
    && s.link.usb.sends == l.usb.sends + a
    && (a == 0 ==> l.handle == None && s == Sending(Thrown, l))
    && (a > 0 ==>
          && SendReaches(w, l, a - 1)
          && ReconnectedTimes(w, l, s.link, if SendFails(w, l, a - 1) then a else a - 1)
          && match s.io
             case Thrown => a < attempts && SendFails(w, l, a - 1) && !Reopens(w, l, a - 1)
             case Returned(r) => r == w.send(l.usb.sends + a - 1) && (!SendFails(w, l, a - 1) || a == attempts))
  }

  predicate ReadEndsAfter(w: World, l: Link, attempts: nat, r: Receiving, a: nat) {
    && a <= attempts
    && r.link.usb.gets == l.usb.gets + a
    && (a == 0 ==> l.handle == None && r.io == Thrown && r.link == l)
    && (a > 0 ==>
          && ReadReaches(w, l, a - 1)
          && ReconnectedTimes(w, l, r.link, if r.io.Thrown? then a else a - 1)
          && match r.io
             case Thrown => a < attempts && ReadFails(w, l, a - 1) && !Reopens(w, l, a - 1)
             case Returned(status) => status == w.get(l.usb.gets + a - 1).status && (!ReadFails(w, l, a - 1) || a == attempts))
  }

  /**
   A send goes on to the next of three attempts exactly when one fails and a handle is there again; without a handle
   before or between the attempts it throws.
   */
  lemma SendEnds(w: World, l: Link, p: Packet)
    ensures var s := Send(w, l, p);
            s.link.usb.sends >= l.usb.sends && SendEndsAfter(w, l, 3, s, s.link.usb.sends - l.usb.sends)
  {
    SendRestEnds(w, l, p, 3, -1);
  }

  lemma {:induction false} SendRestEnds(w: World, l: Link, p: Packet, attempts: nat, last: int)
    requires attempts > 0 && last < 0
    ensures var s := SendRest(w, l, p, attempts, last);
            s.link.usb.sends >= l.usb.sends && SendEndsAfter(w, l, attempts, s, s.link.usb.sends - l.usb.sends)
    decreases attempts
  {
    if attempts == 1 || l.handle == None || !SendFails(w, l, 0) {
      SendEndsNow(w, l, p, attempts, last);
    } else {
      hide SendRest, Reconnected, ReconnectedTimes, SendEndsAfter;
      SendAgain(w, l, p, attempts, last);
      var n := w.send(l.usb.sends);
      var next := Reconnected(w, l.(usb := l.usb.(sends := l.usb.sends + 1)));
      ReconnectedOnce(w, l, l.usb.(sends := l.usb.sends + 1));
      SendRestEnds(w, next, p, attempts - 1, n);
      var s := SendRest(w, l, p, attempts, last);
      SendShift(w, l, next, attempts, s, s.link.usb.sends - next.usb.sends);
    }
  }

  lemma SendEndsNow(w: World, l: Link, p: Packet, attempts: nat, last: int)
    requires attempts > 0 && last < 0 && (attempts == 1 || l.handle == None || !SendFails(w, l, 0))
    ensures var s := SendRest(w, l, p, attempts, last);
            s.link.usb.sends >= l.usb.sends && SendEndsAfter(w, l, attempts, s, s.link.usb.sends - l.usb.sends)
  {
    if l.handle.Some? {
      SendAgain(w, l, p, attempts, last);
      ReconnectedOnce(w, l, l.usb.(sends := l.usb.sends + 1));
      hide Reconnected;
    }
  }

  lemma ReconnectedOnce(w: World, l: Link, usb: UsbState)
    requires usb.opens == l.usb.opens
    ensures var next := Reconnected(w, l.(usb := usb));
            ReconnectedTimes(w, l, next, 1) && next.usb.sends == usb.sends && next.usb.gets == usb.gets
  {
  }

  /** An attempt that fails, and then what follows the reconnect. */
  lemma SendShift(w: World, l: Link, next: Link, attempts: nat, s: Sending, a: nat)
    requires l.handle.Some? && SendFails(w, l, 0)
    requires next.usb.sends == l.usb.sends + 1 && ReconnectedTimes(w, l, next, 1)
    requires attempts > 1 && SendEndsAfter(w, next, attempts - 1, s, a)
    ensures SendEndsAfter(w, l, attempts, s, a + 1)
  {
    forall j | 0 <= j < a ensures SendFails(w, l, j) && Reopens(w, l, j) {
      assert j > 0 ==> SendFails(w, next, j - 1) && Reopens(w, next, j - 1);
    }
    assert a > 0 ==> SendFails(w, l, a) == SendFails(w, next, a - 1) && Reopens(w, l, a) == Reopens(w, next, a - 1);
    assert a > 1 ==> Reopens(w, l, a - 1) == Reopens(w, next, a - 2);
  }

  /** The same for recv, and its retries. */
  lemma ReceiveEnds(w: World, l: Link, buffer: Packet, retries: nat)
    ensures var r := Receive(w, l, buffer, retries);
            r.link.usb.gets >= l.usb.gets && ReadEndsAfter(w, l, retries + 1, r, r.link.usb.gets - l.usb.gets)
  {
    ReceiveRestEnds(w, l, buffer, retries, 0);
  }

  lemma {:induction false} ReceiveRestEnds(w: World, l: Link, buffer: Packet, retries: nat, failed: nat)
    requires failed <= retries
    ensures var r := ReceiveRest(w, l, buffer, retries, failed);
            && r.link.usb.gets >= l.usb.gets
            && ReadEndsAfter(w, l, retries - failed + 1, r, r.link.usb.gets - l.usb.gets)
    decreases retries - failed
  {
    if l.handle.Some? && ReadFails(w, l, 0) && failed < retries {
      hide ReceiveRest, Reconnected, ReconnectedTimes, ReadEndsAfter;
      ReceiveAgain(w, l, buffer, retries, failed);
      var next := Reconnected(w, l.(usb := l.usb.(gets := l.usb.gets + 1)));
      ReconnectedOnce(w, l, l.usb.(gets := l.usb.gets + 1));
      ReceiveRestEnds(w, next, buffer, retries, failed + 1);
      var r := ReceiveRest(w, l, buffer, retries, failed);
      ReadShift(w, l, next, retries - failed + 1, r, r.link.usb.gets - next.usb.gets);
    }
  }

  lemma ReadShift(w: World, l: Link, next: Link, attempts: nat, r: Receiving, a: nat)
    requires l.handle.Some? && ReadFails(w, l, 0)
    requires next.usb.gets == l.usb.gets + 1 && ReconnectedTimes(w, l, next, 1)
    requires attempts > 1 && ReadEndsAfter(w, next, attempts - 1, r, a)
    ensures ReadEndsAfter(w, l, attempts, r, a + 1)
  {
    forall j | 0 <= j < a ensures ReadFails(w, l, j) && Reopens(w, l, j) {
      assert j > 0 ==> ReadFails(w, next, j - 1) && Reopens(w, next, j - 1);
    }
    assert a > 0 ==> ReadFails(w, l, a) == ReadFails(w, next, a - 1) && Reopens(w, l, a) == Reopens(w, next, a - 1);
    assert a > 1 ==> Reopens(w, l, a - 1) == Reopens(w, next, a - 2);
  }

  /** There is no handle to begin with, or none after one of the first n attempts has failed. */
  ghost predicate SendLosesHandle(w: World, l: Link, n: nat) {
    l.handle == None || exists k: nat :: k < n && SendReaches(w, l, k) && SendFails(w, l, k) && !Reopens(w, l, k)
  }

  ghost predicate ReadLosesHandle(w: World, l: Link, n: nat) {
    l.handle == None || exists k: nat :: k < n && ReadReaches(w, l, k) && ReadFails(w, l, k) && !Reopens(w, l, k)
  }

  /** A send throws exactly when the handle is lost before its third attempt. */
  lemma SendThrowsIff(w: World, l: Link, p: Packet)
    ensures Send(w, l, p).io.Thrown? <==> SendLosesHandle(w, l, 2)
  {
    var s := Send(w, l, p);
    SendEnds(w, l, p);
    hide Send;
    var a := s.link.usb.sends - l.usb.sends;
    if k: nat :| l.handle.Some? && k < 2 && SendReaches(w, l, k) && SendFails(w, l, k) && !Reopens(w, l, k) {
    }
    if s.io.Thrown? && a > 0 {
      assert SendReaches(w, l, a - 1);
    }
  }

  /** A recv throws exactly when the handle is lost before its last permitted attempt. */
  lemma ReceiveThrowsIff(w: World, l: Link, buffer: Packet, retries: nat)
    ensures Receive(w, l, buffer, retries).io.Thrown? <==> ReadLosesHandle(w, l, retries)
  {
    var r := Receive(w, l, buffer, retries);
    ReceiveEnds(w, l, buffer, retries);
    hide Receive;
    var a := r.link.usb.gets - l.usb.gets;
    if k: nat :| l.handle.Some? && k < retries && ReadReaches(w, l, k) && ReadFails(w, l, k) && !Reopens(w, l, k) {
    }
    if r.io.Thrown? && a > 0 {
      assert ReadReaches(w, l, a - 1);
    }
  }

  /** hid_exit is called exactly when the last instance there is gives back a handle. */
  lemma ExitsIff(l: Link)
    ensures Closed(l).usb.exits == l.usb.exits + (if l.handle.Some? && l.instances == 1 then 1 else 0)
    ensures Closed(l).handle == None && Closed(l).usb.open == Others(l)
    ensures l.usb.rashExits <= Closed(l).usb.rashExits
    ensures Closed(l).usb.rashExits > l.usb.rashExits <==> Closed(l).usb.exits > l.usb.exits && Others(l) != {}
  {
  }

  // ---------- Handle ownership of one connection ----------

  /** The handles open somewhere else. */
  function Others(l: Link): set<nat> {
    match l.handle
    case None => l.usb.open
    case Some(h) => l.usb.open - {h}
  }

  /** The connection's own handle is open and every open handle came out of an earlier hid_open. */
  predicate Owns(l: Link) {
    && (l.handle.Some? ==> l.handle.value in l.usb.open)
    && forall h :: h in l.usb.open ==> h < l.usb.opens
  }

  /** What no connection operation on one device can do to the rest. */
  predicate KeepsOthers(l: Link, l': Link) {
    && Owns(l')
    && Others(l') == Others(l)
    && l'.instances == l.instances
    && l.usb.opens <= l'.usb.opens
    && (l'.handle == l.handle || l'.handle == None || l'.handle.value >= l.usb.opens)
    && (l'.usb.rashExits == l.usb.rashExits || (l.instances == 1 && Others(l) != {}))
  }

  lemma ClosedKeepsOthers(l: Link)
    requires Owns(l)
    ensures KeepsOthers(l, Closed(l))
  {
  }

  /** Opening a connection that holds no handle. */
  lemma OpenedKeepsOthers(w: World, l: Link)
    requires Owns(l) && l.handle == None
    ensures KeepsOthers(l, Opened(w, l))
  {
    var n := l.usb.opens;
    assert n !in l.usb.open;
    assert (l.usb.open + {n}) - {n} == l.usb.open;
  }

  /** _reconnect never overwrites an open handle. */
  lemma ReconnectedKeepsOthers(w: World, l: Link)
    requires Owns(l)
    ensures KeepsOthers(l, Reconnected(w, l))
  {
    var c := Closed(l.(reconnects := l.reconnects + 1));
    assert c.handle == None && Others(c) == Others(l);
    OpenedKeepsOthers(w, c);
  }

  lemma KeepsOthersTransitive(l: Link, m: Link, n: Link)
    requires KeepsOthers(l, m) && KeepsOthers(m, n)
    ensures KeepsOthers(l, n)
  {
  }

  lemma {:induction false} SendKeepsOthers(w: World, l: Link, p: Packet, attempts: nat, last: int)
    requires Owns(l)
    ensures KeepsOthers(l, SendRest(w, l, p, attempts, last).link)
    decreases attempts
  {
    if attempts > 0 && last < 0 && l.handle != None {
      var r := w.send(l.usb.sends);
      var l' := l.(usb := l.usb.(sends := l.usb.sends + 1, sent := if r > 0 then l.usb.sent + [p] else l.usb.sent));
      ReconnectedKeepsOthers(w, l');
      SendKeepsOthers(w, if r < 0 then Reconnected(w, l') else l', p, attempts - 1, r);
    }
  }

  lemma {:induction false} ReceiveKeepsOthers(w: World, l: Link, buffer: Packet, retries: nat, failed: nat)
    requires Owns(l) && failed <= retries
    ensures KeepsOthers(l, ReceiveRest(w, l, buffer, retries, failed).link)
    decreases retries - failed
  {
    if l.handle != None && w.get(l.usb.gets).status <= 0 && failed < retries {
      var l' := l.(usb := l.usb.(gets := l.usb.gets + 1));
      ReconnectedKeepsOthers(w, l');
      ReceiveKeepsOthers(w, Reconnected(w, l'), buffer, retries, failed + 1);
    }
  }
}
