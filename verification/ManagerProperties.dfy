/** What the manager's identifiers, models, settings and choices are (NitrokeyManager.cc, device.cc). */
module ManagerProperties {
  import opened Bytes
  import opened Packet
  import opened Replies
  import opened Usb
  import opened Device
  import opened Transaction
  import opened RunProperties
  import opened Enumeration
  import opened Manager
  import CApi
  import StatusLayout
  import Text

  // ---------- Identifiers ----------

  /** The identifier made of a Storage's status: its smart card's number, its SD card's number and its path. */
  predicate IsStatusId(id: string, smartCardId: seq<byte>, sdCardId: seq<byte>, path: string)
    requires |smartCardId| == |sdCardId| == 4
  {
    && |id| == 20 + |path|
    && (forall i :: 0 <= i < 17 && i != 8 ==> Text.IsHexDigit(id[i]))
    && Text.DecodeHex(id[..8]) == Text.Decoded([smartCardId[3], smartCardId[2], smartCardId[1], smartCardId[0]])
    && id[8] == ':'
    && Text.DecodeHex(id[9..17]) == Text.Decoded([sdCardId[3], sdCardId[2], sdCardId[1], sdCardId[0]])
    && id[17..] == "_p_" + path
  }

  lemma StatusIdIs(p: Packet, path: string)
    ensures IsStatusId(StatusId(p, path), p[50..54], p[42..46], path)
  {
    OctetsHex(p[50..54]);
    OctetsHex(p[42..46]);
    hide Text.ToHex, Text.DecodeHex, Text.IsHexDigit, FromLittleEndian;
    IdParts(Text.ToHex(FromLittleEndian(p[50..54])), Text.ToHex(FromLittleEndian(p[42..46])), path);
  }

  lemma IdParts(a: string, b: string, path: string)
    requires |a| == |b| == 8
    ensures var id := a + ":" + b + "_p_" + path;
            && |id| == 20 + |path|
            && id[..8] == a && id[8] == ':' && id[9..17] == b && id[17..] == "_p_" + path
            && (forall i :: 0 <= i < 8 ==> id[i] == a[i]) && (forall i :: 9 <= i < 17 ==> id[i] == b[i - 9])
  {
    var id := a + ":" + b + "_p_" + path;
    assert id == a + (":" + (b + ("_p_" + path)));
  }

  /** Four octets stored least significant first, printed most significant first. */
  lemma OctetsHex(b: seq<byte>)
    requires |b| == 4
    ensures var s := Text.ToHex(FromLittleEndian(b));
            && |s| == 8 && (forall i :: 0 <= i < 8 ==> Text.IsHexDigit(s[i]))
            && Text.DecodeHex(s) == Text.Decoded([b[3], b[2], b[1], b[0]])
  {
    LittleEndianBound(b);
    LittleEndianInverse(b);
    var v := FromLittleEndian(b);
    Text.ToHexDecodes(v);
    ReversedFour(b);
    hide Text.DecodeHex, Text.PaddedHex, FromLittleEndian, ToLittleEndian, Power;
  }

  lemma ReversedFour(b: seq<byte>)
    requires |b| == 4
    ensures Text.Reversed(b) == [b[3], b[2], b[1], b[0]]
  {
    assert b[1..][1..] == b[2..] && b[2..][1..] == b[3..] && b[3..][1..] == [];
    assert Text.Reversed(b[3..]) == [b[3]];
    assert Text.Reversed(b[2..]) == [b[3], b[2]];
    assert Text.Reversed(b[1..]) == [b[3], b[2], b[1]];
  }

  /** What a visited device is registered under, if anything. */
  lemma IdentifierIs(t: Visit)
    ensures match t.probe
            case NotOpened => Identifier(t) == None
            case Probed(Completed(p)) => Identifier(t).Some? && IsStatusId(Identifier(t).value, p[50..54], p[42..46], t.path)
            case Probed(LongOperation(_, _, _)) => Identifier(t) == Some(t.path)
            case Probed(_) => Identifier(t) == None
  {
    match t.probe
    case Probed(Completed(p)) =>
      hide IsStatusId, StatusId;
      StatusIdIs(p, t.path);
    case _ =>
  }

  /** In terms of the status the device has sent. */
  lemma StatusNamesCards(t: Visit, p: Packet, s: StatusLayout.StorageStatus)
    requires t.probe == Probed(Completed(p)) && StatusLayout.IsStorageStatus(s)
    requires p[8..61] == StatusLayout.StoragePayload(s)
    ensures |s.smartCardId| == |s.sdCardId| == 4
    ensures Identifier(t).Some? && IsStatusId(Identifier(t).value, s.smartCardId, s.sdCardId, t.path)
  {
    hide IsStatusId, IdFor, StatusLayout.StoragePayload;
    StatusLayout.StorageOffsets(s);
    PayloadSlices(p);
    IdentifierIs(t);
  }

  lemma PayloadSlices(p: Packet)
    ensures p[50..54] == p[8..61][42..46] && p[42..46] == p[8..61][34..38]
  {
  }

  /** The identifiers of some visits, in order: one for each visit that has one. */
  lemma {:induction false} IdentifiersAppend(a: seq<Visit>, b: seq<Visit>)
    ensures Identifiers(a + b) == Identifiers(a) + Identifiers(b)
    ensures |b| == 1 ==> Identifiers(b) == (if Identifier(b[0]) == None then [] else [Identifier(b[0]).value])
    decreases |b|
  {
    hide Identifier;
    if b == [] {
      assert a + b == a;
    } else {
      var n := |b| - 1;
      IdentifiersAppend(a, b[..n]);
      assert (a + b)[..|a + b| - 1] == a + b[..n];
      if n == 0 {
        assert b[..0] == [];
      }
    }
  }

  /** What the visited device has answered makes id its identifier. */
  ghost predicate Names(id: string, t: Visit) {
    match t.probe
    case Probed(Completed(p)) => IsStatusId(id, p[50..54], p[42..46], t.path)
    case Probed(LongOperation(_, _, _)) => id == t.path
    case _ => false
  }

  /** Every identifier list_devices_by_cpuID returns is one that a device's answer makes, and every such answer has one. */
  lemma {:induction false} ListedIdentifiers(visits: seq<Visit>)
    ensures forall id :: id in Identifiers(visits) ==> exists t :: t in visits && Names(id, t)
    ensures forall t :: t in visits && t.probe.Probed? && (t.probe.outcome.Completed? || t.probe.outcome.LongOperation?) ==>
              exists id :: id in Identifiers(visits) && Names(id, t)
  {
    hide IsStatusId, IdFor;
    if visits != [] {
      var init, last := visits[..|visits| - 1], visits[|visits| - 1];
      ListedIdentifiers(init);
      IdentifierIs(last);
      forall id | id in Identifiers(visits) ensures exists t :: t in visits && Names(id, t) {
        if id in Identifiers(init) {
          var t :| t in init && Names(id, t);
          assert t in visits;
        } else {
          assert last in visits && Names(id, last);
        }
      }
      forall t | t in visits && t.probe.Probed? && (t.probe.outcome.Completed? || t.probe.outcome.LongOperation?)
        ensures exists id :: id in Identifiers(visits) && Names(id, t)
      {
        if t in init {
          var id :| id in Identifiers(init) && Names(id, t);
          assert id in Identifiers(visits);
        } else {
          assert t == last && Identifier(last).value in Identifiers(visits) && Names(Identifier(last).value, last);
        }
      }
    }
  }

  /** The Storage devices' paths, in order: one for each entry of a Storage. */
  lemma {:induction false} StoragePathsAppend(a: seq<DeviceInfo>, b: seq<DeviceInfo>)
    ensures StoragePaths(a + b) == StoragePaths(a) + StoragePaths(b)
    ensures |b| == 1 ==> StoragePaths(b) == if b[0].model == STORAGE then [b[0].path] else []
    decreases |b|
  {
    if b == [] {
      assert a + b == a;
    } else {
      var n := |b| - 1;
      StoragePathsAppend(a, b[..n]);
      assert (a + b)[..|a + b| - 1] == a + b[..n];
      if n == 0 {
        assert b[..0] == [];
      }
    }
  }

  // ---------- Models ----------

  /** connect(DeviceModel) asks for a model by this name. */
  function NameOf(model: DeviceModel): string {
    match model
    case PRO => "P"
    case STORAGE => "S"
    case LIBREM => "L"
  }

  /** A name asks for a model exactly if it begins with that. */
  lemma ModelNamedIff(name: string, model: DeviceModel)
    ensures ModelNamed(name) == Some(model) <==> NameOf(model) <= name
  {
  }

  /** The products the library knows. */
  lemma KnownProducts(vendor: nat, product: nat)
    ensures ProductIdToModel(vendor, product) == Some(PRO) <==> vendor == 0x20a0 && product == 0x4108
    ensures ProductIdToModel(vendor, product) == Some(STORAGE) <==> vendor == 0x20a0 && product == 0x4109
    ensures ProductIdToModel(vendor, product) == Some(LIBREM) <==> vendor == 0x316d && product == 0x4c4b
  {
  }

  predicate IsAt(info: HidInfo, path: string, model: DeviceModel) {
    info.path == path && ProductIdToModel(info.vendorId, info.productId) == Some(model)
  }

  ghost predicate IsKnownAt(info: HidInfo, path: string) {
    exists model :: IsAt(info, path, model)
  }

  ghost predicate FirstAt(infos: seq<HidInfo>, path: string, model: DeviceModel, k: nat) {
    && k < |infos| && IsAt(infos[k], path, model)
    && forall j :: 0 <= j < k ==> !IsKnownAt(infos[j], path)
  }

  /** The model at a path is that of the first listed device there that is known. */
  lemma {:induction false} ModelAtIff(infos: seq<HidInfo>, path: string, model: DeviceModel)
    ensures ModelAt(infos, path) == Some(model) <==> exists k: nat :: FirstAt(infos, path, model, k)
  {
    hide ProductIdToModel;
    if infos != [] {
      var found := ProductIdToModel(infos[0].vendorId, infos[0].productId);
      if infos[0].path == path && found.Some? {
        assert IsAt(infos[0], path, found.value);
        assert found == Some(model) ==> FirstAt(infos, path, model, 0);
        if k: nat :| FirstAt(infos, path, model, k) {
          assert k > 0 ==> !IsKnownAt(infos[0], path);
        }
      } else {
        ModelAtIff(infos[1..], path, model);
        assert !IsKnownAt(infos[0], path);
        if k: nat :| FirstAt(infos[1..], path, model, k) {
          assert FirstAt(infos, path, model, k + 1);
        }
        if k: nat :| FirstAt(infos, path, model, k) {
          assert FirstAt(infos[1..], path, model, k - 1);
        }
      }
    }
  }

  // ---------- Which vendor's device is opened ----------

  /** How many of the first v listings have a known device at the path, each of which is tried. */
  function Tries(enumerations: seq<seq<HidInfo>>, path: string, v: nat): (n: nat)
    requires v <= |enumerations|
    ensures n <= v
  {
    if v == 0 then 0
    else Tries(enumerations, path, v - 1) + (if ModelAt(enumerations[v - 1], path).Some? then 1 else 0)
  }

  predicate IsTried(enumerations: seq<seq<HidInfo>>, path: string, v: nat) {
    v < |enumerations| && ModelAt(enumerations[v], path).Some?
  }

  /** Vendor v's device at the path is tried and opens, and those of all vendors before it do not. */
  predicate OpensFirst(w: World, n: nat, enumerations: seq<seq<HidInfo>>, path: string, v: nat) {
    && IsTried(enumerations, path, v) && w.open(n + Tries(enumerations, path, v))
    && forall j :: 0 <= j < v && IsTried(enumerations, path, j) ==> !w.open(n + Tries(enumerations, path, j))
  }

  lemma {:induction false} TriesShift(enumerations: seq<seq<HidInfo>>, path: string, v: nat)
    requires 0 < v <= |enumerations|
    ensures Tries(enumerations, path, v)
         == Tries(enumerations[1..], path, v - 1) + (if ModelAt(enumerations[0], path).Some? then 1 else 0)
    decreases v
  {
    hide ModelAt;
    if v > 1 {
      TriesShift(enumerations, path, v - 1);
    }
  }

  lemma OpensFirstShift(w: World, n: nat, enumerations: seq<seq<HidInfo>>, path: string, v: nat)
    requires enumerations != [] && v > 0
    requires ModelAt(enumerations[0], path).Some? ==> !w.open(n)
    ensures var n' := if ModelAt(enumerations[0], path).Some? then n + 1 else n;
            OpensFirst(w, n, enumerations, path, v) <==> OpensFirst(w, n', enumerations[1..], path, v - 1)
  {
    hide ModelAt;
    forall j: nat | 0 < j <= |enumerations|
      ensures Tries(enumerations, path, j)
           == Tries(enumerations[1..], path, j - 1) + (if ModelAt(enumerations[0], path).Some? then 1 else 0)
    {
      TriesShift(enumerations, path, j);
    }
    var rest := enumerations[1..];
    forall j: nat | 0 < j ensures IsTried(enumerations, path, j) == IsTried(rest, path, j - 1) {
    }
    if OpensFirst(w, n, enumerations, path, v) {
      forall j | 0 <= j < v - 1 && IsTried(rest, path, j)
        ensures !w.open((if ModelAt(enumerations[0], path).Some? then n + 1 else n) + Tries(rest, path, j))
      {
        assert IsTried(enumerations, path, j + 1);
      }
    }
  }

  /** The opening of vendor v's device, once it has been tried. */
  function OpeningAt(n: nat, enumerations: seq<seq<HidInfo>>, path: string, v: nat): Option<Opening> {
    if IsTried(enumerations, path, v)
    then Some(Opening(ModelAt(enumerations[v], path).value, n + Tries(enumerations, path, v)))
    else None
  }

  lemma FirstVendor(w: World, n: nat, enumerations: seq<seq<HidInfo>>, path: string)
    requires enumerations != []
    ensures OpensFirst(w, n, enumerations, path, 0) <==> ModelAt(enumerations[0], path).Some? && w.open(n)
    ensures OpensFirst(w, n, enumerations, path, 0) ==> forall v: nat :: OpensFirst(w, n, enumerations, path, v) ==> v == 0
    ensures OpensFirst(w, n, enumerations, path, 0) ==>
              FirstOpened(w, n, enumerations, path) == OpeningAt(n, enumerations, path, 0) != None
  {
    assert Tries(enumerations, path, 0) == 0;
    hide ModelAt;
    assert IsTried(enumerations, path, 0) == ModelAt(enumerations[0], path).Some?;
  }

  lemma LaterVendor(w: World, n: nat, enumerations: seq<seq<HidInfo>>, path: string, u: nat)
    requires enumerations != [] && !OpensFirst(w, n, enumerations, path, 0)
    ensures var n' := if ModelAt(enumerations[0], path).Some? then n + 1 else n;
            && (OpensFirst(w, n, enumerations, path, u + 1) <==> OpensFirst(w, n', enumerations[1..], path, u))
            && OpeningAt(n, enumerations, path, u + 1) == OpeningAt(n', enumerations[1..], path, u)
            && FirstOpened(w, n, enumerations, path) == FirstOpened(w, n', enumerations[1..], path)
  {
    FirstVendor(w, n, enumerations, path);
    OpensFirstShift(w, n, enumerations, path, u + 1);
    hide ModelAt, OpensFirst;
    if u + 1 < |enumerations| {
      TriesShift(enumerations, path, u + 1);
    }
  }

  /** connect_with_path opens the first vendor's device that is known at the path and opens, going on to the next. */
  lemma {:induction false} FirstOpenedIff(w: World, n: nat, enumerations: seq<seq<HidInfo>>, path: string)
    ensures forall v: nat :: OpensFirst(w, n, enumerations, path, v) ==>
              FirstOpened(w, n, enumerations, path) == OpeningAt(n, enumerations, path, v) != None
    ensures FirstOpened(w, n, enumerations, path).Some? ==> exists v: nat :: OpensFirst(w, n, enumerations, path, v)
    decreases |enumerations|
  {
    if enumerations == [] {
      assert forall v: nat :: !IsTried(enumerations, path, v);
    } else {
      hide ModelAt, OpensFirst, OpeningAt, FirstOpened, Tries, IsTried;
      FirstVendor(w, n, enumerations, path);
      if !OpensFirst(w, n, enumerations, path, 0) {
        var n', rest := if ModelAt(enumerations[0], path).Some? then n + 1 else n, enumerations[1..];
        FirstOpenedIff(w, n', rest, path);
        forall v: nat | OpensFirst(w, n, enumerations, path, v)
          ensures FirstOpened(w, n, enumerations, path) == OpeningAt(n, enumerations, path, v) != None
        {
          var u: nat :| v == u + 1;
          LaterVendor(w, n, enumerations, path, u);
        }
        LaterVendor(w, n, enumerations, path, 0);
        if FirstOpened(w, n, enumerations, path).Some? {
          var u: nat :| OpensFirst(w, n', rest, path, u);
          LaterVendor(w, n, enumerations, path, u);
          assert OpensFirst(w, n, enumerations, path, u + 1);
        }
      }
    }
  }

  // ---------- Settings ----------

  /** How many reports a run on a device of each model can read, and that some world makes it do so. */
  lemma ReadsByModel(model: DeviceModel, delay: nat, l: Link, c: ErrorCounters, request: Packet)
    requires l.handle.Some?
    ensures var d := DefaultSettings(model, delay);
            var w := SilentBusyWorld(l.usb.gets, d.retries, BusyReport());
            Exchanged(w, d, l, c, request).link.usb.gets == l.usb.gets + (if model == STORAGE then 33880 else 2640)
  {
    ReadBoundReached(DefaultSettings(model, delay), l, c, request);
    hide Exchanged, SilentBusyWorld;
  }

  /** A run's waiting for its first answer and after each rejected one, with and without a default delay. */
  lemma DelaysByModel(model: DeviceModel, delay: nat)
    ensures var d := DefaultSettings(model, delay);
            && d.model == model
            && d.sendReceiveDelay == d.retryTimeout
            && d.sendReceiveDelay == if delay != 0 then delay else if model == STORAGE then 40 else 100
  {
  }

  /** The failures that make connect_with_ID give up a device are those the C interface reports as communication failures. */
  lemma CommunicationFailureIff(o: Outcome)
    ensures IsCommunicationFailure(o) <==> CApi.Thrown(o).Some? && CApi.Thrown(o).value.Communication?
  {
  }
}
