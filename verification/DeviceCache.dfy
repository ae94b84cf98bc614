/** The service's list of known devices and the permission it remembers for each. */
module DeviceCache {
  import opened Wrappers

  datatype Permission = Allowed | NeedRequest | DeniedByUser

  /** A device as the USB manager reports it. */
  datatype UsbDevice = UsbDevice(name: string, deviceId: int, vendorId: int, productId: int, hasPermission: bool)

  datatype DeviceDto = DeviceDto(id: string, deviceId: int, vendorId: int, productId: int, permission: Permission)

  // ---------- What a refresh does, as functions of the list ----------

  predicate Attached(devices: seq<UsbDevice>, d: int) {
    exists i :: 0 <= i < |devices| && devices[i].deviceId == d
  }

  predicate Listed(cache: seq<DeviceDto>, d: int) {
    exists i :: 0 <= i < |cache| && cache[i].deviceId == d
  }

  function Surviving(cache: seq<DeviceDto>, devices: seq<UsbDevice>): seq<DeviceDto> {
    if cache == [] then []
    else
      Surviving(cache[..|cache| - 1], devices)
      + if Attached(devices, cache[|cache| - 1].deviceId) then [cache[|cache| - 1]] else []
  }

  function SeenFirst(device: UsbDevice): DeviceDto {
    DeviceDto(device.name, device.deviceId, device.vendorId, device.productId,
              if device.hasPermission then Allowed else NeedRequest)
  }

  function AddNew(cache: seq<DeviceDto>, devices: seq<UsbDevice>): seq<DeviceDto> {
    if devices == [] then cache
    else
      var before, device := AddNew(cache, devices[..|devices| - 1]), devices[|devices| - 1];
      before + if Listed(before, device.deviceId) then [] else [SeenFirst(device)]
  }

  function Answer(granted: bool): Permission {
    if granted then Allowed else DeniedByUser
  }

  /** The index of the first entry for `d`. */
  function IndexOf(cache: seq<DeviceDto>, d: int): (i: int)
    ensures -1 <= i < |cache|
    ensures i >= 0 ==> cache[i].deviceId == d && forall j :: 0 <= j < i ==> cache[j].deviceId != d
    ensures i < 0 <==> !Listed(cache, d)
  {
    if cache == [] then -1
    else
      var i := IndexOf(cache[..|cache| - 1], d);
      assert forall j :: 0 <= j < |cache| - 1 ==> cache[..|cache| - 1][j] == cache[j];
      if i >= 0 then i else if cache[|cache| - 1].deviceId == d then |cache| - 1 else -1
  }

  function Mark(cache: seq<DeviceDto>, d: int, granted: bool): seq<DeviceDto> {
    var i := IndexOf(cache, d);
    if i < 0 then cache else cache[i := cache[i].(permission := Answer(granted))]
  }

  function Refreshed(cache: seq<DeviceDto>, devices: seq<UsbDevice>, d: int, granted: bool): seq<DeviceDto> {
    Mark(AddNew(Surviving(cache, devices), devices), d, granted)
  }

  // ---------- The service ----------

  class UsbCommunicationService {
    var usbDeviceInfo: seq<DeviceDto>

    constructor ()
      ensures usbDeviceInfo == []
    {
      usbDeviceInfo := [];
    }

    /** indexOfFirst. */
    method IndexOfFirst(d: int) returns (index: int)
      ensures index == IndexOf(usbDeviceInfo, d)
    {
      for i := 0 to |usbDeviceInfo|
        invariant forall j :: 0 <= j < i ==> usbDeviceInfo[j].deviceId != d
      {
        if usbDeviceInfo[i].deviceId == d {
          return i;
        }
      }
      return -1;
    }

    /** removeAll: drops every entry whose device is gone. */
    method RemoveAbsent(devices: seq<UsbDevice>)
      modifies this
      ensures usbDeviceInfo == Surviving(old(usbDeviceInfo), devices)
    {
      var kept := [];
      for i := 0 to |usbDeviceInfo|
        invariant kept == Surviving(usbDeviceInfo[..i], devices)
      {
        assert usbDeviceInfo[..i + 1][..i] == usbDeviceInfo[..i];
        if Attached(devices, usbDeviceInfo[i].deviceId) {
          kept := kept + [usbDeviceInfo[i]];
        }
      }
      assert usbDeviceInfo[..|usbDeviceInfo|] == usbDeviceInfo;
      usbDeviceInfo := kept;
    }

    /** refreshDeviceInfo, with the manager's device list as one stable snapshot; None when
        there is no USB manager. */
    method RefreshDeviceInfo(manager: Option<seq<UsbDevice>>, deviceId: int, permissionGranted: bool)
      modifies this
      ensures usbDeviceInfo ==
        if manager.None? then old(usbDeviceInfo)
        else Refreshed(old(usbDeviceInfo), manager.value, deviceId, permissionGranted)
    {
      if manager.None? {
        return;
      }
      var devices := manager.value;
      RemoveAbsent(devices);
      ghost var survivors := usbDeviceInfo;
      for i := 0 to |devices|
        invariant usbDeviceInfo == AddNew(survivors, devices[..i])
      {
        assert devices[..i + 1][..i] == devices[..i];
        var indexOfDevice := IndexOfFirst(devices[i].deviceId);
        if indexOfDevice < 0 {
          usbDeviceInfo := usbDeviceInfo + [SeenFirst(devices[i])];
        }
      }
      assert devices[..|devices|] == devices;
      var indexOfDevice := IndexOfFirst(deviceId);
      if indexOfDevice >= 0 {
        var entry := usbDeviceInfo[indexOfDevice];
        usbDeviceInfo := usbDeviceInfo[indexOfDevice := entry.(permission :=
          if !permissionGranted then DeniedByUser else Allowed)];
      }
    }
  }

  // ---------- The list mirrors the attached devices ----------

  predicate UniqueIds(cache: seq<DeviceDto>) {
    forall i, j :: 0 <= i < j < |cache| ==> cache[i].deviceId != cache[j].deviceId
  }

  /** Everything the list holds of a device. */
  function EntryOf(cache: seq<DeviceDto>, d: int): Option<DeviceDto> {
    if IndexOf(cache, d) < 0 then None else Some(cache[IndexOf(cache, d)])
  }

  function PermissionOf(cache: seq<DeviceDto>, d: int): Option<Permission> {
    if EntryOf(cache, d).None? then None else Some(EntryOf(cache, d).value.permission)
  }

  /** The first device with that id. */
  function FirstAt(devices: seq<UsbDevice>, d: int): (i: nat)
    requires Attached(devices, d)
    ensures i < |devices| && devices[i].deviceId == d
    ensures forall j :: 0 <= j < i ==> devices[j].deviceId != d
  {
    var before := devices[..|devices| - 1];
    assert forall j :: 0 <= j < |before| ==> before[j] == devices[j];
    if Attached(before, d) then FirstAt(before, d) else |devices| - 1
  }

  /** The entry a device gets when it is first listed. */
  function FirstEntry(devices: seq<UsbDevice>, d: int): (e: DeviceDto)
    requires Attached(devices, d)
    ensures var x := devices[FirstAt(devices, d)];
      e == DeviceDto(x.name, d, x.vendorId, x.productId, if x.hasPermission then Allowed else NeedRequest)
  {
    var before := devices[..|devices| - 1];
    if Attached(before, d) then FirstEntry(before, d) else SeenFirst(devices[|devices| - 1])
  }

  /** The permission it then has. */
  function FirstSeen(devices: seq<UsbDevice>, d: int): (p: Permission)
    requires Attached(devices, d)
    ensures p == if devices[FirstAt(devices, d)].hasPermission then Allowed else NeedRequest
  {
    FirstEntry(devices, d).permission
  }

  lemma {:induction false} SurvivingMembers(cache: seq<DeviceDto>, devices: seq<UsbDevice>, d: int)
    ensures Listed(Surviving(cache, devices), d) <==> Listed(cache, d) && Attached(devices, d)
  {
    if cache != [] {
      SurvivingMembers(cache[..|cache| - 1], devices, d);
      ListedSnoc(cache[..|cache| - 1], cache[|cache| - 1], d);
      ListedSnoc(Surviving(cache[..|cache| - 1], devices), cache[|cache| - 1], d);
      assert cache == cache[..|cache| - 1] + [cache[|cache| - 1]];
      var kept := Surviving(cache[..|cache| - 1], devices);
      assert kept + [] == kept;
    }
  }

  lemma ListedSnoc(cache: seq<DeviceDto>, e: DeviceDto, d: int)
    ensures Listed(cache + [e], d) <==> Listed(cache, d) || e.deviceId == d
  {
    if Listed(cache, d) {
      var i :| 0 <= i < |cache| && cache[i].deviceId == d;
      assert (cache + [e])[i].deviceId == d;
    }
    assert (cache + [e])[|cache|] == e;
  }

  lemma IndexOfSnoc(cache: seq<DeviceDto>, e: DeviceDto, d: int)
    ensures IndexOf(cache + [e], d) == if Listed(cache, d) then IndexOf(cache, d)
                                       else if e.deviceId == d then |cache| else -1
  {
    assert (cache + [e])[..|cache|] == cache;
  }

  lemma EntrySnoc(cache: seq<DeviceDto>, e: DeviceDto, d: int)
    ensures EntryOf(cache + [e], d) ==
      if Listed(cache, d) then EntryOf(cache, d)
      else if e.deviceId == d then Some(e) else None
  {
    IndexOfSnoc(cache, e, d);
  }

  /** Dropping absent devices keeps all there is of the others. */
  lemma {:induction false} SurvivingEntry(cache: seq<DeviceDto>, devices: seq<UsbDevice>, d: int)
    requires Attached(devices, d)
    ensures EntryOf(Surviving(cache, devices), d) == EntryOf(cache, d)
  {
    if cache != [] {
      var before, e := cache[..|cache| - 1], cache[|cache| - 1];
      assert cache == before + [e];
      SurvivingEntry(before, devices, d);
      SurvivingMembers(before, devices, d);
      EntrySnoc(before, e, d);
      EntrySnoc(Surviving(before, devices), e, d);
      assert !Attached(devices, e.deviceId) ==> Surviving(before, devices) + [] == Surviving(before, devices);
    }
  }

  lemma AttachedSnoc(devices: seq<UsbDevice>, d: int)
    requires devices != []
    ensures Attached(devices, d) <==>
      Attached(devices[..|devices| - 1], d) || devices[|devices| - 1].deviceId == d
  {
    var before := devices[..|devices| - 1];
    assert forall i :: 0 <= i < |before| ==> before[i] == devices[i];
  }

  /** New devices go behind the survivors, which stay as they are; afterwards exactly the
      listed and the attached devices are listed. */
  lemma {:induction false} AddNewEntry(cache: seq<DeviceDto>, devices: seq<UsbDevice>, d: int)
    ensures cache <= AddNew(cache, devices)
    ensures Listed(AddNew(cache, devices), d) <==> Listed(cache, d) || Attached(devices, d)
    ensures EntryOf(AddNew(cache, devices), d) ==
      if Listed(cache, d) then EntryOf(cache, d)
      else if Attached(devices, d) then Some(FirstEntry(devices, d)) else None
  {
    if devices != [] {
      var before, device := devices[..|devices| - 1], devices[|devices| - 1];
      AddNewEntry(cache, before, d);
      AttachedSnoc(devices, d);
      var listed := AddNew(cache, before);
      if !Listed(listed, device.deviceId) {
        ListedSnoc(listed, SeenFirst(device), d);
        EntrySnoc(listed, SeenFirst(device), d);
      } else {
        assert listed + [] == listed;
      }
    }
  }

  lemma {:induction false} AddNewUnique(cache: seq<DeviceDto>, devices: seq<UsbDevice>)
    requires UniqueIds(cache)
    ensures UniqueIds(AddNew(cache, devices))
  {
    if devices != [] {
      AddNewUnique(cache, devices[..|devices| - 1]);
    }
  }

  lemma {:induction false} SurvivingUnique(cache: seq<DeviceDto>, devices: seq<UsbDevice>)
    requires UniqueIds(cache)
    ensures UniqueIds(Surviving(cache, devices))
  {
    if cache != [] {
      var before, e := cache[..|cache| - 1], cache[|cache| - 1];
      SurvivingUnique(before, devices);
      SurvivingMembers(before, devices, e.deviceId);
    }
  }

  /** Marking a device changes its own permission, nothing else of it and nobody else's. */
  lemma MarkEntry(cache: seq<DeviceDto>, id: int, granted: bool, d: int)
    ensures EntryOf(Mark(cache, id, granted), d) ==
      if d == id && Listed(cache, d)
      then Some(EntryOf(cache, d).value.(permission := if granted then Allowed else DeniedByUser))
      else EntryOf(cache, d)
    ensures Ids(Mark(cache, id, granted)) == Ids(cache)
  {
    var marked := Mark(cache, id, granted);
    assert Ids(marked) == Ids(cache);
    IndexByIds(cache, marked, d);
  }

  function Ids(cache: seq<DeviceDto>): (ids: seq<int>)
    ensures |ids| == |cache| && forall i :: 0 <= i < |cache| ==> ids[i] == cache[i].deviceId
  {
    if cache == [] then [] else Ids(cache[..|cache| - 1]) + [cache[|cache| - 1].deviceId]
  }

  lemma IndexByIds(a: seq<DeviceDto>, b: seq<DeviceDto>, d: int)
    requires Ids(a) == Ids(b)
    ensures IndexOf(a, d) == IndexOf(b, d)
  {
    var i, j := IndexOf(a, d), IndexOf(b, d);
    assert i >= 0 ==> b[i].deviceId == Ids(b)[i] == d;
    assert j >= 0 ==> a[j].deviceId == Ids(a)[j] == d;
  }

  lemma MarkKeepsTheIds(cache: seq<DeviceDto>, id: int, granted: bool, d: int)
    ensures UniqueIds(cache) ==> UniqueIds(Mark(cache, id, granted))
    ensures Listed(Mark(cache, id, granted), d) <==> Listed(cache, d)
    ensures Ids(Mark(cache, id, granted)) == Ids(cache)
  {
    var marked := Mark(cache, id, granted);
    MarkEntry(cache, id, granted, d);
    IndexByIds(cache, marked, d);
    if UniqueIds(cache) {
      UniqueByIds(cache, marked);
    }
  }

  lemma AddNewMirrors(survivors: seq<DeviceDto>, devices: seq<UsbDevice>, d: int)
    requires UniqueIds(survivors) && (Listed(survivors, d) ==> Attached(devices, d))
    ensures UniqueIds(AddNew(survivors, devices))
    ensures Listed(AddNew(survivors, devices), d) <==> Attached(devices, d)
    ensures Ids(survivors) <= Ids(AddNew(survivors, devices))
  {
    AddNewUnique(survivors, devices);
    AddNewEntry(survivors, devices, d);
    assert survivors <= AddNew(survivors, devices);
  }

  /** After any refresh the listed devices are exactly the attached ones, each once, with
      the survivors in front and in their old order. */
  lemma RefreshMirrorsDevices(cache: seq<DeviceDto>, devices: seq<UsbDevice>, id: int, granted: bool, d: int)
    requires UniqueIds(cache)
    ensures var r := Refreshed(cache, devices, id, granted);
      && UniqueIds(r)
      && (Listed(r, d) <==> Attached(devices, d))
      && Ids(Surviving(cache, devices)) <= Ids(r)
  {
    var survivors := Surviving(cache, devices);
    SurvivingUnique(cache, devices);
    SurvivingMembers(cache, devices, d);
    AddNewMirrors(survivors, devices, d);
    MarkKeepsTheIds(AddNew(survivors, devices), id, granted, d);
  }

  lemma UniqueByIds(a: seq<DeviceDto>, b: seq<DeviceDto>)
    requires Ids(a) == Ids(b) && UniqueIds(a)
    ensures UniqueIds(b)
  {
    forall i, j | 0 <= i < j < |b|
      ensures b[i].deviceId != b[j].deviceId
    {
      assert Ids(a)[i] == b[i].deviceId && Ids(a)[j] == b[j].deviceId;
    }
  }

  /** What one refresh makes of the entry of one device, field by field: it is dropped with
      its device, kept as it was, or made from the device as first seen; and its permission
      is what the answer says if the answer is for it. */
  lemma RefreshEntry(cache: seq<DeviceDto>, devices: seq<UsbDevice>, id: int, granted: bool, d: int)
    ensures EntryOf(Refreshed(cache, devices, id, granted), d) ==
      if !Attached(devices, d) then None
      else
        var x := devices[FirstAt(devices, d)];
        var e := if Listed(cache, d) then EntryOf(cache, d).value
                 else DeviceDto(x.name, d, x.vendorId, x.productId,
                                if x.hasPermission then Allowed else NeedRequest);
        Some(if d == id then e.(permission := if granted then Allowed else DeniedByUser) else e)
  {
    var survivors := Surviving(cache, devices);
    SurvivingMembers(cache, devices, d);
    if Attached(devices, d) {
      SurvivingEntry(cache, devices, d);
    }
    AddNewEntry(survivors, devices, d);
    MarkEntry(AddNew(survivors, devices), id, granted, d);
  }

  /** In particular, what it does to what is remembered of one device. */
  lemma RefreshPermission(cache: seq<DeviceDto>, devices: seq<UsbDevice>, id: int, granted: bool, d: int)
    ensures PermissionOf(Refreshed(cache, devices, id, granted), d) ==
      if !Attached(devices, d) then None
      else if d == id then Some(if granted then Allowed else DeniedByUser)
      else if Listed(cache, d) then PermissionOf(cache, d)
      else Some(FirstSeen(devices, d))
  {
    RefreshEntry(cache, devices, id, granted, d);
  }

  // ---------- The order of the list ----------

  lemma {:induction false} SurvivingOrder(cache: seq<DeviceDto>, devices: seq<UsbDevice>, d: int, e: int)
    requires Listed(cache, d) && Listed(cache, e) && Attached(devices, d) && Attached(devices, e)
    ensures IndexOf(Surviving(cache, devices), d) < IndexOf(Surviving(cache, devices), e)
       <==> IndexOf(cache, d) < IndexOf(cache, e)
    decreases |cache|
  {
    var before, x := cache[..|cache| - 1], cache[|cache| - 1];
    assert cache == before + [x];
    var kept := Surviving(before, devices);
    ListedSnoc(before, x, d);
    ListedSnoc(before, x, e);
    SurvivingMembers(before, devices, d);
    SurvivingMembers(before, devices, e);
    IndexOfSnoc(before, x, d);
    IndexOfSnoc(before, x, e);
    IndexOfSnoc(kept, x, d);
    IndexOfSnoc(kept, x, e);
    assert kept + [] == kept;
    if Listed(before, d) && Listed(before, e) {
      SurvivingOrder(before, devices, d, e);
    }
  }

  lemma {:induction false} AddNewOrder(cache: seq<DeviceDto>, devices: seq<UsbDevice>, d: int, e: int)
    requires !Listed(cache, d) && !Listed(cache, e) && Attached(devices, d) && Attached(devices, e)
    ensures IndexOf(AddNew(cache, devices), d) < IndexOf(AddNew(cache, devices), e)
       <==> FirstAt(devices, d) < FirstAt(devices, e)
    decreases |devices|
  {
    var before, x := devices[..|devices| - 1], devices[|devices| - 1];
    var listed := AddNew(cache, before);
    AttachedSnoc(devices, d);
    AttachedSnoc(devices, e);
    AddNewEntry(cache, before, d);
    AddNewEntry(cache, before, e);
    IndexOfSnoc(listed, SeenFirst(x), d);
    IndexOfSnoc(listed, SeenFirst(x), e);
    assert listed + [] == listed;
    if Attached(before, d) && Attached(before, e) {
      AddNewOrder(cache, before, d, e);
    }
  }

  lemma {:induction false} AddNewKeepsIndex(cache: seq<DeviceDto>, devices: seq<UsbDevice>, d: int)
    ensures Listed(cache, d) ==> IndexOf(AddNew(cache, devices), d) == IndexOf(cache, d)
    ensures !Listed(cache, d) && Attached(devices, d) ==> IndexOf(AddNew(cache, devices), d) >= |cache|
    decreases |devices|
  {
    if devices != [] {
      var before, x := devices[..|devices| - 1], devices[|devices| - 1];
      var listed := AddNew(cache, before);
      AddNewKeepsIndex(cache, before, d);
      AddNewEntry(cache, before, d);
      AttachedSnoc(devices, d);
      IndexOfSnoc(listed, SeenFirst(x), d);
      assert listed + [] == listed;
    }
  }

  /** The devices that stay keep their order, the new ones come behind them, and among
      themselves these stand as the USB manager lists them. */
  lemma RefreshOrder(cache: seq<DeviceDto>, devices: seq<UsbDevice>, id: int, granted: bool, d: int, e: int)
    requires Attached(devices, d) && Attached(devices, e)
    ensures var r := Refreshed(cache, devices, id, granted);
      && (Listed(cache, d) && Listed(cache, e) ==>
            (IndexOf(r, d) < IndexOf(r, e) <==> IndexOf(cache, d) < IndexOf(cache, e)))
      && (Listed(cache, d) && !Listed(cache, e) ==> IndexOf(r, d) < IndexOf(r, e))
      && (!Listed(cache, d) && !Listed(cache, e) ==>
            (IndexOf(r, d) < IndexOf(r, e) <==> FirstAt(devices, d) < FirstAt(devices, e)))
  {
    var survivors := Surviving(cache, devices);
    var added := AddNew(survivors, devices);
    SurvivingMembers(cache, devices, d);
    SurvivingMembers(cache, devices, e);
    AddNewKeepsIndex(survivors, devices, d);
    AddNewKeepsIndex(survivors, devices, e);
    MarkEntry(added, id, granted, d);
    IndexByIds(added, Mark(added, id, granted), d);
    IndexByIds(added, Mark(added, id, granted), e);
    if Listed(cache, d) && Listed(cache, e) {
      SurvivingOrder(cache, devices, d, e);
    } else if !Listed(cache, d) && !Listed(cache, e) {
      AddNewOrder(survivors, devices, d, e);
    }
  }

  // ---------- Histories ----------

  /** A refresh: the snapshot it sees and the arguments it is called with. */
  datatype Refresh = Refresh(devices: seq<UsbDevice>, deviceId: int, granted: bool)

  function CacheAfter(history: seq<Refresh>): seq<DeviceDto> {
    if history == [] then []
    else
      var e := history[|history| - 1];
      Refreshed(CacheAfter(history[..|history| - 1]), e.devices, e.deviceId, e.granted)
  }

  /** The device has been attached in every refresh from `a` on, and not just before. */
  predicate AttachedSince(history: seq<Refresh>, d: int, a: nat) {
    && a < |history|
    && (forall j :: a <= j < |history| ==> Attached(history[j].devices, d))
    && (a > 0 ==> !Attached(history[a - 1].devices, d))
  }

  /** Refresh `k` is the last one that names the device. */
  predicate LastNaming(history: seq<Refresh>, d: int, k: nat) {
    && k < |history|
    && history[k].deviceId == d
    && forall j :: k < j < |history| ==> history[j].deviceId != d
  }

  lemma {:induction false} HistoryMirrorsDevices(history: seq<Refresh>, d: int)
    requires history != []
    ensures UniqueIds(CacheAfter(history))
    ensures Listed(CacheAfter(history), d) <==> Attached(history[|history| - 1].devices, d)
  {
    var before, e := history[..|history| - 1], history[|history| - 1];
    if before != [] {
      HistoryMirrorsDevices(before, d);
    }
    RefreshMirrorsDevices(CacheAfter(before), e.devices, e.deviceId, e.granted, d);
  }

  lemma EarlierHistory(history: seq<Refresh>, d: int, a: nat, k: nat)
    requires history != []
    ensures var n := |history| - 1;
      && (AttachedSince(history, d, a) && a < n ==> AttachedSince(history[..n], d, a))
      && (LastNaming(history, d, k) && k < n ==> LastNaming(history[..n], d, k))
  {
    var n := |history| - 1;
    assert forall j :: 0 <= j < n ==> history[..n][j] == history[j];
  }

  /** What is remembered of a device after a history. */
  function Remembered(history: seq<Refresh>, d: int): Option<Permission> {
    PermissionOf(CacheAfter(history), d)
  }

  /** The last refresh of a history, in terms of what was remembered before it. */
  lemma LastRefresh(history: seq<Refresh>, d: int)
    requires history != []
    ensures var n := |history| - 1;
      var e := history[n];
      Remembered(history, d) ==
      if !Attached(e.devices, d) then None
      else if d == e.deviceId then Some(if e.granted then Allowed else DeniedByUser)
      else if n > 0 && Attached(history[n - 1].devices, d) then Remembered(history[..n], d)
      else Some(FirstSeen(e.devices, d))
  {
    var n := |history| - 1;
    var before, e := history[..n], history[n];
    RefreshPermission(CacheAfter(before), e.devices, e.deviceId, e.granted, d);
    if n > 0 {
      HistoryMirrorsDevices(before, d);
    }
  }

  /** A refresh that neither names the device nor brings it leaves what is remembered. */
  lemma RefreshKeeps(history: seq<Refresh>, d: int, a: nat)
    requires AttachedSince(history, d, a) && a < |history| - 1
    requires history[|history| - 1].deviceId != d
    ensures Remembered(history, d) == Remembered(history[..|history| - 1], d)
  {
    assert Attached(history[|history| - 1].devices, d) && Attached(history[|history| - 2].devices, d);
    LastRefresh(history, d);
  }

  lemma RefreshAnswers(history: seq<Refresh>, d: int, a: nat)
    requires AttachedSince(history, d, a) && history[|history| - 1].deviceId == d
    ensures Remembered(history, d) == Some(if history[|history| - 1].granted then Allowed else DeniedByUser)
  {
    assert Attached(history[|history| - 1].devices, d);
    LastRefresh(history, d);
  }

  lemma RefreshFinds(history: seq<Refresh>, d: int)
    requires history != [] && AttachedSince(history, d, |history| - 1) && history[|history| - 1].deviceId != d
    ensures Remembered(history, d) == Some(FirstSeen(history[|history| - 1].devices, d))
  {
    assert Attached(history[|history| - 1].devices, d);
    LastRefresh(history, d);
  }

  /** An answer given while the device was attached stays until the next one. */
  lemma {:induction false} LastAnswerStands(history: seq<Refresh>, d: int, a: nat, k: nat)
    requires AttachedSince(history, d, a) && a <= k && LastNaming(history, d, k)
    ensures Remembered(history, d) == Some(if history[k].granted then Allowed else DeniedByUser)
  {
    var n := |history| - 1;
    if k < n {
      RefreshKeeps(history, d, a);
      EarlierHistory(history, d, a, k);
      LastAnswerStands(history[..n], d, a, k);
    } else {
      RefreshAnswers(history, d, a);
    }
  }

  /** No refresh from `a` on names the device. */
  predicate UnnamedSince(history: seq<Refresh>, d: int, a: nat) {
    forall j :: a <= j < |history| ==> history[j].deviceId != d
  }

  lemma EarlierUnnamed(history: seq<Refresh>, d: int, a: nat)
    requires AttachedSince(history, d, a) && UnnamedSince(history, d, a) && a < |history| - 1
    ensures var before := history[..|history| - 1];
      AttachedSince(before, d, a) && UnnamedSince(before, d, a) && before[a] == history[a]
    ensures history[|history| - 1].deviceId != d
  {
    var n := |history| - 1;
    assert forall j :: 0 <= j < n ==> history[..n][j] == history[j];
  }

  /** Without an answer since the device appeared, what was seen then stands. */
  lemma {:induction false} FirstSightStands(history: seq<Refresh>, d: int, a: nat)
    requires AttachedSince(history, d, a) && UnnamedSince(history, d, a)
    ensures Remembered(history, d) == Some(FirstSeen(history[a].devices, d))
  {
    var n := |history| - 1;
    if a < n {
      EarlierUnnamed(history, d, a);
      RefreshKeeps(history, d, a);
      FirstSightStands(history[..n], d, a);
    } else {
      RefreshFinds(history, d);
    }
  }

  lemma {:induction false} FindAppearance(history: seq<Refresh>, d: int) returns (a: nat)
    requires history != [] && Attached(history[|history| - 1].devices, d)
    ensures AttachedSince(history, d, a)
  {
    var n := |history| - 1;
    if n > 0 && Attached(history[n - 1].devices, d) {
      a := FindAppearance(history[..n], d);
      assert forall j :: a <= j < n ==> history[..n][j] == history[j];
    } else {
      a := n;
    }
  }

  lemma {:induction false} FindNaming(history: seq<Refresh>, d: int, a: nat) returns (k: int)
    requires a <= |history|
    ensures k == -1 || (a <= k && LastNaming(history, d, k))
    ensures k == -1 ==> UnnamedSince(history, d, a)
  {
    if a == |history| {
      return -1;
    }
    var n := |history| - 1;
    if history[n].deviceId == d {
      return n;
    }
    k := FindNaming(history[..n], d, a);
    assert forall j :: 0 <= j < n ==> history[..n][j] == history[j];
  }

  /** For every history: an unattached device is unknown, and the permission of an attached
      one is the last answer since it last appeared, or else what was seen when it did. */
  lemma PermissionExplained(history: seq<Refresh>, d: int)
    requires history != []
    ensures var p := Remembered(history, d);
      if !Attached(history[|history| - 1].devices, d) then p == None
      else
        || (exists a: nat, k: nat :: AttachedSince(history, d, a) && a <= k && LastNaming(history, d, k)
                           && p == Some(if history[k].granted then Allowed else DeniedByUser))
        || (exists a: nat :: AttachedSince(history, d, a)
                        && UnnamedSince(history, d, a)
                        && p == Some(FirstSeen(history[a].devices, d)))
  {
    LastRefresh(history, d);
    if Attached(history[|history| - 1].devices, d) {
      var a := FindAppearance(history, d);
      var k := FindNaming(history, d, a);
      if k == -1 {
        FirstSightStands(history, d, a);
      } else {
        LastAnswerStands(history, d, a, k);
      }
    }
  }

  // ---------- Broadcasts ----------

  /** What the receiver reacts to. An answer may come without its device. */
  datatype Broadcast = PermissionAnswer(device: Option<int>, granted: bool) | DeviceAttached | DeviceDetached

  /** onReceive: the refresh a broadcast leads to. */
  function OnReceive(b: Broadcast, devices: seq<UsbDevice>): Refresh {
    match b
    case PermissionAnswer(device, granted) =>
      Refresh(devices, if device.Some? then device.value else 0, granted)
    case _ => Refresh(devices, 0, false)
  }

  /** Every broadcast is an explicit answer for exactly the devices it names, except that
      all of them but the answers for real devices name the device with id 0. */
  lemma OnlyAnswersName(b: Broadcast, devices: seq<UsbDevice>, d: int)
    ensures OnReceive(b, devices).deviceId == d <==>
      b == PermissionAnswer(Some(d), true) || b == PermissionAnswer(Some(d), false)
      || (d == 0 && (!b.PermissionAnswer? || b.device.None?))
  {
  }

  /** So a device that has id 0 is denied by the mere arrival of another. */
  lemma ZeroIdIsDenied(history: seq<Refresh>, b: Broadcast, devices: seq<UsbDevice>)
    requires !b.PermissionAnswer? && Attached(devices, 0)
    ensures Remembered(history + [OnReceive(b, devices)], 0) == Some(DeniedByUser)
  {
    LastRefresh(history + [OnReceive(b, devices)], 0);
  }

  // ---------- The life of the service ----------

  /** What makes the service refresh its list, with the devices it then sees: its creation,
      and the broadcasts. */
  datatype Event = Created(devices: seq<UsbDevice>) | Received(broadcast: Broadcast, devices: seq<UsbDevice>)

  function RefreshFor(e: Event): Refresh {
    match e
    case Created(devices) => Refresh(devices, 0, false)
    case Received(broadcast, devices) => OnReceive(broadcast, devices)
  }

  function Refreshes(events: seq<Event>): (history: seq<Refresh>)
    ensures |history| == |events|
    ensures forall i :: 0 <= i < |events| ==> history[i] == RefreshFor(events[i])
  {
    if events == [] then [] else Refreshes(events[..|events| - 1]) + [RefreshFor(events[|events| - 1])]
  }

  /** The user's answer to a request for this very device. */
  predicate Answers(e: Event, d: int) {
    e.Received? && e.broadcast.PermissionAnswer? && e.broadcast.device == Some(d)
  }

  lemma AnswersAreNamings(e: Event, d: int)
    requires d != 0
    ensures RefreshFor(e).deviceId == d <==> Answers(e, d)
    ensures Answers(e, d) ==> RefreshFor(e).granted == e.broadcast.granted
    ensures RefreshFor(e).devices == e.devices
  {
  }

  /** The device has been there in every event from `a` on, and not just before. */
  predicate PresentSince(events: seq<Event>, d: int, a: nat) {
    && a < |events|
    && (forall j :: a <= j < |events| ==> Attached(events[j].devices, d))
    && (a > 0 ==> !Attached(events[a - 1].devices, d))
  }

  predicate LastAnswer(events: seq<Event>, d: int, k: nat) {
    && k < |events|
    && Answers(events[k], d)
    && forall j :: k < j < |events| ==> !Answers(events[j], d)
  }

  /** The last answer for the device came after event `a`, and it is `p`. */
  ghost predicate AnsweredWith(events: seq<Event>, d: int, a: nat, p: Option<Permission>) {
    exists k: nat :: a <= k && LastAnswer(events, d, k)
                     && p == Some(if events[k].broadcast.granted then Allowed else DeniedByUser)
  }

  predicate UnansweredSince(events: seq<Event>, d: int, a: nat) {
    forall j :: a <= j < |events| ==> !Answers(events[j], d)
  }

  ghost predicate ExplainedSince(events: seq<Event>, d: int, a: nat, p: Option<Permission>)
    requires a < |events| && Attached(events[a].devices, d)
  {
    || AnsweredWith(events, d, a, p)
    || (UnansweredSince(events, d, a) && p == Some(FirstSeen(events[a].devices, d)))
  }

  lemma EventsAsRefreshes(events: seq<Event>, d: int, a: nat, k: nat)
    requires d != 0
    ensures PresentSince(events, d, a) <==> AttachedSince(Refreshes(events), d, a)
    ensures LastAnswer(events, d, k) <==> LastNaming(Refreshes(events), d, k)
  {
    forall j | 0 <= j < |events|
      ensures Refreshes(events)[j].deviceId == d <==> Answers(events[j], d)
      ensures Refreshes(events)[j].devices == events[j].devices
    {
      AnswersAreNamings(events[j], d);
    }
  }

  /** The creation of the service counts as a denial of the device with id 0, like the arrival
      and the departure of devices. */
  lemma OthersDenyZero(e: Event)
    requires !(e.Received? && e.broadcast.PermissionAnswer?)
    ensures RefreshFor(e) == Refresh(e.devices, 0, false)
  {
  }

  /** Whatever broadcasts come: the service forgets a device that is gone, and of a present
      one it remembers the last answer the user gave for it since it last appeared, or else
      the permission it had then. */
  lemma PermissionFromBroadcasts(events: seq<Event>, d: int)
    requires events != [] && d != 0
    ensures var p := Remembered(Refreshes(events), d);
      if !Attached(events[|events| - 1].devices, d) then p == None
      else exists a: nat :: PresentSince(events, d, a) && ExplainedSince(events, d, a, p)
  {
    var history := Refreshes(events);
    LastRefresh(history, d);
    AnswersAreNamings(events[|events| - 1], d);
    if Attached(history[|history| - 1].devices, d) {
      var a := FindAppearance(history, d);
      EventsAsRefreshes(events, d, a, 0);
      var k := FindNaming(history, d, a);
      if k == -1 {
        FirstSightStands(history, d, a);
        NoneAnswers(events, d, a);
      } else {
        LastAnswerStands(history, d, a, k);
        EventsAsRefreshes(events, d, a, k);
        AnswersAreNamings(events[k], d);
      }
    }
  }

  lemma {:induction false} NoneAnswers(events: seq<Event>, d: int, a: nat)
    requires d != 0 && a < |events|
    requires UnnamedSince(Refreshes(events), d, a)
    ensures UnansweredSince(events, d, a)
    ensures Refreshes(events)[a].devices == events[a].devices
  {
    forall j | a <= j < |events|
      ensures !Answers(events[j], d)
    {
      assert Refreshes(events)[j] == RefreshFor(events[j]);
      AnswersAreNamings(events[j], d);
    }
    AnswersAreNamings(events[a], d);
  }
}
