/** Picking the HID interface to open from the enumerated devices. The IMU and the MCU
    run the same search, each against its own interface table. */
module Discovery {
  import opened Wrappers
  import Ids

  /** What enumeration reports about one HID interface. The product id may be missing
      (it is not a number) and so may the path. */
  datatype DeviceInfo = DeviceInfo(vendorId: int, productId: Option<int>, iface: int, path: Option<string>)

  datatype Component = Imu | Mcu

  /** The interface table of the component. */
  function InterfaceId(component: Component, productId: int): int {
    match component
    case Imu => Ids.ImuInterfaceId(productId)
    case Mcu => Ids.McuInterfaceId(productId)
  }

  /** Whether the search stops at this entry. */
  predicate Matches(component: Component, info: DeviceInfo) {
    && info.vendorId == Ids.VendorId
    && info.productId.Some?
    && InterfaceId(component, info.productId.value) != -1
    && info.iface == InterfaceId(component, info.productId.value)
  }

  /** The search loop of `imuOpen` and `mcuOpen`: the first matching entry, or `None`. */
  function FindDevice(component: Component, infos: seq<DeviceInfo>): (r: Option<nat>)
    ensures r.Some? ==> r.value < |infos| && Matches(component, infos[r.value])
    ensures r.Some? ==> forall i :: 0 <= i < r.value ==> !Matches(component, infos[i])
    ensures r.None? ==> forall i :: 0 <= i < |infos| ==> !Matches(component, infos[i])
  {
    if |infos| == 0 then None
    else if Matches(component, infos[0]) then Some(0)
    else match FindDevice(component, infos[1..])
      case None => None
      case Some(k) => Some(k + 1)
  }

  datatype SelectError = NoUsableDevice

  /** The device the driver opens: the first match, which must also have a non-empty
      path; a match without one fails even when a later entry would also match. */
  function SelectDevice(component: Component, infos: seq<DeviceInfo>): (r: Result<DeviceInfo, SelectError>)
    ensures r.Ok? ==> r.value in infos && Matches(component, r.value)
    ensures r.Ok? ==> r.value.path.Some? && r.value.path.value != ""
    ensures r.Ok? ==> Ids.IsXrealProductId(r.value.productId.value)
    ensures r.Ok? ==> FindDevice(component, infos).Some? && r.value == infos[FindDevice(component, infos).value]
  {
    match FindDevice(component, infos)
    case None => Err(NoUsableDevice)
    case Some(k) =>
      var chosen := infos[k];
      if chosen.path.None? || chosen.path.value == "" then Err(NoUsableDevice) else Ok(chosen)
  }

  /** A selected device is a glasses interface of the right kind: the same vendor, a
      known product, and the interface its table names. */
  lemma {:induction false} SelectedInterfaceIsTheTableEntry(component: Component, infos: seq<DeviceInfo>)
    requires SelectDevice(component, infos).Ok?
    ensures var info := SelectDevice(component, infos).value;
            info.vendorId == 0x3318 && info.iface >= 0
            && info.iface == (if component == Imu then Ids.ImuInterfaceId(info.productId.value)
                              else Ids.McuInterfaceId(info.productId.value))
  {
    var info := SelectDevice(component, infos).value;
    Ids.TablesAreConsistent(info.productId.value);
  }

  /** Selection fails exactly when no entry matches or the first match has no path. */
  lemma {:induction false} SelectFailsOnlyWithoutUsableMatch(component: Component, infos: seq<DeviceInfo>)
    ensures SelectDevice(component, infos).Err?
            <==> (forall i :: 0 <= i < |infos| ==> !Matches(component, infos[i]))
                 || exists k :: 0 <= k < |infos| && Matches(component, infos[k])
                                && (forall i :: 0 <= i < k ==> !Matches(component, infos[i]))
                                && (infos[k].path.None? || infos[k].path.value == "")
  {
    match FindDevice(component, infos)
    case None =>
    case Some(k) =>
      forall j | 0 <= j < |infos| && Matches(component, infos[j])
                 && (forall i :: 0 <= i < j ==> !Matches(component, infos[i]))
        ensures j == k
      {
      }
  }
}
