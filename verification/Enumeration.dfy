/** What hidapi and the library report about attached devices (device.cc). */
module Enumeration {
  import opened Replies
  import opened Usb

  /** An entry of hid_enumerate. */
  datatype HidInfo = HidInfo(path: string, vendorId: nat, productId: nat)

  /** An entry of Device::enumerate. */
  datatype DeviceInfo = DeviceInfo(model: DeviceModel, path: string, serialNumber: string)

  const NITROKEY_VID: nat := 0x20a0
  const NITROKEY_PRO_PID: nat := 0x4108
  const NITROKEY_STORAGE_PID: nat := 0x4109
  const PURISM_VID: nat := 0x316d
  const LIBREM_KEY_PID: nat := 0x4c4b

  function ProductIdToModel(vendorId: nat, productId: nat): Option<DeviceModel> {
    if vendorId == NITROKEY_VID && productId == NITROKEY_PRO_PID then Some(PRO)
    else if vendorId == NITROKEY_VID && productId == NITROKEY_STORAGE_PID then Some(STORAGE)
    else if vendorId == PURISM_VID && productId == LIBREM_KEY_PID then Some(LIBREM)
    else None
  }

  /** The model of the first entry for this path that is one of the library's devices. */
  function ModelAt(infos: seq<HidInfo>, path: string): Option<DeviceModel> {
    if infos == [] then None
    else
      var model := ProductIdToModel(infos[0].vendorId, infos[0].productId);
      if infos[0].path == path && model.Some? then model else ModelAt(infos[1..], path)
  }
}
