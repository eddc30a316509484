/** Shared types: the source's `Option`, `Result`, `HalError` and `MapPermissions`. */
module Hal {

  datatype Option<+T> = None | Some(value: T)

  datatype HalError =
    | InvalidMemoryRegion
    | InvalidIrqId
    | IrqAlreadyRegistered
    | TooManyComputeDevices
    | InvalidCapabilityToken
    | TicklessModeUnsupported
    | InvalidTimerDeadline

  datatype Result<+T> = Ok(value: T) | Err(error: HalError)

  datatype MapPermissions = MapPermissions(readable: bool, writable: bool, executable: bool, deviceUncached: bool)

  const KERNEL_CODE := MapPermissions(true, false, true, false)
  const KERNEL_DATA := MapPermissions(true, true, false, false)
  const KERNEL_RODATA := MapPermissions(true, false, false, false)
  const DEVICE_MMIO := MapPermissions(true, true, false, true)
}
