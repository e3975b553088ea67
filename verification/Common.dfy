/** Types shared by every module of the model. */
module Common {

  datatype Option<+T> = None | Some(value: T)

  /** `rmw_ret_t`, restricted to the codes the modelled functions return. */
  datatype Ret = Ok | Error | Unsupported | BadAlloc | InvalidArgument

  const UINT32_MAX: nat := 0xFFFF_FFFF
  const UINT64_MAX: nat := 0xFFFF_FFFF_FFFF_FFFF
  const INT64_MAX: nat := 0x7FFF_FFFF_FFFF_FFFF

  /** The native status codes that are not success, and what the layer makes of them. */
  datatype Failure = NativeInvalidArgument | NativeOutOfMemory | NativeOther {
    function Mapped(): (r: Ret)
      ensures r != Ok
    {
      match this
      case NativeInvalidArgument => InvalidArgument
      case NativeOutOfMemory => BadAlloc
      case NativeOther => Error
    }
  }
}
