/** The status codes the modelled functions return, with the values of vx_types.h. */
module VxStatus {
  type Status = int

  const VX_SUCCESS: Status := 0
  const VX_ERROR_NO_RESOURCES: Status := -7
  const VX_ERROR_INVALID_GRAPH: Status := -18
  const VX_ERROR_INVALID_NODE: Status := -19
}
