/** Handles and result codes of the OpenXR 1.1 specification that the model uses. */
module OpenXr {
  type Instance = nat

  const NULL_INSTANCE: Instance := 0

  const SUCCESS := 0
  const EVENT_UNAVAILABLE := 4
  const ERROR_API_VERSION_UNSUPPORTED := -4
  const ERROR_INITIALIZATION_FAILED := -6
  const ERROR_FUNCTION_UNSUPPORTED := -7
  const ERROR_EXTENSION_NOT_PRESENT := -9
  const ERROR_LIMIT_REACHED := -10
  const ERROR_HANDLE_INVALID := -12

  /** XR_SUCCEEDED */
  predicate Succeeded(result: int) {
    result >= 0
  }

  /** What xrCreateInstance returns: a result code and, if it succeeded, a handle. */
  datatype Reply = Reply(result: int, instance: Instance)
}
