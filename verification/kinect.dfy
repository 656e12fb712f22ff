/** Values the Azure Kinect SDK hands to the capture loop. The SDK calls themselves are
    not modelled; only the results they return reach the model. */
module Kinect {

  /** `uint32_t`, the width of a tracked body's id. */
  newtype uint32 = x: int | 0 <= x < 0x1_0000_0000

  /** `std::time_t`, a signed 64-bit count of seconds since the epoch. */
  newtype int64 = x: int | -0x8000_0000_0000_0000 <= x < 0x8000_0000_0000_0000

  datatype Option<+T> = None | Some(value: T)

  /** A `k4a_float3_t` joint position. Single-precision floats are modelled as reals:
      the loop only copies them and compares them with `<`. */
  datatype Float3 = Float3(x: real, y: real, z: real)

  /** The joints of a `k4abt_skeleton_t` that the loop reads. The y axis points
      towards the ground, so a smaller y is physically higher. */
  datatype Skeleton = Skeleton(pelvis: Float3, wristLeft: Float3, wristRight: Float3, head: Float3)

  /** `k4a_wait_result_t`, returned by the three blocking calls of one cycle. */
  datatype WaitResult = Succeeded | Timeout | Failed

  /** Body `i` of a popped body frame: its id, and the skeleton that
      `k4abt_frame_get_body_skeleton` returns, or `None` when that call fails. */
  datatype BodyEntry = BodyEntry(id: uint32, skeleton: Option<Skeleton>)
}
