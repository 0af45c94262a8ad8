/**
 * The process-wide constants of the stereo reconstruction host program:
 * image size, camera geometry and the work-group size of the reduction.
 */
module Config {

  /** Width of the stereo pair and of every derived field, in pixels. */
  const ImageWidth: int := 1390

  /** Height of the stereo pair and of every derived field, in pixels. */
  const ImageHeight: int := 1110

  /** Focal length of the rectified cameras, in pixels. */
  const FocalLength: int := 3740

  /** Distance between the two camera centres, in millimetres. */
  const Baseline: int := 160

  /** Work-group size of every dispatch of the reduction kernel. */
  const GroupSize: nat := 128
}
