/** The fixed configuration of the detection service. */
module Config {
  /** Side of the square canvas the models take as input, in pixels. */
  const ImgSize: nat := 640

  /** A prediction row whose confidence is below this value is discarded. */
  const ConfThreshold: real := 0.25

  /** A candidate whose IoU with a kept box reaches this value is suppressed. */
  const IouThreshold: real := 0.45

  /** The label of the single class the detectors are trained on (class id 0). */
  const ClassName: string := "bayam"
}
