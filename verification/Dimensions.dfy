/** The stages of the switch: ten before the traffic manager and ten behind it. */
module Dimensions {
  const INGRESS: nat := 10
  const EGRESS: nat := 10
  const STAGES: nat := INGRESS + EGRESS
}
