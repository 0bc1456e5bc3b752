module Sides {
  datatype Side = Left | Right {
    function Other(): Side { if this == Left then Right else Left }
  }
}
