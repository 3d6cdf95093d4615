/** Principals are opaque but for the two the program names. */
module Principals {
  datatype Principal = ManagementCanister | Anonymous | Account(id: nat)
}
