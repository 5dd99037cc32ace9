/** Types shared by the modules of the overlay. */
module PeerTypes {
  import RT = RoutingTable

  /** Device ids and signatures are byte strings. */
  type Id = string
  type Sig = string

  datatype Addr = Addr(host: string, port: nat)

  type Routes = map<Id, RT.Route<Addr>>
}
