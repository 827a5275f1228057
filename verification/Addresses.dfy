/** Peer ids and multiaddresses, as far as the program looks into them. */
module Addresses {
  import opened Bytes

  type PeerId = seq<byte>

  /** A multiaddress is a list of components; the program tells only the peer component from the others. */
  datatype Component = P2p(peer: PeerId) | Transport(spec: seq<byte>)
  type Multiaddr = seq<Component>
}
