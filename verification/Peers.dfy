/** Peers, as the managers of a download see them. */
module Peers {
  import opened Sha

  /** Peers are told apart by address, peer id and hash. */
  datatype PeerInfo = PeerInfo(addr: nat, pid: ShaHash, hash: ShaHash)
}
