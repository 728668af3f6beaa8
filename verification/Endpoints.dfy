/** A registered endpoint of the control plane. */
module Endpoints {
  import opened Words

  datatype Record = Record(
    id: string,
    name: string,
    publicKey: string,
    endpointAddr: string,
    allowedIps: seq<string>,
    addedBy: string,
    addedAt: u64,
    organizationId: string,
    workspaceId: string,
    revokedAt: u64,
    tokenRotatedAt: u64,
    nodeToken: string)
}
