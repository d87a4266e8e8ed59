/** The stored records of the forwarding state. */
module Records {
  import opened Wrappers
  import opened Addresses

  /** A stored reverse-DNS record: which host and target a fake address stands for. */
  datatype ReverseDNS = ReverseDNS(ip: string, destIP: string, destIPOffset: Offset, hostname: string)

  /** The A record of an answer: the real address, and the fake one handed out for it. */
  datatype ARecord = ARecord(ip: string, allocatedIP: string)

  datatype DNSSession = DNSSession(
    clientIP: string, interfaceIP: string, hostname: string, qtype: nat,
    sessionExpiry: int, bytesUsed: nat, reasonCode: nat, isLocal: bool, a: Option<ARecord>)

  const ACCESS_ALLOWED: nat := 0
  const ACCESS_BLOCKED_NOT_AUTHENTICATED: nat := 1
  const ACCESS_BLOCKED_UNAUTHORISED: nat := 2
  const ACCESS_BLOCKED_RULE: nat := 3

  const TYPE_A: nat := 1
}
