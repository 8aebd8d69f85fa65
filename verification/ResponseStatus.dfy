// ipfs_lite/ipfs/graphsync/graphsync.hpp and impl/common.cpp: the status codes of
// responses that the other modules use.

module ResponseStatus {
  const RS_CANNOT_CONNECT: int := -2
  const RS_TIMEOUT: int := -3
  const RS_CONNECTION_ERROR: int := -4
  const RS_INTERNAL_ERROR: int := -5
  const RS_REJECTED_LOCALLY: int := -6
  const RS_SLOW_STREAM: int := -7
  const RS_AWAITING_STATUS: int := -8
  const RS_FULL_CONTENT: int := 20
  const RS_PARTIAL_CONTENT: int := 21
  const RS_REJECTED: int := 30
  const RS_REQUEST_FAILED: int := 32
  const RS_NOT_FOUND: int := 34

  predicate IsTerminal(code: int) { code < 10 || code >= 20 }

  predicate IsError(code: int) { code < 10 || code >= 30 }

  // The codes of the protocol and of this side, by kind.
  const INTERNAL: set<int> := {-8, -7, -6, -5, -4, -3, -2, -1}
  const INFORMATIONAL: set<int> := {10, 11, 12, 13, 14}
  const SUCCESSFUL: set<int> := {20, 21}
  const FAILED: set<int> := {30, 31, 32, 33, 34}

  // Every code but the informational ones ends a request.
  lemma KindsAre(code: int)
    requires code in INTERNAL + INFORMATIONAL + SUCCESSFUL + FAILED
    ensures IsTerminal(code) <==> code !in INFORMATIONAL
    ensures IsError(code) <==> code in INTERNAL + FAILED
  {
  }
}
