/**
 * The fixed vocabulary of the find/hide language: the operand keywords offered for completion, and the names
 * of the element data attributes, node types, health states and edge-label modes that selectors mention.
 * The attribute names are defined by the graph utilities, which are not part of this model; they are given
 * here as the string constants the selectors print. The lemmas that state the selector an operand compiles
 * to (the node-type, health and edge rules, for instance) state it in terms of these constants, so their
 * statements depend on this text as given.
 */
module Vocabulary {

  /** The operand keywords offered for completion, in their declared order (aliases are not listed). */
  const Operands: seq<string> := [
    "%grpcerr", "%grpctraffic", "%httperr", "%httptraffic", "app", "circuitbreaker", "cluster", "destprincipal",
    "faultinjection", "grpc", "grpcerr", "grpcin", "grpcout", "healthy", "http", "httpin", "httpout", "idle",
    "mirroring", "mtls", "name", "namespace", "node", "operation", "outside", "protocol", "rank",
    "requestrouting", "requesttimeout", "responsetime", "service", "serviceentry", "sidecar", "sourceprincipal",
    "tcp", "tcptrafficshifting", "throughput", "traffic", "trafficshifting", "trafficsource", "version",
    "virtualservice", "tcpin", "tcpout", "workload", "workloadentry"
  ]

  // Node data attributes.
  const NodeAggregateValue := "aggregateValue"
  const NodeApp := "app"
  const NodeCluster := "cluster"
  const NodeGrpcIn := "grpcIn"
  const NodeGrpcOut := "grpcOut"
  const NodeHasCB := "hasCB"
  const NodeHasFaultInjection := "hasFaultInjection"
  const NodeHasMirroring := "hasMirroring"
  const NodeHasMissingSC := "hasMissingSC"
  const NodeHasRequestRouting := "hasRequestRouting"
  const NodeHasRequestTimeout := "hasRequestTimeout"
  const NodeHasTCPTrafficShifting := "hasTCPTrafficShifting"
  const NodeHasTrafficShifting := "hasTrafficShifting"
  const NodeHasVS := "hasVS"
  const NodeHasWorkloadEntry := "hasWorkloadEntry"
  const NodeHealthStatus := "healthStatus"
  const NodeHttpIn := "httpIn"
  const NodeHttpOut := "httpOut"
  const NodeIsDead := "isDead"
  const NodeIsIdle := "isIdle"
  const NodeIsInaccessible := "isInaccessible"
  const NodeIsOutside := "isOutside"
  const NodeIsRoot := "isRoot"
  const NodeIsServiceEntry := "isServiceEntry"
  const NodeNamespace := "namespace"
  const NodeNodeType := "nodeType"
  const NodeRank := "rank"
  const NodeService := "service"
  const NodeTcpIn := "tcpIn"
  const NodeTcpOut := "tcpOut"
  const NodeVersion := "version"
  const NodeWorkload := "workload"

  // Edge data attributes.
  const EdgeDestPrincipal := "destPrincipal"
  const EdgeGrpc := "grpc"
  const EdgeGrpcPercentErr := "grpcPercentErr"
  const EdgeGrpcPercentReq := "grpcPercentReq"
  const EdgeHasTraffic := "hasTraffic"
  const EdgeHttp := "http"
  const EdgeHttpPercentErr := "httpPercentErr"
  const EdgeHttpPercentReq := "httpPercentReq"
  const EdgeIsMTLS := "isMTLS"
  const EdgeProtocol := "protocol"
  const EdgeResponseTime := "responseTime"
  const EdgeSourcePrincipal := "sourcePrincipal"
  const EdgeTcp := "tcp"
  const EdgeThroughput := "throughput"

  // Node types a `node` condition may name.
  const NodeTypeAggregate := "aggregate"
  const NodeTypeApp := "app"
  const NodeTypeService := "service"
  const NodeTypeWorkload := "workload"
  const NodeTypeUnknown := "unknown"

  // Health state names.
  const HealthHealthy := "Healthy"
  const HealthDegraded := "Degraded"
  const HealthFailure := "Failure"

  // Edge label modes.
  const ResponseTimeGroup := "responseTime"
  const ResponseTimeP95 := "rt95"
  const ThroughputGroup := "throughput"
  const ThroughputRequest := "throughputRequest"
}
