/** The constants of a connection (tcp_config.hh). */
module TCPConfig {
  const MAX_PAYLOAD_SIZE: nat := 1000
  const MAX_RETX_ATTEMPTS: nat := 8
}
