/** The constants of the TCP code. */
module TcpConstants {
  const U32 := 0x1_0000_0000
  const MSS := 1460 // 1514 - (14 + 20 + 20)
  const TCP_DEFAULT_WINDOW := 65535
  const TCP_TIMER_SCAN_INTERVAL := 10000
  const TCP_RETRANS_INTERVAL_INITIAL := 200000
}
