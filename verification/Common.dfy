/** The constants that the node's parts share: ports, limits and message types. */
module Common {
  import opened Bytes

  const DEFAULT_WORKER_PORT: uint16 := 7777

  const MAX_PEERS: nat := 64
  const MAX_HOSTNAME_LEN: nat := 64
  const MAX_FILENAME_LEN: nat := 256
  const MAX_FILE_SIZE: nat := 4 * 1024 * 1024
  const OUTPUT_BUF_SIZE: nat := 4096
  const PEER_TIMEOUT_SECS: int := 30
  const MAX_CONCURRENT_TASKS: nat := 8

  const MSG_HELLO: Byte := 0x01
  const MSG_BYE: Byte := 0x02
  const MSG_LOAD_REQ: Byte := 0x03
  const MSG_LOAD_RESP: Byte := 0x04
  const MSG_TASK_FILE: Byte := 0x06
  const MSG_OUTPUT: Byte := 0x07
  const MSG_TASK_DONE: Byte := 0x08
}
