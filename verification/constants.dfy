/** The message ids and daemon state bytes of `connection/Constants.java`. */
module Constants {
  import opened JavaTypes

  // ---- message ids ----

  const MSG_STATE_CHANGE: int16 := 0x0001
  const MSG_CLIENT_UPDATE: int16 := 0x0002
  const MSG_MINICAP_INPUT: int16 := 0x0003
  /** The daemon reports its link to the remote server under this id. */
  const MSG_SERVER_STATE_CHANGED: int16 := 0x0004
  const MSG_REQUEST_CLIENT_LIST: int16 := 0x0005
  const MSG_RECONNECT_REMOTE_SERVER: int16 := 0x0006
  const MSG_LOGIN_CONTROL: int16 := 0x0080
  const MSG_MINICAP_CONTROL: int16 := 0x0081
  const MSG_REQUEST_FIND_PHONE: int16 := 0x0082

  // ---- the daemon's state byte (first body byte of a state message) ----

  const STATE_CONNECTING: int8 := 0x01
  const STATE_CONNECTED: int8 := 0x02
  const STATE_CONNECT_FAILED: int8 := 0x03
  const STATE_DISCONNECTING: int8 := 0x04
  const STATE_DISCONNECTED: int8 := 0x05
  const STATE_DISCONNECT_FAILED: int8 := 0x06

  // ---- the state byte of a client in a client-update message ----

  const STATE_CLIENT_CONNECTING: int8 := 0x07
  const STATE_CLIENT_CONNECTED: int8 := 0x08
  const STATE_CLIENT_CONNECT_FAILED: int8 := 0x09
  const STATE_CLIENT_DISCONNECTING: int8 := 0x0A
  const STATE_CLIENT_DISCONNECTED: int8 := 0x0B
  const STATE_CLIENT_DISCONNECT_FAILED: int8 := 0x0C
  const STATE_CLIENT_CRASHED: int8 := 0x10

  // ---- login control ----

  const CODE_LOGIN_REQUEST: int8 := 0x01
  const CODE_LOGOUT_REQUEST: int8 := 0x02
  const CODE_LOGIN_RESPONSE: int8 := STATE_CONNECTED
  const CODE_LOGOUT_RESPONSE: int8 := STATE_DISCONNECTED
}

/** The state codes handed to `intf/IStateChangeListener.java`. */
module StateCodes {
  const STATE_CONNECT_SUCCESSFUL: int := 1001
  const STATE_CONNECT_FAILED: int := 1002
  const STATE_SOCKET_CLOSE_SUCCESSFUL: int := 1003
  const STATE_SOCKET_CLOSE_FAILED: int := 1004
  const STATE_REACH_MAX_RECONNECT_TIME: int := 1005
  const STATE_REMOTE_SOCKET_CONNECTING: int := 1008
  const STATE_CONNECT_TIMEOUT: int := 1009
  const STATE_LOGIN_TIMEOUT: int := 1010
  const STATE_LOGIN_REFUSED: int := 1011
  const STATE_REMOTE_SOCKET_CLOSED: int := 1012
  const STATE_CONNECT_REMOTE_FAILED: int := 1013
  const STATE_CONNECTING_REMOTE: int := 1014
  const STATE_DISCONNECTING_REMOTE: int := 1015
  const STATE_DISCONNECTING_REMOTE_FAILED: int := 1016
  const STATE_RECONNECT_REMOTE_FAILED: int := 1017
  const STATE_RECONNECT_REMOTE_SUCCESS: int := 1018
}
