/** The states of a connection, `net/TcpConnection.hpp`. */
module States {
  datatype ConnState = Connecting | Connected | Disconnecting | Disconnected
}
