/** The two admission decisions the host asks the plugin for: may a
    connection send a message (`onIsValidConnection`), and may a message be
    kept in the shared store (`onCanSaveInStore`). */
module Gates {
  import opened JsValues
  import opened Messages

  /** A user record with at least one truthy identity field. */
  predicate HasIdentity(user: Option<User>) {
    user.Some? && (Truthy(user.value.userId) || Truthy(user.value.email) || Truthy(user.value.username))
  }

  /** The message is pinned (a truthy `socketId`) to another connection than
      `conn`, comparing with `!==`. */
  predicate PinnedElsewhere(socketId: Value, conn: Option<Conn>) {
    Truthy(socketId) && socketId != ConnId(conn)
  }

  /** `msg?._client?.user`. */
  function ClientUser(msg: Msg?): Option<User>
    reads Footprint(msg)
  {
    if msg != null && msg.client != null then msg.client.user else None
  }

  /** `msg?._client?.socketId`. */
  function ClientSocketId(msg: Msg?): Value
    reads Footprint(msg)
  {
    if msg != null && msg.client != null then msg.client.socketId else Undefined
  }

  /** A message is admitted only when it carries an identity and is not
      pinned to a different connection. */
  function OnIsValidConnection(conn: Option<Conn>, msg: Msg?): (ok: bool)
    reads Footprint(msg)
    ensures ok <==> msg != null && msg.client != null
                    && HasIdentity(msg.client.user)
                    && !PinnedElsewhere(msg.client.socketId, conn)
  {
    var user := ClientUser(msg);
    if user.None? || (!Truthy(user.value.userId) && !Truthy(user.value.email) && !Truthy(user.value.username)) then
      false
    else if Truthy(ClientSocketId(msg)) && ClientSocketId(msg) != ConnId(conn) then
      false
    else
      true
  }

  /** A message may be stored exactly when it is not scoped to a socket,
      i.e. has no truthy `_client.socketId`. */
  function OnCanSaveInStore(msg: Msg?): (ok: bool)
    reads Footprint(msg)
    ensures !ok <==> msg != null && msg.client != null && Truthy(msg.client.socketId)
  {
    if Truthy(ClientSocketId(msg)) then false else true
  }

  /** The two messages of the store-gate test: `{_client: {socketId: 'abc'}}`
      is refused, `{}` is accepted. */
  method StoreGateScenarios() returns (scoped: bool, unscoped: bool)
    ensures !scoped && unscoped
  {
    var client := new Client(None, Str("abc"), Undefined, map[]);
    var pinned := new Msg(client, map[]);
    var empty := new Msg(null, map[]);
    scoped := OnCanSaveInStore(pinned);
    unscoped := OnCanSaveInStore(empty);
  }
}
