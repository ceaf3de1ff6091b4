/** The `onAddConnectionCredentials` hook: it writes the proxy identity,
    the socket id and the remote address into `msg._client`, in place. */
module Credentials {
  import opened JsValues
  import opened Messages
  import opened Identity
  import opened Gates

  /** Creates `msg._client` when it is absent and sets exactly its `user`,
      `socketId` and `socketIp`; every other property of `msg` and of an
      existing `msg._client` is left as it was, and an existing `_client`
      object is updated rather than replaced. A `null` message makes the
      source throw inside its `try`, whose `catch` returns the message as
      given. */
  method OnAddConnectionCredentials(conn: Option<Conn>, msg: Msg?) returns (r: Msg?)
    modifies Footprint(msg)
    ensures r == msg
    ensures msg != null ==> msg.client != null
    ensures msg != null && old(msg.client) != null ==> msg.client == old(msg.client)
    ensures msg != null && old(msg.client) == null ==> fresh(msg.client) && msg.client.rest == map[]
    ensures msg != null ==> msg.rest == old(msg.rest)
    ensures msg != null && old(msg.client) != null ==> msg.client.rest == old(msg.client.rest)
    ensures msg != null && old(msg.WellFormed()) ==> msg.WellFormed()
    ensures msg != null ==> msg.client.user == Some(UserOf(HeadersOf(conn)))
    ensures msg != null ==> msg.client.socketId == ConnId(conn)
    ensures msg != null ==> msg.client.socketIp == RemoteAddress(conn)
    // What the gates then decide for the same connection:
    ensures msg != null ==> (OnIsValidConnection(conn, msg) <==> IdentityHeaderPresent(HeadersOf(conn)))
    ensures msg != null ==> (OnCanSaveInStore(msg) <==> !Truthy(ConnId(conn)))
  {
    if msg == null {
      return msg;
    }
    var h := HeadersOf(conn);
    var user := UserOf(h);
    if msg.client == null {
      msg.client := new Client.Empty();
    }
    msg.client.user := Some(user);
    msg.client.socketId := ConnId(conn);
    msg.client.socketIp := RemoteAddress(conn);
    UserNamesSomebody(h);
    return msg;
  }
}
