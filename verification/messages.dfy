/** The host objects the hooks receive: the Socket.IO connection, read
    only, and the Node-RED message with its `_client` object, which the
    credentials hook updates in place. */
module Messages {
  import opened JsValues
  import opened ProxyHeaders

  datatype Socket = Socket(remoteAddress: Value)
  datatype Request = Request(headers: Option<Headers>, socket: Option<Socket>)
  /** A connection, of which only `id` and `request` are read. */
  datatype Conn = Conn(id: Value, request: Option<Request>)

  /** `(conn?.request?.headers) || {}`: the request's header map, or an empty
      one when the connection, its request or its headers are missing. */
  function HeadersOf(conn: Option<Conn>): (h: Headers)
    ensures conn.Some? && conn.value.request.Some? && conn.value.request.value.headers.Some? ==>
              h == conn.value.request.value.headers.value
    ensures conn.None? || conn.value.request.None? || conn.value.request.value.headers.None? ==>
              h == map[]
  {
    if conn.Some? && conn.value.request.Some? && conn.value.request.value.headers.Some?
    then conn.value.request.value.headers.value
    else map[]
  }

  /** `conn?.id`: the connection's id, or `undefined` without a connection. */
  function ConnId(conn: Option<Conn>): (id: Value)
    ensures conn.Some? ==> id == conn.value.id
    ensures conn.None? ==> id == Undefined
  {
    if conn.Some? then conn.value.id else Undefined
  }

  /** `conn?.request?.socket?.remoteAddress`, copied without interpretation:
      `undefined` as soon as a link of the chain is missing. */
  function RemoteAddress(conn: Option<Conn>): (a: Value)
    ensures conn.Some? && conn.value.request.Some? && conn.value.request.value.socket.Some? ==>
              a == conn.value.request.value.socket.value.remoteAddress
    ensures conn.None? || conn.value.request.None? || conn.value.request.value.socket.None? ==>
              a == Undefined
  {
    if conn.Some? && conn.value.request.Some? && conn.value.request.value.socket.Some?
    then conn.value.request.value.socket.value.remoteAddress
    else Undefined
  }

  /** The `msg._client.user` record. The credentials hook fills it with
      strings or `null` and a boolean; flows may put other values in it. */
  datatype User = User(userId: Value, email: Value, username: Value, accessTokenPresent: Value)

  /** The property names of `msg._client` that have fields of their own. */
  const ClientKeys: set<string> := {"user", "socketId", "socketIp"}

  /** `msg._client`. `user` is `None` when the property is absent or holds a
      falsy value; `rest` holds every other property. */
  class Client {
    var user: Option<User>
    var socketId: Value
    var socketIp: Value
    var rest: map<string, Value>

    /** A JavaScript property has one value: `rest` never repeats a key that
        has its own field. */
    predicate WellFormed()
      reads this
    {
      ClientKeys !! rest.Keys
    }

    /** `{}`. */
    constructor Empty()
      ensures WellFormed()
      ensures user == None && socketId == Undefined && socketIp == Undefined && rest == map[]
    {
      user, socketId, socketIp, rest := None, Undefined, Undefined, map[];
    }

    constructor (user: Option<User>, socketId: Value, socketIp: Value, rest: map<string, Value>)
      requires ClientKeys !! rest.Keys
      ensures WellFormed()
      ensures this.user == user && this.socketId == socketId
      ensures this.socketIp == socketIp && this.rest == rest
    {
      this.user, this.socketId, this.socketIp, this.rest := user, socketId, socketIp, rest;
    }
  }

  /** A Node-RED message. `client` is `null` when `_client` is absent or
      falsy; `rest` holds every other top-level property. */
  class Msg {
    var client: Client?
    var rest: map<string, Value>

    /** `rest` never holds `_client`, and `_client` is well formed. */
    predicate WellFormed()
      reads this, client
    {
      "_client" !in rest && (client != null ==> client.WellFormed())
    }

    constructor (client: Client?, rest: map<string, Value>)
      requires "_client" !in rest && (client != null ==> client.WellFormed())
      ensures WellFormed()
      ensures this.client == client && this.rest == rest
    {
      this.client, this.rest := client, rest;
    }
  }

  /** The objects a hook reads when it looks at `msg` and `msg._client`. */
  function Footprint(msg: Msg?): set<object>
    reads msg
  {
    if msg == null then {} else if msg.client == null then {msg} else {msg, msg.client}
  }
}
