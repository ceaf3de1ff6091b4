# node-red-dashboard-2-oauth2-auth, modelled in Dafny

This is a model of the FlowFuse Dashboard 2 plugin that trusts the identity headers set by an
authenticating proxy (oauth2-proxy). The plugin gives the dashboard runtime these hooks:

- `onSetup` returns the Socket.IO path: the ui-base path followed by `/socketio`.
- `onAddConnectionCredentials` reads the identity headers of the Socket.IO request and writes
  them into `msg._client`. It writes a `user` record (user id, email, display username, and
  whether an access token is present), plus the socket id and the remote address.
- `onIsValidConnection` rejects a message that carries no identity. It also rejects a message
  pinned to another socket.
- `onCanSaveInStore` refuses to store socket-scoped messages in the shared store.
- `onInput`, `onAction`, `onChange` and `onLoad` return the message unchanged.

JavaScript semantics are modelled explicitly (`JsValues`):

- A value is `undefined`, `null`, a boolean, a number, a string or an opaque object reference.
- `Truthy` gives JavaScript truthiness, and `Or` gives the `||` operator. So an empty header
  value falls through a fallback chain just like a missing one.
- Object identity (`===` on references) is datatype equality of the reference.

Header maps are taken as already lower-cased, as Node.js hands them over.

The objects are modelled as follows:

- `msg` and `msg._client` are classes (`Messages.Msg`, `Messages.Client`), because the
  credentials hook changes them in place.
- An existing `_client` object is kept and updated. It is not replaced, so anyone else holding
  a reference to it sees the new identity.
- The gates are functions that read these objects.
- `rest` holds the properties without a field of their own. `WellFormed()` says it never repeats a modelled key (`user`, `socketId`, `socketIp`, or `_client` on the message), so no property has two values.

Modules:

- `JsValues`: JavaScript values, truthiness and `||`.
- `JsStrings`: `split` with a one-character separator, its inverse `join`, and what
  `split(sep)[0]` is.
- `ProxyHeaders`: the header names and the primary/fallback rule.
- `Messages`: the connection, the message and `_client`.
- `Identity`: the extracted user record.
- `Gates`: the two admission decisions.
- `Credentials`: the in-place hook.
- `Setup`: the setup hook.
- `PassThrough`: the identity hooks.

## Model

| member | source | states |
|---|---|---|
| `JsValues.Or` | index.js:41-44 | JavaScript `a \|\| b`: truthy exactly when either operand is; the left operand when it is truthy, else the right one |
| `Messages.HeadersOf` | index.js:39 | `(conn?.request?.headers) \|\| {}`: the request's header map, or an empty map when the connection, its request or its headers are missing |
| `Messages.ConnId` | index.js:56 | `conn?.id`: the connection's id, or `undefined` without a connection |
| `Messages.RemoteAddress` | index.js:57 | `conn?.request?.socket?.remoteAddress`: the remote address, or `undefined` when any link of the chain is missing |
| `ProxyHeaders.Pick` | index.js:41-43 | `a \|\| b \|\| null` over two headers: the primary header when present and non-empty, else the fallback on the same terms, else `null`; the result is never an empty string |
| `JsStrings.Split` | index.js:51 | `s.split(sep)` always has at least one piece and no piece contains the separator |
| `JsStrings.JoinSplit` | index.js:51 | joining the pieces of `split` with the separator gives back the original string |
| `JsStrings.SplitJoin` | index.js:51 | splitting the join of separator-free pieces gives back those pieces |
| `JsStrings.FirstPiece` | index.js:51 | `s.split(sep)[0]` is a prefix of `s` without `sep` that ends at the first `sep`, or at the end of `s` when there is none |
| `JsStrings.FirstPieceUnique` | index.js:51 | that prefix is the only one with those properties, so the characterisation determines `email.split('@')[0]` |
| `Identity.DisplayName` | index.js:51 | username is the preferred name if truthy, else the user id if truthy, else the part of a truthy email before its first `@` (the whole email without `@`, possibly `""`), else `null` |
| `Identity.UserOf` | index.js:41-53 | `userId`, `email` and the preferred name follow the primary/fallback rule of their header pairs; `username` follows `DisplayName`; `accessTokenPresent` is `true` exactly when `x-forwarded-access-token` is present and non-empty |
| `Identity.UserNamesSomebody` | index.js:41-53 | the extracted record has a truthy `userId`, `email` or `username` if and only if one of the six identity headers is present and non-empty |
| `Identity.NoHeadersNoUser` | index.js:39-44 | with no connection, no request or no header map, every identity field is `null` and `accessTokenPresent` is `false` |
| `Credentials.OnAddConnectionCredentials` | index.js:37-64 | for a message: creates `_client` if absent (and otherwise keeps the same object), sets exactly `user`, `socketId` = `conn?.id` and `socketIp` = the remote address, and leaves every other property of `msg` and `_client` alone, keeping a well-formed message well formed (no property held twice); the message is then admitted for the same connection if and only if an identity header is present, and storable if and only if the connection id is falsy; a `null` message comes back as given (the `catch` path) |
| `Gates.OnIsValidConnection` | index.js:73-85 | admits if and only if `msg._client.user` exists with a truthy `userId`, `email` or `username`, and the message is not pinned by a truthy `socketId` that differs (`!==`) from `conn?.id` |
| `Gates.OnCanSaveInStore` | index.js:92-98 | refuses storage if and only if `msg._client.socketId` is truthy |
| `Gates.StoreGateScenarios` | test/plugin.test.js:51-56 | `{_client: {socketId: 'abc'}}` may not be stored; `{}` may |
| `Setup.OnSetup` | index.js:21-29 | the Socket.IO path is the text of `config.path` (`"undefined"` when missing) followed by `/socketio` |
| `Setup.SocketIoPathDeterminesBase` | index.js:24-28 | two configurations give the same Socket.IO path if and only if their ui-base paths render to the same text |
| `PassThrough.PassThroughsKeepMessage` | index.js:103-106 | `onInput`, `onAction`, `onChange` and `onLoad` return the message they were given |

## Left out

- Plugin registration (`RED.plugins.registerPlugin`, `module.exports`, index.js:6-12): this is host wiring, not plugin logic.
- Express `req`/`res` in `onSetup`: they are not used. The Socket.IO connection is modelled only through `id`, the request headers and `socket.remoteAddress`. The remote address is copied as an opaque value.
- Case-insensitive header lookup: Node.js lower-cases header names before the hook runs, so the model takes lower-case keys as given.
- Header values other than strings: they are not modelled. Such values (an array, say) would make `email.split` throw. The `catch` branch is modelled only for a `null` message, and there it returns the message as given.
- A `_client` or `user` that is truthy but not an object (a string, say): not modelled. A non-object `user` has no identity fields, so `onIsValidConnection` rejects it, exactly as it rejects a missing `user`.
- JavaScript numbers: they are integers here, so `NaN` and fractions are not modelled. They matter only for the truthiness and `!==` of `socketId`.
- `Setup.OnSetup`: only a string or missing `config.path` is modelled. The template-literal rendering of other values (numbers, objects) is not. A missing `config` itself is not modelled either: `onSetup` has no `try/catch`, so `config.path` would throw, but the host always passes the ui-base configuration.
- String encoding: Dafny strings are sequences of Unicode scalar values, while JavaScript strings are UTF-16 code units. Nothing is lost for `split('@')`: no surrogate code unit equals `'@'`, and Node.js decodes header bytes as latin1, so every header character is a single code unit.
- JWT claim decoding, header allow-listing, `__REDACTED__` redaction, `msg._client.proxy` and configuration through `RED.settings` (test/plugin.test.js:15-49): index.js does not implement any of them, so the model does not either. The test file expects them; the code does not provide them.
