/** The `onSetup` hook: it tells Dashboard 2 where Socket.IO is served. */
module Setup {
  import opened JsValues

  /** The ui-base node configuration; only `path` is read. */
  datatype UiBaseConfig = UiBaseConfig(path: Option<string>)
  datatype SocketIoOptions = SocketIoOptions(path: string)
  datatype SetupResult = SetupResult(socketio: SocketIoOptions)

  const SocketIoSuffix := "/socketio"

  /** `${config.path}`: a missing path is rendered as `"undefined"`. */
  function PathText(path: Option<string>): string {
    match path
    case Some(p) => p
    case None => "undefined"
  }

  /** The Socket.IO path is the ui-base path followed by `/socketio`. */
  function OnSetup(config: UiBaseConfig): (r: SetupResult)
    ensures |r.socketio.path| == |PathText(config.path)| + |SocketIoSuffix|
    ensures r.socketio.path[..|PathText(config.path)|] == PathText(config.path)
    ensures r.socketio.path[|PathText(config.path)|..] == SocketIoSuffix
  {
    SetupResult(SocketIoOptions(PathText(config.path) + SocketIoSuffix))
  }

  /** Two configurations give the same Socket.IO path exactly when their
      ui-base paths render to the same text. */
  lemma SocketIoPathDeterminesBase(c1: UiBaseConfig, c2: UiBaseConfig)
    ensures OnSetup(c1) == OnSetup(c2) <==> PathText(c1.path) == PathText(c2.path)
  {
  }
}
