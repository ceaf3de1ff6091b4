/** The enrichment hooks `onInput`, `onAction`, `onChange` and `onLoad`,
    which hand the message back untouched. */
module PassThrough {
  import opened JsValues
  import opened Messages

  function OnInput(msg: Msg?): Msg? { msg }
  function OnAction(conn: Option<Conn>, id: Value, msg: Msg?): Msg? { msg }
  function OnChange(conn: Option<Conn>, id: Value, msg: Msg?): Msg? { msg }
  function OnLoad(conn: Option<Conn>, id: Value, msg: Msg?): Msg? { msg }

  /** Each of them returns the very message it was given, never dropping it. */
  lemma PassThroughsKeepMessage(conn: Option<Conn>, id: Value, msg: Msg?)
    ensures OnInput(msg) == msg
    ensures OnAction(conn, id, msg) == msg && OnChange(conn, id, msg) == msg && OnLoad(conn, id, msg) == msg
  {
  }
}
