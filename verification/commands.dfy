/** The reconfiguration command exchanged between the healing software and
    the simulated hardware: a JSON object whose fields may be missing. */
module Commands {
  import opened Basics

  datatype Command = Command(
    cmdId: Option<string>,
    action: Option<string>,
    targetNode: Option<string>,
    spareId: Option<string>)

  /** The reply a command produces: an acknowledgement (`cmd_ack`) or the
      final result (`cmd_result`), or any other typed message. */
  datatype Reply = Reply(msgType: Option<string>, cmdId: Option<string>, status: Option<string>)
}
