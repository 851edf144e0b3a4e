/**
 * `writelogmessage`, the hook on the QGIS message log: warnings and
 * critical messages always reach the harness logger, everything else only
 * in verbose mode.
 */
module LoggerHook {
  import opened Wrappers

  /** `Qgis.MessageLevel`. */
  datatype MessageLevel = Info | Warning | Critical | Success | NoLevel

  /** The methods of the `qgislogger` logger the hook calls. */
  datatype Channel = LoggerInfo | LoggerWarning | LoggerError

  /** One call of that logger: which method, with which text. */
  datatype Record = Record(channel: Channel, text: string)

  /** The text the hook logs: the tag, a colon and a space, then the message. */
  function Format(tag: string, message: string): string {
    tag + ": " + message
  }

  /** The hook for one message: the logger call it makes, if any. */
  function WriteLogMessage(message: string, tag: string, level: MessageLevel, verbose: bool): (r: Option<Record>)
    ensures r.None? ==> !verbose
    ensures r.Some? ==> r.value.text == Format(tag, message)
  {
    var arg := Format(tag, message);
    if level == Warning then Some(Record(LoggerWarning, arg))
    else if level == Critical then Some(Record(LoggerError, arg))
    else if verbose then Some(Record(LoggerInfo, arg))
    else None
  }

  /**
   * The routing table: a message is forwarded iff it is a warning, critical,
   * or verbose mode is on; warnings go to `warning`, critical messages to
   * `error`, the rest to `info`; the text is always "tag: message".
   */
  lemma Routing(message: string, tag: string, level: MessageLevel, verbose: bool)
    ensures var r := WriteLogMessage(message, tag, level, verbose);
      && (r.Some? <==> level == Warning || level == Critical || verbose)
      && (r.Some? ==> r.value.text == tag + ": " + message)
      && (r.Some? ==> (r.value.channel == LoggerWarning <==> level == Warning))
      && (r.Some? ==> (r.value.channel == LoggerError <==> level == Critical))
      && (r.Some? ==> (r.value.channel == LoggerInfo <==> level != Warning && level != Critical))
  {
  }

  /** Turning verbose mode on only adds records: whatever is forwarded without it is forwarded unchanged with it. */
  lemma VerboseOnlyAdds(message: string, tag: string, level: MessageLevel)
    ensures WriteLogMessage(message, tag, level, false).Some? ==>
      WriteLogMessage(message, tag, level, true) == WriteLogMessage(message, tag, level, false)
  {
  }

  /** The hook as installed (`install_logger_hook()` with its default `verbose=False`) drops Info, Success and NoLevel messages. */
  lemma DefaultHookDropsNoise(message: string, tag: string, level: MessageLevel)
    ensures WriteLogMessage(message, tag, level, false).None? <==> level in {Info, Success, NoLevel}
  {
  }
}
