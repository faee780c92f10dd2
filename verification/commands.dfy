/**
 * The command objects of src/commands/user-commands.ts. Their `execute` methods
 * work only by calling back into the overlay and the caller; each callback is
 * recorded, in order, in a call log. The clipboard write itself is not
 * modelled: its outcome is the `success` parameter.
 */
module Commands {
  /** A callback a command can invoke. */
  datatype Call = Show | Hide | Dismiss | OnSuccess | OnError

  /** The calls made so far, oldest first. */
  class CallLog {
    var calls: seq<Call>

    constructor()
      ensures calls == []
    {
      calls := [];
    }

    method Record(c: Call)
      modifies this
      ensures calls == old(calls) + [c]
    {
      calls := calls + [c];
    }
  }

  /** The calls `ToggleOverlayCommand.execute` makes: exactly one, `hide` iff the overlay is visible. */
  function ToggleCalls(isVisible: bool): (r: seq<Call>)
    ensures |r| == 1
    ensures r[0] == Hide <==> isVisible
    ensures r[0] == Show <==> !isVisible
  {
    if isVisible then [Hide] else [Show]
  }

  /**
   * The calls `CopyToClipboardCommand.execute` makes: `onSuccess` iff the copy
   * succeeded and that callback exists, `onError` iff it failed and that one
   * exists, never both.
   */
  function CopyCalls(success: bool, hasOnSuccess: bool, hasOnError: bool): (r: seq<Call>)
    ensures |r| <= 1
    ensures OnSuccess in r <==> success && hasOnSuccess
    ensures OnError in r <==> !success && hasOnError
    ensures forall c :: c in r ==> c == OnSuccess || c == OnError
  {
    if success && hasOnSuccess then [OnSuccess]
    else if !success && hasOnError then [OnError]
    else []
  }

  class ToggleOverlayCommand {
    const log: CallLog

    constructor(log: CallLog)
      ensures this.log == log
    {
      this.log := log;
    }

    /** `execute()`, with `isVisible` what `overlay.isVisible()` answers. */
    method Execute(isVisible: bool)
      modifies log
      ensures log.calls == old(log.calls) + ToggleCalls(isVisible)
    {
      if isVisible {
        log.Record(Hide);
      } else {
        log.Record(Show);
      }
    }
  }

  class DismissOverlayCommand {
    const log: CallLog

    constructor(log: CallLog)
      ensures this.log == log
    {
      this.log := log;
    }

    /** `execute()`: `dismiss`, then `hide`, once each. */
    method Execute()
      modifies log
      ensures log.calls == old(log.calls) + [Dismiss, Hide]
    {
      log.Record(Dismiss);
      log.Record(Hide);
    }
  }

  class CopyToClipboardCommand {
    const text: string
    const hasOnSuccess: bool
    const hasOnError: bool
    const log: CallLog

    /** `new CopyToClipboardCommand(text, onSuccess?, onError?)`. */
    constructor(text: string, hasOnSuccess: bool, hasOnError: bool, log: CallLog)
      ensures this.text == text && this.hasOnSuccess == hasOnSuccess && this.hasOnError == hasOnError
      ensures this.log == log
    {
      this.text := text;
      this.hasOnSuccess := hasOnSuccess;
      this.hasOnError := hasOnError;
      this.log := log;
    }

    /** `execute()`, with `success` what the clipboard write reported. */
    method Execute(success: bool)
      modifies log
      ensures log.calls == old(log.calls) + CopyCalls(success, hasOnSuccess, hasOnError)
    {
      if success && hasOnSuccess {
        log.Record(OnSuccess);
      } else if !success && hasOnError {
        log.Record(OnError);
      }
    }
  }
}
