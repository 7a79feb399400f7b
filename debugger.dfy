/**
 * The debugger front end (`BhDebugger`): which thread and which stack frame of
 * the running program the user has selected, the commands the debugger sends
 * to the runtime for that selection, and the change events it reports.
 *
 * The runtime controller is outside the model: every command the debugger
 * sends is appended to `sent`, and whether the runtime answers with success is
 * a parameter.  The registered event handlers are represented by the list of
 * events they receive, `events`.  Breakpoint registration, `clear` and the
 * `add` notifications, which only forward to handlers or to the runtime, are
 * not part of this model.
 */
module Debugger {

  /** `ThreadSelection`: no thread, all threads, or one thread by id. */
  datatype ThreadSelection = NoThread | AllThreads | Thread(id: int)

  /** `StackFrameSelection`: no frame, or the frame at an index of the call stack. */
  datatype StackFrameSelection = NoFrame | Frame(index: int)

  /** The thread a suspend or resume command addresses. */
  datatype ThreadTarget = EveryThread | OneThread(id: int)

  /** The commands the debugger sends to the runtime. */
  datatype RuntimeCmd =
    | SuspendThread(target: ThreadTarget)
    | ResumeThread(target: ThreadTarget)
    | StepOver(threadId: int)
    | StepInto(threadId: int)
    | StepOut(threadId: int)
    | GetThreadContexts
    | GetLocalVars(threadId: int, frameIdx: int)
    | GetGlobalVars
    | GetLocalListVals(threadId: int, frameIdx: int, symbol: string, startIdx: int, length: int)
    | GetGlobalListVals(symbol: string, startIdx: int, length: int)

  /** The events the debugger reports to its handlers. */
  datatype DebugEvent =
    | StackFrameChanged(thread: ThreadSelection, oldFrame: StackFrameSelection, newFrame: StackFrameSelection)
    | ThreadChanged(oldThread: ThreadSelection, newThread: ThreadSelection)

  /** `isParticularThreadSelected`: one thread, neither none nor all. */
  predicate IsParticular(t: ThreadSelection) {
    t.Thread?
  }

  /** The target of a suspend or resume command for a selection other than none. */
  function TargetOf(t: ThreadSelection): (r: ThreadTarget)
    requires !t.NoThread?
    ensures r.EveryThread? <==> t.AllThreads?
    ensures r.OneThread? ==> t == Thread(r.id)
  {
    match t
    case AllThreads => EveryThread
    case Thread(id) => OneThread(id)
  }

  /**
   * The selection a handler that starts from the initial selection and applies
   * every event in order ends up with.
   */
  function Replayed(events: seq<DebugEvent>): (ThreadSelection, StackFrameSelection)
    decreases |events|
  {
    if events == [] then (NoThread, NoFrame)
    else
      var (t, f) := Replayed(events[..|events| - 1]);
      match events[|events| - 1]
      case StackFrameChanged(_, _, newFrame) => (t, newFrame)
      case ThreadChanged(_, newThread) => (newThread, f)
  }

  lemma ReplayedSnoc(events: seq<DebugEvent>, e: DebugEvent)
    ensures Replayed(events + [e]) ==
      match e
      case StackFrameChanged(_, _, newFrame) => (Replayed(events).0, newFrame)
      case ThreadChanged(_, newThread) => (newThread, Replayed(events).1)
  {
    assert (events + [e])[..|events|] == events;
  }

  class BhDebugger {
    var currentThread: ThreadSelection
    var currentStackFrame: StackFrameSelection
    var sent: seq<RuntimeCmd>
    var events: seq<DebugEvent>

    /**
     * A stack frame is selected only while one particular thread is, and the
     * reported events, applied in order, give the current selection.
     */
    predicate Valid()
      reads this
    {
      && (!IsParticular(currentThread) ==> currentStackFrame == NoFrame)
      && Replayed(events) == (currentThread, currentStackFrame)
    }

    constructor()
      ensures Valid()
      ensures currentThread == NoThread && currentStackFrame == NoFrame && sent == [] && events == []
    {
      currentThread := NoThread;
      currentStackFrame := NoFrame;
      sent := [];
      events := [];
    }

    /** `suspend`: asks the runtime to suspend the selected thread or all threads; with none selected nothing is sent. */
    method Suspend(reply: bool) returns (ok: bool)
      modifies this
      ensures currentThread == old(currentThread) && currentStackFrame == old(currentStackFrame) && events == old(events)
      ensures sent == old(sent) + if currentThread.NoThread? then [] else [SuspendThread(TargetOf(currentThread))]
      ensures ok <==> !currentThread.NoThread? && reply
    {
      ok := false;
      if !currentThread.NoThread? {
        sent := sent + [SuspendThread(TargetOf(currentThread))];
        ok := reply;
      }
    }

    /** `resume`: asks the runtime to resume the selected thread or all threads. */
    method Resume(reply: bool) returns (ok: bool)
      modifies this
      ensures currentThread == old(currentThread) && currentStackFrame == old(currentStackFrame) && events == old(events)
      ensures sent == old(sent) + if currentThread.NoThread? then [] else [ResumeThread(TargetOf(currentThread))]
      ensures ok <==> !currentThread.NoThread? && reply
    {
      ok := false;
      if !currentThread.NoThread? {
        sent := sent + [ResumeThread(TargetOf(currentThread))];
        ok := reply;
      }
    }

    /** `stepOver`: only with one particular thread selected. */
    method StepOver(reply: bool) returns (ok: bool)
      modifies this
      ensures currentThread == old(currentThread) && currentStackFrame == old(currentStackFrame) && events == old(events)
      ensures sent == old(sent) + if IsParticular(currentThread) then [RuntimeCmd.StepOver(currentThread.id)] else []
      ensures ok <==> IsParticular(currentThread) && reply
    {
      ok := false;
      if IsParticular(currentThread) {
        sent := sent + [RuntimeCmd.StepOver(currentThread.id)];
        ok := reply;
      }
    }

    /** `stepInto`: only with one particular thread selected. */
    method StepInto(reply: bool) returns (ok: bool)
      modifies this
      ensures currentThread == old(currentThread) && currentStackFrame == old(currentStackFrame) && events == old(events)
      ensures sent == old(sent) + if IsParticular(currentThread) then [RuntimeCmd.StepInto(currentThread.id)] else []
      ensures ok <==> IsParticular(currentThread) && reply
    {
      ok := false;
      if IsParticular(currentThread) {
        sent := sent + [RuntimeCmd.StepInto(currentThread.id)];
        ok := reply;
      }
    }

    /** `stepOut`: only with one particular thread selected. */
    method StepOut(reply: bool) returns (ok: bool)
      modifies this
      ensures currentThread == old(currentThread) && currentStackFrame == old(currentStackFrame) && events == old(events)
      ensures sent == old(sent) + if IsParticular(currentThread) then [RuntimeCmd.StepOut(currentThread.id)] else []
      ensures ok <==> IsParticular(currentThread) && reply
    {
      ok := false;
      if IsParticular(currentThread) {
        sent := sent + [RuntimeCmd.StepOut(currentThread.id)];
        ok := reply;
      }
    }

    /** `requestThreadContexts`: always sent. */
    method RequestThreadContexts(reply: bool) returns (ok: bool)
      modifies this
      ensures currentThread == old(currentThread) && currentStackFrame == old(currentStackFrame) && events == old(events)
      ensures sent == old(sent) + [GetThreadContexts]
      ensures ok == reply
    {
      sent := sent + [GetThreadContexts];
      ok := reply;
    }

    /** The guard of the variable requests: a particular thread and a stack frame are selected. */
    predicate FrameSelected()
      reads this
    {
      IsParticular(currentThread) && currentStackFrame != NoFrame
    }

    /**
     * `requestLocalVars`: asks for the variables of the selected frame of the
     * selected thread; without a selected frame it fails and sends nothing.
     */
    method RequestLocalVars(reply: bool) returns (ok: bool)
      requires Valid()
      modifies this
      ensures currentThread == old(currentThread) && currentStackFrame == old(currentStackFrame) && events == old(events)
      ensures sent == old(sent) +
        if currentStackFrame.Frame? then [GetLocalVars(currentThread.id, currentStackFrame.index)] else []
      ensures ok <==> currentStackFrame.Frame? && reply
    {
      ok := false;
      if FrameSelected() {
        sent := sent + [GetLocalVars(currentThread.id, currentStackFrame.index)];
        ok := reply;
      }
    }

    /** `requestGlobalVars`: guarded like the local variables. */
    method RequestGlobalVars(reply: bool) returns (ok: bool)
      requires Valid()
      modifies this
      ensures currentThread == old(currentThread) && currentStackFrame == old(currentStackFrame) && events == old(events)
      ensures sent == old(sent) + if currentStackFrame.Frame? then [GetGlobalVars] else []
      ensures ok <==> currentStackFrame.Frame? && reply
    {
      ok := false;
      if FrameSelected() {
        sent := sent + [GetGlobalVars];
        ok := reply;
      }
    }

    /** `requestLocalListVals`: the elements of a local list variable in the selected frame. */
    method RequestLocalListVals(symbol: string, startIdx: int, length: int, reply: bool) returns (ok: bool)
      requires Valid()
      modifies this
      ensures currentThread == old(currentThread) && currentStackFrame == old(currentStackFrame) && events == old(events)
      ensures sent == old(sent) + if currentStackFrame.Frame? then
        [GetLocalListVals(currentThread.id, currentStackFrame.index, symbol, startIdx, length)] else []
      ensures ok <==> currentStackFrame.Frame? && reply
    {
      ok := false;
      if FrameSelected() {
        sent := sent + [GetLocalListVals(currentThread.id, currentStackFrame.index, symbol, startIdx, length)];
        ok := reply;
      }
    }

    /** `requestGlobalListVals`: the elements of a global list variable, with the same guard. */
    method RequestGlobalListVals(symbol: string, startIdx: int, length: int, reply: bool) returns (ok: bool)
      requires Valid()
      modifies this
      ensures currentThread == old(currentThread) && currentStackFrame == old(currentStackFrame) && events == old(events)
      ensures sent == old(sent) + if currentStackFrame.Frame? then [GetGlobalListVals(symbol, startIdx, length)] else []
      ensures ok <==> currentStackFrame.Frame? && reply
    {
      ok := false;
      if FrameSelected() {
        sent := sent + [GetGlobalListVals(symbol, startIdx, length)];
        ok := reply;
      }
    }

    /**
     * `selectCurrentThread`: a different thread becomes current, the stack
     * frame selection is reset to none, and both changes are reported, the
     * frame first.  Selecting the current thread again changes nothing.
     */
    method SelectCurrentThread(selection: ThreadSelection)
      requires Valid()
      modifies this
      ensures Valid() && sent == old(sent)
      ensures selection == old(currentThread) ==>
        currentThread == old(currentThread) && currentStackFrame == old(currentStackFrame) && events == old(events)
      ensures selection != old(currentThread) ==>
        && currentThread == selection && currentStackFrame == NoFrame
        && events == old(events) + [StackFrameChanged(selection, old(currentStackFrame), NoFrame),
                                    ThreadChanged(old(currentThread), selection)]
    {
      if currentThread != selection {
        var oldThread := currentThread;
        currentThread := selection;
        var oldStackFrame := currentStackFrame;
        currentStackFrame := NoFrame;
        ReplayedSnoc(events, StackFrameChanged(currentThread, oldStackFrame, NoFrame));
        events := events + [StackFrameChanged(currentThread, oldStackFrame, NoFrame)];
        ReplayedSnoc(events, ThreadChanged(oldThread, selection));
        events := events + [ThreadChanged(oldThread, selection)];
        assert events == old(events) + [StackFrameChanged(selection, old(currentStackFrame), NoFrame),
                                        ThreadChanged(old(currentThread), selection)];
      }
    }

    /**
     * `selectCurrentStackFrame`: ignored while no thread or all threads are
     * selected; otherwise a different frame becomes current and the change is
     * reported.
     */
    method SelectCurrentStackFrame(selection: StackFrameSelection)
      requires Valid()
      modifies this
      ensures Valid() && sent == old(sent) && currentThread == old(currentThread)
      ensures !IsParticular(currentThread) || selection == old(currentStackFrame) ==>
        currentStackFrame == old(currentStackFrame) && events == old(events)
      ensures IsParticular(currentThread) && selection != old(currentStackFrame) ==>
        && currentStackFrame == selection
        && events == old(events) + [StackFrameChanged(currentThread, old(currentStackFrame), selection)]
    {
      if currentThread == NoThread || currentThread == AllThreads {
        return;
      }
      if currentStackFrame != selection {
        var event := StackFrameChanged(currentThread, currentStackFrame, selection);
        currentStackFrame := selection;
        ReplayedSnoc(events, event);
        events := events + [event];
      }
    }
  }
}
