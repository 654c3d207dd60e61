/**
  The epoll reactor of icm-1.1/icc/DevPollReactor.cpp: a table of handlers with mask and state
  flags, kept in step with the kernel's one-shot interest set.  Each method is one stretch of
  the source between two callbacks (`RemoveHandlerI` alone runs through one that leaves the
  reactor as it is), so calls made by callbacks, or by other threads that take turns, are runs
  of these methods.
 */
module DevPollReactors {
  import opened Wrappers

  /** The bits of a reactor mask. */
  datatype Flag = Read | Write | Except | Accept | Connect | Timer | Qos | GroupQos | Signal | DontCall
  type Mask = set<Flag>

  const ALL_EVENTS: Mask := {Read, Write, Except, Accept, Connect, Timer, Qos, GroupQos, Signal}

  datatype PollEvent = PollIn | PollPri | PollOut | PollErr | PollHup

  datatype EventTuple = EventTuple(handler: Option<Handler>, mask: Mask, suspended: bool, controlled: bool)

  const UNBOUND := EventTuple(None, {}, false, false)

  /** What the kernel holds about a handle; a one-shot entry that has fired is disarmed. */
  datatype Interest = Absent | Present(events: set<PollEvent>, armed: bool)

  datatype CtlOp = CtlAdd | CtlMod | CtlDel

  const GET_MASK := 1
  const SET_MASK := 2
  const ADD_MASK := 3
  const CLR_MASK := 4

  /** The poll events of a mask. */
  function PollEvents(mask: Mask): set<PollEvent> {
    (if Read in mask || Accept in mask || Connect in mask then {PollIn} else {})
    + (if Write in mask || Connect in mask then {PollOut} else {})
    + (if Except in mask then {PollPri} else {})
  }

  /** What each flag of a mask waits for, and that a mask waits for what its flags wait for. */
  lemma PollEventsOfFlag(f: Flag)
    ensures PollEvents({f}) == match f
                               case Read => {PollIn}
                               case Accept => {PollIn}
                               case Connect => {PollIn, PollOut}
                               case Write => {PollOut}
                               case Except => {PollPri}
                               case _ => {}
    ensures PollEvents({}) == {}
  {
  }

  lemma PollEventsOfUnion(a: Mask, b: Mask)
    ensures PollEvents(a + b) == PollEvents(a) + PollEvents(b)
  {
  }

  /** A mask waits for some event exactly when it has a flag for input, output or exceptions. */
  lemma WaitsForSomething(mask: Mask)
    ensures PollEvents(mask) != {} <==> !(mask <= {Timer, Qos, GroupQos, Signal, DontCall})
  {
    if f :| f in mask && f !in {Timer, Qos, GroupQos, Signal, DontCall} {
      PollEventsOfFlag(f);
      PollEventsOfUnion(mask, {f});
      assert mask + {f} == mask;
    }
  }

  /** A callback for the events `d`, of those reported about a handle armed for `mask`, is for an
      event that the mask waits for. */
  lemma CalledForWhatItAwaits(mask: Mask, reported: set<PollEvent>, d: Mask)
    requires reported <= PollEvents(mask) + {PollErr, PollHup} && PollEvents(d) <= reported
    ensures PollEvents(d) <= PollEvents(mask)
  {
  }

  /** Clearing all events leaves at most the flag that is no event. */
  lemma AllEventsCleared(mask: Mask)
    ensures mask - ALL_EVENTS == mask * {DontCall}
    ensures DontCall !in mask ==> mask - ALL_EVENTS == {}
  {
    forall f | f in mask - ALL_EVENTS
      ensures f == DontCall
    {
      match f
      case DontCall =>
      case _ =>
    }
  }

  /** Armed with exactly the events of the mask. */
  function Armed(mask: Mask): Interest {
    Present(PollEvents(mask), true)
  }

  /** The reactor's entry for a handle agrees with the kernel's; `parked` when the event that
      epoll_wait returned for it has not been dispatched yet. */
  ghost predicate InStep(t: EventTuple, k: Interest, parked: bool) {
    && (t.handler.None? ==> t == UNBOUND)
    && (t.controlled <==> k.Present?)
    && (t.mask == {} ==> k.Absent?)
    && (t.handler.Some? && !t.suspended && t.mask != {} && !parked ==> k == Armed(t.mask))
  }

  /** What the reactor and the kernel hold about one handle. */
  type Entry = (EventTuple, Interest)

  /** The entry after its mask has become `mask`: without effect on a suspended handle, unless
      nothing is left to wait for. */
  ghost function Masked(t: EventTuple, k: Interest, mask: Mask): Entry {
    if mask == {} then (t.(mask := {}, controlled := false), Absent)
    else if t.suspended then (t.(mask := mask), k)
    else (t.(mask := mask, controlled := true), Armed(mask))
  }

  ghost function Removed(t: EventTuple, k: Interest, mask: Mask): Entry {
    if t.mask - mask == {} then (UNBOUND, Absent) else Masked(t, k, t.mask - mask)
  }

  ghost function Resumed(t: EventTuple, k: Interest): Entry {
    if t.handler.None? || !t.suspended then (t, k)
    else if t.mask == {} then (t.(suspended := false), k)
    else (t.(suspended := false, controlled := true), Armed(t.mask))
  }

  function NewMask(mask: Mask, m: Mask, ops: int): Mask {
    if ops == CLR_MASK then mask - m else if ops == SET_MASK then m else if ops == ADD_MASK then mask + m else mask
  }

  /** The operation made the mask `before` into `after`: each flag stays, or is in the mask
      afterwards exactly if it was named (SET), also if it was named (ADD), or only if it was
      not (CLR). */
  ghost predicate MaskSet(before: Mask, m: Mask, ops: int, after: Mask) {
    forall f: Flag :: f in after <==>
      match ops
      case 2 => f in m
      case 3 => f in before || f in m
      case 4 => f in before && f !in m
      case _ => f in before
  }

  /** What is done to a handle: the operations below, `Closure` being the end of a removal,
      `Flagging` what dispatching does before the callback, and `Report` an epoll_wait that
      returns an event for it, if it is armed. */
  datatype Change =
    | MaskChange(mask: Mask, ops: int)
    | Closure
    | Flagging
    | Report
    | Registration(handler: Option<Handler>, mask: Mask)
    | Suspension
    | Resumption

  ghost function After(e: Entry, c: Change): Entry {
    var (t, k) := e;
    match c
    case MaskChange(m, ops) => if t.handler.Some? && 2 <= ops <= 4 then Masked(t, k, NewMask(t.mask, m, ops)) else e
    case Closure => if t.mask == {} then (UNBOUND, k) else e
    case Flagging => if t.handler.Some? then (t.(suspended := true), k) else e
    case Report => if k.Present? && k.armed then (t, k.(armed := false)) else e
    case Registration(eh, m) =>
      if m == {} || (t.handler.None? && eh.None?) then e
      else if t.handler.None? then (EventTuple(eh, m, false, true), Armed(m))
      else Masked(t, k, t.mask + m)
    case Suspension =>
      if t.handler.Some? && !t.suspended && k.Present? then (t.(suspended := true, controlled := false), Absent) else e
    case Resumption => Resumed(t, k)
  }

  /** The change arms a handle whose entry is `t`. */
  predicate Arms(t: EventTuple, c: Change) {
    match c
    case MaskChange(m, ops) => t.handler.Some? && 2 <= ops <= 4 && !t.suspended && NewMask(t.mask, m, ops) != {}
    case Closure => false
    case Flagging => false
    case Report => false
    case Registration(eh, m) => m != {} && if t.handler.None? then eh.Some? else !t.suspended
    case Suspension => false
    case Resumption => t.handler.Some? && t.suspended && t.mask != {}
  }

  ghost predicate IsPath(entries: seq<Entry>, changes: seq<Change>) {
    && |entries| == |changes| + 1
    && forall i :: 0 <= i < |changes| ==> entries[i + 1] == After(entries[i], changes[i])
  }

  lemma ChangeEffect(e: Entry, c: Change)
    requires InStep(e.0, e.1, true)
    ensures InStep(After(e, c).0, After(e, c).1, true)
    ensures Arms(e.0, c) ==> After(e, c).1 == Armed(After(e, c).0.mask)
    ensures !Arms(e.0, c) && !c.Report? ==> After(e, c).1 == e.1 || After(e, c).1.Absent?
    ensures c.Report? ==> After(e, c).1 == Quieted(e.1)
  {
  }

  /** The kernel would report an event for the handle. */
  predicate IsArmed(k: Interest) {
    k.Present? && k.armed
  }

  function Quieted(k: Interest): Interest {
    if k.Present? then k.(armed := false) else k
  }

  /** Change `i` armed the handle, and no event for it was reported from then on, before `n`. */
  ghost predicate ArmedSince(entries: seq<Entry>, changes: seq<Change>, i: int, n: nat) {
    && 0 <= i < n <= |changes| < |entries| && Arms(entries[i].0, changes[i])
    && forall j :: i < j < n ==> !changes[j].Report?
  }

  /** epoll is meant to keep a handle quiet from its event to the end of the callback.  Whatever
      is done to the handle after its event was reported, before the callback and in it, nested
      waits included, the kernel has it armed exactly when it still has it and one of the
      changes armed it after the last report. */
  lemma {:induction false} CallbackDisarmedIff(entries: seq<Entry>, changes: seq<Change>, n: nat)
    requires IsPath(entries, changes) && n < |entries|
    requires InStep(entries[0].0, entries[0].1, true) && entries[0].1.Present? && !entries[0].1.armed
    ensures InStep(entries[n].0, entries[n].1, true)
    ensures IsArmed(entries[n].1) <==> entries[n].1.Present? && exists i :: ArmedSince(entries, changes, i, n)
  {
    if n > 0 {
      CallbackDisarmedIff(entries, changes, n - 1);
      ChangeEffect(entries[n - 1], changes[n - 1]);
      assert entries[n] == After(entries[n - 1], changes[n - 1]);
      ArmedSinceStep(entries, changes, n - 1, n);
    }
  }

  lemma ArmedSinceStep(entries: seq<Entry>, changes: seq<Change>, n: nat, m: nat)
    requires n + 1 == m <= |changes| < |entries|
    ensures (exists i :: ArmedSince(entries, changes, i, m))
       <==> Arms(entries[n].0, changes[n]) || (!changes[n].Report? && exists i :: ArmedSince(entries, changes, i, n))
  {
    if Arms(entries[n].0, changes[n]) {
      assert ArmedSince(entries, changes, n, m);
    } else if i :| ArmedSince(entries, changes, i, m) {
      assert ArmedSince(entries, changes, i, n);
    } else if i :| ArmedSince(entries, changes, i, n) {
      assert !changes[n].Report? ==> ArmedSince(entries, changes, i, m);
    }
  }

  /** Hence it is quiet throughout, with the events it was reported for, exactly when no change
      arms it. */
  lemma {:induction false} QuietThroughoutIff(entries: seq<Entry>, changes: seq<Change>, n: nat)
    requires IsPath(entries, changes) && n < |entries|
    requires InStep(entries[0].0, entries[0].1, true) && entries[0].1.Present? && !entries[0].1.armed
    ensures InStep(entries[n].0, entries[n].1, true)
    ensures (forall m :: 0 <= m <= n ==> !IsArmed(entries[m].1))
       <==> (forall i :: 0 <= i < n ==> !Arms(entries[i].0, changes[i]))
    ensures (forall i :: 0 <= i < n ==> !Arms(entries[i].0, changes[i])) ==>
              entries[n].1 == entries[0].1 || entries[n].1.Absent?
  {
    if n > 0 {
      QuietThroughoutIff(entries, changes, n - 1);
      ChangeEffect(entries[n - 1], changes[n - 1]);
      assert entries[n] == After(entries[n - 1], changes[n - 1]);
    }
  }

  /** The handler registered for handle `h` is the one waiting to be resumed there. */
  predicate Due(resume: map<int, Handler>, h: int, t: EventTuple) {
    h in resume && t.handler == Some(resume[h])
  }

  /** The entry after the loop before epoll_wait. */
  ghost function Drained(resume: map<int, Handler>, h: int, t: EventTuple, k: Interest): Entry {
    if Due(resume, h, t) then Resumed(t, k) else (t, k)
  }

  /** Insertion into a std::map: a key that is there already keeps its value. */
  function Noted(resume: map<int, Handler>, h: int, eh: Handler): map<int, Handler> {
    if h in resume then resume else resume[h := eh]
  }

  /** The callbacks that came back with 0, in order, noted for resumption. */
  function NotedAll(resume: map<int, Handler>, notes: seq<(int, Handler)>): map<int, Handler>
    decreases |notes|
  {
    if |notes| == 0 then resume else NotedAll(Noted(resume, notes[0].0, notes[0].1), notes[1..])
  }

  lemma {:induction false} FirstNoteStays(resume: map<int, Handler>, notes: seq<(int, Handler)>, h: int)
    requires h in resume
    ensures h in NotedAll(resume, notes) && NotedAll(resume, notes)[h] == resume[h]
    decreases |notes|
  {
    if |notes| > 0 {
      FirstNoteStays(Noted(resume, notes[0].0, notes[0].1), notes[1..], h);
    }
  }

  /** A handler `eh` whose callback on `h` came back with 0, when `resume` was noted already,
      and whatever was noted after it up to the next wait: if `eh` is still registered for `h`
      with events, it waits armed and unsuspended exactly when it was resumed by someone else
      or no other handler was noted for `h` before it. */
  lemma ResumedBeforeWait(resume: map<int, Handler>, h: int, eh: Handler, notes: seq<(int, Handler)>, t: EventTuple,
                          k: Interest)
    requires InStep(t, k, false) && t.handler == Some(eh) && t.mask != {}
    ensures var e := Drained(NotedAll(Noted(resume, h, eh), notes), h, t, k);
            && e.0.handler == Some(eh) && e.0.mask == t.mask
            && (!e.0.suspended && e.1 == Armed(t.mask) <==> !t.suspended || h !in resume || resume[h] == eh)
  {
    FirstNoteStays(Noted(resume, h, eh), notes, h);
  }

  /** The handler noted for `h` when `notes` follow on `resume`: the first one. */
  function FirstNote(resume: map<int, Handler>, notes: seq<(int, Handler)>, h: int): Option<Handler> {
    if h in resume then Some(resume[h])
    else if |notes| == 0 then None
    else if notes[0].0 == h then Some(notes[0].1)
    else FirstNote(resume, notes[1..], h)
  }

  lemma {:induction false} NotedIsFirst(resume: map<int, Handler>, notes: seq<(int, Handler)>, h: int)
    ensures FirstNote(resume, notes, h)
         == if h in NotedAll(resume, notes) then Some(NotedAll(resume, notes)[h]) else None
    decreases |notes|
  {
    if h in resume {
      FirstNoteStays(resume, notes, h);
    } else if |notes| > 0 {
      var r := Noted(resume, notes[0].0, notes[0].1);
      NotedIsFirst(r, notes[1..], h);
      if notes[0].0 != h {
        SameFirstNote(resume, r, notes[1..], h);
      }
    }
  }

  lemma {:induction false} SameFirstNote(r: map<int, Handler>, r': map<int, Handler>, notes: seq<(int, Handler)>,
                                         h: int)
    requires h !in r && h !in r'
    ensures FirstNote(r, notes, h) == FirstNote(r', notes, h)
  {
    if |notes| > 0 {
      SameFirstNote(r, r', notes[1..], h);
    }
  }

  /** A suspended handler stays suspended over the next wait exactly when it is not the first
      one noted for its handle: a suspension between the note and the wait, or inside the
      callback that leads to the note, does not last. */
  lemma SuspensionLastsIff(resume: map<int, Handler>, notes: seq<(int, Handler)>, h: int, eh: Handler, t: EventTuple,
                           k: Interest)
    requires InStep(t, k, false) && t.handler == Some(eh) && t.suspended
    ensures Drained(NotedAll(resume, notes), h, t, k).0.suspended <==> FirstNote(resume, notes, h) != Some(eh)
  {
    NotedIsFirst(resume, notes, h);
  }

  /** A suspended handler that nobody resumes and that stays registered gets no events. */
  lemma {:induction false} StaysQuiet(entries: seq<Entry>, changes: seq<Change>, n: nat)
    requires IsPath(entries, changes) && n < |entries|
    requires InStep(entries[0].0, entries[0].1, true) && entries[0].0.suspended
    requires forall i :: 0 <= i < n ==> !changes[i].Resumption? && entries[i + 1].0.handler.Some?
    ensures InStep(entries[n].0, entries[n].1, true)
    ensures entries[n].0.suspended
    ensures entries[n].1 == entries[0].1 || entries[n].1 == Quieted(entries[0].1) || entries[n].1.Absent?
  {
    if n > 0 {
      StaysQuiet(entries, changes, n - 1);
      ChangeEffect(entries[n - 1], changes[n - 1]);
      assert entries[n] == After(entries[n - 1], changes[n - 1]);
    }
  }

  /** A handler whose callback failed on events `m` has them cleared, and is unregistered, by a
      removal that ends at once, exactly if it waited for nothing else.  Whatever its close
      callback and others do, short of resuming or unregistering it, it is not armed again. */
  lemma AfterFailure(t: EventTuple, k: Interest, m: Mask, entries: seq<Entry>, changes: seq<Change>, n: nat)
    requires InStep(t, k, true) && t.handler.Some? && t.suspended && k.Present? && !k.armed
    requires IsPath(entries, changes) && entries[0] == After((t, k), MaskChange(m, CLR_MASK)) && n < |entries|
    requires forall i :: 0 <= i < n ==> !changes[i].Resumption? && entries[i + 1].0.handler.Some?
    ensures After(entries[0], Closure).0 == UNBOUND <==> t.mask <= m
    ensures entries[n].0.suspended && !IsArmed(entries[n].1)
  {
    EmptyDifference(t.mask, m);
    ChangeEffect((t, k), MaskChange(m, CLR_MASK));
    StaysQuiet(entries, changes, n);
  }

  lemma EmptyDifference(a: Mask, b: Mask)
    ensures a - b == {} <==> a <= b
  {
    if a - b == {} {
      forall f | f in a
        ensures f in b
      {
        assert f !in a - b;
      }
    }
  }

  /** What epoll_wait may answer about the interest set `kernel`. */
  datatype WaitAnswer = Event(handle: int, events: set<PollEvent>) | Timeout | Interrupted

  predicate Possible(kernel: seq<Interest>, a: WaitAnswer) {
    a.Event? ==> && 0 <= a.handle < |kernel| && kernel[a.handle].Present? && kernel[a.handle].armed
                 && a.events != {} && a.events <= kernel[a.handle].events + {PollErr, PollHup}
  }

  /** What `dispatchIoEvent` has to do after looking at the event: nothing, call `handleClose`
      and end the removal, or call back for the events of the mask. */
  datatype Job = Idle | Closing(handle: nat, handler: Handler) | Upcall(handle: nat, handler: Handler, mask: Mask)

  class DevPollReactor {
    const handlers: array<EventTuple>
    const kernel: array<Interest>
    var eventFd: int
    var eventBits: set<PollEvent>
    var toBeResumed: map<int, Handler>

    ghost predicate Valid()
      reads this, handlers, kernel
    {
      ValidBut(INVALID_HANDLE)
    }

    /** As `Valid`, with handle `x` let off as if its event were still parked. */
    ghost predicate ValidBut(x: int)
      reads this, handlers, kernel
    {
      && kernel.Length == handlers.Length
      && (eventFd == INVALID_HANDLE || (0 <= eventFd < handlers.Length && eventBits != {}))
      && forall h :: 0 <= h < handlers.Length ==> InStep(handlers[h], kernel[h], eventFd == h || h == x)
    }

    ghost predicate Bound(h: int)
      reads handlers
    {
      0 <= h < handlers.Length && handlers[h].handler.Some?
    }

    /** The removal of `eh` from handle `h`, or of any handler if none is given, finds its own. */
    ghost predicate Meant(h: int, eh: Option<Handler>)
      reads handlers
    {
      Bound(h) && (eh.None? || handlers[h].handler == eh)
    }

    ghost predicate Same(hs: seq<EventTuple>, ks: seq<Interest>)
      reads handlers, kernel
    {
      handlers[..] == hs && kernel[..] == ks
    }

    /** The tables are `hs` and `ks` but for handle `h`, which has the entry `e`. */
    ghost predicate Changed(hs: seq<EventTuple>, ks: seq<Interest>, h: int, e: (EventTuple, Interest))
      requires 0 <= h < |hs| == |ks|
      reads handlers, kernel
    {
      handlers[..] == hs[h := e.0] && kernel[..] == ks[h := e.1]
    }

    /** The change `c` of handle `h` was made to the tables `hs` and `ks`, and nothing else. */
    ghost predicate Did(hs: seq<EventTuple>, ks: seq<Interest>, h: int, c: Change)
      requires |hs| == |ks|
      reads handlers, kernel
    {
      if 0 <= h < |hs| then Changed(hs, ks, h, After((hs[h], ks[h]), c)) else Same(hs, ks)
    }

    constructor (size: nat)
      ensures Valid() && fresh(handlers) && fresh(kernel) && handlers.Length == size
      ensures eventFd == INVALID_HANDLE && toBeResumed == map[]
      ensures forall h :: !Bound(h)
    {
      handlers := new EventTuple[size](_ => UNBOUND);
      kernel := new Interest[size](_ => Absent);
      eventFd, eventBits, toBeResumed := INVALID_HANDLE, {}, map[];
    }

    /** epoll_ctl: adding fails for a handle that is present, the others for one that is not. */
    method EpollCtl(op: CtlOp, h: nat, events: set<PollEvent>) returns (ret: int)
      requires h < kernel.Length
      modifies kernel
      ensures ret == if op.CtlAdd? <==> old(kernel[h]).Absent? then 0 else -1
      ensures kernel[..] == if ret == -1 then old(kernel[..])
              else old(kernel[..])[h := if op.CtlDel? then Absent else Present(events, true)]
    {
      ret := if op.CtlAdd? == kernel[h].Absent? then 0 else -1;
      if ret == 0 {
        kernel[h] := if op.CtlDel? then Absent else Present(events, true);
      }
    }

    method Find(h: int) returns (info: Option<EventTuple>)
      ensures info == if Bound(h) then Some(handlers[h]) else None
    {
      info := if 0 <= h < handlers.Length && handlers[h].handler.Some? then Some(handlers[h]) else None;
    }

    method Bind(h: int, eh: Option<Handler>, mask: Mask) returns (ret: int)
      modifies handlers
      ensures ret == if 0 <= h < handlers.Length && eh.Some? then 0 else -1
      ensures handlers[..] == if ret == -1 then old(handlers[..])
              else old(handlers[..])[h := old(handlers[h]).(handler := eh, mask := mask)]
    {
      if eh.None? || h < 0 || h >= handlers.Length {
        return -1;
      }
      handlers[h] := handlers[h].(handler := eh, mask := mask);
      ret := 0;
    }

    method Unbind(h: int) returns (ret: int)
      modifies handlers
      ensures ret == if old(Bound(h)) then 0 else -1
      ensures handlers[..] == if ret == -1 then old(handlers[..]) else old(handlers[..])[h := UNBOUND]
    {
      var info := Find(h);
      if info.None? {
        return -1;
      }
      handlers[h] := UNBOUND;
      ret := 0;
    }

    /** Registers a handler.  On a handle that has one already the mask is added to it, and the
        handler stays the one there. */
    method RegisterHandlerI(h: int, eh: Option<Handler>, mask: Mask) returns (ret: int)
      requires Valid()
      modifies handlers, kernel
      ensures Valid()
      ensures ret == if 0 <= h < handlers.Length && mask != {} && (eh.Some? || old(Bound(h))) then 0 else -1
      ensures Did(old(handlers[..]), old(kernel[..]), h, Registration(eh, mask))
      ensures ret == -1 ==> Same(old(handlers[..]), old(kernel[..]))
      ensures ret == 0 ==>
                && handlers[h].handler == (if old(Bound(h)) then old(handlers[h].handler) else eh)
                && handlers[h].mask == old(handlers[h].mask) + mask
                && handlers[h].suspended == old(handlers[h].suspended)
                && kernel[h] == if old(handlers[h].suspended) then old(kernel[h])
                                else Present(PollEvents(handlers[h].mask), true)
    {
      if h == INVALID_HANDLE || mask == {} {
        return -1;
      }
      var info := Find(h);
      if info.None? {
        ret := Bind(h, eh, mask);
        if ret != 0 {
          return -1;
        }
        ret := EpollCtl(CtlAdd, h, PollEvents(mask));
        handlers[h] := if ret == -1 then UNBOUND else handlers[h].(controlled := true);
      } else {
        var was := MaskOpsI(h, mask, ADD_MASK);
        ret := if was.None? then -1 else 0;
      }
    }

    /** Reads or changes the mask of a handle; answers the mask it had. */
    method MaskOpsI(h: int, mask: Mask, ops: int) returns (ret: Option<Mask>)
      requires ValidBut(h)
      modifies handlers, kernel
      ensures old(Valid()) || (ret.Some? && ops != GET_MASK) ==> Valid()
      ensures ret == if old(Bound(h)) && 1 <= ops <= 4 then Some(old(handlers[h]).mask) else None
      ensures Did(old(handlers[..]), old(kernel[..]), h, MaskChange(mask, ops))
      ensures ret.None? || ops == GET_MASK ==> Same(old(handlers[..]), old(kernel[..]))
      ensures ret.Some? ==> MaskSet(ret.value, mask, ops, handlers[h].mask)
      ensures ret.Some? && ops != GET_MASK ==>
                && handlers[h].handler == old(handlers[h].handler)
                && handlers[h].suspended == old(handlers[h].suspended)
                && kernel[h] == if handlers[h].mask == {} then Absent else if handlers[h].suspended then old(kernel[h])
                                else Present(PollEvents(handlers[h].mask), true)
    {
      var found := Find(h);
      if found.None? {
        return None;
      }
      var info := found.value;
      if ops == GET_MASK {
        return Some(info.mask);
      }
      if ops != CLR_MASK && ops != SET_MASK && ops != ADD_MASK {
        return None;
      }
      var done := ApplyMask(h, info, NewMask(info.mask, mask, ops));
      ret := if done then Some(info.mask) else None;
    }

    /** The second half of `mask_ops_i`: gives the handle its new mask. */
    method ApplyMask(h: nat, info: EventTuple, newMask: Mask) returns (done: bool)
      requires kernel.Length == handlers.Length && h < handlers.Length && handlers[h] == info
      requires info.handler.Some? && InStep(info, kernel[h], true)
      modifies handlers, kernel
      ensures done && Changed(old(handlers[..]), old(kernel[..]), h, Masked(info, old(kernel[h]), newMask))
    {
      handlers[h] := info.(mask := newMask);
      done := true;
      if !info.suspended || (info.controlled && newMask == {}) {
        var op := if newMask == {} then CtlDel else CtlMod;
        var rc := EpollCtl(op, h, PollEvents(newMask));
        if rc == -1 && op == CtlMod {
          rc := EpollCtl(CtlAdd, h, PollEvents(newMask));
        }
        done := rc == 0 || op == CtlDel;
        handlers[h] := info.(mask := newMask, controlled := if done then op != CtlDel else info.controlled);
      }
    }

    /** Removal up to the `handleClose` callback: `closing` is the handler to call, and `own`
        says that the registration of the handle was touched. */
    method RemoveBegin(h: int, mask: Mask, eh: Option<Handler>) returns (ret: int, closing: Option<Handler>, own: bool)
      requires ValidBut(h)
      modifies handlers, kernel
      ensures old(Valid()) || own ==> Valid()
      ensures ret == (if !old(Bound(h)) && eh.None? then -1 else 0)
      ensures own <==> old(Meant(h, eh))
      ensures closing == if ret == -1 || DontCall in mask then None else if own then old(handlers[h]).handler else eh
      ensures !own ==> Same(old(handlers[..]), old(kernel[..]))
      ensures own ==> Did(old(handlers[..]), old(kernel[..]), h, MaskChange(mask, CLR_MASK))
      ensures eh.Some? && old(Bound(h)) && old(handlers[h].handler) != eh ==> !own
      ensures own ==>
                handlers[h].handler == old(handlers[h].handler) && handlers[h].mask == old(handlers[h].mask) - mask
    {
      var info := Find(h);
      ret, closing, own := 0, eh, false;
      if info.None? && eh.None? {
        return -1, None, false;
      }
      if info.Some? && (eh.None? || info.value.handler == eh) {
        var was := MaskOpsI(h, mask, CLR_MASK);
        ret := if was.None? then -1 else 0;
        own, closing := true, info.value.handler;
      }
      if DontCall in mask {
        closing := None;
      }
    }

    /** Removal after the callback: a handle without events is unbound. */
    method RemoveEnd(h: nat)
      requires Valid() && h < handlers.Length
      modifies handlers
      ensures Valid() && Did(old(handlers[..]), old(kernel[..]), h, Closure)
      ensures old(handlers[h].mask) == {} ==> handlers[h].handler.None? && kernel[h].Absent?
      ensures old(handlers[h].mask) != {} ==> Same(old(handlers[..]), old(kernel[..]))
    {
      if handlers[h].mask == {} {
        var ret := Unbind(h);
        assert ret == -1 ==> handlers[h] == UNBOUND;
      }
    }

    /** Removal with a callback that leaves this handle alone. */
    method RemoveHandlerI(h: int, mask: Mask, eh: Option<Handler>) returns (ret: int, closing: Option<Handler>)
      requires ValidBut(h)
      modifies handlers, kernel
      ensures old(Valid()) || old(Meant(h, eh)) ==> Valid()
      ensures ret == (if !old(Bound(h)) && eh.None? then -1 else 0)
      ensures closing == if ret == -1 || DontCall in mask then None
                         else if old(Meant(h, eh)) then old(handlers[h]).handler else eh
      ensures old(Meant(h, eh)) ==>
                Changed(old(handlers[..]), old(kernel[..]), h, Removed(old(handlers[h]), old(kernel[h]), mask))
      ensures !old(Meant(h, eh)) ==> Same(old(handlers[..]), old(kernel[..]))
      ensures old(Meant(h, eh)) ==>
                if old(handlers[h].mask) - mask == {} then handlers[h].handler.None? && kernel[h].Absent?
                else handlers[h].handler == old(handlers[h].handler) && handlers[h].mask == old(handlers[h].mask) - mask
    {
      var own;
      ret, closing, own := RemoveBegin(h, mask, eh);
      if own {
        RemoveEnd(h);
      }
    }

    /** Takes a handle out of the interest set; the handler stays registered.  On a handle that
        is suspended already, be it around its own callback, this does nothing and says 0. */
    method SuspendHandlerI(h: int) returns (ret: int)
      requires Valid()
      modifies handlers, kernel
      ensures Valid()
      ensures ret == if old(Bound(h)) && (old(handlers[h]).suspended || old(kernel[h]).Present?) then 0 else -1
      ensures Did(old(handlers[..]), old(kernel[..]), h, Suspension)
      ensures ret == -1 ==> Same(old(handlers[..]), old(kernel[..]))
      ensures ret == 0 ==>
                && handlers[h].suspended && handlers[h].handler == old(handlers[h].handler)
                && handlers[h].mask == old(handlers[h].mask)
                && kernel[h] == if old(handlers[h].suspended) then old(kernel[h]) else Absent
    {
      var info := Find(h);
      if info.None? {
        return -1;
      }
      if info.value.suspended {
        return 0;
      }
      ret := EpollCtl(CtlDel, h, {});
      if ret == 0 {
        handlers[h] := info.value.(controlled := false, suspended := true);
      }
    }

    /** Puts a suspended handle back, armed with the events of its mask. */
    method ResumeHandlerI(h: int) returns (ret: int)
      requires Valid()
      modifies handlers, kernel
      ensures Valid() && ret == if old(Bound(h)) then 0 else -1
      ensures Did(old(handlers[..]), old(kernel[..]), h, Resumption)
      ensures ret == 0 ==>
                && !handlers[h].suspended && handlers[h].handler == old(handlers[h].handler)
                && handlers[h].mask == old(handlers[h].mask)
                && kernel[h] == if old(handlers[h].suspended) && handlers[h].mask != {}
                                then Present(PollEvents(handlers[h].mask), true) else old(kernel[h])
    {
      var found := Find(h);
      if found.None? {
        return -1;
      }
      var info := found.value;
      ret := 0;
      if info.suspended {
        if info.mask == {} {
          handlers[h] := info.(suspended := false);
        } else {
          ret := EpollCtl(if info.controlled then CtlMod else CtlAdd, h, PollEvents(info.mask));
          if ret == 0 {
            handlers[h] := info.(controlled := true, suspended := false);
          }
        }
      }
    }

    /** The loop before epoll_wait: exactly the handles still bound to the handler that waits
        for resumption are resumed. */
    method ResumeAll()
      requires Valid()
      modifies this`toBeResumed, handlers, kernel
      ensures Valid() && toBeResumed == map[]
      ensures forall h :: 0 <= h < handlers.Length ==>
                (handlers[h], kernel[h]) == Drained(old(toBeResumed), h, old(handlers[h]), old(kernel[h]))
    {
      for i := 0 to handlers.Length
        invariant Valid() && toBeResumed == old(toBeResumed)
        invariant forall h :: 0 <= h < handlers.Length ==>
                    (handlers[h], kernel[h]) == if h < i then Drained(toBeResumed, h, old(handlers[h]), old(kernel[h]))
                                                else (old(handlers[h]), old(kernel[h]))
      {
        if i in toBeResumed {
          var info := Find(i);
          if info.Some? && info.value.handler == Some(toBeResumed[i]) {
            var ret := ResumeHandlerI(i);
          }
        }
      }
      toBeResumed := map[];
    }

    /** Waits for one event unless one is parked.  `asked` is the interest set epoll_wait sees. */
    method WorkPending(wait: seq<Interest> -> WaitAnswer, timersPending: bool)
      returns (ret: int, ghost asked: seq<Interest>)
      requires Valid()
      requires forall ks :: |ks| == handlers.Length ==> Possible(ks, wait(ks))
      modifies this, handlers, kernel
      ensures Valid() && (ret == 1 || ret == 0 || ret == -1)
      ensures old(eventFd) != INVALID_HANDLE ==>
                && ret == 1 && Same(old(handlers[..]), old(kernel[..]))
                && eventFd == old(eventFd) && eventBits == old(eventBits) && toBeResumed == old(toBeResumed)
      ensures old(eventFd) == INVALID_HANDLE ==>
                && |asked| == handlers.Length && toBeResumed == map[]
                && (forall h :: Bound(h) && !handlers[h].suspended && handlers[h].mask != {} ==>
                    asked[h] == Armed(handlers[h].mask))
                && (forall h :: 0 <= h < handlers.Length ==>
                      (handlers[h], asked[h]) == Drained(old(toBeResumed), h, old(handlers[h]), old(kernel[h])))
                && Possible(asked, wait(asked))
                && match wait(asked)
                   case Event(h, events) =>
                     && ret == 1 && eventFd == h && eventBits == events
                     && kernel[..] == asked[h := asked[h].(armed := false)]
                   case Timeout =>
                     ret == (if timersPending then 1 else 0) && eventFd == INVALID_HANDLE && kernel[..] == asked
                   case Interrupted =>
                     ret == -1 && eventFd == INVALID_HANDLE && kernel[..] == asked
    {
      asked := kernel[..];
      if eventFd != INVALID_HANDLE {
        return 1, asked;
      }
      ResumeAll();
      asked := kernel[..];
      match wait(kernel[..]) {
        case Event(h, events) =>
          eventFd, eventBits := h, events;
          kernel[h] := kernel[h].(armed := false);
          ret := 1;
        case Timeout => ret := if timersPending then 1 else 0;
        case Interrupted => ret := -1;
      }
    }

    /** Dispatching up to the callback.  The handle is flagged suspended around it; whether the
        kernel keeps it quiet is the matter of `CallbackDisarmedIff`.  An event that only reports
        an error clears the handler's events for removal instead. */
    method BeginDispatch() returns (job: Job)
      requires Valid()
      modifies this`eventFd, this`eventBits, handlers, kernel
      ensures Valid() && eventFd == INVALID_HANDLE
      ensures job.Idle? <==> !old(Bound(eventFd))
      ensures job.Idle? ==> Same(old(handlers[..]), old(kernel[..]))
      ensures !job.Idle? ==> job.handle == old(eventFd) && Some(job.handler) == old(handlers[eventFd].handler)
      ensures job.Closing? <==> old(Bound(eventFd)) && old(eventBits) <= {PollErr, PollHup}
      ensures job.Closing? ==> Did(old(handlers[..]), old(kernel[..]), old(eventFd), MaskChange(ALL_EVENTS, CLR_MASK))
      ensures job.Closing? ==>
                && handlers[job.handle].mask == old(handlers[eventFd].mask) * {DontCall}
                && (DontCall !in old(handlers[eventFd].mask) ==> kernel[job.handle].Absent?)
      ensures job.Upcall? ==>
                && handlers[job.handle] == old(handlers[eventFd]).(suspended := true)
                && kernel[job.handle] == old(kernel[eventFd])
                && PollEvents(job.mask) != {} && PollEvents(job.mask) <= old(eventBits)
      ensures job.Upcall? ==>
                && job.mask == (if PollOut in old(eventBits) then {Write}
                                else if PollPri in old(eventBits) then {Except} else {Read})
                && Did(old(handlers[..]), old(kernel[..]), old(eventFd), Flagging)
    {
      var h, revents := eventFd, eventBits;
      eventFd, eventBits := INVALID_HANDLE, {};
      var info := Find(h);
      if h == INVALID_HANDLE || info.None? {
        return Idle;
      }
      var dispMask: Mask;
      if PollOut in revents {
        dispMask := {Write};
      } else if PollPri in revents {
        dispMask := {Except};
      } else if PollIn in revents {
        dispMask := {Read};
      } else {
        assert forall e :: e in revents ==> e.PollErr? || e.PollHup?;
        AllEventsCleared(info.value.mask);
        var ret, closing, own := RemoveBegin(h, ALL_EVENTS, info.value.handler);
        return Closing(h, closing.value);
      }
      handlers[h] := info.value.(suspended := true);
      job := Upcall(h, info.value.handler.value, dispMask);
    }

    /** Dispatching after the callback of `eh` came back with 0, or with less: then the events
        are cleared for removal, which `handleClose` and `RemoveEnd` complete. */
    method EndDispatch(h: int, eh: Handler, dispMask: Mask, status: int) returns (closing: Option<Handler>, own: bool)
      requires Valid() && status <= 0
      modifies this`toBeResumed, handlers, kernel
      ensures Valid()
      ensures toBeResumed == if status == 0 then Noted(old(toBeResumed), h, eh) else old(toBeResumed)
      ensures own <==> status < 0 && old(Bound(h)) && old(handlers[h]).handler == Some(eh)
      ensures closing == if own && DontCall !in dispMask then Some(eh) else None
      ensures !own ==> Same(old(handlers[..]), old(kernel[..]))
      ensures own ==> Did(old(handlers[..]), old(kernel[..]), h, MaskChange(dispMask, CLR_MASK))
      ensures own ==> handlers[h].handler == Some(eh) && handlers[h].mask == old(handlers[h].mask) - dispMask
    {
      closing, own := None, false;
      if status == 0 {
        if h !in toBeResumed {
          toBeResumed := toBeResumed[h := eh];
        }
        return;
      }
      var info := Find(h);
      if info.Some? && info.value.handler == Some(eh) {
        var ret;
        ret, closing, own := RemoveBegin(h, dispMask, None);
      }
    }
  }

  /** Input on handle 0, which the only registered handler waits for. */
  method TakeInput(r: DevPollReactor, eh: Handler)
    requires r.Valid() && r.handlers.Length == 1 && r.eventFd == INVALID_HANDLE && r.toBeResumed == map[]
    requires r.handlers[0] == EventTuple(Some(eh), {Read}, false, true)
    modifies r, r.handlers, r.kernel
    ensures r.Valid() && r.handlers[0] == old(r.handlers[0]) && r.kernel[0] == Present({PollIn}, false)
    ensures r.eventFd == 0 && r.eventBits == {PollIn} && r.toBeResumed == map[]
  {
    var input := Event(0, {PollIn});
    assert PollEvents({Read}) == {PollIn};
    var ret; ghost var asked;
    ret, asked := r.WorkPending(ks => if Possible(ks, input) then input else Timeout, false);
    assert Possible(asked, input);
  }

  /** A new reactor with one handler, registered for input, whose input has been reported. */
  method Listening(eh: Handler) returns (r: DevPollReactor)
    ensures fresh(r) && fresh(r.handlers) && fresh(r.kernel) && r.Valid() && r.handlers.Length == 1
    ensures r.handlers[0] == EventTuple(Some(eh), {Read}, false, true) && r.kernel[0] == Present({PollIn}, false)
    ensures r.eventFd == 0 && r.eventBits == {PollIn} && r.toBeResumed == map[]
  {
    r := new DevPollReactor(1);
    assert !r.Bound(0);
    var ret := r.RegisterHandlerI(0, Some(eh), {Read});
    TakeInput(r, eh);
  }

  /** The first handler's callback hands the handle over and asks for pending work. */
  method HandOver(first: Handler, second: Handler) returns (r: DevPollReactor)
    ensures fresh(r) && fresh(r.handlers) && fresh(r.kernel) && r.Valid() && r.handlers.Length == 1
    ensures r.handlers[0] == EventTuple(Some(second), {Read}, false, true) && r.kernel[0] == Present({PollIn}, false)
    ensures r.eventFd == 0 && r.eventBits == {PollIn} && r.toBeResumed == map[0 := first]
  {
    r := Listening(first);
    var job := r.BeginDispatch();
    assert job == Upcall(0, first, {Read});
    var ret, closing := r.RemoveHandlerI(0, {Read}, None);
    ret := r.RegisterHandlerI(0, Some(second), {Read});
    TakeInput(r, second);
    var own;
    closing, own := r.EndDispatch(0, first, {Read}, 0);
  }

  /** The condition of `ResumedBeforeWait` can fail: the note of the first handler is in the way
      of the second, which is registered, suspended and disarmed when the reactor waits. */
  method StaleNoteBlocksResumption(first: Handler, second: Handler)
    returns (r: DevPollReactor, ghost asked: seq<Interest>)
    requires first != second
    ensures fresh(r) && r.Valid() && r.handlers.Length == |asked| == 1
    ensures r.handlers[0] == EventTuple(Some(second), {Read}, true, true)
    ensures asked == [Present({PollIn}, false)]
  {
    r := HandOver(first, second);
    var job := r.BeginDispatch();
    assert job == Upcall(0, second, {Read});
    var closing, own := r.EndDispatch(0, second, {Read}, 0);
    var ret;
    ret, asked := r.WorkPending(ks => Timeout, false);
    assert asked[0] == Present({PollIn}, false);
  }

  /** The condition of `CallbackDisarmedIff` can fail: a timer callback, which runs before the
      parked event is dispatched, registers the handler for output too, and the callback for
      the input runs with the handle armed. */
  method RearmedWhileParked(eh: Handler) returns (r: DevPollReactor, job: Job)
    ensures fresh(r) && r.Valid() && r.handlers.Length == 1 && job == Upcall(0, eh, {Read})
    ensures r.handlers[0].suspended && r.kernel[0] == Present({PollIn, PollOut}, true)
  {
    r := Listening(eh);
    var ret := r.RegisterHandlerI(0, Some(eh), {Write});
    assert PollEvents({Read} + {Write}) == {PollIn, PollOut};
    job := r.BeginDispatch();
  }

  /** A handler that suspends itself in its own callback is told 0, stays in the interest set,
      and is armed again at the next wait. */
  method SelfSuspensionIsUndone(eh: Handler) returns (r: DevPollReactor, said: int, ghost asked: seq<Interest>)
    ensures fresh(r) && r.Valid() && r.handlers.Length == |asked| == 1
    ensures said == 0 && r.handlers[0] == EventTuple(Some(eh), {Read}, false, true) && asked[0] == Armed({Read})
  {
    r := Listening(eh);
    var job := r.BeginDispatch();
    said := r.SuspendHandlerI(0);
    var closing, own := r.EndDispatch(0, eh, {Read}, 0);
    var ret;
    ret, asked := r.WorkPending(ks => Timeout, false);
  }
}
