/** Publishing and attaching as a step system: one render at a time, and any number
    of clients that attach, load the published frames, relay their queue and leave.
    Every step is one locked or atomic operation of the source. */
module Publish {
  import opened Prelude
  import opened HubSpec

  /** A page's side. `greeting` is what it was first sent, `relayed` what it was sent
      from its queue. History: `offered` is every frame sent while it was
      registered, `full` says whether one of those was dropped, and `missed` holds
      the topics whose latest frame was. */
  datatype Page = Page(greeting: Option<seq<Frame>>, relayed: seq<Frame>, offered: seq<Frame>, full: bool, missed: set<Topic>)

  const NEW_PAGE := Page(None, [], [], false, {})

  /** Where the render loop is: between renders, past the swap, or sending. */
  datatype Pc = Idle | Swapped(prev: Option<FrameSet>) | Sending(todo: seq<Option<Frame>>)

  datatype World = World(fan: Fan, published: Option<FrameSet>, pc: Pc, pages: map<nat, Page>)

  datatype Act =
    | Swap(fs: FrameSet)
    | CheckClients
    | SendNext
    | Finish
    | Broadcast(f: Option<Frame>)
    | Attach(id: nat)
    | Pulse(now: int)
    | Greet(id: nat, hello: Option<Frame>)
    | Relay(id: nat)
    | Detach(id: nat)
    | Close(id: nat)

  ghost predicate Enabled(w: World, a: Act) {
    match a
    case Swap(fs) => w.pc.Idle? && Labelled(fs)
    case CheckClients => w.pc.Swapped? && w.published.Some?
    case SendNext => w.pc.Sending? && w.pc.todo != []
    case Finish => w.pc == Sending([])
    case Broadcast(f) => f.Some? ==> f.value.topic == AdHoc
    case Attach(id) => id !in w.fan.chans
    case Pulse(_) => true
    case Greet(id, hello) => id in w.fan.clients && id in w.pages && w.pages[id].greeting.None? && (hello.Some? ==> hello.value.topic == Hello)
    case Relay(id) => id in w.fan.clients && id in w.pages && w.pages[id].greeting.Some? && id in w.fan.chans && w.fan.chans[id].queue != []
    case Detach(id) => id in w.fan.clients
    case Close(id) => id in w.fan.chans && id !in w.fan.clients && !w.fan.chans[id].closed
  }

  /** The history of one page when a frame is sent to it. */
  function Offered(p: Page, c: Chan, f: Frame): Page {
    var p' := p.(offered := p.offered + [f]);
    if |c.queue| < CAPACITY then p'.(missed := p.missed - {f.topic})
    else p'.(missed := p.missed + {f.topic}, full := true)
  }

  function SendWorld(w: World, f: Option<Frame>): World {
    if f.None? then w
    else w.(fan := SendFan(w.fan, f),
            pages := map id | id in w.pages ::
              if id in w.fan.clients && id in w.fan.chans then Offered(w.pages[id], w.fan.chans[id], f.value) else w.pages[id])
  }

  /** A page that comes before the first render gets an identity frame of its own. */
  function GreetingFrames(published: Option<FrameSet>, hello: Option<Frame>): seq<Frame> {
    Present(if published.None? then [hello] else Greeting(published))
  }

  function Next(w: World, a: Act): World {
    match a
    case Swap(fs) => w.(published := Some(fs), pc := Swapped(w.published))
    case CheckClients =>
      if w.pc.Swapped? && w.published.Some? && w.fan.clients != {}
      then w.(pc := Sending(Sends(w.pc.prev, w.published.value)))
      else w.(pc := Idle)
    case SendNext =>
      if w.pc.Sending? && w.pc.todo != []
      then SendWorld(w, w.pc.todo[0]).(pc := Sending(w.pc.todo[1..]))
      else w
    case Finish => w.(pc := Idle)
    case Broadcast(f) => SendWorld(w, f)
    case Attach(id) => w.(fan := AddFan(w.fan, id), pages := w.pages[id := NEW_PAGE])
    case Pulse(now) => w.(fan := w.fan.(lastPulse := now))
    case Greet(id, hello) =>
      if id in w.pages then w.(pages := w.pages[id := w.pages[id].(greeting := Some(GreetingFrames(w.published, hello)))]) else w
    case Relay(id) =>
      if id in w.pages && id in w.fan.chans && w.fan.chans[id].queue != []
      then w.(fan := TakeFan(w.fan, id),
              pages := w.pages[id := w.pages[id].(relayed := w.pages[id].relayed + [w.fan.chans[id].queue[0]])])
      else w
    case Detach(id) => w.(fan := DetachFan(w.fan, id))
    case Close(id) => w.(fan := CloseFan(w.fan, id))
  }

  ghost predicate ValidRun(w: World, acts: seq<Act>)
    decreases |acts|
  {
    acts == [] || (Enabled(w, acts[0]) && ValidRun(Next(w, acts[0]), acts[1..]))
  }

  function Run(w: World, acts: seq<Act>): World
    decreases |acts|
  {
    if acts == [] then w else Run(Next(w, acts[0]), acts[1..])
  }

  const START := World(Fan({}, map[], 0), None, Idle, map[])

  // ---- what every step keeps ------------------------------------------------

  /** What the render in progress has still to send. */
  function Pending(w: World): seq<Frame> {
    match w.pc
    case Idle => []
    case Swapped(prev) => if w.published.Some? then Present(Sends(prev, w.published.value)) else []
    case Sending(todo) => Present(todo)
  }

  /** What the page shows, or is about to: its greeting, or the one it would load
      now; what it was relayed; and what is queued for it. */
  function View(w: World, id: nat): seq<Frame>
    requires id in w.pages && id in w.fan.chans
  {
    var p := w.pages[id];
    (if p.greeting.Some? then p.greeting.value else Present(Greeting(w.published))) + (p.relayed + w.fan.chans[id].queue)
  }

  predicate Tracked(t: Topic) {
    t != Hello && t != AdHoc
  }

  function Shown(published: Option<FrameSet>, t: Topic): Option<Frame> {
    if published.Some? then At(published.value, t) else None
  }

  ghost predicate Shape(w: World) {
    && Sound(w.fan) && w.pages.Keys == w.fan.chans.Keys
    && (w.published.Some? ==> Labelled(w.published.value))
    && (w.pc.Swapped? ==> w.published.Some?)
    && (forall id :: id in w.pages && w.pages[id].greeting.None? ==> w.pages[id].relayed == [])
  }

  /** Whatever the render has still to send of a topic is what is published. */
  ghost predicate PendingCurrent(w: World) {
    forall t :: Last(Pending(w), t).Some? ==> Last(Pending(w), t) == Shown(w.published, t)
  }

  /** After the sends of the current render the page shows what is published. */
  ghost predicate Current(w: World, id: nat, t: Topic)
    requires id in w.pages && id in w.fan.chans
  {
    Shown(w.published, t).Some? && t !in w.pages[id].missed ==>
      (if Last(Pending(w), t).Some? then Last(Pending(w), t) else Last(View(w, id), t)) == Shown(w.published, t)
  }

  ghost predicate AllCurrent(w: World)
    requires Shape(w)
  {
    forall id, t :: id in w.fan.clients && Tracked(t) ==> Current(w, id, t)
  }

  ghost predicate Inv(w: World) {
    Shape(w) && PendingCurrent(w) && AllCurrent(w)
  }

  lemma ViewGrows(w: World, f: Frame, id: nat, t: Topic)
    requires Shape(w) && id in w.fan.clients
    ensures var w' := SendWorld(w, Some(f));
            Last(View(w', id), t) == if |w.fan.chans[id].queue| < CAPACITY && f.topic == t then Some(f) else Last(View(w, id), t)
  {
    var w' := SendWorld(w, Some(f));
    assert w'.pages[id] == Offered(w.pages[id], w.fan.chans[id], f);
    if |w.fan.chans[id].queue| < CAPACITY {
      assert View(w', id) == View(w, id) + [f];
      LastAppend(View(w, id), [f], t);
      assert [f][..0] == [];
    }
  }

  /** Sending a frame, whether it is the next one of the render or an ad hoc one. */
  lemma SendCurrent(w: World, f: Option<Frame>, pc: Pc, id: nat, t: Topic)
    requires Inv(w) && id in w.fan.clients && Tracked(t)
    requires Last(Pending(w), t) ==
             if Last(Pending(w.(pc := pc)), t).Some? then Last(Pending(w.(pc := pc)), t)
             else if f.Some? && f.value.topic == t then f else None
    ensures id in SendWorld(w, f).pages && id in SendWorld(w, f).fan.chans
    ensures Current(SendWorld(w, f).(pc := pc), id, t)
  {
    assert Current(w, id, t);
    if f.Some? {
      ViewGrows(w, f.value, id, t);
      ViewIgnoresPc(SendWorld(w, f), pc, id);
      assert SendWorld(w, f).pages[id] == Offered(w.pages[id], w.fan.chans[id], f.value);
    } else {
      ViewIgnoresPc(w, pc, id);
    }
  }

  lemma ViewIgnoresPc(w: World, pc: Pc, id: nat)
    requires id in w.pages && id in w.fan.chans
    ensures View(w.(pc := pc), id) == View(w, id)
  {
  }

  lemma SendShape(w: World, f: Option<Frame>)
    requires Shape(w)
    ensures Shape(SendWorld(w, f)) && SendWorld(w, f).published == w.published && SendWorld(w, f).pc == w.pc
  {
    SendSound(w.fan, f);
  }

  lemma BroadcastInv(w: World, f: Option<Frame>)
    requires Inv(w) && Enabled(w, Broadcast(f))
    ensures Inv(Next(w, Broadcast(f)))
  {
    var w' := SendWorld(w, f);
    SendShape(w, f);
    assert w' == w'.(pc := w.pc);
    forall id, t | id in w'.fan.clients && Tracked(t)
      ensures Current(w', id, t)
    {
      SendCurrent(w, f, w.pc, id, t);
    }
  }

  lemma SendNextInv(w: World)
    requires Inv(w) && Enabled(w, SendNext)
    ensures Inv(Next(w, SendNext))
  {
    var f, rest := w.pc.todo[0], w.pc.todo[1..];
    var w' := Next(w, SendNext);
    SendShape(w, f);
    assert w' == SendWorld(w, f).(pc := Sending(rest));
    forall t ensures Last(Pending(w), t) ==
                     if Last(Pending(w'), t).Some? then Last(Pending(w'), t)
                     else if f.Some? && f.value.topic == t then f else None
    {
      HeadLast(w.pc.todo, t);
    }
    forall id, t | id in w'.fan.clients && Tracked(t)
      ensures Current(w', id, t)
    {
      assert Pending(w.(pc := Sending(rest))) == Pending(w');
      SendCurrent(w, f, Sending(rest), id, t);
    }
  }

  lemma HeadLast(todo: seq<Option<Frame>>, t: Topic)
    requires todo != []
    ensures Last(Present(todo), t) ==
            if Last(Present(todo[1..]), t).Some? then Last(Present(todo[1..]), t)
            else if todo[0].Some? && todo[0].value.topic == t then todo[0] else None
  {
    LastAppend(if todo[0].Some? then [todo[0].value] else [], Present(todo[1..]), t);
    if todo[0].Some? {
      assert [todo[0].value][..0] == [];
    }
  }

  lemma SwapInv(w: World, fs: FrameSet)
    requires Inv(w) && Enabled(w, Swap(fs))
    ensures Inv(Next(w, Swap(fs)))
  {
    var w' := Next(w, Swap(fs));
    forall t
      ensures Last(Pending(w'), t).Some? ==> Last(Pending(w'), t) == Shown(w'.published, t)
    {
      LastOfSends(w.published, fs, t);
    }
    forall id, t | id in w'.fan.clients && Tracked(t)
      ensures Current(w', id, t)
    {
      SwapCurrent(w, fs, id, t);
    }
  }

  lemma SwapCurrent(w: World, fs: FrameSet, id: nat, t: Topic)
    requires Inv(w) && Enabled(w, Swap(fs)) && id in w.fan.clients && Tracked(t)
    ensures Current(Next(w, Swap(fs)), id, t)
  {
    var w' := Next(w, Swap(fs));
    var queued := w.pages[id].relayed + w.fan.chans[id].queue;
    LastOfSends(w.published, fs, t);
    assert Current(w, id, t);
    if w.pages[id].greeting.None? {
      LastOfGreeting(w.published, t);
      LastOfGreeting(Some(fs), t);
      LastAppend(Present(Greeting(w.published)), queued, t);
      LastAppend(Present(Greeting(Some(fs))), queued, t);
    }
  }

  lemma CheckInv(w: World)
    requires Inv(w) && Enabled(w, CheckClients)
    ensures Inv(Next(w, CheckClients))
  {
    var w' := Next(w, CheckClients);
    if w.fan.clients != {} {
      assert Pending(w') == Pending(w);
      forall id, t | id in w'.fan.clients && Tracked(t)
        ensures Current(w', id, t)
      {
        assert Current(w, id, t);
      }
    }
  }

  lemma FinishInv(w: World)
    requires Inv(w) && Enabled(w, Finish)
    ensures Inv(Next(w, Finish))
  {
    forall id, t | id in w.fan.clients && Tracked(t)
      ensures Current(Next(w, Finish), id, t)
    {
      assert Current(w, id, t);
    }
  }

  /** A page that attaches mid-render: what is still to be sent is what it will load. */
  lemma AttachInv(w: World, id: nat)
    requires Inv(w) && Enabled(w, Attach(id))
    ensures Inv(Next(w, Attach(id)))
  {
    var w' := Next(w, Attach(id));
    assert Pending(w') == Pending(w);
    forall k, t | k in w'.fan.clients && Tracked(t)
      ensures Current(w', k, t)
    {
      if k == id {
        LastOfGreeting(w.published, t);
        assert View(w', id) == Present(Greeting(w.published));
      } else {
        assert Current(w, k, t);
      }
    }
  }

  lemma GreetInv(w: World, id: nat, hello: Option<Frame>)
    requires Inv(w) && Enabled(w, Greet(id, hello))
    ensures Inv(Next(w, Greet(id, hello)))
  {
    var w' := Next(w, Greet(id, hello));
    assert Pending(w') == Pending(w);
    forall k, t | k in w'.fan.clients && Tracked(t)
      ensures Current(w', k, t)
    {
      assert Current(w, k, t);
    }
  }

  lemma RelayInv(w: World, id: nat)
    requires Inv(w) && Enabled(w, Relay(id))
    ensures Inv(Next(w, Relay(id)))
  {
    var w' := Next(w, Relay(id));
    assert Pending(w') == Pending(w);
    forall k, t | k in w'.fan.clients && Tracked(t)
      ensures Current(w', k, t)
    {
      RelayKeepsView(w, id, k);
      assert Current(w, k, t);
    }
  }

  lemma RelayKeepsView(w: World, id: nat, k: nat)
    requires Shape(w) && Enabled(w, Relay(id)) && k in w.pages
    ensures var w' := Next(w, Relay(id)); k in w'.pages && k in w'.fan.chans && View(w', k) == View(w, k)
  {
    var p, q := w.pages[id].relayed, w.fan.chans[id].queue;
    assert (p + [q[0]]) + q[1..] == p + q;
  }

  lemma LeaveInv(w: World, a: Act)
    requires Inv(w) && Enabled(w, a) && (a.Detach? || a.Close? || a.Pulse?)
    ensures Inv(Next(w, a))
  {
    var w' := Next(w, a);
    assert Pending(w') == Pending(w);
    forall k, t | k in w'.fan.clients && Tracked(t)
      ensures Current(w', k, t)
    {
      assert Current(w, k, t);
    }
  }

  lemma StepInv(w: World, a: Act)
    requires Inv(w) && Enabled(w, a)
    ensures Inv(Next(w, a))
  {
    match a
    case Swap(fs) => SwapInv(w, fs);
    case CheckClients => CheckInv(w);
    case SendNext => SendNextInv(w);
    case Finish => FinishInv(w);
    case Broadcast(f) => BroadcastInv(w, f);
    case Attach(id) => AttachInv(w, id);
    case Pulse(_) => LeaveInv(w, a);
    case Greet(id, hello) => GreetInv(w, id, hello);
    case Relay(id) => RelayInv(w, id);
    case Detach(_) => LeaveInv(w, a);
    case Close(_) => LeaveInv(w, a);
  }

  lemma {:induction false} RunInv(w: World, acts: seq<Act>)
    requires Inv(w) && ValidRun(w, acts)
    ensures Inv(Run(w, acts))
    decreases |acts|
  {
    if acts != [] {
      StepInv(w, acts[0]);
      RunInv(Next(w, acts[0]), acts[1..]);
    }
  }
}
