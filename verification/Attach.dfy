/** What the publish and attach protocol guarantees to a page. */
module Attach {
  import opened Prelude
  import opened HubSpec
  import opened Publish

  // ---- no update is missed --------------------------------------------------

  /** Everything written to the page so far. */
  function Stream(w: World, id: nat): seq<Frame>
    requires id in w.pages && w.pages[id].greeting.Some?
  {
    w.pages[id].greeting.value + w.pages[id].relayed
  }

  lemma StartInv()
    ensures Inv(START)
  {
  }

  /** Whenever no render is in progress, what was written to an attached page and
      what is queued for it ends, topic by topic, with what is published, unless the
      latest frame of that topic was dropped. Nothing is assumed of other topics,
      of earlier drops, or of the order in which pages attach, relay and leave. */
  lemma AttachMissesNothing(acts: seq<Act>, id: nat, t: Topic)
    requires ValidRun(START, acts)
    requires var w := Run(START, acts);
             && w.pc.Idle? && id in w.fan.clients && id in w.pages && w.pages[id].greeting.Some?
             && Tracked(t) && t !in w.pages[id].missed && Shown(w.published, t).Some?
    ensures var w := Run(START, acts);
            && id in w.fan.chans
            && Last(Stream(w, id) + w.fan.chans[id].queue, t) == At(w.published.value, t)
            && (w.fan.chans[id].queue == [] ==> Last(Stream(w, id), t) == At(w.published.value, t))
  {
    var w := Run(START, acts);
    StartInv();
    RunInv(START, acts);
    assert Current(w, id, t);
    assert View(w, id) == Stream(w, id) + w.fan.chans[id].queue;
    assert w.fan.chans[id].queue == [] ==> View(w, id) == Stream(w, id);
  }

  // ---- the other side: a dropped frame is not sent again ----------------------

  /** No render of the run moves the topic. */
  ghost predicate Still(w: World, acts: seq<Act>, t: Topic)
    decreases |acts|
  {
    acts == [] ||
    ((acts[0].Swap? ==> At(acts[0].fs, t) == Shown(w.published, t)) && Still(Next(w, acts[0]), acts[1..], t))
  }

  lemma StepShape(w: World, a: Act)
    requires Shape(w) && Enabled(w, a)
    ensures Shape(Next(w, a))
  {
    match a
    case SendNext => SendShape(w, w.pc.todo[0]);
    case Broadcast(f) => SendShape(w, f);
    case _ =>
  }

  lemma StillStep(w: World, a: Act, id: nat, t: Topic)
    requires Shape(w) && Enabled(w, a) && id in w.pages && w.pages[id].greeting.Some?
    requires Tracked(t) && t != Stats && Last(Pending(w), t).None?
    requires a.Swap? ==> At(a.fs, t) == Shown(w.published, t)
    ensures var w' := Next(w, a);
            && Shape(w') && id in w'.pages && w'.pages[id].greeting.Some?
            && Last(Pending(w'), t).None? && Last(View(w', id), t) == Last(View(w, id), t)
  {
    StepShape(w, a);
    match a
    case Swap(fs) =>
      LastOfSends(w.published, fs, t);
    case SendNext =>
      var f, rest := w.pc.todo[0], w.pc.todo[1..];
      HeadLast(w.pc.todo, t);
      StillSend(w, f, id, t);
      ViewIgnoresPc(SendWorld(w, f), Sending(rest), id);
    case Broadcast(f) =>
      StillSend(w, f, id, t);
    case Relay(k) =>
      RelayKeepsView(w, k, id);
    case _ =>
  }

  lemma StillSend(w: World, f: Option<Frame>, id: nat, t: Topic)
    requires Shape(w) && id in w.pages && w.pages[id].greeting.Some? && (f.Some? ==> f.value.topic != t)
    ensures var w' := SendWorld(w, f);
            && id in w'.pages && id in w'.fan.chans && w'.pages[id].greeting.Some?
            && Last(View(w', id), t) == Last(View(w, id), t)
  {
    if f.Some? {
      if id in w.fan.clients {
        ViewGrows(w, f.value, id, t);
      } else {
        assert View(SendWorld(w, f), id) == View(w, id);
      }
    }
  }

  /** As long as a topic other than the clock stays the same, a page sees nothing new
      on it: whatever the page shows, stale or not, is what it goes on showing. */
  lemma {:induction false} StaleUntilChange(w: World, acts: seq<Act>, id: nat, t: Topic)
    requires Shape(w) && ValidRun(w, acts) && Still(w, acts, t)
    requires id in w.pages && w.pages[id].greeting.Some?
    requires Tracked(t) && t != Stats && Last(Pending(w), t).None?
    ensures var w' := Run(w, acts);
            && id in w'.pages && id in w'.fan.chans
            && Last(View(w', id), t) == Last(View(w, id), t)
    decreases |acts|
  {
    if acts != [] {
      StillStep(w, acts[0], id, t);
      StaleUntilChange(Next(w, acts[0]), acts[1..], id, t);
    }
  }

  // ---- fan-out safety -------------------------------------------------------

  /** `a` is `b` with some frames left out. */
  ghost predicate Thinned(a: seq<Frame>, b: seq<Frame>)
    decreases |b|
  {
    a == [] ||
    (b != [] &&
     var i, k := |a| - 1, |b| - 1;
     (a[i] == b[k] && Thinned(a[..i], b[..k])) || Thinned(a, b[..k]))
  }

  lemma ThinnedSnoc(a: seq<Frame>, b: seq<Frame>, x: Frame)
    requires Thinned(a, b)
    ensures Thinned(a + [x], b + [x]) && Thinned(a, b + [x])
  {
    assert (a + [x])[..|a|] == a && (b + [x])[..|b|] == b;
  }

  function Received(w: World, id: nat): seq<Frame>
    requires id in w.pages && id in w.fan.chans
  {
    w.pages[id].relayed + w.fan.chans[id].queue
  }

  ghost predicate Delivered(w: World, id: nat)
    requires id in w.pages && id in w.fan.chans
  {
    var p := w.pages[id];
    && Thinned(Received(w, id), p.offered)
    && (!p.full ==> Received(w, id) == p.offered && p.missed == {})
  }

  ghost predicate AllDelivered(w: World) {
    Shape(w) && forall id :: id in w.pages ==> Delivered(w, id)
  }

  lemma OneSent(w: World, f: Frame, id: nat)
    requires Shape(w) && id in w.pages && Delivered(w, id)
    ensures var w' := SendWorld(w, Some(f)); id in w'.pages && id in w'.fan.chans && Delivered(w', id)
  {
    var w' := SendWorld(w, Some(f));
    if id in w.fan.clients {
      var got, sent := Received(w, id), w.pages[id].offered;
      ThinnedSnoc(got, sent, f);
      assert w'.pages[id] == Offered(w.pages[id], w.fan.chans[id], f);
      if |w.fan.chans[id].queue| < CAPACITY {
        assert Received(w', id) == got + [f];
      }
    }
  }

  lemma SendDelivered(w: World, f: Option<Frame>)
    requires AllDelivered(w)
    ensures AllDelivered(SendWorld(w, f))
  {
    SendShape(w, f);
    if f.Some? {
      forall id | id in SendWorld(w, f).pages
        ensures Delivered(SendWorld(w, f), id)
      {
        OneSent(w, f.value, id);
      }
    }
  }

  /** No other step changes what a page has received or was offered. */
  lemma OneKept(w: World, a: Act, id: nat)
    requires Shape(w) && Enabled(w, a) && !a.SendNext? && !a.Broadcast? && id in w.pages
    ensures var w' := Next(w, a);
            && id in w'.pages && id in w'.fan.chans && Received(w', id) == Received(w, id)
            && w'.pages[id].(relayed := [], greeting := None) == w.pages[id].(relayed := [], greeting := None)
  {
    if a.Relay? && a.id == id {
      var p, q := w.pages[id].relayed, w.fan.chans[id].queue;
      assert (p + [q[0]]) + q[1..] == p + q;
    }
  }

  lemma StepDelivered(w: World, a: Act)
    requires AllDelivered(w) && Enabled(w, a)
    ensures AllDelivered(Next(w, a))
  {
    match a
    case SendNext =>
      SendDelivered(w, w.pc.todo[0]);
      DeliveredIgnoresPc(SendWorld(w, w.pc.todo[0]), Next(w, a).pc);
    case Broadcast(f) =>
      SendDelivered(w, f);
    case _ =>
      RestDelivered(w, a);
  }

  lemma RestDelivered(w: World, a: Act)
    requires AllDelivered(w) && Enabled(w, a) && !a.SendNext? && !a.Broadcast?
    ensures AllDelivered(Next(w, a))
  {
    StepShape(w, a);
    forall id | id in Next(w, a).pages
      ensures Delivered(Next(w, a), id)
    {
      if id in w.pages {
        OneKept(w, a, id);
      }
    }
  }

  lemma DeliveredIgnoresPc(w: World, pc: Pc)
    requires AllDelivered(w) && !pc.Swapped?
    ensures AllDelivered(w.(pc := pc))
  {
    forall id | id in w.pages
      ensures Delivered(w.(pc := pc), id)
    {
      assert Delivered(w, id);
    }
  }

  lemma {:induction false} RunDelivered(w: World, acts: seq<Act>)
    requires AllDelivered(w) && ValidRun(w, acts)
    ensures AllDelivered(Run(w, acts))
    decreases |acts|
  {
    if acts != [] {
      StepDelivered(w, acts[0]);
      RunDelivered(Next(w, acts[0]), acts[1..]);
    }
  }

  /** Over every interleaving: a registered channel is open, so no send meets a
      closed one; no queue outgrows its capacity; and a page receives, in order, a
      part of what was sent while it was registered, and all of it if its queue
      never filled up. */
  lemma FanOutSafe(acts: seq<Act>, id: nat)
    requires ValidRun(START, acts) && id in Run(START, acts).pages
    ensures var w := Run(START, acts);
            && id in w.fan.chans && |w.fan.chans[id].queue| <= CAPACITY
            && (id in w.fan.clients ==> !w.fan.chans[id].closed)
            && Thinned(Received(w, id), w.pages[id].offered)
            && (!w.pages[id].full ==> Received(w, id) == w.pages[id].offered && w.pages[id].missed == {})
  {
    RunDelivered(START, acts);
    assert Delivered(Run(START, acts), id);
  }

  // ---- an uninterrupted render ------------------------------------------------

  /** The steps of one render that nothing interrupts. */
  ghost function SendSteps(todo: seq<Option<Frame>>): seq<Act>
    decreases |todo|
  {
    if todo == [] then [Finish] else [SendNext] + SendSteps(todo[1..])
  }

  lemma {:induction false} SendStepsRun(w: World, todo: seq<Option<Frame>>)
    requires w.pc == Sending(todo)
    ensures ValidRun(w, SendSteps(todo))
    ensures var w' := Run(w, SendSteps(todo));
            w'.fan == SendAll(w.fan, todo) && w'.pc == Idle && w'.published == w.published
    decreases |todo|
  {
    if todo == [] {
      assert [Finish][1..] == [];
      assert Run(Next(w, Finish), []) == Next(w, Finish);
    } else {
      var w1 := Next(w, SendNext);
      assert w1.pc == Sending(todo[1..]) && w1.fan == SendFan(w.fan, todo[0]);
      SendStepsRun(w1, todo[1..]);
      assert ([SendNext] + SendSteps(todo[1..]))[1..] == SendSteps(todo[1..]);
    }
  }

  function RenderFan(h: Fan, prev: Option<FrameSet>, fs: FrameSet): Fan {
    if h.clients == {} then h else SendAll(h, Sends(prev, fs))
  }

  /** What the render method does in one go is a run of the step system. */
  lemma RenderIsRun(w: World, fs: FrameSet)
    requires w.pc.Idle? && Labelled(fs)
    ensures exists acts :: ValidRun(w, acts)
              && Run(w, acts).fan == RenderFan(w.fan, w.published, fs)
              && Run(w, acts).published == Some(fs) && Run(w, acts).pc == Idle
  {
    var w1 := Next(w, Swap(fs));
    var w2 := Next(w1, CheckClients);
    var rest: seq<Act> := [];
    if w.fan.clients != {} {
      var todo := Sends(w.published, fs);
      rest := SendSteps(todo);
      SendStepsRun(w2, todo);
    } else {
      assert Run(w2, rest) == w2;
    }
    var acts := [Swap(fs), CheckClients] + rest;
    assert acts[1..] == [CheckClients] + rest && acts[1..][1..] == rest;
    assert Run(w, acts) == Run(w1, acts[1..]) == Run(w2, rest);
    assert ValidRun(w1, acts[1..]);
    assert ValidRun(w, acts);
  }

  /** What a page is first sent: before the first render the identity frame alone, later
      what is published, without the frames that could not be marshalled. */
  lemma GreetingMeaning(published: Option<FrameSet>, hello: Option<Frame>)
    ensures published.None? ==> GreetingFrames(published, hello) == if hello.Some? then [hello.value] else []
    ensures published.Some? ==>
              forall f :: f in GreetingFrames(published, hello) <==> exists t :: At(published.value, t) == Some(f)
  {
    if published.None? {
      var one := [hello];
      assert one[1..] == [] && Present(one[1..]) == [];
      assert Present(one) == if hello.Some? then [hello.value] else [];
    } else {
      var fs := published.value;
      forall f
        ensures f in GreetingFrames(published, hello) <==> exists t :: At(fs, t) == Some(f)
      {
        PresentMembers(Greeting(published), f);
        assert At(fs, Hello) == fs.hello && At(fs, Stats) == fs.stats && At(fs, Devices) == fs.devices;
        assert At(fs, Cache) == fs.cache && At(fs, Services) == fs.services;
        if i :| 0 <= i < 5 && Greeting(published)[i] == Some(f) {
          assert exists t :: At(fs, t) == Some(f);
        }
        if t :| At(fs, t) == Some(f) {
          var i := match t { case Hello => 0 case Stats => 1 case Devices => 2 case Cache => 3 case _ => 4 };
          assert Greeting(published)[i] == Some(f);
        }
      }
    }
  }

  lemma {:induction false} PresentMembers(fs: seq<Option<Frame>>, f: Frame)
    ensures f in Present(fs) <==> exists i :: 0 <= i < |fs| && fs[i] == Some(f)
  {
    if fs != [] {
      PresentMembers(fs[1..], f);
      assert forall i :: 1 <= i < |fs| ==> fs[i] == fs[1..][i - 1];
      if i :| 0 <= i < |fs| - 1 && fs[1..][i] == Some(f) {
        assert fs[i + 1] == Some(f);
      }
    }
  }

  // ---- coming and going ---------------------------------------------------------

  /** A page that connects with a fresh channel is registered, its queue open and empty,
      its pulse recorded and its greeting what is published; nobody else notices. */
  lemma ConnectIsRun(w: World, id: nat, now: int, hello: Option<Frame>)
    requires Shape(w) && id !in w.fan.chans && (hello.Some? ==> hello.value.topic == Hello)
    ensures var acts := [Attach(id), Pulse(now)] + [Greet(id, hello)];
            var t := Run(w, acts);
            && ValidRun(w, acts)
            && t.fan.clients == w.fan.clients + {id} && t.fan.chans.Keys == w.fan.chans.Keys + {id} && t.fan.lastPulse == now
            && t.fan.chans[id].queue == [] && !t.fan.chans[id].closed
            && (forall k :: k in w.fan.chans ==> t.fan.chans[k] == w.fan.chans[k])
            && id in t.pages && t.pages[id].greeting == Some(GreetingFrames(w.published, hello)) && t.pages[id].relayed == []
  {
    var a, b, c := Attach(id), Pulse(now), Greet(id, hello);
    var w1 := Next(w, a);
    var w2 := Next(w1, b);
    var acts := [a, b] + [c];
    assert acts[1..] == [b, c] && acts[1..][1..] == [c] && [c][1..] == [];
    assert Run(w2, [c]) == Next(w2, c) && ValidRun(w2, [c]);
    assert Run(w1, acts[1..]) == Next(w2, c) && ValidRun(w1, acts[1..]);
  }

  /** It stays registered until it detaches, whatever else happens. */
  lemma {:induction false} RegisteredUntilDetach(w: World, acts: seq<Act>, id: nat)
    requires id in w.fan.clients && forall i :: 0 <= i < |acts| ==> acts[i] != Detach(id)
    ensures id in Run(w, acts).fan.clients
    decreases |acts|
  {
    if acts != [] {
      assert acts[0] != Detach(id);
      assert forall i :: 0 <= i < |acts| - 1 ==> acts[1..][i] == acts[i + 1];
      StaysRegistered(w, acts[0], id);
      RegisteredUntilDetach(Next(w, acts[0]), acts[1..], id);
    }
  }

  lemma StaysRegistered(w: World, a: Act, id: nat)
    requires id in w.fan.clients && a != Detach(id)
    ensures id in Next(w, a).fan.clients
  {
  }

  /** Leaving takes two steps: unregistered first, with the channel still open, and
      closed only then. */
  lemma LeaveMeaning(w: World, id: nat)
    requires Shape(w) && id in w.fan.clients
    ensures var w1 := Next(w, Detach(id));
            var w2 := Next(w1, Close(id));
            && w1.fan.clients == w.fan.clients - {id} && w1.fan.chans == w.fan.chans
            && w2.fan.clients == w1.fan.clients && w2.fan.chans.Keys == w.fan.chans.Keys
            && w2.fan.chans[id].closed && w2.fan.chans[id].queue == w.fan.chans[id].queue
            && forall k :: k in w.fan.chans && k != id ==> w2.fan.chans[k] == w.fan.chans[k]
  {
  }
}
