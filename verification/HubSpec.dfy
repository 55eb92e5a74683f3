/** Server-sent frames and the fan-out to the attached clients. */
module HubSpec {
  import opened Prelude

  /** The event names; AdHoc stands for the streams outside the per-tick set. */
  datatype Topic = Hello | Stats | Devices | Cache | Services | AdHoc

  /** A marshalled event. It is never empty: it starts with its event name. */
  datatype Frame = Frame(topic: Topic, data: string)

  /** The capacity of a client's queue. */
  const CAPACITY := 16

  datatype Chan = Chan(queue: seq<Frame>, closed: bool)

  /** The hub and every client channel ever made; `clients` are the registered ones. */
  datatype Fan = Fan(clients: set<nat>, chans: map<nat, Chan>, lastPulse: int)

  /** A registered channel exists, is open, and no queue outgrows its capacity. */
  ghost predicate Sound(h: Fan) {
    && h.clients <= h.chans.Keys
    && (forall id :: id in h.clients ==> !h.chans[id].closed)
    && (forall id :: id in h.chans ==> |h.chans[id].queue| <= CAPACITY)
  }

  function Offer(c: Chan, f: Frame): Chan {
    if |c.queue| < CAPACITY then c.(queue := c.queue + [f]) else c
  }

  function AddFan(h: Fan, id: nat): Fan {
    h.(clients := h.clients + {id}, chans := h.chans[id := Chan([], false)])
  }

  function SendFan(h: Fan, f: Option<Frame>): Fan {
    if f.None? then h
    else h.(chans := map id | id in h.chans :: if id in h.clients then Offer(h.chans[id], f.value) else h.chans[id])
  }

  function SendAll(h: Fan, todo: seq<Option<Frame>>): Fan
    decreases |todo|
  {
    if todo == [] then h else SendAll(SendFan(h, todo[0]), todo[1..])
  }

  function DetachFan(h: Fan, id: nat): Fan {
    h.(clients := h.clients - {id})
  }

  function CloseFan(h: Fan, id: nat): Fan {
    if id in h.chans then h.(chans := h.chans[id := h.chans[id].(closed := true)]) else h
  }

  function TakeFan(h: Fan, id: nat): Fan {
    if id in h.chans && h.chans[id].queue != []
    then h.(chans := h.chans[id := h.chans[id].(queue := h.chans[id].queue[1..])])
    else h
  }

  /** Hub.Active: a pulse stands for strictly less than the grace period. */
  predicate GateOpen(lastPulse: int, grace: int, now: int) {
    lastPulse != 0 && now - lastPulse < grace
  }

  lemma SendSound(h: Fan, f: Option<Frame>)
    requires Sound(h)
    ensures Sound(SendFan(h, f)) && SendFan(h, f).clients == h.clients
  {
  }

  // ---- frame sets -----------------------------------------------------------

  /** One render's frames; a payload that cannot be marshalled has none. */
  datatype FrameSet = FrameSet(
    hello: Option<Frame>, stats: Option<Frame>, devices: Option<Frame>, cache: Option<Frame>, services: Option<Frame>)

  const NOTHING := FrameSet(None, None, None, None, None)

  function At(fs: FrameSet, t: Topic): Option<Frame> {
    match t
    case Hello => fs.hello
    case Stats => fs.stats
    case Devices => fs.devices
    case Cache => fs.cache
    case Services => fs.services
    case AdHoc => None
  }

  ghost predicate Labelled(fs: FrameSet) {
    forall t :: At(fs, t).Some? ==> At(fs, t).value.topic == t
  }

  /** frameSet.greeting: identity first, then data; nil before the first render. */
  function Greeting(published: Option<FrameSet>): seq<Option<Frame>> {
    if published.None? then []
    else
      var fs := published.value;
      [fs.hello, fs.stats, fs.devices, fs.cache, fs.services]
  }

  /** The frames among these. */
  function Present(fs: seq<Option<Frame>>): seq<Frame> {
    if fs == [] then []
    else (if fs[0].Some? then [fs[0].value] else []) + Present(fs[1..])
  }

  predicate Changed(prev: Option<Frame>, next: Option<Frame>) {
    next.Some? && prev != next
  }

  /** What a render sends: the clock always, the rest when it moved. */
  function Sends(prev: Option<FrameSet>, fs: FrameSet): seq<Option<Frame>> {
    var p := if prev.None? then NOTHING else prev.value;
    [fs.stats]
    + (if Changed(p.devices, fs.devices) then [fs.devices] else [])
    + (if Changed(p.cache, fs.cache) then [fs.cache] else [])
    + (if Changed(p.services, fs.services) then [fs.services] else [])
  }

  // ---- the last frame of a topic --------------------------------------------

  /** What a page shows for a topic after these frames: the last of its kind. */
  function Last(s: seq<Frame>, t: Topic): Option<Frame> {
    if s == [] then None
    else if s[|s| - 1].topic == t then Some(s[|s| - 1])
    else Last(s[..|s| - 1], t)
  }

  lemma {:induction false} LastAppend(a: seq<Frame>, b: seq<Frame>, t: Topic)
    ensures Last(a + b, t) == if Last(b, t).Some? then Last(b, t) else Last(a, t)
  {
    if b == [] {
      assert a + b == a;
    } else {
      assert (a + b)[..|a + b| - 1] == a + b[..|b| - 1];
      LastAppend(a, b[..|b| - 1], t);
    }
  }

  lemma {:induction false} PresentAppend(a: seq<Option<Frame>>, b: seq<Option<Frame>>)
    ensures Present(a + b) == Present(a) + Present(b)
    decreases |a|
  {
    if a == [] {
      assert a + b == b;
    } else {
      var first := if a[0].Some? then [a[0].value] else [];
      assert (a + b)[0] == a[0] && (a + b)[1..] == a[1..] + b;
      assert Present(a + b) == first + Present(a[1..] + b);
      PresentAppend(a[1..], b);
      Assoc(first, Present(a[1..]), Present(b));
    }
  }

  lemma Assoc(a: seq<Frame>, b: seq<Frame>, c: seq<Frame>)
    ensures a + (b + c) == (a + b) + c
  {
  }

  /** One more frame, or none, at the end of a list. */
  lemma LastPiece(a: seq<Option<Frame>>, piece: seq<Option<Frame>>, all: seq<Option<Frame>>, t: Topic)
    requires |piece| <= 1 && all == a + piece
    ensures Last(Present(all), t) ==
            if |piece| == 1 && piece[0].Some? && piece[0].value.topic == t then piece[0] else Last(Present(a), t)
  {
    PresentAppend(a, piece);
    LastAppend(Present(a), Present(piece), t);
    if piece != [] {
      assert piece[1..] == [];
      assert Present(piece) == if piece[0].Some? then [piece[0].value] else [];
    }
  }

  /** The frames of a render, topic by topic. */
  lemma LastOfSends(prev: Option<FrameSet>, fs: FrameSet, t: Topic)
    requires Labelled(fs)
    ensures Last(Present(Sends(prev, fs)), t) ==
            if t == Stats then fs.stats
            else if t != Hello && Changed(At(if prev.None? then NOTHING else prev.value, t), At(fs, t)) then At(fs, t)
            else None
  {
    var p := if prev.None? then NOTHING else prev.value;
    var devices := if Changed(p.devices, fs.devices) then [fs.devices] else [];
    var cache := if Changed(p.cache, fs.cache) then [fs.cache] else [];
    var services := if Changed(p.services, fs.services) then [fs.services] else [];
    var one := [fs.stats];
    var two := one + devices;
    var three := two + cache;
    LastPiece([], one, one, t);
    LastPiece(one, devices, two, t);
    LastPiece(two, cache, three, t);
    LastPiece(three, services, Sends(prev, fs), t);
    LabelledAt(fs);
  }

  lemma LabelledAt(fs: FrameSet)
    requires Labelled(fs)
    ensures fs.hello.Some? ==> fs.hello.value.topic == Hello
    ensures fs.stats.Some? ==> fs.stats.value.topic == Stats
    ensures fs.devices.Some? ==> fs.devices.value.topic == Devices
    ensures fs.cache.Some? ==> fs.cache.value.topic == Cache
    ensures fs.services.Some? ==> fs.services.value.topic == Services
  {
    assert At(fs, Hello) == fs.hello && At(fs, Stats) == fs.stats && At(fs, Devices) == fs.devices;
    assert At(fs, Cache) == fs.cache && At(fs, Services) == fs.services;
  }

  /** A greeting shows exactly what is published. */
  lemma LastOfGreeting(published: Option<FrameSet>, t: Topic)
    requires published.Some? ==> Labelled(published.value)
    ensures Last(Present(Greeting(published)), t) == if published.Some? then At(published.value, t) else None
  {
    if published.Some? {
      var fs := published.value;
      var one, two := [fs.hello], [fs.hello, fs.stats];
      var three, four := [fs.hello, fs.stats, fs.devices], [fs.hello, fs.stats, fs.devices, fs.cache];
      LastPiece([], one, one, t);
      LastPiece(one, [fs.stats], two, t);
      LastPiece(two, [fs.devices], three, t);
      LastPiece(three, [fs.cache], four, t);
      LastPiece(four, [fs.services], Greeting(published), t);
      LabelledAt(fs);
    }
  }

  // ---- room and order -------------------------------------------------------------

  /** A registered queue takes a frame exactly if it holds fewer than sixteen; no other
      channel is touched, and nobody is unregistered. */
  lemma SendMeaning(h: Fan, f: Frame, id: nat)
    requires id in h.chans
    ensures var h' := SendFan(h, Some(f));
            && id in h'.chans && h'.clients == h.clients && h'.lastPulse == h.lastPulse && h'.chans[id].closed == h.chans[id].closed
            && h'.chans[id].queue == h.chans[id].queue + (if id in h.clients && |h.chans[id].queue| < 16 then [f] else [])
  {
  }

  /** Identity first, then the data; a render starts with the clock. */
  lemma OrderMeaning(prev: Option<FrameSet>, fs: FrameSet)
    requires Labelled(fs)
    ensures forall i, j :: 0 <= i < j < |Greeting(Some(fs))| && Greeting(Some(fs))[i].Some? && Greeting(Some(fs))[j].Some? ==>
              TopicRank(Greeting(Some(fs))[i].value.topic) < TopicRank(Greeting(Some(fs))[j].value.topic)
    ensures forall i, j :: 0 <= i < j < |Sends(prev, fs)| && Sends(prev, fs)[i].Some? && Sends(prev, fs)[j].Some? ==>
              TopicRank(Sends(prev, fs)[i].value.topic) < TopicRank(Sends(prev, fs)[j].value.topic)
  {
    LabelledAt(fs);
  }

  function TopicRank(t: Topic): nat {
    match t
    case Hello => 0
    case Stats => 1
    case Devices => 2
    case Cache => 3
    case Services => 4
    case AdHoc => 5
  }
}
