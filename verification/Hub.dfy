/** The hub, the renderer and the event handler as the server runs them. */
module HubObject {
  import opened Prelude
  import opened HubSpec
  import opened Publish
  import opened Attach

  /** sse.Hub. A channel is known by its number; `chans` holds the channels made. */
  class Hub {
    const grace: int
    var clients: set<nat>
    var lastPulse: int
    var chans: map<nat, Chan>
    var made: nat

    ghost function View(): Fan
      reads this
    {
      Fan(clients, chans, lastPulse)
    }

    ghost predicate Valid()
      reads this
    {
      Sound(View()) && forall id :: id in chans ==> id < made
    }

    constructor (grace: int)
      ensures Valid() && this.grace == grace && View() == Fan({}, map[], 0)
    {
      this.grace := grace;
      clients, lastPulse, chans, made := {}, 0, map[], 0;
    }

    method Clients() returns (n: nat)
      ensures n == |clients|
    {
      n := |clients|;
    }

    method Pulse(now: int)
      requires Valid()
      modifies this`lastPulse
      ensures Valid() && View() == old(View()).(lastPulse := now)
    {
      lastPulse := now;
    }

    /** Whether probing is authorised. */
    method Active(now: int) returns (active: bool)
      ensures active == GateOpen(lastPulse, grace, now)
      ensures lastPulse == 0 ==> !active
    {
      if lastPulse == 0 {
        return false;
      }
      active := now - lastPulse < grace;
    }

    /** Offers one frame to every registered client; it has no branch that waits. */
    method Send(f: Option<Frame>)
      requires Valid()
      modifies this
      ensures Valid() && View() == SendFan(old(View()), f)
    {
      if f.None? {
        return;
      }
      chans := Fanned(clients, chans, f.value);
      SendSound(old(View()), f);
    }

    method Add() returns (id: nat)
      requires Valid()
      modifies this
      ensures Valid() && id !in old(chans) && View() == AddFan(old(View()), id)
    {
      id := made;
      made := made + 1;
      chans := chans[id := Chan([], false)];
      clients := clients + {id};
    }

    /** The handler that made the channel gives it up, once. */
    method Remove(id: nat)
      requires Valid() && id in chans && !chans[id].closed
      modifies this
      ensures Valid() && View() == CloseFan(DetachFan(old(View()), id), id)
    {
      clients := clients - {id};
      chans := chans[id := chans[id].(closed := true)];
    }

    /** Offers the frame to one client after the other, in any order. */
    static method Fanned(clients: set<nat>, chans: map<nat, Chan>, f: Frame) returns (next: map<nat, Chan>)
      requires clients <= chans.Keys
      ensures next.Keys == chans.Keys
      ensures forall id :: id in chans ==> next[id] == if id in clients then Offer(chans[id], f) else chans[id]
    {
      next := chans;
      var todo := clients;
      while todo != {}
        invariant todo <= clients && next.Keys == chans.Keys
        invariant forall id :: id in chans ==> next[id] == if id in clients - todo then Offer(chans[id], f) else chans[id]
        decreases |todo|
      {
        var id :| id in todo;
        todo := todo - {id};
        if |next[id].queue| < CAPACITY {
          next := next[id := next[id].(queue := next[id].queue + [f])];
        }
      }
    }
  }

  /** The part of the server that publishes: the hub and the published frames. */
  class Publisher {
    const hub: Hub
    var frames: Option<FrameSet>

    constructor (hub: Hub)
      ensures this.hub == hub && frames == None
    {
      this.hub := hub;
      frames := None;
    }

    /** The publishing half of render, run in one go: it publishes before it looks
        for clients. */
    method Render(fs: FrameSet)
      requires hub.Valid()
      modifies this, hub
      ensures hub.Valid() && frames == Some(fs)
      ensures hub.View() == RenderFan(old(hub.View()), old(frames), fs)
    {
      var prev := frames;
      frames := Some(fs);
      var n := hub.Clients();
      if n == 0 {
        return;
      }
      ghost var before := hub.View();
      var p := if prev.None? then NOTHING else prev.value;
      hub.Send(fs.stats);
      if Changed(p.devices, fs.devices) {
        hub.Send(fs.devices);
      }
      if Changed(p.cache, fs.cache) {
        hub.Send(fs.cache);
      }
      if Changed(p.services, fs.services) {
        hub.Send(fs.services);
      }
      SendAllOfRender(before, prev, fs);
    }

    /** The opening of the event handler: attach, pulse, load the published frames.
        Writing frame number `fault` fails, if there are that many, and then the
        channel is given up. */
    method Connect(now: int, hello: Option<Frame>, fault: nat) returns (id: nat, written: seq<Frame>, ok: bool)
      requires hub.Valid()
      modifies hub
      ensures hub.Valid() && id !in old(hub.chans)
      ensures var attached := AddFan(old(hub.View()), id).(lastPulse := now);
              hub.View() == if ok then attached else CloseFan(DetachFan(attached, id), id)
      ensures ok <==> fault >= |GreetingFrames(frames, hello)|
      ensures written == if ok then GreetingFrames(frames, hello) else GreetingFrames(frames, hello)[..fault]
    {
      id := hub.Add();
      hub.Pulse(now);
      var greeting := if frames.None? then [hello] else Greeting(frames);
      written, ok := WriteAll(greeting, fault);
      if !ok {
        hub.Remove(id);
      }
    }

    /** Writes the frames there are, in order, up to the first failure. */
    static method WriteAll(fs: seq<Option<Frame>>, fault: nat) returns (written: seq<Frame>, ok: bool)
      ensures ok <==> fault >= |Present(fs)|
      ensures written == if ok then Present(fs) else Present(fs)[..fault]
    {
      written, ok := [], true;
      for k := 0 to |fs|
        invariant ok && |written| <= fault
        invariant Present(fs) == written + Present(fs[k..])
      {
        PresentCons(fs[k..]);
        assert fs[k..][1..] == fs[k + 1..];
        if fs[k].Some? {
          if |written| == fault {
            assert Present(fs) == written + ([fs[k].value] + Present(fs[k + 1..]));
            return written, false;
          }
          written := written + [fs[k].value];
        }
      }
      assert fs[|fs|..] == [] && Present(fs) == written;
    }
  }

  lemma PresentCons(fs: seq<Option<Frame>>)
    requires fs != []
    ensures Present(fs) == (if fs[0].Some? then [fs[0].value] else []) + Present(fs[1..])
  {
  }

  function SendIf(h: Fan, moved: bool, f: Option<Frame>): Fan {
    if moved then SendFan(h, f) else h
  }

  /** The conditional sends of a render, one by one. */
  lemma SendAllOfRender(h: Fan, prev: Option<FrameSet>, fs: FrameSet)
    ensures var p := if prev.None? then NOTHING else prev.value;
            var h1 := SendFan(h, fs.stats);
            var h2 := SendIf(h1, Changed(p.devices, fs.devices), fs.devices);
            var h3 := SendIf(h2, Changed(p.cache, fs.cache), fs.cache);
            SendAll(h, Sends(prev, fs)) == SendIf(h3, Changed(p.services, fs.services), fs.services)
  {
    var p := if prev.None? then NOTHING else prev.value;
    var devices := if Changed(p.devices, fs.devices) then [fs.devices] else [];
    var cache := if Changed(p.cache, fs.cache) then [fs.cache] else [];
    var services := if Changed(p.services, fs.services) then [fs.services] else [];
    SendPiece(h, [fs.stats], devices + cache + services);
    assert [fs.stats] + (devices + cache + services) == Sends(prev, fs);
    var h1 := SendFan(h, fs.stats);
    SendPiece(h1, devices, cache + services);
    assert devices + (cache + services) == devices + cache + services;
    SendPiece(SendIf(h1, devices != [], fs.devices), cache, services);
    SendPiece(SendIf(SendIf(h1, devices != [], fs.devices), cache != [], fs.cache), services, []);
    assert services + [] == services;
  }

  lemma SendPiece(h: Fan, piece: seq<Option<Frame>>, rest: seq<Option<Frame>>)
    requires |piece| <= 1
    ensures SendAll(h, piece + rest) == SendAll(if piece == [] then h else SendFan(h, piece[0]), rest)
  {
    if piece == [] {
      assert piece + rest == rest;
    } else {
      assert (piece + rest)[1..] == rest;
    }
  }
}
