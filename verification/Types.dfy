/** The presence scalars of a device, ordered as a join-semilattice. */
module Presence {
  import opened Prelude

  /** `icmp`: has ever answered ICMP; `up`: last confirmed up; `seen`: last sighting. */
  datatype Scal = Scal(icmp: bool, up: int, seen: int)

  const NEVER := Scal(false, 0, 0)

  function Join(a: Scal, b: Scal): Scal {
    Scal(a.icmp || b.icmp, Max(a.up, b.up), Max(a.seen, b.seen))
  }

  predicate Le(a: Scal, b: Scal) {
    (a.icmp ==> b.icmp) && a.up <= b.up && a.seen <= b.seen
  }

  /** What the dashboard silently relies on: being up is a sighting, and whoever
      answered ICMP has been up. */
  predicate Ordered(s: Scal) {
    s.up <= s.seen && (s.icmp ==> s.up > 0)
  }

  predicate Before(s: Scal, clock: int) {
    s.up <= clock && s.seen <= clock
  }
}

/** The records that the server's memory, the batches and the journal exchange. */
module Types {
  import opened Prelude
  import opened Presence

  datatype Attrs = Attrs(nameSource: string, vendor: string, link: string, notes: string, createdAt: int)

  /** store.Device: configuration plus the stored presence scalars. */
  datatype Device = Device(mac: string, ip: string, name: string, attrs: Attrs, probes: seq<int>, pres: Scal)

  datatype St = Up | Down

  datatype IcmpResult = IcmpResult(st: St, rtt: int)
  datatype ProbeView = ProbeView(port: int, st: St, rtt: int)
  datatype LivePart = LivePart(icmp: Option<IcmpResult>, probes: seq<ProbeView>)

  const NO_LIVE := LivePart(None, [])

  datatype Arp = ArpUp | ArpStale | ArpDown

  /** One kernel neighbour record (neigh.Entry); the reader has already
      normalised its MAC and its state. */
  datatype Entry = Entry(ip: string, mac: string, state: Arp, seenSec: int)

  /** The last verdict on a device; NoVerdict is the source's empty status. */
  datatype Verdict = NoVerdict | Said(st: St)

  /** Which active probe answered; NoSignal is logged as "none". */
  datatype Signal = Icmp | Tcp | NoSignal

  /** devState: the in-memory record of one tracked device. */
  datatype Dev = Dev(cfg: Device, pres: Scal, live: LivePart, arp: Arp, arpSeen: int, status: Verdict, dirty: bool)

  datatype Observed = Observed(mac: string, ip: string, name: string, lastSeen: int)

  datatype SeenUpdate = SeenUpdate(mac: string, pres: Scal)
  datatype SeenEvent = SeenEvent(mac: string, ts: int, st: St, signal: Signal)
  datatype IpMove = IpMove(mac: string, ip: string)

  /** One write-behind flush. */
  datatype Batch = Batch(seen: seq<SeenUpdate>, events: seq<SeenEvent>, obs: seq<Observed>, moves: seq<IpMove>)
  {
    predicate Empty() {
      |seen| == 0 && |events| == 0 && |obs| == 0 && |moves| == 0
    }
  }
}
