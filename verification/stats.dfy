/**
 Per-direction traffic counters of the datapath.

 Each direction (packets arriving from the network, packets leaving a local
 application) owns one set of counters; a handler touches only its own set.
 */
module Stats {

  datatype Counters = Counters(incoming: nat, createDrop: nat, protocolDrop: nat)

  /** The counters when the process starts; there is no reset. */
  const Zero: Counters := Counters(0, 0, 0)

  /** Every packet that was dropped for a parse or protocol reason was first
      counted as incoming. */
  predicate Consistent(c: Counters) {
    c.createDrop + c.protocolDrop <= c.incoming
  }

  datatype Direction = Network | Application
  {
    function Other(): (d: Direction)
      ensures d != this
    {
      match this
      case Network => Application
      case Application => Network
    }
  }

  /** The counter state of the datapath: `net` for network-originated
      traffic, `app` for application-originated traffic. */
  datatype Datapath = Datapath(net: Counters, app: Counters)
  {
    function Of(dir: Direction): Counters {
      match dir
      case Network => net
      case Application => app
    }

    /** Replaces the counters of one direction; the other direction keeps
        its counters. */
    function With(dir: Direction, c: Counters): (d': Datapath)
      ensures d'.Of(dir) == c
      ensures d'.Of(dir.Other()) == Of(dir.Other())
    {
      match dir
      case Network => this.(net := c)
      case Application => this.(app := c)
    }
  }
}
