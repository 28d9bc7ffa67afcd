/** The packet being assembled, as the driver keeps it: a chain of buffers and its size, changed in
    place, and the packets that have gone up.  The ghost events are the descriptors consumed so far. */
module Fragments {
  import opened Reassembly

  class Fragment {
    var rxPacketChain: seq<nat>           // from rxPacketHead to rxPacketTail
    var rxPacketSize: nat
    var upstream: seq<Packet>             // packets handed to the network stack
    ghost var events: seq<Event>

    /** The fragment and what has gone up are the fold of the events. */
    ghost predicate Valid()
      reads this
    {
      Fold(events) == Result(Packet(rxPacketChain, rxPacketSize), upstream)
    }

    constructor ()
      ensures Valid() && events == [] && upstream == []
    {
      rxPacketChain, rxPacketSize, upstream, events := [], 0, [], [];
    }

    /** Gives up the fragment of a packet that cannot be completed. */
    method Discard()
      requires Valid()
      modifies this
      ensures Valid() && events == old(events) + [Bad] && upstream == old(upstream) && rxPacketChain == []
          && rxPacketSize == 0
    {
      FoldMore(events, Bad);
      rxPacketChain, rxPacketSize := [], 0;
      events := events + [Bad];
    }

    /** Links a filled buffer to the fragment; the last one of a packet sends it up. */
    method Collect(newPkt: nat, pktSize: nat, eop: bool) returns (ended: bool)
      requires Valid()
      modifies this
      ensures Valid() && events == old(events) + [Good(newPkt, pktSize, eop)] && ended == eop
      ensures var p := Packet(old(rxPacketChain) + [newPkt], old(rxPacketSize) + pktSize);
        if eop then upstream == old(upstream) + [p] && rxPacketChain == [] && rxPacketSize == 0
        else upstream == old(upstream) && rxPacketChain == p.buffers && rxPacketSize == p.length
    {
      FoldMore(events, Good(newPkt, pktSize, eop));
      assert [] + [newPkt] == [newPkt];
      if eop {
        if rxPacketChain != [] {
          rxPacketSize := rxPacketSize + pktSize;
          rxPacketChain := rxPacketChain + [newPkt];
        } else {
          NoChainNoSize(events);
          rxPacketChain := [newPkt];
          rxPacketSize := pktSize;
        }
        upstream := upstream + [Packet(rxPacketChain, rxPacketSize)];
        rxPacketChain, rxPacketSize := [], 0;
      } else {
        if rxPacketChain != [] {
          rxPacketChain := rxPacketChain + [newPkt];
          rxPacketSize := rxPacketSize + pktSize;
        } else {
          NoChainNoSize(events);
          rxPacketChain := [newPkt];
          rxPacketSize := pktSize;
        }
      }
      events := events + [Good(newPkt, pktSize, eop)];
      ended := eop;
    }
  }

  lemma NoChainNoSize(events: seq<Event>)
    requires Fold(events).pending.buffers == []
    ensures Fold(events).pending == NOTHING
  {
  }
}
