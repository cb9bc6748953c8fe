/** The server's two sharing tables: open offers, keyed by recipient and then
    sender, and offers whose data is being fetched from the sender's client,
    keyed by offer id. Each locked operation of the source is one method. */
module Sharing {
  import opened Wrappers
  import opened Wire
  import opened Identifiers
  import opened CopyPaths
  import opened ShareOffers

  /** An accepted offer waiting for its data, with the packets received so far
      stored under their packet numbers. */
  datatype ShareOfferBeingProcessed = ShareOfferBeingProcessed(
    offer: ShareOffer,
    receivedPackets: map<int32, FulfilOfferPacket>)

  /** The totals the received packets declare; getPacketCountRequired returns
      whichever one its map yields first. */
  function DeclaredTotals(received: map<int32, FulfilOfferPacket>): set<int> {
    set n | n in received :: received[n].totalExpectedPackets as int
  }

  /** getPacketCountRequired: the total declared by some received packet, or
      -1 when none has arrived. */
  method PacketCountRequired(received: map<int32, FulfilOfferPacket>) returns (count: int)
    ensures received == map[] ==> count == -1
    ensures received != map[] ==> count in DeclaredTotals(received)
  {
    if received == map[] {
      return -1;
    }
    var n :| n in received;
    count := received[n].totalExpectedPackets as int;
  }

  /** When every packet declares the same total, that total is the count. */
  lemma HonestTotals(received: map<int32, FulfilOfferPacket>, total: int)
    requires received != map[]
    requires forall n | n in received :: received[n].totalExpectedPackets as int == total
    ensures DeclaredTotals(received) == {total}
  {
    var n :| n in received;
    assert received[n].totalExpectedPackets as int in DeclaredTotals(received);
  }

  /** hasAllPackets. */
  predicate HasAllPackets(received: map<int32, FulfilOfferPacket>, count: int) {
    |received| >= count
  }

  /** What acceptOffer leads to. */
  datatype AcceptOutcome =
    | NoOffer
      /** The data is in hand: it goes to the recipient with the offer. */
    | Deliver(offer: ShareOffer, data: Nbt)
      /** The sender's client is asked for the data. */
    | RequestData(request: FulfilOfferRequestPacket)

  /** What storeOfferFulfilmentParts leads to. */
  datatype StoreOutcome =
    | Unrequested
    | WrongSender
    | Waiting
      /** All packets counted, but one in 0..count-1 was never received: the
          source dereferences null here. */
    | PartMissing
    | Assembled(offer: ShareOffer, itemData: string)

  /** storeOfferFulfilmentParts on the table of offers being processed, given
      the count getPacketCountRequired picks. */
  function StoreStep(processed: map<int32, ShareOfferBeingProcessed>, packet: FulfilOfferPacket,
                     sender: Option<PlayerId>, count: int32): (map<int32, ShareOfferBeingProcessed>, StoreOutcome)
  {
    if packet.offerId !in processed then (processed, Unrequested)
    else
      var entry := processed[packet.offerId];
      if sender != Some(entry.offer.sender) then (processed, WrongSender)
      else
        var received := entry.receivedPackets[packet.packetNumber := packet];
        if !HasAllPackets(received, count as int) then
          (processed[packet.offerId := entry.(receivedPackets := received)], Waiting)
        else
          var n := if count < 0 then 0 else count as int;
          match Reassembled(received, n)
          case None => (processed - {packet.offerId}, PartMissing)
          case Some(itemData) => (processed - {packet.offerId}, Assembled(entry.offer, itemData))
  }

  /** Storing a packet keeps every entry filed under its id with its packets
      under their numbers. */
  lemma StoreStepKeepsValid(processed: map<int32, ShareOfferBeingProcessed>, packet: FulfilOfferPacket,
                            sender: Option<PlayerId>, count: int32)
    requires forall id | id in processed :: Sharer.ProcessingEntryValid(id, processed[id])
    ensures forall id | id in StoreStep(processed, packet, sender, count).0 ::
              Sharer.ProcessingEntryValid(id, StoreStep(processed, packet, sender, count).0[id])
  {
  }

  /** The table after a packet is stored and whether storing it completes the
      offer do not depend on which total is picked, when the sender's packets
      all declare the same one. */
  lemma StoreStepHonest(processed: map<int32, ShareOfferBeingProcessed>, packet: FulfilOfferPacket,
                        sender: Option<PlayerId>, a: int32, b: int32)
    requires packet.offerId in processed && sender == Some(processed[packet.offerId].offer.sender)
    requires a as int in DeclaredTotals(processed[packet.offerId].receivedPackets[packet.packetNumber := packet])
    requires b as int in DeclaredTotals(processed[packet.offerId].receivedPackets[packet.packetNumber := packet])
    requires forall n | n in processed[packet.offerId].receivedPackets ::
               processed[packet.offerId].receivedPackets[n].totalExpectedPackets == packet.totalExpectedPackets
    ensures StoreStep(processed, packet, sender, a) == StoreStep(processed, packet, sender, b)
  {
    var received := processed[packet.offerId].receivedPackets[packet.packetNumber := packet];
    HonestTotals(received, packet.totalExpectedPackets as int);
  }

  /** Storing the j-th of the packets cut from some data, in any arrival order:
      the entry waits until the last one, which completes it with the data. */
  lemma StoreStepReassembles(processed: map<int32, ShareOfferBeingProcessed>, offerId: int32, data: string,
                             arrivals: seq<FulfilOfferPacket>, j: nat, sender: PlayerId, count: int32)
    requires |data| <= MaxInt32 && |Chunks(data)| <= MaxInt32
    requires DistinctNumbers(arrivals)
    requires forall p :: p in arrivals <==> p in PacketsFor(offerId, Chunks(data))
    requires j < |arrivals|
    requires offerId in processed && processed[offerId].offer.sender == sender
    requires processed[offerId].receivedPackets == Receive(map[], arrivals[..j])
    requires count as int in DeclaredTotals(Receive(map[], arrivals[..j + 1]))
    ensures arrivals[j].offerId == offerId
    ensures j + 1 < |arrivals| ==> StoreStep(processed, arrivals[j], Some(sender), count).1 == Waiting
    ensures j + 1 == |arrivals| ==>
              StoreStep(processed, arrivals[j], Some(sender), count)
              == (processed - {offerId}, Assembled(processed[offerId].offer, data))
  {
    ReassemblyInAnyOrder(offerId, data, arrivals);
    assert arrivals[j] in arrivals;
    ReceiveSnoc(arrivals, j);
    var received := Receive(map[], arrivals[..j + 1]);
    forall n | n in received ensures received[n].totalExpectedPackets as int == |arrivals| {
      ReceivedFrom(arrivals[..j + 1], n);
      var k :| 0 <= k < j + 1 && arrivals[..j + 1][k] == received[n];
      assert arrivals[k] in arrivals;
    }
    assert arrivals[j].packetNumber in received by {
      ReceiveContents(map[], arrivals[..j + 1]);
      assert arrivals[..j + 1][j] == arrivals[j];
    }
    HonestTotals(received, |arrivals|);
    if j + 1 == |arrivals| {
      assert arrivals[..j + 1] == arrivals;
    } else {
      PrefixesIncomplete(arrivals);
    }
  }

  /** Receiving one more arrival. */
  lemma ReceiveSnoc(arrivals: seq<FulfilOfferPacket>, j: nat)
    requires j < |arrivals|
    ensures Receive(map[], arrivals[..j + 1])
         == Receive(map[], arrivals[..j])[arrivals[j].packetNumber := arrivals[j]]
  {
    ReceiveAppend(map[], arrivals[..j], arrivals[j]);
    assert arrivals[..j + 1] == arrivals[..j] + [arrivals[j]];
  }

  lemma {:induction false} ReceiveAppend(received: map<int32, FulfilOfferPacket>, arrivals: seq<FulfilOfferPacket>,
                                         last: FulfilOfferPacket)
    ensures Receive(received, arrivals + [last])
         == Receive(received, arrivals)[last.packetNumber := last]
    decreases |arrivals|
  {
    if arrivals == [] {
      assert arrivals + [last] == [last];
    } else {
      assert (arrivals + [last])[1..] == arrivals[1..] + [last];
      ReceiveAppend(received[arrivals[0].packetNumber := arrivals[0]], arrivals[1..], last);
    }
  }

  /** Every entry received from nothing is one of the arrivals. */
  lemma {:induction false} ReceivedFrom(arrivals: seq<FulfilOfferPacket>, n: int32)
    requires n in Receive(map[], arrivals)
    ensures exists k | 0 <= k < |arrivals| :: arrivals[k] == Receive(map[], arrivals)[n]
    decreases |arrivals|
  {
    var init := arrivals[..|arrivals| - 1];
    var last := arrivals[|arrivals| - 1];
    ReceiveAppend(map[], init, last);
    assert arrivals == init + [last];
    if n != last.packetNumber {
      ReceivedFrom(init, n);
      var k :| 0 <= k < |init| && init[k] == Receive(map[], init)[n];
      assert arrivals[k] == init[k];
    }
  }

  /** No two entries of one offers map are both expired. */
  predicate AtMostOneExpired(m: map<PlayerId, ShareOffer>, currentTime: int) {
    forall a, b | a in m && b in m && HasExpired(m[a], currentTime) && HasExpired(m[b], currentTime) :: a == b
  }

  /** m keeps some of the offers of before, unchanged, and drops only expired ones. */
  predicate PurgedFrom(m: map<PlayerId, ShareOffer>, before: map<PlayerId, ShareOffer>, currentTime: int) {
    && m.Keys <= before.Keys
    && (forall s | s in m :: m[s] == before[s])
    && (forall s | s in before && s !in m :: HasExpired(before[s], currentTime))
  }

  /** What the source's purge leaves of one non-empty offers map: at least
      one offer (the last one iterated is never tested), at most one expired
      offer, and a lone offer untouched. */
  predicate PurgedAllButOne(m: map<PlayerId, ShareOffer>, before: map<PlayerId, ShareOffer>, currentTime: int) {
    && before != map[]
    && m != map[]
    && PurgedFrom(m, before, currentTime)
    && AtMostOneExpired(m, currentTime)
    && (|before| == 1 ==> m == before)
  }

  /** The open offers of one recipient at a time: exactly the unexpired ones. */
  function Unexpired(m: map<PlayerId, ShareOffer>, currentTime: int): (r: map<PlayerId, ShareOffer>)
    ensures forall s :: s in r <==> s in m && !HasExpired(m[s], currentTime)
    ensures forall s | s in r :: r[s] == m[s]
  {
    map s | s in m && !HasExpired(m[s], currentTime) :: m[s]
  }

  /** The server's sharing state. */
  class Sharer {
    /** ShareOffer's id counter. */
    var nextId: int32
    /** Open offers: recipient, then sender. */
    var offers: map<PlayerId, map<PlayerId, ShareOffer>>
    var offersBeingProcessed: map<int32, ShareOfferBeingProcessed>
    /** The copy path an offer of data in hand is saved under by default. */
    const defaultPath: CopyPath

    /** Every open offer is filed under its own recipient and sender, and every
        offer being processed under its own id, waits for data, and holds
        packets for it under their own numbers. */
    predicate Valid()
      reads this
    {
      && Filed(offers)
      && (forall id | id in offersBeingProcessed :: ProcessingEntryValid(id, offersBeingProcessed[id]))
    }

    static predicate Filed(offers: map<PlayerId, map<PlayerId, ShareOffer>>) {
      forall r, s | r in offers && s in offers[r] ::
        offers[r][s].recipient == r && offers[r][s].sender == s && WellFormed(offers[r][s])
    }

    /** Purging keeps the offers filed where they were. */
    static lemma PurgeKeepsFiled(before: map<PlayerId, map<PlayerId, ShareOffer>>,
                                 after: map<PlayerId, map<PlayerId, ShareOffer>>, currentTime: int)
      requires Filed(before) && after.Keys <= before.Keys
      requires forall r | r in after :: PurgedFrom(after[r], before[r], currentTime)
      ensures Filed(after)
    {
    }

    static predicate ProcessingEntryValid(id: int32, e: ShareOfferBeingProcessed) {
      && e.offer.offerId == id
      && WellFormed(e.offer) && !HasDataAlready(e.offer)
      && (forall n | n in e.receivedPackets ::
            e.receivedPackets[n].packetNumber == n && e.receivedPackets[n].offerId == id)
    }

    constructor (defaultPath: CopyPath)
      ensures Valid()
      ensures this.defaultPath == defaultPath
      ensures nextId == 0 && offers == map[] && offersBeingProcessed == map[]
    {
      this.defaultPath := defaultPath;
      nextId := 0;
      offers := map[];
      offersBeingProcessed := map[];
    }

    /** getNewId: hands out the counter and increments it, wrapping as a Java
        int does. */
    method GetNewId() returns (id: int32)
      modifies this
      ensures id == old(nextId) && nextId == NextId(old(nextId))
      ensures offers == old(offers) && offersBeingProcessed == old(offersBeingProcessed)
    {
      id := nextId;
      nextId := NextId(nextId);
    }

    /** addOffer: files the offer under its recipient and sender, replacing any
        earlier offer between the two. */
    method AddOffer(offer: ShareOffer)
      requires Valid() && WellFormed(offer)
      modifies this
      ensures Valid()
      ensures offers == old(offers)[offer.recipient :=
                (if offer.recipient in old(offers) then old(offers)[offer.recipient] else map[])[offer.sender := offer]]
      ensures nextId == old(nextId) && offersBeingProcessed == old(offersBeingProcessed)
    {
      var offersAgainstSenders := if offer.recipient in offers then offers[offer.recipient] else map[];
      offers := offers[offer.recipient := offersAgainstSenders[offer.sender := offer]];
    }

    /** addOffer of a saved copy named by the sender's copy path. */
    method AddPathOffer(sender: PlayerId, recipient: PlayerId, itemId: ItemId, copyPath: CopyPath,
                        currentTime: int) returns (offer: ShareOffer)
      requires Valid()
      modifies this
      ensures Valid()
      ensures offer == PathOffer(old(nextId), sender, recipient, itemId, copyPath, currentTime)
      ensures nextId == NextId(old(nextId))
      ensures recipient in offers && offers[recipient] ==
                (if recipient in old(offers) then old(offers)[recipient] else map[])[sender := offer]
      ensures forall r | r != recipient :: (r in offers <==> r in old(offers)) && (r in offers ==> offers[r] == old(offers)[r])
      ensures offersBeingProcessed == old(offersBeingProcessed)
    {
      var id := GetNewId();
      offer := PathOffer(id, sender, recipient, itemId, copyPath, currentTime);
      AddOffer(offer);
    }

    /** addOffer of data in hand, saved by the recipient under the default path. */
    method AddDataOffer(sender: PlayerId, recipient: PlayerId, itemId: ItemId, data: Nbt,
                        currentTime: int) returns (offer: ShareOffer)
      requires Valid()
      modifies this
      ensures Valid()
      ensures offer == DataOffer(old(nextId), sender, recipient, itemId, data, defaultPath, currentTime)
      ensures nextId == NextId(old(nextId))
      ensures recipient in offers && offers[recipient] ==
                (if recipient in old(offers) then old(offers)[recipient] else map[])[sender := offer]
      ensures forall r | r != recipient :: (r in offers <==> r in old(offers)) && (r in offers ==> offers[r] == old(offers)[r])
      ensures offersBeingProcessed == old(offersBeingProcessed)
    {
      var id := GetNewId();
      offer := DataOffer(id, sender, recipient, itemId, data, defaultPath, currentTime);
      AddOffer(offer);
    }

    /** acceptOffer: takes the recipient's offer from the sender out of the
        table, applies the recipient's copy path if one is given, and either
        delivers the data in hand or files the offer as being processed and
        asks the sender's client for the data. */
    method AcceptOffer(sender: PlayerId, recipient: PlayerId, recipientCopyPath: Option<CopyPath>)
      returns (out: AcceptOutcome)
      requires Valid()
      modifies this
      ensures Valid()
      ensures out.NoOffer? <==> !(recipient in old(offers) && sender in old(offers)[recipient])
      ensures out.NoOffer? ==> offers == old(offers) && offersBeingProcessed == old(offersBeingProcessed)
      ensures !out.NoOffer? ==>
                var original := old(offers)[recipient][sender];
                var o := if recipientCopyPath.Some? then WithRecipientCopyPath(original, recipientCopyPath.value)
                         else original;
                && offers == old(offers)[recipient := old(offers)[recipient] - {sender}]
                && (HasDataAlready(o) ==>
                      out == Deliver(o, o.data.value) && offersBeingProcessed == old(offersBeingProcessed))
                && (!HasDataAlready(o) ==>
                      out == RequestData(RequestFor(o))
                      && offersBeingProcessed == old(offersBeingProcessed)[o.offerId := ShareOfferBeingProcessed(o, map[])])
      ensures recipient in offers ==> sender !in offers[recipient]
      ensures nextId == old(nextId)
    {
      var offer: Option<ShareOffer> := None;
      if recipient in offers {
        var offersAgainstSenders := offers[recipient];
        if sender in offersAgainstSenders {
          offer := Some(offersAgainstSenders[sender]);
        } else {
          assert offersAgainstSenders - {sender} == offersAgainstSenders;
          assert offers[recipient := offersAgainstSenders] == offers;
        }
        offers := offers[recipient := offersAgainstSenders - {sender}];
      }
      if offer.None? {
        return NoOffer;
      }
      var o := offer.value;
      if recipientCopyPath.Some? {
        o := WithRecipientCopyPath(o, recipientCopyPath.value);
      }
      if HasDataAlready(o) {
        return Deliver(o, o.data.value);
      }
      offersBeingProcessed := offersBeingProcessed[o.offerId := ShareOfferBeingProcessed(o, map[])];
      out := RequestData(RequestFor(o));
    }

    /** storeOfferFulfilmentParts: files the packet with its offer; once as
        many packets are held as the count picked from them declares, the
        offer leaves the table and its parts are joined in index order. */
    method StoreOfferFulfilmentParts(packet: FulfilOfferPacket, sender: Option<PlayerId>)
      returns (out: StoreOutcome)
      requires Valid()
      modifies this
      ensures Valid()
      ensures exists count: int32 ::
                && (offersBeingProcessed, out) == StoreStep(old(offersBeingProcessed), packet, sender, count)
                && (packet.offerId in old(offersBeingProcessed)
                    && sender == Some(old(offersBeingProcessed)[packet.offerId].offer.sender)
                    ==> count as int in DeclaredTotals(
                          old(offersBeingProcessed)[packet.offerId].receivedPackets[packet.packetNumber := packet]))
      ensures offers == old(offers) && nextId == old(nextId)
    {
      ghost var before := offersBeingProcessed;
      ghost var chosen: int32 := 0;
      if packet.offerId !in offersBeingProcessed {
        out := Unrequested;
      } else {
        var entry := offersBeingProcessed[packet.offerId];
        if sender.None? || sender.value != entry.offer.sender {
          out := WrongSender;
        } else {
          entry := entry.(receivedPackets := entry.receivedPackets[packet.packetNumber := packet]);
          assert packet.packetNumber in entry.receivedPackets;
          var packetCount := PacketCountRequired(entry.receivedPackets);
          chosen := packetCount as int32;
          if !HasAllPackets(entry.receivedPackets, packetCount) {
            offersBeingProcessed := offersBeingProcessed[packet.offerId := entry];
            out := Waiting;
          } else {
            offersBeingProcessed := offersBeingProcessed - {packet.offerId};
            var itemData := Reassemble(entry.receivedPackets, packetCount);
            out := if itemData.None? then PartMissing else Assembled(entry.offer, itemData.value);
          }
        }
      }
      assert (offersBeingProcessed, out) == StoreStep(before, packet, sender, chosen);
      StoreStepKeepsValid(before, packet, sender, chosen);
    }

    /** getIdsOfPlayersOffering: the senders with an open offer to the player,
        each once; none for a player with no offers map. */
    method GetIdsOfPlayersOffering(forPlayer: PlayerId) returns (ids: seq<PlayerId>)
      ensures forPlayer !in offers ==> ids == []
      ensures forPlayer in offers ==> forall s :: s in ids <==> s in offers[forPlayer]
      ensures forall a, b | 0 <= a < b < |ids| :: ids[a] != ids[b]
    {
      if forPlayer !in offers {
        return [];
      }
      var remaining := offers[forPlayer].Keys;
      ids := [];
      while remaining != {}
        invariant remaining <= offers[forPlayer].Keys
        invariant forall s :: s in offers[forPlayer] <==> s in ids || s in remaining
        invariant forall k | 0 <= k < |ids| :: ids[k] !in remaining
        invariant forall a, b | 0 <= a < b < |ids| :: ids[a] != ids[b]
        decreases remaining
      {
        var s :| s in remaining;
        ids := ids + [s];
        remaining := remaining - {s};
      }
    }

    /** purgeOldOffers as the source writes it. For each recipient the iterator
        takes its first offer before asking whether there is one, so an empty
        offers map stops the purge with an exception; and the loop tests an
        offer only when another follows it, so the last offer of each map is
        never tested. Maps are visited, and their offers iterated, in an order
        the model leaves open. */
    method PurgeOldOffersAsWritten(currentTime: int) returns (completed: bool)
      requires Valid()
      modifies this
      ensures Valid()
      ensures completed <==> forall r | r in old(offers) :: old(offers)[r] != map[]
      ensures offers.Keys == old(offers).Keys
      ensures forall r | r in offers :: PurgedFrom(offers[r], old(offers)[r], currentTime)
      ensures forall r | r in offers ::
                offers[r] == old(offers)[r] || PurgedAllButOne(offers[r], old(offers)[r], currentTime)
      ensures completed ==> forall r | r in offers :: PurgedAllButOne(offers[r], old(offers)[r], currentTime)
      ensures offersBeingProcessed == old(offersBeingProcessed) && nextId == old(nextId)
    {
      var purged;
      purged, completed := PurgeMapsAsWritten(offers, currentTime);
      PurgeKeepsFiled(offers, purged, currentTime);
      offers := purged;
    }

    /** purgeOldOffers as evidently intended: every expired offer goes, and an
        empty offers map is passed over. */
    method PurgeOldOffers(currentTime: int)
      requires Valid()
      modifies this
      ensures Valid()
      ensures offers.Keys == old(offers).Keys
      ensures forall r | r in offers :: offers[r] == Unexpired(old(offers)[r], currentTime)
      ensures offersBeingProcessed == old(offersBeingProcessed) && nextId == old(nextId)
    {
      var purged := PurgeMaps(offers, currentTime);
      PurgeKeepsFiled(offers, purged, currentTime);
      offers := purged;
    }
  }

  /** The outer loop of the source's purge, one recipient's offers map at a
      time; stops, reporting false, at the first empty map. */
  method PurgeMapsAsWritten(offers: map<PlayerId, map<PlayerId, ShareOffer>>, currentTime: int)
    returns (purged: map<PlayerId, map<PlayerId, ShareOffer>>, completed: bool)
    ensures completed <==> forall r | r in offers :: offers[r] != map[]
    ensures purged.Keys == offers.Keys
    ensures forall r | r in purged :: PurgedFrom(purged[r], offers[r], currentTime)
    ensures forall r | r in purged :: purged[r] == offers[r] || PurgedAllButOne(purged[r], offers[r], currentTime)
    ensures completed ==> forall r | r in purged :: PurgedAllButOne(purged[r], offers[r], currentTime)
  {
    purged := offers;
    var pending := purged.Keys;
    while pending != {}
      invariant pending <= purged.Keys && purged.Keys == offers.Keys
      invariant forall r | r in pending :: purged[r] == offers[r]
      invariant forall r | r in purged && r !in pending :: PurgedAllButOne(purged[r], offers[r], currentTime)
      decreases pending
    {
      var recipient :| recipient in pending;
      var offersAgainstSenders := purged[recipient];
      if offersAgainstSenders == map[] {
        return purged, false;
      }
      var kept := PurgeAllButLast(offersAgainstSenders, currentTime);
      purged := purged[recipient := kept];
      pending := pending - {recipient};
    }
    return purged, true;
  }

  /** The corrected purge's outer loop: every offers map purged in turn. */
  method PurgeMaps(offers: map<PlayerId, map<PlayerId, ShareOffer>>, currentTime: int)
    returns (purged: map<PlayerId, map<PlayerId, ShareOffer>>)
    ensures purged.Keys == offers.Keys
    ensures forall r | r in purged :: purged[r] == Unexpired(offers[r], currentTime)
  {
    purged := offers;
    var pending := purged.Keys;
    while pending != {}
      invariant pending <= purged.Keys && purged.Keys == offers.Keys
      invariant forall r | r in pending :: purged[r] == offers[r]
      invariant forall r | r in purged && r !in pending :: purged[r] == Unexpired(offers[r], currentTime)
      decreases pending
    {
      var recipient :| recipient in pending;
      var kept := PurgeExpired(purged[recipient], currentTime);
      purged := purged[recipient := kept];
      pending := pending - {recipient};
    }
  }

  /** The corrected purge's inner loop over one offers map: each offer is
      tested and removed when expired. */
  method PurgeExpired(offersAgainstSenders: map<PlayerId, ShareOffer>, currentTime: int)
    returns (kept: map<PlayerId, ShareOffer>)
    ensures kept == Unexpired(offersAgainstSenders, currentTime)
  {
    var toTest := offersAgainstSenders.Keys;
    kept := offersAgainstSenders;
    while toTest != {}
      invariant toTest <= kept.Keys <= offersAgainstSenders.Keys
      invariant forall s | s in kept :: kept[s] == offersAgainstSenders[s]
      invariant forall s | s in offersAgainstSenders && s !in kept :: HasExpired(offersAgainstSenders[s], currentTime)
      invariant forall s | s in kept && s !in toTest :: !HasExpired(kept[s], currentTime)
      decreases toTest
    {
      var s :| s in toTest;
      if HasExpired(kept[s], currentTime) {
        kept := kept - {s};
      }
      toTest := toTest - {s};
    }
  }

  /** The inner loop of the source's purge over one non-empty offers map: the
      offer the iterator yields last is kept untested; each other is removed
      when expired. */
  method PurgeAllButLast(offersAgainstSenders: map<PlayerId, ShareOffer>, currentTime: int)
    returns (kept: map<PlayerId, ShareOffer>)
    requires offersAgainstSenders != map[]
    ensures PurgedAllButOne(kept, offersAgainstSenders, currentTime)
  {
    var last :| last in offersAgainstSenders;
    var toTest := offersAgainstSenders.Keys - {last};
    kept := offersAgainstSenders;
    while toTest != {}
      invariant toTest <= kept.Keys <= offersAgainstSenders.Keys
      invariant last in kept && last !in toTest
      invariant forall s | s in kept :: kept[s] == offersAgainstSenders[s]
      invariant forall s | s in offersAgainstSenders && s !in kept :: HasExpired(offersAgainstSenders[s], currentTime)
      invariant forall s | s in kept && s !in toTest && s != last :: !HasExpired(kept[s], currentTime)
      decreases toTest
    {
      var s :| s in toTest;
      if HasExpired(kept[s], currentTime) {
        kept := kept - {s};
      }
      toTest := toTest - {s};
    }
    if |offersAgainstSenders| == 1 {
      OnlyKey(offersAgainstSenders, last);
    }
  }

  lemma OnlyKey(m: map<PlayerId, ShareOffer>, k: PlayerId)
    requires |m| == 1 && k in m
    ensures m.Keys == {k}
  {
    var others := m.Keys - {k};
    assert m.Keys == others + {k};
    assert |others| == 0;
  }

  /** The reassembly loop: appends the data parts 0..packetCount-1 in index
      order; None when one of them was never received. */
  method Reassemble(receivedPackets: map<int32, FulfilOfferPacket>, packetCount: int)
    returns (itemData: Option<string>)
    requires packetCount <= MaxInt32
    ensures itemData == Reassembled(receivedPackets, if packetCount < 0 then 0 else packetCount)
  {
    var sb: string := [];
    var i := 0;
    while i < packetCount
      invariant 0 <= i <= (if packetCount < 0 then 0 else packetCount)
      invariant Reassembled(receivedPackets, i) == Some(sb)
    {
      var key := i as int32;
      if key !in receivedPackets {
        NoPartNoData(receivedPackets, i + 1, if packetCount < 0 then 0 else packetCount);
        return None;
      }
      sb := sb + receivedPackets[key].dataPart;
      i := i + 1;
    }
    itemData := Some(sb);
  }

  /** Once a part is missing, reassembling more parts still fails. */
  lemma {:induction false} NoPartNoData(received: map<int32, FulfilOfferPacket>, i: nat, n: nat)
    requires i <= n <= MaxInt32 + 1
    requires Reassembled(received, i) == None
    ensures Reassembled(received, n) == None
    decreases n - i
  {
    if i < n {
      NoPartNoData(received, i + 1, n);
    }
  }

  /** Accepting the same offer twice: the second finds nothing. */
  method AcceptIsSingleUse(sharer: Sharer, sender: PlayerId, recipient: PlayerId,
                           first: Option<CopyPath>, second: Option<CopyPath>)
    returns (firstOutcome: AcceptOutcome, secondOutcome: AcceptOutcome)
    requires sharer.Valid()
    modifies sharer
    ensures sharer.Valid()
    ensures secondOutcome == NoOffer
  {
    firstOutcome := sharer.AcceptOffer(sender, recipient, first);
    secondOutcome := sharer.AcceptOffer(sender, recipient, second);
  }

  /** With the source's purge, a player's only offer survives however long
      ago it expired. */
  method LoneExpiredOfferSurvives() returns (survived: bool)
    ensures survived
  {
    var sharer := new Sharer(CopyPath([]));
    var offer := sharer.AddPathOffer(1, 2, ItemId("minecraft", "stone"), CopyPath(["tools"]), 0);
    assert sharer.offers == map[2 := map[1 := offer]];
    assert |sharer.offers[2]| == 1 && sharer.offers[2] != map[];
    var completed := sharer.PurgeOldOffersAsWritten(OfferLifespanInMilliseconds + 1);
    survived := completed && HasExpired(offer, OfferLifespanInMilliseconds + 1)
                && 2 in sharer.offers && 1 in sharer.offers[2];
  }

  /** With the source's purge, accepting a player's only offer leaves an empty
      offers map behind, and the next purge throws. */
  method PurgeAfterAcceptThrows() returns (threw: bool)
    ensures threw
  {
    var sharer := new Sharer(CopyPath([]));
    var offer := sharer.AddPathOffer(1, 2, ItemId("minecraft", "stone"), CopyPath(["tools"]), 0);
    var outcome := sharer.AcceptOffer(1, 2, None);
    assert sharer.offers == map[2 := map[]];
    var completed := sharer.PurgeOldOffersAsWritten(0);
    threw := !completed;
  }

  /** The corrected purge removes that lone expired offer. */
  method LoneExpiredOfferPurged() returns (removed: bool)
    ensures removed
  {
    var sharer := new Sharer(CopyPath([]));
    var offer := sharer.AddPathOffer(1, 2, ItemId("minecraft", "stone"), CopyPath(["tools"]), 0);
    sharer.PurgeOldOffers(OfferLifespanInMilliseconds + 1);
    removed := 2 in sharer.offers && 1 !in sharer.offers[2];
  }
}
