/** The values the sharing feature works with: offers of a saved copy from
    one player to another, the packets that carry a copy's data from the
    sender's client to the server, and the cutting of that data into packets
    and its reassembly. */
module ShareOffers {
  import opened Wrappers
  import opened Wire
  import opened Identifiers
  import opened CopyPaths

  /** How long an offer stays open, in milliseconds (ten minutes). */
  const OfferLifespanInMilliseconds: int := 600000

  /** The largest packet a client may send to the server, in bytes. */
  const ClientToServerMaxPacketSize: int := 32767

  /** Room kept free in each packet for the other fields. */
  const OtherOrUnusedSpacePerPacket: int := 1024

  /** The most bytes one character can take. */
  const BytesPerChar: int := 4

  /** The most characters of item data one packet carries. */
  const MaxDataStringLengthPerPacket: int :=
    (ClientToServerMaxPacketSize - OtherOrUnusedSpacePerPacket) / BytesPerChar

  /** An item's NBT data, kept as an opaque payload. */
  datatype Nbt = Nbt(text: string)

  /** An offer: either of a saved copy named by the sender's copy path (data
      not yet fetched), or of data already in hand. */
  datatype ShareOffer = ShareOffer(
    offerId: int32,
    sender: PlayerId,
    recipient: PlayerId,
    itemId: ItemId,
    data: Option<Nbt>,
    copyPath: Option<CopyPath>,
    recipientCopyPath: CopyPath,
    timeStamp: int)

  /** The offer of a saved copy: the recipient's copy path starts as the
      sender's, and there is no data yet. */
  function PathOffer(offerId: int32, sender: PlayerId, recipient: PlayerId, itemId: ItemId,
                     copyPath: CopyPath, timeStamp: int): (o: ShareOffer)
    ensures WellFormed(o) && !HasDataAlready(o)
    ensures o.copyPath == Some(copyPath) && o.recipientCopyPath == copyPath
    ensures o.offerId == offerId && o.sender == sender && o.recipient == recipient
    ensures o.itemId == itemId && o.timeStamp == timeStamp
  {
    ShareOffer(offerId, sender, recipient, itemId, None, Some(copyPath), copyPath, timeStamp)
  }

  /** The offer of data in hand: no copy path of the sender's, and the
      recipient's copy path is the given default. */
  function DataOffer(offerId: int32, sender: PlayerId, recipient: PlayerId, itemId: ItemId,
                     data: Nbt, recipientCopyPath: CopyPath, timeStamp: int): (o: ShareOffer)
    ensures WellFormed(o) && HasDataAlready(o)
    ensures o.data == Some(data) && o.copyPath == None
    ensures o.recipientCopyPath == recipientCopyPath
    ensures o.offerId == offerId && o.sender == sender && o.recipient == recipient
    ensures o.itemId == itemId && o.timeStamp == timeStamp
  {
    ShareOffer(offerId, sender, recipient, itemId, Some(data), None, recipientCopyPath, timeStamp)
  }

  /** An offer carries exactly one of its data and the sender's copy path;
      both ways of building one give this shape. */
  predicate WellFormed(o: ShareOffer) {
    o.data.None? <==> o.copyPath.Some?
  }

  /** hasExpired: strictly more than the lifespan has passed since the offer's
      time stamp. */
  predicate HasExpired(o: ShareOffer, currentTimeInMillis: int) {
    currentTimeInMillis > o.timeStamp + OfferLifespanInMilliseconds
  }

  predicate HasDataAlready(o: ShareOffer) {
    o.data.Some?
  }

  /** An offer is still open at exactly the end of its lifespan, and expired
      one millisecond later. */
  lemma ExpiryBoundary(o: ShareOffer)
    ensures !HasExpired(o, o.timeStamp + OfferLifespanInMilliseconds)
    ensures HasExpired(o, o.timeStamp + OfferLifespanInMilliseconds + 1)
    ensures forall now :: HasExpired(o, now) <==> now - o.timeStamp > 600000
  {
  }

  /** Once expired, an offer stays expired. */
  lemma ExpiryIsPermanent(o: ShareOffer, earlier: int, later: int)
    requires earlier <= later && HasExpired(o, earlier)
    ensures HasExpired(o, later)
  {
  }

  /** withNewTimeStamp: the same offer, id included, with another time stamp. */
  function WithNewTimeStamp(o: ShareOffer, timeStamp: int): (r: ShareOffer)
    ensures r.timeStamp == timeStamp
    ensures r.(timeStamp := o.timeStamp) == o
  {
    ShareOffer(o.offerId, o.sender, o.recipient, o.itemId, o.data, o.copyPath, o.recipientCopyPath, timeStamp)
  }

  /** withRecipientCopyPath: the same offer, id included, with another copy
      path for the recipient. */
  function WithRecipientCopyPath(o: ShareOffer, newRecipientCopyPath: CopyPath): (r: ShareOffer)
    ensures r.recipientCopyPath == newRecipientCopyPath
    ensures r.(recipientCopyPath := o.recipientCopyPath) == o
  {
    ShareOffer(o.offerId, o.sender, o.recipient, o.itemId, o.data, o.copyPath, newRecipientCopyPath, o.timeStamp)
  }

  /** The two copies commute, keep whether the data is in hand, and a fresh
      time stamp reopens an offer. */
  lemma WithersIndependent(o: ShareOffer, timeStamp: int, p: CopyPath)
    ensures WithNewTimeStamp(WithRecipientCopyPath(o, p), timeStamp)
         == WithRecipientCopyPath(WithNewTimeStamp(o, timeStamp), p)
    ensures HasDataAlready(WithRecipientCopyPath(o, p)) == HasDataAlready(o)
    ensures HasDataAlready(WithNewTimeStamp(o, timeStamp)) == HasDataAlready(o)
    ensures WellFormed(WithRecipientCopyPath(o, p)) == WellFormed(o)
    ensures HasExpired(WithRecipientCopyPath(o, p), timeStamp) == HasExpired(o, timeStamp)
    ensures !HasExpired(WithNewTimeStamp(o, timeStamp), timeStamp)
  {
  }

  // ---------------------------------------------------------------------
  // Offer ids
  // ---------------------------------------------------------------------

  /** Java's int addition: wraps around modulo 2^32. */
  function WrapInt32(x: int): int32 {
    ((x + 0x8000_0000) % 0x1_0000_0000 - 0x8000_0000) as int32
  }

  /** The id counter after one getNewId. */
  function NextId(id: int32): (r: int32)
    ensures id < MaxInt32 as int32 ==> r as int == id as int + 1
  {
    WrapInt32(id as int + 1)
  }

  /** The id handed out n calls after the counter stood at start. */
  function IdAfter(start: int32, n: nat): int32 {
    WrapInt32(start as int + n)
  }

  lemma IdAfterStep(start: int32, n: nat)
    ensures IdAfter(start, n + 1) == NextId(IdAfter(start, n))
  {
    var x := start as int + n;
    assert IdAfter(start, n) as int + 0x8000_0000 == (x + 0x8000_0000) % 0x1_0000_0000;
  }

  /** Any 2^32 consecutive ids are distinct; the int counter repeats only
      after that many offers. */
  lemma IdsDistinct(start: int32, i: nat, j: nat)
    requires i < j < 0x1_0000_0000
    ensures IdAfter(start, i) != IdAfter(start, j)
  {
  }

  // ---------------------------------------------------------------------
  // The packets that carry item data to the server
  // ---------------------------------------------------------------------

  datatype FulfilOfferPacket = FulfilOfferPacket(
    offerId: int32,
    packetNumber: int32,
    totalExpectedPackets: int32,
    dataPart: string)

  /** The request the server sends to the sender's client for an offer's data. */
  datatype FulfilOfferRequestPacket = FulfilOfferRequestPacket(
    offerId: int32,
    itemId: ItemId,
    copyPath: Option<CopyPath>)

  function RequestFor(o: ShareOffer): (r: FulfilOfferRequestPacket)
    ensures r.offerId == o.offerId && r.itemId == o.itemId && r.copyPath == o.copyPath
  {
    FulfilOfferRequestPacket(o.offerId, o.itemId, o.copyPath)
  }

  /** encode: the three ints, then the data part. */
  function EncodePacket(p: FulfilOfferPacket): seq<Value> {
    [IntVal(p.offerId), IntVal(p.packetNumber), IntVal(p.totalExpectedPackets), UtfVal(p.dataPart)]
  }

  /** decode: reads the same four fields back; gives the packet and the rest. */
  function DecodePacket(vals: seq<Value>): Option<(FulfilOfferPacket, seq<Value>)> {
    if |vals| < 4 || !vals[0].IntVal? || !vals[1].IntVal? || !vals[2].IntVal? || !vals[3].UtfVal? then None
    else Some((FulfilOfferPacket(vals[0].i, vals[1].i, vals[2].i, vals[3].s), vals[4..]))
  }

  lemma DecodeEncodePacket(p: FulfilOfferPacket, rest: seq<Value>)
    ensures DecodePacket(EncodePacket(p) + rest) == Some((p, rest))
  {
    assert (EncodePacket(p) + rest)[4..] == rest;
  }

  lemma EncodeDecodePacket(vals: seq<Value>, p: FulfilOfferPacket, rest: seq<Value>)
    requires DecodePacket(vals) == Some((p, rest))
    ensures vals == EncodePacket(p) + rest
  {
    assert vals == vals[..4] + vals[4..];
  }

  // ---------------------------------------------------------------------
  // Cutting the data into packets
  // ---------------------------------------------------------------------

  function Concat(parts: seq<string>): string {
    if parts == [] then [] else parts[0] + Concat(parts[1..])
  }

  /** The data parts createOfferFulfilmentPackets cuts: consecutive pieces of
      the largest allowed length, the last one possibly shorter. */
  function Chunks(data: string): (r: seq<string>)
    ensures forall i | 0 <= i < |r| :: 0 < |r[i]| <= MaxDataStringLengthPerPacket
    ensures forall i | 0 <= i < |r| - 1 :: |r[i]| == MaxDataStringLengthPerPacket
    decreases |data|
  {
    if data == [] then []
    else if |data| <= MaxDataStringLengthPerPacket then [data]
    else [data[..MaxDataStringLengthPerPacket]] + Chunks(data[MaxDataStringLengthPerPacket..])
  }

  /** The parts concatenate back to the data. */
  lemma {:induction false} ChunksConcat(data: string)
    ensures Concat(Chunks(data)) == data
    decreases |data|
  {
    if |data| > MaxDataStringLengthPerPacket {
      var m := MaxDataStringLengthPerPacket;
      ChunksConcat(data[m..]);
      assert Chunks(data)[1..] == Chunks(data[m..]);
      assert data == data[..m] + data[m..];
    }
  }

  /** There are ceil(|data| / 7935) parts; none for empty data. */
  lemma {:induction false} ChunksCount(data: string)
    ensures MaxDataStringLengthPerPacket == 7935
    ensures |Chunks(data)| == (|data| + MaxDataStringLengthPerPacket - 1) / MaxDataStringLengthPerPacket
    decreases |data|
  {
    if |data| > MaxDataStringLengthPerPacket {
      ChunksCount(data[MaxDataStringLengthPerPacket..]);
    }
  }

  /** The packets for an offer's data: packet i carries part i, its own index,
      and the number of packets. */
  function PacketsFor(offerId: int32, parts: seq<string>): (r: seq<FulfilOfferPacket>)
    requires |parts| <= MaxInt32
    ensures |r| == |parts|
    ensures forall i | 0 <= i < |r| ::
              r[i] == FulfilOfferPacket(offerId, i as int32, |parts| as int32, parts[i])
  {
    seq(|parts|, i requires 0 <= i < |parts| => FulfilOfferPacket(offerId, i as int32, |parts| as int32, parts[i]))
  }

  lemma ChunkCountFits(data: string)
    requires |data| <= MaxInt32
    ensures |Chunks(data)| <= |data| <= MaxInt32
  {
    ChunksCount(data);
  }

  /** The longest data createOfferFulfilmentPackets can cut. It is the first
      start index, a multiple of the part length, at which adding the part
      length overflows a Java int; for longer data the end index wraps round
      to a negative number and substring throws. */
  const LongestDataCut: int := 2147480790

  /** LongestDataCut is the first part start whose end overflows. */
  lemma LongestDataCutIsFirstOverflow()
    ensures MaxDataStringLengthPerPacket == 7935
    ensures LongestDataCut == 270634 * MaxDataStringLengthPerPacket
    ensures LongestDataCut <= MaxInt32 < LongestDataCut + MaxDataStringLengthPerPacket
    ensures LongestDataCut - MaxDataStringLengthPerPacket + MaxDataStringLengthPerPacket <= MaxInt32
  {
  }

  /** Java int addition of two non-negative ints that do not overflow. */
  lemma WrapNoOverflow(x: int)
    requires 0 <= x <= MaxInt32
    ensures WrapInt32(x) as int == x
  {
  }

  /** Java int addition of two non-negative ints that overflow gives a
      negative int. */
  lemma WrapOverflow(x: int)
    requires MaxInt32 < x < 0x1_0000_0000
    ensures WrapInt32(x) < 0
  {
  }

  /** createOfferFulfilmentPackets: cuts the data into parts in one loop, then
      wraps each part in a packet in another; None where the source throws
      because an index overflows. */
  method CreateOfferFulfilmentPackets(offerId: int32, itemData: string)
    returns (packets: Option<seq<FulfilOfferPacket>>)
    requires |itemData| <= MaxInt32
    ensures packets.None? <==> |itemData| > LongestDataCut
    ensures packets.Some? ==>
              |Chunks(itemData)| <= MaxInt32 && packets.value == PacketsFor(offerId, Chunks(itemData))
  {
    ChunkCountFits(itemData);
    var dataParts := CutData(itemData);
    if dataParts.None? {
      return None;
    }
    var wrapped := WrapParts(offerId, dataParts.value);
    packets := Some(wrapped);
  }

  /** createOfferFulfilmentPackets' first loop: cuts the data into parts of
      the largest allowed length, stepping the start index by that length,
      with the index arithmetic of Java ints. None where substring throws:
      the end index wrapped round below the start index. */
  method CutData(itemData: string) returns (dataParts: Option<seq<string>>)
    ensures dataParts.None? <==> |itemData| > LongestDataCut
    ensures dataParts.Some? ==> dataParts.value == Chunks(itemData)
  {
    LongestDataCutIsFirstOverflow();
    var maxDataStringLengthPerPacket := (ClientToServerMaxPacketSize - OtherOrUnusedSpacePerPacket) / BytesPerChar;
    var parts := [];
    var startIndex := 0;
    ghost var k := 0;
    while startIndex < |itemData|
      invariant 0 <= k <= 270634 && startIndex == k * MaxDataStringLengthPerPacket
      invariant startIndex <= |itemData| ==> parts + Chunks(itemData[startIndex..]) == Chunks(itemData)
      invariant startIndex > |itemData| ==> parts == Chunks(itemData)
      decreases |itemData| - startIndex
    {
      if startIndex < LongestDataCut {
        WrapNoOverflow(startIndex + maxDataStringLengthPerPacket);
      } else {
        WrapOverflow(startIndex + maxDataStringLengthPerPacket);
      }
      var endIndex := WrapInt32(startIndex + maxDataStringLengthPerPacket) as int;
      if endIndex > |itemData| {
        endIndex := |itemData|;
      }
      if endIndex < startIndex {
        return None;
      }
      ChunkStep(itemData, startIndex, endIndex);
      if startIndex + maxDataStringLengthPerPacket <= |itemData| {
        AppendPart(parts, itemData[startIndex..endIndex], Chunks(itemData[startIndex + maxDataStringLengthPerPacket..]));
      } else {
        AppendPart(parts, itemData[startIndex..endIndex], []);
      }
      parts := parts + [itemData[startIndex..endIndex]];
      startIndex := WrapInt32(startIndex + maxDataStringLengthPerPacket) as int;
      k := k + 1;
    }
    if startIndex == |itemData| {
      assert itemData[startIndex..] == [];
    }
    dataParts := Some(parts);
  }

  /** One turn of the cutting loop: the part from s to e is the first part
      of what is left, and the rest start one full length further on. */
  lemma ChunkStep(data: string, s: nat, e: nat)
    requires s < |data| && e == if s + MaxDataStringLengthPerPacket > |data| then |data| else s + MaxDataStringLengthPerPacket
    ensures s + MaxDataStringLengthPerPacket <= |data| ==>
              Chunks(data[s..]) == [data[s..e]] + Chunks(data[s + MaxDataStringLengthPerPacket..])
    ensures s + MaxDataStringLengthPerPacket > |data| ==> Chunks(data[s..]) == [data[s..e]]
  {
    var m := MaxDataStringLengthPerPacket;
    if s + m <= |data| {
      ChunkFull(data[s..], data[s..e], data[s + m..]);
    } else {
      assert data[s..e] == data[s..];
      ChunkLast(data[s..]);
    }
  }

  /** Appending a part, then the parts after it. */
  lemma AppendPart(parts: seq<string>, part: string, later: seq<string>)
    ensures (parts + [part]) + later == parts + ([part] + later)
  {
  }

  /** A remainder longer than a part starts with a full part. */
  lemma ChunkFull(rest: string, head: string, tail: string)
    requires |rest| >= MaxDataStringLengthPerPacket
    requires head == rest[..MaxDataStringLengthPerPacket] && tail == rest[MaxDataStringLengthPerPacket..]
    ensures Chunks(rest) == [head] + Chunks(tail)
  {
    if |rest| == MaxDataStringLengthPerPacket {
      assert head == rest && tail == [];
    }
  }

  /** A remainder no longer than a part is the last part. */
  lemma ChunkLast(rest: string)
    requires 0 < |rest| <= MaxDataStringLengthPerPacket
    ensures Chunks(rest) == [rest]
  {
  }

  /** createOfferFulfilmentPackets' second loop: wraps each part in a packet
      numbered by its index and carrying the number of parts. */
  method WrapParts(offerId: int32, dataParts: seq<string>) returns (packets: seq<FulfilOfferPacket>)
    requires |dataParts| <= MaxInt32
    ensures packets == PacketsFor(offerId, dataParts)
  {
    var packetCount := |dataParts|;
    packets := [];
    for i := 0 to packetCount
      invariant |packets| == i
      invariant forall k | 0 <= k < i ::
                  packets[k] == FulfilOfferPacket(offerId, k as int32, packetCount as int32, dataParts[k])
    {
      packets := packets + [FulfilOfferPacket(offerId, i as int32, packetCount as int32, dataParts[i])];
    }
  }

  // ---------------------------------------------------------------------
  // Reassembly on the server
  // ---------------------------------------------------------------------

  /** The received packets after more arrive, each stored under its number;
      a later packet with the same number replaces an earlier one. */
  function Receive(received: map<int32, FulfilOfferPacket>, arrivals: seq<FulfilOfferPacket>): map<int32, FulfilOfferPacket>
    decreases |arrivals|
  {
    if arrivals == [] then received
    else Receive(received[arrivals[0].packetNumber := arrivals[0]], arrivals[1..])
  }

  /** No two arrivals carry the same packet number. */
  predicate DistinctNumbers(arrivals: seq<FulfilOfferPacket>) {
    forall a, b | 0 <= a < b < |arrivals| :: arrivals[a].packetNumber != arrivals[b].packetNumber
  }

  /** After arrivals with distinct numbers, each is found under its number and
      every other entry is as it was. */
  lemma {:induction false} ReceiveContents(received: map<int32, FulfilOfferPacket>, arrivals: seq<FulfilOfferPacket>)
    requires DistinctNumbers(arrivals)
    ensures forall j | 0 <= j < |arrivals| ::
              arrivals[j].packetNumber in Receive(received, arrivals)
              && Receive(received, arrivals)[arrivals[j].packetNumber] == arrivals[j]
    ensures forall k | k in Receive(received, arrivals) ::
              k in received || exists j | 0 <= j < |arrivals| :: arrivals[j].packetNumber == k
    ensures forall k | k in received && (forall j | 0 <= j < |arrivals| :: arrivals[j].packetNumber != k) ::
              k in Receive(received, arrivals) && Receive(received, arrivals)[k] == received[k]
    decreases |arrivals|
  {
    if arrivals != [] {
      var next := received[arrivals[0].packetNumber := arrivals[0]];
      ReceiveContents(next, arrivals[1..]);
      forall j | 1 <= j < |arrivals| ensures arrivals[j] == arrivals[1..][j - 1] { }
      var r := Receive(received, arrivals);
      assert r == Receive(next, arrivals[1..]);
      forall k | k in r ensures k in received || exists j | 0 <= j < |arrivals| :: arrivals[j].packetNumber == k {
        if k !in received && k != arrivals[0].packetNumber {
          var j' :| 0 <= j' < |arrivals[1..]| && arrivals[1..][j'].packetNumber == k;
          assert arrivals[j' + 1].packetNumber == k;
        }
      }
      forall k | k in received && (forall j | 0 <= j < |arrivals| :: arrivals[j].packetNumber != k)
        ensures k in r && r[k] == received[k]
      {
        assert arrivals[0].packetNumber != k;
        forall j | 0 <= j < |arrivals[1..]| ensures arrivals[1..][j].packetNumber != k {
          assert arrivals[1..][j] == arrivals[j + 1];
        }
      }
    }
  }

  /** Receiving arrivals with distinct new numbers adds one entry each. */
  lemma {:induction false} ReceiveCount(received: map<int32, FulfilOfferPacket>, arrivals: seq<FulfilOfferPacket>)
    requires DistinctNumbers(arrivals)
    requires forall j | 0 <= j < |arrivals| :: arrivals[j].packetNumber !in received
    ensures |Receive(received, arrivals)| == |received| + |arrivals|
    decreases |arrivals|
  {
    if arrivals != [] {
      var next := received[arrivals[0].packetNumber := arrivals[0]];
      forall j | 0 <= j < |arrivals[1..]| ensures arrivals[1..][j].packetNumber !in next {
        assert arrivals[1..][j] == arrivals[j + 1];
      }
      ReceiveCount(next, arrivals[1..]);
    }
  }

  /** The data reassembled from parts 0..n-1 in index order, or None when a
      part is missing (the Java code then dereferences null). */
  function Reassembled(received: map<int32, FulfilOfferPacket>, n: nat): Option<string>
    requires n <= MaxInt32 + 1
  {
    if n == 0 then Some([])
    else match Reassembled(received, n - 1)
      case None => None
      case Some(prefix) =>
        if (n - 1) as int32 in received then Some(prefix + received[(n - 1) as int32].dataPart) else None
  }

  /** Concatenating parts 0..n-1 of a table holding packet i under number i. */
  lemma {:induction false} ReassembledIndexed(received: map<int32, FulfilOfferPacket>, packets: seq<FulfilOfferPacket>,
                                              parts: seq<string>, n: nat)
    requires |packets| == |parts| <= MaxInt32 && n <= |parts|
    requires forall i | 0 <= i < |packets| ::
               packets[i].packetNumber as int == i && packets[i].dataPart == parts[i]
               && packets[i].packetNumber in received && received[packets[i].packetNumber] == packets[i]
    ensures Reassembled(received, n) == Some(Concat(parts[..n]))
  {
    if n > 0 {
      ReassembledIndexed(received, packets, parts, n - 1);
      assert packets[n - 1].packetNumber == (n - 1) as int32;
      ConcatSnoc(parts[..n - 1], parts[n - 1]);
      assert parts[..n] == parts[..n - 1] + [parts[n - 1]];
    }
  }

  lemma {:induction false} ConcatSnoc(parts: seq<string>, last: string)
    ensures Concat(parts + [last]) == Concat(parts) + last
    decreases |parts|
  {
    if parts == [] {
      assert [] + [last] == [last];
    } else {
      assert (parts + [last])[1..] == parts[1..] + [last];
      ConcatSnoc(parts[1..], last);
    }
  }

  /** Whatever order the packets for some data arrive in, once all have
      arrived the table holds one entry per packet, every packet declares that
      count, and reassembly in index order gives the data back. Before the
      last one arrives, fewer entries than the declared count are held. */
  lemma ReassemblyInAnyOrder(offerId: int32, data: string, arrivals: seq<FulfilOfferPacket>)
    requires |data| <= MaxInt32
    requires |Chunks(data)| <= MaxInt32
    requires DistinctNumbers(arrivals)
    requires forall p :: p in arrivals <==> p in PacketsFor(offerId, Chunks(data))
    ensures |arrivals| == |Chunks(data)|
    ensures forall p | p in arrivals :: p.totalExpectedPackets as int == |arrivals|
    ensures |Receive(map[], arrivals)| == |arrivals|
    ensures Reassembled(Receive(map[], arrivals), |arrivals|) == Some(data)
    ensures forall j | 0 <= j < |arrivals| :: |Receive(map[], arrivals[..j])| < |arrivals|
  {
    var parts := Chunks(data);
    var packets := PacketsFor(offerId, parts);
    ArrivalsCover(packets, arrivals);
    ReceiveCount(map[], arrivals);
    ReceivedAll(packets, arrivals);
    ReassembledIndexed(Receive(map[], arrivals), packets, parts, |parts|);
    assert parts[..|parts|] == parts;
    ChunksConcat(data);
    PrefixesIncomplete(arrivals);
  }

  /** After every packet has arrived, packet i is stored under number i. */
  lemma ReceivedAll(packets: seq<FulfilOfferPacket>, arrivals: seq<FulfilOfferPacket>)
    requires DistinctNumbers(arrivals)
    requires forall p :: p in arrivals <==> p in packets
    ensures forall i | 0 <= i < |packets| ::
              packets[i].packetNumber in Receive(map[], arrivals)
              && Receive(map[], arrivals)[packets[i].packetNumber] == packets[i]
  {
    ReceiveContents(map[], arrivals);
    forall i | 0 <= i < |packets|
      ensures packets[i].packetNumber in Receive(map[], arrivals)
              && Receive(map[], arrivals)[packets[i].packetNumber] == packets[i]
    {
      assert packets[i] in arrivals;
      var j :| 0 <= j < |arrivals| && arrivals[j] == packets[i];
    }
  }

  /** Before the last of n distinct arrivals, fewer than n entries are held. */
  lemma PrefixesIncomplete(arrivals: seq<FulfilOfferPacket>)
    requires DistinctNumbers(arrivals)
    ensures forall j | 0 <= j < |arrivals| :: |Receive(map[], arrivals[..j])| < |arrivals|
  {
    forall j | 0 <= j < |arrivals| ensures |Receive(map[], arrivals[..j])| < |arrivals| {
      assert DistinctNumbers(arrivals[..j]);
      ReceiveCount(map[], arrivals[..j]);
    }
  }

  /** Arrivals with distinct numbers that are exactly the packets are as many
      as the packets. */
  lemma ArrivalsCover(packets: seq<FulfilOfferPacket>, arrivals: seq<FulfilOfferPacket>)
    requires forall i | 0 <= i < |packets| :: packets[i].packetNumber as int == i
    requires DistinctNumbers(arrivals)
    requires forall p :: p in arrivals <==> p in packets
    ensures |arrivals| == |packets|
  {
    var numbers := set j | 0 <= j < |arrivals| :: arrivals[j].packetNumber as int;
    var range := set i | 0 <= i < |packets| :: packets[i].packetNumber as int;
    assert numbers == range by {
      forall x | x in numbers ensures x in range {
        var j :| 0 <= j < |arrivals| && arrivals[j].packetNumber as int == x;
        assert arrivals[j] in packets;
      }
      forall x | x in range ensures x in numbers {
        var i :| 0 <= i < |packets| && packets[i].packetNumber as int == x;
        assert packets[i] in arrivals;
      }
    }
    DistinctImage(arrivals);
    DistinctImage(packets);
  }

  lemma {:induction false} DistinctImage(arrivals: seq<FulfilOfferPacket>)
    requires DistinctNumbers(arrivals)
    ensures |set j | 0 <= j < |arrivals| :: arrivals[j].packetNumber as int| == |arrivals|
    decreases |arrivals|
  {
    if arrivals != [] {
      var init := arrivals[..|arrivals| - 1];
      DistinctImage(init);
      var s := set j | 0 <= j < |init| :: init[j].packetNumber as int;
      var t := set j | 0 <= j < |arrivals| :: arrivals[j].packetNumber as int;
      var last := arrivals[|arrivals| - 1].packetNumber as int;
      assert t == s + {last} by {
        forall x | x in t ensures x in s + {last} {
          var j :| 0 <= j < |arrivals| && arrivals[j].packetNumber as int == x;
          if j < |init| { assert init[j] == arrivals[j]; }
        }
        forall x | x in s ensures x in t {
          var j :| 0 <= j < |init| && init[j].packetNumber as int == x;
          assert arrivals[j] == init[j];
        }
      }
      assert last !in s;
    }
  }

}
