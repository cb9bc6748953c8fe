/** The packet a client sends to tell the server every name under which it
    has saved copies of one item: the item's registry name, the number of
    paths, then each path in its own wire form. */
module NamesPackets {
  import opened Wrappers
  import opened Wire
  import opened Identifiers
  import CopyPaths

  type CopyPath = CopyPaths.CopyPath

  const MessageId: int32 := 662

  datatype NamesPacket = NamesPacket(itemId: ItemId, paths: seq<CopyPath>)

  /** A packet whose every part fits its wire form: a registry name the
      ResourceLocation constructor admits, a count that fits an int, and
      paths that each fit theirs. */
  predicate Encodable(pkt: NamesPacket) {
    && Identifiers.Valid(pkt.itemId)
    && |pkt.paths| <= MaxInt32
    && forall k | 0 <= k < |pkt.paths| :: CopyPaths.Encodable(pkt.paths[k])
  }

  /** The wire form of some paths, one after the other. */
  function EncodePaths(paths: seq<CopyPath>): seq<Value>
    requires forall k | 0 <= k < |paths| :: CopyPaths.Encodable(paths[k])
  {
    if paths == [] then []
    else EncodePaths(paths[..|paths| - 1]) + CopyPaths.Encode(paths[|paths| - 1])
  }

  /** What encode appends: the registry name as text, the path count, then
      the paths. */
  function Encode(pkt: NamesPacket): seq<Value>
    requires Encodable(pkt)
  {
    [UtfVal(ToText(pkt.itemId)), IntVal(|pkt.paths| as int32)] + EncodePaths(pkt.paths)
  }

  /** Reads n paths, one readFromBuf at a time; gives the paths read and what
      is left, or None when a read fails. */
  function TakePaths(vals: seq<Value>, n: nat): Option<(seq<CopyPath>, seq<Value>)>
  {
    if n == 0 then Some(([], vals))
    else match TakePaths(vals, n - 1)
      case None => None
      case Some((paths, rest)) =>
        match CopyPaths.Decode(rest)
        case None => None
        case Some((path, rest')) => Some((paths + [path], rest'))
  }

  /** What decode takes: a registry name (an inadmissible one makes the
      ResourceLocation constructor throw), then the rest of the packet. Gives
      the packet and what follows it. */
  function Decode(vals: seq<Value>): Option<(NamesPacket, seq<Value>)>
  {
    if vals == [] || !vals[0].UtfVal? then None
    else match Parse(vals[0].s)
      case None => None
      case Some(itemId) => DecodePaths(itemId, vals[1..])
  }

  /** What decode takes after the registry name: a count (a negative one
      makes the list's constructor throw), then that many paths. */
  function DecodePaths(itemId: ItemId, vals: seq<Value>): Option<(NamesPacket, seq<Value>)>
  {
    if vals == [] || !vals[0].IntVal? || vals[0].i < 0 then None
    else match TakePaths(vals[1..], vals[0].i as nat)
      case None => None
      case Some((paths, rest)) => Some((NamesPacket(itemId, paths), rest))
  }

  /** Reading back as many paths as were written gives exactly those paths
      and leaves whatever followed them. */
  lemma {:induction false} TakePathsOfEncoded(paths: seq<CopyPath>, rest: seq<Value>)
    requires forall k | 0 <= k < |paths| :: CopyPaths.Encodable(paths[k])
    ensures TakePaths(EncodePaths(paths) + rest, |paths|) == Some((paths, rest))
    decreases |paths|
  {
    if paths == [] {
      assert EncodePaths(paths) + rest == rest;
    } else {
      TakePathsOfEncoded(paths[..|paths| - 1], CopyPaths.Encode(paths[|paths| - 1]) + rest);
      TakeLastPath(paths, rest);
    }
  }

  /** The step of the above: once all paths but the last are read back, the
      last one is too. */
  lemma TakeLastPath(paths: seq<CopyPath>, rest: seq<Value>)
    requires paths != [] && forall k | 0 <= k < |paths| :: CopyPaths.Encodable(paths[k])
    requires var init, tail := paths[..|paths| - 1], CopyPaths.Encode(paths[|paths| - 1]) + rest;
             TakePaths(EncodePaths(init) + tail, |paths| - 1) == Some((init, tail))
    ensures TakePaths(EncodePaths(paths) + rest, |paths|) == Some((paths, rest))
  {
    var init, last := paths[..|paths| - 1], paths[|paths| - 1];
    EncodedLast(paths, rest);
    TakeWrittenPath(EncodePaths(paths) + rest, |paths|, init, last, rest);
    SplitLast(paths);
  }

  /** Some paths are the ones before the last, then the last. */
  lemma SplitLast(paths: seq<CopyPath>)
    requires paths != []
    ensures paths[..|paths| - 1] + [paths[|paths| - 1]] == paths
  {
  }

  /** The wire form of some paths, split before the last of them. */
  lemma EncodedLast(paths: seq<CopyPath>, rest: seq<Value>)
    requires paths != [] && forall k | 0 <= k < |paths| :: CopyPaths.Encodable(paths[k])
    ensures EncodePaths(paths) + rest ==
              EncodePaths(paths[..|paths| - 1]) + (CopyPaths.Encode(paths[|paths| - 1]) + rest)
  {
  }

  /** The wire form of the first k + 1 paths extends that of the first k. */
  lemma EncodedPrefix(paths: seq<CopyPath>, k: nat)
    requires k < |paths| && forall j | 0 <= j < |paths| :: CopyPaths.Encodable(paths[j])
    ensures EncodePaths(paths[..k + 1]) == EncodePaths(paths[..k]) + CopyPaths.Encode(paths[k])
  {
    assert paths[..k + 1][..k] == paths[..k];
  }

  /** Reading one more path, written after the n - 1 read so far. */
  lemma TakeWrittenPath(vals: seq<Value>, n: nat, paths: seq<CopyPath>, path: CopyPath, rest: seq<Value>)
    requires n > 0 && CopyPaths.Encodable(path)
    requires TakePaths(vals, n - 1) == Some((paths, CopyPaths.Encode(path) + rest))
    ensures TakePaths(vals, n) == Some((paths + [path], rest))
  {
    CopyPaths.DecodeEncode(path, rest);
  }

  /** Conversely, a successful read of n paths consumed exactly their wire
      form, and every path read fits it. */
  lemma {:induction false} TakePathsInverse(vals: seq<Value>, n: nat, paths: seq<CopyPath>, rest: seq<Value>)
    requires TakePaths(vals, n) == Some((paths, rest))
    ensures |paths| == n
    ensures forall k | 0 <= k < |paths| :: CopyPaths.Encodable(paths[k])
    ensures vals == EncodePaths(paths) + rest
  {
    if n > 0 {
      var (init, mid) := TakePaths(vals, n - 1).value;
      TakePathsInverse(vals, n - 1, init, mid);
      var (last, rest') := CopyPaths.Decode(mid).value;
      assert paths == init + [last] && rest == rest';
      CopyPaths.EncodeDecode(mid, last, rest);
      assert paths[..|paths| - 1] == init;
    }
  }

  /** Once a read of paths fails, reading more fails too. */
  lemma {:induction false} TakePathsFailureSticks(vals: seq<Value>, i: nat, n: nat)
    requires i <= n
    requires TakePaths(vals, i) == None
    ensures TakePaths(vals, n) == None
    decreases n - i
  {
    if i < n {
      TakePathsFailureSticks(vals, i + 1, n);
    }
  }

  /** decode after encode gives the same packet and consumes exactly what was
      written. */
  lemma DecodeEncode(pkt: NamesPacket, rest: seq<Value>)
    requires Encodable(pkt)
    ensures Decode(Encode(pkt) + rest) == Some((pkt, rest))
  {
    var tail := Encode(pkt)[1..] + rest;
    assert Encode(pkt) + rest == [UtfVal(ToText(pkt.itemId))] + tail;
    ParseToText(pkt.itemId);
    DecodeNamed(ToText(pkt.itemId), pkt.itemId, tail);
    DecodePathsEncode(pkt, rest);
  }

  /** After a registry name that reads as itemId, decode reads the rest of
      the packet. */
  lemma DecodeNamed(text: string, itemId: ItemId, tail: seq<Value>)
    requires Parse(text) == Some(itemId)
    ensures Decode([UtfVal(text)] + tail) == DecodePaths(itemId, tail)
  {
    assert ([UtfVal(text)] + tail)[1..] == tail;
  }

  /** The same after the registry name. */
  lemma DecodePathsEncode(pkt: NamesPacket, rest: seq<Value>)
    requires Encodable(pkt)
    ensures DecodePaths(pkt.itemId, Encode(pkt)[1..] + rest) == Some((pkt, rest))
  {
    var vals := Encode(pkt)[1..] + rest;
    assert vals[1..] == EncodePaths(pkt.paths) + rest;
    TakePathsOfEncoded(pkt.paths, rest);
  }

  /** Whatever decode accepts is the wire form of the packet it returns, but
      for the spelling of the registry name, which reads as the packet's. */
  lemma EncodeDecode(vals: seq<Value>, pkt: NamesPacket, rest: seq<Value>)
    requires Decode(vals) == Some((pkt, rest))
    ensures vals != [] && vals[0].UtfVal? && Parse(vals[0].s) == Some(pkt.itemId)
    ensures Encodable(pkt) && vals[1..] == Encode(pkt)[1..] + rest
  {
    EncodeDecodePaths(vals[1..], pkt, rest);
  }

  /** The same after the registry name. */
  lemma EncodeDecodePaths(vals: seq<Value>, pkt: NamesPacket, rest: seq<Value>)
    requires Identifiers.Valid(pkt.itemId)
    requires DecodePaths(pkt.itemId, vals) == Some((pkt, rest))
    ensures Encodable(pkt) && vals == Encode(pkt)[1..] + rest
  {
    TakePathsInverse(vals[1..], vals[0].i as nat, pkt.paths, rest);
    assert vals == [vals[0]] + vals[1..];
  }

  /** A negative path count is refused whatever follows it. */
  lemma DecodeNegativeCount(text: string, n: int32, rest: seq<Value>)
    requires n < 0
    ensures Decode([UtfVal(text), IntVal(n)] + rest) == None
  {
    var vals := [UtfVal(text), IntVal(n)] + rest;
    assert vals[1..] == [IntVal(n)] + rest;
  }

  /** encode, one write at a time. */
  method WriteToBuf(pkt: NamesPacket, buf: Buffer)
    requires Encodable(pkt)
    modifies buf
    ensures buf.contents == old(buf.contents) + Encode(pkt)
  {
    buf.WriteUtf(ToText(pkt.itemId));
    buf.WriteInt(|pkt.paths| as int32);
    WritePaths(pkt.paths, buf);
  }

  /** encode's loop: each path written in turn. */
  method WritePaths(paths: seq<CopyPath>, buf: Buffer)
    requires forall k | 0 <= k < |paths| :: CopyPaths.Encodable(paths[k])
    modifies buf
    ensures buf.contents == old(buf.contents) + EncodePaths(paths)
  {
    for k := 0 to |paths|
      invariant buf.contents == old(buf.contents) + EncodePaths(paths[..k])
    {
      EncodedPrefix(paths, k);
      CopyPaths.WriteToBuf(paths[k], buf);
    }
    assert paths[..|paths|] == paths;
  }

  /** decode, one read at a time: None where the Java code throws. */
  method ReadFromBuf(buf: Buffer) returns (r: Option<NamesPacket>)
    modifies buf
    ensures r.Some? <==> Decode(old(buf.contents)).Some?
    ensures r.Some? ==> Decode(old(buf.contents)) == Some((r.value, buf.contents))
  {
    ghost var vals := buf.contents;
    var text := buf.ReadUtf();
    if text.None? {
      return None;
    }
    var itemId := Parse(text.value);
    if itemId.None? {
      return None;
    }
    var pathCount := buf.ReadInt();
    if pathCount.None? || pathCount.value < 0 {
      return None;
    }
    var n := pathCount.value as nat;
    var paths: seq<CopyPath> := [];
    for k := 0 to n
      invariant TakePaths(vals[2..], k) == Some((paths, buf.contents))
    {
      var path := CopyPaths.ReadFromBuf(buf);
      if path.None? {
        TakePathsFailureSticks(vals[2..], k + 1, n);
        return None;
      }
      paths := paths + [path.value];
    }
    r := Some(NamesPacket(itemId.value, paths));
  }
}
