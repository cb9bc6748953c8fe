/** Pasting a saved copy onto the item in hand: the request the server sends
    to the client, its wire form, and the client's derivation of the file that
    holds the copy. */
module Paster {
  import opened Wrappers
  import opened Wire
  import opened Identifiers
  import PathSanitiser

  /** The suffix of every file that holds a saved copy. */
  const ItemFileExtension: string := ".itemnbt"

  datatype PasteRequestPacket = PasteRequestPacket(itemIdNamespace: string, itemIdPath: string, copyPath: seq<string>)

  /** A Java list holds at most the largest int of elements. */
  predicate Encodable(p: PasteRequestPacket) {
    |p.copyPath| <= MaxInt32
  }

  /** pasteItem: the request for the item in hand, built from its registry
      name; an item without a registry name is refused (the Java code throws). */
  function PasteItem(itemInHand: Option<ItemId>, copyPath: seq<string>): (r: Option<PasteRequestPacket>)
    ensures r.None? <==> itemInHand.None?
    ensures r.Some? ==> (r.value.itemIdNamespace == itemInHand.value.namespace
                         && r.value.itemIdPath == itemInHand.value.path
                         && r.value.copyPath == copyPath)
  {
    match itemInHand
    case None => None
    case Some(id) => Some(PasteRequestPacket(id.namespace, id.path, copyPath))
  }

  // ---------------------------------------------------------------------
  // Wire form
  // ---------------------------------------------------------------------

  /** encode: namespace, path, step count, then the steps. */
  function Encode(p: PasteRequestPacket): seq<Value>
    requires Encodable(p)
  {
    [UtfVal(p.itemIdNamespace), UtfVal(p.itemIdPath), IntVal(|p.copyPath| as int32)] + Utfs(p.copyPath)
  }

  /** decode: reads the same fields back. The list is grown as it is filled,
      so a negative count reads no steps. Gives the packet and the rest. */
  function Decode(vals: seq<Value>): (r: Option<(PasteRequestPacket, seq<Value>)>)
  {
    if |vals| < 3 || !vals[0].UtfVal? || !vals[1].UtfVal? || !vals[2].IntVal? then None
    else
      var count := if vals[2].i < 0 then 0 else vals[2].i as nat;
      match TakeUtfs(vals[3..], count)
      case None => None
      case Some((steps, rest)) =>
        Some((PasteRequestPacket(vals[0].s, vals[1].s, steps), rest))
  }

  /** decode(encode(p)) reproduces the namespace, the path and every step, and
      consumes exactly what was written. */
  lemma DecodeEncode(p: PasteRequestPacket, rest: seq<Value>)
    requires Encodable(p)
    ensures Decode(Encode(p) + rest) == Some((p, rest))
  {
    var vals := Encode(p) + rest;
    assert vals[3..] == Utfs(p.copyPath) + rest;
    TakeUtfsOfUtfs(p.copyPath, rest);
  }

  /** Whatever decode accepts with a non-negative count is exactly the encoding
      of what it returns. */
  lemma EncodeDecode(vals: seq<Value>, p: PasteRequestPacket, rest: seq<Value>)
    requires Decode(vals) == Some((p, rest))
    requires vals[2].i >= 0
    ensures Encodable(p) && vals == Encode(p) + rest
  {
    TakeUtfsInverse(vals[3..], vals[2].i as nat, p.copyPath, rest);
    assert vals == vals[..3] + vals[3..];
  }

  /** A negative step count gives a request with no steps. */
  lemma DecodeNegativeCount(namespace: string, path: string, n: int32, rest: seq<Value>)
    requires n < 0
    ensures Decode([UtfVal(namespace), UtfVal(path), IntVal(n)] + rest)
         == Some((PasteRequestPacket(namespace, path, []), rest))
  {
    assert ([UtfVal(namespace), UtfVal(path), IntVal(n)] + rest)[3..] == rest;
  }

  method EncodeTo(p: PasteRequestPacket, buf: Buffer)
    requires Encodable(p)
    modifies buf
    ensures buf.contents == old(buf.contents) + Encode(p)
  {
    buf.WriteUtf(p.itemIdNamespace);
    buf.WriteUtf(p.itemIdPath);
    buf.WriteInt(|p.copyPath| as int32);
    buf.WriteUtfs(p.copyPath);
    HeadThenSteps(old(buf.contents), p);
  }

  /** The three values written one by one, then the steps, are the wire form. */
  lemma HeadThenSteps(before: seq<Value>, p: PasteRequestPacket)
    requires Encodable(p)
    ensures before + [UtfVal(p.itemIdNamespace)] + [UtfVal(p.itemIdPath)] + [IntVal(|p.copyPath| as int32)]
              + Utfs(p.copyPath) == before + Encode(p)
  {
  }

  method DecodeFrom(buf: Buffer) returns (r: Option<PasteRequestPacket>)
    modifies buf
    ensures r.Some? <==> Decode(old(buf.contents)).Some?
    ensures r.Some? ==> Decode(old(buf.contents)) == Some((r.value, buf.contents))
  {
    ghost var vals := buf.contents;
    var namespace := buf.ReadUtf();
    if namespace.None? { return None; }
    var path := buf.ReadUtf();
    if path.None? { return None; }
    var copyPathLength := buf.ReadInt();
    if copyPathLength.None? { return None; }
    ghost var count := if copyPathLength.value < 0 then 0 else copyPathLength.value as nat;
    var copyPath: seq<string> := [];
    var i := 0;
    while i < copyPathLength.value as int
      invariant 0 <= i <= count
      invariant TakeUtfs(vals[3..], i) == Some((copyPath, buf.contents))
    {
      var step := buf.ReadUtf();
      if step.None? {
        assert TakeUtfs(vals[3..], i + 1) == None;
        TakeUtfsFailureSticks(vals[3..], i + 1, count);
        return None;
      }
      copyPath := copyPath + [step.value];
      i := i + 1;
    }
    r := Some(PasteRequestPacket(namespace.value, path.value, copyPath));
  }

  // ---------------------------------------------------------------------
  // Where the copy is saved
  // ---------------------------------------------------------------------

  /** A java.io.File, seen as the list of its name components. */
  type File = seq<string>

  /** new File(parent, child): an empty child names the parent itself. */
  function Child(parent: File, child: string): File {
    if child == "" then parent else parent + [child]
  }

  /** The file reached from f by following each name in turn. */
  function Descend(f: File, names: seq<string>): File
    decreases |names|
  {
    if names == [] then f else Descend(Child(f, names[0]), names[1..])
  }

  /** new File(f.getParentFile(), f.getName() + extension): the extension is
      added to the last component. */
  function WithExtension(f: File): (r: File)
    ensures |r| == if f == [] then 1 else |f|
    ensures f != [] ==> r[..|r| - 1] == f[..|f| - 1] && r[|r| - 1] == f[|f| - 1] + ItemFileExtension
  {
    if f == [] then [ItemFileExtension] else f[..|f| - 1] + [f[|f| - 1] + ItemFileExtension]
  }

  /** The file that holds the copy a request names, under the save directory. */
  function SaveLocation(saveDir: File, p: PasteRequestPacket): File {
    WithExtension(Descend(Child(Child(saveDir, p.itemIdNamespace), p.itemIdPath),
                          PathSanitiser.SanitisedAll(p.copyPath)))
  }

  /** The save location as handlePasteRequest builds it: one File per
      sanitised step, then the extension. */
  method ComputeSaveLocation(saveDir: File, p: PasteRequestPacket) returns (saveLocation: File)
    ensures saveLocation == SaveLocation(saveDir, p)
  {
    saveLocation := Child(Child(saveDir, p.itemIdNamespace), p.itemIdPath);
    ghost var target := Descend(saveLocation, PathSanitiser.SanitisedAll(p.copyPath));
    var sanitisedCopyPath := PathSanitiser.SanitisedAll(p.copyPath);
    for i := 0 to |sanitisedCopyPath|
      invariant Descend(saveLocation, sanitisedCopyPath[i..]) == target
    {
      DescendStep(saveLocation, sanitisedCopyPath, i);
      saveLocation := Child(saveLocation, sanitisedCopyPath[i]);
    }
    assert sanitisedCopyPath[|sanitisedCopyPath|..] == [];
    saveLocation := WithExtension(saveLocation);
  }

  lemma DescendStep(f: File, names: seq<string>, i: nat)
    requires i < |names|
    ensures Descend(f, names[i..]) == Descend(Child(f, names[i]), names[i + 1..])
  {
    assert names[i..][0] == names[i];
    assert names[i..][1..] == names[i + 1..];
  }

  lemma WithExtensionInjective(f: File, g: File)
    requires f != [] && g != []
    requires WithExtension(f) == WithExtension(g)
    ensures f == g
  {
    var x, y := f[|f| - 1], g[|g| - 1];
    assert x + ItemFileExtension == y + ItemFileExtension;
    assert |x| == |y|;
    assert x == (x + ItemFileExtension)[..|x|];
    assert y == (y + ItemFileExtension)[..|y|];
    assert f == f[..|f| - 1] + [x];
    assert g == g[..|g| - 1] + [y];
  }

  /** Following non-empty names appends them all. */
  lemma {:induction false} DescendNonEmpty(f: File, names: seq<string>)
    requires forall i | 0 <= i < |names| :: names[i] != ""
    ensures Descend(f, names) == f + names
    decreases |names|
  {
    if names != [] {
      DescendNonEmpty(f + [names[0]], names[1..]);
      assert f + [names[0]] + names[1..] == f + names;
    }
  }

  /** A sanitised step is empty only when the step is. */
  lemma SanitisedNonEmpty(s: string)
    requires s != ""
    ensures PathSanitiser.Sanitised(s) != ""
  {
    PathSanitiser.RoundTrip(s);
    if PathSanitiser.Sanitised(s) == "" {
      PathSanitiser.DesanitisePlain("");
    }
  }

  /** With a non-empty namespace, path and steps, the location is the save
      directory, the namespace, the path and each sanitised step, with the
      extension on the last component; without steps it ends in the path with
      the extension. */
  lemma SaveLocationShape(saveDir: File, p: PasteRequestPacket)
    requires p.itemIdNamespace != "" && p.itemIdPath != ""
    requires forall i | 0 <= i < |p.copyPath| :: p.copyPath[i] != ""
    ensures SaveLocation(saveDir, p)
         == WithExtension(saveDir + [p.itemIdNamespace, p.itemIdPath] + PathSanitiser.SanitisedAll(p.copyPath))
    ensures p.copyPath == [] ==>
              SaveLocation(saveDir, p) == saveDir + [p.itemIdNamespace, p.itemIdPath + ItemFileExtension]
  {
    var names := PathSanitiser.SanitisedAll(p.copyPath);
    forall i | 0 <= i < |names| ensures names[i] != "" {
      SanitisedNonEmpty(p.copyPath[i]);
    }
    DescendNonEmpty(saveDir + [p.itemIdNamespace, p.itemIdPath], names);
    assert saveDir + [p.itemIdNamespace] + [p.itemIdPath] == saveDir + [p.itemIdNamespace, p.itemIdPath];
    if p.copyPath == [] {
      assert names == [];
      assert saveDir + [p.itemIdNamespace, p.itemIdPath] + names == saveDir + [p.itemIdNamespace, p.itemIdPath];
    }
  }

  /** Two copy paths of non-empty steps for the same item never share a file:
      the location determines the steps. */
  lemma SaveLocationInjective(saveDir: File, a: PasteRequestPacket, b: PasteRequestPacket)
    requires a.itemIdNamespace == b.itemIdNamespace && a.itemIdPath == b.itemIdPath
    requires a.itemIdNamespace != "" && a.itemIdPath != ""
    requires forall i | 0 <= i < |a.copyPath| :: a.copyPath[i] != ""
    requires forall i | 0 <= i < |b.copyPath| :: b.copyPath[i] != ""
    requires SaveLocation(saveDir, a) == SaveLocation(saveDir, b)
    ensures a == b
  {
    SaveLocationShape(saveDir, a);
    SaveLocationShape(saveDir, b);
    var base := saveDir + [a.itemIdNamespace, a.itemIdPath];
    var sa, sb := PathSanitiser.SanitisedAll(a.copyPath), PathSanitiser.SanitisedAll(b.copyPath);
    WithExtensionInjective(base + sa, base + sb);
    assert sa == (base + sa)[|base|..];
    assert sb == (base + sb)[|base|..];
    PathSanitiser.RoundTripAll(a.copyPath);
    PathSanitiser.RoundTripAll(b.copyPath);
  }

  // ---------------------------------------------------------------------
  // handlePasteRequest
  // ---------------------------------------------------------------------

  datatype PasteOutcome =
    | FileMissing(location: File)
    | ItemMismatch
    | Pasted(data: string)

  /** handlePasteRequest on the client: the request is dropped when no file is
      at the save location, and no tag is set unless the item in hand has a
      registry name with the request's namespace and path. The files are given
      as a map from location to contents. */
  method HandlePasteRequest(p: PasteRequestPacket, saveDir: File, files: map<File, string>, itemInHand: Option<ItemId>)
    returns (out: PasteOutcome)
    ensures out.FileMissing? <==> SaveLocation(saveDir, p) !in files
    ensures out.FileMissing? ==> out.location == SaveLocation(saveDir, p)
    ensures out.Pasted? <==> SaveLocation(saveDir, p) in files && itemInHand == Some(ItemId(p.itemIdNamespace, p.itemIdPath))
    ensures out.Pasted? ==> out.data == files[SaveLocation(saveDir, p)]
  {
    var saveLocation := ComputeSaveLocation(saveDir, p);
    if saveLocation !in files {
      return FileMissing(saveLocation);
    }
    var data := files[saveLocation];
    if itemInHand.None?
       || p.itemIdNamespace != itemInHand.value.namespace
       || p.itemIdPath != itemInHand.value.path
    {
      return ItemMismatch;
    }
    out := Pasted(data);
  }
}
