/** The identifiers the mod passes around: players' UUIDs and items' registry
    names (Minecraft's ResourceLocation), with the textual form in which a
    registry name travels over the network. */
module Identifiers {
  import opened Wrappers

  /** A player's UUID: a 128-bit value, compared only for equality. */
  newtype PlayerId = x: int | 0 <= x < 0x1_0000_0000_0000_0000_0000_0000_0000_0000

  /** An item's registry name: a namespace and a path within it. */
  datatype ItemId = ItemId(namespace: string, path: string)

  const DefaultNamespace: string := "minecraft"
  const Separator: char := ':'

  predicate NamespaceChar(c: char) {
    c == '_' || c == '-' || c == '.' || 'a' <= c <= 'z' || '0' <= c <= '9'
  }

  predicate PathChar(c: char) {
    NamespaceChar(c) || c == '/'
  }

  predicate ValidNamespace(s: string) {
    forall i | 0 <= i < |s| :: NamespaceChar(s[i])
  }

  predicate ValidPath(s: string) {
    forall i | 0 <= i < |s| :: PathChar(s[i])
  }

  /** A registry name as the ResourceLocation constructor admits it: an empty
      namespace is never kept (it becomes the default one). */
  predicate Valid(id: ItemId) {
    id.namespace != [] && ValidNamespace(id.namespace) && ValidPath(id.path)
  }

  /** The text writeResourceLocation puts on the wire: namespace, separator, path. */
  function ToText(id: ItemId): string {
    id.namespace + [Separator] + id.path
  }

  /** The position of the first c in s, or |s| when there is none. */
  function IndexOf(s: string, c: char): (i: nat)
    ensures i <= |s|
    ensures i < |s| ==> s[i] == c
    ensures forall j | 0 <= j < i :: s[j] != c
  {
    if s == [] then 0
    else if s[0] == c then 0
    else 1 + IndexOf(s[1..], c)
  }

  /** readResourceLocation: the text is split at its first separator; the part
      before it is the namespace unless it is empty, and without a separator
      the whole text is the path in the default namespace. A namespace or path
      with a character outside the allowed sets makes the constructor throw. */
  function Parse(text: string): (r: Option<ItemId>)
    ensures r.Some? ==> Valid(r.value)
    ensures r.Some? && 1 <= IndexOf(text, Separator) < |text| ==> ToText(r.value) == text
  {
    var i := IndexOf(text, Separator);
    var namespace := if 1 <= i < |text| then text[..i] else DefaultNamespace;
    var path := if i < |text| then text[i + 1..] else text;
    assert ValidNamespace(DefaultNamespace);
    if ValidNamespace(namespace) && ValidPath(path) then Some(ItemId(namespace, path)) else None
  }

  /** A registry name survives being written and read back. */
  lemma ParseToText(id: ItemId)
    requires Valid(id)
    ensures Parse(ToText(id)) == Some(id)
  {
    var text := ToText(id);
    forall j | 0 <= j < |id.namespace| ensures text[j] != Separator {
      assert text[j] == id.namespace[j];
      assert NamespaceChar(id.namespace[j]);
    }
    assert text[|id.namespace|] == Separator;
    assert IndexOf(text, Separator) == |id.namespace|;
    assert text[..|id.namespace|] == id.namespace;
    assert text[|id.namespace| + 1..] == id.path;
  }

  /** A text without a separator names a path in the default namespace, and an
      empty namespace before the separator is replaced by the default one. */
  lemma ParseDefaultNamespace(path: string)
    requires ValidPath(path)
    ensures Parse(path) == Some(ItemId(DefaultNamespace, path))
    ensures Parse([Separator] + path) == Some(ItemId(DefaultNamespace, path))
  {
    assert forall j | 0 <= j < |path| :: path[j] != Separator by {
      forall j | 0 <= j < |path| ensures path[j] != Separator {
        assert PathChar(path[j]);
      }
    }
    assert IndexOf(path, Separator) == |path|;
    assert ([Separator] + path)[1..] == path;
  }
}
