/** The tree of a player's saved copy names for one item, as the server keeps
    it to offer completions: each node is one step of a copy path, and a node
    is marked when a copy is saved under the path that leads to it. */
module NameHierarchy {
  import opened CopyPaths

  type Path = seq<string>

  /** The path and, one step shorter each time, every path leading to it. */
  function Prefixes(s: Path): (r: set<Path>)
    ensures [] in r && s in r
    decreases |s|
  {
    if s == [] then {[]} else Prefixes(s[..|s| - 1]) + {s}
  }

  /** Prefixes holds exactly the prefixes of the path, the empty one and the
      path itself included. */
  lemma {:induction false} PrefixesExact(s: Path)
    ensures forall q :: q in Prefixes(s) <==> |q| <= |s| && s[..|q|] == q
    decreases |s|
  {
    if s != [] {
      var t := s[..|s| - 1];
      PrefixesExact(t);
      forall q ensures q in Prefixes(s) <==> |q| <= |s| && s[..|q|] == q {
        if |q| < |s| {
          assert t[..|q|] == s[..|q|];
        } else if |q| == |s| {
          assert s[..|q|] == s;
        }
      }
    }
  }

  lemma TakeOneMore(s: Path, i: nat)
    requires i < |s|
    ensures s[..i + 1] == s[..i] + [s[i]]
  {
  }

  lemma PrefixesSnoc(s: Path, i: nat)
    requires i < |s|
    ensures Prefixes(s[..i + 1]) == Prefixes(s[..i]) + {s[..i + 1]}
  {
    assert s[..i + 1][..i] == s[..i];
  }

  /** The names of some nodes, in order. */
  function NamesOf(nodes: seq<NameHierarchyNode>): (r: seq<string>)
    ensures |r| == |nodes|
    ensures forall i | 0 <= i < |nodes| :: r[i] == nodes[i].name
  {
    seq(|nodes|, i requires 0 <= i < |nodes| => nodes[i].name)
  }

  /** The names of those of some nodes that are not marked as copies, in order. */
  function FolderNamesOf(nodes: seq<NameHierarchyNode>): (r: seq<string>)
    reads set n | n in nodes
    ensures forall x :: x in r <==> exists i | 0 <= i < |nodes| :: !nodes[i].isItem && nodes[i].name == x
  {
    if nodes == [] then []
    else
      var rest := FolderNamesOf(nodes[1..]);
      assert forall i | 1 <= i < |nodes| :: nodes[i] == nodes[1..][i - 1];
      if nodes[0].isItem then rest else [nodes[0].name] + rest
  }

  /** Every folder name is a child name. */
  lemma FolderNamesAreNames(nodes: seq<NameHierarchyNode>)
    ensures forall x | x in FolderNamesOf(nodes) :: x in NamesOf(nodes)
  {
    forall x | x in FolderNamesOf(nodes) ensures x in NamesOf(nodes) {
      var i :| 0 <= i < |nodes| && !nodes[i].isItem && nodes[i].name == x;
      assert NamesOf(nodes)[i] == x;
    }
  }

  /** The paths of a hierarchy, the node each leads to, and each node's
      children form a tree: distinct paths lead to distinct nodes (pathOf
      takes each node back to its path), the node a
      path leads to is a child of the node its parent path leads to and bears
      the path's last step as its name, every child is reached by extending
      its parent's path with its name, and siblings have distinct names. */
  ghost predicate TreeShape(at: map<Path, NameHierarchyNode>, kids: map<Path, seq<NameHierarchyNode>>,
                            pathOf: map<NameHierarchyNode, Path>) {
    && kids.Keys == at.Keys
    && (forall p | p in at :: at[p] in pathOf && pathOf[at[p]] == p)
    && (forall p, name {:trigger p + [name]} | p + [name] in at ::
          && p in at
          && at[p + [name]].name == name
          && at[p + [name]] in kids[p])
    && (forall p, i | p in kids && 0 <= i < |kids[p]| ::
          && p + [kids[p][i].name] in at
          && at[p + [kids[p][i].name]] == kids[p][i])
    && (forall p, i, j | p in kids && 0 <= i < j < |kids[p]| :: kids[p][i].name != kids[p][j].name)
  }

  /** Where no child bears a name, no path extends the parent's by it. */
  lemma NoChildNoPath(at: map<Path, NameHierarchyNode>, kids: map<Path, seq<NameHierarchyNode>>,
                      pathOf: map<NameHierarchyNode, Path>, path: Path, name: string)
    requires TreeShape(at, kids, pathOf) && path in at
    requires forall i | 0 <= i < |kids[path]| :: kids[path][i].name != name
    ensures path + [name] !in at
  {
  }

  /** Appending a new child of a fresh name keeps the shape a tree. */
  lemma AddChildShape(at: map<Path, NameHierarchyNode>, kids: map<Path, seq<NameHierarchyNode>>,
                      pathOf: map<NameHierarchyNode, Path>, path: Path, name: string, child: NameHierarchyNode)
    requires TreeShape(at, kids, pathOf) && path in at && path + [name] !in at
    requires (forall p | p in at :: at[p] != child) && child.name == name
    requires forall i | 0 <= i < |kids[path]| :: kids[path][i].name != name
    ensures TreeShape(at[path + [name] := child], kids[path := kids[path] + [child]][path + [name] := []],
                      pathOf[child := path + [name]])
  {
    var q := path + [name];
    var at' := at[q := child];
    var kids' := kids[path := kids[path] + [child]][q := []];
    forall p', n' | p' + [n'] in at'
      ensures p' in at' && at'[p' + [n']].name == n' && at'[p' + [n']] in kids'[p']
    {
      if p' + [n'] == q {
        assert p' == (p' + [n'])[..|p'|] == path;
        assert n' == (p' + [n'])[|p'|] == name;
        assert kids'[path] == kids[path] + [child];
      } else {
        assert at[p' + [n']] in kids[p'];
      }
    }
    forall p, i | p in kids' && 0 <= i < |kids'[p]|
      ensures p + [kids'[p][i].name] in at' && at'[p + [kids'[p][i].name]] == kids'[p][i]
    {
      if p == path && i == |kids[path]| {
      } else {
        assert p != q;
        assert kids'[p][i] == kids[p][i];
      }
    }
  }

  class NameHierarchyNode {
    const name: string
    var isItem: bool
    var subhierarchies: seq<NameHierarchyNode>

    /** For the node a hierarchy is rooted at: the node each path leads to,
        the children of each of those nodes, the paths under which copies are
        saved, and the nodes of the hierarchy. */
    ghost var at: map<Path, NameHierarchyNode>
    ghost var kids: map<Path, seq<NameHierarchyNode>>
    ghost var items: set<Path>
    ghost var pathOf: map<NameHierarchyNode, Path>
    ghost var Repr: set<NameHierarchyNode>

    /** The hierarchy rooted here: the empty path leads here, the paths and
        the nodes they lead to form a tree, and every node's children and mark
        are the ones recorded for its path. */
    ghost predicate Valid()
      reads this, Repr
    {
      && [] in at && at[[]] == this
      && (forall p | p in at :: at[p] in Repr)
      && TreeShape(at, kids, pathOf)
      && items <= at.Keys
      && (forall p | p in at :: at[p].subhierarchies == kids[p] && (at[p].isItem <==> p in items))
    }

    /** A new node with no children, not marked, the root of its own hierarchy. */
    constructor (name: string)
      ensures this.name == name && !isItem && subhierarchies == []
      ensures at == map[[] := this] && kids == map[[] := []] && pathOf == map[this := []]
      ensures items == {} && Repr == {this}
    {
      this.name := name;
      isItem := false;
      subhierarchies := [];
      new;
      at := map[[] := this];
      kids := map[[] := []];
      items := {};
      pathOf := map[this := []];
      Repr := {this};
    }

    /** getChild: the child with the given name, or null when there is none. */
    method GetChild(name: string) returns (child: NameHierarchyNode?)
      ensures child == null <==> forall i | 0 <= i < |subhierarchies| :: subhierarchies[i].name != name
      ensures child != null ==> child in subhierarchies && child.name == name
    {
      for i := 0 to |subhierarchies|
        invariant forall k | 0 <= k < i :: subhierarchies[k].name != name
      {
        if subhierarchies[i].name == name {
          return subhierarchies[i];
        }
      }
      return null;
    }

    /** getOrMakeChild: the child with the given name; when there is none, a
        new unmarked child of that name is appended first. root and path say
        where this node sits, so the hierarchy's bookkeeping can follow. */
    method GetOrMakeChild(name: string, ghost root: NameHierarchyNode, ghost path: Path)
      returns (child: NameHierarchyNode)
      requires root.Valid() && path in root.at && root.at[path] == this
      modifies this, root
      ensures root.Valid()
      ensures child.name == name
      ensures root.at == old(root.at)[path + [name] := child]
      ensures root.items == old(root.items)
      ensures path + [name] in old(root.at) ==> child == old(root.at)[path + [name]] && root.kids == old(root.kids)
      ensures path + [name] !in old(root.at) ==>
                root.kids == old(root.kids)[path := old(root.kids)[path] + [child]][path + [name] := []]
      ensures fresh(root.Repr - old(root.Repr))
    {
      ChildPath(root, path, name);
      var existing := GetChild(name);
      if existing != null {
        child := existing;
        var i :| 0 <= i < |subhierarchies| && subhierarchies[i] == child;
        assert root.at == old(root.at)[path + [name] := child];
      } else {
        child := new NameHierarchyNode(name);
        Append(child, root, path);
      }
    }

    /** The appending half of getOrMakeChild: appends a new unmarked node,
        of a name no child has, as the last child, and records it under the
        extended path. */
    method Append(child: NameHierarchyNode, ghost root: NameHierarchyNode, ghost path: Path)
      requires root.Valid() && path in root.at && root.at[path] == this
      requires forall i | 0 <= i < |subhierarchies| :: subhierarchies[i].name != child.name
      requires child !in root.Repr && !child.isItem && child.subhierarchies == []
      modifies this, root
      ensures root.Valid()
      ensures path + [child.name] !in old(root.at)
      ensures root.at == old(root.at)[path + [child.name] := child]
      ensures root.kids == old(root.kids)[path := old(root.kids)[path] + [child]][path + [child.name] := []]
      ensures root.items == old(root.items)
      ensures root.Repr == old(root.Repr) + {child}
    {
      ghost var q := path + [child.name];
      ghost var at0, kids0, pathOf0, items0, repr0 := root.at, root.kids, root.pathOf, root.items, root.Repr;
      NoChildNoPath(at0, kids0, pathOf0, path, child.name);
      subhierarchies, root.at, root.kids, root.pathOf, root.Repr :=
        subhierarchies + [child], root.at[q := child], root.kids[path := subhierarchies + [child]][q := []],
        root.pathOf[child := q], root.Repr + {child};
      AppendedValid(root, this, child, path, at0, kids0, pathOf0, items0, repr0);
    }

    /** The walk of makeAt: on the root of a hierarchy, follows the steps,
        making each missing one as an unmarked child, and returns the node
        the steps lead to. Nodes already there stay where they were; when the
        steps already lead somewhere, nothing changes. */
    method MakeSteps(steps: Path) returns (current: NameHierarchyNode)
      requires Valid()
      modifies Repr
      ensures Valid() && steps in at && at[steps] == current
      ensures at.Keys == old(at.Keys) + Prefixes(steps)
      ensures forall p | p in old(at) :: at[p] == old(at[p])
      ensures items == old(items)
      ensures fresh(Repr - old(Repr))
    {
      ghost var at0, items0, repr0 := at, items, Repr;
      current := this;
      for i := 0 to |steps|
        invariant Valid()
        invariant steps[..i] in at && at[steps[..i]] == current
        invariant at.Keys == at0.Keys + Prefixes(steps[..i])
        invariant forall p | p in at0 :: at[p] == at0[p]
        invariant items == items0
        invariant fresh(Repr - repr0)
      {
        TakeOneMore(steps, i);
        ghost var before := at;
        current := current.GetOrMakeChild(steps[i], this, steps[..i]);
        ExtendedBookkeeping(at0, before, at, steps, i, current);
      }
      assert steps[..|steps|] == steps;
    }

    /** makeAt: on the root of a hierarchy, makes the path's steps as
        MakeSteps does and marks the node they lead to (the root itself for
        the empty path). The path is the one saved path added; making a path
        that is already saved changes nothing. */
    method MakeAt(path: CopyPath)
      requires Valid()
      modifies Repr
      ensures Valid()
      ensures at.Keys == old(at.Keys) + Prefixes(path.steps)
      ensures forall p | p in old(at) :: at[p] == old(at[p])
      ensures items == old(items) + {path.steps}
      ensures fresh(Repr - old(Repr))
      ensures path.steps in old(items) ==> at == old(at) && items == old(items)
    {
      if path.steps in items {
        PrefixesPresent(this, path.steps);
      }
      var current := MakeSteps(path.steps);
      current.Mark(this, path.steps);
    }

    /** The marking half of makeAt: marks this node, which the given path
        leads to in the hierarchy rooted at root, as a saved copy. */
    method Mark(ghost root: NameHierarchyNode, ghost steps: Path)
      requires root.Valid() && steps in root.at && root.at[steps] == this
      modifies this, root
      ensures root.Valid()
      ensures root.at == old(root.at) && root.kids == old(root.kids) && root.Repr == old(root.Repr)
      ensures root.items == old(root.items) + {steps}
    {
      isItem, root.items := true, root.items + {steps};
    }

    /** getAt: on the root of a hierarchy, walks the path's steps from child
        to child; null exactly when some step has no matching child, and
        otherwise the node the path leads to (the root for the empty path). */
    method GetAt(path: CopyPath) returns (node: NameHierarchyNode?)
      requires Valid()
      ensures node == null <==> path.steps !in at
      ensures node != null ==> node == at[path.steps]
    {
      var steps := path.steps;
      var current := this;
      for i := 0 to |steps|
        invariant steps[..i] in at && at[steps[..i]] == current
      {
        ChildPath(this, steps[..i], steps[i]);
        TakeOneMore(steps, i);
        var child := current.GetChild(steps[i]);
        if child == null {
          if steps in at {
            PrefixClosed(this, steps, i + 1);
          }
          return null;
        }
        current := child;
      }
      assert steps[..|steps|] == steps;
      return current;
    }

    /** getChildNames: the names of the children, in order. */
    method GetChildNames() returns (names: seq<string>)
      ensures names == NamesOf(subhierarchies)
    {
      names := [];
      for i := 0 to |subhierarchies|
        invariant names == NamesOf(subhierarchies[..i])
      {
        names := names + [subhierarchies[i].name];
      }
      assert subhierarchies[..|subhierarchies|] == subhierarchies;
    }

    /** getChildFolderNames: the names of the children not marked as copies,
        in order. */
    method GetChildFolderNames() returns (names: seq<string>)
      ensures names == FolderNamesOf(subhierarchies)
    {
      names := [];
      for i := 0 to |subhierarchies|
        invariant names + FolderNamesOf(subhierarchies[i..]) == FolderNamesOf(subhierarchies)
      {
        assert subhierarchies[i..][1..] == subhierarchies[i + 1..];
        if !subhierarchies[i].isItem {
          names := names + [subhierarchies[i].name];
        }
      }
    }
  }

  /** The paths recorded by the walk of makeAt after one more step. */
  lemma ExtendedBookkeeping(start: map<Path, NameHierarchyNode>, before: map<Path, NameHierarchyNode>,
                            after: map<Path, NameHierarchyNode>, steps: Path, i: nat, child: NameHierarchyNode)
    requires i < |steps|
    requires before.Keys == start.Keys + Prefixes(steps[..i])
    requires forall p | p in start :: before[p] == start[p]
    requires after == before[steps[..i + 1] := child]
    requires steps[..i + 1] in before ==> child == before[steps[..i + 1]]
    ensures steps[..i + 1] in after && after[steps[..i + 1]] == child
    ensures after.Keys == start.Keys + Prefixes(steps[..i + 1])
    ensures forall p | p in start :: after[p] == start[p]
  {
    PrefixesSnoc(steps, i);
  }

  /** After a new unmarked node is appended as the last child of the node a
      path leads to, and recorded under the extended path, the hierarchy is
      valid again; at0, kids0, pathOf0, items0 and repr0 are its bookkeeping
      before. */
  lemma AppendedValid(root: NameHierarchyNode, node: NameHierarchyNode, child: NameHierarchyNode, path: Path,
                      at0: map<Path, NameHierarchyNode>, kids0: map<Path, seq<NameHierarchyNode>>,
                      pathOf0: map<NameHierarchyNode, Path>, items0: set<Path>, repr0: set<NameHierarchyNode>)
    requires TreeShape(at0, kids0, pathOf0) && [] in at0 && at0[[]] == root && items0 <= at0.Keys
    requires path in at0 && at0[path] == node && path + [child.name] !in at0
    requires forall i | 0 <= i < |kids0[path]| :: kids0[path][i].name != child.name
    requires forall p | p in at0 :: at0[p] in repr0
    requires child !in repr0 && !child.isItem && child.subhierarchies == []
    requires forall p | p in at0 && p != path :: at0[p].subhierarchies == kids0[p]
    requires forall p | p in at0 :: at0[p].isItem <==> p in items0
    requires node.subhierarchies == kids0[path] + [child]
    requires root.at == at0[path + [child.name] := child] && root.pathOf == pathOf0[child := path + [child.name]]
    requires root.kids == kids0[path := kids0[path] + [child]][path + [child.name] := []]
    requires root.items == items0 && root.Repr == repr0 + {child}
    ensures root.Valid()
  {
    AddChildShape(at0, kids0, pathOf0, path, child.name, child);
  }

  /** A new node is the root of a valid hierarchy holding no saved path. */
  lemma NewRootValid(root: NameHierarchyNode)
    requires !root.isItem && root.subhierarchies == []
    requires root.at == map[[] := root] && root.kids == map[[] := []] && root.pathOf == map[root := []]
    requires root.items == {} && root.Repr == {root}
    ensures root.Valid()
  {
  }

  /** Every prefix of a path of a valid hierarchy is a path of it. */
  lemma PrefixesPresent(root: NameHierarchyNode, s: Path)
    requires root.Valid() && s in root.at
    ensures Prefixes(s) <= root.at.Keys
  {
    PrefixesExact(s);
    forall q | q in Prefixes(s) ensures q in root.at {
      PrefixClosed(root, s, |q|);
    }
  }

  /** In a valid hierarchy, extending a path by a name leads somewhere exactly
      when the node the path leads to has a child of that name, and then to
      that child. */
  lemma ChildPath(root: NameHierarchyNode, p: Path, name: string)
    requires root.Valid() && p in root.at
    ensures p + [name] in root.at <==>
              exists i | 0 <= i < |root.at[p].subhierarchies| :: root.at[p].subhierarchies[i].name == name
    ensures forall i | 0 <= i < |root.at[p].subhierarchies| && root.at[p].subhierarchies[i].name == name ::
              p + [name] in root.at && root.at[p + [name]] == root.at[p].subhierarchies[i]
  {
    var q := p + [name];
    if q in root.at {
      var c := root.at[q];
      assert c in root.at[p].subhierarchies;
      var i :| 0 <= i < |root.at[p].subhierarchies| && root.at[p].subhierarchies[i] == c;
    }
  }

  /** The paths of a valid hierarchy are closed under taking prefixes. */
  lemma {:induction false} PrefixClosed(root: NameHierarchyNode, s: Path, k: nat)
    requires root.Valid() && s in root.at && k <= |s|
    ensures s[..k] in root.at
    decreases |s| - k
  {
    if k < |s| {
      PrefixClosed(root, s, k + 1);
      assert s[..k + 1] == s[..k] + [s[k]];
      assert s[..k] + [s[k]] in root.at;
    } else {
      assert s[..k] == s;
    }
  }

  /** The children's names at a path are exactly the names that extend it to
      another path of the hierarchy. */
  lemma ChildNamesExact(root: NameHierarchyNode, p: Path)
    requires root.Valid() && p in root.at
    ensures forall name :: name in NamesOf(root.at[p].subhierarchies) <==> p + [name] in root.at
  {
    forall name ensures name in NamesOf(root.at[p].subhierarchies) <==> p + [name] in root.at {
      ChildPath(root, p, name);
      var names := NamesOf(root.at[p].subhierarchies);
      if name in names {
        var i :| 0 <= i < |names| && names[i] == name;
      }
      if p + [name] in root.at {
        var i :| 0 <= i < |root.at[p].subhierarchies| && root.at[p].subhierarchies[i].name == name;
        assert names[i] == name;
      }
    }
  }

  /** The folder names at a path are exactly the names that extend it to a
      path of the hierarchy under which no copy is saved. */
  lemma FolderNamesExact(root: NameHierarchyNode, p: Path)
    requires root.Valid() && p in root.at
    ensures forall name :: name in FolderNamesOf(root.at[p].subhierarchies) <==>
              p + [name] in root.at && !root.at[p + [name]].isItem
  {
    forall name ensures name in FolderNamesOf(root.at[p].subhierarchies) <==>
                          p + [name] in root.at && !root.at[p + [name]].isItem {
      ChildPath(root, p, name);
    }
  }
}
