/** The server's registry of the copy names each player has saved: for every
    player and item, the hierarchy of the names saved for it, rebuilt whole
    when the player's client sends its list, dropped when the player leaves,
    and read to suggest completions and to check that a name exists. */
module NameStore {
  import opened Identifiers
  import opened CopyPaths
  import opened NameHierarchy

  /** The name given to the root of every item's hierarchy. */
  const ItemRootName: string := "###ITEMROOT###"

  /** The saved paths of every player and item. */
  type Saved = map<PlayerId, map<ItemId, set<Path>>>

  /** Whether a path is the empty one or leads towards one of the saved paths
      (is a prefix of it, the saved path itself included). */
  ghost predicate Leads(saved: set<Path>, q: Path) {
    q == [] || exists s | s in saved :: |q| <= |s| && s[..|q|] == q
  }

  /** The paths a hierarchy needs to hold some saved paths: the empty path
      and every prefix of a saved path. */
  ghost function Spread(saved: set<Path>): set<Path> {
    {[]} + set s, q | s in saved && q in Prefixes(s) :: q
  }

  /** The paths needed are exactly those that lead towards a saved path. */
  lemma SpreadLeads(saved: set<Path>, q: Path)
    ensures q in Spread(saved) <==> Leads(saved, q)
  {
    if q in Spread(saved) && q != [] {
      var s :| s in saved && q in Prefixes(s);
      PrefixesExact(s);
    }
    if Leads(saved, q) && q != [] {
      var s :| s in saved && |q| <= |s| && s[..|q|] == q;
      PrefixesExact(s);
    }
  }

  /** The steps of some copy paths. */
  function StepsOf(paths: seq<CopyPath>): (r: set<Path>)
    ensures forall q :: q in r <==> CopyPath(q) in paths
  {
    set k | 0 <= k < |paths| :: paths[k].steps
  }

  /** A two-level map with one entry set, the inner map created empty when
      the outer key is new (computeIfAbsent, then put). */
  function Put<V>(m: map<PlayerId, map<ItemId, V>>, player: PlayerId, item: ItemId, v: V): map<PlayerId, map<ItemId, V>>
  {
    var forPlayer := if player in m then m[player] else map[];
    m[player := forPlayer[item := v]]
  }

  /** What storeNames leaves saved: the item's paths are replaced by exactly
      the given ones, the player's other items and the other players are kept,
      and a player unknown before now has just this item. */
  function AfterStore(saved: Saved, player: PlayerId, item: ItemId, paths: seq<CopyPath>): (r: Saved)
    ensures r.Keys == saved.Keys + {player}
    ensures forall p | p in saved && p != player :: r[p] == saved[p]
    ensures r[player].Keys == (if player in saved then saved[player].Keys else {}) + {item}
    ensures forall i | player in saved && i in saved[player] && i != item :: r[player][i] == saved[player][i]
    ensures forall q :: q in r[player][item] <==> CopyPath(q) in paths
  {
    Put(saved, player, item, StepsOf(paths))
  }

  /** After storeNames, a path is saved for the player and item exactly when
      it is one of the paths stored. */
  lemma StoredNamesExist(saved: Saved, player: PlayerId, item: ItemId, paths: seq<CopyPath>, path: CopyPath)
    ensures var r := AfterStore(saved, player, item, paths);
            player in r && item in r[player] && (path.steps in r[player][item] <==> path in paths)
  {
    var r := AfterStore(saved, player, item, paths);
    assert CopyPath(path.steps) == path;
  }

  /** Extending a hierarchy by the prefixes of one more saved path keeps its
      paths exactly those leading towards its saved paths. */
  lemma SpreadAdd(saved: set<Path>, s: Path)
    ensures Spread(saved + {s}) == Spread(saved) + Prefixes(s)
  {
  }

  /** A valid hierarchy whose paths are exactly those leading towards its
      saved paths. */
  ghost predicate Sound(root: NameHierarchyNode)
    reads root, root.Repr
  {
    root.Valid() && root.at.Keys == Spread(root.items)
  }

  /** A root of the store, with the nodes it holds among some nodes: a sound
      hierarchy holding exactly some saved paths. */
  ghost predicate Holds(root: NameHierarchyNode, saved: set<Path>, repr: set<NameHierarchyNode>)
    reads repr
  {
    root in repr && root.Repr <= repr && Sound(root) && root.items == saved
  }

  /** The hierarchies of the store, the paths saved in them and the nodes
      they hold: every player and item has a sound hierarchy holding exactly
      the paths saved for it. */
  ghost predicate Healthy(hier: map<PlayerId, map<ItemId, NameHierarchyNode>>, saved: Saved,
                          repr: set<NameHierarchyNode>)
    reads repr
  {
    && saved.Keys == hier.Keys
    && (forall p | p in hier :: saved[p].Keys == hier[p].Keys)
    && (forall p, i | p in hier && i in hier[p] :: Holds(hier[p][i], saved[p][i], repr))
  }

  /** Dropping a player keeps the store healthy. */
  lemma HealthyRemove(hier: map<PlayerId, map<ItemId, NameHierarchyNode>>, saved: Saved,
                      repr: set<NameHierarchyNode>, player: PlayerId)
    requires Healthy(hier, saved, repr)
    ensures Healthy(hier - {player}, saved - {player}, repr)
  {
  }

  /** Putting a sound hierarchy holding exactly some paths under a player
      and item keeps the store healthy, with those paths saved there. */
  lemma HealthyStore(hier: map<PlayerId, map<ItemId, NameHierarchyNode>>, saved: Saved,
                     repr: set<NameHierarchyNode>, player: PlayerId, item: ItemId,
                     root: NameHierarchyNode, paths: seq<CopyPath>,
                     hier': map<PlayerId, map<ItemId, NameHierarchyNode>>, saved': Saved,
                     repr': set<NameHierarchyNode>)
    requires Healthy(hier, saved, repr)
    requires Sound(root) && root.items == StepsOf(paths)
    requires hier' == Put(hier, player, item, root)
    requires saved' == AfterStore(saved, player, item, paths)
    requires repr' == repr + {root} + root.Repr
    ensures Healthy(hier', saved', repr')
  {
    forall p, i | p in hier' && i in hier'[p]
      ensures Holds(hier'[p][i], saved'[p][i], repr')
    {
      HoldsAfterStore(hier, saved, repr, player, item, root, paths, hier', saved', repr', p, i);
    }
  }

  /** The same, for one player and item of the new store. */
  lemma HoldsAfterStore(hier: map<PlayerId, map<ItemId, NameHierarchyNode>>, saved: Saved,
                        repr: set<NameHierarchyNode>, player: PlayerId, item: ItemId,
                        root: NameHierarchyNode, paths: seq<CopyPath>,
                        hier': map<PlayerId, map<ItemId, NameHierarchyNode>>, saved': Saved,
                        repr': set<NameHierarchyNode>, p: PlayerId, i: ItemId)
    requires Healthy(hier, saved, repr)
    requires Sound(root) && root.items == StepsOf(paths)
    requires hier' == Put(hier, player, item, root)
    requires saved' == AfterStore(saved, player, item, paths)
    requires repr' == repr + {root} + root.Repr
    requires p in hier' && i in hier'[p]
    ensures p in saved' && i in saved'[p] && Holds(hier'[p][i], saved'[p][i], repr')
  {
    if p != player || i != item {
      assert hier'[p][i] == hier[p][i] && saved'[p][i] == saved[p][i];
      HoldsMore(hier[p][i], saved[p][i], repr, repr');
    }
  }

  /** A root held among some nodes is held among more. */
  lemma HoldsMore(root: NameHierarchyNode, saved: set<Path>, repr: set<NameHierarchyNode>,
                  repr': set<NameHierarchyNode>)
    requires Holds(root, saved, repr) && repr <= repr'
    ensures Holds(root, saved, repr')
  {
  }

  /** The hierarchy of a known player and item is sound and holds the paths
      saved for them. */
  lemma RootOf(hier: map<PlayerId, map<ItemId, NameHierarchyNode>>, saved: Saved,
               repr: set<NameHierarchyNode>, player: PlayerId, item: ItemId)
    requires Healthy(hier, saved, repr)
    ensures player in hier && item in hier[player] <==> player in saved && item in saved[player]
    ensures player in hier && item in hier[player] ==>
              Sound(hier[player][item]) && hier[player][item].items == saved[player][item]
  {
  }

  /** Whether a path is one towards which a player has saved a copy of an
      item: the empty path, or a prefix of one of the saved paths. */
  ghost predicate Suggested(saved: Saved, player: PlayerId, item: ItemId, q: Path) {
    player in saved && item in saved[player] && Leads(saved[player][item], q)
  }

  /** What the suggestions for a known player and item rest on: the root is
      valid; at a path of it, the child names are exactly the names that
      extend it towards a saved path, each once, and the folder names exactly
      those of them not saved; from any other path no name leads anywhere. */
  lemma BranchNames(hier: map<PlayerId, map<ItemId, NameHierarchyNode>>, saved: Saved,
                    repr: set<NameHierarchyNode>,
                    player: PlayerId, item: ItemId, q: Path)
    requires Healthy(hier, saved, repr) && player in hier && item in hier[player]
    ensures hier[player][item].Valid()
    ensures var root := hier[player][item];
            q in root.at ==>
              && (forall n :: n in NamesOf(root.at[q].subhierarchies) <==> Suggested(saved, player, item, q + [n]))
              && (forall n :: n in FolderNamesOf(root.at[q].subhierarchies) <==>
                    Suggested(saved, player, item, q + [n]) && q + [n] !in saved[player][item])
              && (forall a, b | 0 <= a < b < |root.at[q].subhierarchies| ::
                    root.at[q].subhierarchies[a].name != root.at[q].subhierarchies[b].name)
    ensures q !in hier[player][item].at ==> forall n :: !Suggested(saved, player, item, q + [n])
  {
    var root := hier[player][item];
    if q in root.at {
      SuggestionsLead(root, q);
    } else {
      NothingLeads(root, q);
    }
  }

  /** At a path of a sound hierarchy, the child names are exactly the names
      that extend it towards a saved path. */
  lemma SuggestionsLead(root: NameHierarchyNode, q: Path)
    requires Sound(root) && q in root.at
    ensures forall n :: n in NamesOf(root.at[q].subhierarchies) <==> Leads(root.items, q + [n])
    ensures forall n :: n in FolderNamesOf(root.at[q].subhierarchies) <==>
              Leads(root.items, q + [n]) && q + [n] !in root.items
  {
    ChildNamesExact(root, q);
    FolderNamesExact(root, q);
    forall n {
      SpreadLeads(root.items, q + [n]);
    }
  }

  /** From a path not in a sound hierarchy, no name leads towards a saved
      path. */
  lemma NothingLeads(root: NameHierarchyNode, q: Path)
    requires Sound(root) && q !in root.at
    ensures forall n :: !Leads(root.items, q + [n])
  {
    forall n | Leads(root.items, q + [n]) ensures false {
      SpreadLeads(root.items, q + [n]);
      assert (q + [n])[..|q|] == q;
      PrefixClosed(root, q + [n], |q|);
    }
  }

  /** Before any path is made, the hierarchy holds only the root. */
  lemma NoneMade(paths: seq<CopyPath>)
    ensures StepsOf(paths[..0]) == {} && Spread({}) == {[]}
  {
  }

  /** The bookkeeping of storeNames's loop after one more path is made. */
  lemma OneMoreMade(paths: seq<CopyPath>, k: nat, keys0: set<Path>, keys: set<Path>, items: set<Path>)
    requires k < |paths|
    requires keys0 == Spread(StepsOf(paths[..k]))
    requires keys == keys0 + Prefixes(paths[k].steps) && items == StepsOf(paths[..k]) + {paths[k].steps}
    ensures items == StepsOf(paths[..k + 1]) && keys == Spread(items)
  {
    SpreadAdd(StepsOf(paths[..k]), paths[k].steps);
    assert paths[..k + 1] == paths[..k] + [paths[k]];
  }

  /** The hierarchy storeNames builds: a new root, in which each of the paths
      is made in turn, and which then holds exactly those paths. */
  method NewHierarchy(paths: seq<CopyPath>) returns (root: NameHierarchyNode)
    ensures Sound(root) && root.items == StepsOf(paths)
    ensures fresh(root.Repr)
  {
    root := new NameHierarchyNode(ItemRootName);
    NewRootValid(root);
    NoneMade(paths);
    for k := 0 to |paths|
      invariant Sound(root) && root.items == StepsOf(paths[..k])
      invariant fresh(root.Repr)
    {
      MakeNext(root, paths, k);
    }
    assert paths[..|paths|] == paths;
  }

  /** One turn of storeNames's loop: the next path is made in the hierarchy. */
  method MakeNext(root: NameHierarchyNode, paths: seq<CopyPath>, k: nat)
    requires k < |paths| && Sound(root) && root.items == StepsOf(paths[..k])
    modifies root.Repr
    ensures Sound(root) && root.items == StepsOf(paths[..k + 1])
    ensures fresh(root.Repr - old(root.Repr))
  {
    ghost var keys := root.at.Keys;
    root.MakeAt(paths[k]);
    OneMoreMade(paths, k, keys, root.at.Keys, root.items);
  }

  /** The ghost state of a store: the saved paths of every player and item,
      and the nodes of its hierarchies. */
  datatype Contents = Contents(saved: Saved, Repr: set<NameHierarchyNode>)

  class CopyNamesServerStore {
    /** For each player, for each item, the root of the names saved for it. */
    var nameHierarchy: map<PlayerId, map<ItemId, NameHierarchyNode>>
    /** The saved paths of every player and item, and the nodes of the
        hierarchies. */
    ghost var contents: Contents

    /** Every item's root heads a sound hierarchy holding the paths saved for
        the item. */
    ghost predicate Valid()
      reads this, contents.Repr
    {
      Healthy(nameHierarchy, contents.saved, contents.Repr)
    }

    /** A store that knows no player. */
    constructor ()
      ensures Valid() && contents.saved == map[]
    {
      nameHierarchy, contents := map[], Contents(map[], {});
    }

    /** storeNames: replaces the names saved for one item of a player by a
        new hierarchy holding exactly the given paths. */
    method StoreNames(playerId: PlayerId, itemId: ItemId, paths: seq<CopyPath>)
      requires Valid()
      modifies this
      ensures Valid()
      ensures contents.saved == AfterStore(old(contents.saved), playerId, itemId, paths)
    {
      var namesForItem := NewHierarchy(paths);
      Install(playerId, itemId, namesForItem, paths);
    }

    /** The map updates of storeNames: the player's map of items is made if
        the player is new, and the item's hierarchy is put in it. */
    method Install(playerId: PlayerId, itemId: ItemId, namesForItem: NameHierarchyNode, ghost paths: seq<CopyPath>)
      requires Valid() && Sound(namesForItem) && namesForItem.items == StepsOf(paths)
      modifies this
      ensures Valid()
      ensures contents.saved == AfterStore(old(contents.saved), playerId, itemId, paths)
    {
      var hier := Put(nameHierarchy, playerId, itemId, namesForItem);
      ghost var saved' := AfterStore(contents.saved, playerId, itemId, paths);
      ghost var repr' := contents.Repr + {namesForItem} + namesForItem.Repr;
      HealthyStore(nameHierarchy, contents.saved, contents.Repr, playerId, itemId, namesForItem, paths,
                   hier, saved', repr');
      nameHierarchy, contents := hier, Contents(saved', repr');
    }

    /** clearNames: forgets every name saved by a player. */
    method ClearNames(playerId: PlayerId)
      requires Valid()
      modifies this
      ensures Valid()
      ensures contents.saved == old(contents.saved) - {playerId}
      ensures contents.Repr == old(contents.Repr)
    {
      HealthyRemove(nameHierarchy, contents.saved, contents.Repr, playerId);
      nameHierarchy, contents := nameHierarchy - {playerId}, contents.(saved := contents.saved - {playerId});
    }

    /** nameExists: whether a copy is saved under the path for the player and
        item; false for an unknown player or item. */
    method NameExists(playerId: PlayerId, itemId: ItemId, path: CopyPath) returns (b: bool)
      requires Valid()
      ensures b <==> playerId in contents.saved && itemId in contents.saved[playerId] && path.steps in contents.saved[playerId][itemId]
    {
      RootOf(nameHierarchy, contents.saved, contents.Repr, playerId, itemId);
      if playerId !in nameHierarchy {
        return false;
      }
      var namesForPlayer := nameHierarchy[playerId];
      if itemId !in namesForPlayer {
        return false;
      }
      var node := namesForPlayer[itemId].GetAt(path);
      b := node != null && node.isItem;
    }

    /** getNameSuggestions: the names that extend the preceding steps towards
        a path saved for the player and item, each once; empty for an unknown
        player or item, or steps that lead nowhere. */
    method GetNameSuggestions(playerId: PlayerId, itemId: ItemId, precedingSteps: CopyPath)
        returns (names: seq<string>)
      requires Valid()
      ensures forall n :: n in names <==> Suggested(contents.saved, playerId, itemId, precedingSteps.steps + [n])
      ensures forall a, b | 0 <= a < b < |names| :: names[a] != names[b]
    {
      if playerId !in nameHierarchy {
        return [];
      }
      var namesForPlayer := nameHierarchy[playerId];
      if itemId !in namesForPlayer {
        return [];
      }
      var namesForItem := namesForPlayer[itemId];
      BranchNames(nameHierarchy, contents.saved, contents.Repr, playerId, itemId, precedingSteps.steps);
      var branch := namesForItem.GetAt(precedingSteps);
      if branch == null {
        return [];
      }
      names := branch.GetChildNames();
    }

    /** getFolderSuggestions: the names that extend the preceding steps
        towards a path saved for the player and item without themselves being
        saved, each once; empty for an unknown player or item, or steps that
        lead nowhere. */
    method GetFolderSuggestions(playerId: PlayerId, itemId: ItemId, precedingSteps: CopyPath)
        returns (names: seq<string>)
      requires Valid()
      ensures forall n :: n in names <==>
                Suggested(contents.saved, playerId, itemId, precedingSteps.steps + [n])
                && precedingSteps.steps + [n] !in contents.saved[playerId][itemId]
    {
      if playerId !in nameHierarchy {
        return [];
      }
      var namesForPlayer := nameHierarchy[playerId];
      if itemId !in namesForPlayer {
        return [];
      }
      var namesForItem := namesForPlayer[itemId];
      BranchNames(nameHierarchy, contents.saved, contents.Repr, playerId, itemId, precedingSteps.steps);
      var branch := namesForItem.GetAt(precedingSteps);
      if branch == null {
        return [];
      }
      names := branch.GetChildFolderNames();
    }
  }
}
