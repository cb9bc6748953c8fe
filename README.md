# ItemCopy core, modelled in Dafny

ItemCopy is a Minecraft mod. It lets a player save a copy of the item in hand
under a path of names, such as `tools pickaxes best`, and paste it back later.
A player can also offer a copy to another player. This project models the
mod's logic outside the game:

- **Path sanitiser.** An ordered table of literal substitutions turns each
  path step into a name that is safe in a file name. The reverse rewriting
  recovers the step.
- **Copy paths.** Immutable lists of steps, with a count-prefixed wire
  format.
- **Name registry.** For each player and item, the server keeps a trie
  (prefix tree) of the names saved on that player's client. `storeNames`
  rebuilds an item's trie, `clearNames` forgets a player, and the trie
  answers name and folder suggestions and checks whether a name exists.
  `NamesPacket` carries a client's list to the server.
- **Sharing.**
  - Offers have a ten-minute lifespan.
  - The offer table is keyed by recipient and then by sender.
  - Accepting an offer removes it from the table.
  - Old offers are purged.
  - When an offer without item data is accepted, the sender's client sends
    the data in numbered packets, and the server reassembles them in index
    order.
- **Command helpers.** Arguments are split on whitespace, and an unfinished
  last step is dropped while the player is still typing. Suggestions are
  composed from the steps typed so far.
- **Paster.**
  - The paste request packet.
  - The save location of a copy: save directory, namespace, item path, then
    the sanitised steps, with `.itemnbt` on the last name.
  - The item check done before pasting.

The packet buffer is a FIFO sequence of tagged values (`Wire.Buffer`, holding
`IntVal` and `UtfVal`). Time is a parameter. NBT item data is an opaque
payload. A player's UUID is a 128-bit number (`Identifiers.PlayerId`). A
registry name is a namespace and a path (`Identifiers.ItemId`).

How each source form is modelled:

- **The trie.** It is a heap structure (`NameHierarchy.NameHierarchyNode`).
  The root carries ghost bookkeeping: the node at each path, the children of
  each path, and the set of saved paths.
- **The server's name map.** It is a class (`NameStore.CopyNamesServerStore`)
  whose map of roots is replaced by `storeNames` and `clearNames`.
- **The sharing tables.** They are a class (`Sharing.Sharer`) whose two map
  fields its methods update.
- **Loops.** The source's loops are methods with invariants, each proved
  against a specification function:
  - sanitising and desanitising;
  - cutting the data into parts and building the packets;
  - reassembly;
  - purging;
  - building a save location;
  - buffer reads and writes.

## Model

Source paths are under `src/main/java/scot/massie/mc/itemcopy/`.

| member | source | states |
|---|---|---|
| PathSanitiser.TableRows | src/main/java/scot/massie/mc/itemcopy/PathSanitiser.java:14-27 | the table has eleven rows, each replacing one special character, and the row for `§` comes first |
| PathSanitiser.TableTokens | src/main/java/scot/massie/mc/itemcopy/PathSanitiser.java:16-26 | every token is `§` followed by at least three upper-case letters |
| PathSanitiser.TableForbidden | src/main/java/scot/massie/mc/itemcopy/PathSanitiser.java:17-26 | the characters of rows 1 to 10 are exactly the ten characters a file name may not contain |
| PathSanitiser.TokensPrefixFree | src/main/java/scot/massie/mc/itemcopy/PathSanitiser.java:16-26 | no token is a prefix of another |
| PathSanitiser.ReplaceAtMatch | src/main/java/scot/massie/mc/itemcopy/PathSanitiser.java:33-34 | replace-all rewrites an occurrence at the front and carries on after it, so matches do not overlap |
| PathSanitiser.ReplaceSkip | src/main/java/scot/massie/mc/itemcopy/PathSanitiser.java:33-34 | replace-all leaves alone a prefix that cannot start a match |
| PathSanitiser.ForwardStep | src/main/java/scot/massie/mc/itemcopy/PathSanitiser.java:29-37 | applying row k of the table to the text with rows 0 to k-1 applied gives the text with rows 0 to k applied |
| PathSanitiser.BackwardStep | src/main/java/scot/massie/mc/itemcopy/PathSanitiser.java:42-50 | undoing row k of the table removes exactly what applying row k added |
| PathSanitiser.Sanitise | src/main/java/scot/massie/mc/itemcopy/PathSanitiser.java:29-37 | the loop over the table in order computes the sanitised name |
| PathSanitiser.Desanitise | src/main/java/scot/massie/mc/itemcopy/PathSanitiser.java:42-50 | the loop over the table in reverse order computes the desanitised step |
| PathSanitiser.RoundTrip | src/main/java/scot/massie/mc/itemcopy/PathSanitiser.java:14-50 | desanitising a sanitised step gives back that step, for every string |
| PathSanitiser.SanitisedHasNoForbidden | src/main/java/scot/massie/mc/itemcopy/PathSanitiser.java:17-37 | a sanitised name contains none of the ten characters a file name may not contain (slash, backslash, dot, colon, asterisk, double quote, vertical bar, both angle brackets, question mark) |
| PathSanitiser.MarkerBeginsToken | src/main/java/scot/massie/mc/itemcopy/PathSanitiser.java:16-37 | every `§` in a sanitised name begins one of the table's tokens, and only one |
| PathSanitiser.SanitisePlain | src/main/java/scot/massie/mc/itemcopy/PathSanitiser.java:29-37 | a step with none of the eleven special characters is left as it is |
| PathSanitiser.DesanitisePlain | src/main/java/scot/massie/mc/itemcopy/PathSanitiser.java:42-50 | a name without `§` is left as it is |
| PathSanitiser.SanitisedAll | src/main/java/scot/massie/mc/itemcopy/PathSanitiser.java:39-40 | the list overload keeps length and order and sanitises each element |
| PathSanitiser.DesanitisedAll | src/main/java/scot/massie/mc/itemcopy/PathSanitiser.java:52-53 | the list overload keeps length and order and desanitises each element |
| PathSanitiser.RoundTripAll | src/main/java/scot/massie/mc/itemcopy/PathSanitiser.java:39-53 | desanitising a sanitised list gives back the list |
| CopyPaths.IsEmpty | src/main/java/scot/massie/mc/itemcopy/CopyPath.java:48-52 | a path is empty exactly when its length is 0 |
| CopyPaths.EmptyHasNoSteps | src/main/java/scot/massie/mc/itemcopy/CopyPath.java:13-24 | the empty path has no steps, and it is the only path that is empty |
| CopyPaths.FromArray | src/main/java/scot/massie/mc/itemcopy/CopyPath.java:17-21 | the path built from an array holds its elements in order, and its length is the array's |
| CopyPaths.StepsSanitised | src/main/java/scot/massie/mc/itemcopy/CopyPath.java:40-41 | same length as the steps, and element i is step i sanitised |
| CopyPaths.StepsSanitisedRecoverable | src/main/java/scot/massie/mc/itemcopy/CopyPath.java:40-41 | desanitising the sanitised steps gives back the steps |
| CopyPaths.DecodeEncode | src/main/java/scot/massie/mc/itemcopy/CopyPath.java:26-35 | reading what was written gives back the path and leaves exactly what followed it |
| CopyPaths.EncodeDecode | src/main/java/scot/massie/mc/itemcopy/CopyPath.java:26-35 | whatever reads successfully is the encoding of the path read, followed by the rest |
| CopyPaths.DecodeNegativeCount | src/main/java/scot/massie/mc/itemcopy/CopyPath.java:28-29 | a negative step count is refused |
| CopyPaths.WriteToBuf | src/main/java/scot/massie/mc/itemcopy/CopyPath.java:54-60 | appends the step count and then each step in order |
| CopyPaths.ReadFromBuf | src/main/java/scot/massie/mc/itemcopy/CopyPath.java:26-35 | succeeds exactly when the buffer holds an encoded path; returns that path and consumes exactly its encoding |
| Wire.UtfsSnoc | src/main/java/scot/massie/mc/itemcopy/CopyPath.java:57-58 | writing one more string appends one value |
| Wire.TakeUtfsOfUtfs | src/main/java/scot/massie/mc/itemcopy/CopyPath.java:31-32 | reading n strings from n written strings gives them back with the rest untouched |
| Wire.TakeUtfsInverse | src/main/java/scot/massie/mc/itemcopy/CopyPath.java:31-32 | reading n strings successfully consumed exactly those n strings |
| Wire.Buffer.WriteUtfs | src/main/java/scot/massie/mc/itemcopy/CopyPath.java:57-58 | the loop appends each string in order |
| Identifiers.ParseToText | src/main/java/scot/massie/mc/itemcopy/CopyNamesServerStore.java:82-91 | a valid registry name read back from its text is the same name |
| Identifiers.ParseDefaultNamespace | src/main/java/scot/massie/mc/itemcopy/CopyNamesServerStore.java:91 | a name without a namespace gets the default namespace |
| NamesPackets.DecodeEncode | src/main/java/scot/massie/mc/itemcopy/CopyNamesServerStore.java:80-99 | decoding an encoded names packet gives back the item and every path, and leaves the rest |
| NamesPackets.EncodeDecode | src/main/java/scot/massie/mc/itemcopy/CopyNamesServerStore.java:80-99 | a successfully decoded packet was encoded in exactly the values it consumed |
| NamesPackets.TakePathsOfEncoded | src/main/java/scot/massie/mc/itemcopy/CopyNamesServerStore.java:95-96 | reading n paths from n written paths gives them back |
| NamesPackets.TakePathsInverse | src/main/java/scot/massie/mc/itemcopy/CopyNamesServerStore.java:95-96 | reading n paths successfully consumed exactly their encodings |
| NamesPackets.DecodeNegativeCount | src/main/java/scot/massie/mc/itemcopy/CopyNamesServerStore.java:92-96 | a negative path count decodes to no packet |
| NamesPackets.WriteToBuf | src/main/java/scot/massie/mc/itemcopy/CopyNamesServerStore.java:80-87 | appends the item id, the count and each path in order |
| NamesPackets.ReadFromBuf | src/main/java/scot/massie/mc/itemcopy/CopyNamesServerStore.java:89-99 | succeeds exactly when the buffer holds an encoded packet; returns it and consumes exactly its encoding |
| NameHierarchy.Prefixes | src/main/java/scot/massie/mc/itemcopy/CopyNamesServerStore.java:152-160 | the paths makeAt passes through include the root and the path itself |
| NameHierarchy.PrefixesExact | src/main/java/scot/massie/mc/itemcopy/CopyNamesServerStore.java:152-160 | those paths are exactly the prefixes of the path |
| NameHierarchy.NamesOf | src/main/java/scot/massie/mc/itemcopy/CopyNamesServerStore.java:120-128 | the names of the children, one per child, in order |
| NameHierarchy.FolderNamesOf | src/main/java/scot/massie/mc/itemcopy/CopyNamesServerStore.java:130-139 | exactly the names of the children that are not items |
| NameHierarchy.FolderNamesAreNames | src/main/java/scot/massie/mc/itemcopy/CopyNamesServerStore.java:120-139 | every folder name is a child name |
| NameHierarchy.NameHierarchyNode.constructor | src/main/java/scot/massie/mc/itemcopy/CopyNamesServerStore.java:108 | a new node is a childless root that is not an item |
| NameHierarchy.NameHierarchyNode.GetChild | src/main/java/scot/massie/mc/itemcopy/CopyNamesServerStore.java:111-118 | null exactly when no child has the name, else a child with that name |
| NameHierarchy.NameHierarchyNode.GetOrMakeChild | src/main/java/scot/massie/mc/itemcopy/CopyNamesServerStore.java:141-150 | returns the existing child with the name, or appends exactly one new non-item child; sibling names stay distinct and the saved paths are unchanged |
| NameHierarchy.NameHierarchyNode.MakeAt | src/main/java/scot/massie/mc/itemcopy/CopyNamesServerStore.java:152-160 | adds every prefix of the path, keeps existing nodes, marks exactly the path as saved, and changes nothing when the path was already saved |
| NameHierarchy.NameHierarchyNode.GetAt | src/main/java/scot/massie/mc/itemcopy/CopyNamesServerStore.java:162-175 | null exactly when the path is not in the trie, else the node at that path (the root for the empty path) |
| NameHierarchy.NameHierarchyNode.GetChildNames | src/main/java/scot/massie/mc/itemcopy/CopyNamesServerStore.java:120-128 | the loop collects the children's names in order |
| NameHierarchy.NameHierarchyNode.GetChildFolderNames | src/main/java/scot/massie/mc/itemcopy/CopyNamesServerStore.java:130-139 | the loop collects the names of the children that are not items |
| NameHierarchy.ChildNamesExact | src/main/java/scot/massie/mc/itemcopy/CopyNamesServerStore.java:120-128 | at a node, a name is a child name exactly when the path extended by it is in the trie |
| NameHierarchy.FolderNamesExact | src/main/java/scot/massie/mc/itemcopy/CopyNamesServerStore.java:130-139 | at a node, a name is a folder name exactly when the extended path is in the trie and not saved |
| NameHierarchy.PrefixClosed | src/main/java/scot/massie/mc/itemcopy/CopyNamesServerStore.java:141-160 | every prefix of a path in the trie is in the trie |
| NameStore.SpreadLeads | src/main/java/scot/massie/mc/itemcopy/CopyNamesServerStore.java:152-160 | the paths a trie holds after saving some paths are exactly those that lead towards a saved path |
| NameStore.AfterStore | src/main/java/scot/massie/mc/itemcopy/CopyNamesServerStore.java:339-352 | only the item's saved paths change, and they become exactly the given paths; other items and players are kept |
| NameStore.StoredNamesExist | src/main/java/scot/massie/mc/itemcopy/CopyNamesServerStore.java:307-352 | after storeNames, a name exists for the player and item exactly when it is one of the paths given |
| NameStore.NewHierarchy | src/main/java/scot/massie/mc/itemcopy/CopyNamesServerStore.java:345-350 | a new root in which each path is made in turn holds exactly those paths |
| NameStore.HealthyStore | src/main/java/scot/massie/mc/itemcopy/CopyNamesServerStore.java:339-352 | putting the new root in the map keeps every trie of the store sound |
| NameStore.HealthyRemove | src/main/java/scot/massie/mc/itemcopy/CopyNamesServerStore.java:362-366 | dropping a player keeps every other trie sound |
| NameStore.BranchNames | src/main/java/scot/massie/mc/itemcopy/CopyNamesServerStore.java:269-305 | at a path in the trie, the child names are exactly the names that lead towards a saved path, each once, and the folder names are those that are not saved themselves; from a path outside the trie no name leads anywhere |
| NameStore.CopyNamesServerStore.constructor | src/main/java/scot/massie/mc/itemcopy/CopyNamesServerStore.java:230 | the store starts knowing no player |
| NameStore.CopyNamesServerStore.StoreNames | src/main/java/scot/massie/mc/itemcopy/CopyNamesServerStore.java:339-352 | the item's saved paths become exactly the given ones; everything else is kept |
| NameStore.CopyNamesServerStore.ClearNames | src/main/java/scot/massie/mc/itemcopy/CopyNamesServerStore.java:362-366 | every name of the player is forgotten; other players are kept |
| NameStore.CopyNamesServerStore.NameExists | src/main/java/scot/massie/mc/itemcopy/CopyNamesServerStore.java:307-324 | true exactly when the path is saved for the player and item; false for an unknown player or item |
| NameStore.CopyNamesServerStore.GetNameSuggestions | src/main/java/scot/massie/mc/itemcopy/CopyNamesServerStore.java:269-286 | exactly the names that extend the typed steps towards a saved path, each once; empty for an unknown player, item or path |
| NameStore.CopyNamesServerStore.GetFolderSuggestions | src/main/java/scot/massie/mc/itemcopy/CopyNamesServerStore.java:288-305 | exactly those suggestions that are not saved paths themselves |
| ShareOffers.PathOffer | src/main/java/scot/massie/mc/itemcopy/Sharer.java:78-84 | an offer of a saved copy has no data, and the recipient's path defaults to the sender's |
| ShareOffers.DataOffer | src/main/java/scot/massie/mc/itemcopy/Sharer.java:86-92 | an offer of the item in hand has its data, no sender path, and the recipient path given |
| ShareOffers.ExpiryBoundary | src/main/java/scot/massie/mc/itemcopy/Sharer.java:94-95 | an offer has expired exactly when more than 600000 ms have passed since its time stamp: open at that instant, expired one millisecond later |
| ShareOffers.ExpiryIsPermanent | src/main/java/scot/massie/mc/itemcopy/Sharer.java:94-95 | once expired, an offer stays expired |
| ShareOffers.WithNewTimeStamp | src/main/java/scot/massie/mc/itemcopy/Sharer.java:100-101 | changes the time stamp and nothing else |
| ShareOffers.WithRecipientCopyPath | src/main/java/scot/massie/mc/itemcopy/Sharer.java:106-107 | changes the recipient's copy path and nothing else |
| ShareOffers.WithersIndependent | src/main/java/scot/massie/mc/itemcopy/Sharer.java:94-107 | the two withers commute, keep whether data is held, and a new time stamp makes the offer fresh |
| ShareOffers.NextId | src/main/java/scot/massie/mc/itemcopy/Sharer.java:72-76 | the next id is one more, below the top of the Java int range |
| ShareOffers.IdAfterStep | src/main/java/scot/massie/mc/itemcopy/Sharer.java:72-76 | n+1 ids after the start is the id after n ids after the start |
| ShareOffers.IdsDistinct | src/main/java/scot/massie/mc/itemcopy/Sharer.java:41-76 | no id is handed out twice within 2^32 requests |
| ShareOffers.RequestFor | src/main/java/scot/massie/mc/itemcopy/Sharer.java:235-236 | the request carries the offer's id, item and sender path |
| ShareOffers.DecodeEncodePacket | src/main/java/scot/massie/mc/itemcopy/Sharer.java:289-305 | decoding an encoded fulfilment packet gives it back, with the rest untouched |
| ShareOffers.EncodeDecodePacket | src/main/java/scot/massie/mc/itemcopy/Sharer.java:289-305 | a decoded packet was encoded in exactly the values it consumed |
| ShareOffers.Chunks | src/main/java/scot/massie/mc/itemcopy/Sharer.java:705-713 | every part is non-empty and at most 7935 characters long, and all parts but the last are exactly that long |
| ShareOffers.ChunksConcat | src/main/java/scot/massie/mc/itemcopy/Sharer.java:705-713 | the parts concatenate back to the data |
| ShareOffers.ChunksCount | src/main/java/scot/massie/mc/itemcopy/Sharer.java:698-713 | the part size is (32767-1024)/4 = 7935, and the number of parts is the length divided by that, rounded up (none for empty data) |
| ShareOffers.PacketsFor | src/main/java/scot/massie/mc/itemcopy/Sharer.java:715-719 | packet i carries part i, number i, the offer id and the part count as its total |
| ShareOffers.CutData | src/main/java/scot/massie/mc/itemcopy/Sharer.java:705-713 | the cutting loop produces exactly the parts; it fails exactly when the data is longer than 2147480790 characters, where the end index overflows a Java `int` and `substring` throws |
| ShareOffers.LongestDataCutIsFirstOverflow | src/main/java/scot/massie/mc/itemcopy/Sharer.java:705-708 | 2147480790 is the first multiple of the part length at which adding one more part length passes the largest Java `int` |
| ShareOffers.WrapParts | src/main/java/scot/massie/mc/itemcopy/Sharer.java:715-719 | the packet loop produces exactly the packets for the parts |
| ShareOffers.CreateOfferFulfilmentPackets | src/main/java/scot/massie/mc/itemcopy/Sharer.java:696-722 | the packets for the data's parts, with a count that fits a Java int; no packets exactly when the data is longer than 2147480790 characters and the cutting throws |
| ShareOffers.ReceiveContents | src/main/java/scot/massie/mc/itemcopy/Sharer.java:516 | packets with distinct numbers are each held under their own number, whatever the order of arrival, and nothing else changes |
| ShareOffers.ReceiveCount | src/main/java/scot/massie/mc/itemcopy/Sharer.java:516 | receiving new distinct packets adds one entry each |
| ShareOffers.ReassembledIndexed | src/main/java/scot/massie/mc/itemcopy/Sharer.java:525-531 | with packet i holding part i, joining the first n parts in index order gives their concatenation |
| ShareOffers.ReassemblyInAnyOrder | src/main/java/scot/massie/mc/itemcopy/Sharer.java:516-531 | in whatever order the packets arrive, each declares the full count, no earlier prefix of arrivals is complete, and once all have arrived the reassembled data is the original data |
| Sharing.PacketCountRequired | src/main/java/scot/massie/mc/itemcopy/Sharer.java:184-190 | -1 when nothing was received, else the total declared by one of the received packets |
| Sharing.HonestTotals | src/main/java/scot/massie/mc/itemcopy/Sharer.java:184-190 | when all packets declare the same total, that total is the only choice |
| Sharing.StoreStepKeepsValid | src/main/java/scot/massie/mc/itemcopy/Sharer.java:490-546 | filing a packet keeps every entry being processed filed under its own id and packet numbers |
| Sharing.StoreStepHonest | src/main/java/scot/massie/mc/itemcopy/Sharer.java:184-190 | when the packets agree on their total, the outcome does not depend on which one the count is read from |
| Sharing.StoreStepReassembles | src/main/java/scot/massie/mc/itemcopy/Sharer.java:516-531 | storing a sender's packets one by one waits until the last, then removes the offer and yields the original data |
| Sharing.Unexpired | src/main/java/scot/massie/mc/itemcopy/Sharer.java:603-610 | exactly the offers not yet expired, unchanged |
| Sharing.Reassemble | src/main/java/scot/massie/mc/itemcopy/Sharer.java:525-531 | the loop joins the parts 0..count-1 in index order, and gives none when one is missing |
| Sharing.NoPartNoData | src/main/java/scot/massie/mc/itemcopy/Sharer.java:525-531 | once a part is missing, reassembling more parts still fails |
| Sharing.Sharer.constructor | src/main/java/scot/massie/mc/itemcopy/Sharer.java:347-348 | both tables start empty and the id counter at 0 |
| Sharing.Sharer.GetNewId | src/main/java/scot/massie/mc/itemcopy/Sharer.java:72-76 | returns the counter and advances it, wrapping as a Java int |
| Sharing.Sharer.AddOffer | src/main/java/scot/massie/mc/itemcopy/Sharer.java:416-419 | files the offer under its recipient and sender, replacing any earlier offer between the two |
| Sharing.Sharer.AddPathOffer | src/main/java/scot/massie/mc/itemcopy/Sharer.java:393-403 | files a new path offer with a fresh id and the current time; other pairs are kept |
| Sharing.Sharer.AddDataOffer | src/main/java/scot/massie/mc/itemcopy/Sharer.java:406-414 | files a new data offer with a fresh id, the default recipient path and the current time |
| Sharing.Sharer.AcceptOffer | src/main/java/scot/massie/mc/itemcopy/Sharer.java:444-480 | no offer exactly when none is filed for the pair; otherwise removes it, applies any override path, and either delivers its data or files it as being processed under its id and asks for the data |
| Sharing.Sharer.StoreOfferFulfilmentParts | src/main/java/scot/massie/mc/itemcopy/Sharer.java:490-546 | one filing step: drops a packet for an unknown offer or from the wrong sender, else files it, and once the count is reached removes the entry and reassembles |
| Sharing.Sharer.GetIdsOfPlayersOffering | src/main/java/scot/massie/mc/itemcopy/Sharer.java:582-593 | exactly the senders with an open offer to the player, each once; empty for an unknown player |
| Sharing.Sharer.PurgeOldOffersAsWritten | src/main/java/scot/massie/mc/itemcopy/Sharer.java:595-612 | the purge as written: fails exactly when some recipient's map is empty, removes only expired offers, and leaves every map either untouched or purged of all expired offers but the last one visited, never emptying it; when it completes every map is purged that way |
| Sharing.Sharer.PurgeOldOffers | src/main/java/scot/massie/mc/itemcopy/Sharer.java:595-612 | the corrected purge: each recipient keeps exactly the offers not yet expired |
| Sharing.PurgeMapsAsWritten | src/main/java/scot/massie/mc/itemcopy/Sharer.java:601-611 | the purge loop as written, over the whole table: fails exactly when some map is empty, and each map is untouched or purged of all expired offers but one, every map when it completes |
| Sharing.PurgeMaps | src/main/java/scot/massie/mc/itemcopy/Sharer.java:601-611 | the corrected purge loop, over the whole table |
| Sharing.PurgeExpired | src/main/java/scot/massie/mc/itemcopy/Sharer.java:603-610 | the corrected inner loop keeps exactly the unexpired offers |
| Sharing.AcceptIsSingleUse | src/main/java/scot/massie/mc/itemcopy/Sharer.java:450-454 | accepting the same pair twice: the second finds no offer |
| Sharing.LoneExpiredOfferSurvives | src/main/java/scot/massie/mc/itemcopy/Sharer.java:603-610 | with the purge as written, a recipient's only offer survives after it has expired |
| Sharing.PurgeAfterAcceptThrows | src/main/java/scot/massie/mc/itemcopy/Sharer.java:603-607 | accepting a recipient's only offer leaves an empty map, and the purge as written then fails |
| Sharing.LoneExpiredOfferPurged | src/main/java/scot/massie/mc/itemcopy/Sharer.java:595-612 | the corrected purge removes that offer |
| CommandHandler.TrimEmpty | src/main/java/scot/massie/mc/itemcopy/CommandHandler.java:149 | trimming gives the empty string exactly when every character is at or below a space |
| CommandHandler.FieldsHaveNoWhitespace | src/main/java/scot/massie/mc/itemcopy/CommandHandler.java:152 | the runs between whitespace contain no whitespace |
| CommandHandler.SplitArguments | src/main/java/scot/massie/mc/itemcopy/CommandHandler.java:147-153 | every token is non-empty and free of whitespace, and there are no tokens exactly when every character is at or below a space |
| CommandHandler.SplitCollapse | src/main/java/scot/massie/mc/itemcopy/CommandHandler.java:147-153 | the tokens joined by single spaces are the trimmed text with each whitespace run, however long and of whatever characters, collapsed to one space; other characters trim would remove stay in the tokens |
| CommandHandler.JoinFieldsCollapse | src/main/java/scot/massie/mc/itemcopy/CommandHandler.java:152 | between a first and last character outside `\s`, the non-empty fields joined by single spaces are the collapsed text |
| CommandHandler.NonEmptyFieldsDrop | src/main/java/scot/massie/mc/itemcopy/CommandHandler.java:152 | leading whitespace adds no token |
| CommandHandler.TrimStart | src/main/java/scot/massie/mc/itemcopy/CommandHandler.java:149 | a suffix of the text that does not start with a character at or below a space |
| CommandHandler.TrimStartRemovesTrimmable | src/main/java/scot/massie/mc/itemcopy/CommandHandler.java:149 | every character removed from the front is at or below a space |
| CommandHandler.TrimEnd | src/main/java/scot/massie/mc/itemcopy/CommandHandler.java:149 | a prefix of the text that does not end with a character at or below a space |
| CommandHandler.TrimEndRemovesTrimmable | src/main/java/scot/massie/mc/itemcopy/CommandHandler.java:149 | every character removed from the end is at or below a space |
| CommandHandler.SplitJoin | src/main/java/scot/massie/mc/itemcopy/CommandHandler.java:147-153 | splitting steps joined by single spaces gives back the steps |
| CommandHandler.SplitIgnoresTrailingSpace | src/main/java/scot/massie/mc/itemcopy/CommandHandler.java:147-153 | a trailing space does not change the tokens |
| CommandHandler.GetCopyPath | src/main/java/scot/massie/mc/itemcopy/CommandHandler.java:158-185 | the copying loop computes the path as the source builds it |
| CommandHandler.BlankArgumentThrows | src/main/java/scot/massie/mc/itemcopy/CommandHandler.java:172-177 | while typing, a blank argument yields no path: the list of capacity -1 throws |
| CommandHandler.CopyPathOf | src/main/java/scot/massie/mc/itemcopy/CommandHandler.java:158-185 | no argument gives the empty path, and every step is non-empty |
| CommandHandler.CopyPathOfAgrees | src/main/java/scot/massie/mc/itemcopy/CommandHandler.java:169-184 | the corrected path equals the source's wherever the source gives one, and the source fails exactly on a blank argument while typing |
| CommandHandler.ComposeSuggestions | src/main/java/scot/massie/mc/itemcopy/CommandHandler.java:57-68 | each suggestion is prefixed by the steps joined with single spaces and one more space, or passed unchanged when there are no steps |
| CommandHandler.ComposedIsJoin | src/main/java/scot/massie/mc/itemcopy/CommandHandler.java:57-68 | a composed suggestion is the steps and the suggestion joined with single spaces |
| CommandHandler.SuggestionSplits | src/main/java/scot/massie/mc/itemcopy/CommandHandler.java:57-68 | splitting a composed suggestion gives the steps followed by the suggestion |
| CommandHandler.SuggestionWhileTyping | src/main/java/scot/massie/mc/itemcopy/CommandHandler.java:172-184 | while the suggestion is unfinished, the path read back is the steps before it |
| CommandHandler.SuggestionAccepted | src/main/java/scot/massie/mc/itemcopy/CommandHandler.java:172-184 | once a space follows the suggestion, the path read back includes it |
| Paster.PasteItem | src/main/java/scot/massie/mc/itemcopy/Paster.java:96-104 | an item without a registry name is refused; otherwise the request carries the id's namespace and path and the copy path |
| Paster.DecodeEncode | src/main/java/scot/massie/mc/itemcopy/Paster.java:51-72 | decoding an encoded request gives back namespace, path and every step |
| Paster.EncodeDecode | src/main/java/scot/massie/mc/itemcopy/Paster.java:51-72 | a request decoded with a non-negative count was encoded in exactly the values it consumed |
| Paster.DecodeNegativeCount | src/main/java/scot/massie/mc/itemcopy/Paster.java:61-72 | a negative step count decodes to an empty copy path |
| Paster.EncodeTo | src/main/java/scot/massie/mc/itemcopy/Paster.java:51-59 | appends namespace, path, step count, then each step in order |
| Paster.DecodeFrom | src/main/java/scot/massie/mc/itemcopy/Paster.java:61-72 | succeeds exactly when the buffer holds an encoded request; returns it and consumes exactly its encoding |
| Paster.WithExtension | src/main/java/scot/massie/mc/itemcopy/Paster.java:126 | the extension goes on the last name only, with the other names kept |
| Paster.ComputeSaveLocation | src/main/java/scot/massie/mc/itemcopy/Paster.java:117-126 | the loop over the sanitised steps builds the save location |
| Paster.DescendNonEmpty | src/main/java/scot/massie/mc/itemcopy/Paster.java:123-124 | descending through non-empty names appends them |
| Paster.SaveLocationShape | src/main/java/scot/massie/mc/itemcopy/Paster.java:117-126 | the location is saveDir/namespace/itemPath/sanitised steps with `.itemnbt` on the last name; an empty copy path gives saveDir/namespace/itemPath.itemnbt |
| Paster.SaveLocationInjective | src/main/java/scot/massie/mc/itemcopy/Paster.java:117-126 | different copy paths of one item have different save locations |
| Paster.HandlePasteRequest | src/main/java/scot/massie/mc/itemcopy/Paster.java:115-169 | nothing is pasted when no file is at the save location, or when the item in hand is missing or has another namespace or path; otherwise the file's data is pasted |

## Left out

- File-system I/O is not modelled. This covers the client-side `provideAllAvailableNames`, `provideRefreshedInfo`, `getAvailablePaths` and `setupClient` (directory listing and file monitoring), and `Sharer.fulfilOffer` and `Sharer.acceptItemData`. `Paster.HandlePasteRequest` takes the client's files as a map from location to contents, and a read error is not modelled.
- Networking plumbing is not modelled. This covers channel registration, `enqueueWork`, the packet handlers that only look up the sender's UUID, `RefreshRequestPacket`, `WipeNamesPacket`, `ProvideOfferItemDataPacket` and the `PacketDistributor` sends, including `deliverOfferFulfilmentToRecipient`. Outbound packets are values returned by the methods (`AcceptOutcome`, `StoreOutcome`, `PasteItem`).
- The `synchronized` blocks are not modelled: each locked operation is one atomic method. The `Timer` of `startPurgeRoutine` and `stopPurgeRoutine` is left out, and `System.currentTimeMillis()` is a parameter.
- NBT is an opaque payload. `JsonToNBT.parseTag`, and with it the tag set in `handlePasteRequest`, is left out: the outcome carries the file's text.
- Minecraft player lookup, chat messages, permissions and the command bodies are game glue and are left out, as are `getNamesOfPlayersOffering` and the rest of `getCopyPathSuggester` around the composition.
- The String lengths that `writeUtf`/`readUtf` limit are not modelled: every string fits on the wire.
- `CopyPath.defaultPath` is not defined in CopyPath.java. It is the constant `defaultPath` a `Sharing.Sharer` is built with.
- CopyPath's constructor copies its list and its `iterator` reads the steps in order. Both hold by construction, since a `CopyPath` is an immutable sequence of steps, so there is no separate member.
- `HashMap` iteration order is left open. `GetIdsOfPlayersOffering`, `PacketCountRequired` and the purge loops may visit keys in any order, and their contracts hold for every order.
- Sharing.PacketCountRequired: the count comes from an arbitrary received packet, as in the source. The contract only says it is one of the declared totals, and `StoreStepHonest` shows that the choice does not matter when the sender's packets agree.
- Offers stuck in `offersBeingProcessed` never expire or leave the table, as in the source. No member states anything about them beyond what `StoreOfferFulfilmentParts` does.
- NameHierarchy.NameHierarchyNode.MakeAt: on a path that was already saved, the contract says the trie's paths, nodes and saved set are unchanged. It does not restate that the order of each node's children is unchanged.
- NameStore.CopyNamesServerStore.StoreNames: the source puts the new root in the map before filling it, while the model fills it first and then puts it. Nothing can observe the difference inside one atomic call.
- ShareOffers.NextId: the increment wraps as a Java `int` does. `IdsDistinct` therefore promises distinct ids only within 2^32 calls, not forever.
- ShareOffers.ExpiryBoundary: the code tests `currentTime > timeStamp + lifespan`, so an offer is still open at exactly the end of its lifespan and expires one millisecond later; the model follows the code.
- ShareOffers.CreateOfferFulfilmentPackets: data longer than 2147480790 characters makes the source's end index wrap negative and `substring` throw; the model returns no packets there instead of modelling the exception. Its precondition only says that a Java `String` has at most 2147483647 characters.

## Findings

| source | as written | input that shows it | evidently intended | confidence | as-written member | corrected member |
|---|---|---|---|---|---|---|
| src/main/java/scot/massie/mc/itemcopy/Sharer.java:603-610 | the loop calls `next()` before `hasNext()` and tests an offer only when another follows it | a recipient with one offer, expired by a minute; or a recipient whose only offer was just accepted, leaving an empty map | every expired offer is removed, and an empty map is skipped | not executed | Sharing.Sharer.PurgeOldOffersAsWritten | Sharing.Sharer.PurgeOldOffers |
| src/main/java/scot/massie/mc/itemcopy/CommandHandler.java:172-177 | while typing, `new ArrayList<>(copyPathSteps.size() - 1)` is built even when there are no steps | the argument text `"\t"` with suggestions on | a blank argument gives the empty path | not executed | CommandHandler.BlankArgumentThrows | CommandHandler.CopyPathOf |

The as-written purge is shown failing by `Sharing.LoneExpiredOfferSurvives` and `Sharing.PurgeAfterAcceptThrows`. `Sharing.LoneExpiredOfferPurged` shows the corrected purge removing the offer. `CommandHandler.CopyPathOfAgrees` relates the corrected path to the path as written.
