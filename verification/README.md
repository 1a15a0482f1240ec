# Verified models of libfdt, KidVPN and alias allocation

Dafny models of three parts of SylixOS, with machine-checked proofs of what they promise.

**libfdt** (`SylixOS/driver/fdt`) keeps a device tree in one flat byte buffer: header, reserve map,
structure block and strings block, as sections 5.2 to 5.6 of the Devicetree Specification lay them
out. The model works on the bytes. Read-only functions take a byte sequence, editing functions an
array that they change in place with moves and stores. `Holds(b, t)` says that blob `b` holds tree
`t`; every edit is proved to turn a blob that holds `t` into one that holds the edited `t`.

| file | contents |
|---|---|
| Bytes, DeviceTree, Lexer, Blob | words and alignment; trees and their events; the tag scanner and item boundaries; header, blocks, memory moves |
| Walk, Traverse, TreeWalk | the depth-counting walks on events, their loops on bytes, and what they return in terms of the tree |
| Splice, Edit, Rewrite, ReadWrite, NodeEdit | splices, tree edits, and the read-write calls that connect them |
| Merge, MergeKeeps, Overlay | the recursive merge of two trees, what it keeps, and `overlay_apply_node` on blobs |
| Phandles, PhandleBytes, InPlace, RefBytes, AdjustExact | renumbering, in-place writes that move nothing, local references, and exactly when both succeed |
| AllNodes, Paths, Fixups, Symbols, FixupsExact | searches over all nodes and by path, the `__fixups__` parser, external references and what they store |
| Ancestors, NodePaths | `fdt_next_node` with a depth, ancestors, and `fdt_get_path` into the blob that it walks |
| Fragments, SymbolUpdate, ApplyOverlay | targets and `overlay_merge`, the symbols of an overlay, and `fdt_overlay_apply` as one call |
| SeqWrite, Finish, Resize, Writer | the sequential writer, its phases, and any calls in any order |
| Relocate | `fdt_open_into` and `fdt_pack` under any overlap |

**KidVPN** (`SylixOS/kidvpn`) is a small distributed protocol. `ClientTable` is the hash table of
doubly linked chains as heap objects; `KidVpn` says what each handler does to the records, `Server`
and `Client` prove that the heap code does that, `History` and `PeerLife` reason about whole
histories, `Network` about all runs of a server and any number of clients, `Framing` about padding,
the block cipher and the cut at the receiver.

**Alias allocation** (`SylixOS/driver/fdt/fdtdec.c`) is in `Aliases`.

Methods carry ghost parameters (the tree, the path of a node, the calls taken so far) that name the
abstract value; they do not exist at run time. The read-only lookups follow their bodies in
`SylixOS/driver/fdt/fdt_ro.c`; the table cites their contracts in `libfdt.h` where those say what is proved.
`dafny verify dfyconfig.toml` checks everything.

## Where the code does not do what it should

- A property of length 0xfffffff4 makes `fdt_next_tag` return the offset it was given (`Lexer.StuckScanner`); lengths from there on wrap the sum and are not skipped whole (`Lexer.PropSkippedWhole`).
- The room check of the sequential writer for names compares unsigned values and lets a name through that is longer than the buffer (`SeqWrite.NoRoomWraps`); it is right exactly when the strings are no longer than the buffer (`SeqWrite.NoRoomExact`).
- `fdt_add_subnode` takes the parent offset -FDT_ERR_NOTFOUND, which a failed lookup returns, for a name that was not found: it splices the node in before the structure block, and what is left holds no tree (`NodeEdit.MisplacedHoldsNothing`). Other bad offsets change nothing.
- The length check of in-place writes wraps for positions from 0xfffffffc on and lets them through (`Phandles.TooLongWraps`); it is right exactly when the sum does not wrap or the value is shorter than the wrapped sum (`Phandles.TooLongExact`). An overlay that lists such a position is accepted (`Phandles.PassesExact`). With 64-bit pointers the word is not shifted and the blob is unchanged; with 32-bit pointers position 0xfffffffc is the word before the value, and the name offset of the property is overwritten (`PhandleBytes.NameOverwritten`).
- The symbols that an overlay adds to the base end in two NULs, because the copied length counts the first: the same function would refuse them (`SymbolUpdate.NewValueRefused`).
- The path that `fdt_get_path` writes leads to an earlier sibling if that one's name is the same with a unit address behind it; it leads back exactly if no earlier sibling matches (`NodePaths.PathRoundTrip`). The symbols of such nodes lead elsewhere.
- `fdt_pack` and `fdt_open_into` compute a size of -112 from a reserve map without an end (`Relocate.RsvSizeExact`, with the blob `Relocate.UnendedBlob`); a caller can ask `fdt_num_mem_rsv` first.
- KidVPN receives packets and reads device frames of up to 1506 bytes, of which those of 1505 and 1506 are padded beyond its buffers when decoded or encoded (`Framing.InBoundsExact`).
- An overlay phandle of 0 collides with the base after renumbering (`Phandles.ZeroCollides`).
- Deleting the root is accepted and leaves a structure block without a tree (`NodeEdit.DelNodeBytes`).

## Model

| member | source | states |
|---|---|---|
| Bytes.LoadStored | SylixOS/driver/fdt/libfdt.h:168-186 | A big-endian word that was stored is loaded back. |
| Bytes.StoreLoaded | SylixOS/driver/fdt/libfdt.h:168-186 | Storing a loaded word restores its four bytes, so load and store are inverse both ways. |
| Blob.SetHdrEffect | SylixOS/driver/fdt/libfdt.h:275-304 | Setting one header word changes that word, no other word, and no byte after the header. |
| DeviceTree.ParseFlatten | SylixOS/driver/fdt/fdt.c:171-222 | The bracketed events of a tree parse back to that tree, whatever follows them. |
| Blob.HoldsDecodes | SylixOS/driver/fdt/fdt.c:171-222 | A blob holds at most one tree: the one its structure block decodes to. |
| Blob.ProbeExact | SylixOS/driver/fdt/fdt_rw.c:58-90 | With sums that do not wrap, the read-write probe accepts exactly the version-17 blobs whose blocks are ordered, disjoint and inside the total size. |
| Traverse.CheckHeaderExact | SylixOS/driver/fdt/fdt.c:113-152 | The header check succeeds exactly when every block lies inside the total size, for every 32-bit header, wrapping sums included. |
| Traverse.OffsetPtrExact | SylixOS/driver/fdt/fdt.c:154-169 | For every 32-bit offset and length the pointer check succeeds exactly when the bytes lie inside the structure block. |
| Lexer.NextTagProgress | SylixOS/driver/fdt/fdt.c:171-222 | Wherever the scanner succeeds it stays aligned and inside the aligned block, and it advances if and only if it is not at a property of length 0xfffffff4. |
| Lexer.PropSkippedWhole | SylixOS/driver/fdt/fdt.c:196-206 | A property is skipped whole if and only if its length does not wrap the 32-bit sum. |
| Lexer.StuckScanner | SylixOS/driver/fdt/fdt.c:201-201 | The concrete property on which the scanner returns the offset it was given. |
| Lexer.NextTagSpelled | SylixOS/driver/fdt/fdt.c:171-222 | At bytes that spell an item the scanner returns that item's tag and the offset just behind it. |
| Lexer.LexConcat | SylixOS/driver/fdt/fdt.c:171-222 | Reading two stretches one after the other reads their items one after the other, so every offset between two items splits the block. |
| Lexer.MarkReplace | SylixOS/driver/fdt/fdt_rw.c:125-137 | Replacing the bytes between two item boundaries replaces exactly the events between them. |
| Lexer.StrGrow | SylixOS/driver/fdt/libfdt.h:363-376 | Appending to the strings block leaves every name offset with its string. |
| Walk.CloseNode | SylixOS/driver/fdt/fdt_wip.c:118-126 | The end of a node, found by counting depth, is just after its own closing tag. |
| Walk.CloseByHops | SylixOS/driver/fdt/fdt_wip.c:118-126 | Hopping from node to node until the depth drops below zero finds the matching end tag. |
| Walk.FirstKid | SylixOS/driver/fdt/fdt.c:282-291 | The first node met below a node is its first child, and there is none exactly when it has no children. |
| Walk.NextKid | SylixOS/driver/fdt/fdt.c:293-308 | After child i the walk meets child i + 1, skipping everything inside child i, and ends after the last. |
| Walk.FindKidInNode | SylixOS/driver/fdt/libfdt.h:479-518 | Lookup by name finds the first direct child that the name rule matches, never a deeper node. |
| Walk.FindPropInNode | SylixOS/driver/fdt/libfdt.h:701-728 | Lookup by name finds the first property of that name of this node only. |
| Traverse.NextTagIn | SylixOS/driver/fdt/fdt.c:171-222 | The reading loop over the blob computes the scanner step on its structure block, errors included. |
| Traverse.NextNode | SylixOS/driver/fdt/fdt.c:242-280 | From a node, or from the beginning for a negative offset, the loop reaches the next opening tag with its depth, or the end of the level, or reports the end of the tree; other offsets give BADOFFSET. |
| Traverse.NodeEnd | SylixOS/driver/fdt/fdt_wip.c:118-126 | Returns the offset just after the end tag that matches the node. |
| Traverse.FirstSubnode | SylixOS/driver/fdt/fdt.c:282-291 | Returns the offset of the first direct child, or NOTFOUND, also for an offset that is no node; from a negative offset it returns the first node of the tree. |
| Traverse.NextSubnode | SylixOS/driver/fdt/fdt.c:293-308 | Returns the offset of the next sibling, or NOTFOUND, also for an offset that is no node; from a negative offset it walks on from the beginning as from a node one level down. |
| Traverse.SubnodeOffset | SylixOS/driver/fdt/libfdt.h:479-518 | Returns the offset of the first matching direct child, or NOTFOUND, or the error for a bad node offset. |
| Traverse.GetName | SylixOS/driver/fdt/libfdt.h:559-581 | Returns exactly the name that the opening tag spells. |
| Traverse.NextProp | SylixOS/driver/fdt/libfdt.h:604-622 | Skips NOPs and returns the next property of the same node, or NOTFOUND at the first other tag. |
| Traverse.GetString | SylixOS/driver/fdt/libfdt.h:363-376 | Returns the NUL-terminated string at an offset of the strings block, or nothing when it is not terminated inside the block. |
| Traverse.PropAt | SylixOS/driver/fdt/libfdt.h:652-680 | Returns the value and name offset that the event at this place carries. |
| Traverse.GetProperty | SylixOS/driver/fdt/libfdt.h:701-728 | Returns the offset of the first property of the given name, or the right error. |
| TreeWalk.FirstKidOf | SylixOS/driver/fdt/fdt.c:282-291 | On a blob that holds a tree the call returns the offset of child 0 of the node at any path. |
| TreeWalk.NextKidOf | SylixOS/driver/fdt/fdt.c:293-308 | From child k the call returns child k + 1, so children are visited once each in order. |
| TreeWalk.FindKidOf | SylixOS/driver/fdt/libfdt.h:495-518 | Returns the offset of the child that the documented name rule selects, which lies behind the opening tag of its parent. |
| TreeWalk.FirstPropOf | SylixOS/driver/fdt/libfdt.h:584-601 | Returns the offset of property 0 of the node at any path, or NOTFOUND. |
| TreeWalk.NextPropOf | SylixOS/driver/fdt/libfdt.h:604-622 | From property k returns property k + 1, or NOTFOUND after the last. |
| TreeWalk.ReadProp | SylixOS/driver/fdt/libfdt.h:739-773 | Returns name and value of that property of the tree. |
| PhandleBytes.GetProp | SylixOS/driver/fdt/libfdt.h:798-826 | Returns the value of the first property of that name of the node at any path, or nothing. |
| Splice.SpliceAt | SylixOS/driver/fdt/fdt_rw.c:97-110 | Moves everything behind the splice point, or returns BADOFFSET or NOSPACE under exactly the stated conditions and changes nothing. |
| Splice.SpliceEffect | SylixOS/driver/fdt/fdt_rw.c:97-137 | A splice in the structure block keeps the bytes before and behind the gap, the reserve map and the strings, and leaves the blocks ordered. |
| Splice.SpliceStruct | SylixOS/driver/fdt/fdt_rw.c:125-137 | The same as a call, with the exact error condition. |
| Splice.FindString | SylixOS/driver/fdt/fdt.c:310-320 | Returns the lowest offset at which the string and its NUL occur, inside another string too, or reports that there is none. |
| Splice.FindAddString | SylixOS/driver/fdt/fdt_rw.c:139-172 | Returns an offset that resolves to the string; the strings block grows only at its end and only if the string was nowhere in it. |
| Rewrite.ReplacedTree | SylixOS/driver/fdt/fdt_rw.c:125-137 | Items put in place of part of a node's events give a blob that holds the tree with that node replaced. |
| Rewrite.NodeKept | SylixOS/driver/fdt/fdt_rw.c:125-137 | A node whose opening tag lies before the changed bytes keeps its offset. |
| Rewrite.GrownHolds | SylixOS/driver/fdt/fdt_rw.c:152-172 | Growing the strings block changes neither the tree nor any offset. |
| ReadWrite.ResizeProperty | SylixOS/driver/fdt/fdt_rw.c:203-219 | A property found by name gets a value of the new length that keeps the old bytes as far as they go; everything else in the tree stays. |
| ReadWrite.AddProperty | SylixOS/driver/fdt/fdt_rw.c:221-247 | A new first property with the given name, with the exact NOSPACE condition; on an error the tree is unchanged even when the strings have grown. |
| ReadWrite.SetPropPlaceholder | SylixOS/driver/fdt/fdt_rw.c:272-288 | The property exists with the wanted length and its offset is returned, or the tree is unchanged. |
| ReadWrite.SetPropBytes | SylixOS/driver/fdt/fdt_rw.c:290-303 | A blob that holds T afterwards holds T with the property of this node set, for every tree, node and value; the error condition is exact, errors keep the tree, and the node and the blocks before its contents stay where they are. |
| ReadWrite.AppendPropBytes | SylixOS/driver/fdt/fdt_rw.c:305-330 | The same for appending to a value, for new and existing properties. |
| ReadWrite.DelPropBytes | SylixOS/driver/fdt/fdt_rw.c:332-345 | The first property of that name is gone and nothing else; NOTFOUND changes nothing. |
| Edit.SetPropLookup | SylixOS/driver/fdt/fdt_rw.c:290-303 | After setting a property a lookup finds the new value under that name and the old ones under all others. |
| Edit.AppendPropLookup | SylixOS/driver/fdt/fdt_rw.c:305-330 | After an append a lookup finds the old bytes with the new ones behind them, and under every other name the old value. |
| Edit.DropPropLookup | SylixOS/driver/fdt/fdt_rw.c:332-345 | After a deletion every other name has its value, and this name that of the next property of the same name. |
| NodeEdit.SetNameBytes | SylixOS/driver/fdt/fdt_rw.c:249-270 | The node has the new name, the rest of the tree is unchanged, and the node keeps its offset. |
| NodeEdit.SkipPropTags | SylixOS/driver/fdt/fdt_rw.c:365-370 | The scan over the parent's properties and NOPs stops just before the first tag that is neither. |
| NodeEdit.AddSubnodeBytes | SylixOS/driver/fdt/fdt_rw.c:347-391 | An empty child of that name is added behind the properties and its offset returned, unless a child matches the name (EXISTS) or there is no room (NOSPACE). A bad parent offset is reported and changes no byte, if and only if it is not -FDT_ERR_NOTFOUND or there is no room. |
| NodeEdit.MisplacedHoldsNothing | SylixOS/driver/fdt/fdt_rw.c:359-386 | What the call leaves for the parent offset -FDT_ERR_NOTFOUND, for every blob with room and every name: a blob that differs and holds no tree. |
| NodeEdit.DelNodeBytes | SylixOS/driver/fdt/fdt_rw.c:393-405 | The blob holds the tree without the node; deleting the root leaves only the end tag. |
| NodeEdit.NopRegion | SylixOS/driver/fdt/fdt_wip.c:96-102 | NOP words cover the region rounded up to whole words, and nothing else. |
| NodeEdit.NopNodeBytes | SylixOS/driver/fdt/fdt_wip.c:128-139 | Overwriting a node with NOPs gives the same tree as deleting it, without moving a byte. |
| NodeEdit.NopPropertyBytes | SylixOS/driver/fdt/fdt_wip.c:104-116 | Overwriting a property with NOPs, padding included, gives the tree without it. |
| Merge.MergeLookup | SylixOS/driver/fdt/fdt_overlay.c:601-624 | In a merged node the overlay's last value of a property wins and every other property keeps its value. |
| Merge.MergeElsewhere | SylixOS/driver/fdt/fdt_overlay.c:625-646 | Added children stand in front, the old ones follow in their order and under their names, and every one that is not the first match of an overlay child is exactly what it was. |
| Merge.MergeCovers | SylixOS/driver/fdt/fdt_overlay.c:601-646 | The merged node says what the overlay node says, at every level: its last values, and every child whose name no later sibling of it clashes with. |
| MergeKeeps.MergedKeeps | SylixOS/driver/fdt/fdt_overlay.c:601-646 | At every level a base node keeps its name, every property that the overlay nodes merged into it do not set, and its children in order behind the added ones, each of them what it was or so merged; nothing comes in but what the overlay says, and an added child holds only that. |
| Overlay.ApplyProps | SylixOS/driver/fdt/fdt_overlay.c:607-623 | Every property of the overlay node is set on the target, whose offset stays valid. |
| Overlay.OpenKid | SylixOS/driver/fdt/fdt_overlay.c:625-637 | A child that matches the name is returned as it is and no byte changes; otherwise an empty child of that name is added in front. Behind the opening tag of the target; it fails only for want of room for the new child. |
| Overlay.EditedUp | SylixOS/driver/fdt/fdt_overlay.c:639-646 | An edit below a child leaves the target node at its offset, because every splice lands behind the target's opening tag. |
| Overlay.ApplyNode | SylixOS/driver/fdt/fdt_overlay.c:601-646 | When the recursion succeeds the base blob holds the merge of the two trees at the target, which keeps what the overlay does not set and says what the overlay says at every level, and the target offset is still valid; it fails only with NOSPACE, and never when the room covers what the overlay node can take. |
| Phandles.MaxPhandleBounds | SylixOS/driver/fdt/libfdt.h:393-404 | No node has a phandle above the maximum. |
| Phandles.MaxPhandleAttained | SylixOS/driver/fdt/libfdt.h:393-404 | Unless it is 0, the maximum is the phandle of some node. |
| Phandles.PhandleRead | SylixOS/driver/fdt/fdt_ro.c:531-546 | The phandle of a node is the word in "phandle", or where that is no word the one in "linux,phandle", or 0. |
| AllNodes.NextNodeFlat | SylixOS/driver/fdt/fdt.c:242-280 | Without a depth the loop goes from a node, or from any negative offset, to the next opening tag of the whole tree, or reports NOTFOUND. |
| AllNodes.FindMaxPhandle | SylixOS/driver/fdt/libfdt.h:393-404 | The loop over all node offsets returns the maximum of the tree. |
| AllNodes.NodeByPhandle | SylixOS/driver/fdt/libfdt.h:1022-1040 | Returns the first node with the phandle in the order of the blob, NOTFOUND exactly when there is none, and BADPHANDLE for 0 and -1. |
| Paths.PathOffset | SylixOS/driver/fdt/libfdt.h:534-556 | For an absolute path, returns the node that its components select child by child under the name rule, or NOTFOUND. |
| Paths.ResolveExact | SylixOS/driver/fdt/fdt_ro.c:280-323 | A path leads to a node if and only if its components, one by one, select as first match the children on the way to it. |
| Paths.ResolveAppend | SylixOS/driver/fdt/libfdt.h:534-556 | A path of two parts leads where the second part leads from the node of the first. |
| Ancestors.HopFrom | SylixOS/driver/fdt/fdt.c:242-280 | From a node the loop reaches the next node in the order of the blob: the first child, else the next sibling of the closest node upwards that has one, with exactly that node's depth, or the end of the tree. |
| Ancestors.OffsetOrder | SylixOS/driver/fdt/fdt.c:171-222 | Offsets of nodes are ordered as the nodes are, and two nodes never share one. |
| Ancestors.SupernodeAtDepth | SylixOS/driver/fdt/fdt_ro.c:617-651 | Returns the ancestor of a node at that depth and the depth of the node, or NOTFOUND exactly when the depth is negative or greater than the node's. |
| Ancestors.ParentOffset | SylixOS/driver/fdt/fdt_ro.c:664-672 | Returns the parent, or NOTFOUND for the root. |
| NodePaths.PathLenOf | SylixOS/driver/fdt/fdt_overlay.c:695-721 | Returns the summed name lengths up to the nearest node without a name, or NOTFOUND when there is none up to the root. |
| NodePaths.LenUpExact | SylixOS/driver/fdt/fdt_overlay.c:695-721 | There is a length if and only if some node on the way up has no name. |
| NodePaths.PathLenExact | SylixOS/driver/fdt/fdt_overlay.c:695-721 | That is the length of the path that is written if and only if the root is the nearest node without a name; otherwise it is less. |
| NodePaths.GetPath | SylixOS/driver/fdt/fdt_ro.c:565-615 | While the blob is walked and the names are written into one of its own values, no node moves; the value then begins with the names from the root to the node, or NOSPACE exactly when they do not fit. |
| NodePaths.PathRoundTrip | SylixOS/driver/fdt/fdt_ro.c:565-615 | The path that is written leads back to the node if and only if on the way no earlier sibling matches a name. |
| Phandles.AdjustEverywhere | SylixOS/driver/fdt/fdt_overlay.c:201-222 | After a successful pass every node of the overlay, at every path, has its phandle raised by delta and all other properties as before. |
| AdjustExact.RenumberExact | SylixOS/driver/fdt/fdt_overlay.c:201-222 | Renumbering succeeds if and only if at every node each of the two phandle properties that is present is a word that does not reach 0xffffffff; otherwise it returns BADPHANDLE or NOPHANDLES, whichever is wrong with the first node in the order of the blob that has something wrong. |
| Phandles.AdjustSeparates | SylixOS/driver/fdt/fdt_overlay.c:872-878 | Distinct overlay phandles stay distinct, equal ones equal, and all that are at least 1 end up greater than every phandle of the base. |
| Phandles.ZeroCollides | SylixOS/driver/fdt/fdt_overlay.c:872-878 | An overlay phandle of 0 ends up equal to the largest phandle of the base. |
| Phandles.ShiftedWord | SylixOS/driver/fdt/fdt_overlay.c:295-323 | With positions at least a word apart each listed word is raised exactly once. |
| Phandles.RefEverywhere | SylixOS/driver/fdt/fdt_overlay.c:265-350 | After the reference pass every property of every node has exactly the listed words shifted and nothing else changed. |
| AdjustExact.RefExact | SylixOS/driver/fdt/fdt_overlay.c:265-350 | The reference pass succeeds if and only if every fixup node finds its node, every list is whole words for a property that is there, and every position passes the 32-bit check; otherwise it returns BADOVERLAY. |
| AdjustExact.PositionsExact | SylixOS/driver/fdt/fdt_overlay.c:265-350 | The positions that the pass shifts in a property are exactly the words of the lists that the fixup tree has for it. |
| AdjustExact.ReferencesMean | SylixOS/driver/fdt/fdt_overlay.c:265-350 | With these a word apart, each listed word that fits is raised by delta once and every byte in none of them is kept. |
| Phandles.ReferenceKept | SylixOS/driver/fdt/fdt_overlay.c:864-886 | A listed local reference that held the phandle of a node before both passes holds the phandle of the same node afterwards. |
| PhandleBytes.SetPropPartial | SylixOS/driver/fdt/fdt_wip.c:58-76 | For every 32-bit index: NOTFOUND and NOSPACE change nothing; bytes that fit change that value only, with every node and property where it was; where the check wraps and passes, with 64-bit pointers, the call reports success and the blob is unchanged. |
| PhandleBytes.NameOverwritten | SylixOS/driver/fdt/fdt_wip.c:71-74 | With 32-bit pointers position 0xfffffffc of a value is the name offset of its property, which is what is overwritten when the check has passed. |
| Phandles.TooLongExact | SylixOS/driver/fdt/fdt_wip.c:71-72 | The length check means what it should if and only if the sum does not wrap or the value is shorter than the wrapped sum. |
| Phandles.TooLongWraps | SylixOS/driver/fdt/fdt_wip.c:71-72 | The concrete position 0xfffffffc of a four-byte value passes. |
| Phandles.PassesExact | SylixOS/driver/fdt/fdt_overlay.c:297-325 | A list of positions that passes lies inside the value if and only if none of them is 0xfffffffc or more. |
| PhandleBytes.BumpBytes | SylixOS/driver/fdt/fdt_overlay.c:161-185 | NOTFOUND when the property is absent, BADPHANDLE when it is no word, NOPHANDLES when the sum reaches 0xffffffff, and else exactly this property is the sum. |
| PhandleBytes.AdjustBytes | SylixOS/driver/fdt/fdt_overlay.c:201-222 | The recursion over the blob gives the tree of the pure renumbering, or its error code. |
| InPlace.WrittenSteady | SylixOS/driver/fdt/fdt_wip.c:58-76 | A write into a value moves no node and no property of the whole tree. |
| InPlace.MarkOutside | SylixOS/driver/fdt/fdt.c:171-222 | No item boundary lies inside another item. |
| RefBytes.RefPropBytes | SylixOS/driver/fdt/fdt_overlay.c:274-325 | The words that one fixup property lists are shifted in place one after the other; BADOVERLAY exactly when the list is not whole words, the property is missing, or a position fails the 32-bit check; where that check wraps and passes, with 64-bit pointers, no word is shifted. |
| RefBytes.RefNodeBytes | SylixOS/driver/fdt/fdt_overlay.c:265-350 | With tree and fixups in the same blob, the recursion gives the tree of the pure reference pass or its error code, while every offset in use stays valid; wrapped positions with 64-bit pointers as before. |
| ApplyOverlay.LocalReferences | SylixOS/driver/fdt/fdt_overlay.c:369-388 | The whole pass with the lookup of its node: nothing to do without one, else the pure reference pass or its error code. |
| Fixups.ParseTextSound | SylixOS/driver/fdt/fdt_overlay.c:504-525 | An accepted record is path, colon, non-empty property, colon, number, and the parts are the ones returned. |
| Fixups.ParseTextComplete | SylixOS/driver/fdt/fdt_overlay.c:504-525 | Every text of that shape is accepted with those parts. |
| Fixups.ParsedTexts | SylixOS/driver/fdt/fdt_overlay.c:488-532 | Every accepted value is a non-empty sequence of NUL-terminated records. |
| Fixups.PrintParse | SylixOS/driver/fdt/fdt_overlay.c:488-532 | Printing any non-empty list of records and parsing the result gives the list back. |
| Symbols.FixOneBytes | SylixOS/driver/fdt/fdt_overlay.c:412-451 | One record: the phandle of the node that the symbol names in the base is stored at the position in the overlay, or the error of the first lookup that fails. |
| FixupsExact.DoWrites | SylixOS/driver/fdt/fdt_overlay.c:412-451 | A record that is resolved writes the phandle of the node that the symbol names in the base at its position, and nothing else in any property of any node. |
| Symbols.FixPropBytes | SylixOS/driver/fdt/fdt_overlay.c:472-535 | The loop resolves exactly the parsed records in order, stops at the first that fails with its code, and otherwise fails with BADOVERLAY exactly when the value is malformed. |
| Symbols.FixPropsBytes | SylixOS/driver/fdt/fdt_overlay.c:571-580 | All properties of the fixup node one after the other, while every offset in use stays valid. |
| FixupsExact.TasksAre | SylixOS/driver/fdt/fdt_overlay.c:571-580 | What the pass is asked for is exactly the records in the values, and to stop at a value that is no list of records. |
| FixupsExact.FixPropsExact | SylixOS/driver/fdt/fdt_overlay.c:472-580 | The pass succeeds if and only if nothing is wrong with any record; then every word that no later record overlaps is the phandle that its symbol names in the base, and every byte in no such word is kept. Otherwise it returns what is wrong with the first record: NOTFOUND for the symbol or the property, BADOVERLAY for the path or the list, NOSPACE for the position. |
| Fragments.TargetPhandle | SylixOS/driver/fdt/fdt_overlay.c:73-87 | The target phandle, 0 without one, all ones for a malformed one. |
| Fragments.GetTarget | SylixOS/driver/fdt/fdt_overlay.c:103-145 | Returns the offset of the node that the fragment names, by phandle or by path, with that path if there is one, and the right error exactly when it names none. |
| Fragments.TargetMeans | SylixOS/driver/fdt/fdt_overlay.c:103-145 | A phandle that is a word other than 0 names the first node that has it, else the path does; the errors for a phandle that is none, for neither of the two, and for a target that is not found. |
| Fragments.MergeOverlay | SylixOS/driver/fdt/fdt_overlay.c:663-693 | After success every fragment with an `__overlay__` is merged at its target, each looked up in the base as the earlier fragments left it. It fails with NOSPACE only without room for what the fragments can take, and else only with the error of a fragment that names no target, so that there is no outcome at all. |
| Fragments.MergesOneMeans | SylixOS/driver/fdt/fdt_overlay.c:663-693 | One fragment: the node that it names has what the overlay says and keeps what it does not set, at every level, and nothing outside that node changes. |
| SymbolUpdate.ParseSymbolSound | SylixOS/driver/fdt/fdt_overlay.c:770-797 | An accepted symbol is slash, fragment, "/__overlay__/", path and one NUL at the end, with these parts. |
| SymbolUpdate.ParseSymbolComplete | SylixOS/driver/fdt/fdt_overlay.c:770-797 | Every value of that shape is accepted with those parts. |
| SymbolUpdate.ParseSymbolError | SylixOS/driver/fdt/fdt_overlay.c:770-797 | Otherwise BADVALUE for a value that is no path with its only NUL at the end, and BADOVERLAY for any other. |
| SymbolUpdate.NewValueRefused | SylixOS/driver/fdt/fdt_overlay.c:770-772 | No value that the pass writes would itself be accepted, because it ends in two NULs. |
| SymbolUpdate.LookUpSymbol | SylixOS/driver/fdt/fdt_overlay.c:766-828 | From a symbol's value to fragment, target and length of the target's path; it fails only for a symbol that names nothing. |
| SymbolUpdate.TextExact | SylixOS/driver/fdt/fdt_overlay.c:695-830 | A target has a path to give if and only if its path is given, it has no name, or the root is the only node on the way that has none. |
| SymbolUpdate.NewSymbolExact | SylixOS/driver/fdt/fdt_overlay.c:763-858 | A symbol becomes something if and only if its value is of the accepted shape, its fragment has an `__overlay__` and a target, and that has a path to give. |
| SymbolUpdate.NewSymbolStays | SylixOS/driver/fdt/fdt_overlay.c:763-858 | What a symbol becomes does not depend on the symbols that were put in before it, although each may shift the nodes behind `__symbols__`. |
| SymbolUpdate.NotPhandle | SylixOS/driver/fdt/fdt_overlay.c:763-858 | After the first pass no accepted symbol can be named like a phandle property, so no symbol changes a target. |
| SymbolUpdate.PutSymbol | SylixOS/driver/fdt/fdt_overlay.c:763-858 | One symbol: room is made, the target's path found and written into it, and the base holds the tree with exactly this property set; it fails only for want of room or for a symbol that names nothing. |
| SymbolUpdate.UpdateSymbols | SylixOS/driver/fdt/fdt_overlay.c:739-862 | The whole pass: the base holds the tree with every symbol set in `__symbols__`, which is added if it is missing. With a value for every symbol it fails only without room for them; any error but NOSPACE means that some symbol names nothing. |
| SymbolUpdate.UpdatedMeans | SylixOS/driver/fdt/fdt_overlay.c:739-862 | Afterwards each symbol of the overlay has the value that its last value there becomes, every other property of `__symbols__` has its old value, and nothing else of the base has changed. |
| SymbolUpdate.SymbolFound | SylixOS/driver/fdt/fdt_overlay.c:739-862 | Each symbol found afterwards leads from the target of its fragment along the path below it: always for a target given by a path, and for one given by a phandle when names select the nodes on the way to it. |
| ApplyOverlay.RenumberOverlay | SylixOS/driver/fdt/fdt_overlay.c:872-882 | Maximum, renumbering and local references on the two blobs: the overlay blob then holds a tree whose phandles are pairwise distinct where they were, above every phandle of the base, and whose listed references name the nodes they named. |
| ApplyOverlay.RenumberedMeans | SylixOS/driver/fdt/fdt_overlay.c:872-882 | The same of the pure passes. |
| ApplyOverlay.ExternalReferences | SylixOS/driver/fdt/fdt_overlay.c:554-580 | The pass over `__fixups__` gives the tree of the pure pass or its error code. |
| ApplyOverlay.PreparedExact | SylixOS/driver/fdt/fdt_overlay.c:872-886 | The passes before the merge succeed if and only if nothing is wrong with any phandle, local fixup or external fixup, and the error is that of the first pass with something wrong; after success the listed words are the phandles that their symbols name. |
| ApplyOverlay.PreparedIs | SylixOS/driver/fdt/fdt_overlay.c:872-886 | The passes before the merge keep every node and name of the overlay, and afterwards the phandle properties of its top nodes are words. |
| ApplyOverlay.Apply | SylixOS/driver/fdt/fdt_overlay.c:864-917 | As one call: success means that every fragment of the renumbered and resolved overlay is merged into the base and then every symbol of the overlay put into it. When the passes before the merge succeed, there is such an outcome and the base has room for it, the call succeeds; NOSPACE apart, it fails there only when there is no outcome. What is left after an error is refused by every later call. |
| SeqWrite.NoRoomExact | SylixOS/driver/fdt/fdt_sw.c:279-281 | The unsigned room check means what it should if and only if the strings with the new one are no longer than the buffer. |
| SeqWrite.NoRoomWraps | SylixOS/driver/fdt/fdt_sw.c:279-281 | The concrete sizes on which the check lets a string through that does not fit. |
| SeqWrite.EventsFront | SylixOS/driver/fdt/fdt_sw.c:265-286 | Strings put in front of the others leave every property with its name, because name offsets count from the end. |
| SeqWrite.GrabSpace | SylixOS/driver/fdt/fdt_sw.c:129-142 | Space is granted exactly when structure and strings would not overlap, and nothing else changes. |
| SeqWrite.GrabbedEffect | SylixOS/driver/fdt/fdt_sw.c:129-142 | Earlier structure bytes, the strings and the reserve map are not altered. |
| SeqWrite.FindAddTail | SylixOS/driver/fdt/fdt_sw.c:265-286 | For a name that occurs already, or a new one no longer than the room above the structure: returns the distance from the end at which the name is found, suffixes of other names included; the strings grow downwards only when it was nowhere in them. |
| SeqWrite.BeginNode | SylixOS/driver/fdt/fdt_sw.c:234-249 | In the second phase exactly this call is added to the ones taken, or NOSPACE under the exact condition; in any other phase an error and no change. |
| SeqWrite.EndNodeCall | SylixOS/driver/fdt/fdt_sw.c:251-263 | The same for the end of a node. |
| SeqWrite.PropertyCall | SylixOS/driver/fdt/fdt_sw.c:288-320 | The same for a property, whose negative name offset resolves to its name; when there is no room the calls taken before are unchanged. |
| Finish.Create | SylixOS/driver/fdt/fdt_sw.c:144-165 | Leaves a blob in the first phase with no reserve entry, or NOSPACE and no change. |
| Finish.AddReserve | SylixOS/driver/fdt/fdt_sw.c:203-221 | One more reserve entry behind the others, only in the first phase. |
| Finish.FinishReserve | SylixOS/driver/fdt/fdt_sw.c:223-232 | Ends the reserve map and enters the second phase with no call taken. |
| Finish.JoinedEffect | SylixOS/driver/fdt/fdt_sw.c:330-343 | Bringing the strings down behind the end tag keeps both blocks, overlapping moves included. |
| Finish.CorrectOffsets | SylixOS/driver/fdt/fdt_sw.c:344-358 | The loop makes every name offset relative to the start of the strings and changes no other item. |
| Finish.FinishCall | SylixOS/driver/fdt/fdt_sw.c:322-365 | With room for the end tag it cannot fail, and the blob is complete, packed, and spells exactly the calls taken; otherwise NOSPACE and no change. |
| Finish.WriteAll | SylixOS/driver/fdt/fdt_sw.c:144-365 | A run that only builds and succeeds leaves a blob that spells exactly the calls made, and it succeeds whenever the buffer holds the sum of what the calls need. |
| Writer.Step | SylixOS/driver/fdt/fdt_sw.c:167-365 | One call of any kind at any stage returns exactly what the stage and the room say: BADSTATE in another phase, and then no byte changes, success if what it adds fits, else NOSPACE; success leads to the next stage, an error leaves the stage as it was. |
| Writer.Drive | SylixOS/driver/fdt/fdt_sw.c:144-365 | Any calls in any order, moves between overlapping buffers included: each returns what the stage and the room before it say, and at every point the blob is exactly at the stage, with the entries or calls, that the successful ones lead to. |
| Finish.WriteTree | SylixOS/driver/fdt/fdt_sw.c:144-365 | Every tree whose names are NUL-free strings and that fits has a blob that holds it with its root at offset 0, so no claim about such blobs is empty. |
| Finish.ReadAll | SylixOS/driver/fdt/fdt.c:171-222 | Walking the finished blob reads back exactly the calls, with names and values. |
| Resize.MoveBoth | SylixOS/driver/fdt/fdt_sw.c:186-194 | The order of the two moves preserves head and tail for every overlap. |
| Resize.ResizedPhase | SylixOS/driver/fdt/fdt_sw.c:167-201 | A moved blob is in the same phase with the same entries or calls taken, and every end-relative name resolves as before. |
| Resize.ResizeCall | SylixOS/driver/fdt/fdt_sw.c:167-201 | For every position of old and new buffer the writer continues in the new one, bytes outside the new buffer are untouched, and the error conditions are exact. |
| Relocate.NumMemRsv | SylixOS/driver/fdt/libfdt.h:449-459 | Returns the index of the first entry of size zero, or TRUNCATED exactly when there is none inside the blob. |
| Relocate.PackBlocks | SylixOS/driver/fdt/fdt_rw.c:407-427 | Between disjoint places, or in place on ordered blocks, the three blocks arrive byte for byte although they are moved one after another. |
| Relocate.RsvSizeExact | SylixOS/driver/fdt/fdt_rw.c:440-441 | The size computed from the count is that of a map if and only if the map ends; otherwise it is -112. |
| Relocate.UnendedBlob | SylixOS/driver/fdt/fdt_rw.c:440-441 | A concrete blob that the probe accepts and whose map does not end. |
| Relocate.OpenInto | SylixOS/driver/fdt/fdt_rw.c:429-491 | For every relative position on which it succeeds the three blocks are preserved in a version-17 blob of the buffer's size; it succeeds exactly when the stated room is there, and no byte outside the buffer changes. Without an end of the map, a blob whose blocks look ordered is copied whole. |
| Relocate.OpenedHolds | SylixOS/driver/fdt/fdt_rw.c:429-491 | Whatever tree the old blocks spell, in whatever order they lay, the new blob holds. |
| Relocate.Pack | SylixOS/driver/fdt/fdt_rw.c:493-505 | In place, the blocks and the tree are preserved, the total becomes header plus blocks, and packing a packed blob changes no byte. |
| ClientTable.Chains.Find | SylixOS/kidvpn/kv_lib.c:302-314 | Returns the node of that MAC, or nothing exactly when the table has no record of it. |
| ClientTable.Chains.Add | SylixOS/kidvpn/kv_lib.c:273-283 | The chain links stay consistent both ways and the table gains exactly this record. |
| ClientTable.Chains.Delete | SylixOS/kidvpn/kv_lib.c:286-299 | The chain links stay consistent, exactly this node leaves its chain, and the link it was left by still leads on. |
| ClientTable.AddLinked | SylixOS/kidvpn/kv_lib.c:273-283 | Putting a node first in its bucket keeps all 256 chains linked. |
| ClientTable.DeleteLinked | SylixOS/kidvpn/kv_lib.c:286-299 | Joining the neighbours of a node keeps all 256 chains linked, for a first, middle, last or only node. |
| Server.OnHello | SylixOS/kidvpn/kv_serv.c:169-192 | The record of the MAC has the sender's address and a full lifetime, and no other record changes. |
| Server.OnQuery | SylixOS/kidvpn/kv_serv.c:210-233 | Answers with the address on record, exactly when there is one. |
| Server.SweepBucket | SylixOS/kidvpn/kv_serv.c:325-345 | Deleting while walking a chain visits every node of the bucket once and unlinks exactly the dead ones. |
| Server.Sweep | SylixOS/kidvpn/kv_serv.c:318-352 | A pass ages every record by one period and removes exactly those whose life is over. |
| Server.Broadcast | SylixOS/kidvpn/kv_serv.c:245-254 | Every client but the sender is sent to exactly once, at the address on record. |
| Server.Forward | SylixOS/kidvpn/kv_serv.c:236-276 | A data packet is forwarded only for a known sender at its known address: a group frame to everyone else, a unicast frame to its destination, and to the server itself exactly when it is meant. |
| Server.Serve | SylixOS/kidvpn/kv_serv.c:104-352 | After any interleaving of hellos and sweeps the heap table is the table of the history. |
| History.Known | SylixOS/kidvpn/kv_serv.c:318-352 | k sweeps after the last hello the record is there with that address and 60 - 10k seconds, until the sixth sweep. |
| History.TableIsHistory | SylixOS/kidvpn/kv_serv.c:169-192 | A MAC is in the table if and only if fewer than six sweeps have passed since its last accepted hello, with that hello's address. |
| Server.BroadcastReachesLive | SylixOS/kidvpn/kv_serv.c:245-254 | After any history a broadcast reaches another client, once, if and only if it is live in that sense. |
| Client.RouteFrame | SylixOS/kidvpn/kv_client.c:330-371 | A frame to a peer whose record is open changes no record and asks for nothing, and goes straight only in the last state; a closed or new record opens with 60 seconds and the server is asked once. No other record changes. |
| Client.OnAnswer | SylixOS/kidvpn/kv_client.c:203-226 | An answer is used only while one is awaited; then the address is stored, the record lives for 60 seconds more and a punch must follow. No other record changes. |
| Client.OnPunch | SylixOS/kidvpn/kv_client.c:258-273 | A response opens the direct path, for 60 seconds, only from the stored address and only while one is awaited. No other record changes. |
| Client.Delivers | SylixOS/kidvpn/kv_client.c:284-304 | A data packet is delivered exactly if it comes from the server's host or from the address on record for its sender. |
| Client.AgePeers | SylixOS/kidvpn/kv_client.c:455-469 | A pass ages every open record and closes exactly those whose life is over. |
| Client.Live | SylixOS/kidvpn/kv_client.c:116-472 | Through any sequence of frames, messages and sweeps the heap table follows the state machine, and every open record has 10 to 60 seconds left. |
| PeerLife.RunGood | SylixOS/kidvpn/kv_client.c:330-469 | In every reachable state an open record has a life in {10, ..., 60}. |
| PeerLife.BackToClose | SylixOS/kidvpn/kv_client.c:455-469 | An open record is closed again within 16 sweeps whatever messages arrive. |
| PeerLife.SixteenIsTight | SylixOS/kidvpn/kv_client.c:214-271 | A run with 15 sweeps that never closes, so the bound cannot be lowered. |
| Network.ApplyInv | SylixOS/kidvpn/kv_client.c:203-400 | Every step of server and clients, with sends after the lock was released, keeps the invariant that messages and records only repeat what happened. |
| Network.PunchingSafe | SylixOS/kidvpn/kv_client.c:373-400 | In every run with loss, duplication and reordering, a frame goes straight to an address only after the server accepted a hello for that MAC from it and the owner of the MAC answered a punch from it. |
| Network.PunchingWorks | SylixOS/kidvpn/kv_client.c:203-400 | A run in which the direct frame is sent, so the safety claim is not empty. |
| Network.PunchingPersists | SylixOS/kidvpn/kv_client.c:203-400 | That run ends with the direct frame whatever number of frames to the peer come before, between and behind its steps. |
| Framing.DecodeEncode | SylixOS/kidvpn/kv_lib.c:180-244 | With a cipher whose decryption inverts encryption, decoding restores every block. |
| Framing.PaddedIs | SylixOS/kidvpn/kv_lib.c:186-200 | Padding keeps the input, adds only zeros, and ends at the next multiple of 16. |
| Framing.BlockAt | SylixOS/kidvpn/kv_lib.c:202-210 | Each block of the output is the cipher of the input block at the same place. |
| Framing.Crypt | SylixOS/kidvpn/kv_lib.c:186-210 | The loop pads the input with zeros in its buffer, writes exactly the blocks of the padded input, and touches nothing else of the output. |
| Framing.Emit | SylixOS/kidvpn/kv_serv.c:282-292 | A device frame that is encoded inside the buffers is sent as the encoded blocks of at least 60 bytes. |
| Framing.DecodeSplit | SylixOS/kidvpn/kv_serv.c:236-270 | Decoding 16 bytes and then the rest equals decoding the whole. |
| Framing.InBoundsExact | SylixOS/kidvpn/kv_serv.c:113-139 | Of what can be received or read from the device, exactly the packets and frames of up to 1504 bytes are decoded and encoded inside the packet buffers. |
| Framing.ReceiveSplit | SylixOS/kidvpn/kv_serv.c:236-276 | In the packet buffers, the server writes to its device what a single decode followed by the cut gives. |
| Framing.ReceiveWhole | SylixOS/kidvpn/kv_client.c:164-282 | In the packet buffers, the client writes the decoded packet cut to the frame length of the MTU. |
| Framing.Delivered | SylixOS/kidvpn/kv_serv.c:268-276 | What is written is the frame that was sent with zeros behind it, as long as the packet or as the frame length of the MTU, whichever is less; bytes of the frame are cut if and only if it was longer than MTU + 18. |
| Framing.LengthClassifies | SylixOS/kidvpn/kv_serv.c:145-146 | Every control message is sent in fewer than 60 bytes and every data frame in at least 60. |
| Framing.FramesFit | SylixOS/kidvpn/kv_lib.h:90-97 | Every frame within the largest MTU is sent and received inside the packet buffers. |
| Aliases.Collect | SylixOS/driver/fdt/fdtdec.c:430-435 | The first compatible nodes, at most maxcount, in order. |
| Aliases.FindNode | SylixOS/driver/fdt/fdtdec.c:465-471 | Returns a waiting node's index, or -1 exactly when the node is not waiting. |
| Aliases.ReadAliases | SylixOS/driver/fdt/fdtdec.c:440-499 | Every usable alias gets its slot unless an earlier one took the slot or the node, and every filled slot was asked for by an alias. |
| Aliases.Pigeonhole | SylixOS/driver/fdt/fdtdec.c:502-519 | As many distinct slots as candidates leave no candidate without a slot. |
| Aliases.PlaceRest | SylixOS/driver/fdt/fdtdec.c:502-519 | Every remaining enabled node gets a slot, lowest free slots first, in the order of the blob. |
| Aliases.FindAliases | SylixOS/driver/fdt/fdtdec.c:399-522 | From an empty list: slots hold only enabled collected nodes and none twice, every such node has a slot, aliases are honoured in order, and the result is one more than the highest filled index. |
| Aliases.ExactlyOne | SylixOS/driver/fdt/fdtdec.c:399-522 | Every enabled collected node is in exactly one slot. |

## Left out

- Blob versions other than 17: the 8-byte alignment of old versions and the size computation for blobs without a structure size.
- Sizes close to the end of `int`: blobs are at most 2^31 - 1 bytes, and `int` lengths of values are not modelled beyond that.
- SeqWrite.PropertyCall: a new name with which the strings are longer than the buffer is excluded, because the comparison at fdt_sw.c:280 wraps there; a name that occurs already is not.
- SeqWrite.FindAddTail: the same new names are excluded.
- Finish.WriteAll: stops with NOSPACE before such a name, where the source would go on; reserve entries are in Writer.Drive.
- PhandleBytes.SetPropPartial: where the check wraps, the store is modelled with 64-bit pointers: it lands past the blob and is not seen. For 32-bit pointers only PhandleBytes.NameOverwritten is stated.
- RefBytes.RefPropBytes: for wrapped positions the same; the source reads the word before it checks the position; what it reads outside the value is not used, and the model reads 0 there.
- RefBytes.RefNodeBytes: the fixups must not list the fixup node itself, whose values the loop would change while reading them.
- Symbols.FixPropBytes: records must be absolute paths outside the fixup node, whose value the loop would change while parsing it.
- Symbols.FixOneBytes: paths of symbols must be absolute and end inside their property; aliases in paths are left out.
- Fragments.GetTarget: a target path must be absolute and end inside its property; aliases in paths are left out.
- Fragments.MergeOverlay: the same of the target paths of all fragments.
- Paths.PathOffset: paths that begin with an alias are left out.
- ApplyOverlay.Apply: asks that no node name of base or overlay has a slash in it, as section 2.2.1 of the Devicetree Specification requires, besides what its passes ask.
- NodePaths.GetPath: the same of the blob's names, because names are taken off at slashes; the buffer is a value of the same blob, as in its one caller.
- Ancestors.SupernodeAtDepth: offsets that are no node are excluded, as its callers have them from a search; the same holds for Ancestors.ParentOffset.
- SymbolUpdate.UpdateSymbols: asks for names without slashes, for target paths as in Fragments.GetTarget, and for phandle properties that are words, as ApplyOverlay.PreparedIs shows them to be.
- SymbolUpdate.SymbolFound: for a target given by its phandle it asks that on the way names are not empty and no earlier sibling matches; NodePaths.PathRoundTrip has the exact condition.
- Phandles.ReferenceKept: asks for fixup positions a word apart and outside phandle properties, as the format intends.
- Merge.MergeCovers: says nothing of an overlay child whose name clashes with that of a later sibling, which is merged into the same place and may overrule it.
- Overlay.ApplyNode: the room that is sufficient counts every property and child as new; with less room it may succeed too. The same holds for ApplyOverlay.Apply.
- Relocate.OpenInto: asks for a version-17 blob whose blocks lie inside its total size, and for one without an end of its reserve map that nothing has to be packed; the boot CPU word is not claimed, because it is read after the old blob may have been overwritten.
- Relocate.Pack: asks that the reserve map ends and that the packed map and structure block do not reach into a block that still has to be moved; the probe counts only one entry of the map.
- Writer.Step: a new name with which the strings are longer than the buffer is answered with NOSPACE and not passed on, as in Finish.WriteAll; a call sees the memory from the blob's address on.
- Writer.Drive: the same for every call.
- `fdt_add_mem_rsv`, `fdt_del_mem_rsv`, alias, string list and compatible lookups, `fdt_addresses.c`, `fdt_empty_tree.c`, `fdt_strerror.c`: readers and call sequences that would only add easy members.
- Traverse.NextNode: a call without a depth is AllNodes.NextNodeFlat. An aligned offset into a property value whose bytes look like an opening tag passes `fdt_check_node_offset_` and is excluded by `Traverse.NodeArg`, here as in every member that takes a node offset.
- ReadWrite.SetPropBytes: the same offsets are excluded by `ReadWrite.Accepts`, here as in the other editing calls.
- Members that ask for the root at offset 0 (Paths.PathOffset, the passes over overlays) exclude blobs with NOPs before the root.
- Traverse.GetName: offsets that are no node are excluded, as every modelled caller has checked its offset.
- Traverse.PropAt: the same for properties.
- Traverse.NextProp: a position at the end tag of the blob, where the source reports BADSTRUCTURE, is excluded.
- ClientTable.CliNode is one class for the records of server and client; the server never looks at the punching state.
- KidVPN sockets, the tap device, `select`, threads and locks as such: a critical section is one step, a send after the lock is another. Sends that fail and end the loop are left out, and so is memory running out.
- The AES cipher is a pair of functions on blocks of which one undoes the other.
- Option handling, configuration files and printing in KidVPN, and the rest of `fdtdec.c`.
- Aliases.FindAliases: compatible nodes, enabled nodes and aliases with their numbers are parameters; `fdtdec_add_aliases_for_id` on a list that is not empty is left out.
- Framing.Emit: bytes of a short frame's buffer behind the frame are sent as they are, as in the source; nothing is claimed about them.
