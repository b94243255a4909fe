# goinline containers and byte strings, in Dafny

This project models the four core files of goinline:

- `rbtree.go`: an intrusive red-black tree. Its nodes carry their own `left`, `right` and `parent` links, a colour and a `valid` flag.
- `map.go`: a sorted key/value map built on that tree.
- `list.go`: a doubly linked list with iterators.
- `string.go`: byte-string helpers.

Each file keeps its own shape: state changed in place becomes a class with `modifies` clauses, and loops become methods with invariants.

- **ByteStrings** (`strings.dfy`):
  - Strings are `seq<bv8>`, so Go's `uint8` wrap-around in `ToLower`/`ToUpper` is exact.
  - Every loop of `string.go` is a method proved against a specification function. `StrCmp` is proved against `LexCompare`, `StrStr` against `FirstMatch`, `StrSlice` against `Runs`, and `StrSplitS` against `SplitOn`.
  - The properties of those functions are proved as lemmas.
- **LinkedList** (`list.dfy`):
  - `List` is a class over heap nodes `ListNode` with `pre`/`nxt` links and the fields `first`, `last` and `count`.
  - The ghost sequence `Nodes` is the chain from `first`, and `Contents()` is its values.
  - `ListIterator` is a value type holding the list and a node, as in Go.
- **RedBlack** (`rbtree.dfy`), with the lemma modules RBNodes, RBSearch, RBRotate, RBInsert, RBRemove, RBSplice and RBSwap:
  - The tree is a class over an arena `nodes: seq<RBNode>`. A node pointer is an index and nil is `NIL` (-1).
  - Ghost state describes the tree:
    - `elems` is the set of tree nodes.
    - `sub` is each node's subtree.
    - `bh` is each node's black height.
  - `RBTree(...)` holds together:
    - link consistency;
    - key order;
    - distinct keys;
    - a black root;
    - no red-red edge;
    - equal black heights.
  - The statements of `removeCaseN`, `removeone`, `swapnode` and `Remove`, and the recolourings of `rotate`, are field updates of the arena. Each step is proved by a value-level lemma about arenas.
  - The two rotations `rotate` writes out inline (rbtree.go:165-188 and 189-214) are calls to `RotateLeft` and `RotateRight`. They reach the same arena as Go's inline statements.
- **OrderedMap** (`map.dfy`):
  - `Map` is a class holding the tree and `size`. `Model()` is the key/value map the tree nodes hold.
  - `MapIterator` wraps a node index.
  - Map contracts are stated on `Model()`: smallest/largest key, next/previous key, and update and removal of a key.

The comparator is a parameter, and every operation on keys assumes it is a strict total order whose zero class is equality (`TotalOrder`).

## Model

| member | source | states |
|---|---|---|
| ByteStrings.IsAlpha | string.go:7-13 | true exactly for the ASCII letters 'A'..'Z' and 'a'..'z' |
| ByteStrings.IsWhite | string.go:14-19 | true exactly for the bytes 1..0x20 |
| ByteStrings.ToLower | string.go:20-29 | an upper-case ASCII letter becomes the matching lower-case letter; every other byte is unchanged |
| ByteStrings.ToUpper | string.go:30-38 | a lower-case ASCII letter becomes the matching upper-case letter; every other byte is unchanged |
| ByteStrings.CaseMappingsIdempotent | string.go:20-38 | ToLower and ToUpper are idempotent, and each undoes the other on letters |
| ByteStrings.Min | string.go:39-45 | the smaller of the two arguments: at most each of them and equal to one of them |
| ByteStrings.StrIsdigit | string.go:49-59 | true exactly when the string is non-empty and every byte is '0'..'9' |
| ByteStrings.LexCompare | string.go:84-104 | the lexicographic byte order takes only the values -1, 0 and 1 |
| ByteStrings.LexCompareZeroIffEqual | string.go:84-104 | the comparison is 0 exactly when the strings are equal |
| ByteStrings.LexCompareAntisymmetric | string.go:84-104 | swapping the arguments negates the result |
| ByteStrings.LexCompareTransitive | string.go:84-104 | "less than" is transitive |
| ByteStrings.StrCmp | string.go:84-104 | the loop computes the lexicographic comparison of the two strings |
| ByteStrings.Lower | string.go:60-83 | the string with ToLower applied to each byte, with the same length |
| ByteStrings.StrCasecmp | string.go:60-83 | StrCasecmp is the lexicographic comparison of the lower-cased strings |
| ByteStrings.CasecmpZeroIffLowerEqual | string.go:60-83 | case-insensitive comparison is 0 exactly when the lower-cased strings are equal |
| ByteStrings.StrSubstr | string.go:105-108 | empty when `begin` is past the end; otherwise `min(size, len-begin)` bytes of `str` starting at `begin` |
| ByteStrings.StrRsubstr | string.go:112-118 | the last `min(len, size)` bytes: the result is a suffix of `str` |
| ByteStrings.StrChr | string.go:119-129 | -1 exactly when the byte is absent; otherwise the first index holding it |
| ByteStrings.StrRchr | string.go:130-140 | -1 exactly when the byte is absent; otherwise the last index holding it |
| ByteStrings.FirstMatch | string.go:141-162 | -1 exactly when `target` occurs nowhere; otherwise the smallest offset where it occurs |
| ByteStrings.LastMatch | string.go:163-184 | -1 exactly when `target` occurs nowhere; otherwise the largest offset where it occurs |
| ByteStrings.MatchesAt | string.go:150-156 | the inner comparison loop is true exactly when `target` occurs at `off` |
| ByteStrings.StrStr | string.go:141-162 | the search loop returns the first occurrence (0 for an empty target) |
| ByteStrings.StrRstr | string.go:163-184 | the backward search returns the last occurrence (`len(source)` for an empty target) |
| ByteStrings.RunsAreNonEmptyAndSeparatorFree | string.go:185-207 | every piece StrSlice yields is non-empty and holds no separator |
| ByteStrings.RunsConcatenateToNonSeparators | string.go:185-207 | the pieces, in order, concatenate to the input with its separators removed |
| ByteStrings.RunsAreMaximal | string.go:185-207 | every piece StrSlice yields stands in the input between separators or the ends of the input, so no piece could be longer |
| ByteStrings.StrSlice | string.go:185-207 | the result is the maximal separator-free runs of the input, in order |
| ByteStrings.TakeUntilIsStopPrefix | string.go:208-234 | the pieces handed over are a prefix of all the pieces, and only the last may be one the handler stops at |
| ByteStrings.StrSplit | string.go:208-234 | nothing is handed over without a separator test or a handler; otherwise the runs are handed over up to and including the first one the handler returns true on |
| ByteStrings.JoinSplitOn | string.go:235-257 | joining the pieces with the separator gives back the input |
| ByteStrings.SplitOnPiecesAvoidSep | string.go:235-257 | no piece but the last contains the separator |
| ByteStrings.StrSplitS | string.go:235-257 | an empty source or no handler hands over nothing; an empty separator hands over the whole source; otherwise the separator-delimited pieces are handed over until the handler returns true |
| ByteStrings.StrPaire | string.go:258-270 | empty source gives none; a source without a separator gives itself; otherwise two pieces: the separator-free text before the first separator, and the rest after that one separator byte |
| ByteStrings.StrPaireS | string.go:271-287 | no call without a handler or on an empty source; the whole source and "" when the separator is empty or absent; otherwise the name is the text before the first occurrence, as long as `FirstMatch`'s offset and free of the separator, and the value is the text after that occurrence |
| ByteStrings.StrTrim | string.go:288-299 | the result is a contiguous slice of the input that neither begins nor ends with a separator, with only separators cut on either side |
| LinkedList.ListNode.constructor | list.go:178-203 | a node holds the given links and value |
| LinkedList.List.constructor | list.go:142-147 | the zero list is empty: no nodes, no contents |
| LinkedList.List.Size | list.go:151-155 | `count` is the number of values in the list |
| LinkedList.List.End | list.go:161-166 | the iterator of this list with a nil node |
| LinkedList.List.Front | list.go:167-172 | the first node, or End on an empty list |
| LinkedList.List.Back | list.go:173-177 | the last node, or End on an empty list |
| LinkedList.List.PushBack | list.go:178-190 | the value is appended, the old nodes keep their order, and the iterator is on the new last node |
| LinkedList.List.PushFront | list.go:191-203 | the value is prepended, the old nodes keep their order, and the iterator is on the new first node |
| LinkedList.List.PopFront | list.go:204-222 | an empty list gives none and stays empty; otherwise the first value is removed and returned, and an emptied list has nil `first`/`last` |
| LinkedList.List.PopBack | list.go:223-239 | an empty list gives none and stays empty; otherwise the last value is removed and returned, and an emptied list has nil `first`/`last` |
| LinkedList.List.Clear | list.go:156-160 | afterwards the list is empty with `count == 0`, and every removed node is detached |
| LinkedList.ListIterator.Valid | list.go:35-55 | true exactly when the list exists and the node is End or a node of the list |
| LinkedList.ListIterator.Set | list.go:25-34 | fails exactly on End; otherwise it stores the value in that node and changes no other value |
| LinkedList.ListIterator.Value | list.go:114-123 | none for End or a node outside the list; otherwise the node's value |
| LinkedList.ListIterator.Back | list.go:124-130 | the iterator on the following node, End after the last node, and End for End or a foreign node |
| LinkedList.ListIterator.Front | list.go:134-140 | the iterator on the previous node, End before the first node, and End for End or a foreign node |
| LinkedList.ListIterator.Remove | list.go:61-80 | End on an empty list or a foreign node changes nothing; otherwise exactly that node is unlinked, the rest keep their order, and its value is returned |
| LinkedList.ListIterator.InsertFront | list.go:81-96 | fails with End for End or an invalid iterator; otherwise the value goes immediately before the node |
| LinkedList.ListIterator.InsertBack | list.go:97-113 | fails with End for End or an invalid iterator; otherwise the value goes immediately after the node |
| LinkedList.PopAt | list.go:204-239 | unlinking an end node removes exactly its value and keeps the list well linked |
| LinkedList.Unlink | list.go:61-80 | unlinking a middle node removes exactly its value and keeps the list well linked |
| LinkedList.LinkBefore | list.go:81-96 | a fresh node goes in before position `k`, and the contents gain the value there |
| LinkedList.LinkAfter | list.go:97-113 | a fresh node goes in after position `k`, and the contents gain the value there |
| LinkedList.SplicedIn | list.go:81-113 | links rewired around one new node give a well-linked list whose contents gained that node's value |
| LinkedList.SplicedOut | list.go:61-80 | links rewired around one removed node give a well-linked list whose contents lost exactly its value |
| RBNodes.SubtreeInterval | rbtree.go:86-125 | a node outside a subtree is below every key of it or above every key of it (why in-order walks visit keys in order) |
| RBSearch.InsertionPointFound | rbtree.go:428-453 | where the descent of Find stops without a match, a new node holding `key` goes on the free side and keeps every other node in order |
| RBSearch.SuccIsRightMin | rbtree.go:108-115 | the leftmost node of the right subtree is the in-order successor |
| RBSearch.PredIsLeftMax | rbtree.go:87-93 | the rightmost node of the left subtree is the in-order predecessor |
| RBSearch.SuccAscend | rbtree.go:117-124 | climbing out of a right child keeps the node the largest of the subtree; the first parent reached from a left child is the successor, and reaching the root means the node is the largest |
| RBSearch.PredAscend | rbtree.go:94-102 | climbing out of a left child keeps the node the smallest of the subtree; the first parent reached from a right child is the predecessor, and reaching the root means the node is the smallest |
| RBRotate.RotateShape | rbtree.go:310-353 | a rotation keeps the links consistent, moves the subtrees to their new parents and updates the root when the pivot had no parent |
| RBRotate.RotateOrdered | rbtree.go:310-353 | a rotation keeps every subtree in key order, so the in-order key sequence is unchanged |
| RBInsert.AttachLeaf | rbtree.go:454-476 | the new red leaf under its insertion parent keeps links, order and black heights; the only possible red-red edge is into the new node |
| RBInsert.AttachRoot | rbtree.go:454-476 | the first node, black and without links, is a red-black tree on its own |
| RBInsert.FixAtRoot | rbtree.go:145-149 | painting the root black ends the fixup with a red-black tree |
| RBInsert.FixParentBlack | rbtree.go:150-152 | a black parent ends the fixup with a red-black tree |
| RBInsert.FixRecolor | rbtree.go:153-164 | a red uncle: parent and uncle go black and the grandparent red, which moves the red-red candidate two levels up |
| RBInsert.FixInner | rbtree.go:165-188 | an inner child is rotated to the outside, keeping the invariant and the same rank |
| RBInsert.FixOuter | rbtree.go:189-216 | an outer child with a black uncle: recolour and rotate at the grandparent, giving a red-black tree |
| RBRemove.DelAtRoot | rbtree.go:362-367 | a double-black node at the root ends the fixup |
| RBRemove.DelRedSibling | rbtree.go:373-386 | a red sibling: recolour and rotate at the parent; the invariant holds with a red parent and a black sibling |
| RBRemove.DelPushUp | rbtree.go:387-392 | black parent, sibling and nephews: the sibling goes red and the deficit moves up to the parent |
| RBRemove.DelRedParent | rbtree.go:393-397 | red parent, black sibling and nephews: swapping the two colours ends the fixup |
| RBRemove.DelNearNephew | rbtree.go:398-413 | only the near nephew red: rotating at the sibling makes the far nephew red |
| RBRemove.DelFarNephew | rbtree.go:414-423 | the far nephew red: copying colours and rotating at the parent ends the fixup |
| RBSplice.RemoveRed | rbtree.go:276-289 | splicing out a red non-root node (it has no child) leaves a red-black tree without it |
| RBSplice.RemoveBlackWithChild | rbtree.go:276-297 | a black node with one child: the child is red, takes its place and turns black |
| RBSplice.RemoveBlackLeaf | rbtree.go:276-290 | a black leaf gets a black placeholder in its place, which leaves the one-black deficit the fixup repairs |
| RBSplice.RemoveRootLeaf | rbtree.go:263-274 | removing a root without children leaves the empty tree |
| RBSplice.RemoveRootWithChild | rbtree.go:263-273 | removing a root with one child makes the child the black root |
| RBSplice.UnlinkPlaceholder | rbtree.go:298-306 | after the fixup, unlinking the placeholder from its parent leaves a red-black tree |
| RBSwap.SwapForRemove | rbtree.go:481-490 | the node exchanged with a node that has a right child is its in-order successor; after swapnode the payloads are unchanged and the node can be spliced out |
| RBSwap.SwapInvariants | rbtree.go:231-256 | exchanging a node with its successor by swapping links and colours keeps every invariant, except the key order at the node about to be removed |
| RedBlack.IsBlackLink | rbtree.go:354-360 | a nil link counts as black, and so does any node that is not red |
| RedBlack.RBtree.constructor | rbtree.go:135-142 | an empty tree ordered by the given comparator |
| RedBlack.RBtree.NewNode | map.go:115-117 | `&RBTnode{}` with the key and value filled in: a fresh unlinked red slot is appended to the arena, with `valid` still false, and the tree is unchanged |
| RedBlack.RBtree.SetValue | rbtree.go:35-42 | writing a value through the returned pair changes only that node's value |
| RedBlack.RBtree.Get | rbtree.go:35-42 | nil exactly for the nil node; otherwise the node's key and value |
| RedBlack.RBtree.Find | rbtree.go:428-453 | `false` and a node whose key equals `key` when the key is present; otherwise `true` and the insertion parent, nil on an empty tree |
| RedBlack.RBtree.Begin | rbtree.go:497-508 | nil exactly on an empty tree; otherwise the node with the smallest key |
| RedBlack.RBtree.Rbegin | rbtree.go:509-517 | nil exactly on an empty tree; otherwise the node with the largest key |
| RedBlack.RBtree.Next | rbtree.go:107-125 | nil exactly when the node holds the largest key; otherwise its in-order successor |
| RedBlack.RBtree.Pre | rbtree.go:86-103 | nil exactly when the node holds the smallest key; otherwise its in-order predecessor |
| RedBlack.RBtree.RotateLeft | rbtree.go:310-331 | the arena after a left rotation at `node`, with the root moved when `node` had no parent; payloads unchanged |
| RedBlack.RBtree.RotateRight | rbtree.go:332-353 | the arena after a right rotation at `node`, with the root moved when `node` had no parent; payloads unchanged |
| RedBlack.RBtree.SwapParentLinks | rbtree.go:220-236 | `a` and `b` exchange parents, and each parent's child link is redirected to the other node |
| RedBlack.RBtree.SwapLeftLinks | rbtree.go:237-245 | `a` and `b` exchange left children, and the children's parent links follow |
| RedBlack.RBtree.SwapRightLinks | rbtree.go:246-254 | `a` and `b` exchange right children, and the children's parent links follow |
| RedBlack.RBtree.SwapNode | rbtree.go:231-256 | `swapnode`: `a` and `b` exchange every link and their colours, and keep their payloads |
| RedBlack.RBtree.RedUncle | rbtree.go:153-164 | the red-uncle recolouring, after which the red-red candidate is the grandparent and the rank has dropped |
| RedBlack.RBtree.InnerRotate | rbtree.go:165-188 | the inner-child rotation at the parent, after which the candidate is an outer child |
| RedBlack.RBtree.OuterRotate | rbtree.go:189-216 | the final recolouring and rotation at the grandparent, after which the arena is a red-black tree |
| RedBlack.RBtree.Rotate | rbtree.go:143-217 | the fixup loop ends with a red-black tree over the same nodes with the same payloads |
| RedBlack.RBtree.Insert | rbtree.go:454-476 | the node joins the tree, which stays a red-black tree; with a nil parent it is the black root |
| RedBlack.RBtree.RedSiblingCase | rbtree.go:373-386 | the red-sibling step: recolour and rotate, leaving a red parent and a black sibling |
| RedBlack.RBtree.BlackSiblingCase | rbtree.go:387-392 | the push-up step: the sibling goes red and the deficit moves to the parent, with a smaller rank |
| RedBlack.RBtree.RedParentCase | rbtree.go:393-397 | the red-parent step: the sibling goes red, the parent black, and the fixup is done |
| RedBlack.RBtree.NearNephewCase | rbtree.go:398-413 | the near-nephew step: rotating at the sibling leaves a black sibling with a red far child |
| RedBlack.RBtree.FarNephewCase | rbtree.go:414-423 | the far-nephew step: copy the parent's colour, paint black, rotate at the parent; the fixup is done |
| RedBlack.RBtree.BlackSibling | rbtree.go:368-386 | finds the sibling and, if it is red, rotates it away, so the sibling returned is black |
| RedBlack.RBtree.Settle | rbtree.go:393-423 | the cases after the push-up loop: each ends the fixup |
| RedBlack.RBtree.RemoveCaseN | rbtree.go:361-425 | the double-black fixup loop ends with the placeholder's deficit repaired and the payloads unchanged |
| RedBlack.RBtree.RemoveRoot | rbtree.go:263-274 | removing a root with at most one child leaves a red-black tree without it |
| RedBlack.RBtree.RemoveRedNode | rbtree.go:276-289 | removing a red node leaves a red-black tree without it |
| RedBlack.RBtree.RemoveBlackNode | rbtree.go:276-297 | removing a black node with a child leaves a red-black tree without it |
| RedBlack.RBtree.RemoveBlackLeafNode | rbtree.go:276-306 | removing a black leaf through the placeholder and the fixup leaves a red-black tree without it, and the placeholder is gone |
| RedBlack.RBtree.RemoveOne | rbtree.go:258-307 | `removeone` takes exactly the node out of the tree, which stays a red-black tree, and keeps every payload |
| RedBlack.RBtree.Leftmost | rbtree.go:482-485 | the descent from the right child ends at the smallest node of that subtree, which has no left child |
| RedBlack.RBtree.SwapSuccessor | rbtree.go:481-490 | the node found is the in-order successor; after swapnode (and the root update) the node can be spliced out |
| RedBlack.RBtree.MarkInvalid | rbtree.go:492 | clearing `valid` on a node that left the tree keeps the tree valid |
| RedBlack.RBtree.Remove | rbtree.go:477-493 | an invalid node changes nothing; otherwise exactly that node leaves the tree, which stays a red-black tree with every other payload in place, and the node is marked invalid |
| OrderedMap.View | map.go:109-129 | each tree node contributes its key with its value to the map |
| OrderedMap.ViewKey | map.go:124-129 | every key of the map is held by some tree node |
| OrderedMap.ViewHas | map.go:124-129 | a key is in the map exactly when a tree node holds it |
| OrderedMap.ViewAdd | map.go:115-120 | one more tree node adds its key, which was absent, and the map grows by one |
| OrderedMap.ViewSize | map.go:50-59 | the map has as many keys as the tree has nodes |
| OrderedMap.ViewSetValue | map.go:109-114 | a new value in a tree node updates that key of the map only |
| OrderedMap.ViewInsert | map.go:115-120 | a node joining the tree adds its key with its value |
| OrderedMap.ViewRemove | map.go:96-103 | a node leaving the tree removes its key |
| OrderedMap.MinIsLeast | map.go:74-81 | the smallest tree node holds the smallest key of the map |
| OrderedMap.MaxIsGreatest | map.go:82-90 | the largest tree node holds the largest key of the map |
| OrderedMap.SuccIsFollowing | map.go:18-26 | the in-order successor holds the next key of the map |
| OrderedMap.PredIsPreceding | map.go:27-34 | the in-order predecessor holds the previous key of the map |
| OrderedMap.MapIterator.Next | map.go:18-26 | End stays End; otherwise End exactly after the largest key, else the iterator of the next key |
| OrderedMap.MapIterator.Pre | map.go:27-34 | End stays End; otherwise End exactly before the smallest key, else the iterator of the previous key |
| OrderedMap.MapIterator.IsEnd | map.go:10-14 | true exactly for the iterator that holds no node |
| OrderedMap.MapIterator.Value | map.go:35-41 | nil exactly for End; otherwise the node's key and value, which is an entry of the map |
| OrderedMap.Map.constructor | map.go:60-66 | an empty map with size 0 |
| OrderedMap.Map.Size | map.go:50-59 | the number of keys in the map |
| OrderedMap.Map.End | map.go:91-95 | an iterator that is End |
| OrderedMap.Map.Begin | map.go:74-81 | End exactly on an empty map; otherwise the iterator of the smallest key |
| OrderedMap.Map.Rbegin | map.go:82-90 | End exactly on an empty map; otherwise the iterator of the largest key |
| OrderedMap.Map.Find | map.go:124-129 | End exactly when no key equals `key`; otherwise the iterator of its node |
| OrderedMap.Map.Set | map.go:109-123 | the map maps `key` to `value`. A present key keeps its node, its position and the size, and only its value changes. An absent key gets a new, valid node appended to the arena, the size grows by one, and every old slot keeps its key, value and `valid` flag. The iterator returned holds the key and the value |
| OrderedMap.Map.Add | map.go:115-120 | a new node for an absent key is appended to the arena and joins the tree below its insertion parent, the size grows by one, and every old slot keeps its key, value and `valid` flag |
| OrderedMap.Map.Erase | map.go:96-103 | End or an invalid node changes nothing; otherwise its key leaves the map, the size drops by one, and its slot stays in the arena marked invalid while every other slot keeps its key, value and `valid` flag |
| OrderedMap.Map.Remove | map.go:104-108 | the key leaves the map; an absent key leaves the arena, the map and its size unchanged; a present key's slot is marked invalid and every other slot keeps its key, value and `valid` flag |
| OrderedMap.Map.Clear | map.go:67-73 | the loop ends with an empty map and size 0; every slot keeps its key and value |

## Left out

- Go's `interface{}` keys and values become type parameters `K` and `V`. Keys are compared only through the comparator, which is assumed to be a strict total order whose zero class is equality. Map and tree operations that compare keys require this (`TotalOrder`).
- Heap allocation and garbage collection are not modelled. Nodes live in an arena, and a removed node keeps its slot with `valid` cleared.
  - The temporary placeholder of `removeone` is a fresh arena slot holding a copy of the removed node's key and value. It is appended before the fixup and dropped after it.
- The `//go:nosplit` directives are compiler hints with no meaning for the model.
- Aliasing through the `*RBTpaire` pointer that `Get` and `MapIterator.Value` return is not modelled. Writing a value through it is the explicit operation `SetValue`, and changing a key through it is not modelled.
- `RBTpaire.Key`, the one-line getter at rbtree.go:19-22, is the `first` field of `Pair`.
- The node helpers `isblack`, `isred`, `setblack`, `setred`, `copycolor`, `swapcolor` and `init` are not separate members. Each becomes a colour read or write in the arena: `swapcolor` is part of `SwapNodes`, `copycolor` is part of `FarPaint`, and `init` is `NewNode` and `Placeholder`.
- RedBlack.RBtree.NewNode leaves `valid` false, where Go's `init` (rbtree.go:68) already sets it true. `Insert` sets it (rbtree.go:458) before anything reads it, and the arena invariant requires every valid slot to be a tree node.
- RedBlack.RBtree.InnerRotate and RedBlack.RBtree.OuterRotate make Go's inline rotation statements as calls to `RotateLeft` and `RotateRight`. The order of the individual link writes differs from Go's; the arena they end with is the same.
- The callbacks `issep` and `handler` are pure function parameters, and their side effects are not modelled. `StrSplit` and `StrSplitS` return the sequence of pieces handed to the handler.
- ByteStrings.StrSlice, ByteStrings.StrPaire and ByteStrings.StrTrim assume a non-nil `issep`: it is a total function parameter. Go calls `issep` without a nil check (string.go:189, 263, 290), so a nil `issep` panics there on a non-empty source. Only `StrSplit` checks for nil (string.go:209), and there the model takes `issep` as an `Option`.
- `ListIterator.Destroy` and the node `reset` it calls are not modelled. `Destroy` has a value receiver, so it has no observable effect.
- LinkedList.List.PopFront, LinkedList.List.PopBack and LinkedList.ListIterator.Remove leave the removed node's value in place, where Go sets it to nil (list.go:211, 230, and `reset` at list.go:15). A detached node's value cannot be read, since `Value` checks `Valid()` first (list.go:116).
- ByteStrings.StrSubstr requires `begin` and `size` to be non-negative. Go panics on a negative slice bound.
- ByteStrings.StrSubstr also requires the clamped `begin` plus `size` to be at most `MaxInt`, the largest 64-bit Go `int`. A larger sum wraps to a negative slice bound in Go, which panics.
- ByteStrings.StrRsubstr requires `size` to be non-negative, for the same reason.
- LinkedList.ListIterator.Remove requires a non-End iterator on a non-empty list. On an End iterator of a non-empty list, Go's guard passes and the code then dereferences a nil node.
- OrderedMap.MapIterator.Next, OrderedMap.MapIterator.Pre and OrderedMap.MapIterator.Value take the tree as a parameter, since Go reaches it through the node's links. They require the iterator to be End or a node of the tree, so an iterator left dangling after its node was erased is not modelled.
- OrderedMap.Map.Erase requires the iterator's node to be End or a slot of the arena. Every iterator this map hands out stays one, because `Set`, `Erase`, `Remove` and `Clear` never shrink the arena.
- OrderedMap.Map.Size and `Map.size` are unbounded naturals. Go's `uint64` counter cannot overflow at any reachable size.
- RedBlack.RBtree.RemoveOne does not promise what the ghost subtree map `sub` becomes, because the fixup rotations rearrange it. Only the set of tree nodes and the invariant are stated.
- Several Go functions are split into helper methods, one per branch, each with its own contract:
  - `rotate` becomes RedUncle, InnerRotate and OuterRotate.
  - `removeCaseN` becomes BlackSibling, BlackSiblingCase and Settle.
  - `removeone` becomes RemoveRoot, RemoveRedNode, RemoveBlackNode and RemoveBlackLeafNode.
  - `swapnode` becomes SwapParentLinks, SwapLeftLinks and SwapRightLinks.
  - `Remove` becomes Leftmost, SwapSuccessor and MarkInvalid.
  - `Set` becomes Set and Add.
- The tree-height bound and complexity claims are not stated.
- There is no concurrency in the source, and none is modelled.
