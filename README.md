# CapNation store core in Dafny

This project models the back end of CapNation, a shop that sells caps, and proves properties of the model. The back end keeps caps in three text files:

- the cap file, one line per cap;
- the index file, one `id,position` line per indexed cap;
- the brand file, one line per brand with the ids of that brand's caps.

The modelled core is:

- **The B+ tree** (`BPlusTree.java`), modules `BPlusTreeModel`, `BPlusTreeSplit`, `BPlusTreeInsert`, `BPlusTreeParent`, `BPlusTreeQueries` and `BPlusTreeIndex`.
  - The class `BPlusTree` keeps its nodes in a sequence and links them by position. `root`, `firstLeaf`, `next` and `children` hold such positions.
  - Ghost fields record each node's key interval, height and parent, and the leaves in link order.
  - Every method is proved against the map the tree stands for: `Contents`, the map of the pairs `getAll` walks (`Entries`).
- **The repository** (`CapRepositoryFileBasedImpl.java`), class `CapRepository.CapRepositoryFileBased`.
  - It holds `capList`, the index tree `capIndex` and `brandList`.
  - Each file is a string field; appending and overwriting change it.
  - Its file formats and their round trips are proved in `RepositoryFiles`.
- **The records and codecs:**
  - `Cap` and its builder (`CapModel`);
  - `BrandIndex` and its builder (`BrandIndexModel`);
  - the cap, brand and user line formats (`CapFormatter`, `BrandIndexFormatter`, `UserFormatter`);
  - the index line (`IndexModel`).
- **The service's validation** (`CapServiceImplementation.java`), module `CapService`.
- **Java library behaviour** the code relies on, in `Text`: `String.split` with its dropping of trailing empty fields, `toLowerCase`, `isBlank`, `trim`, `Long.parseLong`, `Integer.parseInt`, and `BufferedReader.lines()`. The shared exceptions and `Option`/`Result` types are in `Common`.

Java exceptions are values of a `Result` type. `null` is `None` where the code checks for it.

The model follows the code where it misbehaves:

- **`insert` into a full leaf splits the leaf but stores the new pair nowhere.** `BPlusTreeQueries.LostInsertExample` proves it on the sequence 5, 1, 9, 3 in an order-4 tree: the tree ends with 1, 5 and 9. The documentation of `insert` (`BPlusTree.java:40-46`) promises that every inserted pair is stored; the model follows the code, where 3 is lost.
- **`save` can therefore append a cap whose id never reaches the index.** `Store` states this case explicitly.
- **`capToText` leaves out the price**, although its documentation lists it (`CapFormatter.PriceNotWritten`).
- **`isEmpty` looks only at the first leaf.** After a delete it can answer true while keys remain (`BPlusTreeQueries.IsEmptyMisreports`). Without deletes it answers correctly (`PackedIsEmpty`).
- **`handleUnderflow` only acts on the root, but `delete` never calls it with the root**, so in effect it never changes the tree.

## Model

| member | source | states |
|---|---|---|
| BPlusTreeIndex.BPlusTree.constructor | capnation-back/src/main/java/com/machines/capnation/model/DataStructures/BPlusTree.java:31-38 | the new tree is one empty leaf that is both the root and the first leaf, and it satisfies the tree invariant |
| BPlusTreeIndex.BPlusTree.Create | capnation-back/src/main/java/com/machines/capnation/model/DataStructures/BPlusTree.java:31-38 | an order below 3 is refused with IllegalArgumentException (and only then); any other order gives the empty tree |
| BPlusTreeIndex.BPlusTree.FindLeafNode | capnation-back/src/main/java/com/machines/capnation/model/DataStructures/BPlusTree.java:195-208 | the leaf reached by advancing past every key not above the search key, level by level from the root |
| BPlusTreeIndex.BPlusTree.ScanInsertPos | capnation-back/src/main/java/com/machines/capnation/model/DataStructures/BPlusTree.java:321-324 | the scan stops at the first key not below the new key |
| BPlusTreeIndex.BPlusTree.LeafInsert | capnation-back/src/main/java/com/machines/capnation/model/DataStructures/BPlusTree.java:320-339 | succeeds exactly when the key is already in the leaf or the leaf holds fewer than order - 1 keys; on success the leaf gets the key in sorted position (or its value replaced) and the stored map is updated at the key; on failure nothing changes |
| BPlusTreeIndex.BPlusTree.SplitLeaf | capnation-back/src/main/java/com/machines/capnation/model/DataStructures/BPlusTree.java:341-355 | the pairs from position (order - 1) / 2 on move to a new leaf linked in right after the old one, which keeps the lower half |
| BPlusTreeIndex.BPlusTree.NewRoot | capnation-back/src/main/java/com/machines/capnation/model/DataStructures/BPlusTree.java:63-69 | a new root with one key over the two halves; the tree is valid again, one level taller, with the same pairs and leaves |
| BPlusTreeIndex.BPlusTree.FindParent | capnation-back/src/main/java/com/machines/capnation/model/DataStructures/BPlusTree.java:210-229 | the depth-first search answers what the recursive search over the children in order answers |
| BPlusTreeIndex.BPlusTree.AddChild | capnation-back/src/main/java/com/machines/capnation/model/DataStructures/BPlusTree.java:232-238 | the key goes before the first larger key and the new child right after the position of that key |
| BPlusTreeIndex.BPlusTree.SplitInternal | capnation-back/src/main/java/com/machines/capnation/model/DataStructures/BPlusTree.java:240-252 | the key at order / 2 moves up and stays in neither half; the keys and children after it move to a new internal node |
| BPlusTreeIndex.BPlusTree.InsertIntoParent | capnation-back/src/main/java/com/machines/capnation/model/DataStructures/BPlusTree.java:231-263 | after hanging the split-off node in its parent, splitting upwards as often as needed, the tree is valid with the same pairs and the same leaves |
| BPlusTreeIndex.BPlusTree.SplitFullLeaf | capnation-back/src/main/java/com/machines/capnation/model/DataStructures/BPlusTree.java:59-74 | splitting a full leaf and pushing its right half's first key up keeps the tree valid and keeps exactly the pairs it had |
| BPlusTreeIndex.BPlusTree.Insert | capnation-back/src/main/java/com/machines/capnation/model/DataStructures/BPlusTree.java:47-75 | a null key is refused with nothing changed; when the reached leaf has room or holds the key the stored map becomes the old one updated at the key; otherwise the leaf is split and the key is not stored at all |
| BPlusTreeIndex.BPlusTree.Search | capnation-back/src/main/java/com/machines/capnation/model/DataStructures/BPlusTree.java:83-91 | a null key is refused; otherwise the value stored for the key, or none |
| BPlusTreeIndex.BPlusTree.Delete | capnation-back/src/main/java/com/machines/capnation/model/DataStructures/BPlusTree.java:99-120 | a null key is refused; the answer is whether the key was stored; a stored key is removed from its leaf with nothing else changed, and an absent key changes nothing |
| BPlusTreeIndex.BPlusTree.HandleUnderflow | capnation-back/src/main/java/com/machines/capnation/model/DataStructures/BPlusTree.java:265-271 | the tree is unchanged as a map and stays valid; an empty leaf root is replaced by an empty leaf that is the root and the first leaf |
| BPlusTreeIndex.BPlusTree.RangeQuery | capnation-back/src/main/java/com/machines/capnation/model/DataStructures/BPlusTree.java:129-146 | exactly the stored pairs with start <= key <= end, in the order of the leaf chain |
| BPlusTreeIndex.BPlusTree.CollectInRange | capnation-back/src/main/java/com/machines/capnation/model/DataStructures/BPlusTree.java:134-141 | one leaf's pass collects its pairs inside the range and stops at the first key above the end |
| BPlusTreeIndex.BPlusTree.GetAll | capnation-back/src/main/java/com/machines/capnation/model/DataStructures/BPlusTree.java:153-165 | every pair, leaf after leaf from the first leaf |
| BPlusTreeIndex.BPlusTree.AppendPairs | capnation-back/src/main/java/com/machines/capnation/model/DataStructures/BPlusTree.java:158-160 | the pairs of one leaf, appended in key order |
| BPlusTreeIndex.BPlusTree.Size | capnation-back/src/main/java/com/machines/capnation/model/DataStructures/BPlusTree.java:172-182 | the number of pairs over all leaves, which is the number of stored keys |
| BPlusTreeIndex.BPlusTree.IsEmpty | capnation-back/src/main/java/com/machines/capnation/model/DataStructures/BPlusTree.java:189-191 | true exactly when the first leaf holds no key; in a tree without empty leaves (one that was only inserted into) that is exactly when nothing is stored |
| BPlusTreeModel.RoutePosIs | capnation-back/src/main/java/com/machines/capnation/model/DataStructures/BPlusTree.java:200-203 | the descent position is the one with every earlier key at or below the search key and the next key above it |
| BPlusTreeModel.InsertPosIs | capnation-back/src/main/java/com/machines/capnation/model/DataStructures/BPlusTree.java:321-324 | the insert position is the one with every earlier key below the new key and the next key not below it |
| BPlusTreeModel.IndexOf | capnation-back/src/main/java/com/machines/capnation/model/DataStructures/BPlusTree.java:157-162 | the first position of a leaf in the leaf chain |
| BPlusTreeModel.Zip | capnation-back/src/main/java/com/machines/capnation/model/DataStructures/BPlusTree.java:158-159 | the i-th pair of a leaf is its i-th key with its i-th value |
| BPlusTreeModel.Empty | capnation-back/src/main/java/com/machines/capnation/model/DataStructures/BPlusTree.java:31-38 | the tree of one empty leaf is valid and holds no pair |
| BPlusTreeModel.Descend | capnation-back/src/main/java/com/machines/capnation/model/DataStructures/BPlusTree.java:195-208 | the descent from the root ends at a leaf |
| BPlusTreeModel.DescendWithin | capnation-back/src/main/java/com/machines/capnation/model/DataStructures/BPlusTree.java:195-208 | the leaf the descent reaches is the one whose key interval holds the search key |
| BPlusTreeModel.LeafLookup | capnation-back/src/main/java/com/machines/capnation/model/DataStructures/BPlusTree.java:88-90 | a key is stored exactly when it is in the leaf the descent reaches, and its stored value is the value beside it there |
| BPlusTreeModel.EntriesSorted | capnation-back/src/main/java/com/machines/capnation/model/DataStructures/BPlusTree.java:153-165 | walking the leaf chain lists the pairs in strictly ascending key order |
| BPlusTreeModel.PutCases | capnation-back/src/main/java/com/machines/capnation/model/DataStructures/BPlusTree.java:320-339 | a key already in the leaf has its value replaced in place; an absent key is inserted with its value at the first position whose key is larger |
| BPlusTreeModel.LeafPut | capnation-back/src/main/java/com/machines/capnation/model/DataStructures/BPlusTree.java:320-339 | a successful leaf insert keeps the keys strictly ascending and aligned with the values, adds exactly the new key, and maps it to the new value |
| BPlusTreeModel.LeafRemove | capnation-back/src/main/java/com/machines/capnation/model/DataStructures/BPlusTree.java:110-111 | removing one pair keeps the leaf sorted and removes exactly that key from the leaf's map |
| BPlusTreeModel.WithLeafValid | capnation-back/src/main/java/com/machines/capnation/model/DataStructures/BPlusTree.java:320-339 | rewriting one leaf with sorted pairs inside its interval and within its capacity keeps the tree valid |
| BPlusTreeModel.PutContents | capnation-back/src/main/java/com/machines/capnation/model/DataStructures/BPlusTree.java:320-339 | a successful insert into the leaf responsible for the key updates the stored map at that key and nowhere else |
| BPlusTreeModel.RemoveContents | capnation-back/src/main/java/com/machines/capnation/model/DataStructures/BPlusTree.java:110-111 | removing a pair from the leaf responsible for its key removes exactly that key from the stored map |
| BPlusTreeSplit.SplitLeafPending | capnation-back/src/main/java/com/machines/capnation/model/DataStructures/BPlusTree.java:341-355 | splitting a full leaf gives a new right leaf with at least one key whose first key separates the halves; the pairs in chain order are unchanged |
| BPlusTreeSplit.GrowValid | capnation-back/src/main/java/com/machines/capnation/model/DataStructures/BPlusTree.java:63-69 | when the split node was the root, a new root over both halves restores the invariant, keeps the pairs and adds one level |
| BPlusTreeSplit.SpliceInv | capnation-back/src/main/java/com/machines/capnation/model/DataStructures/BPlusTree.java:232-238 | hanging the new node in the parent of the split node keeps the invariant except that the parent may now hold order keys |
| BPlusTreeSplit.SplitKeysOrder | capnation-back/src/main/java/com/machines/capnation/model/DataStructures/BPlusTree.java:240-250 | the keys kept before the middle key and those moved after it stay sorted and on the correct side of the key that moves up |
| BPlusTreeSplit.SplitInternalPending | capnation-back/src/main/java/com/machines/capnation/model/DataStructures/BPlusTree.java:240-252 | splitting an internal node that reached order keys gives a pending split with the middle key as separator and the same pairs |
| BPlusTreeSplit.RelaxedValid | capnation-back/src/main/java/com/machines/capnation/model/DataStructures/BPlusTree.java:240 | once the parent holds at most order - 1 keys, the tree is valid and no further split is needed |
| BPlusTreeInsert.LeafSplitStep | capnation-back/src/main/java/com/machines/capnation/model/DataStructures/BPlusTree.java:59-61 | splitting the full leaf reached by insert leaves the tree one splice away from valid, with the same root and pairs |
| BPlusTreeInsert.SpliceStep | capnation-back/src/main/java/com/machines/capnation/model/DataStructures/BPlusTree.java:236-237 | the parent splice keeps the pairs and the leaves, and the invariant holds except for that parent's key count |
| BPlusTreeInsert.SplitStep | capnation-back/src/main/java/com/machines/capnation/model/DataStructures/BPlusTree.java:240-252 | splitting an overfull parent keeps the pairs, the leaves and the height of the root, and leaves a split pending one level up |
| BPlusTreeInsert.ClimbStep | capnation-back/src/main/java/com/machines/capnation/model/DataStructures/BPlusTree.java:258-260 | the parent the recursion climbs to is the one findParent returns, and it is one level higher, at most at the root's height |
| BPlusTreeParent.FindParentSound | capnation-back/src/main/java/com/machines/capnation/model/DataStructures/BPlusTree.java:210-229 | whatever findParent answers is an internal node listing the child among its children, and is the child's recorded parent |
| BPlusTreeParent.FindParentFinds | capnation-back/src/main/java/com/machines/capnation/model/DataStructures/BPlusTree.java:210-229 | findParent from an ancestor finds the parent of every linked node |
| BPlusTreeParent.FindParentPending | capnation-back/src/main/java/com/machines/capnation/model/DataStructures/BPlusTree.java:72-73 | right after a split below the root, findParent(root, node) returns the split node's parent |
| BPlusTreeQueries.KeyIndex | capnation-back/src/main/java/com/machines/capnation/model/DataStructures/BPlusTree.java:89 | the first position of the key in the leaf, or -1 exactly when the leaf lacks the key |
| BPlusTreeQueries.PutStores | capnation-back/src/main/java/com/machines/capnation/model/DataStructures/BPlusTree.java:54-57 | when the leaf insert succeeds, the tree stays valid and maps the key to the new value, all else unchanged |
| BPlusTreeQueries.LostInsert | capnation-back/src/main/java/com/machines/capnation/model/DataStructures/BPlusTree.java:54-74 | when the leaf insert fails the key was not stored and its leaf is full, and insert stores it nowhere |
| BPlusTreeQueries.InsertOutcome | capnation-back/src/main/java/com/machines/capnation/model/DataStructures/BPlusTree.java:52-74 | the key belongs to the reached leaf; either the leaf insert stores the pair or the leaf is full and the key stays absent |
| BPlusTreeQueries.PutRoot | capnation-back/src/main/java/com/machines/capnation/model/DataStructures/BPlusTree.java:52-57 | while the root is a leaf, insert works on the root leaf |
| BPlusTreeQueries.PutOneLeaf | capnation-back/src/main/java/com/machines/capnation/model/DataStructures/BPlusTree.java:320-339 | an insert into a one-leaf tree rewrites that leaf and updates the map at the key |
| BPlusTreeQueries.LostInsertFirst | capnation-back/src/main/java/com/machines/capnation/model/DataStructures/BPlusTree.java:47-75 | inserting 5 into an empty tree of order 4 stores it |
| BPlusTreeQueries.LostInsertSecond | capnation-back/src/main/java/com/machines/capnation/model/DataStructures/BPlusTree.java:320-339 | then inserting 1 stores it before 5 |
| BPlusTreeQueries.LostInsertThird | capnation-back/src/main/java/com/machines/capnation/model/DataStructures/BPlusTree.java:320-339 | then inserting 9 stores it and fills the leaf |
| BPlusTreeQueries.LostInsertExample | capnation-back/src/main/java/com/machines/capnation/model/DataStructures/BPlusTree.java:54-74 | then inserting 3 meets a full leaf: the tree holds 1, 5 and 9 and 3 is not stored |
| BPlusTreeQueries.RemoveLeaf | capnation-back/src/main/java/com/machines/capnation/model/DataStructures/BPlusTree.java:110-111 | removing a pair from a leaf without merging or redistribution keeps the tree valid and removes exactly that key |
| BPlusTreeQueries.RemoveDeletes | capnation-back/src/main/java/com/machines/capnation/model/DataStructures/BPlusTree.java:99-120 | delete of a stored key keeps the tree valid and removes exactly that key from the stored map |
| BPlusTreeQueries.RootLeafAlone | capnation-back/src/main/java/com/machines/capnation/model/DataStructures/BPlusTree.java:265-271 | a leaf root is the first and only leaf and links to nothing, so replacing an empty one changes nothing observable |
| BPlusTreeQueries.EntriesAreContents | capnation-back/src/main/java/com/machines/capnation/model/DataStructures/BPlusTree.java:153-165 | getAll lists a pair exactly when the tree stores that key with that value |
| BPlusTreeQueries.SizeIsCount | capnation-back/src/main/java/com/machines/capnation/model/DataStructures/BPlusTree.java:172-182 | size() counts every pair of every leaf, which is the number of stored keys |
| BPlusTreeQueries.InRangeMembers | capnation-back/src/main/java/com/machines/capnation/model/DataStructures/BPlusTree.java:136-137 | the range result holds a pair exactly when the pair is stored and start <= key <= end |
| BPlusTreeQueries.InRangeSorted | capnation-back/src/main/java/com/machines/capnation/model/DataStructures/BPlusTree.java:129-146 | the range result is in ascending key order |
| BPlusTreeQueries.RangeStart | capnation-back/src/main/java/com/machines/capnation/model/DataStructures/BPlusTree.java:131 | no leaf before the one findLeafNode(start) reaches holds a key inside the range |
| BPlusTreeQueries.RangeStop | capnation-back/src/main/java/com/machines/capnation/model/DataStructures/BPlusTree.java:138-139 | once a key above the end is met, nothing after it is in the range |
| BPlusTreeQueries.PackedIsEmpty | capnation-back/src/main/java/com/machines/capnation/model/DataStructures/BPlusTree.java:189-191 | in a tree with no empty leaf beside a root leaf, the first leaf is empty exactly when nothing is stored |
| BPlusTreeQueries.PackedSplitLeaf | capnation-back/src/main/java/com/machines/capnation/model/DataStructures/BPlusTree.java:341-349 | a leaf split leaves keys in both halves, so no leaf becomes empty |
| BPlusTreeQueries.PackedPut | capnation-back/src/main/java/com/machines/capnation/model/DataStructures/BPlusTree.java:320-339 | a successful leaf insert never empties a leaf |
| BPlusTreeQueries.MisreportFill | capnation-back/src/main/java/com/machines/capnation/model/DataStructures/BPlusTree.java:320-339 | inserting 1 and 2 into an empty tree of order 3 fills the root leaf |
| BPlusTreeQueries.MisreportSplitState | capnation-back/src/main/java/com/machines/capnation/model/DataStructures/BPlusTree.java:341-355 | the split puts 1 and 2 into two linked leaves |
| BPlusTreeQueries.MisreportGrow | capnation-back/src/main/java/com/machines/capnation/model/DataStructures/BPlusTree.java:63-69 | a new root over the two leaves gives a valid tree holding 1 and 2 |
| BPlusTreeQueries.IsEmptyMisreports | capnation-back/src/main/java/com/machines/capnation/model/DataStructures/BPlusTree.java:99-120 | deleting 1 then empties the first leaf, which stays in place, so isEmpty() answers true while 2 is still stored |
| CapModel.SimilarIsEqualUpToId | capnation-back/src/main/java/com/machines/capnation/model/Cap.java:96-98 | two caps are similar exactly when giving one the other's id makes them equal |
| CapModel.SimilarFacts | capnation-back/src/main/java/com/machines/capnation/model/Cap.java:96-98 | similar is reflexive and symmetric and holds between equal caps |
| CapModel.SimilarIgnoresId | capnation-back/src/main/java/com/machines/capnation/model/Cap.java:105-107 | changing either cap's id never changes similar |
| CapModel.EqualsImpliesSimilar | capnation-back/src/main/java/com/machines/capnation/model/Cap.java:72-77 | equal caps are similar, and a cap is similar to itself |
| CapModel.Cap.constructor | capnation-back/src/main/java/com/machines/capnation/model/Cap.java:84-94 | the new cap holds exactly the nine given fields |
| CapModel.Cap.SetId | capnation-back/src/main/java/com/machines/capnation/model/Cap.java:105-107 | the id becomes the argument and every other field is as before |
| CapModel.Cap.SetBrand | capnation-back/src/main/java/com/machines/capnation/model/Cap.java:113-115 | the brand becomes the argument and every other field is as before |
| CapModel.Cap.SetStyle | capnation-back/src/main/java/com/machines/capnation/model/Cap.java:121-123 | the style becomes the argument and every other field is as before |
| CapModel.Cap.SetColor | capnation-back/src/main/java/com/machines/capnation/model/Cap.java:129-131 | the color becomes the argument and every other field is as before |
| CapModel.Cap.SetCollaboration | capnation-back/src/main/java/com/machines/capnation/model/Cap.java:137-139 | the collaboration becomes the argument and every other field is as before |
| CapModel.Cap.SetPrice | capnation-back/src/main/java/com/machines/capnation/model/Cap.java:145-147 | the price becomes the argument and every other field is as before |
| CapModel.Cap.SetSize | capnation-back/src/main/java/com/machines/capnation/model/Cap.java:153-155 | the size becomes the argument and every other field is as before |
| CapModel.Cap.SetGender | capnation-back/src/main/java/com/machines/capnation/model/Cap.java:161-163 | the gender becomes the argument and every other field is as before |
| CapModel.Cap.SetStock | capnation-back/src/main/java/com/machines/capnation/model/Cap.java:169-171 | the stock becomes the argument and every other field is as before |
| CapModel.CapBuilder.constructor | capnation-back/src/main/java/com/machines/capnation/model/Cap.java:28-35 | the pending cap has the six given fields, id 0, and no collaboration or gender |
| CapModel.CapBuilder.Build | capnation-back/src/main/java/com/machines/capnation/model/Cap.java:37-39 | a fresh cap holding the pending fields |
| CapModel.CapBuilder.SetCollaboration | capnation-back/src/main/java/com/machines/capnation/model/Cap.java:41-44 | returns the builder itself with only the collaboration changed |
| CapModel.CapBuilder.SetGender | capnation-back/src/main/java/com/machines/capnation/model/Cap.java:46-49 | returns the builder itself with only the gender changed |
| CapModel.CapBuilder.SetId | capnation-back/src/main/java/com/machines/capnation/model/Cap.java:51-54 | returns the builder itself with only the id changed |
| CapFormatter.CapFields | capnation-back/src/main/java/com/machines/capnation/formatter/CapFormatter.java:15-24 | the eight fields written: id, style, color, brand, collaboration or "-", size, gender or "-", stock |
| CapFormatter.CapToTextSplits | capnation-back/src/main/java/com/machines/capnation/formatter/CapFormatter.java:15-24 | with no comma in color, brand and collaboration the line splits back into exactly those eight fields and holds 7 separators |
| CapFormatter.PriceNotWritten | capnation-back/src/main/java/com/machines/capnation/formatter/CapFormatter.java:12 | two caps that differ only in price have the same line |
| CapFormatter.CapToTextWithoutOptionals | capnation-back/src/test/java/com/machines/capnation/formatter/CapFormatterTest.java:15-19 | a cap without collaboration and gender is written as 1,BASEBALL_CAP,Black,addidas,-,LARGE,-,3 |
| CapFormatter.CapToTextWithOptionals | capnation-back/src/test/java/com/machines/capnation/formatter/CapFormatterTest.java:41-49 | with collaboration BMW and gender MALE it is written as 1,BASEBALL_CAP,Black,addidas,BMW,LARGE,MALE,3 |
| BrandIndexModel.BrandIndex.constructor | capnation-back/src/main/java/com/machines/capnation/model/index/BrandIndex.java:11-14 | the new entry holds the given brand and id list |
| BrandIndexModel.BrandIndex.AppendCap | capnation-back/src/main/java/com/machines/capnation/model/index/BrandIndex.java:37-39 | the id goes at the end of the list, earlier ids and the brand stay, and the answer is true |
| BrandIndexModel.EqualsIsSameValue | capnation-back/src/main/java/com/machines/capnation/model/index/BrandIndex.java:17-21 | two entries are equal exactly when their brands and id lists are equal |
| BrandIndexModel.BrandIndexBuilder.constructor | capnation-back/src/main/java/com/machines/capnation/model/index/BrandIndex.java:46-49 | the pending entry has a null brand and an empty id list |
| BrandIndexModel.BrandIndexBuilder.SetBrand | capnation-back/src/main/java/com/machines/capnation/model/index/BrandIndex.java:55-59 | returns the builder itself with the brand set to the argument lower-cased, so the brand is lower case |
| BrandIndexModel.BrandIndexBuilder.SetCaps | capnation-back/src/main/java/com/machines/capnation/model/index/BrandIndex.java:61-64 | returns the builder itself with the id list replaced wholesale |
| BrandIndexModel.BrandIndexBuilder.Build | capnation-back/src/main/java/com/machines/capnation/model/index/BrandIndex.java:51-53 | a fresh entry holding the pending brand and ids |
| BrandIndexFormatter.BrandIndexToText | capnation-back/src/main/java/com/machines/capnation/formatter/BrandIndexFormatter.java:10-23 | the loop writes the brand, a comma, then the ids joined by commas with none after the last |
| BrandIndexFormatter.AppendedAll | capnation-back/src/main/java/com/machines/capnation/formatter/BrandIndexFormatter.java:15-21 | after the last round the loop has written the ids joined by commas |
| BrandIndexFormatter.ParseIdsMeaning | capnation-back/src/main/java/com/machines/capnation/formatter/BrandIndexFormatter.java:34-36 | parsing succeeds exactly when every field is a number and then yields each field's value in order; otherwise NumberFormatException |
| BrandIndexFormatter.DecodeBrandLine | capnation-back/src/main/java/com/machines/capnation/formatter/BrandIndexFormatter.java:26-38 | a decoded entry always has a lower-case brand |
| BrandIndexFormatter.DecodeBrandLineMeaning | capnation-back/src/main/java/com/machines/capnation/formatter/BrandIndexFormatter.java:26-38 | a line of commas only fails in iterator.next(); a non-numeric later field fails with NumberFormatException; otherwise the brand is the first field lower-cased and the ids are the later fields parsed in order |
| BrandIndexFormatter.TextToBrandIndex | capnation-back/src/main/java/com/machines/capnation/formatter/BrandIndexFormatter.java:26-38 | fails exactly when the line does not decode, with the same exception; otherwise a fresh entry holding the decoded brand and ids |
| BrandIndexFormatter.ParseShowAll | capnation-back/src/main/java/com/machines/capnation/formatter/BrandIndexFormatter.java:35 | printed ids parse back to themselves |
| BrandIndexFormatter.BrandTextFields | capnation-back/src/main/java/com/machines/capnation/formatter/BrandIndexFormatter.java:10-23 | a written line splits into the brand followed by the printed ids |
| BrandIndexFormatter.DecodeBrandText | capnation-back/src/test/java/com/machines/capnation/formatter/BrandIndexFormatterTest.java:14-33 | decoding the line of an entry with a lower-case, comma-free brand gives the same entry, the empty id list included |
| BrandIndexFormatter.BrandTextWithoutIds | capnation-back/src/main/java/com/machines/capnation/formatter/BrandIndexFormatter.java:12-21 | an entry with no ids is written as the brand followed by a comma |
| IndexModel.ParseIndexLine | capnation-back/src/main/java/com/machines/capnation/model/Index.java:34-40 | a RuntimeException exactly when the line does not split into two fields; with two fields, any failure is a NumberFormatException |
| IndexModel.Index.constructor | capnation-back/src/main/java/com/machines/capnation/model/Index.java:9-12 | the index holds the given key and direction |
| IndexModel.Index.SetKey | capnation-back/src/main/java/com/machines/capnation/model/Index.java:18-20 | only the key changes |
| IndexModel.Index.SetDirection | capnation-back/src/main/java/com/machines/capnation/model/Index.java:26-28 | only the direction changes |
| IndexModel.Index.FromLine | capnation-back/src/main/java/com/machines/capnation/model/Index.java:34-40 | fails exactly when the line does not parse, with the same exception; otherwise a fresh index with the two parsed numbers |
| IndexModel.IndexLineFields | capnation-back/src/main/java/com/machines/capnation/model/Index.java:30-32 | a written line splits into the printed key and the printed direction |
| IndexModel.IndexLineRoundTrip | capnation-back/src/main/java/com/machines/capnation/model/Index.java:30-40 | reading a written line gives back the key and the direction, for every non-null key |
| IndexModel.NullKeyLine | capnation-back/src/main/java/com/machines/capnation/model/Index.java:31 | a null key is written as null, which reading refuses with NumberFormatException |
| IndexModel.OneFieldLine | capnation-back/src/main/java/com/machines/capnation/model/Index.java:36-39 | a line without a comma is refused as invalid |
| UserFormatter.UserFields | capnation-back/src/main/java/com/machines/capnation/formatter/UserFormatter.java:15-22 | the five fields written: id, name, email, password, role |
| UserFormatter.RoleValueOf | capnation-back/src/main/java/com/machines/capnation/formatter/UserFormatter.java:32 | succeeds exactly for the name of a role constant, with that role; otherwise IllegalArgumentException |
| UserFormatter.TextToUser | capnation-back/src/main/java/com/machines/capnation/formatter/UserFormatter.java:30-34 | fewer than five fields fail with an index error, an unknown role with IllegalArgumentException, a bad id with NumberFormatException; otherwise fields 1-4 and the parsed id |
| UserFormatter.UserToTextSplits | capnation-back/src/main/java/com/machines/capnation/formatter/UserFormatter.java:15-22 | with no comma in name, email and password, the line splits into exactly its five fields |
| UserFormatter.UserRoundTrip | capnation-back/src/test/java/com/machines/capnation/formatter/UserFormatterTest.java:13-33 | reading a written line gives the same user when name, email and password hold no comma |
| UserFormatter.ExtraFieldsIgnored | capnation-back/src/main/java/com/machines/capnation/formatter/UserFormatter.java:31-33 | only the first five fields are read: lines that agree on them read the same |
| UserFormatter.UserToTextExample | capnation-back/src/test/java/com/machines/capnation/formatter/UserFormatterTest.java:25-32 | the user of the tests is written as its five fields in order |
| Text.JavaSplitJoin | capnation-back/src/main/java/com/machines/capnation/model/Index.java:35 | String.split undoes joining when there are at least two pieces, none holds the separator and the last is not empty |
| Text.RawSplitJoin | capnation-back/src/main/java/com/machines/capnation/formatter/BrandIndexFormatter.java:27 | splitting with empty pieces kept undoes joining |
| Text.RawSplitCount | capnation-back/src/main/java/com/machines/capnation/formatter/CapFormatter.java:15-24 | a split gives one piece more than there are separators |
| Text.Lower | capnation-back/src/main/java/com/machines/capnation/model/index/BrandIndex.java:57 | lower-casing keeps the length and lower-cases each letter |
| Text.LowerFacts | capnation-back/src/main/java/com/machines/capnation/model/index/BrandIndex.java:57 | a lower-cased string is lower case, lower-casing twice is lower-casing once, and a lower-case string is unchanged |
| Text.ParseLong | capnation-back/src/main/java/com/machines/capnation/model/Index.java:37 | Long.parseLong succeeds exactly for an ASCII decimal numeral in the long range; otherwise NumberFormatException |
| Text.ParseInt | capnation-back/src/main/java/com/machines/capnation/model/Index.java:37 | Integer.parseInt succeeds exactly for an ASCII decimal numeral in the int range; otherwise NumberFormatException |
| Text.ParseLongShow | capnation-back/src/main/java/com/machines/capnation/model/Index.java:30-37 | parsing a printed long gives it back |
| Text.ParseIntShow | capnation-back/src/main/java/com/machines/capnation/model/Index.java:30-37 | parsing a printed int gives it back |
| Text.ShowIntChars | capnation-back/src/main/java/com/machines/capnation/repository/filebased/CapRepositoryFileBasedImpl.java:275-276 | a printed number is non-empty, has no comma and is unchanged by trim |
| Text.LinesAppend | capnation-back/src/main/java/com/machines/capnation/repository/filebased/CapRepositoryFileBasedImpl.java:300 | appending a terminator and a line adds that line to the lines the reader sees (after an empty one when the file ended with a terminator) |
| Text.LinesJoin | capnation-back/src/main/java/com/machines/capnation/repository/filebased/CapRepositoryFileBasedImpl.java:332-337 | lines joined by terminators read back as the same lines |
| Text.ConstantNameCommaFree | capnation-back/src/main/java/com/machines/capnation/formatter/CapFormatter.java:17 | an enum constant name holds no comma or terminator and is not empty |
| RepositoryFiles.DecodeLinesStops | capnation-back/src/main/java/com/machines/capnation/repository/filebased/CapRepositoryFileBasedImpl.java:230-233 | once a line fails to decode, reading the file fails with that line's exception |
| RepositoryFiles.DecodeNext | capnation-back/src/main/java/com/machines/capnation/repository/filebased/CapRepositoryFileBasedImpl.java:230-233 | one more line: a blank line adds nothing, a failing line is the error, another line adds its value |
| RepositoryFiles.DecodeAppendedLine | capnation-back/src/main/java/com/machines/capnation/repository/filebased/CapRepositoryFileBasedImpl.java:298-305 | a file a line was appended to reads as the old lines followed by that line |
| RepositoryFiles.DecodeSkipsBlank | capnation-back/src/main/java/com/machines/capnation/repository/filebased/CapRepositoryFileBasedImpl.java:231 | a trailing empty line is skipped |
| RepositoryFiles.IndexLines | capnation-back/src/main/java/com/machines/capnation/repository/filebased/CapRepositoryFileBasedImpl.java:336 | one line per entry: key, comma, position |
| RepositoryFiles.ParseIndexEntry | capnation-back/src/main/java/com/machines/capnation/repository/filebased/CapRepositoryFileBasedImpl.java:272-277 | an entry is read only from a line of exactly two comma fields, and only with a long key and an int position |
| RepositoryFiles.ParsedNext | capnation-back/src/main/java/com/machines/capnation/repository/filebased/CapRepositoryFileBasedImpl.java:269-282 | reading one more line adds the entry it parses to, if any; blank and malformed lines are skipped |
| RepositoryFiles.EntryLineParses | capnation-back/src/main/java/com/machines/capnation/repository/filebased/CapRepositoryFileBasedImpl.java:272-277 | the line of a storable entry is not blank and parses back to the entry |
| RepositoryFiles.ParsedEntriesOf | capnation-back/src/main/java/com/machines/capnation/repository/filebased/CapRepositoryFileBasedImpl.java:269-282 | lines that each parse to their entry are read as those entries in order |
| RepositoryFiles.IndexTextRoundTrip | capnation-back/src/main/java/com/machines/capnation/repository/filebased/CapRepositoryFileBasedImpl.java:326-341 | reading back the index file persistIndex wrote gives exactly the entries written, in order |
| RepositoryFiles.BrandLines | capnation-back/src/main/java/com/machines/capnation/repository/filebased/CapRepositoryFileBasedImpl.java:353 | one line per entry, as brandIndexToText writes it |
| RepositoryFiles.BrandLineReads | capnation-back/src/main/java/com/machines/capnation/repository/filebased/CapRepositoryFileBasedImpl.java:246-251 | the line of a writable entry holds no terminator, is not blank and decodes to the entry |
| RepositoryFiles.BrandFileRoundTrip | capnation-back/src/main/java/com/machines/capnation/repository/filebased/CapRepositoryFileBasedImpl.java:346-358 | reading back the brand file persistBrandIndex wrote gives the same entries |
| RepositoryFiles.BrandFileAppend | capnation-back/src/main/java/com/machines/capnation/repository/filebased/CapRepositoryFileBasedImpl.java:138 | appending the line of a writable entry to a brand file adds exactly that entry to what it reads as |
| RepositoryFiles.AppendDecodes | capnation-back/src/main/java/com/machines/capnation/repository/filebased/CapRepositoryFileBasedImpl.java:298-305 | appending a decodable line to a file that reads as some values makes it read as those values and one more |
| RepositoryFiles.FindBrand | capnation-back/src/main/java/com/machines/capnation/repository/filebased/CapRepositoryFileBasedImpl.java:141-143 | the first entry whose brand equals the brand ignoring case; none exactly when no entry matches |
| RepositoryFiles.AddToBrandRecords | capnation-back/src/main/java/com/machines/capnation/repository/filebased/CapRepositoryFileBasedImpl.java:127-149 | after the update exactly one entry matches the brand and ends with the id; the table grows by one entry only when no entry matched; every other entry is unchanged |
| RepositoryFiles.AddToBrandDistinct | capnation-back/src/main/java/com/machines/capnation/repository/filebased/CapRepositoryFileBasedImpl.java:127-149 | handleBrandIndex never makes two entries whose brands are equal ignoring case |
| RepositoryFiles.AddToBrandWritable | capnation-back/src/main/java/com/machines/capnation/repository/filebased/CapRepositoryFileBasedImpl.java:127-149 | the updated table stays writable when the old one was and the brand holds no comma or terminator |
| RepositoryFiles.BrandFileStaysInSync | capnation-back/src/main/java/com/machines/capnation/repository/filebased/CapRepositoryFileBasedImpl.java:127-149 | whichever branch handleBrandIndex takes, a brand file that read as the old table reads afterwards as the updated table |
| CapRepository.NewBrandEntry | capnation-back/src/main/java/com/machines/capnation/repository/filebased/CapRepositoryFileBasedImpl.java:132-135 | a fresh entry with the brand lower-cased and the single id |
| CapRepository.CapFileStaysInSync | capnation-back/src/main/java/com/machines/capnation/repository/filebased/CapRepositoryFileBasedImpl.java:114 | when the cap line reads back as the cap, a cap file that read as the old caps reads afterwards as those caps and the new one |
| CapRepository.Views | capnation-back/src/main/java/com/machines/capnation/repository/filebased/CapRepositoryFileBasedImpl.java:51 | the values of a cap list, position by position |
| CapRepository.BrandViews | capnation-back/src/main/java/com/machines/capnation/repository/filebased/CapRepositoryFileBasedImpl.java:53 | the values of a brand list, position by position |
| CapRepository.LookupIn | capnation-back/src/main/java/com/machines/capnation/repository/filebased/CapRepositoryFileBasedImpl.java:152-168 | a cap exactly when the id is indexed and its position lies in the list, and then the cap at that position; an indexed id with a position outside the list is index corruption |
| CapRepository.LookupValid | capnation-back/src/main/java/com/machines/capnation/repository/filebased/CapRepositoryFileBasedImpl.java:156-167 | with valid positions every indexed id is found |
| CapRepository.LookupAllIn | capnation-back/src/main/java/com/machines/capnation/repository/filebased/CapRepositoryFileBasedImpl.java:186-188 | succeeds exactly when every id is found, and then holds each id's cap in order |
| CapRepository.CapsAt | capnation-back/src/main/java/com/machines/capnation/repository/filebased/CapRepositoryFileBasedImpl.java:205-207 | succeeds exactly when every position lies in the list, and then holds the cap at each position in order |
| CapRepository.LookupAllStops | capnation-back/src/main/java/com/machines/capnation/repository/filebased/CapRepositoryFileBasedImpl.java:186-188 | the first id not found decides the outcome |
| CapRepository.CapsAtStops | capnation-back/src/main/java/com/machines/capnation/repository/filebased/CapRepositoryFileBasedImpl.java:205-207 | the first position outside the list decides the outcome |
| CapRepository.SubMapInsert | capnation-back/src/main/java/com/machines/capnation/repository/filebased/CapRepositoryFileBasedImpl.java:277 | whether an index insert stores or loses its pair, the tree holds only pairs the file lists |
| CapRepository.NewIndexTree | capnation-back/src/main/java/com/machines/capnation/repository/filebased/CapRepositoryFileBasedImpl.java:52 | an empty, valid tree of order 4 |
| CapRepository.InsertEntry | capnation-back/src/main/java/com/machines/capnation/repository/filebased/CapRepositoryFileBasedImpl.java:277 | one insert of readLinesIndex keeps the tree valid and within what the file lists |
| CapRepository.IndexContent | capnation-back/src/main/java/com/machines/capnation/repository/filebased/CapRepositoryFileBasedImpl.java:327-337 | the loop builds the entries' lines joined by terminators, with none at the end |
| CapRepository.BrandContent | capnation-back/src/main/java/com/machines/capnation/repository/filebased/CapRepositoryFileBasedImpl.java:347-354 | the loop builds the entries' lines joined by terminators, with none at the end |
| CapRepository.CapRepositoryFileBased.constructor | capnation-back/src/main/java/com/machines/capnation/repository/filebased/CapRepositoryFileBasedImpl.java:51-53 | an empty cap list, an empty brand table and an empty tree of order 4 over the three given files |
| CapRepository.CapRepositoryFileBased.AppendLine | capnation-back/src/main/java/com/machines/capnation/repository/filebased/CapRepositoryFileBasedImpl.java:298-305 | the chosen file gets a terminator and the line at its end; the other files are unchanged |
| CapRepository.CapRepositoryFileBased.Overwrite | capnation-back/src/main/java/com/machines/capnation/repository/filebased/CapRepositoryFileBasedImpl.java:313-320 | the chosen file's content is replaced; the other files are unchanged |
| CapRepository.CapRepositoryFileBased.ReadLinesCap | capnation-back/src/main/java/com/machines/capnation/repository/filebased/CapRepositoryFileBasedImpl.java:228-238 | fails exactly when a non-blank line does not decode, with that error; otherwise one fresh cap per non-blank line, in file order |
| CapRepository.CapRepositoryFileBased.ReadBrandLine | capnation-back/src/main/java/com/machines/capnation/repository/filebased/CapRepositoryFileBasedImpl.java:250 | one non-blank line adds a fresh entry holding the decoded line, or fails with the decoding error |
| CapRepository.CapRepositoryFileBased.ReadLinesBrandIndex | capnation-back/src/main/java/com/machines/capnation/repository/filebased/CapRepositoryFileBasedImpl.java:246-256 | fails exactly when a non-blank line does not decode; otherwise one fresh entry per non-blank line with the decoded brand and ids, in file order |
| CapRepository.CapRepositoryFileBased.ReadLinesIndex | capnation-back/src/main/java/com/machines/capnation/repository/filebased/CapRepositoryFileBasedImpl.java:265-290 | a fresh tree of order 4 that stores only pairs read from well-formed lines |
| CapRepository.CapRepositoryFileBased.LoadCaps | capnation-back/src/main/java/com/machines/capnation/repository/filebased/CapRepositoryFileBasedImpl.java:60-62 | an empty cap list is read again from the cap file; a non-empty one, or a failed read, leaves the list as it was |
| CapRepository.CapRepositoryFileBased.LoadIndex | capnation-back/src/main/java/com/machines/capnation/repository/filebased/CapRepositoryFileBasedImpl.java:63-65 | an empty tree is read again from the index file; a non-empty one is kept |
| CapRepository.CapRepositoryFileBased.LoadRest | capnation-back/src/main/java/com/machines/capnation/repository/filebased/CapRepositoryFileBasedImpl.java:63-68 | the brand read decides the outcome; a non-empty tree or brand table is kept; an empty table that loads reads exactly as its file, a reloaded tree holds only pairs the index file lists, and a failed read leaves the table as it was |
| CapRepository.CapRepositoryFileBased.LoadBrands | capnation-back/src/main/java/com/machines/capnation/repository/filebased/CapRepositoryFileBasedImpl.java:66-68 | an empty brand table is read again from the brand file; a non-empty one, or a failed read, leaves it as it was |
| CapRepository.CapRepositoryFileBased.Initialize | capnation-back/src/main/java/com/machines/capnation/repository/filebased/CapRepositoryFileBasedImpl.java:59-69 | the first failing read decides the outcome; a non-empty list, tree or table is kept; an empty list or table that loads reads exactly as its file, and a reloaded tree holds only pairs the index file lists; a failed load leaves the brand table as it was |
| CapRepository.CapRepositoryFileBased.PersistIndex | capnation-back/src/main/java/com/machines/capnation/repository/filebased/CapRepositoryFileBasedImpl.java:326-341 | the index file becomes the tree's pairs in key order, one line each, joined by terminators |
| CapRepository.CapRepositoryFileBased.PersistBrandIndex | capnation-back/src/main/java/com/machines/capnation/repository/filebased/CapRepositoryFileBasedImpl.java:346-358 | the brand file becomes the table's lines, joined by terminators |
| CapRepository.CapRepositoryFileBased.AddBrandEntry | capnation-back/src/main/java/com/machines/capnation/repository/filebased/CapRepositoryFileBasedImpl.java:131-138 | a new entry for the lower-cased brand with the single id goes at the end of the table, and its line at the end of the brand file |
| CapRepository.CapRepositoryFileBased.ExtendBrandEntry | capnation-back/src/main/java/com/machines/capnation/repository/filebased/CapRepositoryFileBasedImpl.java:141-144 | the id goes at the end of the chosen entry; every other entry is unchanged |
| CapRepository.CapRepositoryFileBased.HandleBrandIndex | capnation-back/src/main/java/com/machines/capnation/repository/filebased/CapRepositoryFileBasedImpl.java:127-149 | the table becomes its update by brand and id; the brand file gets the new entry's line appended for a new brand and becomes the updated table's lines for a known one (`BrandFileAfter`) |
| CapRepository.CapRepositoryFileBased.AddCap | capnation-back/src/main/java/com/machines/capnation/repository/filebased/CapRepositoryFileBasedImpl.java:103-108 | the cap goes at the end of the list and its id maps to the old list length when the leaf has room; positions stay valid |
| CapRepository.CapRepositoryFileBased.PersistCap | capnation-back/src/main/java/com/machines/capnation/repository/filebased/CapRepositoryFileBasedImpl.java:114-115 | the cap's line is appended to the cap file and the index file is rewritten from the tree |
| CapRepository.CapRepositoryFileBased.Record | capnation-back/src/main/java/com/machines/capnation/repository/filebased/CapRepositoryFileBasedImpl.java:111-115 | the brand table is updated by brand and id; the cap line is appended and the index file rewritten; the brand file becomes `BrandFileAfter` of the old file and table |
| CapRepository.CapRepositoryFileBased.Append | capnation-back/src/main/java/com/machines/capnation/repository/filebased/CapRepositoryFileBasedImpl.java:103-115 | for an id the index lacks, the cap goes at the end of the list and its id to the old size in the index unless its leaf is full; the brand table is updated; the cap file gets the cap's line, the index file is rewritten, and the brand file becomes `BrandFileAfter` of the old file and table |
| CapRepository.CapRepositoryFileBased.Store | capnation-back/src/main/java/com/machines/capnation/repository/filebased/CapRepositoryFileBasedImpl.java:94-118 | an id already indexed is refused and nothing changes; otherwise the cap is appended, indexed, recorded under its brand, written to the three files as `Append` states (the brand file as `BrandFileAfter`), and returned; positions stay valid |
| CapRepository.CapRepositoryFileBased.Save | capnation-back/src/main/java/com/machines/capnation/repository/filebased/CapRepositoryFileBasedImpl.java:89-119 | an id that is not positive is refused before anything is loaded or changed; a failed load is the answer; otherwise the cap is saved or refused as a duplicate, and a refusal leaves the files unchanged; when nothing needs loading, the answer is the duplicate-or-saved answer over the old index, a refusal leaves list, index and brand table unchanged, a save changes list, index, brand table and brand file exactly as `Store` states, and positions stay valid |
| CapRepository.CapRepositoryFileBased.FindAll | capnation-back/src/main/java/com/machines/capnation/repository/filebased/CapRepositoryFileBasedImpl.java:72-75 | the load's error, or the cap list after loading; a non-empty list, tree or table is kept; an empty list or table that loads reads exactly as its file, and a reloaded tree holds only pairs the index file lists; when nothing needs loading, exactly the old cap list |
| CapRepository.CapRepositoryFileBased.Find | capnation-back/src/main/java/com/machines/capnation/repository/filebased/CapRepositoryFileBasedImpl.java:156-167 | a null id is refused; an unindexed id is not found; a position outside the list is index corruption; otherwise the cap at the position |
| CapRepository.CapRepositoryFileBased.FindById | capnation-back/src/main/java/com/machines/capnation/repository/filebased/CapRepositoryFileBasedImpl.java:151-168 | the load's error, or the lookup of the id after loading; a non-empty list, tree or table is kept; an empty list or table that loads reads exactly as its file, and a reloaded tree holds only pairs the index file lists; when nothing needs loading, the lookup in the old list and index |
| CapRepository.CapRepositoryFileBased.FindAllOf | capnation-back/src/main/java/com/machines/capnation/repository/filebased/CapRepositoryFileBasedImpl.java:186-188 | the caps of the ids in order, or the first lookup error |
| CapRepository.CapRepositoryFileBased.LookupBrand | capnation-back/src/main/java/com/machines/capnation/repository/filebased/CapRepositoryFileBasedImpl.java:176-188 | a brand with no entry is not found; otherwise the caps of the first matching entry's ids in order, or the first lookup error |
| CapRepository.CapRepositoryFileBased.FindByBrand | capnation-back/src/main/java/com/machines/capnation/repository/filebased/CapRepositoryFileBasedImpl.java:171-189 | the load's error, or after loading: a brand with no entry is not found, otherwise the caps of the first matching entry's ids in order (`BrandLookupIn`); a non-empty list, tree or table is kept; an empty list or table that loads reads exactly as its file, and a reloaded tree holds only pairs the index file lists |
| CapRepository.CapRepositoryFileBased.CapsAtPositions | capnation-back/src/main/java/com/machines/capnation/repository/filebased/CapRepositoryFileBasedImpl.java:205-207 | the cap at each position in order, or an index-out-of-bounds error |
| CapRepository.CapRepositoryFileBased.RangeLookup | capnation-back/src/main/java/com/machines/capnation/repository/filebased/CapRepositoryFileBasedImpl.java:202-207 | the caps at the positions of the indexed ids between start and end, in ascending id order, or an index-out-of-bounds error |
| CapRepository.CapRepositoryFileBased.FindByIdRange | capnation-back/src/main/java/com/machines/capnation/repository/filebased/CapRepositoryFileBasedImpl.java:199-208 | the load's error, or after loading the caps at the positions of the indexed ids between start and end, in ascending id order; a non-empty list, tree or table is kept; an empty list or table that loads reads exactly as its file, and a reloaded tree holds only pairs the index file lists; when nothing needs loading, that range over the old tree and list |
| CapRepository.CapRepositoryFileBased.GetCapCount | capnation-back/src/main/java/com/machines/capnation/repository/filebased/CapRepositoryFileBasedImpl.java:215-218 | the load's error, or the number of indexed ids after loading; a non-empty list, tree or table is kept; an empty list or table that loads reads exactly as its file, and a reloaded tree holds only pairs the index file lists; when nothing needs loading, the old number of indexed ids |
| CapService.Validate | capnation-back/src/main/java/com/machines/capnation/service/impl/CapServiceImplementation.java:28-36 | the price is checked first, then the stock, then the color; the first failing check names the defect, and a cap passing all three has none |
| CapService.CapServiceImplementation.constructor | capnation-back/src/main/java/com/machines/capnation/service/impl/CapServiceImplementation.java:17-19 | the service holds the given repository |
| CapService.CapServiceImplementation.FindAll | capnation-back/src/main/java/com/machines/capnation/service/impl/CapServiceImplementation.java:21-24 | the repository's findAll answer: the load's error or the cap list; a non-empty list, tree or table is kept; an empty list or table that loads reads exactly as its file, and a reloaded tree holds only pairs the index file lists; when nothing needs loading, exactly the old cap list |
| CapService.CapServiceImplementation.Save | capnation-back/src/main/java/com/machines/capnation/service/impl/CapServiceImplementation.java:26-38 | a cap failing a check is refused with that check's defect and the repository is untouched; any other cap gets the repository's save answer, exactly the duplicate-or-saved answer when nothing needs loading, and then a refusal leaves the list, index and brand table unchanged |

## Left out

- Input and output: the repository's files are strings in fields. I/O exceptions, logging, `Resource` handling and `\r` line terminators are not modelled.
- `CAP_FORMATTER::TextToCap`, which the repository calls to read the cap file, is commented out in `CapFormatter.java`. It is the uninterpreted parameter `decodeCap` of the repository. The cap file's round trip (`CapFileStaysInSync`) is stated for any decoder that reads the cap line back.
- Keys and values of the tree are `int`. Generic `Comparable` keys are not modelled, and neither is a null bound of `rangeQuery`, which would throw `NullPointerException`.
- Prices are `real`. `Double.compare` of NaN and -0.0 is not modelled.
- Case folding, white space and decimal digits cover ASCII only. `Long.parseLong` and `Integer.parseInt` also accept other Unicode decimal digits (through `Character.digit`); the model refuses them, and so do `ParseIndexLine`, `ParseIndexEntry`, `ParseIds` and `TextToUser`, which call them.
- Text.ParseLong: refuses non-ASCII decimal digits, which `Long.parseLong` accepts.
- Text.ParseInt: refuses non-ASCII decimal digits, which `Integer.parseInt` accepts.
- `CapFormatter.java` imports `com.machines.capnation.domain.Cap`, while the repository passes its `com.machines.capnation.model.Cap` to `capToText`; the model takes the two `Cap` classes to be one, the `CapModel.Cap` of `Cap.java`.
- Java `int` overflow of `capList.size()` and of `size()` is not modelled. Positions are unbounded integers. Stored positions are checked against the `int` range only when the index file is read back.
- A null cap, a null brand, colour or field of a cap, and a null argument to the repository's methods (other than `findById`'s id) are not modelled.
- `User.java`, the enum classes `CapStyle`, `Gender` and `Role`, and the interfaces `CapRepository.java` and `CapService.java` are not part of this model. Enum constants are known by their names; `CapSize.java` is a datatype whose `toString` gives the constant's name.
- The controller, the file bootstrap (`FileValidator.java`) and the front end are outside the core.
- CapRepository.CapRepositoryFileBased.ReadLinesIndex: the tree is only shown to store pairs the file lists, not which of them, because inserts into full leaves are lost.
- CapRepository.CapRepositoryFileBased.LoadIndex: the same bound as `ReadLinesIndex`, for a reloaded index.
- CapRepository.CapRepositoryFileBased.Initialize: a reloaded index is only shown to hold pairs the index file lists, as for `ReadLinesIndex`.
- CapRepository.CapRepositoryFileBased.Save: when `initialize` reloads a structure, the answer is stated as the cap or a duplicate-id refusal, and the reloaded list, index, brand table and brand file are not stated. When nothing is reloaded, every effect `Store` states is stated, refusal included.
- CapRepository.CapRepositoryFileBased.FindAll: the answer is stated against the structures after loading and, when nothing needs loading, against the old ones; a reloaded index is only bounded as for `ReadLinesIndex`.
- CapRepository.CapRepositoryFileBased.FindById: the answer is stated against the structures after loading and, when nothing needs loading, against the old ones; a reloaded index is only bounded as for `ReadLinesIndex`.
- CapRepository.CapRepositoryFileBased.FindByBrand: the answer is stated against the structures after loading, which keep a non-empty list, tree and table; a reloaded index is only bounded as for `ReadLinesIndex`.
- CapRepository.CapRepositoryFileBased.FindByIdRange: the answer is stated against the structures after loading and, when nothing needs loading, against the old ones; a reloaded index is only bounded as for `ReadLinesIndex`.
- CapRepository.CapRepositoryFileBased.GetCapCount: the answer is stated against the structures after loading and, when nothing needs loading, against the old ones; a reloaded index is only bounded as for `ReadLinesIndex`.
- CapService.CapServiceImplementation.FindAll: as the repository's `FindAll`, a reloaded index is only bounded as for `ReadLinesIndex`.
- CapRepository.CapRepositoryFileBased.LoadRest: a reloaded index is only bounded as for `ReadLinesIndex`.
- CapRepository.CapRepositoryFileBased.FindByBrand: `findById` runs `initialize` again for each id. The files do not change in between, so a reload reads the same contents again. The model therefore looks the ids up directly (`FindAllOf`).
- CapService.CapServiceImplementation.Save: states the repository's answer, the files on refusal, the cap file and the cap list, and, when nothing needs loading, that a refusal leaves list, index and brand table unchanged; the index and brand effects of a save are stated by the repository's `Save`.
- The split of `save` into `Store`, `Append`, `AddCap`, `Record` and `PersistCap`, and of `insert` into `SplitFullLeaf`, `NewRoot` and `InsertIntoParent`, follows the statements of the source. It does not change their order.
