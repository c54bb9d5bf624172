# Verified model of libxdg's indexes and MIME databases

This project models, in Dafny, the data structures and algorithms on which libxdg answers
"which application opens this file" and "what type is this file", and proves what they promise.

The model takes the form of the source. Trees, tries, lists and magic rules are objects whose links are
changed in place; parsers advance a stream; loops are loops. Each of these methods is proved against a
function or a relation on values, and the properties are proved about those.

| files | what they model |
|---|---|
| AvlModel, AvlOrder, AvlHeight | the AVL insertion as a function on trees: order, abstract map, heights |
| AvlLinks, AvlHeap, AvlRuns | the same insertion on linked nodes with parent pointers, and runs of calls |
| AvlWalk, AvlStream, AvlMap, AvlRoundTrip | the stackless walk, the dump of a tree, mapping it back in place |
| CStrings, Sequences, TextFiles | strings, sequences and the reading of lines, as several models share them |
| XdgLists, AppLists | the intrusive lists and the handlers of list-file sections |
| CacheTrees, CacheLists, DesktopCache, CacheContents | the binary cache of the desktop index: what is written, what is read, what stays the same |
| IndexHeap, CacheKept, CacheSave | the index on the heap, trees inside trees, writing it, and what comes back of it |
| CacheTreeMap, CacheRelink, CacheInPlace, CacheLinked | reading the cache as it runs, in place on the mapped memory, and the links it leaves |
| AppLines, MimeIndex, DesktopText, AppFolders | reading desktop files, the index by type, files that were written, sharing between folders |
| UserApps, UserLoad | the text file of user-chosen applications |
| GlobTrie, GlobLookup, GlobHeap, GlobHash, GlobAnswers | suffix globs in memory, and what a name gets from them |
| PackedBuffer, GlobCache, MagicCache, MimeSubclass, MimeCacheFile | the forms of a mapped cache file, and one small file |
| Magic, MagicRules, MagicList | magic rules, their order, their answers and their extents |
| MagicText, MagicReader, MagicPrint | the text form of magic rules, read and printed |
| MimeTypes, MimeBases, MimeParents | aliases, parents, the subclass relation |

Where the code does not do what its documentation or its own other half says, the code is modelled and the
difference is stated exactly:

- A double rotation marks all three nodes balanced (src/containers/avltree.c:101-103 and 148-150). Order, links and
  null-safety do not depend on it. Balances do: `AvlHeight.InsertExactIff` and `AvlHeight.AsWrittenRuns` say exactly
  when they stay exact, `AvlHeight.SkewedRun` gives a run on which they do not, and `AvlHeight.TextbookRuns` proves
  the height bound for the rule `Textbook`, which differs from `AsWritten` in those assignments only.
- The extent of a matchlet is added in unsigned 32-bit arithmetic and stored in an int
  (src/mime/xdgmimemagic.c:717). `MagicRules.CutKeepsHit`, `OneMatchletExact` and `CutLosesHit` say when that matters.
- A reversed word of a magic value goes to twice or four times its place (src/mime/xdgmimemagic.c:489-497).
  `MagicText.SwapExact` says that this is right for values of one word only, and `StaysInsideExact` that the loop
  leaves the value otherwise.
- The base of a subclass test is resolved again at each level (src/mime/xdgmime.c:682-695).
  `MimeTypes.SubclassMeaning` says for all aliases what the test computes, `MimeBases.ReachabilityExact` for which
  of them that is plain reachability, and `MimeTypes.MovingBase` shows a parent that is missed.
- The removed section of the user's file is written under a name that is not read
  (src/desktop/xdgapp.c:1447 and 771): `UserLoad.RemovedExact` says when nothing is lost by that,
  `UserLoad.RemovedLost` gives a file that loses its list.
- A key `MimeType[` without a closing bracket fills the plain entry but not the index
  (src/desktop/xdgapp.c:596-597): `MimeIndex.RunInverseExact` says on which files the two differ, and
  `MimeIndex.StrayWitness` gives one.

Preconditions are what the source needs of its callers: file names and suffixes are not empty, C strings hold no NUL,
the array that receives types has room for the cap, and the relation of parents has no cycle (the code would not
terminate on one). Allocation succeeds. `strcmp` order, the sign convention included, is modelled in CStrings.

Magic line parsing, glob insertion and file reading work on characters and bytes as the C code sees them; numbers are
unbounded integers except where the width matters (extents, 32-bit words of the cache file, the digits of a number).

## Model

| member | source | states |
|---|---|---|
| AvlHeap.AvlTree.LeftLeftRotation | src/containers/avltree.c:79-97 | the statements leave exactly this table of links: the child in the place of its parent, the inner subtree moved over with its parent link, both balances BALANCED, the root pointer when the parent had none; what that makes of a whole tree is `AvlLinks.LeftLeftWhole` |
| AvlHeap.AvlTree.RightRightRotation | src/containers/avltree.c:126-144 | the mirrored table of links and root; for a whole tree `AvlLinks.RightRightWhole` |
| AvlHeap.AvlTree.RightLeftRotation | src/containers/avltree.c:99-124 | the table of links after all writes of the double rotation, in the order of the statements, with all three balances BALANCED as written; for a whole tree `AvlLinks.RightLeftWhole` |
| AvlHeap.AvlTree.LeftRightRotation | src/containers/avltree.c:146-171 | the mirrored table of links, balances and root; for a whole tree `AvlLinks.LeftRightWhole` |
| AvlHeap.AvlTree.RebalanceGrew | src/containers/avltree.c:173-220 | the climb from a new leaf terminates, dereferences no null link, and leaves the nodes linked as the tree that the recursive insertion gives |
| AvlHeap.AvlTree.SearchRoutine | src/containers/avltree.c:434-452 | the loop stops at the slot and the parent where the key is or would hang, and changes nothing |
| AvlHeap.AvlTree.SearchNode | src/containers/avltree.c:561-570 | the cell found is that of the key in the tree, or null if the key is absent |
| AvlHeap.AvlTree.CreateNode | src/containers/avltree.c:545-559 | the branch for an absent key: the new leaf is attached at the slot found, under the parent found, and the climb restores the tree invariant |
| AvlHeap.AvlTree.SearchOrCreate | src/containers/avltree.c:545-559 | every call keeps order, mutually consistent links and "heavy on a side implies that child"; a present key returns its own cell, an absent one adds exactly one fresh node with an empty value |
| AvlHeap.AvlTree.Store | src/desktop/xdgapp.c:279-291 | a value written through a cell that was handed out replaces that value only; order, links and all other cells stay as they were |
| AvlModel.DescendFinds | src/containers/avltree.c:434-452 | the descent reaches a node exactly when the recursive search finds the key |
| AvlModel.ClimbIsGrow | src/containers/avltree.c:173-220 | descending and then climbing with rotations computes the same tree as one recursive insertion, and stops where the recursion reports no growth |
| AvlModel.InsertPresent | src/containers/avltree.c:545-559 | inserting a key that is present leaves the tree as it is |
| AvlModel.GrowKeepsHeavyHasChild | src/containers/avltree.c:173-220 | a node marked heavy on a side has a child on that side after every insertion, for the code as written |
| AvlOrder.InsertIsPut | src/containers/avltree.c:545-559 | on the in-order cells an insertion is exactly a sorted put: no cell is lost, moved between keys or duplicated by any rotation |
| AvlOrder.LookupIsFind | src/containers/avltree.c:561-570 | the tree search agrees with searching the sorted list of cells |
| CStrings.FirstDifference | src/desktop/xdgapp.c:403-405 | the order of keys is that of `strcmp`: the first difference decides, and a string comes after its beginnings |
| AvlOrder.InsertMeaning | src/containers/avltree.c:545-559 | insertion keeps strict key order and changes the abstract map at the inserted key only, and only if it was absent |
| AvlOrder.RunMeaning | src/containers/avltree.c:545-559 | after every run of insertions from the empty tree: strict order, each key holds the cell of its first insertion, the keys are exactly those inserted; as written, heavy sides have children |
| AvlOrder.StoresMeaning | src/desktop/xdgapp.c:279-291 | in every run of insertions and of writes through cells in between, each key keeps the cell of its first insertion, and the cell holds the value last written through it, whatever was rotated meanwhile |
| AvlRuns.RunOps | src/containers/avltree.c:545-559 | every run of calls on a new map on the heap, insertions and writes through the cells handed out, follows the tree of the run: same shape, keys, balances and values; each key has the cell first handed out for it with the value last written |
| AvlRuns.GrowRenamed | src/containers/avltree.c:173-220 | insertion does not look at the identity of nodes |
| AvlHeight.ExactHeavy | src/containers/avltree.c:173-220 | exact balances never mark a side heavy that has no child |
| AvlHeight.ExactIsDense | src/containers/avltree.c:173-220 | a tree with exact balances and height h holds at least Fib(h+2)-1 nodes |
| AvlHeight.GrowExact | src/containers/avltree.c:79-220 | with the textbook balances after a double rotation, insertion keeps every balance exact and reports growth exactly when the height grew |
| AvlHeight.GrewIffNoHeavy | src/containers/avltree.c:173-220 | for both rules the climb reaches the top exactly when no node on the search path is heavy towards the new key |
| AvlHeight.InsertExactIff | src/containers/avltree.c:101-103 | as written, an insertion into an exact tree keeps it exact if and only if it does not end in a double rotation around a grandchild that was there before |
| AvlHeight.TextbookRuns | src/containers/avltree.c:173-220 | with the repaired rule every run keeps exact balances, the Fibonacci bound, and a child on every heavy side |
| AvlHeight.AsWrittenRuns | src/containers/avltree.c:148-150 | as written, a run has exact balances at every step if and only if no step of it is such a double rotation |
| AvlHeight.SkewedRun | src/containers/avltree.c:101-103 | a concrete run of seven keys after which one side is two levels deep and the other empty |
| AvlLinks.RightLeftWhole | src/containers/avltree.c:99-124 | the sequence of link writes of the double rotation, in the order of the statements, turns the link table of the old tree into that of the rotated one, for every context and all subtrees |
| AvlLinks.LeftRightWhole | src/containers/avltree.c:146-171 | the same for the mirrored double rotation |
| AvlLinks.LeftLeftWhole | src/containers/avltree.c:79-97 | the same for the single rotation |
| AvlLinks.FillHole | src/containers/avltree.c:545-559 | hanging a leaf into the empty slot that the search found gives the link table of the tree with that leaf |
| AvlWalk.DepthFirstSearch | src/containers/avltree.c:503-543 | from any stale visit flags the stackless walk terminates, calls back each node once in post-order and leaves links, keys, values and balances as they were |
| AvlWalk.PostOrderCells | src/containers/avltree.c:503-543 | the nodes called back are exactly those of the tree, each once |
| AvlWalk.PostOrderOfThree | src/containers/avltree.c:503-543 | of three nodes the left one is called first and the root last |
| AvlWalk.WriteSubtree | src/containers/avltree.c:607-651 | the stackless writer emits the recursive pre-order dump of the tree and changes only visit flags |
| AvlWalk.WriteToFile | src/containers/avltree.c:734-747 | the file is the tree header followed by that dump; an empty tree is the header and one all-zero node |
| AvlStream.StrRoundTrip | src/desktop/xdgappcache.c:106-118 | a NUL-terminated string is read back and the cursor moves to just behind its terminator |
| AvlStream.TreeRoundTrip | src/containers/avltree.c:653-721 | reading a dump anywhere in a stream gives a tree of the same shape, keys, values and balances, and consumes exactly the tokens written, for any value codec that does so |
| AvlMap.MapNodes | src/containers/avltree.c:653-721 | the mapping loop, driven by dumped non-null links and visit flags, terminates and builds distinct nodes whose parent, left and right links are those of the tree loaded |
| AvlMap.MapFromMemory | src/containers/avltree.c:723-732 | the mapped tree, empty or not, is linked and stops behind its last token |
| AvlRoundTrip.SaveAndMap | src/containers/avltree.c:723-747 | writing a tree and mapping the file gives a valid tree of new nodes with the same shape, keys, balances and values; the old tree is as it was and still valid, and the whole file is consumed |
| XdgLists.List.Prepend | src/containers/xdglist.c:49-66 | the item becomes the first of the sequence, linked in both directions |
| XdgLists.List.Append | src/containers/xdglist.c:68-84 | the item becomes the last of the sequence, linked in both directions |
| XdgLists.List.Remove | src/containers/xdglist.c:133-150 | exactly that position disappears and its successor is returned |
| XdgLists.List.Swap | src/containers/xdglist.c:86-125 | exactly two positions are exchanged, adjacent ones in either order and the ends included |
| XdgLists.SwapTwice | src/containers/xdglist.c:86-125 | swapping is its own inverse, whichever item is named first |
| XdgLists.SwappedPlaces | src/containers/xdglist.c:86-125 | each of the two positions holds what the other held, and nothing else moves |
| XdgLists.List.RemoveIf | src/containers/xdglist.c:152-165 | the list keeps exactly the items that do not match, in order, and each of the others is freed once |
| XdgLists.SelectParts | src/containers/xdglist.c:152-165 | what is kept of a list is what is kept of its parts, in their order |
| XdgLists.SelectAll | src/containers/xdglist.c:152-165 | a list of wanted items is kept whole, and of a list of unwanted ones nothing is kept |
| AppLists.HandleDefault | src/desktop/xdgapp.c:611-622 | the linked list gains the name at its end unless it has it |
| AppLists.HandleAdded | src/desktop/xdgapp.c:629-633 | the name stands once, at the front |
| AppLists.HandleRemoved | src/desktop/xdgapp.c:635-638 | the name is gone and the others keep their order |
| AppLists.HandleMeaning | src/desktop/xdgapp.c:611-638 | each handler keeps names distinct and touches no other name |
| AppLists.WithoutOne | src/desktop/xdgapp.c:635-638 | removing a name takes out its association and leaves those on both sides of it as they stand |
| AppLists.RunsKeepNamesDistinct | src/desktop/xdgapp.c:611-638 | names stay distinct in every run of the three handlers |
| CacheLists.ListRoundTrip | src/desktop/xdgappcache.c:326-367 | a written list is read back in order, with each item at its own place in the file; its dumped ends and first item are as the relinking loop needs them |
| DesktopCache.EntryRoundTrip | src/desktop/xdgappcache.c:133-229 | an entry with its values and its tree of localized lists is read back exactly, at the addresses where it lies |
| DesktopCache.GroupRoundTrip | src/desktop/xdgappcache.c:148-238 | a group is read back through both nesting levels, each node and list at its own address |
| DesktopCache.AppRoundTrip | src/desktop/xdgappcache.c:153-255 | an application, with or without groups, is read back with its address and the owner of its groups |
| CacheContents.OwnGroupsComeBack | src/desktop/xdgappcache.c:153-167 | groups come back if and only if their owner is the application that holds them, and then with all their content and with the reloaded application as owner |
| DesktopCache.MimeTypeRoundTrip | src/desktop/xdgappcache.c:257-324 | a type with its sub-types and association lists is read back, each association pointing where its name is found among the reloaded applications |
| DesktopCache.CacheRoundTrip | src/desktop/xdgapp.c:369-393 | reading the whole cache consumes the whole file and yields watchers, applications and both association maps, with all addresses; the links in memory are the rows on CacheInPlace and CacheLinked |
| DesktopCache.OtherVersion | src/desktop/xdgapp.c:369-375 | a file of another version is not read |
| DesktopCache.AppsInFile | src/desktop/xdgappcache.c:153-167 | two applications that share groups, token by token: a node before its left side before its right side, and the groups behind their owner only |
| DesktopCache.GroupsInFile | src/desktop/xdgappcache.c:133-164 | its groups, token by token |
| DesktopCache.OneFile | src/desktop/xdgapp.c:386-393 | a whole file, token by token: version, watchers with both links, applications, associations by type, associations of list files |
| CacheContents.CacheKeepsContent | src/desktop/xdgapp.c:369-393 | all contents - shapes, keys, balances, values, list orders, and of an application the groups whose owner it is - are the same before and after, addresses aside |
| CacheContents.AssociationsResolve | src/desktop/xdgappcache.c:275-315 | every reloaded association points at the reloaded application with the same id, whose contents are those of the original one, or at nothing if there is none |
| CacheRelink.FindNode | src/containers/avltree.c:561-570 | the search through the links of a tree mapped before gives the place of the value of the key, or none |
| CacheRelink.RelinkList | src/desktop/xdgappcache.c:275-315 | the loop that fixes pointers in the mapped memory, with the search for an association in it, rewrites the list in place to what writing the list read would give; nothing outside the list changes |
| CacheInPlace.MapSubtree | src/containers/avltree.c:653-721 | the mapping loop, run in place on the memory that holds the dump, with whatever lists and trees hang at its nodes mapped by the same loop, rewrites the dump to what writing the tree read would give |
| CacheInPlace.MapTree | src/containers/avltree.c:723-732 | the same for a tree with its header, empty or not |
| CacheInPlace.MapEntry | src/desktop/xdgappcache.c:199-229 | an entry is rewritten in place: its list relinked, then its tree of localized lists mapped, and the tree structure copied into the entry |
| CacheInPlace.MapApp | src/desktop/xdgappcache.c:240-255 | an application is rewritten in place: it leads to its groups, they to it, their trees are mapped at both nesting levels, and the tree structure is copied into the groups |
| CacheInPlace.MapCache | src/desktop/xdgapp.c:369-385 | mapping any readable cache with version 1 rewrites the one memory to what writing the index read would give, and stops behind it; another version is refused and nothing is touched |
| CacheSave.WriteNodes | src/containers/avltree.c:607-651 | the stackless writer over a tree of the heap whose values are written by walks of their own in the middle of it: the output is the dump of the tree, and all trees stand as before but for visit flags |
| CacheSave.WriteValue | src/desktop/xdgappcache.c:120-167 | each kind of value, down to the lists, is written as its structure followed by what hangs at it; groups that belong to another application are not written |
| CacheSave.NamedDump | src/containers/avltree.c:590-605 | what is written for a tree on the heap is what is written for the tree of its values with its nodes named by their addresses |
| CacheSave.SaveCache | src/desktop/xdgapp.c:386-393 | the file written from the heap is that of the index: version, watchers, applications and both association maps; reading it gives the index on the heap back, in the sense of `ReloadedKept` |
| CacheSave.ReloadedKept | src/desktop/xdgapp.c:369-393 | told from the values on the heap: the reloaded index has the same trees, level by level, with the same strings in order; an application has its groups back if and only if their owner is itself; an association points at the reloaded application of its name or at nothing |
| CacheKept.SameLookup | src/containers/avltree.c:561-570 | a search in the reloaded tree finds what corresponds to the value found on the heap, or nothing in both |
| CacheLinked.CacheSettles | src/desktop/xdgappcache.c:169-255 | a memory that holds what writing the index read would give is linked throughout: every list of watchers, values, localized values and associations forwards, backwards and to its ends, every node of every tree to its children and its parent, every application to its groups and back |
| CacheLinked.SaveAndMapCache | src/desktop/xdgapp.c:369-393 | for every index on the heap: written by the walks over its nested trees and mapped in one memory, every list and every tree of the reloaded index, at all nesting levels, is linked in that memory in the original order, and every tree structure and every copy of one leads to its root; relinking a later part disturbs no earlier one; and the reloaded index is the one on the heap, in the sense of `ReloadedKept` |
| GlobTrie.InsertRegisters | src/mime/xdgmimeglob.c:180-289 | inserting a suffix registers the type for that suffix, the first registration of a type winning, and changes the types of no other suffix |
| GlobTrie.InsertFormed | src/mime/xdgmimeglob.c:180-289 | siblings stay ordered, zero nodes first and then strictly increasing characters, at every level |
| GlobHeap.FindOrAdd | src/mime/xdgmimeglob.c:187-246 | the sibling of the character is found or spliced in where the order puts it |
| GlobHeap.AddTypeTo | src/mime/xdgmimeglob.c:248-283 | the node takes the type, or a new zero child in front of the others does, unless the type is known |
| GlobHeap.InsertUcs4 | src/mime/xdgmimeglob.c:180-289 | the in-place insertion leaves linked nodes that store the inserted trie; only fresh nodes are added |
| GlobHeap.LookupFileName | src/mime/xdgmimeglob.c:316-376 | the array receives the types of the trie lookup, up to the cap |
| GlobLookup.BuildFormed | src/mime/xdgmimeglob.c:180-289 | every run of registrations leaves an ordered, well-formed trie |
| GlobLookup.BuildTypes | src/mime/xdgmimeglob.c:180-289 | after every run each suffix has exactly its first registrations, each type once |
| GlobLookup.LookupIsLongest | src/mime/xdgmimeglob.c:316-376 | a lookup gives exactly the eligible types of the longest suffix that has any |
| GlobLookup.RunLookup | src/mime/xdgmimeglob.c:316-376 | a type is found after a run if and only if it is an accepted first registration of the longest suffix of the name with an accepted one |
| GlobLookup.SameTypesSameLookup | src/mime/xdgmimecache.c:451-527 | two tries with the same types per suffix find the same types for every name |
| GlobHash.DetermineType | src/mime/xdgmimeglob.c:518-540 | a glob is simple exactly when only its first character is special and is a star, and literal exactly when none is |
| GlobAnswers.KindWitness | src/mime/xdgmimeglob.c:518-540 | concrete globs of each kind: the special characters are the star, the question mark, the bracket and the backslash |
| GlobHash.Hash.AppendGlob | src/mime/xdgmimeglob.c:544-569 | each kind of glob goes to its own table; the tries and lists of the others stay |
| GlobHash.Load | src/mime/xdgmimeglob.c:544-569 | appending any list of globs to an empty table stores the trie of the suffixes, and the literals and the patterns, the first of each glob and type, in the order given |
| GlobHash.ListMeaning | src/mime/xdgmimeglob.c:544-569 | a list holds a glob with a type exactly when some entry of its kind has both, and holds it once |
| GlobHash.Hash.LookupName | src/mime/xdgmimeglob.c:403-475 | a literal wins, case-sensitive literals first; otherwise the answer is ordered by weight and comes from lower-case suffixes, then suffixes as written, then patterns; for every cap; only where the patterns decide must they fit the buffer or the cap stop before its end |
| GlobHash.InBoundsExact | src/mime/xdgmimeglob.c:443-452 | the pass over the patterns writes inside its ten places if and only if at most ten patterns match or the cap is at most ten |
| GlobHash.AnswerMeaning | src/mime/xdgmimeglob.c:403-475 | below the cap the answer holds exactly the accepted first registrations of the longest suffix, best weight first |
| GlobAnswers.SuffixEnds | src/mime/xdgmimeglob.c:291-308 | the stored suffix of a glob begins the name read from its end if and only if the name ends in the text after the star |
| GlobAnswers.LoadedLookup | src/mime/xdgmimeglob.c:316-376 | over any list of globs: the lookup in the loaded trie finds exactly the types of the longest globs that the name ends in, of those the pass accepts |
| GlobAnswers.LoadedAnswer | src/mime/xdgmimeglob.c:403-475 | over any list of globs and any name that is no literal: the answer names only types of the longest globs that the lower-case name ends in, else that the name ends in, else of the patterns that match, and all of them below the caps |
| GlobAnswers.LoadedLiterals | src/mime/xdgmimeglob.c:423-431 | a name has a literal if and only if it is one of the globs and has no special character |
| GlobAnswers.LoadedLiteral | src/mime/xdgmimeglob.c:423-431 | its type is that of the first glob equal to it |
| GlobAnswers.LoadedLowerLiteral | src/mime/xdgmimeglob.c:433-442 | without one, the first glob equal to the name in lower case that is not case-sensitive decides |
| GlobAnswers.LowerCaseIs | src/mime/xdgmimeglob.c:387-401 | lower case adds 32 to the letters A to Z and changes nothing else |
| GlobCache.Bisect | src/mime/xdgmimecache.c:473-482 | the search in halves finds the entry of a character exactly when a sorted level has one |
| GlobCache.LookupSuffix | src/mime/xdgmimecache.c:451-527 | the packed lookup gives what the linked lookup gives on the trie the table encodes |
| GlobCache.LookupCaches | src/mime/xdgmimecache.c:530-557 | the first file with any type decides |
| GlobCache.FirstOfferIs | src/mime/xdgmimecache.c:530-557 | it is the lookup in that file, whatever the files after it hold |
| GlobCache.FormsAgree | src/mime/xdgmimecache.c:451-527 | packed and linked form give the same types for every name when each suffix has the same types in both and the cap is not reached |
| PackedBuffer.WordBytes | src/mime/xdgmimecache.c:86-87 | a word of a mapped file has its most significant byte first |
| PackedBuffer.WordAt | src/mime/xdgmimecache.c:86-87 | a word written with its most significant byte first is read back |
| MimeCacheFile.SuffixesPacked | src/mime/xdgmimecache.c:530-557 | a file of 180 bytes, given word by word, holds the suffix ".c" |
| MimeCacheFile.SuffixFound | src/mime/xdgmimecache.c:451-527 | the lookup in it finds the type of "a.c" and none of "c.a" |
| MimeCacheFile.SectionsPacked | src/mime/xdgmimecache.c:262-307 | the same file holds one magic section with a masked matchlet |
| MimeCacheFile.MagicFound | src/mime/xdgmimecache.c:207-259 | the section accepts data that begin with the bytes, in the bits of the mask |
| MimeCacheFile.NamesHeld | src/mime/xdgmimecache.c:310-345 | the same file holds an alias and a type with a parent |
| MimeCacheFile.NamesFound | src/mime/xdgmimecache.c:832-901 | they are found under their names and under no other |
| Magic.CompareToData | src/mime/xdgmimemagic.c:519-558 | true exactly when the value stands, under its mask, at some position of the range that fits the data |
| Magic.AndBits | src/mime/xdgmimemagic.c:535-536 | a bit of a masked byte is set if and only if it is set in the byte and in the mask |
| Magic.FitsPlain | src/mime/xdgmimemagic.c:519-558 | without a mask a matchlet fits exactly when its value is a slice of the data that begins in the range |
| Magic.FitsMasked | src/mime/xdgmimemagic.c:519-558 | with a mask exactly when it is one in the bits of the mask |
| MagicList.CompareLevel | src/mime/xdgmimemagic.c:561-589 | the loop over the linked list computes the level rule of the flat list |
| Magic.LevelIsForest | src/mime/xdgmimemagic.c:561-589 | the level rule on the flattened forest, followed by anything less deep, is the and/or evaluation of the forest |
| Magic.ParseIsInverse | src/mime/xdgmimemagic.c:561-589 | reading a flat list as a forest and flattening it gives the list back |
| Magic.LevelMeansPath | src/mime/xdgmimemagic.c:561-589 | a list that starts at indent 0 and rises by at most one is accepted exactly when a root-to-leaf path of its forest matches throughout |
| MagicCache.Compare | src/mime/xdgmimecache.c:207-231 | the packed evaluator computes the same forest from arrays of children |
| MagicCache.CompareSection | src/mime/xdgmimecache.c:234-259 | packed and flat evaluation of a section agree, and both look for a matching path |
| MagicCache.LookupData | src/mime/xdgmimecache.c:262-307 | the packed database answers like the list of its sections and erases the same candidates |
| MagicList.InsertMatch | src/mime/xdgmimemagic.c:600-631 | the section is linked in before the first one of smaller priority; no other link changes |
| MagicRules.LoadedOrder | src/mime/xdgmimemagic.c:600-631 | after any loads the list is sorted by non-increasing priority and keeps load order among equals, with nothing lost |
| MagicRules.LoadedHit | src/mime/xdgmimemagic.c:655-701 | the section found has the highest priority among those that accept and is the earliest loaded of these; none is found exactly when none accepts |
| MagicList.Database.LookupData | src/mime/xdgmimemagic.c:655-701 | the first accepting section is returned; exactly the candidates equal to sections tried before it are erased; without one the last candidate left is returned |
| MagicList.LeftMeaning | src/mime/xdgmimemagic.c:655-701 | a candidate is left if and only if it equals the type of no section tried in vain, and then it is unchanged |
| MagicList.ExtentOfList | src/mime/xdgmimemagic.c:704-724 | the nested loops compute the largest extent, in 32-bit arithmetic |
| MagicRules.MaxExtentAttained | src/mime/xdgmimemagic.c:704-724 | the largest extent is that of some matchlet, or zero |
| MagicRules.CutKeepsHit | src/mime/xdgmimemagic.c:704-724 | truncating the data to the largest extent changes no answer, for all data and every database in which each range that is not empty ends inside that extent |
| MagicRules.SmallIsWithin | src/mime/xdgmimemagic.c:704-724 | that is so for every database in which the sum of each matchlet fits an int or its range is empty |
| MagicRules.OneMatchletExact | src/mime/xdgmimemagic.c:717-719 | for a database of one matchlet the answers survive truncation if and only if the sum fits an int or the range is empty |
| MagicRules.CutLosesHit | src/mime/xdgmimemagic.c:717-719 | a matchlet with the largest range makes the extent 0 and loses a match |
| MagicList.Mirror | src/mime/xdgmimemagic.c:727-749 | the same nodes in the opposite order |
| MagicReader.Stream.ReadNumber | src/mime/xdgmimemagic.c:198-238 | at most 30 digits; -1 for none or too large; end of file reported when it was met |
| MagicReader.Stream.ParseHeader | src/mime/xdgmimemagic.c:244-290 | every exit of the header parser, with the position it leaves |
| MagicReader.Stream.ParseLine | src/mime/xdgmimemagic.c:312-516 | every exit of the line parser, with the matchlet, its words turned around, and the position it leaves |
| MagicReader.Stream.SwapWords | src/mime/xdgmimemagic.c:476-503 | the loop that reverses the bytes of each word of value and mask, at the places where the code puts them |
| MagicText.SwapExact | src/mime/xdgmimemagic.c:486-499 | the loop reverses each word of every value of a given length if and only if that length has no second word |
| MagicText.StaysInsideExact | src/mime/xdgmimemagic.c:486-499 | every reversed word goes to a place inside the value if and only if the value has at most one word |
| MagicText.SwappedTwice | src/mime/xdgmimemagic.c:486-499 | for such a value turning its word around twice gives it back |
| MagicReader.ReadMagicFile | src/mime/xdgmimemagic.c:752-791 | the state machine terminates on every file; each section object is inserted or freed exactly once; the sections inserted hold their lines in file order |
| MagicReader.ReadFromFile | src/mime/xdgmimemagic.c:794-812 | without the header nothing is read; otherwise the database is the stable priority order of the sections of the file, with its extent |
| MagicPrint.LineStands | src/mime/xdgmimemagic.c:307-311 | a line printed in the documented format, its word the other way round, is read back as the same matchlet, up to its newline |
| MagicPrint.FileRoundTrip | src/mime/xdgmimemagic.c:752-791 | every database the format can express, values in words having one word, is read back from its text, section by section and line by line |
| MagicPrint.OneFile | src/mime/xdgmimemagic.c:794-812 | a file of header, section and two lines, byte by byte, and the section read from it |
| MagicPrint.BadSectionDropped | src/mime/xdgmimemagic.c:752-791 | a section with a line that begins with no expected character is dropped, with its lines before, and the sections after it are read |
| MagicPrint.BadHeaderSkipped | src/mime/xdgmimemagic.c:752-791 | a line that is no header, where one is expected, is skipped |
| MagicPrint.BrokenLine | src/mime/xdgmimemagic.c:476-483 | a line whose value is no whole number of words is an error |
| MagicPrint.WordRejected | src/mime/xdgmimemagic.c:437-453 | so is a word size other than 0, 1, 2 and 4 |
| MagicPrint.NumberTooLarge | src/mime/xdgmimemagic.c:227-235 | a number that no int holds is an error |
| MagicPrint.NumberCut | src/mime/xdgmimemagic.c:222-226 | a number ends after thirty digits |
| MimeTypes.TypeEqualMeaning | src/mime/xdgmime.c:608-620 | types are equal exactly when their resolved names are |
| MimeTypes.MediaMeaning | src/mime/xdgmime.c:630-641 | media types are equal exactly when both names share the text up to and including the first slash |
| MimeTypes.AcceptsMeaning | src/mime/xdgmime.c:673-689 | a base accepts directly itself, with a star in place of the sub-type all types of its media type, as text/plain all text types, as application/octet-stream all types, and nothing else |
| MimeTypes.SubclassMeaning | src/mime/xdgmime.c:661-699 | for every acyclic table the test terminates and is true exactly when some type reachable from the resolved type is accepted by the base as resolved at its level |
| MimeTypes.ResolvedMeaning | src/mime/xdgmime.c:661-699 | when the base resolves in one step, whatever the other aliases: exactly when some reachable type is accepted directly by the resolved base |
| MimeBases.AlikeIsEnough | src/mime/xdgmime.c:661-699 | the same for one table when the names the base moves through accept the same types, or the base is application/octet-stream |
| MimeBases.ReachabilityExact | src/mime/xdgmime.c:661-699 | for given aliases and base, the test is plain reachability on every acyclic table of parents if and only if the resolved base is application/octet-stream or each name the base moves through accepts the same types |
| MimeTypes.MovingBase | src/mime/xdgmime.c:682-695 | with an alias of an alias as base a type is not even a subclass of its own parent |
| MimeParents.ParentList.ReadFile | src/mime/xdgmimeparent.c:124-199 | reading a text, in pieces of at most 254 characters, keeps the table sorted and grouped, each type with the parents of all lines so far, in line order; the table starts with sixteen free places, doubles when it is full and is cut to size at the end |
| MimeParents.ParentList.AddLine | src/mime/xdgmimeparent.c:142-187 | one line: the entry of its type grows in place, or a new entry is made, in a table of twice the size if there is no free place |
| MimeParents.ParentList.Lookup | src/mime/xdgmimeparent.c:103-121 | the lookup gives exactly the parents the lines give the type |
| MimeParents.PairReadBack | src/mime/xdgmimeparent.c:142-153 | a line gives its type and its parent, in this order; a comment and a line without a space give nothing |
| MimeParents.FileSays | src/mime/xdgmimeparent.c:142-187 | a file written from any list of comments, lines without a space and pairs gives every type exactly the parents written behind it, in order |
| MimeParents.GroupsSorted | src/mime/xdgmimeparent.c:196-198 | sorting keeps the groups |
| MimeSubclass.SubclassOfLists | src/mime/xdgmime.c:661-699 | the recursion over alias and parent list computes the subclass relation of the tables |
| MimeSubclass.Bisect | src/mime/xdgmimecache.c:862-872 | the search in halves over a sorted table of strings finds a key exactly when it is there |
| MimeSubclass.UnaliasIn | src/mime/xdgmimecache.c:310-345 | the first file with an alias decides |
| MimeSubclass.AliasMeaning | src/mime/xdgmimecache.c:310-345 | the alias is the name beside the type in the first file that has the type |
| MimeSubclass.SubclassOfCaches | src/mime/xdgmimecache.c:832-901 | the loops over mapped files compute the same relation as the lists, when the files hold the same tables |
| MimeSubclass.ParentsMeaning | src/mime/xdgmimecache.c:875-898 | the parents of a type are those beside it in any of the files |
| AppLines.RunIsPieces | src/desktop/xdgapp.c:503-520 | the cutting loop ends with the pieces between semicolons up to the newline; an empty last piece is no piece |
| AppLines.MimeKeyExact | src/desktop/xdgapp.c:464-480 | a type name is split at its first slash, and only there |
| TextFiles.FgetsPieces | src/desktop/xdgapp.c:731 | nothing of a text is lost, and it is cut only behind newlines and where the buffer is full |
| AppLines.KeyLineMeaning | src/desktop/xdgapp.c:557-566 | key and text stand before and behind the first equals sign, without the blanks around it |
| MimeIndex.AppData.ReadValue | src/desktop/xdgapp.c:530-555 | each piece goes to the entry and, if it names a type, to the index, in order |
| MimeIndex.AppData.ReadDesktopFile | src/desktop/xdgapp.c:723-748 | the file is read group by group, plain and localized values each to their own list, and reading ends at an entry outside a group |
| DesktopText.SlotReadBack | src/desktop/xdgapp.c:568-594 | a key with a locale in brackets belongs to the entry of its name for that locale, a key without bracket to the entry for all locales |
| DesktopText.LogHolds | src/desktop/xdgapp.c:723-748 | the lines of any written file, with comments, empty lines, groups and entries, give every entry exactly the values written for its group, name and locale, in order, up to an entry outside a group |
| DesktopText.FileHolds | src/desktop/xdgapp.c:723-748 | so does its text, cut by the buffer: after reading it the entry holds these values behind those it held |
| MimeIndex.Counts | src/desktop/xdgapp.c:530-609 | for every well-formed type the values of an application exceed its entries in the index by the values the index was not told of |
| MimeIndex.InverseExact | src/desktop/xdgapp.c:569-606 | on what was parsed: the index is the inverse of the values if and only if no well-formed type went to the values alone |
| MimeIndex.GroupsAddUp | src/desktop/xdgapp.c:557-609 | the values of an application are those of its groups together |
| MimeIndex.RunInverse | src/desktop/xdgapp.c:723-748 | after reading any files without an unclosed `MimeType[` key every application stands under every type as often as it lists it |
| MimeIndex.RunInverseExact | src/desktop/xdgapp.c:569-606 | on the files: the index is the inverse of the values of an application if and only if no file of the application has, inside an open group and before reading stops, an unclosed `MimeType[` key with a piece that names a type |
| MimeIndex.StrayFile | src/desktop/xdgapp.c:596-597 | every file of a group header and such a line breaks the inverse |
| MimeIndex.StrayWitness | src/desktop/xdgapp.c:596-597 | the file of the two lines `[G]` and `MimeType[x=t/p;` does |
| MimeIndex.ReadFiles | src/desktop/xdgapp.c:723-748 | the two maps after reading any files hold exactly what was read |
| DesktopText.IndexOrder | src/desktop/xdgapp.c:530-555 | in the index the applications of a type stand in the order in which their files were read |
| AppFolders.FixupShares | src/desktop/xdgapp.c:976-1018 | the double loop over folders leaves every folder that knows an id with the first groups in folder order |
| AppFolders.Fixup | src/desktop/xdgapp.c:987-1018 | the same in place, for all ids at once, with unrelated applications unchanged |
| AppFolders.Cleanup | src/desktop/xdgapp.c:1026-1041 | exactly the groups that belong to another application are dropped |
| AppFolders.CleanupThenFixup | src/desktop/xdgapp.c:976-1041 | fixing up a cleaned state restores the sharing |
| AppFolders.Refresh | src/desktop/xdgapp.c:987-1041 | fix-up, cleaning and fix-up again give the same sharing, when each application starts with its own groups or none |
| UserApps.File.Save | src/desktop/xdgapp.c:1419-1450 | the text written from the three trees on the heap is the sections in order, the types and sub-types of each in the order of the stackless walks, one line per non-empty list |
| UserApps.File.SaveTree | src/desktop/xdgapp.c:1395-1399 | the walk over a tree of types, which walks a tree of sub-types at each of its nodes: the lines of all nodes in post-order, and nothing but visit flags changed |
| UserApps.OneFile | src/desktop/xdgapp.c:1379-1450 | a small file line by line: headers, keys, names, separators; lists without names and empty trees are not written |
| UserLoad.ReadListFile | src/desktop/xdgapp.c:750-780 | the loop over lines and names computes the loaded trees, for any text |
| UserLoad.NamesReadBack | src/desktop/xdgapp.c:687-721 | the pieces of a saved list are its names |
| UserLoad.KeptMeaning | src/desktop/xdgapp.c:611-638 | of the names of a list those remain that name an application, each once |
| UserLoad.RoundTrip | src/desktop/xdgapp.c:1379-1450 | loading what was saved, whatever names it holds, gives every type its added and its default lists back: the names that name an application, each where it stood first, with that application |
| UserLoad.ListFileRead | src/desktop/xdgapp.c:750-780 | a file with the sections "Added Associations", "Removed Associations" and "Default Applications" fills the trees of these names, each type with its list |
| UserLoad.RemovedExact | src/desktop/xdgapp.c:1445-1450 | the removed lists come back if and only if none of the names saved there names an application: the header written is not one that is read |
| UserLoad.SaveAndLoad | src/desktop/xdgapp.c:1294-1321 | the same over the two methods: the trees on the heap are saved to a file and the file is loaded; every list found on the heap under a type and a sub-type is back under both, with its known names in order |
| UserLoad.KnownComeBack | src/desktop/xdgapp.c:1379-1450 | lists of distinct names that all name an application come back as they were |
| UserLoad.RemovedIsLost | src/desktop/xdgapp.c:1445-1450 | a removed application that is known is lost, whatever its name and type |
| UserLoad.RemovedLost | src/desktop/xdgapp.c:1445-1450 | the removed application x.desktop of the type a/b is lost |

## Left out

- MagicRules.CutKeepsHit: for a whole database the condition is sufficient only; whether a larger sum can change an answer depends on which bytes the other sections accept. For one matchlet `OneMatchletExact` is exact.
- MagicReader.Stream.ParseLine: for a build in which the macro `LITTLE_ENDIAN` is set; bytes that the loop over words writes behind the end of the value are not part of the result.
- GlobHash.Hash.LookupName: where the pattern pass runs past its buffer (src/mime/xdgmimeglob.c:443-452; `InBoundsExact` says when) nothing is said of the result; `fnmatch` is a parameter, and the order of equal weights after `qsort` is one of those allowed.
- GlobHash.Load: takes parsed entries; the colons, weights, version-two format and `cs` flag of the file reader (src/mime/xdgmimeglob.c:609-690) are not modelled.
- MimeParents.ParentList.ReadFile: the NULL-terminated array of the parents of one type is a sequence.
- MimeSubclass.SubclassOfLists: takes the alias list as a map; loading and sorting it is not modelled.
- MimeIndex.AppData.ReadDesktopFile: the trees of values and associations are maps here, so an entry without values leaves no trace; lines arrive as `fgets` gives them, and the fixed buffer for the name of a locale is not modelled.
- UserLoad.ReadListFile: loading gives maps from types to lists, not trees.
- `delete_node` and `rebalance_shrunk` (src/containers/avltree.c:222-362, 572-588): nothing calls them.
- Destroying trees, lists and tries, apart from the items that `remove_if` and the magic reader free.
- File, directory, stat, mmap and environment access, the time stamps of watchers and the reload callbacks.
- The byte layout of dumped structures: a structure is one token of the stream, a string its characters and a terminator. Key and value pointers inside dumped nodes are not kept, since reading overwrites them.
- CacheLinked.SaveAndMapCache: of a tree structure the root is kept; the functions stored beside it are not modelled. The lists of the index on the heap are sequences with their addresses.
- Non-ASCII file names in suffix lookup, which the linked form compares as sign-extended bytes, the bare glob `*` and the empty file name.
- Literal and pattern lookup in mapped caches, icons, generic icons and the listing of parents.
- A type name shorter than two characters in the test for `/*`, which the code reads in front of the string; it is no super type here.
- Memory running out, including `malloc(0)` returning null for an empty magic value.
- `xdg_apps_lookup`, `xdg_mime_remove_callback`, joint lists, themes, the base-directory code and the menu module.
