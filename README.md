# KDirChainRebuild core in Dafny

This project models the core of KDirChainRebuild. KDirChainRebuild is a rewrite of the KDE directory lister and its Qt item models. The central piece is a compressed prefix trie (a radix tree) from string keys to integer values. It comes in two revisions:

- **KRadix2** is the current revision. Its nodes carry a label, a value and a vector of children.
- **KRadix** is the earlier revision. It has a vector of root nodes.

KRadix2 indexes strings through **KStringUnicode**, a NUL-terminated buffer of UTF-16 code units. Both tries and KStringUnicode model a code unit as an integer in 0..0xFFFF. Everywhere else a `QString` is a Dafny `string`.

Around the trie sit several small stateful pieces, each modelled as a class whose methods update its fields:

- **AltLRU**: a least-recently-used cache with expiry.
- **UrlUndoRedo** and **BreadcrumbUrlModel**: two navigation histories.
- **Directory bookkeeping**:
  - **KDirectoryEntry**: entry name helpers.
  - **KDirectoryPrivate**: filter flags, a one-entry cache and stat de-duplication.
  - **KDirectory**: entry batches.
  - **KDirListerV2Private**: the url-to-index table.
- **Item-model bookkeeping**:
  - **DirListModel**: roles, headers and the row counter.
  - **DirGroupedModel**: distinct group keys.
  - **DirGroupedProxyModel**: the role filter.
  - **FlatDirGroupedSortModel**: the proxy-to-source permutation vectors and the per-group counts.
- **Shortcut**: a key press/release latch.

Each core source file has one module. Pure code is written as datatypes, functions and lemmas. Code that changes state in place is written as classes with `modifies` clauses, and its loops carry their invariants. Every method is proved against a specification function, or it states the new state outright. Two modules are shared:

- `Wrappers` provides `Option`.
- `Ordering` provides `QString::compare` as a strict total order and `std::sort` as a stable insertion sort, which is one of its admissible outcomes.

Things from outside the core become parameters:

- the wall clock (`time(NULL)`);
- the values the list model gives for a row (`groupOf`, `cellOf`, `nameOf`);
- the MIME database and stat data (`Lookup`);
- the results of KIO list jobs (batches of UDS records).

Integers are unbounded. No operation in the core depends on overflow.

Source behaviours the model keeps as they are:

- In KRadix2, the value 0 means both "unset" and "not found".
- In KRadix2, a key that runs past a leaf reads the leaf's value.
- In KRadix2, a key that diverges inside a child's label reads the parent's value.
- `findNodeMatchIterative` reads `childNodes[i]` past the end when no child matches. The model reports this as `RanPastChildren`, and `Radix2.Value` answers `None` there.
- In KRadix, a duplicate key is ignored rather than overwritten.
- In KRadix, a key that is a prefix of a childless node's label becomes an empty-label child.
- In KRadix, a remainder that starts no child is dropped.

## Model

| member | source | states |
|---|---|---|
| KRadix2.FirstMatch | kradix2.cpp:64-68 | the child scan stops at the first child whose label starts with the code unit, or past the end when none does |
| KRadix2.Lcp | kradix2.cpp:70-71 | the comparison stops at the length of the longest common prefix of label and key |
| KRadix2.CreateNode | kradix2.cpp:32-35 | insert keeps the root's label and value and adds at most one child |
| KRadix2.InsertStored | kradix2.cpp:60-113 | insertion is a map update: the key maps to the new value, every other stored key keeps its value, and at most one unset branch point appears |
| KRadix2.InsertKeepsInvariant | kradix2.cpp:64-90 | inserting a non-empty key keeps sibling labels starting with pairwise different code units, and keeps every non-root label non-empty and NUL-free |
| KRadix2.SplitNodeStored | kradix2.cpp:99-113 | splitNode keeps the prefix with value 0 over one child that carries the rest of the label, the old value and the old children; every stored key keeps its value |
| KRadix2.AddLeafStored | kradix2.cpp:93-97 | addNode appends a leaf, which makes exactly its own key map to the value written into it |
| KRadix2.SetValueStored | kradix2.cpp:34 | writing the returned node's value changes only the key that ends at that node |
| KRadix2.SplitChildStored | kradix2.cpp:75-77 | a key that ends inside a child's label gives the split point the value |
| KRadix2.DescendChildStored | kradix2.cpp:79-81 | a key that runs past a child's label is inserted below that child |
| KRadix2.DivergeChildStored | kradix2.cpp:83-85 | a key that leaves a child's label inside it splits the child, then adds a leaf for the rest of the key |
| KRadix2.StoredIsFound | kradix2.cpp:115-179 | a stored non-empty key leads both lookups to the node that stores it |
| KRadix2.LookupsAgree | kradix2.cpp:115-179 | the recursive and the iterative lookup reach the same node for every key |
| KRadix2.FindNodeMatchIterative | kradix2.cpp:143-179 | the while loop over (i, offset, currentNode) computes the lookup's specification, including the out-of-range case |
| KRadix2.MatchChild | kradix2.cpp:158-175 | once a child starts like the key, the comparison runs to the first difference; the lookup then returns the parent, descends into the child, or returns the child |
| KRadix2.CommonLength | kradix2.cpp:159-163 | the inner comparison loop stops at the longest common prefix |
| KRadix2.SplitNode | kradix2.cpp:99-113 | splitNode's two labels put together give the old label; the upper node holds 0, the lower one the old value and children |
| KRadix2.AddNode | kradix2.cpp:93-97 | addNode keeps the label, the value and the old children, and appends one empty leaf with the key as label |
| KRadix2.FindNodeMatch | kradix2.cpp:115-141 | the recursive lookup returns the start node or a node below it |
| KRadix2.Radix2.constructor | kradix2.cpp:26-30 | a new trie is an empty root with value 0 |
| KRadix2.Radix2.Insert | kradix2.cpp:32-35 | insert replaces the root by CreateNode of the key as KStringUnicode sees it, keeps the trie invariant, and stores the value under the key |
| KRadix2.Radix2.Value | kradix2.cpp:37-41 | value reads the node findNodeMatchIterative returns; it answers None where the source reads past the children |
| KRadix2.InsertThenValue | kradix2.cpp:32-41 | round trip: after insert(k, v), value(k) is v by either lookup |
| KRadix2.OtherInsertsKeepValue | kradix2.cpp:32-41 | later inserts of other non-empty keys leave value(k) at v |
| KRadix2.ReinsertKeepsShape | kradix2.cpp:71-73 | re-inserting a stored key only overwrites its value; no node is added or split |
| KRadix2.PrefixScenario | kradix2.cpp:75-77 | "testing"->1 then "test"->2: the split node holds 2 and its tail "ing" keeps 1 |
| KRadix2.PrefixLookups | kradix2.cpp:115-179 | both keys of the prefix scenario are found with their own values by either lookup |
| KRadix2.DivergenceScenario | kradix2.cpp:83-85 | "team"->1 then "test"->2: a branch "te" with value 0 over the tail "am" and a new leaf "st" holding 2 |
| KRadix2.BranchScenario | kradix2.cpp:83-85 | "test123"->1 then "test345"->2: a branch "test" with value 0 over "123" and "345" |
| KRadix2.BranchNodeReadsZero | kradix2.cpp:165-174 | "test" ends at that branch node and reads 0 |
| KRadix2.PastLeafScenario | kradix2.cpp:173-174 | a key running past a leaf reads the leaf's value: "abc" after "ab"->5 reads 5 |
| KRadix2.DivergeInsideLabelScenario | kradix2.cpp:166-167 | a key diverging inside a child's label reads the parent's value |
| KRadix2.RanPastScenario | kradix2.cpp:151 | the scan runs off the end of childNodes on an empty trie and for a first code unit that no child has |
| KStringUnicode.Visible | kstringunicode.cpp:66-73 | the code units before the first terminator, all of them when there is none |
| KStringUnicode.VisibleOfNulFree | kstringunicode.cpp:27-35 | a NUL-free string followed by its terminator is seen whole |
| KStringUnicode.VisibleSuffix | kstringunicode.cpp:51-73 | the visible text of a suffix is the suffix of the visible text |
| KStringUnicode.MidSuffixVisible | kstringunicode.cpp:53-55 | mid(p) copies the suffix and the terminator; its length() is length() - p |
| KStringUnicode.MidRangeVisible | kstringunicode.cpp:51-64 | mid(p, n) inside the visible text holds exactly those n code units |
| KStringUnicode.KString.constructor | kstringunicode.cpp:27-35 | the buffer holds the code units in order, then a 0 terminator |
| KStringUnicode.KString.Move | kstringunicode.cpp:46-49 | the move constructor takes over the other object's buffer and leaves that object empty |
| KStringUnicode.KString.MoveAssign | kstringunicode.cpp:37-43 | move assignment transfers the buffer; self-assignment changes nothing |
| KStringUnicode.KString.Length | kstringunicode.cpp:66-73 | length() counts the code units before the first terminator |
| KStringUnicode.KString.ToString | kstringunicode.cpp:75-84 | toString() returns the visible code units, which is the original string for NUL-free input |
| KStringUnicode.KString.Mid | kstringunicode.cpp:51-64 | mid(p, n) is a new terminated buffer holding the selected code units |
| KRadix.StartIndex | kradix.cpp:63-68 | the first node whose key starts with the character, or past the end |
| KRadix.RemoveTextMatchFromBegin | kradix.cpp:171-187 | the result is [p, a', b'] where p is the longest common prefix, p + a' == a and p + b' == b |
| KRadix.InsertInto | kradix.cpp:78-150 | the for loop of insert(nodes, key, value) computes the recursive insertion function |
| KRadix.InsertAt | kradix.cpp:88-146 | one node starting like the key: it is left alone on a duplicate, split on divergence, or given an empty-label child or a recursive insert |
| KRadix.Radix.constructor | kradix.cpp:24-29 | a new trie has no root nodes |
| KRadix.Radix.InsertRootNodeIfNeeded | kradix.cpp:60-76 | a root node is appended exactly when no root equals the key or starts like it |
| KRadix.Radix.Insert | kradix.cpp:31-36 | insert is the insertion function; it reports failure, and leaves the tree unchanged, where the source reads at(0) of an empty remainder |
| KRadix.Value | kradix.cpp:152-169 | value, as written, answers 0 or a value that some node of the trie holds |
| KRadix.ValueSkips | kradix.cpp:152-169 | value passes over the nodes before the first one starting like the key |
| KRadix.ReachedIsValue | kradix.cpp:152-169 | a key the insertion path reaches exactly is what value returns, as written and as corrected |
| KRadix.DuplicateIgnored | kradix.cpp:93-96 | inserting a key already reached exactly changes nothing; the old value stays |
| KRadix.InsertKeepsRoots | kradix.cpp:60-76 | roots stay non-empty, with pairwise different first characters |
| KRadix.InsertNodesKeepsFirsts | kradix.cpp:78-150 | every insertion step keeps the first character of the node it rewrites |
| KRadix.NewRootThenValue | kradix.cpp:60-76 | a key that starts no root becomes the last root, and value finds it |
| KRadix.DivergenceScenario | kradix.cpp:108-132 | divergence at position 2 gives "te" with value 0 over the old tail and a new leaf |
| KRadix.PrefixBecomesEmptyChild | kradix.cpp:133-141 | a key that is a proper prefix of a childless node's key becomes an empty-key child |
| KRadix.RemainderDropped | kradix.cpp:143 | a remainder that starts no child is dropped |
| KRadix.EmptyRemainderRead | kradix.cpp:143 | "te" after "test" and "testing" reads at(0) of an empty remainder |
| KRadix.ValueIgnoresLabelRest | kradix.cpp:160-165 | value follows a node whatever is left of its key: "tam" was never inserted, yet it reads 1 |
| KRadix.ValueFixedSound | kradix.cpp:152-169 | a non-zero answer of the corrected lookup is the value at the end of a path spelling the key |
| AltLRU.NoTimeoutNeverExpires | alt-lru/AltLRU_CacheEntry.hpp:24-49 | init(v, 0) sets exp to 0, and such an entry is never expired |
| AltLRU.TimeoutExpiresStrictlyAfter | alt-lru/AltLRU_CacheEntry.hpp:26-48 | init(v, e) with e > 0 sets exp to e + now; the entry is expired exactly when the time is strictly greater |
| AltLRU.FreshNotExpired | alt-lru/AltLRU_CacheEntry.hpp:24-49 | an entry read at the time it was initialised is not expired |
| AltLRU.CacheEntry.constructor | alt-lru/AltLRU_CacheEntry.hpp:18-32 | a new entry holds the value and its expiry time |
| AltLRU.CacheEntry.Init | alt-lru/AltLRU_CacheEntry.hpp:24-39 | init stores the new value and expiry; getvalue then returns the value |
| AltLRU.CacheEntry.GetValue | alt-lru/AltLRU_CacheEntry.hpp:34-36 | getvalue returns the stored value |
| AltLRU.CacheEntry.IsExpired | alt-lru/AltLRU_CacheEntry.hpp:41-49 | an entry with exp 0 is never expired; otherwise it is expired exactly when the given time, or the clock when none is given, is past exp |
| AltLRU.CacheEntry.SetListIter | alt-lru/AltLRU_CacheEntry.hpp:51-57 | getListIter returns what setListIter last stored |
| AltLRU.Without | alt-lru/AltLRU.hpp:239-244 | erasing a key from a duplicate-free list removes exactly that key |
| AltLRU.NewKeyEvictsTail | alt-lru/AltLRU.hpp:115-122 | with the cache full, a new key evicts exactly the old tail, the least recently used key |
| AltLRU.NewKeyBelowLimit | alt-lru/AltLRU.hpp:115-122 | below the limit, or with no limit, nothing is evicted |
| AltLRU.Cache.constructor | alt-lru/AltLRU.hpp:83-89 | a new cache is empty, with the given limit and default expiry |
| AltLRU.Cache.Clear | alt-lru/AltLRU.hpp:99-111 | clear empties the map and the list and zeroes the counter |
| AltLRU.Cache.Count | alt-lru/AltLRU.hpp:51-53 | count equals the number of map entries and of list entries |
| AltLRU.Cache.CacheRemove | alt-lru/AltLRU.hpp:239-244 | the key leaves both the list and the map |
| AltLRU.Cache.CacheOut | alt-lru/AltLRU.hpp:248-255 | cacheRemove, and the counter drops by one |
| AltLRU.Cache.CheckLimits | alt-lru/AltLRU.hpp:115-122 | entries are evicted from the tail until the limit holds; the list keeps its max most recent keys |
| AltLRU.Cache.MoveToFront | alt-lru/AltLRU.hpp:165-171 | the key becomes the most recently used one; what the cache holds is unchanged |
| AltLRU.Cache.PushFront | alt-lru/AltLRU.hpp:191-198 | a new entry goes into the map and to the front of the list, and is counted |
| AltLRU.Cache.Get | alt-lru/AltLRU.hpp:143-173 | an absent key gives None and changes nothing; an expired entry is cached out and gives None; otherwise get returns the value and moves the key to the front |
| AltLRU.Cache.SetNew | alt-lru/AltLRU.hpp:191-198 | a new key is pushed to the front and the limit enforced |
| AltLRU.Cache.SetExisting | alt-lru/AltLRU.hpp:199-205 | an existing key gets the new value and expiry and moves to the front; the count is unchanged |
| AltLRU.Cache.Set | alt-lru/AltLRU.hpp:177-206 | set stores the value (expire 0 takes the default); other keys keep their values |
| AltLRU.Cache.Remove | alt-lru/AltLRU.hpp:210-212 | remove deletes a present key and counts one fewer; an absent key is a no-op |
| AltLRU.Cache.GetSet | alt-lru/AltLRU.hpp:225-235 | a present, unexpired value is returned without calling the callback; otherwise the callback's value is stored and returned |
| UrlUndoRedo.HasNextIntended | utils/urlundoredo.cpp:46-52 | corrected hasNext: true exactly when next() would move |
| UrlUndoRedo.CurrentUrlOf | utils/urlundoredo.cpp:62-65 | currentUrl is the entry at the index, None where at() would be out of range |
| UrlUndoRedo.HasPreviousMeansPreviousMoves | utils/urlundoredo.cpp:54-81 | on every reachable state, hasPrevious holds exactly when previous() moves |
| UrlUndoRedo.HasNextAsWrittenOnAnyEntry | utils/urlundoredo.cpp:67-73 | as written, hasNext is true on every reachable state that has an entry |
| UrlUndoRedo.HasNextAtLastEntry | utils/urlundoredo.cpp:67-73 | at the only entry hasNext says yes, yet next() does not move |
| UrlUndoRedo.ReachableHasCurrent | utils/urlundoredo.cpp:62-65 | every reachable state with an entry has a current url |
| UrlUndoRedo.History.HasNext | utils/urlundoredo.cpp:67-73 | corrected: true exactly when next() moves; whenever it holds, the code as written also answers true |
| UrlUndoRedo.History.CurrentUrl | utils/urlundoredo.cpp:62-65 | the url at the index, present exactly when the index is in range |
| UrlUndoRedo.History.HasPrevious | utils/urlundoredo.cpp:75-81 | whenever the index is at most the count, true exactly when previous() moves |
| UrlUndoRedo.History.constructor | utils/urlundoredo.cpp:23-26 | a new history has no urls and index 0 |
| UrlUndoRedo.History.Add | utils/urlundoredo.cpp:28-44 | add drops the entries after the current one; a non-empty url is appended and made current, an empty one keeps the index |
| UrlUndoRedo.History.Next | utils/urlundoredo.cpp:46-52 | next advances by one when index + 1 < count, otherwise nothing changes |
| UrlUndoRedo.History.Previous | utils/urlundoredo.cpp:54-60 | previous steps back by one when 0 <= index - 1 < count, otherwise nothing changes |
| BreadcrumbUrlModel.Split | utils/breadcrumburlmodel.cpp:167-173 | the path split on the separator, with empty parts dropped: non-empty, separator-free segments |
| BreadcrumbUrlModel.FirstSep | utils/breadcrumburlmodel.cpp:167-173 | the end of the first segment: no separator before it, and a separator at it unless the text ends there |
| BreadcrumbUrlModel.SplitJoin | utils/breadcrumburlmodel.cpp:62-80 | splitting joined segments gives the segments back |
| BreadcrumbUrlModel.SplitPathOf | utils/breadcrumburlmodel.cpp:62-94 | a path rebuilt from segments parses back to those segments |
| BreadcrumbUrlModel.Model.constructor | utils/breadcrumburlmodel.cpp:25-32 | a new model has no history and no segments |
| BreadcrumbUrlModel.Model.ParseUrl | utils/breadcrumburlmodel.cpp:167-173 | the segments become the current path split on the separator |
| BreadcrumbUrlModel.Model.SetUrl | utils/breadcrumburlmodel.cpp:44-55 | setUrl drops the history after the current entry; a different url is appended, made current and parsed |
| BreadcrumbUrlModel.Model.Append | utils/breadcrumburlmodel.cpp:62-70 | a non-empty str navigates to the separator followed by the old segments plus str, joined; the new segments are the old ones plus str |
| BreadcrumbUrlModel.Model.Parent | utils/breadcrumburlmodel.cpp:72-80 | parent drops the last segment if there is one, otherwise nothing happens |
| BreadcrumbUrlModel.Model.RemoveAfterIndex | utils/breadcrumburlmodel.cpp:82-94 | the first i + 1 segments are kept when i + 1 is a valid position, otherwise nothing happens |
| BreadcrumbUrlModel.Model.Next | utils/breadcrumburlmodel.cpp:116-122 | next moves forward by one only when hasNext holds |
| BreadcrumbUrlModel.Model.Previous | utils/breadcrumburlmodel.cpp:124-130 | previous moves back by one only when hasPrevious holds |
| BreadcrumbUrlModel.Model.HasNext | utils/breadcrumburlmodel.cpp:132-139 | at a valid index, true exactly when history entries follow the current one |
| BreadcrumbUrlModel.Model.HasPrevious | utils/breadcrumburlmodel.cpp:141-147 | true only at a valid index, and there exactly when history entries precede the current one |
| BreadcrumbUrlModel.Model.RowCount | utils/breadcrumburlmodel.cpp:149-152 | one row per segment |
| KDirectoryEntry.FromUds | kdirectoryentry.cpp:105-114 | the entry takes the record's name and file type; full data is marked exactly when the details are not "0" |
| KDirectoryEntry.LastDot | kdirectoryentry.cpp:67 | the position of the last dot, -1 when there is none |
| KDirectoryEntry.Basename | kdirectoryentry.cpp:65-69 | the name up to the last dot, excluding it; the whole name when there is no dot |
| KDirectoryEntry.Extension | kdirectoryentry.cpp:71-83 | the dot-free text after the last dot; empty for a name starting with a dot |
| KDirectoryEntry.IsHidden | kdirectoryentry.cpp:178-189 | hidden exactly when the name is non-empty and starts with a dot |
| KDirectoryEntry.IsDir | kdirectoryentry.cpp:158-161 | S_ISDIR: the file-type field of the mode (bits 12-15) is 4 |
| KDirectoryEntry.IsLink | kdirectoryentry.cpp:153-156 | S_ISLNK: the file-type field is 0xA, so a link is never a directory |
| KDirectoryEntry.IsFile | kdirectoryentry.cpp:163-166 | isFile is exactly not isDir |
| KDirectoryEntry.IsWritable | kdirectoryentry.cpp:94-97 | isWritable is always false |
| KDirectoryEntry.IsReadable | kdirectoryentry.cpp:85-92 | the stat data is never filled in, so isReadable is always false |
| KDirectoryEntry.BasenameDotExtension | kdirectoryentry.cpp:65-83 | for a name not starting with a dot that contains a dot: basename + "." + extension == name |
| KDirectoryEntry.HiddenHasNoExtension | kdirectoryentry.cpp:73-82 | a hidden entry has no extension |
| KDirectoryEntry.DirIsNotLink | kdirectoryentry.cpp:153-161 | the file-type bits name one type: a directory is never a link |
| KDirectoryEntry.TypeIgnoresPermissions | kdirectoryentry.cpp:153-161 | the type tests read only the file-type bits |
| KDirectoryPrivate.NoDotAndDotDotIsBoth | kdirectoryprivate_p.cpp:92 | NoDotAndDotDot is the union of NoDot and NoDotDot |
| KDirectoryPrivate.KeepAsWritten | kdirectoryprivate_p.cpp:84-150 | the filter as written: NoFilter keeps everything; only ".", ".." and hidden entries are ever dropped; with the Hidden flag set a hidden entry is dropped |
| KDirectoryPrivate.KeepAsWrittenRules | kdirectoryprivate_p.cpp:84-150 | as written: NoFilter keeps everything; any dot flag drops "." and ".."; the Hidden flag drops hidden entries; everything else is kept |
| KDirectoryPrivate.KeepAsWrittenCounterexamples | kdirectoryprivate_p.cpp:92-116 | as written, NoDot | Hidden drops ".." and NoDotDot | Hidden drops ".", which the corrected filter keeps; Dirs + Files + Hidden drops ".bashrc", which it keeps; Dirs + Files + NoDotAndDotDot keeps ".bashrc", which it drops |
| KDirectoryPrivate.KeepIntendedRules | kdirectoryprivate_p.cpp:84-150 | corrected filter: NoDot drops only ".", NoDotDot only "..", and hidden entries are kept only with Hidden set |
| KDirectoryPrivate.FilterPartitions | kdirectoryprivate_p.cpp:174-181 | every entry goes to exactly one of the filtered and unused lists, and together they are a permutation of the batch |
| KDirectoryPrivate.FilterStep | kdirectoryprivate_p.cpp:176-180 | one more entry extends exactly one list, the one the filter chooses |
| KDirectoryPrivate.Parsed | kdirectoryprivate_p.cpp:175 | each record becomes an entry built with the current details |
| KDirectoryPrivate.WithStatIdempotent | kdirectoryprivate_p.cpp:188-193 | asking twice for an id is asking once; no id is tracked twice |
| KDirectoryPrivate.DirectoryPrivate.constructor | kdirectoryprivate_p.cpp:18-24 | no entries, no cached entry, NoFilter and NoSort |
| KDirectoryPrivate.DirectoryPrivate.SetDetails | kdirectoryprivate_p.cpp:39-45 | the details are replaced and nothing else changes |
| KDirectoryPrivate.DirectoryPrivate.Filter | kdirectoryprivate_p.cpp:64-67 | filter() returns the flags the entry filter applies |
| KDirectoryPrivate.DirectoryPrivate.Sorting | kdirectoryprivate_p.cpp:74-77 | sorting() returns the stored sort flags |
| KDirectoryPrivate.DirectoryPrivate.SetFilter | kdirectoryprivate_p.cpp:64-72 | filter() then returns the new flags and nothing else changes |
| KDirectoryPrivate.DirectoryPrivate.SetSorting | kdirectoryprivate_p.cpp:74-82 | sorting() then returns the new flags and nothing else changes |
| KDirectoryPrivate.DirectoryPrivate.GetEntry | kdirectoryprivate_p.cpp:47-62 | a valid index gives the filtered entry there and is remembered; an invalid one gives the empty entry and forgets; a repeat is served from the cached copy |
| KDirectoryPrivate.DirectoryPrivate.ProcessFilterFlags | kdirectoryprivate_p.cpp:169-183 | corrected: the filtered and unused lists are extended by the entries the corrected filter keeps and rejects, in order, and the counter matches |
| KDirectoryPrivate.DirectoryPrivate.SlotEntries | kdirectoryprivate_p.cpp:223-238 | corrected: a non-empty batch is parsed with the current details and run through the corrected filter; an empty one changes nothing; the cached entry, the stat list, the flags, the details and the directory are unchanged |
| KDirectoryPrivate.DirectoryPrivate.LoadEntryDetails | kdirectoryprivate_p.cpp:185-193 | an id already in progress is left alone, otherwise it is appended; the entry lists, the counter, the cache, the flags, the details and the directory are unchanged |
| KDirectory.BareEntries | kdirectory.cpp:31-35 | each record becomes an entry with the default "0" details |
| KDirectory.Directory.constructor | kdirectory.cpp:18-21 | no entries, count 0, and url() is the argument |
| KDirectory.Directory.Url | kdirectory.cpp:18-21 | url() returns the constructor argument |
| KDirectory.Directory.Count | kdirectory.cpp:23-26 | count() is the number of stored entries |
| KDirectory.Directory.SlotEntries | kdirectory.cpp:28-43 | a non-empty batch is appended in arrival order; an empty batch changes nothing |
| KDirectory.BatchesConcatenate | kdirectory.cpp:28-43 | two batches in a row store the same as their concatenation |
| KDirListerV2Private.IndexOf | kdirlisterv2_p.cpp:88-94 | urlToIndex is the mapped index, or -100 for an unknown url |
| KDirListerV2Private.NewUrlConsistent | kdirlisterv2_p.cpp:48-64 | a new directory keeps the table right and is found at the end of the list |
| KDirListerV2Private.ReloadLeavesStaleIndex | kdirlisterv2_p.cpp:66-75 | open "a", open "b", reload "a": the table sends "b" to the index where the new "a" sits |
| KDirListerV2Private.Shifted | kdirlisterv2_p.cpp:73-74 | after removal the url is unmapped and every other url stays mapped |
| KDirListerV2Private.RemoveShiftedConsistent | kdirlisterv2_p.cpp:66-75 | removal with the later indices moved down keeps the table right |
| KDirListerV2Private.IndexRoundTrip | kdirlisterv2_p.cpp:77-94 | on a consistent table, indexToUrl(urlToIndex(u)) == u |
| KDirListerV2Private.ListerPrivate.constructor | kdirlisterv2_p.cpp:27-34 | no directories, empty table, "0" details |
| KDirListerV2Private.ListerPrivate.NewUrl | kdirlisterv2_p.cpp:48-64 | one new empty directory at the end, its url mapped to the new last index |
| KDirListerV2Private.ListerPrivate.RemoveUrlBookkeepingAndData | kdirlisterv2_p.cpp:66-75 | corrected: an unknown url aborts and changes nothing; a known one is removed from the list and the table, and the later indices move down by one |
| KDirListerV2Private.ListerPrivate.AddUrl | kdirlisterv2_p.cpp:36-46 | corrected: Reload on a known url removes it first, with the corrected removal; then the url is added at the end and urlToIndex finds it there |
| KDirListerV2Private.ListerPrivate.UrlToIndex | kdirlisterv2_p.cpp:88-94 | the mapped index or -100; a found index names a directory with that url |
| KDirListerV2Private.ListerPrivate.IndexExists | kdirlisterv2_p.cpp:96-103 | true exactly when 0 <= index < the number of directories |
| KDirListerV2Private.ListerPrivate.IndexToUrl | kdirlisterv2_p.cpp:77-85 | the directory's url, or the empty string past the end |
| KDirListerV2Private.ListerPrivate.Directory | kdirlisterv2_p.cpp:105-113 | the directory, or null (None) past the end |
| DirListModel.HeaderName | models/dirlistmodel.cpp:218-244 | the fixed label at role - (UserRole + 1) for the 12 column roles, "UNKNOWN_HEADER_NAME" otherwise |
| DirListModel.HeaderNamesDistinct | models/dirlistmodel.cpp:221-234 | every column role has its own label |
| DirListModel.HeaderOrderMatchesRoleNames | models/dirlistmodel.cpp:198-244 | a role has a QML name exactly when it has a header label, both taken from the same position |
| DirListModel.HeaderData | models/dirlistmodel.cpp:186-196 | a horizontal DisplayRole request gives headerName(UserRole + 1 + section); every other request gives the empty value |
| DirListModel.RowData | models/dirlistmodel.cpp:117-171 | each role gives the entry's name, basename, extension or hidden flag, the placeholder thumbnail, or the outside value; unknown roles give the empty value |
| DirListModel.NameRolesIgnoreLookup | models/dirlistmodel.cpp:122-143 | the roles the entry answers itself do not depend on outside data |
| DirListModel.NameCellsReassemble | models/dirlistmodel.cpp:122-130 | the BaseName and Extension cells rebuild the Name cell |
| DirListModel.IndexData | models/dirlistmodel.cpp:89-115 | an invalid index gives the empty value; a role above UserRole picks the value; DisplayRole shows the column's role; any other role gives the empty value |
| DirListModel.HeaderLabelsColumn | models/dirlistmodel.cpp:98-106 | the header of column c labels the role that column's display cells show |
| DirListModel.ListModel.constructor | models/dirlistmodel.cpp:26-41 | no directory, empty path, "0" details, no rows |
| DirListModel.ListModel.SetPath | models/dirlistmodel.cpp:48-74 | the row count is reset to 0 only when the path changes; the url is opened on reload or when the lister is not already listing it; otherwise loading completes at once, showing the lister's directory when it has entries not yet announced |
| DirListModel.ListModel.SetDetails | models/dirlistmodel.cpp:81-87 | the details are stored; changed only when they differ |
| DirListModel.ListModel.RowCount | models/dirlistmodel.cpp:173-179 | 0 without a directory, otherwise the rows announced so far |
| DirListModel.ListModel.SlotDirectoryContentChanged | models/dirlistmodel.cpp:254-272 | the model shows the directory; the row count is raised to its entry count and never lowered |
| DirListModel.ListModel.SlotCompleted | models/dirlistmodel.cpp:274-281 | left-over entries are announced, and loading is done |
| DirGroupedProxyModel.Proxy.constructor | models/dirgroupedproxymodel.cpp:24-30 | a value-initialised role and the empty filter value |
| DirGroupedProxyModel.Proxy.SetRoleFilter | models/dirgroupedproxymodel.cpp:32-38 | the role and the filter value are both replaced |
| DirGroupedProxyModel.Proxy.FilterAcceptsRow | models/dirgroupedproxymodel.cpp:40-53 | the None role accepts every row; otherwise a row is accepted exactly when its value for the role equals the filter value |
| DirGroupedProxyModel.AcceptsByRowValue | models/dirgroupedproxymodel.cpp:45-51 | on a column role, a row is accepted exactly when data(row, role) is the filter value |
| DirGroupedProxyModel.FiltersPartitionRows | models/dirgroupedproxymodel.cpp:40-53 | filters on one role with different values accept disjoint rows, and each row passes the filter holding its own value |
| DirGroupedModel.GroupKey | models/dirgroupedmodel.cpp:157-206 | the entry's value for the grouping role; the empty value for Thumbnail; no key for Hidden and None |
| DirGroupedModel.GroupedKeys | models/dirgroupedmodel.cpp:210-221 | keys stay distinct and in first-seen order; every processed entry's key is present; every key is old or comes from an entry |
| DirGroupedModel.GroupedInBatches | models/dirgroupedmodel.cpp:133-146 | processing in two batches gives the same keys as one pass |
| DirGroupedModel.GroupFilterKeepsEntry | models/dirgroupedmodel.cpp:213-215 | a filter set to the grouping role and an entry's key keeps that entry |
| DirGroupedModel.GroupedModel.constructor | models/dirgroupedmodel.cpp:25-41 | no keys, no groups, both counters 0 |
| DirGroupedModel.GroupedModel.SetGroupby | models/dirgroupedmodel.cpp:86-93 | the role changes, and changed is reported, only when it differs |
| DirGroupedModel.GroupedModel.RowCount | models/dirgroupedmodel.cpp:95-98 | the number of distinct group keys |
| DirGroupedModel.GroupedModel.Data | models/dirgroupedmodel.cpp:100-112 | the row's group key for the first column of a valid index, the empty value otherwise |
| DirGroupedModel.GroupedModel.ProcessEntry | models/dirgroupedmodel.cpp:157-222 | a new key is appended with one new group model; a present key, Hidden and None change nothing |
| DirGroupedModel.GroupedModel.SlotDirectoryContentChanged | models/dirgroupedmodel.cpp:114-139 | under None, one empty-key group is made the first time only; otherwise only the new entries are grouped, and the processed count becomes the entry count |
| DirGroupedModel.GroupedModel.SlotCompleted | models/dirgroupedmodel.cpp:141-147 | left-over entries are grouped; under None the one empty-key group is made only when there is none yet; with no left-over entries nothing changes |
| DirGroupedModel.GroupedModel.ClearAdministrativeData | models/dirgroupedmodel.cpp:149-155 | both lists are empty and both counters 0 |
| DirGroupedModel.GroupedModel.ModelAtIndex | models/dirgroupedmodel.cpp:239-252 | null outside the group list; under None, row 0 of an empty list first gets its model |
| FlatDirGroupedSortModel.VariantLessThanNotAsymmetric | models/flatdirgroupedsortmodel.cpp:325-331 | Invalid and Int(-1) are each less than the other |
| FlatDirGroupedSortModel.VariantLessThanAsWritten | models/flatdirgroupedsortmodel.cpp:325-355 | the comparison as written: an invalid left value is less than every valid right one; integers compare numerically and an integer is less than an invalid value when negative; strings compare by QString::compare |
| FlatDirGroupedSortModel.VariantLess | models/flatdirgroupedsortmodel.cpp:325-355 | corrected comparison: a valid value is never less than an invalid one, and an invalid one is less than every valid one |
| FlatDirGroupedSortModel.VariantLessOrdersInts | models/flatdirgroupedsortmodel.cpp:327-331 | on an integer column: a strict total order, the empty value first, integers numerically |
| FlatDirGroupedSortModel.VariantLessOrdersText | models/flatdirgroupedsortmodel.cpp:350-352 | on a text column: a strict total order, the empty value first, strings by QString::compare |
| FlatDirGroupedSortModel.ParseIntToString | models/flatdirgroupedsortmodel.cpp:331 | an integer read back from its text is itself |
| FlatDirGroupedSortModel.NameColumnOrderIsStrict | models/flatdirgroupedsortmodel.cpp:105-123 | the Name column's comparison is a strict order in both directions |
| FlatDirGroupedSortModel.FilteredRows | models/flatdirgroupedsortmodel.cpp:90-98 | increasing proxy rows whose source row is in the group |
| FlatDirGroupedSortModel.FilteredRowsComplete | models/flatdirgroupedsortmodel.cpp:90-98 | every proxy row of the group is among them |
| FlatDirGroupedSortModel.MinMax | models/flatdirgroupedsortmodel.cpp:151 | the least and greatest rows, none for no rows |
| FlatDirGroupedSortModel.MinMaxOfIncreasing | models/flatdirgroupedsortmodel.cpp:150-151 | on increasing rows they are the first and the last |
| FlatDirGroupedSortModel.Items | models/flatdirgroupedsortmodel.cpp:314-317 | the stored count, 0 for a group never seen |
| FlatDirGroupedSortModel.CountedItems | models/flatdirgroupedsortmodel.cpp:252-258 | counting rows one at a time adds each group's number of rows to its count |
| FlatDirGroupedSortModel.CountsAddUp | models/flatdirgroupedsortmodel.cpp:252-258 | the group counts of the new rows add up to end - start + 1 |
| FlatDirGroupedSortModel.Window | models/flatdirgroupedsortmodel.cpp:277-287 | for any ids: the request widened by 50 each way, clamped to [0, rowCount]; a request inside the rows stays inside the window |
| FlatDirGroupedSortModel.MapFromSourceAsWritten | models/flatdirgroupedsortmodel.cpp:178-185 | mapFromSource as written: an entry of the proxy-to-source vector, so a row in range on a permutation |
| FlatDirGroupedSortModel.MapFromSourceNotInverse | models/flatdirgroupedsortmodel.cpp:178-185 | with order [1, 2, 0], source row 1 maps to proxy row 2, not 0 |
| FlatDirGroupedSortModel.PermutationCovers | models/flatdirgroupedsortmodel.cpp:196-214 | a permutation of 0..n-1 contains every row below n |
| FlatDirGroupedSortModel.MapRoundTrip | models/flatdirgroupedsortmodel.cpp:178-194 | when the source-to-proxy vector undoes a permutation, it is its inverse in both directions: source to proxy to source and proxy to source to proxy are the identity |
| FlatDirGroupedSortModel.AppendKeepsInverse | models/flatdirgroupedsortmodel.cpp:201-207 | appending the next row ids to both vectors keeps them inverse |
| FlatDirGroupedSortModel.OrderKeepsInverse | models/flatdirgroupedsortmodel.cpp:230-260 | rearranging the appended block and pointing each of its rows back keeps the vectors inverse |
| FlatDirGroupedSortModel.ReorderKeepsPermutation | models/flatdirgroupedsortmodel.cpp:136-147 | rearranging a group's rows among themselves keeps the vector a permutation |
| FlatDirGroupedSortModel.AppendKeepsPermutation | models/flatdirgroupedsortmodel.cpp:201-207 | appending a rearrangement of the next row ids to a permutation gives a permutation of the longer range |
| FlatDirGroupedSortModel.InsertedKeepsPermutation | models/flatdirgroupedsortmodel.cpp:196-214 | rows appended at the end, in order or grouped, keep the vector a permutation |
| FlatDirGroupedSortModel.GroupOrderOfBlock | models/flatdirgroupedsortmodel.cpp:233-241 | the new block ordered by group is duplicate-free, sorted and within start..end |
| FlatDirGroupedSortModel.SortModel.constructor | models/flatdirgroupedsortmodel.cpp:28-63 | no grouping, no rows |
| FlatDirGroupedSortModel.SortModel.SetGroupby | models/flatdirgroupedsortmodel.cpp:75-82 | the role changes, and changed is reported, only when it differs |
| FlatDirGroupedSortModel.SortModel.RowCount | models/flatdirgroupedsortmodel.cpp:168-171 | one proxy row per source row |
| FlatDirGroupedSortModel.SortModel.NumOfItemsForGroup | models/flatdirgroupedsortmodel.cpp:314-317 | 0 for a group never seen |
| FlatDirGroupedSortModel.SortModel.MapToSource | models/flatdirgroupedsortmodel.cpp:187-194 | the source row at the proxy row; invalid maps to invalid |
| FlatDirGroupedSortModel.SortModel.MapFromSource | models/flatdirgroupedsortmodel.cpp:178-185 | corrected: the proxy row read from the source-to-proxy vector; invalid maps to invalid |
| FlatDirGroupedSortModel.SortModel.ModelRowsRemoved | models/flatdirgroupedsortmodel.cpp:216-228 | all bookkeeping is cleared, and the empty vectors are inverse |
| FlatDirGroupedSortModel.SortModel.WriteNewEntries | models/flatdirgroupedsortmodel.cpp:243-259 | the block is spliced in, points back, and its groups are counted |
| FlatDirGroupedSortModel.SortModel.NewEntries | models/flatdirgroupedsortmodel.cpp:233-236 | the first loop of orderNewEntries collects the rows start..end, in order |
| FlatDirGroupedSortModel.SortModel.OrderNewEntries | models/flatdirgroupedsortmodel.cpp:230-260 | positions start..end hold a permutation of start..end sorted by group; the source-to-proxy vector inverts it on that block, and inverse vectors stay inverse; each group count grows by its rows |
| FlatDirGroupedSortModel.SortModel.AppendRows | models/flatdirgroupedsortmodel.cpp:201-207 | start..end is appended, in order, to all three vectors; rows appended at the end keep inverse vectors inverse |
| FlatDirGroupedSortModel.SortModel.ModelRowsInserted | models/flatdirgroupedsortmodel.cpp:196-214 | rows are appended, then ordered by group under a grouping; a permutation stays a permutation, and inverse vectors stay inverse |
| FlatDirGroupedSortModel.SortModel.MapsRoundTrip | models/flatdirgroupedsortmodel.cpp:178-194 | on inverse vectors, mapFromSource(mapToSource(row)) and mapToSource(mapFromSource(row)) are row |
| FlatDirGroupedSortModel.SortModel.GroupRows | models/flatdirgroupedsortmodel.cpp:87-98 | the filter loop finds exactly the group's proxy rows, in increasing order |
| FlatDirGroupedSortModel.SortModel.ApplyOrder | models/flatdirgroupedsortmodel.cpp:131-147 | each group row gets its new source row; a permutation stays a permutation |
| FlatDirGroupedSortModel.SortModel.Sort | models/flatdirgroupedsortmodel.cpp:84-156 | corrected: with the corrected comparison, only the group's proxy rows are rewritten, with a rearrangement of themselves; other rows are unchanged; the changed range is the min and max of the group's rows, none for an empty group |
| FlatDirGroupedSortModel.SortModel.WriteWindow | models/flatdirgroupedsortmodel.cpp:299-307 | only the window is rewritten, and each changed row points back |
| FlatDirGroupedSortModel.SortModel.RequestSortForItems | models/flatdirgroupedsortmodel.cpp:267-312 | for any ids whose clamped window ends do not cross: the window holds the rows that rank there by name, in order; rows outside keep their source row |
| Shortcut.Step | utils/shortcut.cpp:42-63 | activation exactly on a press of the stored non-empty sequence with the latch open; it closes the latch; a release opens it |
| Shortcut.OneActivationPerHold | utils/shortcut.cpp:52-61 | between releases the sequence is announced at most once, and not at all when already announced |
| Shortcut.EmptySequenceNeverActivates | utils/shortcut.cpp:44 | with no sequence set, nothing activates |
| Shortcut.ReleaseRearms | utils/shortcut.cpp:54-61 | after a release, a press announces again |
| Shortcut.Shortcut.constructor | utils/shortcut.cpp:25-31 | no sequence, latch open |
| Shortcut.Shortcut.SetKey | utils/shortcut.cpp:33-40 | the sequence is stored; changed only when it differs |
| Shortcut.Shortcut.EventFilter | utils/shortcut.cpp:42-63 | the latch moves as Step says, and the answer is always the base filter's |
| Ordering.SortBySorted | models/flatdirgroupedsortmodel.cpp:239-241 | under a strict order, the sort outcome is sorted |
| Ordering.StrLessIsStrict | models/flatdirgroupedsortmodel.cpp:352 | QString::compare order is irreflexive and transitive |

## Left out

- Qt signals (`emit`), the `begin*Rows`/`end*Rows` calls, `qDebug` output and both tries' `printNodes` are left out, because they do not change the modelled state.
- KIO list and stat jobs, `KDirWatch`, and the stat job's result lambda are left out because they are I/O. A job's output arrives as a parameter: a batch of UDS records.
- KMimeType lookups, `QCollator` ordering, file sizes, times and owner names are outside data. They enter as the `Lookup` parameter, and `QString::compare` order stands in for the collator.
- The `Float`, `Double`, `Date`, `Time`, `DateTime`, `UInt`, `LongLong` and `Char` branches of `variantLessThan` are not modelled. The model's values are invalid, strings, booleans and integers.
- `time(NULL)` is the parameter `now`.
- `checkExpires` in AltLRU is not modelled; as written it would not compile if instantiated.
- The `rehash` sizing, the hit counters and the DJB2 hash of AltLRU are not modelled. Keys are compared as (name, id) pairs.
- `midInternal` and the `ushort[]` constructor of KStringUnicode are declared but have no body, so they are not part of this model.
- `QUrl` parsing is abstracted: a url is a (base, path) pair with '/' as the separator.
- `DirGroupedModel` `setPath`, `setDetails`, `regroup`, `reload` and `setInputFilter` are compositions of modelled operations and are not modelled themselves.
- `DirListModel.reload` is left out, because it only starts I/O through the lister. In `setPath`, the call that opens the url is I/O: the model reports it as the result `opens`, and the directory arrives later through the modelled slots.
- UrlUndoRedo leaves its index uninitialised. The model starts it at 0.
- KRadix2.Radix2.Insert: requires a non-empty visible key. The source appends an empty-label child for the first empty key, and reads past the terminator for a second one.
- KRadix2.Radix2.Value: answers None where the iterative lookup reads `childNodes[i]` past the end of the vector. The source's behaviour there is undefined.
- KRadix.Radix.Insert: where the source calls `at(0)` on an empty key remainder, the model reports failure and leaves the tree unchanged, instead of reproducing that undefined read.
- AltLRU.Cache.PushFront: states the map and list updates, not the Contents map derived from them.
- AltLRU.Cache.Get: an entry that is present but expired is cached out; its removal is stated for the map and the list.
- DirGroupedModel.GroupedModel.ProcessEntry: the new filter model keeps its default role and value. The calls that configure it (`setFilterRole`, `setRoleValueMatch`) belong to QSortFilterProxyModel and to another revision of DirGroupedProxyModel, which are not part of this model.
- FlatDirGroupedSortModel.SortModel.RowCount: counts the rows of the proxy-to-source vector. The source asks the list model's rowCount, which the model takes to be the same number.
- FlatDirGroupedSortModel.SortModel.Sort: `std::sort` is represented by a stable insertion sort, which is one of its admissible outcomes. The source-to-proxy vector is not claimed to be the inverse afterwards, because the source does not make it one.
- FlatDirGroupedSortModel.SortModel.RequestSortForItems: `std::nth_element` followed by `std::partial_sort` is represented by its fully sorted outcome. It requires that the clamped window ends do not cross. When they cross, for example when startId - 50 > rowCount, the source hands `std::partial_sort` a middle before its first.
- KDirListerV2Private.ListerPrivate.IndexToUrl: requires a non-negative index, where `QList::at` asserts.
- KDirListerV2Private.ListerPrivate.Directory: requires a non-negative index, where `QList::at` asserts.
- KDirectoryPrivate.DirectoryPrivate.ProcessFilterFlags: runs the corrected filter (KeepIntended), not the code as written (KeepAsWritten). They differ in three ways. (1) NoDot | Hidden with "..", and NoDotDot | Hidden with ".": the source drops the entry and the model keeps it. (2) Hidden set, with a hidden entry such as ".bashrc" under Dirs | Files | Hidden: the source drops it and the model keeps it. (3) Hidden unset and flags other than NoFilter, with a hidden entry, such as ".bashrc" under Dirs | Files | NoDotAndDotDot: the source keeps it and the model drops it.
- KDirectoryPrivate.DirectoryPrivate.SlotEntries: filters through ProcessFilterFlags, so it departs from the source on the same inputs.
- KDirListerV2Private.ListerPrivate.RemoveUrlBookkeepingAndData: moves the later indices down by one (Shifted). After open "a", open "b", reload "a", the source leaves "b" at 1 and the model gives 0, where "b" now sits.
- KDirListerV2Private.ListerPrivate.AddUrl: removes through the corrected RemoveUrlBookkeepingAndData, so the same input departs.
- UrlUndoRedo.History.HasNext: is the corrected hasNext (index + 1 < count). With urls ["/home"] at index 0 the source answers true and the model answers false.
- FlatDirGroupedSortModel.SortModel.MapFromSource: reads the source-to-proxy vector, where line 181 reads `m_fromProxyToSource`. With proxy rows showing source rows [1, 2, 0], source row 1 maps to proxy row 2 in the source and to 0 in the model. MapFromSourceAsWritten is the code as written.
- FlatDirGroupedSortModel.SortModel.Sort: compares columns other than Name with the corrected VariantLess, not the comparison as written. They differ on Int(-1) against Invalid, where the written one says each is less than the other. For a group with no rows the source dereferences the end iterator of `std::minmax_element` at line 155; the model answers None.
- DirListModel.RowData: the request `loadEntryDetails` makes for the Size, ModificationTime, AccessTime, CreationTime, User and Group roles when the entry lacks full data is not modelled; that request starts a stat job, which is I/O.
- DirGroupedModel.GroupedModel.ProcessEntry: likewise does not model the `loadEntryDetails` request made when grouping by a role that needs full data.
- Outside the tries and KStringUnicode, a `QString` is a Dafny `string`, whose characters are Unicode scalar values. A lone surrogate cannot be written, and Ordering.StrLess orders by code point, where `QString::compare` orders by UTF-16 code unit. The two orders differ between characters U+E000..U+FFFF and characters above U+FFFF.
- The roles Hidden (UserRole + 13) and None (UserRole + 14) of DirListModel are this model's numbering. The role enum in dirlistmodel.h stops at Group, and the model places them after it.

## Findings

| source | as written | input that shows it | evidently intended | confidence | as-written member | corrected member |
|---|---|---|---|---|---|---|
| kradix.cpp:160-165 | value follows the first node sharing a prefix and ignores what is left of that node's key | insert "team"->1 and "test"->2, then value("tam") reads 1 | follow a node only when its whole key is a prefix of the key | not executed | KRadix.ValueIgnoresLabelRest | KRadix.ValueFixedSound |
| utils/urlundoredo.cpp:67-73 | hasNext is index < count | one entry, index 0: hasNext is true, yet next() does not move | hasNext is index + 1 < count, exactly when next() moves | not executed | UrlUndoRedo.HasNextAtLastEntry | UrlUndoRedo.HasNextIntended |
| kdirectoryprivate_p.cpp:92-116 | `flags & NoDotAndDotDot` fires on NoDot or NoDotDot alone; the Hidden flag rejects hidden entries | NoDot and Hidden drop ".."; Dirs, Files and Hidden drop ".bashrc"; Dirs, Files and NoDotAndDotDot keep ".bashrc" | each dot flag drops only its own name; hidden entries are shown only when Hidden is set, as the comment at line 113 says | not executed | KDirectoryPrivate.KeepAsWrittenCounterexamples | KDirectoryPrivate.KeepIntendedRules |
| kdirlisterv2_p.cpp:66-75 | removeAt shifts the later directories, but the table keeps their old indices | open "a", open "b", reload "a": urlToIndex("b") is 1, where "a" now sits | move the later indices down by one | not executed | KDirListerV2Private.ReloadLeavesStaleIndex | KDirListerV2Private.RemoveShiftedConsistent |
| models/flatdirgroupedsortmodel.cpp:325-331 | an invalid left value is less than any valid right value, and an Int left value compares with the right value's toInt() | Invalid < Int(-1), and Int(-1) < Invalid because Invalid.toInt() is 0 | invalid values first, and a strict weak order for std::sort | not executed | FlatDirGroupedSortModel.VariantLessThanNotAsymmetric | FlatDirGroupedSortModel.VariantLessOrdersInts |
| models/flatdirgroupedsortmodel.cpp:178-185 | mapFromSource reads m_fromProxyToSource | proxy rows show source rows [1, 2, 0]: source row 1 maps to proxy row 2 instead of 0 | read m_fromSourceToProxy | not executed | FlatDirGroupedSortModel.MapFromSourceNotInverse | FlatDirGroupedSortModel.SortModel.MapsRoundTrip |
