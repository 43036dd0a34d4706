# dom_distances in Dafny

This project models `dom_distances.py`, a small Python 2 program. It measures how far one
"simplified DOM" is from another. A DOM here is a flat list of CSS-selector-like elements,
each with a tag, an optional id and an insertion-ordered set of class names, written like
`div#main.wide.dark`. The program has four parts, and each has a Dafny module:

- `OrderedSets`: the insertion-ordered set recipe the elements keep their classes in.
  It is a class with the same fields as the Python object:
  - `links` is `self.map`. Each key maps to its list cell, held as the cell's two neighbours.
  - `head` and `tail` are the sentinel cell's `next` and `prev`.
  - `None` stands for the sentinel itself.
  - A ghost field `Keys` holds the keys in iteration order.
  - The invariant `Threaded` says that following the links from the sentinel visits exactly
    `Keys`, in order.
  - `add`, `discard` and `pop` rewire the cells in place and are proved to keep that invariant.
- `Dom`: the element value, its rendering (`__str__`), `copy`, and the rendering of a list
  (`str(list)`, which uses each element's `__repr__`, itself `__str__`). The `Text` module
  models Python's `str.split` and `str.join`, which both need.
- `Parser`: `parse_dom`. The line is split on single spaces, and each token is matched at
  its start against `([0-9a-zA-z-_]+)(#[0-9a-zA-z-_]*)?(\.[0-9a-zA-z-_.]*)?`. That pattern
  never backtracks, so it is modelled as a scanner that takes the longest run for each group.
  A token the pattern does not match is an error, as `None.group` raises in Python.
- `Costs` and `Distances`: the edit costs and `shortest_distance`.
  - `Distance` is the value the recursive search returns, as a pure function.
  - `ShortestDistance` is the search itself: a method with the source's loop and early
    returns, proved to return `Distance`.
  - Termination is by the lexicographic measure (unmatched target length, original length).
    Altering and adding lengthen the matched prefix; deleting keeps it and shortens the original.

What is proved, beyond each operation meeting its contract:

- The ordered set keeps first-insertion order. It drops later duplicates, `discard` closes the
  gap it leaves, and `reversed` is the exact reverse of iteration.
- Parsing is the inverse of rendering. A rendered element parses back to itself, an empty id
  coming back as no id. A space-joined line of the renderings of a non-empty list parses back
  to the list. The empty line is not covered: `re.match` on the empty token fails, so
  `parse_dom("")` raises.
- Two well-formed elements render the same exactly when they agree after normalising the id.
  Two lists print the same exactly when they render the same position by position.
- Adding an element costs one more than the number of `#` and `.` marks in its rendering.
  Altering is free exactly when tag and id agree and the classes are the same set.
- The distance is 0 exactly when the lists have the same length and each pair of elements at
  the same position either renders the same (an empty id counting as none) or has the same tag,
  the same id and the same set of classes. It is at least the difference in length. It is at most the cost of deleting
  everything after the matched prefix and adding the rest of the target.
- Where the Python loop could fall off its end and return `None`, the base case has always
  answered already.

Two points where the model follows the code rather than what an edit distance would ideally be:

- A full dynamic-programming alignment would always find the optimal edit. The code instead
  recurses and branches only at the first position whose renderings differ, and so does `Distance`.
- Ideally class order would never matter. In the code, a position counts as matching only when
  the renderings are equal, and that comparison is order-sensitive. Python 2's
  `Set.__ne__` is `not __eq__`, so the guard at line 162 compares classes in order too.
  `Costs.ClassTermIsDifference` shows that the class term still equals the symmetric difference.
  `Distances.DistanceZero` shows the search still finds distance 0 for lists that differ only in
  class order. Class order still matters when one id is `""` and the other is `None`: the two
  render alike but are not equal, so altering costs 1. For example, `div#.a.b` against `div.a.b`
  costs 0, but against `div.b.a` it costs 1.

## Model

| member | source | states |
|---|---|---|
| OrderedSets.OrderedSet.constructor | dom_distances.py:6-11 | the new set holds the iterable's keys, each at its first occurrence, later duplicates dropped, and its cells are threaded in that order |
| OrderedSets.Dedup | dom_distances.py:6-11 | adding the keys one by one leaves distinct keys, the same keys as the iterable, and no more of them than the iterable has |
| OrderedSets.DedupFirstOccurrenceOrder | dom_distances.py:6-11 | the keys come out in the order of their first occurrence in the iterable |
| OrderedSets.DedupOfDistinct | dom_distances.py:6-11 | an iterable without repeats is kept as it is, in its order |
| OrderedSets.OrderedSet.Len | dom_distances.py:13-14 | `len` is the number of keys in the set |
| OrderedSets.DistinctCard | dom_distances.py:13-14 | keys without repeats are as many as their distinct values, so the map's size is the set's size |
| OrderedSets.OrderedSet.Contains | dom_distances.py:16-17 | `key in s` holds exactly for the keys iteration yields |
| OrderedSets.OrderedSet.Add | dom_distances.py:19-23 | adding a present key changes nothing; a new key is appended at the end of the order; the cells stay threaded |
| OrderedSets.LinkKeepsThreaded | dom_distances.py:19-23 | linking a new cell between the old last cell and the sentinel threads the old keys followed by the new one |
| OrderedSets.OrderedSet.Discard | dom_distances.py:25-29 | discarding removes the key and keeps the others in their order; an absent key changes nothing; the cells stay threaded |
| OrderedSets.Remove | dom_distances.py:25-29 | removal takes out exactly the key, leaves the sequence alone when the key is absent, and keeps keys distinct |
| OrderedSets.RemoveAt | dom_distances.py:25-29 | removing the key at position `j` closes the gap: what is left is the keys before `j` then the keys after it |
| OrderedSets.UnlinkKeepsThreaded | dom_distances.py:27-29 | popping a cell from the map and joining its two neighbours threads the remaining keys in their order |
| OrderedSets.BypassUnlinks | dom_distances.py:27-29 | the pointer updates change only the two neighbours of the popped cell, `prev.next` and `next.prev` |
| OrderedSets.OrderedSet.Iter | dom_distances.py:31-36 | following `next` from the sentinel yields exactly the keys, in order |
| OrderedSets.OrderedSet.Reversed | dom_distances.py:38-43 | following `prev` from the sentinel yields the keys in exactly the reverse order |
| OrderedSets.OrderedSet.Pop | dom_distances.py:45-50 | an empty set fails with `KeyError('set is empty')`; otherwise the last key (the first when `last` is false) is returned and removed |
| OrderedSets.OrderedSet.EqualsOrdered | dom_distances.py:57-59 | against another ordered set, equal exactly when the same keys are in the same order |
| OrderedSets.OrderedSet.EqualsIterable | dom_distances.py:60 | against any other iterable, equal exactly when the two hold the same keys as sets |
| Dom.IsNameChar | dom_distances.py:66 | the character class `[0-9a-zA-z-_]` of the pattern, whose range `A-z` also takes in `[`, `\`, `]`, `^`, `_` and the backtick |
| Dom.Truthy | dom_distances.py:79 | Python truthiness of an id, as tested here and at lines 137, 156 and 182: `None` and `""` are both false |
| Dom.NewElement | dom_distances.py:69-72 | the element keeps the tag and id; its classes are the given names, each once, in the order of their first occurrence, as the ordered set builds them; names without repeats are kept as given |
| Dom.Copy | dom_distances.py:89-90 | a copy has the same tag, id and classes in the same order |
| Dom.RenderCopy | dom_distances.py:74-83 | a copy renders like the original |
| Dom.RenderNormalize | dom_distances.py:79-80 | an empty id renders like no id |
| Dom.ClassSuffix | dom_distances.py:76 | the class string is empty exactly when there are no classes, and otherwise starts with `.` |
| Dom.Render | dom_distances.py:74-83 | the rendering starts with the tag, and with the tag, `#` and the id when the id is truthy |
| Dom.ListStr | dom_distances.py:112 | the printed list is enclosed in `[` and `]` |
| Dom.RenderChars | dom_distances.py:74-83 | a well-formed rendering is non-empty and holds only name characters, `#` and `.`, so no comma and no space |
| Dom.ListStrMatch | dom_distances.py:112 | two lists of well-formed elements print the same exactly when they render the same position by position |
| Text.Split | dom_distances.py:95 | the pieces are at least one, hold no separator, and take their characters from the string |
| Text.Join | dom_distances.py:95 | the joined string starts with the first piece, and with the first piece and the separator when there are more pieces |
| Text.JoinSplit | dom_distances.py:95 | joining the pieces of a split with the separator gives the string back |
| Text.SplitJoin | dom_distances.py:95 | splitting a join of separator-free pieces gives the pieces back |
| Parser.InGroup | dom_distances.py:66 | with dots, the class `[0-9a-zA-z-_.]` of group 3; without, the name class of groups 1 and 2 |
| Parser.RunEnd | dom_distances.py:66 | each group takes the longest run of its characters: every character before the end is in the group and the next one is not |
| Parser.IdGroupEnd | dom_distances.py:99 | group 2 extends past the tag exactly when `#` follows the tag, and ends within the token |
| Parser.IdGroup | dom_distances.py:99 | there is an id exactly when `#` follows the tag; it is a name, empty for a bare `#`, and `#` followed by it is exactly the text of group 2, so it is `m.group(2)[1:]` |
| Parser.ClassGroup | dom_distances.py:100 | there are classes exactly when `.` follows the id group; each is a name, and writing each back after a `.` gives exactly the text of group 3 |
| Parser.DottedRun | dom_distances.py:100 | splitting a run that starts with `.` on `.` and dropping the first piece leaves at least one piece, and writing each back after a `.` gives the run |
| Parser.MatchEnd | dom_distances.py:66 | the match of the pattern ends within the token and no earlier than the end of the tag |
| Parser.MatchIgnoresTail | dom_distances.py:96-100 | `re.match` anchors only the start: cutting the token anywhere at or after the end of the match parses the same, so `div.a#b` parses as `div.a` |
| Parser.SplitClassSuffix | dom_distances.py:100 | splitting a rendered class suffix on `.` gives an empty piece and then the class names, which `[1:]` keeps |
| Parser.ParseToken | dom_distances.py:96-102 | a token matches exactly when it is non-empty and starts with a name character |
| Parser.ParseTokenGroups | dom_distances.py:96-102 | a matched token gives a well-formed element whose tag is the longest leading name run and which has an id exactly when `#` follows the tag |
| Parser.ParseParts | dom_distances.py:96-102 | a token written as tag, optional `#id` and class suffix parses to the element built from those parts |
| Parser.ParseRender | dom_distances.py:96-102 | parsing the rendering of a well-formed element gives the element back, an empty id as no id |
| Parser.RenderMatch | dom_distances.py:74-83 | two well-formed elements render the same exactly when they are equal once empty ids are replaced by no id |
| Parser.ParseTokens | dom_distances.py:95-105 | on success there is one element per token, each the token's match; on failure the error is the first token the pattern does not match |
| Parser.ParseTokensSucceeds | dom_distances.py:95-105 | parsing succeeds exactly when every token matches |
| Parser.FirstFailureUnique | dom_distances.py:96-98 | the error is exactly the first unmatched token |
| Parser.AllParsed | dom_distances.py:95-105 | when every token matches, the result is the list of their elements |
| Parser.ParseDom | dom_distances.py:93-105 | the loop appending one element per space-separated token returns what `ParseTokens` gives for the split line |
| Parser.SplitRenderedLine | dom_distances.py:95 | splitting a space-joined line of well-formed renderings on spaces gives the renderings back |
| Parser.ParseRenderedLine | dom_distances.py:93-105 | a space-joined line of renderings parses back to the list, empty ids as no id |
| Costs.AddCost | dom_distances.py:181-186 | adding an element costs at least 1 |
| Costs.AddCostCountsParts | dom_distances.py:181-186 | adding a well-formed element costs one plus the number of `#` and `.` marks in its rendering |
| Costs.AddCostSum | dom_distances.py:133-139 | adding a list costs at least one per element |
| Costs.AddCostSumAppend | dom_distances.py:133-139 | adding two lists one after the other costs the sum of the two |
| Costs.AddCostSumSuffix | dom_distances.py:133-139 | a later suffix never costs more to add than an earlier one |
| Costs.ClassDifference | dom_distances.py:163 | union size minus intersection size is the number of classes in exactly one of the two |
| Costs.AlterCost | dom_distances.py:152-163 | altering costs something whenever the tags or the ids differ, and at most 3 plus the number of classes in exactly one of the two |
| Costs.AlterCostZero | dom_distances.py:152-163 | altering is free exactly when tags and ids agree and the classes are the same set |
| Costs.AlterCostSymmetric | dom_distances.py:152-163 | altering one element into another costs the same both ways |
| Costs.ClassTermIsDifference | dom_distances.py:162-163 | the class term is the symmetric difference even though it is guarded by an ordered comparison |
| Costs.AlterCostSelf | dom_distances.py:152-163 | altering an element into itself costs nothing |
| Distances.MatchedPrefix | dom_distances.py:119-144 | the loop's stopping index: everything before it renders the same, and at it the renderings differ unless a list has ended |
| Distances.Minimum | dom_distances.py:191 | `min` returns an element of the list no greater than any element |
| Distances.MinimumOfThree | dom_distances.py:168-191 | `min` of the list built by the three appends is the least of the three candidates |
| Distances.Replace | dom_distances.py:165 | the altered list has the same length, the new element at `i` and every other element as before |
| Distances.Delete | dom_distances.py:176 | the list without position `i` is one shorter; elements before `i` stay, and those after move down one place |
| Distances.Insert | dom_distances.py:188 | the list with the new element at `i` is one longer; elements before `i` stay, and those from `i` on move up one place |
| Distances.EditsProgress | dom_distances.py:165-188 | altering or adding at the first mismatch lengthens the matched prefix; deleting there keeps it |
| Distances.NoFallThrough | dom_distances.py:112-144 | lists of equal length that match everywhere print the same, so the loop never falls off its end |
| Distances.Distance | dom_distances.py:108-191 | no contract of its own: the value the search returns, 0 when the lists print the same, else the cheapest edit at the first mismatch, the surplus length of the original, or the cost of adding the rest of the target; the lemmas below state its properties |
| Distances.CheapestEdit | dom_distances.py:191 | no contract of its own: `min` of the three candidates; `CheapestEditAtMost` and `DistanceMismatch` state it |
| Distances.AlterCandidate | dom_distances.py:152-168 | no contract of its own: the search from the altered list plus the alteration cost |
| Distances.DeleteCandidate | dom_distances.py:175-177 | no contract of its own: the search from the list without the element plus `Costs.DeleteCost`, the constant 1 of line 175 |
| Distances.AddCandidate | dom_distances.py:181-189 | no contract of its own: the search from the list with the inserted copy plus the add cost |
| Distances.ShortestDistance | dom_distances.py:108-191 | the search with its loop and early returns returns `Distance` |
| Distances.AddAll | dom_distances.py:133-139 | the loop adding up the add costs of the target's tail returns their sum |
| Distances.CheapestEditAt | dom_distances.py:146-191 | the three candidates, appended and reduced with `min`, give the distance |
| Distances.AlterAt | dom_distances.py:152-168 | the alteration candidate is its cost plus the distance from the list with a copy of the target element in place |
| Distances.DeleteAt | dom_distances.py:175-177 | the deletion candidate is 1 plus the distance from the list without the element |
| Distances.AddAt | dom_distances.py:181-189 | the addition candidate is its cost plus the distance from the list with a copy of the target element inserted |
| Distances.DistanceTail | dom_distances.py:120-141 | when one list is a rendering prefix of the other, the distance is the number of extra original elements, or the cost of adding the extra target elements |
| Distances.DistanceToEmpty | dom_distances.py:124-126 | editing into the empty list costs the length of the original |
| Distances.DistanceFromEmpty | dom_distances.py:130-139 | editing the empty list costs the sum of the add costs |
| Distances.DistanceMismatch | dom_distances.py:143-191 | at the first mismatch the distance is one of the three candidates and no more than any of them |
| Distances.CheapestEditAtMost | dom_distances.py:191 | the cheapest edit is at most each of the three candidates |
| Distances.CheapestEditZero | dom_distances.py:191 | a free cheapest edit is a free alteration followed by a free search |
| Distances.DistanceUpperBound | dom_distances.py:108-191 | the distance is at most the cost of deleting the rest of the original and adding the rest of the target |
| Distances.DistanceAtMost | dom_distances.py:108-191 | the distance is at most the original's length plus the cost of adding the whole target |
| Distances.DistanceLowerBound | dom_distances.py:108-191 | the distance is at least the difference in length, either way |
| Distances.DistanceZero | dom_distances.py:112-191 | the distance is 0 exactly when the lists have the same length and agree position by position, by rendering or by a free alteration |
| Distances.SamePrintInterchangeable | dom_distances.py:112-114 | lists that print the same agree position by position |
| Distances.ReplaceInterchangeable | dom_distances.py:152-165 | a free alteration does not change whether the lists agree position by position |

## Left out

- The driver at dom_distances.py:194-207 is left out. It reads `test_cases.txt`, prints, and stops after the first case because of `break`. File I/O and printing are outside the model.
- The `try`/`except` at dom_distances.py:167-170 rewraps any exception, including Python's recursion-depth error, as a generic `Exception`. This is runtime behaviour, not logic, so the recursion runs without a depth limit here.
- `__repr__` of the ordered set (dom_distances.py:52-55) is display only. So are the commented-out debug prints.
- `from sets import Set` (dom_distances.py:64) is unused. The `collections.MutableSet` mixins beyond the methods the file defines are not modelled. The `|` and `&` at line 163 enter only through the sizes of union and intersection.
- The regex engine in general is left out. Only the fixed three-group pattern of line 66 is modelled, as a scanner.
- The ordered set's list cells are not modelled as Python lists that point at each other, and the sentinel is not a real cell. A cell is named by its key and holds its two neighbours, and `None` stands for the sentinel. Aliasing of the cells is therefore not captured. The rewiring at lines 23 and 28-29 is captured.
- `OrderedSets.OrderedSet.constructor`: `iterable=None` is taken as an empty sequence, and any iterable as a sequence.
- `OrderedSets.OrderedSet.EqualsIterable`: the other iterable is taken as a sequence.
- `OrderedSets.OrderedSet.Pop`: `KeyError` is returned as a `Failure` value rather than raised, and `last` is an explicit parameter, because Dafny has no default arguments; `last=True` in Python is `Pop(true)` here.
- `Parser.ParseDom`: the `AttributeError` that `m.group` raises on an unmatched token is returned as a `Failure` carrying that token.
- An element's class set is a value here: a sequence of distinct names. The `OrderedSet` object the element holds is not modelled, because nothing changes it after construction. `Dom.NewElement` builds that sequence exactly as successive `add`s do.
- Generators (`__iter__`, `__reversed__`) are modelled as methods that return the whole sequence they would yield.
- `Distances.ShortestDistance`: the `original.append` at line 135 is left out. It changes a list nobody reads afterwards.
- `Distances.ShortestDistance`: the implicit `None` that Python would return when the loop runs off its end is left out. `Distances.NoFallThrough` proves that case cannot happen, and the method asserts it is dead.
- `Distances.ShortestDistance`: the body of the mismatch branch (lines 147-191) is split into `CheapestEditAt`, `AlterAt`, `DeleteAt` and `AddAt`, each doing one of its steps. The order of the three recursive calls and appends is kept.
