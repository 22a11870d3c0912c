# Five textbook algorithms, modelled and verified in Dafny

This project models five small solutions from a LeetCode-style practice
repository, one Dafny module per source file. Each module proves its
solution against an independent statement of what the solution promises.

- `Palindrome` (`valid_palindrome.dfy`) covers the fixed two-pointer
  `isPalindrome`. Two indices walk in from both ends and skip characters
  that are not letters or digits. The letters and digits they meet are
  compared after lower-casing. The method is proved to agree with the
  filter-and-reverse solution from the same file: keep the letters and
  digits, lower-case them, and compare the result with its reverse.
  `Normalize` is that filter and `IsPalindromeByFilter` is that solution.
- `LinkedList` (`reverse_link_list.dfy`) covers both in-place
  `reverseList` solutions.
  - `ListNode` becomes the class `Node`, with mutable `val` and `next`
    fields.
  - A ghost sequence of nodes describes the list. `IsList` says that the
    nodes are pairwise distinct, linked in order and ended by null, which
    makes the list acyclic.
  - Both methods re-point the `next` fields. They return the head of a
    list made of the same nodes in reverse order, and each node keeps its
    value.
- `StockProfit` (`best_time_to_buy_and_sell_stock.dfy`) covers the fixed
  `maxProfit` and the max/min `maxProfit`.
  - `IsMaxProfit` states the best single trade: no pair of days `i < j`
    earns more, the result is never negative, and unless it is 0 some pair
    earns exactly that much.
  - Both loops establish `IsMaxProfit`. Since the best profit is unique,
    the two loops agree.
- `BinarySearch` (`binary_search.dfy`) covers the correct `search` over a
  strictly ascending list.
- `ContainsDuplicate` (`contains_duplicates.dfy`) covers the early-exit
  loop over a growing set and the set-size solution. Both are tied to
  `HasRepeat`, which holds when some value stands at two different
  positions.
- `Sequences` (`sequences.dfy`) holds the shared notions `Reverse`
  (Python's `s[::-1]`) and `IsPal`.

Python lists that the code only reads are Dafny `seq`s. The linked list,
which the code changes in place, consists of heap objects. Python integers
are unbounded, as Dafny's `int` is, so no wrap-around needs modelling.
All operands of `//` in the binary search are non-negative, so Python's
floor division and Dafny's `/` agree there.

## Model

| member | source | states |
|---|---|---|
| Palindrome.IsPalindrome | two_pointers/valid_palindrome.py:63-86 | the two-pointer loop answers true exactly when the lower-cased letters and digits of `s` read the same both ways, i.e. it agrees with the filter-and-reverse solution on every string; the loop terminates and every index it reads is in range |
| Palindrome.WindowStep | two_pointers/valid_palindrome.py:68-84 | one loop step on the window `s[front..back]`: a non-alphanumeric end character can be dropped without changing the filtered window; with letters or digits at both ends, the window is a palindrome exactly when the two ends agree after lower-casing and the inside is a palindrome (so a mismatch answers false at once) |
| Palindrome.IgnoresNonAlphaNum | two_pointers/valid_palindrome.py:72-78 | inserting a character that is not a letter or digit anywhere in `s` never changes the answer |
| Palindrome.CaseInsensitive | two_pointers/valid_palindrome.py:94 | lower-casing the whole input first never changes the answer |
| Palindrome.NormalizeLowerAll | two_pointers/valid_palindrome.py:92-94 | the filtered string of a lower-cased input equals the filtered string of the input |
| Palindrome.NormalizeAppend | two_pointers/valid_palindrome.py:91-94 | the filter distributes over concatenation: filtering `a + b` gives filtered `a` followed by filtered `b` |
| Palindrome.Normalize | two_pointers/valid_palindrome.py:91-94 | the string the reference solution builds: the letters and digits of `s`, lower-cased, in order; it is never longer than `s` |
| Palindrome.Keep | two_pointers/valid_palindrome.py:93-94 | what one loop step appends for a character: nothing unless it is a letter or digit, else the character lower-cased |
| Palindrome.NormalizeChars | two_pointers/valid_palindrome.py:93-94 | the filtered string holds only letters and digits, and no upper-case letter |
| Palindrome.NormalizeSingle | two_pointers/valid_palindrome.py:92-94 | a single character survives the filter, lower-cased, exactly when it is a letter or digit |
| Palindrome.IsPalindromeByFilter | two_pointers/valid_palindrome.py:89-95 | the reference solution: the filtered string equals its reverse; the empty string and every one-character string are palindromes |
| Palindrome.IsAlphaNum | two_pointers/valid_palindrome.py:72-76 | the characters the two-pointer loop tests for (and `isalnum` at line 93 keeps): a digit, or a character whose lower-case form is a letter; every one of them is ASCII |
| Palindrome.ToLower | two_pointers/valid_palindrome.py:80 | `lower()` (also at line 94): an upper-case letter becomes the lower-case letter at the same alphabet position; every other character is returned unchanged |
| Sequences.Reverse | two_pointers/valid_palindrome.py:95 | `s[::-1]`: a sequence of the same length holding `s` back to front |
| Palindrome.NormalizeFour | two_pointers/valid_palindrome.py:91-94 | filtering four concatenated pieces gives the four filtered pieces in order |
| Palindrome.CarCatExample | two_pointers/valid_palindrome.py:10-13 | "Was it a car or a cat I saw?" is a palindrome |
| Palindrome.TabCatExample | two_pointers/valid_palindrome.py:17-20 | "tab a cat" is not a palindrome |
| Palindrome.DocExamples | two_pointers/valid_palindrome.py:8-20 | the two-pointer solution answers true on the first worked example and false on the second |
| Sequences.PalShell | two_pointers/valid_palindrome.py:80-84 | `x + m + y` is a palindrome exactly when `x == y` and `m` is a palindrome |
| Sequences.PalPointwise | two_pointers/valid_palindrome.py:95 | a sequence equals its reverse exactly when each position matches its mirror position |
| Sequences.ShortIsPal | two_pointers/valid_palindrome.py:95 | a sequence of length at most one equals its reverse |
| LinkedList.Node.constructor | linked_list/reverse_link_list.py:27-30 | a new node holds the given value and successor |
| LinkedList.ReverseList | linked_list/reverse_link_list.py:60-84 | the corrected solution returns the head of the list made of the same nodes in reverse order, which is acyclic and ends at the old head; no node's value changes, and the values read along the result are the old values reversed; an empty list comes back as null and a one-node list comes back unchanged |
| LinkedList.ReverseListPrevCurr | linked_list/reverse_link_list.py:87-96 | the prev/curr solution has the same contract as the corrected solution; its loop invariant says that `prev` heads the reversed visited prefix and `curr` heads the untouched suffix |
| LinkedList.ReversedLinks | linked_list/reverse_link_list.py:70-83 | when the first node points at null and every other node points back at its predecessor, the last node heads the list `Reverse(nodes)` |
| LinkedList.ValsKept | linked_list/reverse_link_list.py:72-83 | nodes whose values did not change keep the old value sequence and, read in reverse order, give it reversed |
| LinkedList.IsListUnique | linked_list/reverse_link_list.py:27-30 | following `next` from a head determines the node sequence, so the result of a reversal is the same list whichever solution produced it |
| LinkedList.BuildExample | linked_list/reverse_link_list.py:8-10 | builds the worked example list 0 -> 1 -> 2 -> 3 from fresh nodes |
| LinkedList.ExampleValsReversed | linked_list/reverse_link_list.py:10-12 | the values 0, 1, 2, 3 reversed are 3, 2, 1, 0 |
| LinkedList.ReverseListExample | linked_list/reverse_link_list.py:8-12 | the corrected solution turns 0 -> 1 -> 2 -> 3 into the returned chain 3 -> 2 -> 1 -> 0, ended by null |
| LinkedList.ReverseListPrevCurrExample | linked_list/reverse_link_list.py:8-12 | the prev/curr solution turns 0 -> 1 -> 2 -> 3 into the returned chain 3 -> 2 -> 1 -> 0, ended by null |
| LinkedList.EmptyExample | linked_list/reverse_link_list.py:13-17 | both solutions return null for the empty list |
| StockProfit.MaxProfit | sliding_window/best_time_to_buy_and_sell_stock.py:58-72 | the fixed one-pass solution returns the best single-trade profit (never negative, no pair `i < j` earns more, and a positive result is earned by some pair); its invariant says that `lowest_price` is the minimum of the prices seen so far; it needs at least one price because it reads `prices[0]` |
| StockProfit.MaxProfitMaxMin | sliding_window/best_time_to_buy_and_sell_stock.py:75-83 | the max/min solution returns the same best single-trade profit |
| StockProfit.MaxProfitUnique | sliding_window/best_time_to_buy_and_sell_stock.py:4-6 | at most one value meets the best-profit statement |
| StockProfit.SolutionsAgree | sliding_window/best_time_to_buy_and_sell_stock.py:58-83 | the fixed and the max/min solutions return the same value on every non-empty input |
| StockProfit.FallingPairs | sliding_window/best_time_to_buy_and_sell_stock.py:17-20 | in a strictly falling series every later price is below every earlier one |
| StockProfit.FallingGivesZero | sliding_window/best_time_to_buy_and_sell_stock.py:17-20 | a strictly falling series offers no profitable trade, so the best profit is 0 |
| StockProfit.FirstExample | sliding_window/best_time_to_buy_and_sell_stock.py:10-13 | the best profit on [10, 1, 5, 6, 7, 1] is 6 |
| StockProfit.SecondExample | sliding_window/best_time_to_buy_and_sell_stock.py:17-20 | the best profit on [10, 8, 7, 5, 2] is 0 |
| StockProfit.DocExamples | sliding_window/best_time_to_buy_and_sell_stock.py:8-20 | both solutions return 6 on the first worked example and 0 on the second |
| BinarySearch.Search | binary_search/binary_search.py:59-74 | on a strictly ascending list, the result is -1 exactly when the target is absent; otherwise it is the one index holding the target; the probed middle always lies in the window, and the window shrinks on every step |
| BinarySearch.DocExamples | binary_search/binary_search.py:16-25 | in [-1, 0, 2, 4, 6, 8], 4 is found at index 3 and 3 gives -1 |
| BinarySearch.EmptyExample | binary_search/binary_search.py:60-63 | the empty list gives -1 for every target |
| ContainsDuplicate.HasDuplicate | arrays_hashing/contains_duplicates.py:15-24 | the loop answers true exactly when some value occurs at two positions, and agrees with the set-size solution; it stops at the first position whose value occurred earlier, and no value repeats before that position |
| ContainsDuplicate.HasDuplicateBySize | arrays_hashing/contains_duplicates.py:28-30 | fewer distinct values than positions exactly when some value occurs at two positions |
| ContainsDuplicate.Elements | arrays_hashing/contains_duplicates.py:30 | `set(nums)`: a value belongs to the set exactly when it occurs in the list |
| ContainsDuplicate.ElementsCount | arrays_hashing/contains_duplicates.py:30 | a list never has more distinct values than positions, and has exactly as many when no value repeats |
| ContainsDuplicate.DocExamples | arrays_hashing/contains_duplicates.py:4-12 | [1, 2, 3, 3] gives true, [1, 2, 3, 4] gives false, and the empty list gives false, for both solutions |

## Left out

- The earlier attempts that the files keep beside the working solutions are not modelled. Their own comments record them as wrong. They are two_pointers/valid_palindrome.py:32-60, linked_list/reverse_link_list.py:32-56, sliding_window/best_time_to_buy_and_sell_stock.py:37-55 and binary_search/binary_search.py:36-55.
- Palindrome.IsAlphaNum: Python's `isalpha`, `isnumeric`, `isalnum` and `lower` also accept and convert non-ASCII letters and digits. The model keeps only the ASCII letters and digits that the problem statement names and skips every other character. So the answers differ on inputs with non-ASCII letters or digits: on "éa" the model answers true, while Python compares 'é' with 'a' and answers False. On ASCII input, `isalpha() or isnumeric()` and `isalnum()` select the same characters, so one predicate serves both solutions.
- The O(log n) running-time requirement of the binary search is not modelled, and neither is hash-set performance. Only functional behaviour is modelled.
- The `Solution` class wrappers, `self` and the type annotations carry no behaviour and have no counterpart.
- The node sequence that the list methods take is a ghost parameter: it describes the list in the proof and is not part of the computation.
- LinkedList.ReverseList: the model requires a well-formed list, one that is acyclic and ends in null, because the problem statement defines the input as a singly linked list of 0 to 1000 nodes (linked_list/reverse_link_list.py:6, 20). The Python code accepts any `ListNode` chain. On a cyclic chain its loop still stops: it returns the old head and leaves a cycle behind. The model does not capture that behaviour.
- LinkedList.ReverseListPrevCurr: the same well-formed-list requirement applies, for the same reason. On a cyclic chain this loop, too, stops, returns the old head and leaves a cycle, which the model does not capture.
- StockProfit.MaxProfit: the constraints 0 <= price <= 100 and length <= 100 are not needed, so the model accepts any integer prices. It keeps only the non-empty requirement, which the read of `prices[0]` at sliding_window/best_time_to_buy_and_sell_stock.py:59 imposes.
- StockProfit.MaxProfitMaxMin: the same non-empty requirement, imposed by the read of `prices[0]` at sliding_window/best_time_to_buy_and_sell_stock.py:78; any integer prices are accepted.
